/** Copies of bit runs between the stream and a caller's byte buffer: `writeBits` and `readBits`,
    each with an aligned bulk-copy path and an unaligned shift-and-merge loop.

    Each is modelled twice: a closed form that says, byte by byte, what the copy leaves behind
    (`MergedBytes`, `GatheredBytes`), proved equal to its bit-level meaning (`WrittenBit`,
    `ReadBit`); and a method whose loop follows the source's loop statement by statement, proved
    to compute the closed form. */
module BitCopy {
  import opened Bits
  import opened Bitstream

  // ---------------------------------------------------------------------------
  // The byte expressions of the two loops, evaluated as the source evaluates them: operands
  // are promoted to 32 bits and the result is stored back into a byte.

  /** `destMask = (1 << BITS_PER_QUANT) - 1`: all eight bits of a byte. */
  const DEST_MASK: bv32 := (1 << 8) - 1

  /** Storing a 32-bit value into a byte keeps its low eight bits. */
  function Low8(x: bv32): bv8
  {
    (x & 0xFF) as bv8
  }

  /** `mData[destQuant] = (quant << destBitsMod) | (mData[destQuant] & destMask)`. Since
      `destMask` covers the whole byte, every bit the destination held survives: the new bits
      are OR-ed in rather than replacing the old ones. */
  function MergeFirst(quant: bv8, dest: bv8, m: nat): (r: bv8)
    requires m < 8
    ensures forall j | 0 <= j < 8 :: BitOf(r, j) == ((j >= m && BitOf(quant, j - m)) || BitOf(dest, j))
  {
    MergeFirstBits(quant, dest, m);
    Low8(((quant as bv32) << m) | ((dest as bv32) & DEST_MASK))
  }

  lemma MergeFirstBits(quant: bv8, dest: bv8, m: nat)
    requires m < 8
    ensures Low8(((quant as bv32) << m) | ((dest as bv32) & DEST_MASK)) == (quant << m) | dest
    ensures forall j | 0 <= j < 8 ::
      BitOf((quant << m) | dest, j) == ((j >= m && BitOf(quant, j - m)) || BitOf(dest, j))
  {
    forall j | 0 <= j < 8
      ensures BitOf((quant << m) | dest, j) == ((j >= m && BitOf(quant, j - m)) || BitOf(dest, j))
    {
      BitOfOr(quant << m, dest, j);
      BitOfShl(quant, m, j);
    }
  }

  /** `mData[destQuant + 1] = (quant >> writtenBits) | (mData[destQuant + 1] & ~destMask)`. The
      complement of `destMask` has no bit inside a byte, so the byte's previous content is
      discarded: it is overwritten with the high bits of `quant`. */
  function MergeNext(quant: bv8, next: bv8, w: nat): (r: bv8)
    requires 1 <= w <= 8
    ensures forall j | 0 <= j < 8 :: BitOf(r, j) == (j + w < 8 && BitOf(quant, j + w))
  {
    MergeNextBits(quant, next, w);
    Low8(((quant as bv32) >> w) | ((next as bv32) & !DEST_MASK))
  }

  lemma MergeNextBits(quant: bv8, next: bv8, w: nat)
    requires 1 <= w <= 8
    ensures Low8(((quant as bv32) >> w) | ((next as bv32) & !DEST_MASK)) == quant >> w
    ensures var r := quant >> w; forall j | 0 <= j < 8 :: BitOf(r, j) == (j + w < 8 && BitOf(quant, j + w))
  {
    var r := quant >> w;
    forall j | 0 <= j < 8
      ensures BitOf(r, j) == (j + w < 8 && BitOf(quant, j + w))
    {
      BitOfShr(quant, w, j);
    }
  }

  /** One destination byte of the read loop: `quant = 0; quant |= cur >> srcBitsMod;` and, when
      more than `readBits = 8 - srcBitsMod` bits remain, `quant |= next << readBits`. */
  function Gather(cur: bv8, next: bv8, m: nat, both: bool): (r: bv8)
    requires m < 8
    ensures forall j | 0 <= j < 8 ::
      BitOf(r, j) == if j + m < 8 then BitOf(cur, j + m) else both && BitOf(next, j + m - 8)
  {
    var low: bv8 := 0 | (cur >> m);
    var high := Low8((next as bv32) << (8 - m));
    ShrBits(cur, m, low);
    ShlBits(next, 8 - m, high);
    var r := if both then low | high else low;
    GatherBits(cur, next, m, both, low, high, r);
    r
  }

  lemma ShrBits(x: bv8, k: nat, r: bv8)
    requires k < 8 && r == 0 | (x >> k)
    ensures forall j | 0 <= j < 8 :: BitOf(r, j) == (j + k < 8 && BitOf(x, j + k))
  {
    forall j | 0 <= j < 8
      ensures BitOf(r, j) == (j + k < 8 && BitOf(x, j + k))
    {
      BitOfShr(x, k, j);
    }
  }

  /** `x` promoted to 32 bits, shifted left by `k` and stored back into a byte. */
  lemma ShlBits(x: bv8, k: nat, r: bv8)
    requires 0 < k <= 8 && r == Low8((x as bv32) << k)
    ensures forall j | 0 <= j < 8 :: BitOf(r, j) == (j >= k && BitOf(x, j - k))
  {
    if k == 8 {
      assert r == 0;
      forall j | 0 <= j < 8
        ensures !BitOf(r, j)
      {
        BitOfZero(j);
      }
    } else {
      assert r == x << k;
      forall j | 0 <= j < 8
        ensures BitOf(r, j) == (j >= k && BitOf(x, j - k))
      {
        BitOfShl(x, k, j);
      }
    }
  }

  lemma GatherBits(cur: bv8, next: bv8, m: nat, both: bool, low: bv8, high: bv8, r: bv8)
    requires m < 8
    requires forall j | 0 <= j < 8 :: BitOf(low, j) == (j + m < 8 && BitOf(cur, j + m))
    requires forall j | 0 <= j < 8 :: BitOf(high, j) == (j >= 8 - m && BitOf(next, j - (8 - m)))
    requires r == if both then low | high else low
    ensures forall j | 0 <= j < 8 ::
      BitOf(r, j) == if j + m < 8 then BitOf(cur, j + m) else both && BitOf(next, j + m - 8)
  {
    forall j | 0 <= j < 8
      ensures BitOf(r, j) == if j + m < 8 then BitOf(cur, j + m) else both && BitOf(next, j + m - 8)
    {
      if both {
        BitOfOr(low, high, j);
      }
    }
  }

  /** `memcpy(&dest[at], src, len)`. */
  function Memcpy(dest: seq<bv8>, at: nat, src: seq<bv8>, len: nat): (r: seq<bv8>)
    requires at + len <= |dest| && len <= |src|
    ensures |r| == |dest|
    ensures forall i | 0 <= i < |r| :: r[i] == if at <= i < at + len then src[i - at] else dest[i]
  {
    dest[..at] + src[..len] + dest[at + len..]
  }

  // ---------------------------------------------------------------------------
  // writeBits.

  /** The source buffer holds at least the `count` bits to copy and the buffer has room for them. */
  predicate WriteFits(prior: seq<bv8>, src: seq<bv8>, c: nat, n: nat)
  {
    c + n <= 8 * |prior| && DivRoundUp(n, 8) <= |src|
  }

  /** Bit `j` of the bytes the copy reads from the source: `ceil(n / 8)` whole bytes, so a
      trailing partial byte contributes all eight of its bits. */
  predicate SourceBit(src: seq<bv8>, n: nat, j: nat)
  {
    j < 8 * DivRoundUp(n, 8) && j < 8 * |src| && Bit(src, j)
  }

  /** Bit `p` after copying `n` bits of `src` to bit offset `c`, given the bit `before` that
      position held:
      - bits before `c`, and bits of bytes past the last byte the copy reaches, keep `before`;
      - in the one byte that is OR-merged (the trailing partial byte when `c` is byte-aligned,
        the first byte otherwise) the bit is the source bit OR `before`;
      - every other bit of the touched bytes is the corresponding source bit, or clear when it
        lies past the last source byte read. */
  predicate RunBit(src: seq<bv8>, c: nat, n: nat, p: nat, before: bool)
  {
    if n == 0 || p < c || p >= 8 * DivRoundUp(c + n, 8) then before
    else if OrMerged(c, n, p - c) then SourceBit(src, n, p - c) || before
    else SourceBit(src, n, p - c)
  }

  /** Bit `p` of the buffer after copying `n` bits of `src` to bit offset `c` of `prior`. */
  predicate WrittenBit(prior: seq<bv8>, src: seq<bv8>, c: nat, n: nat, p: nat)
    requires WriteFits(prior, src, c, n) && p < 8 * |prior|
  {
    RunBit(src, c, n, p, Bit(prior, p))
  }

  /** Run offset `j` lies in the byte the copy OR-merges with what the buffer held: the trailing
      partial byte on the aligned path, the first destination byte otherwise. */
  predicate OrMerged(c: nat, n: nat, j: nat)
  {
    (c % 8 == 0 && j >= 8 * (n / 8)) || (c % 8 != 0 && j < 8 - c % 8)
  }

  /** Inside the run, a written bit is the source bit, OR-ed with the bit held before where
      the byte is merged. */
  lemma RunBitInRun(src: seq<bv8>, c: nat, n: nat, j: nat, before: bool)
    requires DivRoundUp(n, 8) <= |src| && j < n
    ensures j < 8 * |src|
    ensures RunBit(src, c, n, c + j, before) == (Bit(src, j) || (OrMerged(c, n, j) && before))
  {
    RunBounds(c, n);
  }

  /** Byte `i` of the buffer after the copy, composed of the loop's byte expressions: the aligned
      path copies whole bytes and OR-merges a trailing partial byte; the unaligned path OR-merges
      the first byte, builds each following byte from two source bytes, and overwrites the byte
      after the last whole source byte when the run spills into it. */
  function MergedByte(prior: seq<bv8>, src: seq<bv8>, c: nat, n: nat, i: nat): bv8
    requires WriteFits(prior, src, c, n) && i < |prior|
  {
    var q0 := c / 8;
    var m := c % 8;
    var k := DivRoundUp(n, 8);
    if n == 0 then prior[i]
    else if m == 0 then
      if q0 <= i < q0 + n / 8 then src[i - q0]
      else if i == q0 + n / 8 && n % 8 != 0 then MergeFirst(src[n / 8], prior[i], 0)
      else prior[i]
    else
      if i == q0 then MergeFirst(src[0], prior[i], m)
      else if q0 < i < q0 + k then MergeFirst(src[i - q0], MergeNext(src[i - q0 - 1], prior[i], 8 - m), m)
      else if i == q0 + k && n - 8 * (k - 1) > 8 - m then MergeNext(src[k - 1], prior[i], 8 - m)
      else prior[i]
  }

  /** The buffer after the copy; its bits are exactly those `WrittenBit` describes. */
  function MergedBytes(prior: seq<bv8>, src: seq<bv8>, c: nat, n: nat): (r: seq<bv8>)
    requires WriteFits(prior, src, c, n)
    ensures |r| == |prior|
    ensures forall p | 0 <= p < 8 * |r| :: Bit(r, p) == WrittenBit(prior, src, c, n, p)
  {
    var r := seq(|prior|, i requires 0 <= i < |prior| => MergedByte(prior, src, c, n, i));
    MergedBytesBits(prior, src, c, n, r);
    r
  }

  lemma MergedBytesBits(prior: seq<bv8>, src: seq<bv8>, c: nat, n: nat, r: seq<bv8>)
    requires WriteFits(prior, src, c, n)
    requires |r| == |prior|
    requires forall i | 0 <= i < |r| :: r[i] == MergedByte(prior, src, c, n, i)
    ensures forall p | 0 <= p < 8 * |r| :: Bit(r, p) == WrittenBit(prior, src, c, n, p)
  {
    forall p | 0 <= p < 8 * |r|
      ensures Bit(r, p) == WrittenBit(prior, src, c, n, p)
    {
      var i := p / 8;
      var b := p % 8;
      assert p == 8 * i + b;
      if n == 0 {
      } else if c % 8 == 0 {
        AlignedByteBit(prior, src, c, n, i, b);
      } else {
        assert UnalignedRun(c, n);
        UnalignedByteBit(prior, src, c, n, i, b);
      }
    }
  }

  /** Size facts about a run of `n > 0` bits at offset `c`. */
  lemma RunBounds(c: nat, n: nat)
    requires n > 0
    ensures 8 * (DivRoundUp(n, 8) - 1) < n <= 8 * DivRoundUp(n, 8)
    ensures 8 * (DivRoundUp(c + n, 8) - 1) < c + n <= 8 * DivRoundUp(c + n, 8)
    ensures DivRoundUp(n, 8) >= 1
  {
  }

  lemma AlignedByteBit(prior: seq<bv8>, src: seq<bv8>, c: nat, n: nat, i: nat, b: nat)
    requires WriteFits(prior, src, c, n) && i < |prior| && b < 8
    requires n > 0 && c % 8 == 0
    ensures BitOf(MergedByte(prior, src, c, n, i), b) == WrittenBit(prior, src, c, n, 8 * i + b)
  {
    var q0 := c / 8;
    var k := DivRoundUp(n, 8);
    var e := DivRoundUp(c + n, 8);
    var p := 8 * i + b;
    RunBounds(c, n);
    assert c == 8 * q0;
    assert e == q0 + k;
    BitAt(prior, i, b);
    if q0 <= i < q0 + n / 8 {
      BitAt(src, i - q0, b);
      assert p - c == 8 * (i - q0) + b;
    } else if i == q0 + n / 8 && n % 8 != 0 {
      assert k == n / 8 + 1;
      BitAt(src, n / 8, b);
      assert p - c == 8 * (n / 8) + b;
    } else {
      assert i < q0 || i >= e;
    }
  }

  /** Shared facts about an unaligned run of `n > 0` bits at offset `c`. */
  predicate UnalignedRun(c: nat, n: nat)
  {
    n > 0 && c % 8 != 0
  }

  lemma UnalignedBounds(c: nat, n: nat)
    requires UnalignedRun(c, n)
    ensures var k := DivRoundUp(n, 8); var e := DivRoundUp(c + n, 8);
            && c == 8 * (c / 8) + c % 8
            && 1 <= k && e >= c / 8 + k
            && (n - 8 * (k - 1) > 8 - c % 8 ==> e == c / 8 + k + 1)
            && (n - 8 * (k - 1) <= 8 - c % 8 ==> e == c / 8 + k)
  {
    RunBounds(c, n);
  }

  lemma UnalignedByteBit(prior: seq<bv8>, src: seq<bv8>, c: nat, n: nat, i: nat, b: nat)
    requires WriteFits(prior, src, c, n) && i < |prior| && b < 8
    requires UnalignedRun(c, n)
    ensures BitOf(MergedByte(prior, src, c, n, i), b) == WrittenBit(prior, src, c, n, 8 * i + b)
  {
    var q0 := c / 8;
    var k := DivRoundUp(n, 8);
    if i == q0 {
      UnalignedFirstBit(prior, src, c, n, b);
    } else if q0 < i < q0 + k {
      UnalignedMiddleBit(prior, src, c, n, i, b);
    } else {
      UnalignedTailBit(prior, src, c, n, i, b);
    }
  }

  /** The bytes from the one after the last source byte's on. */
  lemma UnalignedTailBit(prior: seq<bv8>, src: seq<bv8>, c: nat, n: nat, i: nat, b: nat)
    requires WriteFits(prior, src, c, n) && i < |prior| && b < 8
    requires UnalignedRun(c, n)
    requires i < c / 8 || i >= c / 8 + DivRoundUp(n, 8)
    ensures BitOf(MergedByte(prior, src, c, n, i), b) == WrittenBit(prior, src, c, n, 8 * i + b)
  {
    var k := DivRoundUp(n, 8);
    if i == c / 8 + k && n - 8 * (k - 1) > 8 - c % 8 {
      UnalignedSpillBit(prior, src, c, n, b);
    } else {
      UnalignedOutsideBit(prior, src, c, n, i, b);
    }
  }

  lemma UnalignedOutsideBit(prior: seq<bv8>, src: seq<bv8>, c: nat, n: nat, i: nat, b: nat)
    requires WriteFits(prior, src, c, n) && i < |prior| && b < 8
    requires UnalignedRun(c, n)
    requires i < c / 8 || i > c / 8 + DivRoundUp(n, 8) ||
             (i == c / 8 + DivRoundUp(n, 8) && n - 8 * (DivRoundUp(n, 8) - 1) <= 8 - c % 8)
    ensures BitOf(MergedByte(prior, src, c, n, i), b) == WrittenBit(prior, src, c, n, 8 * i + b)
  {
    UnalignedBounds(c, n);
    BitAt(prior, i, b);
  }

  lemma UnalignedFirstBit(prior: seq<bv8>, src: seq<bv8>, c: nat, n: nat, b: nat)
    requires WriteFits(prior, src, c, n) && c / 8 < |prior| && b < 8
    requires UnalignedRun(c, n)
    ensures BitOf(MergedByte(prior, src, c, n, c / 8), b) == WrittenBit(prior, src, c, n, 8 * (c / 8) + b)
  {
    var q0 := c / 8;
    FirstByteIs(prior, src, c, n);
    FirstWrittenBit(prior, src, c, n, b);
    BitAt(prior, q0, b);
  }

  lemma FirstByteIs(prior: seq<bv8>, src: seq<bv8>, c: nat, n: nat)
    requires WriteFits(prior, src, c, n) && c / 8 < |prior|
    requires UnalignedRun(c, n)
    ensures MergedByte(prior, src, c, n, c / 8) == MergeFirst(src[0], prior[c / 8], c % 8)
  {
  }

  lemma FirstWrittenBit(prior: seq<bv8>, src: seq<bv8>, c: nat, n: nat, b: nat)
    requires WriteFits(prior, src, c, n) && c / 8 < |prior| && b < 8
    requires UnalignedRun(c, n)
    ensures WrittenBit(prior, src, c, n, 8 * (c / 8) + b) ==
      ((b >= c % 8 && BitOf(src[0], b - c % 8)) || Bit(prior, 8 * (c / 8) + b))
  {
    var m := c % 8;
    UnalignedBounds(c, n);
    if b >= m {
      BitAt(src, 0, b - m);
      assert 8 * (c / 8) + b - c == b - m;
    }
  }

  lemma UnalignedMiddleBit(prior: seq<bv8>, src: seq<bv8>, c: nat, n: nat, i: nat, b: nat)
    requires WriteFits(prior, src, c, n) && i < |prior| && b < 8
    requires UnalignedRun(c, n)
    requires c / 8 < i < c / 8 + DivRoundUp(n, 8)
    ensures BitOf(MergedByte(prior, src, c, n, i), b) == WrittenBit(prior, src, c, n, 8 * i + b)
  {
    MiddleMergedBit(prior, src, c, n, i, b);
    MiddleWrittenBit(prior, src, c, n, i, b);
    MiddleSourceBit(src, c, i, b);
  }

  lemma MiddleMergedBit(prior: seq<bv8>, src: seq<bv8>, c: nat, n: nat, i: nat, b: nat)
    requires WriteFits(prior, src, c, n) && i < |prior| && b < 8
    requires UnalignedRun(c, n)
    requires c / 8 < i < c / 8 + DivRoundUp(n, 8)
    ensures BitOf(MergedByte(prior, src, c, n, i), b) ==
      if b >= c % 8 then BitOf(src[i - c / 8], b - c % 8) else BitOf(src[i - c / 8 - 1], b + 8 - c % 8)
  {
    var d := i - c / 8;
    MiddleByteIs(prior, src, c, n, i);
    MiddleByteBit(MergedByte(prior, src, c, n, i), src[d - 1], src[d], prior[i], c % 8, b);
  }

  lemma MiddleSourceBit(src: seq<bv8>, c: nat, i: nat, b: nat)
    requires c % 8 != 0 && c / 8 < i && i - c / 8 < |src| && b < 8
    ensures 8 * i + b >= c && 8 * i + b - c < 8 * |src|
    ensures Bit(src, 8 * i + b - c) ==
      if b >= c % 8 then BitOf(src[i - c / 8], b - c % 8) else BitOf(src[i - c / 8 - 1], b + 8 - c % 8)
  {
    var d := i - c / 8;
    var m := c % 8;
    assert 8 * i + b - c == 8 * d + b - m;
    if b >= m {
      BitAt(src, d, b - m);
    } else {
      BitAt(src, d - 1, b + 8 - m);
      assert 8 * i + b - c == 8 * (d - 1) + (b + 8 - m);
    }
  }

  lemma MiddleWrittenBit(prior: seq<bv8>, src: seq<bv8>, c: nat, n: nat, i: nat, b: nat)
    requires WriteFits(prior, src, c, n) && i < |prior| && b < 8
    requires UnalignedRun(c, n)
    requires c / 8 < i < c / 8 + DivRoundUp(n, 8)
    ensures 8 * i + b >= c && 8 * i + b - c < 8 * DivRoundUp(n, 8) && 8 * i + b - c < 8 * |src|
    ensures WrittenBit(prior, src, c, n, 8 * i + b) == Bit(src, 8 * i + b - c)
  {
    UnalignedBounds(c, n);
    assert 8 * i + b - c >= 8 - c % 8;
  }

  lemma MiddleByteIs(prior: seq<bv8>, src: seq<bv8>, c: nat, n: nat, i: nat)
    requires WriteFits(prior, src, c, n) && i < |prior|
    requires UnalignedRun(c, n)
    requires c / 8 < i < c / 8 + DivRoundUp(n, 8)
    ensures MergedByte(prior, src, c, n, i) == MergeFirst(src[i - c / 8], MergeNext(src[i - c / 8 - 1], prior[i], 8 - c % 8), c % 8)
  {
  }

  lemma MiddleByteBit(x: bv8, lo: bv8, hi: bv8, prior: bv8, m: nat, b: nat)
    requires 0 < m < 8 && b < 8
    requires x == MergeFirst(hi, MergeNext(lo, prior, 8 - m), m)
    ensures BitOf(x, b) == if b >= m then BitOf(hi, b - m) else BitOf(lo, b + 8 - m)
  {
  }

  lemma UnalignedSpillBit(prior: seq<bv8>, src: seq<bv8>, c: nat, n: nat, b: nat)
    requires WriteFits(prior, src, c, n) && b < 8
    requires UnalignedRun(c, n)
    requires c / 8 + DivRoundUp(n, 8) < |prior|
    requires n - 8 * (DivRoundUp(n, 8) - 1) > 8 - c % 8
    ensures var i := c / 8 + DivRoundUp(n, 8);
            BitOf(MergedByte(prior, src, c, n, i), b) == WrittenBit(prior, src, c, n, 8 * i + b)
  {
    SpillByteIs(prior, src, c, n);
    SpillWrittenBit(prior, src, c, n, b);
  }

  lemma SpillByteIs(prior: seq<bv8>, src: seq<bv8>, c: nat, n: nat)
    requires WriteFits(prior, src, c, n)
    requires UnalignedRun(c, n)
    requires c / 8 + DivRoundUp(n, 8) < |prior|
    requires n - 8 * (DivRoundUp(n, 8) - 1) > 8 - c % 8
    ensures var i := c / 8 + DivRoundUp(n, 8);
            MergedByte(prior, src, c, n, i) == MergeNext(src[DivRoundUp(n, 8) - 1], prior[i], 8 - c % 8)
  {
  }

  lemma SpillWrittenBit(prior: seq<bv8>, src: seq<bv8>, c: nat, n: nat, b: nat)
    requires WriteFits(prior, src, c, n) && b < 8
    requires UnalignedRun(c, n)
    requires c / 8 + DivRoundUp(n, 8) < |prior|
    requires n - 8 * (DivRoundUp(n, 8) - 1) > 8 - c % 8
    ensures var i := c / 8 + DivRoundUp(n, 8);
            WrittenBit(prior, src, c, n, 8 * i + b) ==
            (b < c % 8 && BitOf(src[DivRoundUp(n, 8) - 1], b + 8 - c % 8))
  {
    var q0 := c / 8;
    var m := c % 8;
    var k := DivRoundUp(n, 8);
    var i := q0 + k;
    UnalignedBounds(c, n);
    if b < m {
      BitAt(src, k - 1, b + 8 - m);
      assert 8 * i + b - c == 8 * (k - 1) + (b + 8 - m);
    } else {
      assert 8 * i + b - c >= 8 * k;
    }
  }

  /** Bytes before the cursor's byte and from the first byte past the run on are not touched. */
  lemma MergedByteOutside(prior: seq<bv8>, src: seq<bv8>, c: nat, n: nat, i: nat)
    requires WriteFits(prior, src, c, n) && i < |prior|
    requires i < c / 8 || i >= DivRoundUp(c + n, 8)
    ensures MergedByte(prior, src, c, n, i) == prior[i]
  {
    if n > 0 {
      RunBounds(c, n);
      if c % 8 != 0 {
        UnalignedBounds(c, n);
      } else {
        assert c + n <= 8 * (c / 8 + DivRoundUp(n, 8));
      }
    }
  }

  /** Preconditions of `writeBits`: a valid stream, a source holding `count` bits, room for them
      (external memory cannot grow: exceeding it is an assertion failure in the source), and a
      cursor that stays within 32-bit arithmetic. */
  predicate CanWrite(s: Stream, src: seq<bv8>, count: nat)
  {
    && Valid(s)
    && DivRoundUp(count, 8) <= |src|
    && (s.ownsMemory || s.cursor + count <= s.maxBits)
    && s.cursor + count <= MAX_CURSOR
  }

  /** `writeBits(data, count)`, following the source's statements: nothing happens for
      `count == 0`; otherwise the buffer grows if needed, then the aligned path memcpy's the whole
      bytes and leaves the trailing partial byte to the loop, and the loop merges one source byte
      per iteration into the current destination byte and, when bits remain beyond it, into the
      next. The cursor advances by `count` and the size becomes the larger of the old size and
      the new cursor. Every bit of the result is `RunBit` of the bit the stream held there (or
      that growth brought in). */
  method WriteBits(s: Stream, src: seq<bv8>, count: nat, alloc: Memory) returns (r: Stream)
    requires CanWrite(s, src, count)
    ensures count == 0 ==> r == s
    ensures Valid(r) && r.ownsMemory == s.ownsMemory
    ensures r.cursor == s.cursor + count
    ensures count > 0 ==> r.numBits == if s.numBits > r.cursor then s.numBits else r.cursor
    ensures r.maxBits >= r.cursor && r.maxBits >= s.maxBits
    ensures r.ownsMemory ==> r.maxBits % 8 == 0
    ensures !s.ownsMemory ==> r.maxBits == s.maxBits
    ensures s.cursor + count > s.maxBits ==>
              var n := s.cursor + count; r.maxBits == RoundUp8(n + GROWTH_SLACK + n / 2)
    ensures s.cursor + count <= s.maxBits ==> r.maxBits == s.maxBits && |r.data| == |s.data|
    ensures Eof(r) <==> s.numBits <= s.cursor + count
    ensures |r.data| >= |s.data|
    ensures forall p | 0 <= p < 8 * |r.data| ::
              Bit(r.data, p) == RunBit(src, s.cursor, count, p, StoredBit(s, alloc, p))
    ensures forall p | 0 <= p < s.cursor :: Bit(r.data, p) == Bit(s.data, p)
    ensures forall i | 0 <= i < |s.data| && (i < s.cursor / 8 || i >= DivRoundUp(s.cursor + count, 8)) ::
              r.data[i] == s.data[i]
  {
    if count == 0 {
      return s;
    }
    var newCursor := s.cursor + count;
    var g := ReallocIfNeeded(s, newCursor, alloc);
    var data := CopyIn(g.data, src, g.cursor, count);
    WriteOutcome(s, alloc, g.data, src, count, data);
    r := g.(data := data, cursor := newCursor, numBits := if g.numBits > newCursor then g.numBits else newCursor);
  }

  /** The buffer `CopyIn` returns, in terms of the stream before the write. */
  lemma WriteOutcome(s: Stream, alloc: Memory, grown: seq<bv8>, src: seq<bv8>, count: nat, data: seq<bv8>)
    requires Valid(s) && WriteFits(grown, src, s.cursor, count)
    requires |grown| >= |s.data| && grown[..|s.data|] == s.data
    requires forall p | 0 <= p < 8 * |grown| :: Bit(grown, p) == StoredBit(s, alloc, p)
    requires data == MergedBytes(grown, src, s.cursor, count)
    ensures |data| == |grown|
    ensures forall p | 0 <= p < 8 * |data| ::
              Bit(data, p) == RunBit(src, s.cursor, count, p, StoredBit(s, alloc, p))
    ensures forall p | 0 <= p < s.cursor :: Bit(data, p) == Bit(s.data, p)
    ensures forall i | 0 <= i < |s.data| && (i < s.cursor / 8 || i >= DivRoundUp(s.cursor + count, 8)) ::
              data[i] == s.data[i]
  {
    forall p | 0 <= p < 8 * |data|
      ensures Bit(data, p) == RunBit(src, s.cursor, count, p, StoredBit(s, alloc, p))
    {
      assert Bit(data, p) == WrittenBit(grown, src, s.cursor, count, p);
    }
    forall i | 0 <= i < |s.data| && (i < s.cursor / 8 || i >= DivRoundUp(s.cursor + count, 8))
      ensures data[i] == s.data[i]
    {
      MergedByteOutside(grown, src, s.cursor, count, i);
      assert grown[i] == grown[..|s.data|][i];
    }
  }

  /** The copy itself: `count > 0` bits of `src` into `prior` at bit offset `c`. */
  method CopyIn(prior: seq<bv8>, src: seq<bv8>, c: nat, count: nat) returns (data: seq<bv8>)
    requires WriteFits(prior, src, c, count) && count > 0
    ensures data == MergedBytes(prior, src, c, count)
  {
    var destBitsMod := c % BITS_PER_QUANT;
    var destQuant := c / BITS_PER_QUANT;
    data := prior;
    ghost var k := DivRoundUp(count, 8);
    RunBounds(c, count);
    var read := 0;
    var remaining := count;
    if destBitsMod == 0 {
      var numQuants := remaining / BITS_PER_QUANT;
      data := Memcpy(data, destQuant, src, numQuants);
      read := numQuants;
      remaining := remaining - numQuants * BITS_PER_QUANT;
      destQuant := destQuant + numQuants;
      PartialAfterMemcpy(prior, src, c, count, data);
    } else {
      PartialAtStart(prior, src, c, count, data);
    }
    while remaining > 0
      invariant |data| == |prior|
      invariant read <= k
      invariant destQuant == c / 8 + read
      invariant remaining == if count > 8 * read then count - 8 * read else 0
      invariant destBitsMod == 0 ==> read >= count / 8
      invariant forall i | 0 <= i < |data| :: data[i] == PartialByte(prior, src, c, count, read, i)
      decreases remaining
    {
      PartialStepBounds(prior, src, c, count, read);
      ghost var before := data;
      var quant := src[read];
      data := data[destQuant := MergeFirst(quant, data[destQuant], destBitsMod)];
      ghost var first := data;
      var writtenBits := BITS_PER_QUANT - destBitsMod;
      if remaining > writtenBits {
        data := data[destQuant + 1 := MergeNext(quant, data[destQuant + 1], writtenBits)];
      }
      PartialStep(prior, src, c, count, read, before, first, data, quant, destQuant, destBitsMod, remaining);
      read := read + 1;
      destQuant := destQuant + 1;
      remaining := remaining - if remaining < BITS_PER_QUANT then remaining else BITS_PER_QUANT;
    }
    PartialDone(prior, src, c, count, read, data);
  }

  /** Facts the loop body needs before consuming source byte `read`. */
  lemma PartialStepBounds(prior: seq<bv8>, src: seq<bv8>, c: nat, n: nat, read: nat)
    requires WriteFits(prior, src, c, n) && n > 0
    requires read < DivRoundUp(n, 8)
    ensures read < |src| && c / 8 + read < |prior|
    ensures n - 8 * read > 8 - c % 8 ==> c / 8 + read + 1 < |prior|
  {
    RunBounds(c, n);
  }

  /** One iteration of the loop, from `read` consumed source bytes to `read + 1`. */
  lemma PartialStep(prior: seq<bv8>, src: seq<bv8>, c: nat, n: nat, read: nat,
                    before: seq<bv8>, first: seq<bv8>, after: seq<bv8>,
                    quant: bv8, dq: nat, m: nat, remaining: nat)
    requires WriteFits(prior, src, c, n) && n > 0
    requires read < DivRoundUp(n, 8)
    requires c % 8 == 0 ==> read >= n / 8
    requires |before| == |prior|
    requires forall i | 0 <= i < |before| :: before[i] == PartialByte(prior, src, c, n, read, i)
    requires read < |src| && quant == src[read]
    requires dq == c / 8 + read && m == c % 8 && remaining == n - 8 * read
    requires dq < |prior| && (remaining > 8 - m ==> dq + 1 < |prior|)
    requires first == before[dq := MergeFirst(quant, before[dq], m)]
    requires remaining > 8 - m ==> after == first[dq + 1 := MergeNext(quant, first[dq + 1], 8 - m)]
    requires remaining <= 8 - m ==> after == first
    ensures |after| == |prior|
    ensures forall i | 0 <= i < |after| :: after[i] == PartialByte(prior, src, c, n, read + 1, i)
  {
    forall i | 0 <= i < |after|
      ensures after[i] == PartialByte(prior, src, c, n, read + 1, i)
    {
      PartialStepAt(prior, src, c, n, read, before, first, after, i);
    }
  }

  lemma PartialStepAt(prior: seq<bv8>, src: seq<bv8>, c: nat, n: nat, read: nat,
                      before: seq<bv8>, first: seq<bv8>, after: seq<bv8>, i: nat)
    requires WriteFits(prior, src, c, n) && n > 0
    requires read < DivRoundUp(n, 8)
    requires c % 8 == 0 ==> read >= n / 8
    requires |before| == |prior| && i < |prior|
    requires forall i | 0 <= i < |before| :: before[i] == PartialByte(prior, src, c, n, read, i)
    requires c / 8 + read < |prior| && read < |src|
    requires n - 8 * read > 8 - c % 8 ==> c / 8 + read + 1 < |prior|
    requires first == before[c / 8 + read := MergeFirst(src[read], before[c / 8 + read], c % 8)]
    requires n - 8 * read > 8 - c % 8 ==>
      after == first[c / 8 + read + 1 := MergeNext(src[read], first[c / 8 + read + 1], 8 - c % 8)]
    requires n - 8 * read <= 8 - c % 8 ==> after == first
    ensures after[i] == PartialByte(prior, src, c, n, read + 1, i)
  {
    var q := c / 8 + read;
    var spill := n - 8 * read > 8 - c % 8;
    if i == q {
      assert after[i] == MergeFirst(src[read], before[q], c % 8);
      PartialCurrent(prior, src, c, n, read);
    } else if i == q + 1 && spill {
      assert after[i] == MergeNext(src[read], before[i], 8 - c % 8);
      PartialSpill(prior, src, c, n, read);
    } else {
      assert after[i] == before[i];
      PartialOther(prior, src, c, n, read, i);
    }
  }

  /** The current destination byte receives the low part of source byte `read`. */
  lemma PartialCurrent(prior: seq<bv8>, src: seq<bv8>, c: nat, n: nat, read: nat)
    requires WriteFits(prior, src, c, n) && n > 0
    requires read < DivRoundUp(n, 8)
    requires c % 8 == 0 ==> read >= n / 8
    requires c / 8 + read < |prior| && read < |src|
    ensures var q := c / 8 + read;
            MergeFirst(src[read], PartialByte(prior, src, c, n, read, q), c % 8) ==
            PartialByte(prior, src, c, n, read + 1, q)
  {
    var m := c % 8;
    RunBounds(c, n);
    if m == 0 {
      assert read == n / 8 && n % 8 != 0;
    } else if read > 0 {
      assert n - 8 * (read - 1) > 8 - m;
    }
  }

  /** When bits remain beyond the current byte, the next byte (still untouched) receives the
      high part of source byte `read`. */
  lemma PartialSpill(prior: seq<bv8>, src: seq<bv8>, c: nat, n: nat, read: nat)
    requires WriteFits(prior, src, c, n) && n > 0
    requires read < DivRoundUp(n, 8)
    requires c % 8 == 0 ==> read >= n / 8
    requires c / 8 + read + 1 < |prior| && read < |src|
    requires n - 8 * read > 8 - c % 8
    ensures var q := c / 8 + read;
            && PartialByte(prior, src, c, n, read, q + 1) == prior[q + 1]
            && PartialByte(prior, src, c, n, read + 1, q + 1) == MergeNext(src[read], prior[q + 1], 8 - c % 8)
  {
    RunBounds(c, n);
  }

  /** Every other byte keeps its value across the iteration. */
  lemma PartialOther(prior: seq<bv8>, src: seq<bv8>, c: nat, n: nat, read: nat, i: nat)
    requires WriteFits(prior, src, c, n) && n > 0
    requires read < DivRoundUp(n, 8) && i < |prior|
    requires i != c / 8 + read
    requires i == c / 8 + read + 1 ==> n - 8 * read <= 8 - c % 8
    ensures PartialByte(prior, src, c, n, read, i) == PartialByte(prior, src, c, n, read + 1, i)
  {
  }

  /** Before the unaligned loop nothing has been written. */
  lemma PartialAtStart(prior: seq<bv8>, src: seq<bv8>, c: nat, n: nat, data: seq<bv8>)
    requires WriteFits(prior, src, c, n) && data == prior
    ensures forall i | 0 <= i < |data| :: data[i] == PartialByte(prior, src, c, n, 0, i)
  {
  }

  /** On the aligned path the memcpy writes the whole source bytes, as the loop would have. */
  lemma PartialAfterMemcpy(prior: seq<bv8>, src: seq<bv8>, c: nat, n: nat, data: seq<bv8>)
    requires WriteFits(prior, src, c, n) && n > 0 && c % 8 == 0
    requires c / 8 + n / 8 <= |prior| && n / 8 <= |src|
    requires data == Memcpy(prior, c / 8, src, n / 8)
    ensures n / 8 <= DivRoundUp(n, 8)
    ensures forall i | 0 <= i < |data| :: data[i] == PartialByte(prior, src, c, n, n / 8, i)
  {
    RunBounds(c, n);
  }

  /** Once every source byte is consumed the buffer is the closed form. */
  lemma PartialDone(prior: seq<bv8>, src: seq<bv8>, c: nat, n: nat, read: nat, data: seq<bv8>)
    requires WriteFits(prior, src, c, n) && n > 0
    requires read == DivRoundUp(n, 8) && |data| == |prior|
    requires forall i | 0 <= i < |data| :: data[i] == PartialByte(prior, src, c, n, read, i)
    ensures data == MergedBytes(prior, src, c, n)
  {
    var r := MergedBytes(prior, src, c, n);
    forall i | 0 <= i < |data|
      ensures data[i] == r[i]
    {
      RunBounds(c, n);
    }
  }

  /** Byte `i` of the buffer once the loop has consumed `read` source bytes: the bytes before the
      current destination byte are final; the current one holds the high bits of the previous
      source byte when the unaligned loop spilled into it; the rest still hold their prior value. */
  function PartialByte(prior: seq<bv8>, src: seq<bv8>, c: nat, n: nat, read: nat, i: nat): bv8
    requires WriteFits(prior, src, c, n) && i < |prior| && read <= DivRoundUp(n, 8)
  {
    var m := c % 8;
    if i < c / 8 + read then MergedByte(prior, src, c, n, i)
    else if i == c / 8 + read && read > 0 && m != 0 && n - 8 * (read - 1) > 8 - m then
      MergeNext(src[read - 1], prior[i], 8 - m)
    else prior[i]
  }

  // ---------------------------------------------------------------------------
  // readBits.

  /** Bit `j` of the destination after reading `n` bits at offset `c`: the stream bit `c + j`
      while it lies in a byte the copy reads, clear beyond. Every bit below `n` is therefore
      a stream bit, and so are the unused high bits of the last destination byte as far as the
      last source byte reaches. */
  predicate ReadBit(data: seq<bv8>, c: nat, n: nat, j: nat)
    requires c + n <= 8 * |data|
  {
    c + j < 8 * DivRoundUp(c + n, 8) && c + j < 8 * |data| && Bit(data, c + j)
  }

  /** Destination byte `t` of the copy: a whole byte on the aligned path, otherwise the high
      bits of one stream byte joined with the low bits of the next when the run reaches it. */
  function GatheredByte(data: seq<bv8>, c: nat, n: nat, t: nat): bv8
    requires c + n <= 8 * |data| && t < DivRoundUp(n, 8)
  {
    var q0 := c / 8;
    var m := c % 8;
    RunBounds(c, n);
    if m == 0 && t < n / 8 then data[q0 + t]
    else
      var both := n - 8 * t > 8 - m;
      Gather(data[q0 + t], if both then data[q0 + t + 1] else 0, m, both)
  }

  /** The destination bytes `readBits` fills: `ceil(n / 8)` of them, whose bits are exactly
      those `ReadBit` describes. */
  function GatheredBytes(data: seq<bv8>, c: nat, n: nat): (r: seq<bv8>)
    requires c + n <= 8 * |data|
    ensures |r| == DivRoundUp(n, 8)
    ensures forall j | 0 <= j < 8 * |r| :: Bit(r, j) == ReadBit(data, c, n, j)
  {
    var r := seq(DivRoundUp(n, 8), t requires 0 <= t < DivRoundUp(n, 8) => GatheredByte(data, c, n, t));
    GatheredBytesBits(data, c, n, r);
    r
  }

  lemma GatheredBytesBits(data: seq<bv8>, c: nat, n: nat, r: seq<bv8>)
    requires c + n <= 8 * |data|
    requires |r| == DivRoundUp(n, 8)
    requires forall t | 0 <= t < |r| :: r[t] == GatheredByte(data, c, n, t)
    ensures forall j | 0 <= j < 8 * |r| :: Bit(r, j) == ReadBit(data, c, n, j)
  {
    forall j | 0 <= j < 8 * |r|
      ensures Bit(r, j) == ReadBit(data, c, n, j)
    {
      var t := j / 8;
      var b := j % 8;
      assert j == 8 * t + b;
      GatheredByteBit(data, c, n, t, b);
    }
  }

  lemma GatheredByteBit(data: seq<bv8>, c: nat, n: nat, t: nat, b: nat)
    requires c + n <= 8 * |data| && t < DivRoundUp(n, 8) && b < 8
    ensures BitOf(GatheredByte(data, c, n, t), b) == ReadBit(data, c, n, 8 * t + b)
  {
    ReadBitAt(data, c, n, t, b);
  }

  /** The stream bit behind destination bit `8 * t + b`, located in the stream byte it comes from. */
  lemma ReadBitAt(data: seq<bv8>, c: nat, n: nat, t: nat, b: nat)
    requires c + n <= 8 * |data| && t < DivRoundUp(n, 8) && b < 8
    ensures c / 8 + t < |data|
    ensures n - 8 * t > 8 - c % 8 ==> c / 8 + t + 1 < |data|
    ensures ReadBit(data, c, n, 8 * t + b) ==
      if b + c % 8 < 8 then BitOf(data[c / 8 + t], b + c % 8)
      else n - 8 * t > 8 - c % 8 && BitOf(data[c / 8 + t + 1], b + c % 8 - 8)
  {
    var q0 := c / 8;
    var m := c % 8;
    var e := DivRoundUp(c + n, 8);
    RunBounds(c, n);
    assert c == 8 * q0 + m;
    assert c + 8 * t + b == 8 * (q0 + t) + (m + b);
    var both := n - 8 * t > 8 - m;
    assert both <==> e > q0 + t + 1;
    if b + m < 8 {
      BitAt(data, q0 + t, b + m);
    } else if both {
      BitAt(data, q0 + t + 1, b + m - 8);
    }
  }

  /** `readBits(dst, count)`, following the source's statements: nothing happens for
      `count == 0`; reading past the size is otherwise an assertion failure in the source. The
      aligned path memcpy's the whole bytes and reads a trailing partial byte in the loop; the
      loop builds one destination byte per iteration from the current stream byte and, when bits
      remain beyond it, the next. The stream only advances its cursor; the destination receives
      `ceil(count / 8)` bytes whose first `count` bits are the stream bits from the cursor on. */
  method ReadBits(s: Stream, count: nat) returns (r: Stream, dst: seq<bv8>)
    requires Valid(s) && (count > 0 ==> s.cursor + count <= s.numBits)
    ensures r == s.(cursor := s.cursor + count) && Valid(r)
    ensures |dst| == DivRoundUp(count, 8)
    ensures forall j | 0 <= j < count :: Bit(dst, j) == Bit(s.data, s.cursor + j)
    ensures forall j | 0 <= j < 8 * |dst| :: Bit(dst, j) == ReadBit(s.data, s.cursor, count, j)
    ensures count > 0 ==> (Eof(r) <==> s.cursor + count == s.numBits)
    ensures count == 1 ==> r == ReadBool(s).0 && Bit(dst, 0) == ReadBool(s).1
  {
    if count == 0 {
      return s, [];
    }
    var newCursor := s.cursor + count;
    dst := CopyOut(s.data, s.cursor, count);
    RunBounds(s.cursor, count);
    r := s.(cursor := newCursor);
  }

  /** The copy itself: `count > 0` bits of `data` from bit offset `c` into fresh bytes. */
  method CopyOut(data: seq<bv8>, c: nat, count: nat) returns (dst: seq<bv8>)
    requires c + count <= 8 * |data| && count > 0
    ensures dst == GatheredBytes(data, c, count)
  {
    var srcBitsMod := c % BITS_PER_QUANT;
    var srcQuant := c / BITS_PER_QUANT;
    ghost var k := DivRoundUp(count, 8);
    ghost var expected := GatheredBytes(data, c, count);
    RunBounds(c, count);
    dst := [];
    var remaining := count;
    if srcBitsMod == 0 {
      var numQuants := remaining / BITS_PER_QUANT;
      dst := data[srcQuant..srcQuant + numQuants];
      remaining := remaining - numQuants * BITS_PER_QUANT;
      srcQuant := srcQuant + numQuants;
      AlignedPrefix(data, c, count, dst);
    }
    while remaining > 0
      invariant |dst| <= k
      invariant srcQuant == c / 8 + |dst|
      invariant remaining == if count > 8 * |dst| then count - 8 * |dst| else 0
      invariant srcBitsMod == 0 ==> |dst| >= count / 8
      invariant dst == expected[..|dst|]
      decreases remaining
    {
      GatherStep(data, c, count, |dst|);
      var readBits := BITS_PER_QUANT - srcBitsMod;
      var both := remaining > readBits;
      var quant := Gather(data[srcQuant], if both then data[srcQuant + 1] else 0, srcBitsMod, both);
      PrefixGrows(expected, dst, quant);
      dst := dst + [quant];
      srcQuant := srcQuant + 1;
      remaining := remaining - if remaining < BITS_PER_QUANT then remaining else BITS_PER_QUANT;
    }
    assert dst == expected;
  }

  lemma PrefixGrows<T>(whole: seq<T>, prefix: seq<T>, x: T)
    requires |prefix| < |whole| && prefix == whole[..|prefix|] && x == whole[|prefix|]
    ensures prefix + [x] == whole[..|prefix| + 1]
  {
  }

  /** The aligned path's memcpy yields the first `count / 8` destination bytes. */
  lemma AlignedPrefix(data: seq<bv8>, c: nat, n: nat, dst: seq<bv8>)
    requires c + n <= 8 * |data| && n > 0 && c % 8 == 0
    requires c / 8 + n / 8 <= |data| && dst == data[c / 8..c / 8 + n / 8]
    ensures n / 8 <= DivRoundUp(n, 8)
    ensures dst == GatheredBytes(data, c, n)[..n / 8]
  {
    RunBounds(c, n);
  }

  /** Destination byte `t` as the loop computes it. */
  lemma GatherStep(data: seq<bv8>, c: nat, n: nat, t: nat)
    requires c + n <= 8 * |data| && n > 0 && t < DivRoundUp(n, 8)
    requires c % 8 == 0 ==> t >= n / 8
    ensures c / 8 + t < |data|
    ensures n - 8 * t > 8 - c % 8 ==> c / 8 + t + 1 < |data|
    ensures var both := n - 8 * t > 8 - c % 8;
            GatheredBytes(data, c, n)[t] ==
            Gather(data[c / 8 + t], if both then data[c / 8 + t + 1] else 0, c % 8, both)
  {
    RunBounds(c, n);
  }
}
