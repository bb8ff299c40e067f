/** Two places where the stream's code does not do what its own documentation and round-trip
    promise say, each shown on a concrete input against the as-written model, and the evidently
    intended behaviour defined and proved:

    - `writeBits` OR-merges source bits into whatever the destination byte held (`destMask` is
      `0xFF`, so `mData[destQuant] & destMask` keeps every old bit) and, on an unaligned cursor,
      overwrites the whole next byte, clearing bits past the run. The intended write stores
      exactly the run's bits, as `write(bool)` does for a single bit.
    - `align(count)` masks with `count * 8 - 1`, which is the remainder modulo `count * 8` only
      when `count * 8` is a power of two; for other counts the cursor overshoots the next
      boundary. The intended alignment moves to the next multiple of `count * 8`. */
module Corrections {
  import opened Bits
  import opened Bitstream
  import opened BitCopy
  import opened Values

  // ---------------------------------------------------------------------------
  // writeBits: the merge keeps stale bits and clobbers bits past the run.

  /** Writing the four bits `0000` from byte 0 of a buffer whose bits are all set leaves the
      buffer unchanged: the trailing partial byte is OR-ed into the old byte. */
  lemma StaleBitsSurvive()
    ensures MergedBytes([0xFF, 0xFF], [0x00], 0, 4) == [0xFF, 0xFF]
    ensures ExactCopy([0xFF, 0xFF], [0x00], 0, 4) != [0xFF, 0xFF]
  {
    var r := MergedBytes([0xFF, 0xFF], [0x00], 0, 4);
    assert r[0] == MergeFirst(0x00, 0xFF, 0);
    assert r[1] == 0xFF;
    assert r == [0xFF, 0xFF];
    var e := ExactCopy([0xFF, 0xFF], [0x00], 0, 4);
    assert !Bit(e, 0);
    BitAt(e, 0, 0);
    assert !BitOf(e[0], 0);
  }

  /** Writing eight clear bits at bit 4 of `[0x00, 0xFF]` also clears bits 12..15, which lie
      past the run: the spill into the next byte replaces the whole byte. */
  lemma SpillClobbersNextByte()
    ensures MergedBytes([0x00, 0xFF], [0x00], 4, 8) == [0x00, 0x00]
    ensures ExactCopy([0x00, 0xFF], [0x00], 4, 8) == [0x00, 0xF0]
  {
    var r := MergedBytes([0x00, 0xFF], [0x00], 4, 8);
    assert r[0] == MergeFirst(0x00, 0x00, 4);
    assert r[1] == MergeNext(0x00, 0xFF, 4);
    assert r == [0x00, 0x00];
    ExactSpill();
  }

  lemma ExactSpill()
    ensures ExactCopy([0x00, 0xFF], [0x00], 4, 8) == [0x00, 0xF0]
  {
    var prior: seq<bv8> := [0x00, 0xFF];
    var e := ExactCopy(prior, [0x00], 4, 8);
    var want: seq<bv8> := [0x00, 0xF0];
    forall p | 0 <= p < 16
      ensures Bit(e, p) == Bit(want, p)
    {
      ExactSpillBit(prior, e, want, p);
    }
    BitsDetermineBuffer(e, want);
  }

  lemma ExactSpillBit(prior: seq<bv8>, e: seq<bv8>, want: seq<bv8>, p: nat)
    requires prior == [0x00, 0xFF] && want == [0x00, 0xF0] && |e| == 2 && p < 16
    requires Bit(e, p) == if 4 <= p < 12 then Bit([0x00], p - 4) else Bit(prior, p)
    ensures Bit(e, p) == Bit(want, p)
  {
    BitAt(prior, p / 8, p % 8);
    BitAt(want, p / 8, p % 8);
    ByteConstants(p % 8);
    if 4 <= p < 12 {
      BitAt([0x00], 0, p - 4);
      ByteConstants(p - 4);
    }
  }

  /** The bits of the byte constants used above. */
  lemma ByteConstants(j: nat)
    requires j < 8
    ensures !BitOf(0x00, j) && BitOf(0xFF, j) && BitOf(0xF0, j) == (j >= 4)
  {
    BitOfZero(j);
    BitOfNot(0x00, j);
    BitOfShl(0x0F, 4, j);
    assert (0x0F as bv8) << 4 == 0xF0;
  }

  /** The example session over memory whose fresh bytes are all set: `0xDEADBEEF` is written
      after one boolean, so its first byte `0xEF` is OR-ed with the set bits 1..7 of the fresh
      first byte and reads back as `0xFF`. */
  method FilledMemorySession() returns (readValue: seq<bv8>)
    ensures |readValue| == 4 && readValue[0] == 0xFF
    ensures readValue != [0xEF, 0xBE, 0xAD, 0xDE]
  {
    var value: seq<bv8> := [0xEF, 0xBE, 0xAD, 0xDE];
    var alloc: Memory := i => 0xFF;
    var first, last, tell, size;
    first, readValue, last, tell, size := BoolValueBool(value, alloc);
    forall j | 0 <= j < 8
      ensures BitOf(readValue[0], j) == BitOf(0xFF, j)
    {
      BitAt(readValue, 0, j);
      BitAt(value, 0, j);
      BitOfNot(0x00, j);
      BitOfZero(j);
      if j == 7 {
        assert BitOf(0xEF, 7);
      }
    }
    BitsDetermineByte(readValue[0], 0xFF);
  }

  /** The intended copy: bit by bit, each bit of the run set or cleared exactly as `write(bool)`
      does, every other bit kept. */
  function ExactCopy(prior: seq<bv8>, src: seq<bv8>, c: nat, n: nat): (r: seq<bv8>)
    requires WriteFits(prior, src, c, n)
    ensures |r| == |prior|
    ensures forall p | 0 <= p < 8 * |r| ::
              Bit(r, p) == if c <= p < c + n then Bit(src, p - c) else Bit(prior, p)
    decreases n
  {
    if n == 0 then prior
    else
      var rest := ExactCopy(prior, src, c, n - 1);
      SetBit(rest, c + n - 1, Bit(src, n - 1))
  }

  /** `writeBits` as intended: the same growth, cursor and size as the as-written method, with
      the run's bits stored exactly and every other bit left as the stream held it. */
  method WriteBitsExact(s: Stream, src: seq<bv8>, count: nat, alloc: Memory) returns (r: Stream)
    requires CanWrite(s, src, count)
    ensures count == 0 ==> r == s
    ensures Valid(r) && r.ownsMemory == s.ownsMemory
    ensures r.cursor == s.cursor + count
    ensures count > 0 ==> r.numBits == if s.numBits > r.cursor then s.numBits else r.cursor
    ensures r.maxBits >= r.cursor && r.maxBits >= s.maxBits
    ensures r.ownsMemory ==> r.maxBits % 8 == 0
    ensures !s.ownsMemory ==> r.maxBits == s.maxBits
    ensures s.cursor + count <= s.maxBits ==> r.maxBits == s.maxBits && |r.data| == |s.data|
    ensures s.cursor + count > s.maxBits ==>
              var n := s.cursor + count; r.maxBits == RoundUp8(n + GROWTH_SLACK + n / 2)
    ensures forall p | 0 <= p < 8 * |r.data| ::
              Bit(r.data, p) ==
                if s.cursor <= p < s.cursor + count then Bit(src, p - s.cursor) else StoredBit(s, alloc, p)
  {
    if count == 0 {
      return s;
    }
    var newCursor := s.cursor + count;
    var g := ReallocIfNeeded(s, newCursor, alloc);
    var data := ExactCopy(g.data, src, s.cursor, count);
    ExactOutcome(s, alloc, g.data, src, count, data);
    r := Stream(data, g.maxBits, if s.numBits > newCursor then s.numBits else newCursor, newCursor, s.ownsMemory);
  }

  /** The buffer `ExactCopy` returns, in terms of the stream before the write. */
  lemma ExactOutcome(s: Stream, alloc: Memory, grown: seq<bv8>, src: seq<bv8>, count: nat, data: seq<bv8>)
    requires WriteFits(grown, src, s.cursor, count)
    requires forall p | 0 <= p < 8 * |grown| :: Bit(grown, p) == StoredBit(s, alloc, p)
    requires data == ExactCopy(grown, src, s.cursor, count)
    ensures |data| == |grown|
    ensures forall p | 0 <= p < 8 * |data| ::
              Bit(data, p) ==
                if s.cursor <= p < s.cursor + count then Bit(src, p - s.cursor) else StoredBit(s, alloc, p)
  {
  }

  /** With the intended write, the round trip holds whatever the buffer or the allocator held:
      `writeBits(src, count)` at cursor `c`, `seek(c)`, `readBits(count)` gives back the run. */
  method WriteSeekReadExact(s: Stream, src: seq<bv8>, count: nat, alloc: Memory) returns (r: Stream, back: seq<bv8>)
    requires CanWrite(s, src, count)
    ensures r.cursor == s.cursor + count
    ensures |back| == DivRoundUp(count, 8)
    ensures forall j | 0 <= j < count :: Bit(back, j) == Bit(src, j)
  {
    var w := WriteBitsExact(s, src, count, alloc);
    var t := Seek(w, s.cursor);
    r, back := ReadBits(t, count);
    forall j | 0 <= j < count
      ensures Bit(back, j) == Bit(src, j)
    {
      assert Bit(back, j) == Bit(w.data, s.cursor + j);
      assert s.cursor <= s.cursor + j < s.cursor + count;
    }
  }

  /** The example session with the intended write: the value reads back exactly, whatever the
      allocator's fresh memory holds. */
  method BoolValueBoolExact(value: seq<bv8>, alloc: Memory)
      returns (first: bool, readValue: seq<bv8>, last: bool, tell: nat, size: nat)
    requires 8 * |value| + 2 <= MAX_CURSOR
    ensures first && !last
    ensures tell == size == 8 * |value| + 2
    ensures readValue == value
  {
    var s2 := BoolThenExactValue(value, alloc);
    var s3 := WriteBool(s2, false, alloc);
    var t0 := Seek(s3, 0);
    var t1 := ReadBool(t0).0;
    first := ReadBool(t0).1;
    var t2;
    t2, readValue := ReadValue(t1, |value|);
    var t3 := ReadBool(t2).0;
    last := ReadBool(t2).1;
    tell := Tell(t3);
    size := Size(t3);
    assert Bit(s3.data, 0) == StoredBit(s2, alloc, 0);
    forall j | 0 <= j < 8 * |value|
      ensures Bit(readValue, j) == Bit(value, j)
    {
      assert Bit(readValue, j) == Bit(s3.data, 1 + j);
      assert Bit(s3.data, 1 + j) == StoredBit(s2, alloc, 1 + j);
    }
    BitsDetermineBuffer(readValue, value);
  }

  /** The stream after `write(true)` and the intended `write(value)` from capacity 0. */
  method BoolThenExactValue(value: seq<bv8>, alloc: Memory) returns (s2: Stream)
    requires 8 * |value| + 2 <= MAX_CURSOR
    ensures Valid(s2) && s2.ownsMemory
    ensures s2.cursor == s2.numBits == 8 * |value| + 1
    ensures 8 * |value| + 1 <= 8 * |s2.data|
    ensures Bit(s2.data, 0)
    ensures forall j | 0 <= j < 8 * |value| :: Bit(s2.data, 1 + j) == Bit(value, j)
  {
    var s0 := WithCapacity(0, alloc);
    var s1 := WriteBool(s0, true, alloc);
    s2 := WriteBitsExact(s1, value, 8 * |value|, alloc);
    assert Bit(s2.data, 0) == StoredBit(s1, alloc, 0);
    forall j | 0 <= j < 8 * |value|
      ensures Bit(s2.data, 1 + j) == Bit(value, j)
    {
      assert 1 <= 1 + j < 1 + 8 * |value|;
    }
  }

  // ---------------------------------------------------------------------------
  // align: the mask is a remainder only for power-of-two widths.

  /** `align(3)` at cursor 16 of a 40-bit stream moves to bit 32, past the 24-bit boundary:
      `(16 - 1) & 23` is 7, not `15 % 24`. */
  lemma AlignOvershoots()
    ensures var s := Stream(seq(5, i => 0), 40, 0, 16, true);
            Valid(s) && Align(s, 3).cursor == 32 && AlignExact(s, 3).cursor == 24
  {
    var s := Stream(seq(5, i => 0), 40, 0, 16, true);
    assert BitAnd(15, 23) == 7 by {
      assert BitAnd(0, 1) == 0;
      assert BitAnd(1, 2) == 0;
      assert BitAnd(3, 5) == 1;
      assert BitAnd(7, 11) == 3;
    }
    assert Align(s, 3) == Skip(s, 16);
    assert NextMultiple(16, 24) == 24;
  }

  /** `align(count)` as intended: the cursor moves to the next multiple of `count * 8` bits,
      staying put when already there, clamped to the capacity. */
  function AlignExact(s: Stream, count: nat): (r: Stream)
    requires Valid(s)
    ensures Valid(r)
    ensures r.data == s.data && r.maxBits == s.maxBits && r.numBits == s.numBits
    ensures r.ownsMemory == s.ownsMemory
    ensures count == 0 ==> r == s
    ensures count > 0 ==> s.cursor <= r.cursor < s.cursor + count * 8
    ensures count > 0 && r.cursor < s.maxBits ==> r.cursor % (count * 8) == 0
    ensures count > 0 ==>
              forall p | s.cursor <= p < r.cursor :: p % (count * 8) != 0
  {
    if count == 0 then s
    else
      var bits := count * 8;
      var target := NextMultiple(s.cursor, bits);
      NextMultipleBounds(s.cursor, bits);
      s.(cursor := if target < s.maxBits then target else s.maxBits)
  }

  /** The next multiple of `a` at or after `c` is a multiple, less than `a` past `c`, and no
      earlier position from `c` on is a multiple. */
  lemma NextMultipleBounds(c: nat, a: nat)
    requires a > 0
    ensures c <= NextMultiple(c, a) < c + a
    ensures NextMultiple(c, a) % a == 0
    ensures forall p | c <= p < NextMultiple(c, a) :: p % a != 0
  {
    var q := (c + a - 1) / a;
    var t := q * a;
    assert c + a - 1 == a * q + (c + a - 1) % a;
    ModUnique(t, a, q, 0);
    forall p | c <= p < t
      ensures p % a != 0
    {
      if p % a == 0 {
        var qp := p / a;
        assert p == a * qp;
        if qp >= q {
          MulAtLeastMonotone(a, q, qp);
          assert false;
        }
        MulAtLeastMonotone(a, qp + 1, q);
        assert false;
      }
    }
  }

  lemma MulAtLeastMonotone(a: nat, x: nat, y: nat)
    requires x <= y
    ensures a * x <= a * y
  {
  }

  /** For power-of-two widths the source's `align` already is the intended one. */
  lemma AlignAgreesOnPowersOfTwo(s: Stream, count: nat, k: nat)
    requires Valid(s)
    requires s.maxBits <= INT32_MAX
    requires s.cursor + count * 8 <= INT32_MAX
    requires count * 8 == Pow2(k)
    ensures Align(s, count) == AlignExact(s, count)
  {
    AlignToPowerOfTwo(s, count, k);
  }
}
