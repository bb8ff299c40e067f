/** The stream's state and the operations that do not copy bit runs: construction, growth of owned
    memory, cursor movement and single-bit access. Bit-run copies (`writeBits`, `readBits`) are in
    module `BitCopy`. */
module Bitstream {
  import opened Bits

  /** Contents of freshly allocated, uninitialised memory: byte `i` of a newly allocated buffer
      holds `alloc(i)` until something is stored there. Nothing is assumed about freshly
      allocated bytes; allocation itself is not modelled. */
  type Memory = nat -> bv8

  /** Largest cursor position for which the stream's 32-bit cursor and growth arithmetic
      (`cursor + count`, `n + 32 + n / 2`, rounded up to whole bytes) cannot wrap around. */
  const MAX_CURSOR: nat := 0x7FFF_FFFF

  /** Extra bits added on every growth of owned memory (four quanta). */
  const GROWTH_SLACK: nat := 4 * BITS_PER_QUANT

  /** The stream: a buffer of bytes, its capacity in bits, the number of valid bits, the
      read/write cursor in bits, and whether the stream owns (and may grow) the buffer. */
  datatype Stream = Stream(data: seq<bv8>, maxBits: nat, numBits: nat, cursor: nat, ownsMemory: bool)

  /** Size never exceeds capacity, the cursor stays within capacity, the buffer holds at least
      `maxBits` bits, and owned memory is exactly `maxBits` bits (a whole number of bytes). */
  predicate Valid(s: Stream)
  {
    && s.numBits <= s.maxBits
    && s.cursor <= s.maxBits
    && s.maxBits <= 8 * |s.data|
    && (s.ownsMemory ==> s.maxBits == 8 * |s.data|)
  }

  /** Bit `p` as the stream will hold it once its buffer covers `p`: the stored bit when the
      buffer already covers `p`, otherwise the bit of uninitialised memory that growth brings in. */
  predicate StoredBit(s: Stream, alloc: Memory, p: nat)
  {
    if p < 8 * |s.data| then Bit(s.data, p) else BitOf(alloc(p / 8), p % 8)
  }

  // ---------------------------------------------------------------------------
  // Construction and growth.

  /** The default constructor: no memory, capacity 0, owning. */
  function Empty(): (r: Stream)
    ensures Valid(r) && r.ownsMemory
    ensures r.maxBits == 0 && r.numBits == 0 && r.cursor == 0
  {
    Stream([], 0, 0, 0, true)
  }

  /** `Bitstream(capacity)`: an owning stream pre-sized to `capacity` bytes. */
  function WithCapacity(capacity: nat, alloc: Memory): (r: Stream)
    requires capacity * 8 <= MAX_CURSOR
    ensures Valid(r) && r.ownsMemory
    ensures r.maxBits == capacity * 8 && r.numBits == 0 && r.cursor == 0
  {
    Realloc(Empty(), capacity * 8, alloc)
  }

  /** `Bitstream(data, count)`: a stream over external memory holding `count` bits, all of them
      treated as valid; the stream never grows or frees it. */
  function FromExternal(data: seq<bv8>, count: nat): (r: Stream)
    requires count <= 8 * |data|
    ensures Valid(r) && !r.ownsMemory
    ensures r.maxBits == count && r.numBits == count && r.cursor == 0 && r.data == data
  {
    Stream(data, count, count, 0, false)
  }

  /** The buffer a reallocation produces: `len` bytes of fresh memory with the previous buffer copied
      over its start. */
  function Grown(prev: seq<bv8>, len: nat, alloc: Memory): (r: seq<bv8>)
    requires |prev| <= len
    ensures |r| == len
    ensures forall i | 0 <= i < |prev| :: r[i] == prev[i]
    ensures forall i | |prev| <= i < len :: r[i] == alloc(i)
  {
    seq(len, i requires 0 <= i < len => if i < |prev| then prev[i] else alloc(i))
  }

  /** `realloc(numBits)`: make room for `numBits` bits rounded up to whole bytes. Shrinking is a
      precondition violation in the source (`assert(numBits > mMaxBits)`). */
  function Realloc(s: Stream, numBits: nat, alloc: Memory): (r: Stream)
    requires Valid(s) && s.ownsMemory
    requires RoundUp8(numBits) >= s.maxBits
    ensures Valid(r) && r.ownsMemory
    ensures r.maxBits == RoundUp8(numBits)
    ensures r.numBits == s.numBits && r.cursor == s.cursor
    ensures |r.data| >= |s.data| && r.data[..|s.data|] == s.data
    ensures forall p | 0 <= p < 8 * |r.data| :: Bit(r.data, p) == StoredBit(s, alloc, p)
  {
    var n := RoundUp8(numBits);
    if n == s.maxBits then s
    else
      var r := s.(data := Grown(s.data, n / 8, alloc), maxBits := n);
      GrownBits(s, r.data, alloc);
      r
  }

  lemma GrownBits(s: Stream, data: seq<bv8>, alloc: Memory)
    requires |s.data| <= |data|
    requires forall i | 0 <= i < |s.data| :: data[i] == s.data[i]
    requires forall i | |s.data| <= i < |data| :: data[i] == alloc(i)
    ensures forall p | 0 <= p < 8 * |data| :: Bit(data, p) == StoredBit(s, alloc, p)
  {
  }

  /** `reallocIfNeeded(numBits)`: grow owned memory to `numBits + 32 + numBits / 2` bits (rounded
      up to whole bytes) when `numBits` exceeds the capacity. Exceeding the capacity of external
      memory is a precondition violation in the source (`assert(false)`). */
  function ReallocIfNeeded(s: Stream, numBits: nat, alloc: Memory): (r: Stream)
    requires Valid(s)
    requires numBits <= s.maxBits || s.ownsMemory
    requires numBits <= MAX_CURSOR
    ensures Valid(r)
    ensures r.maxBits >= numBits && r.maxBits >= s.maxBits
    ensures numBits > s.maxBits ==> r.maxBits == RoundUp8(numBits + GROWTH_SLACK + numBits / 2)
    ensures numBits <= s.maxBits ==> r == s
    ensures r.ownsMemory == s.ownsMemory && r.numBits == s.numBits && r.cursor == s.cursor
    ensures r.ownsMemory ==> r.maxBits % 8 == 0
    ensures |r.data| >= |s.data| && r.data[..|s.data|] == s.data
    ensures forall p | 0 <= p < 8 * |r.data| :: Bit(r.data, p) == StoredBit(s, alloc, p)
  {
    if numBits > s.maxBits then Realloc(s, numBits + GROWTH_SLACK + numBits / 2, alloc)
    else
      GrownBits(s, s.data, alloc);
      s
  }

  // ---------------------------------------------------------------------------
  // Accessors.

  /** `tell()`: the cursor, in bits. */
  function Tell(s: Stream): nat { s.cursor }

  /** `size()`: the number of valid bits. */
  function Size(s: Stream): nat { s.numBits }

  /** `capacity()`: the number of bits storable without growing. */
  function Capacity(s: Stream): nat { s.maxBits }

  /** `eof()`: the cursor has reached the end of the valid bits. */
  predicate Eof(s: Stream) { s.cursor >= s.numBits }

  // ---------------------------------------------------------------------------
  // Cursor movement. None of these touch the buffer, the size or the capacity.

  /** `Math::clamp(v, lo, hi)`. */
  function Clamp(v: int, lo: int, hi: int): int
    requires lo <= hi
  {
    if v < lo then lo else if v > hi then hi else v
  }

  /** `skip(count)`: move the cursor by a signed amount, clamped to `[0, capacity]`. The source
      computes in `int32_t`; the requires keep that arithmetic from wrapping. */
  function Skip(s: Stream, delta: int): (r: Stream)
    requires Valid(s)
    requires s.maxBits <= INT32_MAX
    requires INT32_MIN <= delta <= INT32_MAX
    requires INT32_MIN <= s.cursor + delta <= INT32_MAX
    ensures Valid(r)
    ensures s.cursor + delta <= 0 ==> r.cursor == 0
    ensures 0 <= s.cursor + delta <= s.maxBits ==> r.cursor == s.cursor + delta
    ensures s.cursor + delta >= s.maxBits ==> r.cursor == s.maxBits
    ensures r.data == s.data && r.maxBits == s.maxBits && r.numBits == s.numBits
    ensures r.ownsMemory == s.ownsMemory
  {
    s.(cursor := Clamp(s.cursor + delta, 0, s.maxBits) as nat)
  }

  /** `seek(pos)`: place the cursor at `pos`, clamped to the capacity. */
  function Seek(s: Stream, pos: nat): (r: Stream)
    requires Valid(s)
    ensures Valid(r)
    ensures pos <= s.maxBits ==> r.cursor == pos
    ensures pos > s.maxBits ==> r.cursor == s.maxBits
    ensures r.data == s.data && r.maxBits == s.maxBits && r.numBits == s.numBits
    ensures r.ownsMemory == s.ownsMemory
  {
    s.(cursor := if pos < s.maxBits then pos else s.maxBits)
  }

  /** The least multiple of `a` that is at least `c`. */
  function NextMultiple(c: nat, a: nat): (r: nat)
    requires a > 0
  {
    (c + a - 1) / a * a
  }

  /** `align(count)`: skip forward by `bits - (((cursor - 1) & (bits - 1)) + 1)` where
      `bits = count * 8`, with the source's unsigned 32-bit subtraction (at cursor 0,
      `cursor - 1` wraps to 2^32 - 1) and bitwise AND. The requires keep `count * 8` and the
      final `skip` within `int32_t`. */
  function Align(s: Stream, count: nat): (r: Stream)
    requires Valid(s)
    requires s.maxBits <= INT32_MAX
    requires s.cursor + count * 8 <= INT32_MAX
    ensures Valid(r)
    ensures s.cursor <= r.cursor <= s.maxBits
    ensures count > 0 ==> r.cursor < s.cursor + count * 8
    ensures count == 0 ==> r == s
    ensures r.data == s.data && r.maxBits == s.maxBits && r.numBits == s.numBits
    ensures r.ownsMemory == s.ownsMemory
  {
    if count == 0 then s
    else
      var bits := count * 8;
      var masked := BitAnd(U32(s.cursor - 1), U32(bits - 1));
      BitAndBound(U32(s.cursor - 1), U32(bits - 1));
      Skip(s, U32(bits - (masked + 1)))
  }

  /** For `count * 8` a power of two the mask arithmetic is exact: the cursor moves to the next
      multiple of `count * 8` (staying put when already aligned), clamped to the capacity. */
  lemma AlignToPowerOfTwo(s: Stream, count: nat, k: nat)
    requires Valid(s)
    requires s.maxBits <= INT32_MAX
    requires s.cursor + count * 8 <= INT32_MAX
    requires count * 8 == Pow2(k)
    ensures var target := NextMultiple(s.cursor, count * 8);
            Align(s, count).cursor == if target <= s.maxBits then target else s.maxBits
    ensures s.cursor % (count * 8) == 0 ==> Align(s, count).cursor == s.cursor
  {
    var bits := count * 8;
    var c := s.cursor;
    BitAndBound(U32(c - 1), U32(bits - 1));
    var dist := U32(bits - (BitAnd(U32(c - 1), U32(bits - 1)) + 1));
    assert Align(s, count) == Skip(s, dist);
    AlignDistance(c, bits, k);
    if c % bits == 0 {
      NextMultipleOfMultiple(c, bits);
    }
  }

  /** The distance `align` computes reaches exactly the next multiple of a power of two. */
  lemma AlignDistance(c: nat, bits: nat, k: nat)
    requires bits == Pow2(k) && bits <= INT32_MAX && c <= INT32_MAX
    ensures c + U32(bits - (BitAnd(U32(c - 1), U32(bits - 1)) + 1)) == NextMultiple(c, bits)
  {
    assert k < 32 by {
      if k >= 32 {
        Pow2Monotone(32, k);
        Pow2Of32();
      }
    }
    BitAndLowMask(U32(c - 1), k);
    if c == 0 {
      AlignDistanceAtZero(bits, k);
    } else {
      AlignDistancePositive(c, bits);
    }
  }

  lemma AlignDistanceAtZero(bits: nat, k: nat)
    requires bits == Pow2(k) && k < 32
    ensures U32(0 - 1) % bits == bits - 1
    ensures NextMultiple(0, bits) == 0
  {
    Pow2Divides(k, 32);
    Pow2Of32();
    var q := UINT32_MODULUS / bits;
    assert UINT32_MODULUS == bits * q;
    assert UINT32_MODULUS - 1 == bits * (q - 1) + (bits - 1);
    ModUnique(UINT32_MODULUS - 1, bits, q - 1, bits - 1);
    ModUnique(bits - 1, bits, 0, bits - 1);
  }

  lemma AlignDistancePositive(c: nat, bits: nat)
    requires bits > 0 && c > 0
    ensures c + bits - ((c - 1) % bits + 1) == NextMultiple(c, bits)
  {
    var q := (c - 1) / bits;
    var masked := (c - 1) % bits;
    assert c - 1 == bits * q + masked;
    assert c + bits - 1 == bits * (q + 1) + masked;
    ModUnique(c + bits - 1, bits, q + 1, masked);
  }

  /** A multiple of `a` is its own next multiple. */
  lemma NextMultipleOfMultiple(c: nat, a: nat)
    requires a > 0 && c % a == 0
    ensures NextMultiple(c, a) == c
  {
    ModUnique(c + a - 1, a, c / a, a - 1);
  }

  // ---------------------------------------------------------------------------
  // Single-bit access: `write(const bool&)` and `read(bool&)`.

  /** `write(bool)`: grow if needed, then set or clear exactly the bit under the cursor. */
  function WriteBool(s: Stream, v: bool, alloc: Memory): (r: Stream)
    requires Valid(s)
    requires s.ownsMemory || s.cursor + 1 <= s.maxBits
    requires s.cursor + 1 <= MAX_CURSOR
    ensures Valid(r) && r.ownsMemory == s.ownsMemory
    ensures r.cursor == s.cursor + 1
    ensures r.numBits == if s.numBits > r.cursor then s.numBits else r.cursor
    ensures r.maxBits >= r.cursor && r.maxBits >= s.maxBits
    ensures r.ownsMemory ==> r.maxBits % 8 == 0
    ensures s.cursor + 1 <= s.maxBits ==> r.maxBits == s.maxBits && |r.data| == |s.data|
    ensures s.cursor + 1 > s.maxBits ==>
              var n := s.cursor + 1; r.maxBits == RoundUp8(n + GROWTH_SLACK + n / 2)
    ensures Bit(r.data, s.cursor) == v
    ensures forall p | 0 <= p < 8 * |r.data| && p != s.cursor :: Bit(r.data, p) == StoredBit(s, alloc, p)
  {
    var g := ReallocIfNeeded(s, s.cursor + 1, alloc);
    var data := SetBit(g.data, g.cursor, v);
    g.(data := data, cursor := g.cursor + 1,
       numBits := if g.numBits > g.cursor + 1 then g.numBits else g.cursor + 1)
  }

  /** The buffer after `mData[q] |= 1U << m` (for `true`) or `mData[q] &= ~(1U << m)` (for
      `false`), where `q` and `m` locate bit `c`. */
  function SetBit(data: seq<bv8>, c: nat, v: bool): (r: seq<bv8>)
    requires c < 8 * |data|
    ensures |r| == |data|
    ensures Bit(r, c) == v
    ensures forall p | 0 <= p < 8 * |data| && p != c :: Bit(r, p) == Bit(data, p)
  {
    var q := c / 8;
    var m := c % 8;
    data[q := SetByteBit(data[q], m, v)]
  }

  /** One byte with bit `m` set to `v`: the 32-bit `1U << m` and its complement only ever
      touch the low byte, so the operation is exact on bytes. */
  function SetByteBit(b: bv8, m: nat, v: bool): (r: bv8)
    requires m < 8
    ensures forall j | 0 <= j < 8 :: BitOf(r, j) == if j == m then v else BitOf(b, j)
  {
    SetByteBitBits(b, m, v);
    if v then b | (1 << m) else b & !(1 << m)
  }

  lemma SetByteBitBits(b: bv8, m: nat, v: bool)
    requires m < 8
    ensures forall j | 0 <= j < 8 ::
      BitOf(if v then b | (1 << m) else b & !(1 << m), j) == if j == m then v else BitOf(b, j)
  {
    forall j | 0 <= j < 8
      ensures BitOf(if v then b | (1 << m) else b & !(1 << m), j) == if j == m then v else BitOf(b, j)
    {
      if v { BitOfSet(b, m, j); } else { BitOfClear(b, m, j); }
    }
  }

  /** `read(bool)`: the bit under the cursor; the cursor advances by one. Reading past the size is
      a precondition violation in the source. */
  function ReadBool(s: Stream): (r: (Stream, bool))
    requires Valid(s)
    requires s.cursor + 1 <= s.numBits
    ensures Valid(r.0)
    ensures r.1 == Bit(s.data, s.cursor)
    ensures r.0 == s.(cursor := s.cursor + 1)
  {
    var q := s.cursor / 8;
    var m := s.cursor % 8;
    (s.(cursor := s.cursor + 1), (s.data[q] >> m) & 1 == 1)
  }

  /** A bit written with `write(bool)` reads back with `read(bool)`, whatever the buffer held. */
  lemma WriteBoolReadBack(s: Stream, v: bool, alloc: Memory)
    requires Valid(s)
    requires s.ownsMemory || s.cursor + 1 <= s.maxBits
    requires s.cursor + 1 <= MAX_CURSOR
    ensures ReadBool(Seek(WriteBool(s, v, alloc), s.cursor)).1 == v
  {
  }
}
