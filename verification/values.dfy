/** `write<T>` and `read<T>`: a value is written and read as the `8 * sizeof(T)` bits of its
    in-memory bytes, and a short session of boolean and value accesses. */
module Values {
  import opened Bits
  import opened Bitstream
  import opened BitCopy

  /** `write<T>(value)`, for the value's bytes as laid out in memory: `writeBits` of all of their
      bits. On a byte-aligned cursor no byte is merged, so the bytes land exactly whatever the
      buffer held. */
  method WriteValue(s: Stream, bytes: seq<bv8>, alloc: Memory) returns (r: Stream)
    requires CanWrite(s, bytes, 8 * |bytes|)
    ensures Valid(r) && r.cursor == s.cursor + 8 * |bytes| && r.ownsMemory == s.ownsMemory
    ensures |bytes| == 0 ==> r == s
    ensures |bytes| > 0 ==> r.numBits == if s.numBits > r.cursor then s.numBits else r.cursor
    ensures r.maxBits >= r.cursor && r.maxBits >= s.maxBits
    ensures r.ownsMemory ==> r.maxBits % 8 == 0
    ensures !s.ownsMemory ==> r.maxBits == s.maxBits
    ensures s.cursor + 8 * |bytes| <= s.maxBits ==> r.maxBits == s.maxBits && |r.data| == |s.data|
    ensures s.cursor + 8 * |bytes| > s.maxBits ==>
              var n := s.cursor + 8 * |bytes|; r.maxBits == RoundUp8(n + GROWTH_SLACK + n / 2)
    ensures |r.data| >= |s.data|
    ensures forall i | 0 <= i < |s.data| && (i < s.cursor / 8 || i >= DivRoundUp(s.cursor + 8 * |bytes|, 8)) ::
              r.data[i] == s.data[i]
    ensures forall j | 0 <= j < 8 * |bytes| ::
              s.cursor + j < 8 * |r.data| &&
              Bit(r.data, s.cursor + j) ==
                (Bit(bytes, j) || (OrMerged(s.cursor, 8 * |bytes|, j) && StoredBit(s, alloc, s.cursor + j)))
    ensures forall p | 0 <= p < s.cursor :: Bit(r.data, p) == Bit(s.data, p)
    ensures s.cursor % 8 == 0 ==>
              s.cursor / 8 + |bytes| <= |r.data| && r.data[s.cursor / 8..s.cursor / 8 + |bytes|] == bytes
  {
    r := WriteBits(s, bytes, 8 * |bytes|, alloc);
    ValueRun(s, alloc, bytes, r.data);
  }

  /** The run of a value's bits in the buffer `writeBits` leaves. */
  lemma ValueRun(s: Stream, alloc: Memory, bytes: seq<bv8>, data: seq<bv8>)
    requires s.cursor + 8 * |bytes| <= 8 * |data|
    requires forall p | 0 <= p < 8 * |data| ::
               Bit(data, p) == RunBit(bytes, s.cursor, 8 * |bytes|, p, StoredBit(s, alloc, p))
    ensures forall j | 0 <= j < 8 * |bytes| ::
              Bit(data, s.cursor + j) ==
                (Bit(bytes, j) || (OrMerged(s.cursor, 8 * |bytes|, j) && StoredBit(s, alloc, s.cursor + j)))
    ensures s.cursor % 8 == 0 ==>
              s.cursor / 8 + |bytes| <= |data| && data[s.cursor / 8..s.cursor / 8 + |bytes|] == bytes
  {
    ValueRunBits(s, alloc, bytes, data);
    if s.cursor % 8 == 0 {
      AlignedRun(s, alloc, bytes, data);
    }
  }

  lemma ValueRunBits(s: Stream, alloc: Memory, bytes: seq<bv8>, data: seq<bv8>)
    requires s.cursor + 8 * |bytes| <= 8 * |data|
    requires forall p | 0 <= p < 8 * |data| ::
               Bit(data, p) == RunBit(bytes, s.cursor, 8 * |bytes|, p, StoredBit(s, alloc, p))
    ensures forall j | 0 <= j < 8 * |bytes| ::
              Bit(data, s.cursor + j) ==
                (Bit(bytes, j) || (OrMerged(s.cursor, 8 * |bytes|, j) && StoredBit(s, alloc, s.cursor + j)))
  {
    var n := 8 * |bytes|;
    assert DivRoundUp(n, 8) == |bytes|;
    forall j | 0 <= j < n
      ensures Bit(data, s.cursor + j) ==
                (Bit(bytes, j) || (OrMerged(s.cursor, n, j) && StoredBit(s, alloc, s.cursor + j)))
    {
      RunBitInRun(bytes, s.cursor, n, j, StoredBit(s, alloc, s.cursor + j));
    }
  }

  /** From a byte-aligned cursor nothing is merged: the value's bytes are stored as they are. */
  lemma AlignedRun(s: Stream, alloc: Memory, bytes: seq<bv8>, data: seq<bv8>)
    requires s.cursor % 8 == 0 && s.cursor + 8 * |bytes| <= 8 * |data|
    requires forall j | 0 <= j < 8 * |bytes| ::
               Bit(data, s.cursor + j) ==
                 (Bit(bytes, j) || (OrMerged(s.cursor, 8 * |bytes|, j) && StoredBit(s, alloc, s.cursor + j)))
    ensures s.cursor / 8 + |bytes| <= |data| && data[s.cursor / 8..s.cursor / 8 + |bytes|] == bytes
  {
    var n := 8 * |bytes|;
    var q := s.cursor / 8;
    assert 8 * q == s.cursor && n / 8 == |bytes|;
    forall j | 0 <= j < n
      ensures Bit(data, 8 * q + j) == Bit(bytes, j)
    {
      assert !OrMerged(s.cursor, n, j);
    }
    AlignedValue(data, q, bytes);
  }

  /** The bytes at byte `q` are `bytes` when their bits are the bits of `bytes`. */
  lemma AlignedValue(data: seq<bv8>, q: nat, bytes: seq<bv8>)
    requires 8 * q + 8 * |bytes| <= 8 * |data|
    requires forall j | 0 <= j < 8 * |bytes| :: Bit(data, 8 * q + j) == Bit(bytes, j)
    ensures q + |bytes| <= |data| && data[q..q + |bytes|] == bytes
  {
    var slice := data[q..q + |bytes|];
    forall j | 0 <= j < 8 * |slice|
      ensures Bit(slice, j) == Bit(bytes, j)
    {
      BitOfSlice(data, q, |bytes|, j);
    }
    BitsDetermineBuffer(slice, bytes);
  }

  /** `read<T>(value)`: `readBits` of the value's `8 * size` bits into its bytes. On a
      byte-aligned cursor the value is the stored bytes themselves. */
  method ReadValue(s: Stream, size: nat) returns (r: Stream, bytes: seq<bv8>)
    requires Valid(s) && (size > 0 ==> s.cursor + 8 * size <= s.numBits)
    ensures r == s.(cursor := s.cursor + 8 * size) && Valid(r)
    ensures |bytes| == size
    ensures forall j | 0 <= j < 8 * size :: Bit(bytes, j) == Bit(s.data, s.cursor + j)
    ensures s.cursor % 8 == 0 && size > 0 ==>
              s.cursor / 8 + size <= |s.data| && bytes == s.data[s.cursor / 8..s.cursor / 8 + size]
  {
    r, bytes := ReadBits(s, 8 * size);
    assert DivRoundUp(8 * size, 8) == size;
    if s.cursor % 8 == 0 && size > 0 {
      AlignedValue(s.data, s.cursor / 8, bytes);
    }
  }

  /** `write(value)` at cursor `c`, then `seek(c)` and `read(value)`: the value comes back byte
      for byte when the cursor is byte-aligned, or when the bits it overwrites were clear. */
  method WriteSeekReadValue(s: Stream, value: seq<bv8>, alloc: Memory) returns (r: Stream, back: seq<bv8>)
    requires CanWrite(s, value, 8 * |value|)
    ensures r.cursor == s.cursor + 8 * |value|
    ensures |back| == |value|
    ensures s.cursor % 8 == 0 ==> back == value
    ensures (forall p | s.cursor <= p < s.cursor + 8 * |value| :: !StoredBit(s, alloc, p)) ==> back == value
  {
    var w := WriteValue(s, value, alloc);
    var t := Seek(w, s.cursor);
    r, back := ReadValue(t, |value|);
    forall j | 0 <= j < 8 * |value|
      ensures Bit(back, j) ==
                (Bit(value, j) || (OrMerged(s.cursor, 8 * |value|, j) && StoredBit(s, alloc, s.cursor + j)))
    {
      assert Bit(back, j) == Bit(w.data, s.cursor + j);
    }
    if s.cursor % 8 == 0 {
      AlignedUnmerged(s, alloc, value, back);
    }
    if forall p | s.cursor <= p < s.cursor + 8 * |value| :: !StoredBit(s, alloc, p) {
      ClearUnmerged(s, alloc, value, back);
    }
  }

  /** From a byte-aligned cursor no read-back bit is OR-ed: the value comes back. */
  lemma AlignedUnmerged(s: Stream, alloc: Memory, value: seq<bv8>, back: seq<bv8>)
    requires |back| == |value| && s.cursor % 8 == 0
    requires forall j | 0 <= j < 8 * |value| ::
               Bit(back, j) ==
                 (Bit(value, j) || (OrMerged(s.cursor, 8 * |value|, j) && StoredBit(s, alloc, s.cursor + j)))
    ensures back == value
  {
    assert (8 * |value|) / 8 == |value|;
    forall j | 0 <= j < 8 * |value|
      ensures Bit(back, j) == Bit(value, j)
    {
      assert !OrMerged(s.cursor, 8 * |value|, j);
    }
    BitsDetermineBuffer(back, value);
  }

  /** When the overwritten bits were clear, OR-ing with them changes nothing. */
  lemma ClearUnmerged(s: Stream, alloc: Memory, value: seq<bv8>, back: seq<bv8>)
    requires |back| == |value|
    requires forall p | s.cursor <= p < s.cursor + 8 * |value| :: !StoredBit(s, alloc, p)
    requires forall j | 0 <= j < 8 * |value| ::
               Bit(back, j) ==
                 (Bit(value, j) || (OrMerged(s.cursor, 8 * |value|, j) && StoredBit(s, alloc, s.cursor + j)))
    ensures back == value
  {
    forall j | 0 <= j < 8 * |value|
      ensures Bit(back, j) == Bit(value, j)
    {
      assert s.cursor <= s.cursor + j < s.cursor + 8 * |value|;
    }
    BitsDetermineBuffer(back, value);
  }

  /** `write(true); write(value); write(false); seek(0); read(bool); read(value); read(bool)` on a
      stream created with capacity 0. The booleans read back exactly and the stream ends after
      `8 * sizeof(T) + 2` bits; the value reads back OR-ed, in its first seven bits, with bits 1..7
      of the memory the first growth brought in, so it reads back exactly when that memory is
      clear. */
  method BoolValueBool(value: seq<bv8>, alloc: Memory)
      returns (first: bool, readValue: seq<bv8>, last: bool, tell: nat, size: nat)
    requires 8 * |value| + 2 <= MAX_CURSOR
    ensures first && !last
    ensures tell == size == 8 * |value| + 2
    ensures |readValue| == |value|
    ensures forall j | 0 <= j < 8 * |value| ::
              Bit(readValue, j) == (Bit(value, j) || (j < 7 && BitOf(alloc(0), j + 1)))
    ensures alloc(0) == 0 ==> readValue == value
  {
    var s2 := BoolThenValue(value, alloc);
    var s3 := WriteBool(s2, false, alloc);
    var t0 := Seek(s3, 0);
    var t1 := ReadBool(t0).0;
    first := ReadBool(t0).1;
    var t2;
    t2, readValue := ReadValue(t1, |value|);
    var t3 := ReadBool(t2).0;
    last := ReadBool(t2).1;
    tell := Tell(t3);
    size := Size(t3);
    assert Bit(s3.data, 0) == StoredBit(s2, alloc, 0);
    forall j | 0 <= j < 8 * |value|
      ensures Bit(readValue, j) == (Bit(value, j) || (j < 7 && BitOf(alloc(0), j + 1)))
    {
      assert Bit(readValue, j) == Bit(s3.data, 1 + j);
      assert Bit(s3.data, 1 + j) == StoredBit(s2, alloc, 1 + j);
    }
    if alloc(0) == 0 {
      ClearMemoryValue(value, alloc, readValue);
    }
  }

  /** The stream after `write(true); write(value)` from capacity 0. */
  method BoolThenValue(value: seq<bv8>, alloc: Memory) returns (s2: Stream)
    requires 8 * |value| + 2 <= MAX_CURSOR
    ensures Valid(s2) && s2.ownsMemory
    ensures s2.cursor == s2.numBits == 8 * |value| + 1
    ensures 8 * |value| + 1 <= 8 * |s2.data|
    ensures Bit(s2.data, 0)
    ensures forall j | 0 <= j < 8 * |value| ::
              Bit(s2.data, 1 + j) == (Bit(value, j) || (j < 7 && BitOf(alloc(0), j + 1)))
  {
    var s0 := WithCapacity(0, alloc);
    var s1 := WriteBool(s0, true, alloc);
    s2 := WriteValue(s1, value, alloc);
    forall j | 0 <= j < 8 * |value|
      ensures Bit(s2.data, 1 + j) == (Bit(value, j) || (j < 7 && BitOf(alloc(0), j + 1)))
    {
      assert OrMerged(1, 8 * |value|, j) == (j < 7);
      if j < 7 {
        FreshFirstByte(s0, s1, alloc, j);
      }
    }
  }

  /** Bits 1..7 of a stream whose first byte came fresh from the allocator. */
  lemma FreshFirstByte(s0: Stream, s1: Stream, alloc: Memory, j: nat)
    requires |s0.data| == 0 && |s1.data| >= 1 && j < 7
    requires Bit(s1.data, 1 + j) == StoredBit(s0, alloc, 1 + j)
    ensures StoredBit(s1, alloc, 1 + j) == BitOf(alloc(0), j + 1)
  {
  }

  lemma ClearMemoryValue(value: seq<bv8>, alloc: Memory, readValue: seq<bv8>)
    requires alloc(0) == 0 && |readValue| == |value|
    requires forall j | 0 <= j < 8 * |value| ::
               Bit(readValue, j) == (Bit(value, j) || (j < 7 && BitOf(alloc(0), j + 1)))
    ensures readValue == value
  {
    forall j | 0 <= j < 8 * |value|
      ensures Bit(readValue, j) == Bit(value, j)
    {
      if j < 7 {
        BitOfZero(j + 1);
      }
    }
    BitsDetermineBuffer(readValue, value);
  }
}
