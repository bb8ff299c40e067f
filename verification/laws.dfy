/** What the stream promises about sequences of its operations: writing a run, seeking back and
    reading it again. */
module StreamLaws {
  import opened Bits
  import opened Bitstream
  import opened BitCopy

  /** `writeBits(src, count)` at cursor `c`, then `seek(c)` and `readBits(dst, count)`. Each bit
      read back is the source bit, OR-ed with the bit the stream held there when that bit lies in
      the byte the copy merges into; so when the bits to be written are clear beforehand (in the
      buffer, or in the memory growth brings in) the run reads back exactly, on the aligned and
      the unaligned path alike. The stream ends at the end of the run. */
  method WriteSeekRead(s: Stream, src: seq<bv8>, count: nat, alloc: Memory) returns (r: Stream, back: seq<bv8>)
    requires CanWrite(s, src, count)
    ensures r.cursor == s.cursor + count
    ensures |back| == DivRoundUp(count, 8)
    ensures forall j | 0 <= j < count ::
              Bit(back, j) == (Bit(src, j) || (OrMerged(s.cursor, count, j) && StoredBit(s, alloc, s.cursor + j)))
    ensures (forall p | s.cursor <= p < s.cursor + count :: !StoredBit(s, alloc, p)) ==>
              forall j | 0 <= j < count :: Bit(back, j) == Bit(src, j)
  {
    var w := WriteBits(s, src, count, alloc);
    var t := Seek(w, s.cursor);
    r, back := ReadBits(t, count);
    forall j | 0 <= j < count
      ensures Bit(back, j) == (Bit(src, j) || (OrMerged(s.cursor, count, j) && StoredBit(s, alloc, s.cursor + j)))
    {
      RunBitInRun(src, s.cursor, count, j, StoredBit(s, alloc, s.cursor + j));
    }
  }
}
