# Bitstream and VertexData, modelled in Dafny

This project models two pieces of a game engine's foundation code and proves properties of them.

**`bs::Bitstream`** is a bit-granular read/write stream. It is a cursor, counted in bits, over a
byte buffer. Bits are packed least-significant first: stream bit `i` is bit `i % 8` of byte `i / 8`.
The model covers:

- the three constructors and the growth of owned memory (`reallocIfNeeded`, `realloc`);
- `writeBits` and `readBits`, each with its aligned `memcpy` path and its shift-and-merge loop;
- `write<T>` and `read<T>`, taking the value as its bytes;
- the single-bit `write(bool)` and `read(bool)`;
- cursor movement: `skip`, `seek` and `align`, with the source's signed and unsigned 32-bit arithmetic in `align`;
- the accessors `tell`, `size`, `capacity` and `eof`.

**`VertexData`** is a registry of vertex buffers keyed by stream slot. It caches the largest
registered slot. The model covers the constructor, `setBuffer`, `getBuffer`, `isBufferBound` and
`recalculateMaxIndex`.

Modules:

- `Bits` (bits.dfy): the bit view `Bit(data, i)` of a byte buffer, and facts about bytes and 32-bit arithmetic.
- `Bitstream` (bitstream.dfy):
  - the state, an immutable `Stream` of buffer, capacity `maxBits`, size `numBits`, cursor and ownership;
  - construction and growth, accessors, cursor movement, and single-bit access.
- `BitCopy` (bitcopy.dfy):
  - `writeBits` and `readBits` as methods whose loops follow the source statement by statement;
  - byte-level closed forms (`MergedBytes`, `GatheredBytes`) that the loops are proved to compute;
  - bit-level descriptions (`RunBit`, `ReadBit`) that the closed forms are proved to equal.
- `StreamLaws` (laws.dfy): the write / seek / read round trip.
- `Values` (values.dfy):
  - `write<T>` and `read<T>`;
  - the session `write(true); write(0xDEADBEEF); write(false); seek(0)` followed by three reads.
- `Corrections` (corrections.dfy): the findings below, with counterexamples and corrected definitions.
- `VertexData` (vertex_data.dfy): the buffer registry.

Uninitialised memory is a parameter `alloc: nat -> bv8`. When a buffer grows, byte `i` of the new
memory holds `alloc(i)`. Nothing is assumed about freshly allocated bytes, and allocation itself
is not modelled. `StoredBit(s, alloc, p)` is the bit position `p` holds once the buffer covers it.

`writeBits` does not store its run exactly, because of `destMask = 0xFF`:

- The destination byte is OR-ed with its whole old value.
- On an unaligned cursor, the byte after the last whole source byte is overwritten.
- A trailing partial source byte contributes all eight of its bits.

The main model keeps this behaviour, since it is what the code does, and the model follows the
code. By contrast, `write(bool)` (BsBitstream.h:293-296) overwrites exactly its bit. As a result, the round trip holds
bit-for-bit only where the overwritten bits were clear, or where nothing is merged: a byte-aligned
cursor with a whole number of bytes.

## Model

| member | source | states |
|---|---|---|
| Bitstream.Empty | Source/Foundation/bsfUtility/Utility/BsBitstream.h:160-165 | A default-constructed stream has capacity 0, size 0 and cursor 0, and owns its memory. |
| Bitstream.WithCapacity | Source/Foundation/bsfUtility/Utility/BsBitstream.h:174-177 | `Bitstream(n)` owns its memory and has capacity exactly `n * 8` bits, size 0 and cursor 0. |
| Bitstream.FromExternal | Source/Foundation/bsfUtility/Utility/BsBitstream.h:179-180 | A stream over caller memory has size = capacity = `count`, cursor 0, the caller's bytes, and does not own them. |
| Bitstream.Realloc | Source/Foundation/bsfUtility/Utility/BsBitstream.h:350-372 | Capacity becomes `numBits` rounded up to whole bytes and never shrinks. Size and cursor are kept, and every old byte is preserved. Each bit is the old bit, or fresh memory past the old buffer. |
| Bitstream.ReallocIfNeeded | Source/Foundation/bsfUtility/Utility/BsBitstream.h:332-348 | Nothing changes when `numBits` fits. Otherwise capacity becomes `RoundUp8(n + 32 + n/2)`, a multiple of 8 and at least `n`; `n` is at most `2^31 - 1`, so this arithmetic does not wrap in 32 bits. Old bytes are kept. An external stream may not be asked to grow. |
| Bitstream.Skip | Source/Foundation/bsfUtility/Utility/BsBitstream.h:313-316 | The cursor becomes `cursor + delta` clamped to `[0, capacity]`. Data, size, capacity and ownership are untouched. |
| Bitstream.Seek | Source/Foundation/bsfUtility/Utility/BsBitstream.h:318-321 | The cursor becomes `min(pos, capacity)`. Nothing else changes. |
| Bitstream.Align | Source/Foundation/bsfUtility/Utility/BsBitstream.h:323-330 | `align(0)` is a no-op. Otherwise the cursor moves forward, by less than `count * 8`, and stays within capacity. Nothing else changes. |
| Bitstream.AlignToPowerOfTwo | Source/Foundation/bsfUtility/Utility/BsBitstream.h:323-330 | For `count * 8` a power of two, `align` moves to the next multiple of `count * 8` clamped to capacity, and leaves an aligned cursor in place. |
| Bitstream.AlignDistance | Source/Foundation/bsfUtility/Utility/BsBitstream.h:328-329 | The distance `bits - (((cursor - 1) & (bits - 1)) + 1)`, with 32-bit unsigned wrap, reaches exactly the next multiple of a power-of-two `bits`. |
| Bitstream.AlignDistanceAtZero | Source/Foundation/bsfUtility/Utility/BsBitstream.h:329 | At cursor 0, `cursor - 1` wraps to `2^32 - 1`, whose masked value `bits - 1` gives a distance of 0. |
| Bitstream.WriteBool | Source/Foundation/bsfUtility/Utility/BsBitstream.h:286-300 | `write(bool)` grows if needed and stores exactly `v` at the old cursor. Every other bit is what the stream or fresh memory held. The cursor advances by 1, and size becomes `max(size, cursor)`. Capacity and buffer length are unchanged when the bit fits; otherwise capacity follows the growth formula. |
| Bitstream.SetBit | Source/Foundation/bsfUtility/Utility/BsBitstream.h:290-296 | Setting or clearing bit `c` of the buffer changes that bit to `v` and no other bit. |
| Bitstream.SetByteBit | Source/Foundation/bsfUtility/Utility/BsBitstream.h:293-296 | `b \| (1U << m)` and `b & ~(1U << m)` give bit `m` the value `v` and keep the other seven bits. |
| Bitstream.ReadBool | Source/Foundation/bsfUtility/Utility/BsBitstream.h:302-311 | `read(bool)` requires a valid bit under the cursor. It returns stream bit `cursor`, advances the cursor by 1, and changes nothing else. |
| Bitstream.WriteBoolReadBack | Source/Foundation/bsfUtility/Utility/BsBitstream.h:286-311 | A bit written with `write(bool)` reads back with `seek` and `read(bool)`, whatever the memory held. |
| BitCopy.MergeFirst | Source/Foundation/bsfUtility/Utility/BsBitstream.h:217 | The 32-bit first-byte merge with `destMask = 0xFF` gives each bit as the shifted source bit OR the old bit. |
| BitCopy.MergeNext | Source/Foundation/bsfUtility/Utility/BsBitstream.h:219-221 | The spill into the next byte keeps none of that byte's old bits (`& ~destMask` is 0). It holds only the high source bits, shifted down. |
| BitCopy.Memcpy | Source/Foundation/bsfUtility/Utility/BsBitstream.h:204 | `memcpy` replaces exactly `len` bytes at `at` with the source's first `len` bytes. |
| BitCopy.MergedBytes | Source/Foundation/bsfUtility/Utility/BsBitstream.h:196-225 | The buffer the copy leaves has the same length. Each bit is as `RunBit` describes: kept outside the touched bytes, the source bit OR the old bit in the merged byte, the source bit elsewhere in the run, and clear past the last source byte. |
| BitCopy.MergedByteOutside | Source/Foundation/bsfUtility/Utility/BsBitstream.h:196-225 | Bytes before the cursor's byte, and from the first byte past the run on, are not modified. |
| BitCopy.RunBitInRun | Source/Foundation/bsfUtility/Utility/BsBitstream.h:217-221 | Inside the run, the written bit is the source bit, OR-ed with the old bit exactly in the merged byte. |
| BitCopy.CopyIn | Source/Foundation/bsfUtility/Utility/BsBitstream.h:196-225 | The aligned `memcpy` and the merge loop compute exactly `MergedBytes`. |
| BitCopy.WriteBits | Source/Foundation/bsfUtility/Utility/BsBitstream.h:188-229 | `writeBits(_, 0)` changes nothing. Otherwise the cursor advances by `count` and size becomes `max(size, newCursor)`. Capacity covers the cursor, never decreases, stays a multiple of 8 when owned, is unchanged (with the buffer length) when the run fits, and otherwise follows the growth formula. Each bit of the result is as `RunBit` describes over the pre-write bits. No bit below the cursor changes. No byte outside the run's bytes changes. |
| BitCopy.Gather | Source/Foundation/bsfUtility/Utility/BsBitstream.h:259-264 | One read-loop byte holds the high bits of the current stream byte, then the low bits of the next when more than `8 - srcBitsMod` bits remain. The remaining bits are clear. |
| BitCopy.GatheredBytes | Source/Foundation/bsfUtility/Utility/BsBitstream.h:239-268 | The destination has `ceil(count / 8)` bytes. Its bit `j` is stream bit `cursor + j` while that lies in a byte the copy reads, and clear beyond it. |
| BitCopy.ReadBitAt | Source/Foundation/bsfUtility/Utility/BsBitstream.h:259-264 | Destination bit `8t + b` comes from bit `b + srcBitsMod` of stream byte `srcQuant + t`, or from the next stream byte when the shift crosses it. |
| BitCopy.CopyOut | Source/Foundation/bsfUtility/Utility/BsBitstream.h:239-268 | The aligned `memcpy` and the read loop compute exactly `GatheredBytes`. |
| BitCopy.ReadBits | Source/Foundation/bsfUtility/Utility/BsBitstream.h:231-271 | `readBits(_, 0)` changes nothing. Otherwise it requires `cursor + count <= size`. Destination bit `j` is stream bit `cursor + j` for every `j < count`, and the trailing bits of the last byte are as `ReadBit` describes. Only the cursor changes, advancing by `count`. A one-bit read agrees with `read(bool)`. |
| StreamLaws.WriteSeekRead | Source/Foundation/bsfUtility/Utility/BsBitstream.h:188-271 | `writeBits(src, n)` at `c`, then `seek(c)` and `readBits(n)`, returns bit `j` as `src` bit `j` OR-ed with the old bit where merged. It returns `src` whenever the old bits `[c, c+n)` were clear. |
| Values.WriteValue | Source/Foundation/bsfUtility/Utility/BsBitstream.h:273-277 | `write<T>` writes all `8 * sizeof(T)` bits of the value, with the capacity, growth, cursor, size and byte-frame guarantees of `writeBits`. On a byte-aligned cursor the value's bytes land in the buffer verbatim. |
| Values.AlignedValue | Source/Foundation/bsfUtility/Utility/BsBitstream.h:204 | Bytes whose bits equal the value's bits, at a byte offset, are the value's bytes. |
| Values.ReadValue | Source/Foundation/bsfUtility/Utility/BsBitstream.h:279-284 | `read<T>` advances by `8 * sizeof(T)` and returns the stream's bits. On a byte-aligned cursor it returns the stored bytes. |
| Values.WriteSeekReadValue | Source/Foundation/bsfUtility/Utility/BsBitstream.h:273-284 | A value written, sought back and read returns byte for byte when the cursor is aligned, or when the overwritten bits were clear. |
| Values.BoolValueBool | Source/Foundation/bsfUtility/Utility/BsBitstream.h:273-311 | The bool / value / bool session from capacity 0 reads back `true` and `false`, and ends with `tell() == size() == 8 * sizeof(T) + 2`. The value's first seven bits come back OR-ed with bits 1..7 of the first fresh byte, so the value is exact when that byte is clear. |
| Corrections.StaleBitsSurvive | Source/Foundation/bsfUtility/Utility/BsBitstream.h:198-217 | Writing four clear bits at bit 0 of `[0xFF, 0xFF]` leaves the buffer unchanged, while the exact write would clear them. |
| Corrections.SpillClobbersNextByte | Source/Foundation/bsfUtility/Utility/BsBitstream.h:219-221 | Writing eight clear bits at bit 4 of `[0x00, 0xFF]` yields `[0x00, 0x00]`, clearing bits 12..15 past the run. The exact write yields `[0x00, 0xF0]`. |
| Corrections.FilledMemorySession | Source/Foundation/bsfUtility/Utility/BsBitstream.h:273-311 | Over memory of `0xFF` bytes, the bool / `0xDEADBEEF` / bool session reads the value's first byte back as `0xFF`, not `0xEF`. |
| Corrections.ExactCopy | Source/Foundation/bsfUtility/Utility/BsBitstream.h:188-229 | The intended copy: every bit in `[c, c+n)` is the source bit, and every other bit is kept. |
| Corrections.WriteBitsExact | Source/Foundation/bsfUtility/Utility/BsBitstream.h:188-229 | The intended `writeBits`: the same capacity (unchanged when the run fits, the growth formula otherwise, a multiple of 8 when owned), cursor and size as the source. The run's bits are stored exactly, and all other bits are what the stream or fresh memory held. |
| Corrections.WriteSeekReadExact | Source/Foundation/bsfUtility/Utility/BsBitstream.h:188-271 | With the intended write, `seek` and `readBits` return the written bits unconditionally. |
| Corrections.BoolValueBoolExact | Source/Foundation/bsfUtility/Utility/BsBitstream.h:273-311 | With the intended write, the bool / value / bool session reads back `true`, the value and `false` exactly, whatever memory held, and ends at `8 * sizeof(T) + 2`. |
| Corrections.AlignOvershoots | Source/Foundation/bsfUtility/Utility/BsBitstream.h:323-330 | `align(3)` at cursor 16 of a 40-bit stream lands on 32, while the next multiple of 24 is 24. |
| Corrections.AlignExact | Source/Foundation/bsfUtility/Utility/BsBitstream.h:323-330 | The intended `align`: a no-op for 0. Otherwise the cursor moves forward, by less than `count * 8`, to a multiple of `count * 8` (or to capacity), passing no earlier multiple. |
| Corrections.NextMultipleBounds | Source/Foundation/bsfUtility/Utility/BsBitstream.h:328-329 | The next multiple of `a` at or after `c` is a multiple, is less than `c + a`, and no position in between is a multiple. |
| Corrections.AlignAgreesOnPowersOfTwo | Source/Foundation/bsfUtility/Utility/BsBitstream.h:323-330 | For power-of-two `count * 8`, the source's `align` equals the intended one. |
| VertexData.New | BansheeCore/Source/CmVertexData.cpp:11-15 | A new registry has vertex count 0, and no slot is bound or returns a buffer. |
| VertexData.GetBuffer | BansheeCore/Source/CmVertexData.cpp:28-37 | A registered slot returns exactly what is stored under it, null included; an unregistered slot returns null. |
| VertexData.IsBufferBound | BansheeCore/Source/CmVertexData.cpp:39-49 | A slot is bound exactly when `getBuffer` returns a non-null buffer for it. |
| VertexData.RecalculateMaxIndex | BansheeCore/Source/CmVertexData.cpp:51-56 | The result is 0 for an empty map. Otherwise it is a registered slot, and no registered slot exceeds it. |
| VertexData.SetBuffer | BansheeCore/Source/CmVertexData.cpp:21-26 | The slot becomes registered and `getBuffer` returns the given buffer, null included. It is bound iff the buffer is non-null. Every other slot is unchanged. The cached maximum is the largest registered slot, null slots counted. |
| VertexData.NullSlotRaisesMax | BansheeCore/Source/CmVertexData.cpp:21-56 | Binding slot 3 and then setting slot 10 to null gives a maximum of 10, with slot 3 bound and slot 10 registered but unbound. |

## Left out

- Allocation: `bs_allocN` and `bs_free` are foreign calls. New memory is the parameter `alloc`, and freeing is not modelled.
- The destructor frees owned memory; that is memory management with no observable result.
- `data()` returns a raw pointer. The buffer is the model's `data` field.
- The unused `LOG2` helper (BsBitstream.h:138-148) is not modelled.
- `tell`, `size`, `capacity` and `eof` are plain field reads with no contract of their own. Their values are stated in the contracts of `BitCopy.WriteBits`, `BitCopy.ReadBits` and `Values.BoolValueBool`.
- `write<T>` and `read<T>` reinterpret a value's memory as bytes. The model takes those bytes as a sequence, with `sizeof(T)` their count.
- BitCopy.WriteBits: requires `cursor + count <= 2^31 - 1`, so the 32-bit wrap of `mCursor + count` and of the growth formula is not modelled. Writing past the capacity of external memory, an `assert(false)` in the source, is a precondition.
- Bitstream.WriteBool: requires `cursor + 1 <= 2^31 - 1`, for the same reason.
- Bitstream.ReallocIfNeeded: requires `numBits <= 2^31 - 1`, so the 32-bit wrap of `numBits + 32 + numBits / 2` is not modelled. Below that bound the source's arithmetic does not wrap.
- Corrections.WriteBitsExact and Values.WriteValue: require `cursor + count <= 2^31 - 1`, as `BitCopy.WriteBits` does.
- Bitstream.WithCapacity: requires `capacity * 8 <= 2^31 - 1`, so the wrap of `capacity * 8` is not modelled.
- Bitstream.Skip: requires the cursor, the delta and their sum to be within `int32_t`, so the signed casts of the source never wrap.
- Bitstream.Align: requires `cursor + count * 8 <= 2^31 - 1`. The unsigned wrap of `cursor - 1` and the bitwise AND are modelled exactly.
- VertexData.RecalculateMaxIndex: visits the keys in an arbitrary order rather than the ascending order of `std::map`. The maximum is the same either way.
- VertexData.New: the constructor does not assign `mMaxBufferIdx`, so its initial value is a parameter. CmVertexData.h, which might give a default, is not part of this model.
- `VertexBuffer` objects are opaque identities; the registry never inspects them. Slot indices (`UINT32`) are unbounded naturals, since no arithmetic is done on them.
- The Linux GL support and context code, the Unix window interface, and the resource and GPU-program-include wrappers are not part of this model. They are platform and engine glue, with no algorithm of their own.

## Findings

| source | as written | input that shows it | evidently intended | confidence | as-written member | corrected member |
|---|---|---|---|---|---|---|
| Source/Foundation/bsfUtility/Utility/BsBitstream.h:198-217 | `destMask = (1 << 8) - 1` is `0xFF`, so `mData[destQuant] & destMask` keeps every old bit, and the written byte is the OR of old and new bits | Writing 4 clear bits at bit 0 of `[0xFF, 0xFF]` leaves `[0xFF, 0xFF]`. The bool / `0xDEADBEEF` / bool session over `0xFF`-filled memory reads `0xFF` for the value's first byte. | The run's bits replace the old bits, as `write(bool)` does for one bit, so that write / seek / read returns the written bits | not executed; high | BitCopy.WriteBits, Corrections.StaleBitsSurvive, Corrections.FilledMemorySession | Corrections.WriteBitsExact, Corrections.WriteSeekReadExact, Corrections.BoolValueBoolExact |
| Source/Foundation/bsfUtility/Utility/BsBitstream.h:219-221 | On an unaligned cursor, `mData[destQuant + 1] & ~destMask` is 0, so the next byte is overwritten whole, including bits past the run | Writing 8 clear bits at bit 4 of `[0x00, 0xFF]` gives `[0x00, 0x00]`. Bits 12..15 lie past the run, yet they are cleared. | Bits past the run keep their values, giving `[0x00, 0xF0]` | not executed; high | BitCopy.MergedBytes, Corrections.SpillClobbersNextByte | Corrections.ExactCopy |
| Source/Foundation/bsfUtility/Utility/BsBitstream.h:328-329 | `(cursor - 1) & (bits - 1)` stands in for `(cursor - 1) % bits`, which it equals only when `bits` is a power of two | `align(3)` at cursor 16 of a 40-bit stream moves to 32. | The next multiple of `count * 8`, which is 24 | not executed; medium (the documentation says alignment in bytes without limiting `count` to powers of two) | Bitstream.Align, Corrections.AlignOvershoots | Corrections.AlignExact, Corrections.AlignAgreesOnPowersOfTwo |

The rest of the model keeps the as-written `writeBits` and `align`, since those are the code's
behaviour. The corrected definitions are proved alongside them.
