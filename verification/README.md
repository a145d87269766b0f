# Fixed-capacity serialization buffer, modelled in Dafny

This project models the byte buffer of `src/buffer.c` and `include/buffer.h`.
It is a building block for binary protocol codecs. It has two cursor types.

- `Buffer` is the write cursor. It holds a byte region, a logical `size` and a `written` offset.
  - It appends big-endian integers of 1, 2, 4 and 8 bytes, signed and unsigned.
  - It appends raw byte ranges (`Write`, a memcpy) and C strings in a fixed window (`WriteStr`, a strncpy).
  - It appends formatted text (`Format`).
  - It can forget its contents (`Clear`) or drop a consumed prefix in place (`MoveBy`, a memmove).
- `ConstBuffer` is the read cursor. It is a borrowed, read-only view of `size` bytes with a `read` offset.
  - It decodes the same integers.
  - It copies raw ranges out (`Read`).

Every fixed-width and bulk write first checks `written + width > size`. When that holds, the write silently does nothing. `Format` has no such check: it stores what fits and always advances `written` by the full text length.
Every fixed-width read first checks `read + width > size`. When that holds, it returns 0 and does not advance.
`Read` is the only operation that reports this condition, as `false`.

Layout:

- `BigEndian.dfy` (module `BigEndian`) is the codec. The codec header itself is not part of this model, so it is specified from scratch:
  - `Encode`/`Decode` work most-significant byte first;
  - `ToUnsigned`/`FromUnsigned` give the two's-complement reinterpretation;
  - round-trip lemmas hold in both directions;
  - the byte strings fixed by the unit tests are proved as lemmas.
- `Region.dfy` (module `Region`) states what the C library primitives do to a byte sequence. Each is stated by its effect on every index:
  - `Overwrite` for memcpy;
  - `Compact` for the memmove of `MoveBy`;
  - `Strnlen`/`StrncpyWindow` for strncpy (section 7.24.2.4 of ISO/IEC 9899:2011);
  - `BoundedFormat` for the window that vsnprintf fills (section 7.21.6.12 of ISO/IEC 9899:2011).
- `Buffers.dfy` (module `Buffers`) holds the two cursors as classes over an `array<Byte>`.
  - Each operation is a method.
  - Its `modifies` clause names only the fields the C function assigns.
  - Its `ensures` ties the new array contents and cursor to a `Region` function or a one-index update of the old ones.
  - In `Buffer`, `size` is separate from `data.Length`, as the unit tests require.
  - In `ConstBuffer`, `data` and `size` are `const`, and the reads modify only `read`. So no read changes the bytes or the size.
- `Scenarios.dfy` (module `Scenarios`) holds the clients of the two cursors:
  - the write-then-read round trip for every width, through the real methods over one shared region, from any buffer state with room for the value;
  - a run of bulk writes that fit the capacity;
  - the runs of `test/test_buffer.c`, replayed as methods whose assertions the verifier checks (`TestWriteU64`, `TestWriteU8`, `TestWriteS32`, `TestWriteStr`, `TestWrite`, `TestClear`, `TestMoveBy`, `TestMoveByPastSize` (the format test's end state moved by 3), `TestReadU32`, `TestReadS16`, `TestRead`, `TestFormat`, `TestFormatTruncated`), plus `TestFormatOverrun`, the state the format test ends in, and `TestReadPastSize`, a read cursor set up past its size.

Two behaviours of the code worth noting:

- `FreeData` sets `size` to 0 and leaves `written` as it was.
- `WriteStr` always zero-pads the rest of its n-byte window, because strncpy does.

## Model

| member | source | states |
|---|---|---|
| BigEndian.Encode | src/buffer.c:43 | the encoding of a value below 256^n is exactly n bytes long |
| BigEndian.Decode | src/buffer.c:165 | the value decoded from s bytes is below 256^s, so it fits the reader's return type |
| BigEndian.DecodeEncode | src/buffer.c:158-168 | decoding the n-byte big-endian encoding of any value below 256^n gives that value back |
| BigEndian.EncodeDecode | src/buffer.c:37-45 | encoding the decoded value of any byte string at its own width gives the same bytes back |
| BigEndian.EncodeInjective | src/buffer.c:53 | two values with the same n-byte encoding are equal |
| BigEndian.EncodeLeadingByte | test/test_buffer.c:45-52 | the first stored byte is the value divided by 256^(n-1), so the most significant byte comes first |
| BigEndian.ToUnsigned | src/buffer.c:83 | a signed value's stored pattern is below 256^n, equals the value or the value plus 256^n, and lies in the upper half exactly when the value is negative |
| BigEndian.FromUnsigned | src/buffer.c:213 | a stored n-byte pattern reads as a signed value in range that differs from it by 0 or 256^n, and is negative exactly when the pattern is in the upper half |
| BigEndian.SignedRoundTrip | src/buffer.c:249 | reinterpreting a signed value as unsigned and back gives the value |
| BigEndian.UnsignedRoundTrip | src/buffer.c:113 | reinterpreting an n-byte pattern as signed and back gives the pattern |
| BigEndian.DecodeSignedEncodeSigned | src/buffer.c:87-95 | decoding as signed the bytes a signed value is written as gives the value back |
| BigEndian.EncodeSignedDecodeSigned | src/buffer.c:218-228 | any n stored bytes, read as a signed value and written back as signed, are the same bytes |
| BigEndian.SignBit | test/test_buffer.c:467 | a signed value is negative exactly when the top bit of its first stored byte is set |
| BigEndian.Vector64 | test/test_buffer.c:43-52 | 0x1122334455667788 is stored as 11 22 33 44 55 66 77 88 |
| BigEndian.DecodeVector64 | test/test_buffer.c:359 | the bytes of "abcdefgh" decode to 0x6162636465666768 |
| BigEndian.SignedVector64 | test/test_buffer.c:147-156 | -0x1122334455667788 is stored as ee dd cc bb aa 99 88 78 |
| BigEndian.SignedDecodeVector64 | test/test_buffer.c:425-432 | ff 62 63 64 65 66 67 68 reads as the signed value -44363763471194264 |
| BigEndian.Vector32 | test/test_buffer.c:175-180 | -0x11223344 is stored as ee dd cc bc |
| BigEndian.SignedDecodeVector32 | test/test_buffer.c:449 | ff 62 63 64 reads as the signed value -10329244 |
| BigEndian.DecodeVector32 | test/test_buffer.c:377-380 | "abcd" and "efgh" decode to 0x61626364 and 0x65666768 |
| BigEndian.Vector16 | test/test_buffer.c:200-203 | -0x1122 is stored as ee de |
| BigEndian.SignedDecodeVector16 | test/test_buffer.c:467 | ff 62 reads as the signed value -158 |
| BigEndian.Vector8 | test/test_buffer.c:225-227 | -0x11 is stored as ef |
| BigEndian.SignedDecodeVector8 | test/test_buffer.c:485 | ff reads as the signed value -1 |
| Region.Overwrite | src/buffer.c:131 | a memcpy of src at offset `at` puts src[i - at] at each index i of the window and keeps every byte outside it |
| Region.OverwriteExtends | src/buffer.c:131-132 | a store right behind the written prefix extends that prefix by exactly the stored bytes |
| Region.Compact | src/buffer.c:146 | after the move, index i below end - off holds the old byte at i + off, and every index from end - off on keeps its old byte |
| Region.CompactLive | include/buffer.h:143-152 | the live bytes after compaction are the old live bytes without their first `off` bytes |
| Region.CompactByZero | src/buffer.c:140-148 | moving by 0 leaves the region unchanged |
| Region.Strnlen | src/buffer.c:122 | the string length k is at most n and the source length, no byte before k is NUL, and when k < n the byte at k is the terminator |
| Region.StrncpyWindow | src/buffer.c:122 | the strncpy window has length n, copies the string up to its terminator, and is zero from there to n |
| Region.StrncpyWithoutNul | src/buffer.c:117-124 | with no NUL in the first n source bytes, the window is exactly those n bytes |
| Region.StrncpyShort | test/test_buffer.c:254-259 | a string of length k < n gives the k characters followed by n - k zero bytes |
| Region.StrncpyVector | test/test_buffer.c:254-258 | "ab" into a 4-byte window gives 'a' 'b' 0 0 |
| Region.BoundedFormat | src/buffer.c:270 | the formatter stores nothing for a zero bound; otherwise it stores min(length, bound - 1) characters of the text and then a NUL, never more than the bound |
| Region.BoundedFormatWhole | src/buffer.c:270-273 | the formatted text is stored whole exactly when it is shorter than the bound |
| Buffers.Buffer.AllocData | src/buffer.c:13-20 | a new buffer owns a fresh region of `size` bytes, and nothing is written |
| Buffers.Buffer.Over | include/buffer.h:12-19 | a buffer set up over an existing region uses that region with the given size and offset |
| Buffers.Buffer.FreeData | src/buffer.c:22-27 | releasing sets the size to 0 and leaves `written` unchanged |
| Buffers.Buffer.WriteAvailable | src/buffer.c:29-35 | while written <= size, a write of n bytes succeeds exactly when n is at most the result; past the size the result is 0 and no write succeeds |
| Buffers.Buffer.Write | src/buffer.c:126-133 | if n bytes fit, they are copied verbatim at `written`, the written contents grow by exactly them, and nothing else changes; otherwise the call is a no-op; the region and size are kept |
| Buffers.Buffer.WriteStr | src/buffer.c:117-124 | if n bytes fit, the strncpy window is stored at `written` and `written` advances by n, with bytes past the window untouched; otherwise the call is a no-op |
| Buffers.Buffer.WriteU8 | src/buffer.c:67-75 | if one byte fits, it is stored at `written` and `written` advances by 1; otherwise the call is a no-op |
| Buffers.Buffer.WriteU16 | src/buffer.c:57-65 | if 2 bytes fit, the big-endian encoding is stored at `written`, `written` advances by 2 and nothing else changes; otherwise the call is a no-op |
| Buffers.Buffer.WriteU32 | src/buffer.c:47-55 | the same for 4 bytes |
| Buffers.Buffer.WriteU64 | src/buffer.c:37-45 | the same for 8 bytes |
| Buffers.Buffer.WriteS8 | src/buffer.c:107-115 | if one byte fits, the value's two's-complement pattern is stored at `written` and `written` advances by 1; otherwise the call is a no-op |
| Buffers.Buffer.WriteS16 | src/buffer.c:97-105 | if 2 bytes fit, the encoding of the two's-complement pattern is stored at `written` and `written` advances by 2; otherwise the call is a no-op |
| Buffers.Buffer.WriteS32 | src/buffer.c:87-95 | the same for 4 bytes |
| Buffers.Buffer.WriteS64 | src/buffer.c:77-85 | the same for 8 bytes |
| Buffers.Buffer.Clear | src/buffer.c:135-138 | `written` becomes 0; the region, its size and every stored byte are unchanged |
| Buffers.Buffer.MoveBy | src/buffer.c:140-148 | the offset is clamped to `written`; the region becomes the compaction of the old one, `written` drops by the clamped offset, the written bytes lose exactly their first offset bytes, and the region and size are kept; this holds also when `written` has passed `size`, as long as it is inside the region |
| Buffers.Buffer.Format | src/buffer.c:264-276 | returns the full text length and advances `written` by it, even past `size`; stores the bounded window at `written` while written <= size and nothing otherwise; never touches a byte at or past `size` |
| Buffers.FormatRoomAsWritten | src/buffer.c:270 | the bound computed in size_t is size - written while written <= size, and larger than the whole size once written has passed it |
| Buffers.FormatRoomOverrun | test/test_buffer.c:530-534 | with written 12 and size 10, as the unit test leaves them, the next bound is 2^64 - 2 |
| Buffers.ConstBuffer.constructor | include/buffer.h:22-30 | a read cursor is a view of the first `size` bytes of the region, with its cursor at the given `read` offset, which may lie past `size` |
| Buffers.ConstBuffer.ReadAvailable | src/buffer.c:150-156 | while read <= size, a read of n bytes succeeds exactly when n is at most the result; past the size the result is 0 and no read succeeds |
| Buffers.ConstBuffer.ReadU8 | src/buffer.c:194-204 | if a byte remains, returns it and advances `read` by 1; otherwise returns 0 and leaves `read` unchanged; only `read` can change |
| Buffers.ConstBuffer.ReadU16 | src/buffer.c:182-192 | if 2 bytes remain, returns their big-endian value and advances by 2; otherwise returns 0 and does not advance |
| Buffers.ConstBuffer.ReadU32 | src/buffer.c:170-180 | the same for 4 bytes |
| Buffers.ConstBuffer.ReadU64 | src/buffer.c:158-168 | the same for 8 bytes |
| Buffers.ConstBuffer.ReadS8 | src/buffer.c:242-252 | if a byte remains, returns its signed reinterpretation and advances by 1; otherwise returns 0 and does not advance |
| Buffers.ConstBuffer.ReadS16 | src/buffer.c:230-240 | if 2 bytes remain, returns the signed reinterpretation of their big-endian value and advances by 2; otherwise returns 0 and does not advance |
| Buffers.ConstBuffer.ReadS32 | src/buffer.c:218-228 | the same for 4 bytes |
| Buffers.ConstBuffer.ReadS64 | src/buffer.c:206-216 | the same for 8 bytes |
| Buffers.ConstBuffer.Read | src/buffer.c:254-262 | returns true exactly when n bytes remain; then exactly those n bytes are copied into dest, the rest of dest is kept and `read` advances by n; otherwise nothing is copied and `read` is unchanged |
| Scenarios.WriteReadU8 | src/buffer.c:194-204 | a byte written by WriteU8 and read back by ReadU8 over the same region is returned unchanged, for any prior region contents, any size and any write offset that leaves room, with the reader positioned at that offset |
| Scenarios.WriteReadU16 | src/buffer.c:182-192 | a 16-bit value written by WriteU16 and read back by ReadU16 is returned unchanged, for any prior region contents, any size and any write offset that leaves room, with the reader positioned at that offset |
| Scenarios.WriteReadU32 | src/buffer.c:170-180 | a 32-bit value written by WriteU32 and read back by ReadU32 is returned unchanged, for any prior region contents, any size and any write offset that leaves room, with the reader positioned at that offset |
| Scenarios.WriteReadU64 | src/buffer.c:158-168 | a 64-bit value written by WriteU64 and read back by ReadU64 is returned unchanged, for any prior region contents, any size and any write offset that leaves room, with the reader positioned at that offset |
| Scenarios.WriteReadS8 | src/buffer.c:242-252 | a signed byte written by WriteS8 and read back by ReadS8 is returned unchanged, for any prior region contents, any size and any write offset that leaves room, with the reader positioned at that offset |
| Scenarios.WriteReadS16 | src/buffer.c:230-240 | a signed 16-bit value written by WriteS16 and read back by ReadS16 is returned unchanged, for any prior region contents, any size and any write offset that leaves room, with the reader positioned at that offset |
| Scenarios.WriteReadS32 | src/buffer.c:218-228 | a signed 32-bit value written by WriteS32 and read back by ReadS32 is returned unchanged, for any prior region contents, any size and any write offset that leaves room, with the reader positioned at that offset |
| Scenarios.WriteReadS64 | src/buffer.c:206-216 | a signed 64-bit value written by WriteS64 and read back by ReadS64 is returned unchanged, for any prior region contents, any size and any write offset that leaves room, with the reader positioned at that offset |
| Scenarios.ConcatPrefixShorter | src/buffer.c:128 | the first i chunks of a run of writes never need more room than the whole run |
| Scenarios.AppendAll | src/buffer.c:126-133 | bulk writes whose total fits the capacity all succeed; the buffer then holds their concatenation, and the available space is the capacity less its length |

## Findings

| source | as written | input that shows it | evidently intended | confidence | as-written member | corrected member |
|---|---|---|---|---|---|---|
| src/buffer.c:270 | the formatter's bound is `size - written` in size_t, and line 273 lets `written` pass `size` after a truncated format | size 10, written 12 (the state of test/test_buffer.c:530-534); the next `Format` gets the bound 2^64 - 2; a C library that accepts that bound may write past the region, and one that refuses a bound above INT_MAX returns -1 instead, which line 273 adds to `written` as SIZE_MAX | the bound is the clamped room, `WriteAvailable()`, which is 0 in that state, so nothing is stored | medium, not executed | Buffers.FormatRoomAsWritten | Buffers.Buffer.Format |

The rest of the model uses the corrected `Format`. Its last postcondition proves that it never stores a byte at or past `size`.
The growth of `written` past `size` is kept exactly as the code does it:

- `WriteAvailable` reports 0 in that state;
- every later fixed-width or bulk write is a no-op in that state;
- a later `Format` stores nothing and still advances `written`.

## Left out

- Buffers.Buffer.Format: the formatting itself is not modelled. The format string and variadic arguments become one parameter, the complete text that the formatter would produce. The bound uses the clamped room rather than the wrapped size_t difference (see Findings). Failed formatting is not modelled either: when vsnprintf returns a negative value (an encoding error, or a bound some C libraries refuse), the code stores it in a size_t: a negative return -k gives 2^64 - k and moves `written` back by k (SIZE_MAX and one for the usual -1). The model always returns the text length and advances `written` by it.
- Buffers.Buffer.AllocData: malloc's NULL result is not checked in the code. Allocation failure is not modelled, and neither are uninitialised contents: the model only relies on bytes it has written.
- Buffers.Buffer.FreeData: only the size reset is modelled. The free call, the NULL data pointer and the undefined double release have no counterpart for a Dafny array.
- Buffers.Buffer.MoveBy: requires `written` to lie inside the region (`written <= data.Length`). `written` may lie past `size`, after a truncated `Format` or from a struct initialiser; the move is modelled there too. After `FreeData` the code's region is freed, so its move is undefined; the model keeps the old array and still moves its bytes. Once `written` exceeds the allocation, the code's memmove reads beyond it, which the model does not express.
- Size arithmetic is unbounded (`nat`). The guards `written + n > size` (src/buffer.c:119, 128 and the fixed-width writers) and `read + destinationSize > size` (src/buffer.c:256) can wrap in size_t when n or the cursor is near SIZE_MAX, letting the copy through; nat arithmetic cannot wrap, so the model assumes they do not.
- The `data`/`sdata` union is one byte array. Characters are their byte values.
- Buffers.Buffer.Write and Buffers.Buffer.WriteStr take their source as a byte sequence.
  - The code reads raw pointers, so the preconditions say what the pointer must offer: n bytes, or, for strncpy, a terminator before the end of the sequence.
  - A source that overlaps the destination region is not modelled.
- Buffers.ConstBuffer.Read requires the destination to be a different array from the viewed region. A destination inside the viewed array, such as a Buffer's own storage, is not modelled.
- Buffers.ConstBuffer.ReadS8: the conversion to a signed byte is taken as two's complement. C leaves the conversion of an out-of-range value to a signed type implementation-defined (section 6.3.1.3 of ISO/IEC 9899:2011).
- Concurrency is out of scope. The code has no locking, and the model is sequential.
- The unit-test harness is not modelled as such. Its concrete runs are replayed in `Scenarios`.
