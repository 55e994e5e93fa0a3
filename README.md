# NBinaryFormatMapper `StructMapper`, modelled in Dafny

`StructMapper` is a read-only reader over a byte array. It takes the array over without
copying it and pins it in memory. Callers then read from it at byte offsets:

- a struct of type `T` (`Read<T>`, which copies the bytes through `Marshal.PtrToStructure`);
- a run of `count` structs, `recordSize` bytes apart (`ReadMultiple`, called `ReadMany` in the earlier version);
- fixed-width ASCII or UTF-16 text (`ReadASCIIString`, `ReadUnicodeString`);
- a fresh copy of a byte range (`ReadBytes`).

The repository holds two versions of the class. The current one
(`src/NBinaryFormatMapper/StructMapper.cs`) adds the `Bytes` accessor, `GetPointer` and a
static `ReadMultiple` that starts from a raw pointer. The earlier one
(`src/NBinaryFormatMapper/NBinaryFormatMapper/StructMapper.cs`) reads the run in place in `ReadMany`.

Layout of the model:

- `bytes.dfy`, module `Bytes`: bytes, .NET `int`, the exceptions a read can raise, the
  specification `Slice` of a byte copy, and `CopyOut`, which allocates the array and copies
  into it.
- `text.dfy`, module `Text`: the private `ReadString`, both as written (32-bit byte count)
  and corrected (see Findings).
- `records.dfy`, module `Records`: a struct type as a `RecordType<T>` (its size and its
  decoder); a raw address (`Address`, an index into a pinned array); `ReadRecords`, the
  specification of a run of records.
- `int16_record.dfy`, module `Int16Record`: the struct with one `short` field that the
  tests read, decoded little-endian.
- `struct_mapper.dfy`, module `Mapper`: the current class, `Mapper.StructMapper`.
- `legacy_struct_mapper.dfy`, module `LegacyMapper`: the earlier class, `LegacyMapper.StructMapper`.

The buffer is a `const bytes: array<byte>`. No method of either class has a `modifies`
clause, so no read can write to the buffer. Functions cannot write at all. `ReadBytes`
returns a `fresh` array, so writes to the copy never reach the buffer. The constructor
keeps the caller's array without copying it, and `Bytes()` hands out that same array.
Both are as in the source.

Three things about the source shape the model:

- `Read<T>`, `ReadMultiple` and `ReadMany` check no bounds before `Marshal.PtrToStructure`
  reads raw memory. The model makes in-bounds reads a precondition: `InSpan` for one
  struct, `RecordsInBounds` for a run.
- The code has no layout algorithm of its own: a struct's layout is whatever the runtime's
  marshaller does for `T`, and the model takes it as a given `RecordType<T>`.
- The caller keeps the array it passes in, and the current class's `Bytes` hands that same
  array out. Writes through either are seen by later reads.

## Model

| member | source | states |
|---|---|---|
| `Mapper.StructMapper.constructor` | src/NBinaryFormatMapper/StructMapper.cs:34-39 | the mapper keeps the caller's array itself, with no copy |
| `Mapper.StructMapper.Bytes` | src/NBinaryFormatMapper/StructMapper.cs:28 | the accessor returns the mapper's own array, not a copy, so the caller can write to it |
| `Mapper.StructMapper.Origin` | src/NBinaryFormatMapper/StructMapper.cs:23 | the origin address is the first byte of the mapper's own pinned array (set at line 38) |
| `Mapper.StructMapper.GetPointer` | src/NBinaryFormatMapper/StructMapper.cs:78 | the pointer is `offset` bytes past the origin of this mapper's own array |
| `Mapper.StructMapper.Read` | src/NBinaryFormatMapper/StructMapper.cs:75-76 | the struct at `offset` is decoded from exactly the `size` bytes that start there, as a value; those bytes must lie in the buffer |
| `Mapper.StructMapper.ReadMultiple` | src/NBinaryFormatMapper/StructMapper.cs:80-84 | the instance overload returns the run that the static overload reads from `GetPointer(offset)`: `ReadRecords` from `offset` |
| `Mapper.StructMapper.ReadMultipleAt` | src/NBinaryFormatMapper/StructMapper.cs:86-93 | the loop that advances the pointer by `recordSize` after each record yields exactly `ReadRecords(pointer, recordSize, count)` |
| `Mapper.StructMapper.ReadUnicodeString` | src/NBinaryFormatMapper/StructMapper.cs:95-96 | empty text for `numCharacters <= 0`; otherwise the decoding of exactly `2 * numCharacters` bytes from `offset`, or `ArgumentOutOfRange` when they leave the buffer; for counts between -2^30 and 2^30 this equals the source's wrapped computation `Text.ReadStringAsWritten` (outside that range see Findings) |
| `Mapper.StructMapper.ReadASCIIString` | src/NBinaryFormatMapper/StructMapper.cs:98-99 | empty text for `numCharacters <= 0`; otherwise the decoding of exactly `numCharacters` bytes from `offset`, or `ArgumentOutOfRange` when they leave the buffer; equal to the source's computation `Text.ReadStringAsWritten` for every count |
| `Mapper.StructMapper.ReadBytes` | src/NBinaryFormatMapper/StructMapper.cs:101-106 | succeeds exactly when `[offset, offset+size)` lies in the buffer; then a fresh array equal to that slice; otherwise the exception that `new byte[size]` or `Array.Copy` throws; the buffer is unchanged |
| `Mapper.Test16bits` | src/NBinaryFormatMapper.Test/StructMapperTests.cs:13-27 | reading the one-`short` struct at 0 gives 1 from the bytes 1, 0 and 256 from the bytes 0, 1 |
| `LegacyMapper.StructMapper.constructor` | src/NBinaryFormatMapper/NBinaryFormatMapper/StructMapper.cs:19-24 | the mapper keeps the caller's array itself, with no copy |
| `LegacyMapper.StructMapper.Origin` | src/NBinaryFormatMapper/NBinaryFormatMapper/StructMapper.cs:17 | the origin address is the first byte of the mapper's own pinned array (set at line 23) |
| `LegacyMapper.StructMapper.Read` | src/NBinaryFormatMapper/NBinaryFormatMapper/StructMapper.cs:31-32 | the struct at `offset` is decoded from exactly the `size` bytes that start there, as a value; those bytes must lie in the buffer |
| `LegacyMapper.StructMapper.ReadMany` | src/NBinaryFormatMapper/NBinaryFormatMapper/StructMapper.cs:34-42 | the loop that advances the pointer from `offset` by `recordSize` yields exactly `ReadRecords(offset, recordSize, count)` |
| `LegacyMapper.StructMapper.ReadUnicodeString` | src/NBinaryFormatMapper/NBinaryFormatMapper/StructMapper.cs:44-45 | empty text for `numCharacters <= 0`; otherwise the decoding of exactly `2 * numCharacters` bytes from `offset`, or `ArgumentOutOfRange` when they leave the buffer; for counts between -2^30 and 2^30 this equals the source's wrapped computation `Text.ReadStringAsWritten` (outside that range see Findings) |
| `LegacyMapper.StructMapper.ReadASCIIString` | src/NBinaryFormatMapper/NBinaryFormatMapper/StructMapper.cs:47-48 | empty text for `numCharacters <= 0`; otherwise the decoding of exactly `numCharacters` bytes from `offset`, or `ArgumentOutOfRange`; equal to the source's computation `Text.ReadStringAsWritten` for every count |
| `LegacyMapper.StructMapper.ReadBytes` | src/NBinaryFormatMapper/NBinaryFormatMapper/StructMapper.cs:50-55 | succeeds exactly when `[offset, offset+size)` lies in the buffer; then a fresh array equal to that slice; otherwise the exception thrown; the buffer is unchanged |
| `LegacyMapper.Test16bits` | src/NBinaryFormatMapper.Test/StructMapperTests.cs:13-27 | the test's two reads hold for the earlier class too: 1 from the bytes 1, 0 and 256 from the bytes 0, 1 |
| `Bytes.Slice` | src/NBinaryFormatMapper/StructMapper.cs:101-106 | a copy succeeds exactly when the range is inside the buffer; it then has `size` bytes, the i-th equal to `buf[offset+i]`; a negative size is an `Overflow` |
| `Bytes.CopyOut` | src/NBinaryFormatMapper/StructMapper.cs:103-104 | allocation and `Array.Copy` give a fresh array whose contents are `Slice`'s, or `Slice`'s error with nothing returned |
| `Text.Wrap32` | src/NBinaryFormatMapper/StructMapper.cs:115 | the unchecked `int` product is congruent to the true product modulo 2^32 and equal to it when it fits |
| `Text.ReadStringAsWritten` | src/NBinaryFormatMapper/StructMapper.cs:113-120 | a non-positive wrapped byte count gives empty text without looking at `offset`; every failure is `ArgumentOutOfRange` |
| `Text.ReadString` | src/NBinaryFormatMapper/StructMapper.cs:113-120 | the corrected definition (see Findings), with the byte count `numCharacters * characterSize` not wrapped: empty text for a non-positive byte count; otherwise it succeeds exactly when `ReadBytes(offset, numBytes)` would, and decodes that copy |
| `Text.ReadStringAgrees` | src/NBinaryFormatMapper/StructMapper.cs:115-119 | where `numCharacters * characterSize` fits in an `int`, the as-written and corrected reads are equal |
| `Text.AsciiReadAgrees` | src/NBinaryFormatMapper/StructMapper.cs:98-99 | ASCII reads, at 1 byte per character, never overflow, so the correction does not change them |
| `Text.UnicodeReadAgrees` | src/NBinaryFormatMapper/StructMapper.cs:95-96 | UTF-16 reads of fewer than 2^30 characters either way do not overflow, so the correction does not change them |
| `Text.UnicodeNegativeCountWraps` | src/NBinaryFormatMapper/StructMapper.cs:95-96 | as written, `numCharacters = -0x7FFFFFFF` decodes 2 bytes; the corrected read gives empty text |
| `Text.UnicodeLargeCountWraps` | src/NBinaryFormatMapper/StructMapper.cs:115-117 | as written, `numCharacters = 2^30` gives empty text; the corrected read fails with `ArgumentOutOfRange` |
| `Text.ReadStringReadsWholeCharacters` | src/NBinaryFormatMapper/StructMapper.cs:113-120 | for a positive character size: empty text for a non-positive count; otherwise the decoding of exactly `numCharacters * characterSize` bytes from `offset`, or a failure when they leave the buffer |
| `Records.PtrToStructure` | src/NBinaryFormatMapper/StructMapper.cs:90 | reading through an address into a pinned array decodes the array's bytes at that index |
| `Records.RunAdvance` | src/NBinaryFormatMapper/StructMapper.cs:91 | after one step of `pointer += recordSize` the remaining records are the old run shifted by one, and still in bounds |
| `Records.ReadRecords` | src/NBinaryFormatMapper/StructMapper.cs:86-93 | the iterator yields `max(count, 0)` records: none for a non-positive count, otherwise exactly `count` |
| `Records.ReadRecordsAt` | src/NBinaryFormatMapper/StructMapper.cs:86-93 | the k-th record of the run is the record decoded at the pointer after `k` advances by `recordSize` |
| `Records.RecordAtIsProduct` | src/NBinaryFormatMapper/StructMapper.cs:91 | after `k` advances by `recordSize` the pointer is `pointer + k*recordSize` |
| `Records.RecordAtSum` | src/NBinaryFormatMapper/StructMapper.cs:91 | advancing `k` records past the `m`-th record reaches the `(m+k)`-th |
| `Records.ReadRecordsSnoc` | src/NBinaryFormatMapper/StructMapper.cs:88-92 | a run of `n+1` records is the run of `n` followed by the record at the pointer after `n` advances |
| `Records.RecordsInBoundsSuffix` | src/NBinaryFormatMapper/StructMapper.cs:88-91 | if a run of `m+n` records is in bounds, so are its first `m` records and the run of `n` that starts where record `m` begins |
| `Records.ReadRecordsResume` | src/NBinaryFormatMapper/StructMapper.cs:86-93 | a run of `m+n` records is the run of `m` followed by a fresh run of `n` that starts where record `m` begins |
| `Records.ReadRecordsStep` | src/NBinaryFormatMapper/StructMapper.cs:88-92 | one loop step: reading at the pointer of record `idx` and advancing by `recordSize` extends the run of `idx` records to `idx+1` and leaves the pointer at record `idx+1` |
| `Int16Record.EncodeInt16` | src/NBinaryFormatMapper.Test/StructMapperTests.cs:8-11 | a `short` occupies two bytes in memory |
| `Int16Record.DecodeEncode` | src/NBinaryFormatMapper.Test/StructMapperTests.cs:8-11 | decoding the little-endian bytes of a `short` gives the `short` back |
| `Int16Record.EncodeDecode` | src/NBinaryFormatMapper.Test/StructMapperTests.cs:8-11 | every byte pair is the encoding of the `short` it decodes to, so decoding is one-to-one |
| `Int16Record.DecodeInt16` | src/NBinaryFormatMapper.Test/StructMapperTests.cs:8-11 | the `short Number` read from a low and a high byte is the one `short` congruent to `lo + 256*hi` modulo 2^16 |
| `Int16Record.Int16Layout` | src/NBinaryFormatMapper.Test/StructMapperTests.cs:8-11 | `typeof(_16bits)` is 2 bytes, any 2 bytes decode, and the bytes `lo, hi` decode to the struct holding `DecodeInt16(lo, hi)` |
| `Int16Record.ReadInt16LittleEndian` | src/NBinaryFormatMapper/StructMapper.cs:75-76 | the struct at `at` has the value `buf[at] + 256*buf[at+1]`, taken as two's complement, and its encoding is those two bytes |
| `Int16Record.OverlappingRecords` | src/NBinaryFormatMapper/StructMapper.cs:86-93 | with `recordSize = 1`, two-byte records overlap, and the high byte of each is the low byte of the next; nothing rejects this |

## Findings

| source | as written | input that shows it | evidently intended | confidence | as-written member | corrected member |
|---|---|---|---|---|---|---|
| src/NBinaryFormatMapper/StructMapper.cs:115 (also src/NBinaryFormatMapper/NBinaryFormatMapper/StructMapper.cs:64) | `numCharacters * characterSize` is an unchecked 32-bit product, so for UTF-16 text it wraps | `ReadUnicodeString(0, -0x7FFFFFFF)` gets a byte count of 2 and decodes 2 bytes (`Text.UnicodeNegativeCountWraps`). `ReadUnicodeString(0, 0x40000000)` gets a negative byte count and returns empty text instead of failing (`Text.UnicodeLargeCountWraps`) | empty text exactly when the count is not positive; otherwise exactly `2 * numCharacters` bytes, or a range failure (`Text.ReadStringReadsWholeCharacters`) | medium, not executed | `Text.ReadStringAsWritten` | `Text.ReadString` |

Both classes read text through the corrected `Text.ReadString`. `Text.ReadStringAgrees`
proves that the correction changes nothing when the product fits in an `int`, which covers
every ASCII read.

## Left out

- Pinning and release (`GCHandle.Alloc`, `Dispose`, the finalizer): runtime memory management. A pinned array is modelled as a Dafny array and a raw address as an index into it (`Address`).
- `FromFile`, `FromFileAsync`, `CreateFileMapper`: file I/O, plus concurrency in the async variant.
- `ToASCIIString`: one call to the ASCII decoder, which the model does not define.
- `Encoding.ASCII` and `Encoding.Unicode`: library decoders. They are passed in as `Text.Decoder` functions of exactly the bytes read.
- `Marshal.PtrToStructure` layout rules (field order, padding, `StructLayout`): reflection the model cannot see. A struct type is a given `RecordType<T>`, its size plus a decoder. Only the one-`short` struct from the tests is concrete (`Int16Record.Int16Layout`).
- `Mapper.StructMapper.Read`: reading out of bounds is undefined in the source, because it reads raw memory unchecked. The model makes the bounds a precondition instead of modelling that memory.
- `Mapper.StructMapper.ReadMultiple`: the same precondition covers every record of the run. The model therefore leaves out what the source does when it reads some records before it reaches an out-of-bounds one.
- `Mapper.StructMapper.ReadMultipleAt`: the source yields records lazily, and the model returns them all as one finite sequence. `Records.ReadRecordsResume` states that the run can be resumed: a run of `m + n` records is its first `m` followed by a run started at record `m`. Enumerating the same lazy sequence twice is not modelled.
- `LegacyMapper.StructMapper.Read`: same bounds precondition as `Mapper.StructMapper.Read`, for the same reason.
- `LegacyMapper.StructMapper.ReadMany`: same bounds precondition and same finite sequence in place of lazy results.
- Overflow of the pointer arithmetic (`IntPtr` plus `int`, 64-bit): not modelled; addresses are unbounded integers.
- A `null` byte array: Dafny arrays are non-null, so the exceptions a `null` buffer would cause are not modelled.
- `Mapper.StructMapper.ReadUnicodeString`: computes the byte count `2 * numCharacters` without wrapping, following the corrected `Text.ReadString`. For `|numCharacters| >= 2^30` the source's 32-bit count wraps, and that behaviour is modelled separately as `Text.ReadStringAsWritten` (see Findings).
- `LegacyMapper.StructMapper.ReadUnicodeString`: the same unwrapped byte count as the current class; the earlier file's wrapped count is `Text.ReadStringAsWritten`.
