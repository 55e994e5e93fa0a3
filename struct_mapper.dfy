/** The current `StructMapper`: read-only, offset-addressed access to a pinned byte
    array, decoding structs, runs of structs, fixed-width text and raw byte copies. */
module Mapper {
  import opened Bytes
  import opened Records
  import Text
  import opened Int16Record

  class StructMapper {
    /** The buffer, taken over without a copy and never written by the mapper. */
    const bytes: array<byte>

    /** Pins `bytes` and remembers where it starts; the array itself is shared with the
        caller, not copied. */
    constructor (bytes: array<byte>)
      ensures this.bytes == bytes
    {
      this.bytes := bytes;
    }

    /** The address of the pinned array's first byte. */
    function Origin(): (a: Address)
      ensures a.block == bytes && a.index == 0
    {
      Address(bytes, 0)
    }

    /** The underlying array itself: a caller writing to it changes what every later
        read of the mapper sees. */
    function Bytes(): (b: array<byte>)
      ensures b == bytes
    {
      bytes
    }

    /** The address `offset` bytes past the origin, inside this mapper's array. */
    function GetPointer(offset: int32): (p: Address)
      ensures p.block == bytes && p.index == offset
    {
      Origin().Advance(offset)
    }

    /** The struct at `offset`, decoded from exactly the `rt.size` bytes there into a
        value independent of the array. There is no bounds check: the range must lie in
        the buffer. */
    function Read<T>(rt: RecordType<T>, offset: int32): (r: T)
      reads bytes
      requires WellFormed(rt) && InSpan(bytes.Length, offset, rt.size)
      ensures r == rt.decode(bytes[offset..offset + rt.size])
    {
      PtrToStructure(Origin().Advance(offset), rt)
    }

    /** The records at `offset`, `offset + recordSize`, ...: the run at the address
        `GetPointer(offset)`. */
    method ReadMultiple<T>(rt: RecordType<T>, offset: int32, recordSize: int32, count: int32) returns (records: seq<T>)
      requires WellFormed(rt) && RecordsInBounds(bytes.Length, offset, recordSize, count, rt.size)
      ensures records == ReadRecords(bytes[..], rt, offset, recordSize, count)
    {
      var pointer := GetPointer(offset);
      records := ReadMultipleAt(rt, pointer, recordSize, count);
    }

    /** Reads `count` records starting at `pointer`, advancing the pointer by
        `recordSize` after each; `recordSize` is not compared with the record's size. */
    static method ReadMultipleAt<T>(rt: RecordType<T>, pointer: Address, recordSize: int32, count: int32)
      returns (records: seq<T>)
      requires WellFormed(rt) && RecordsInBounds(pointer.block.Length, pointer.index, recordSize, count, rt.size)
      ensures records == ReadRecords(pointer.block[..], rt, pointer.index, recordSize, count)
    {
      var p := pointer;
      var idx: nat := 0;
      records := [];
      ghost var buf := pointer.block[..];
      while idx < count
        invariant idx <= count || idx == 0
        invariant p == Address(pointer.block, RecordAt(pointer.index, recordSize, idx))
        invariant RecordsInBounds(|buf|, pointer.index, recordSize, idx, rt.size)
        invariant records == ReadRecords(buf, rt, pointer.index, recordSize, idx)
      {
        ReadRecordsStep(buf, rt, pointer.index, recordSize, count, idx);
        records := records + [PtrToStructure(p, rt)];
        p := p.Advance(recordSize);
        idx := idx + 1;
      }
    }

    /** `numCharacters` UTF-16 characters from `offset`: exactly `2 * numCharacters`
        bytes, decoded by `utf16`; empty text for a non-positive count. The byte count is
        not wrapped to 32 bits; below 2^30 characters either way this is the source's read,
        `Text.ReadStringAsWritten`. */
    function ReadUnicodeString(offset: int32, numCharacters: int32, utf16: Text.Decoder): (r: Result<string>)
      reads bytes
      ensures numCharacters <= 0 ==> r == Ok("")
      ensures numCharacters > 0 ==>
                r == if InSpan(bytes.Length, offset, 2 * numCharacters)
                     then Ok(utf16(bytes[offset..offset + 2 * numCharacters]))
                     else Err(ArgumentOutOfRange)
      ensures -0x4000_0000 <= numCharacters < 0x4000_0000 ==>
                r == Text.ReadStringAsWritten(bytes[..], offset, numCharacters, Text.UnicodeCharSize, utf16)
    {
      Text.UnicodeReadAgrees(bytes[..], offset, numCharacters, utf16);
      Text.ReadStringReadsWholeCharacters(bytes[..], offset, numCharacters, Text.UnicodeCharSize, utf16);
      Text.ReadString(bytes[..], offset, numCharacters, Text.UnicodeCharSize, utf16)
    }

    /** `numCharacters` ASCII characters from `offset`: exactly `numCharacters` bytes,
        decoded by `ascii`; empty text for a non-positive count. At one byte per
        character nothing wraps, so this is the source's read for every count. */
    function ReadASCIIString(offset: int32, numCharacters: int32, ascii: Text.Decoder): (r: Result<string>)
      reads bytes
      ensures numCharacters <= 0 ==> r == Ok("")
      ensures numCharacters > 0 ==>
                r == if InSpan(bytes.Length, offset, numCharacters)
                     then Ok(ascii(bytes[offset..offset + numCharacters]))
                     else Err(ArgumentOutOfRange)
      ensures r == Text.ReadStringAsWritten(bytes[..], offset, numCharacters, Text.AsciiCharSize, ascii)
    {
      Text.AsciiReadAgrees(bytes[..], offset, numCharacters, ascii);
      Text.ReadStringReadsWholeCharacters(bytes[..], offset, numCharacters, Text.AsciiCharSize, ascii);
      Text.ReadString(bytes[..], offset, numCharacters, Text.AsciiCharSize, ascii)
    }

    /** A fresh copy of the `size` bytes at `offset`; the buffer is left as it was, and a
        request that does not fit fails with nothing copied. */
    method ReadBytes(offset: int32, size: int32) returns (r: Result<array<byte>>)
      ensures r.Ok? ==> fresh(r.value)
      ensures r.Ok? <==> InSpan(bytes.Length, offset, size)
      ensures r.Ok? ==> r.value[..] == bytes[offset..offset + size]
      ensures r.Err? ==> r.error == Slice(bytes[..], offset, size).error
      ensures bytes[..] == old(bytes[..])
    {
      r := CopyOut(bytes, offset, size);
    }
  }

  /** Reading the one-`short` struct is little-endian: the bytes 1, 0 give 1 and the
      bytes 0, 1 give 256. */
  lemma Test16bits(mapper1: StructMapper, mapper2: StructMapper)
    requires mapper1.bytes[..] == [1, 0] && mapper2.bytes[..] == [0, 1]
    ensures WellFormed(Int16Layout())
    ensures mapper1.Read(Int16Layout(), 0).number == 1
    ensures mapper2.Read(Int16Layout(), 0).number == 256
  {
    ReadInt16LittleEndian(mapper1.bytes[..], 0);
    ReadInt16LittleEndian(mapper2.bytes[..], 0);
  }
}
