/** The earlier `StructMapper`: the same reads over a pinned byte array, with the run
    of records read in place by `ReadMany`, and without the array accessor or pointers. */
module LegacyMapper {
  import opened Bytes
  import opened Records
  import Text
  import opened Int16Record

  class StructMapper {
    /** The buffer, taken over without a copy and never written by the mapper. */
    const bytes: array<byte>

    /** Pins `bytes` and remembers where it starts; the array itself is shared with the
        caller, not copied. */
    constructor (bytes: array<byte>)
      ensures this.bytes == bytes
    {
      this.bytes := bytes;
    }

    /** The address of the pinned array's first byte. */
    function Origin(): (a: Address)
      ensures a.block == bytes && a.index == 0
    {
      Address(bytes, 0)
    }

    /** The struct at `offset`, decoded from exactly the `rt.size` bytes there into a
        value independent of the array. There is no bounds check: the range must lie in
        the buffer. */
    function Read<T>(rt: RecordType<T>, offset: int32): (r: T)
      reads bytes
      requires WellFormed(rt) && InSpan(bytes.Length, offset, rt.size)
      ensures r == rt.decode(bytes[offset..offset + rt.size])
    {
      PtrToStructure(Origin().Advance(offset), rt)
    }

    /** `count` records from `offset` on, `recordSize` bytes apart: the pointer starts at
        `offset` bytes past the origin and advances by `recordSize` after each record,
        which is never compared with the record's size. */
    method ReadMany<T>(rt: RecordType<T>, offset: int32, recordSize: int32, count: int32) returns (records: seq<T>)
      requires WellFormed(rt) && RecordsInBounds(bytes.Length, offset, recordSize, count, rt.size)
      ensures records == ReadRecords(bytes[..], rt, offset, recordSize, count)
    {
      var p := Origin().Advance(offset);
      var idx: nat := 0;
      records := [];
      ghost var buf := bytes[..];
      while idx < count
        invariant idx <= count || idx == 0
        invariant p == Address(bytes, RecordAt(offset, recordSize, idx))
        invariant RecordsInBounds(|buf|, offset, recordSize, idx, rt.size)
        invariant records == ReadRecords(buf, rt, offset, recordSize, idx)
      {
        ReadRecordsStep(buf, rt, offset, recordSize, count, idx);
        records := records + [PtrToStructure(p, rt)];
        p := p.Advance(recordSize);
        idx := idx + 1;
      }
    }

    /** `numCharacters` UTF-16 characters from `offset`: exactly `2 * numCharacters`
        bytes, decoded by `utf16`; empty text for a non-positive count. The byte count is
        not wrapped to 32 bits; below 2^30 characters either way this is the source's read,
        `Text.ReadStringAsWritten`. */
    function ReadUnicodeString(offset: int32, numCharacters: int32, utf16: Text.Decoder): (r: Result<string>)
      reads bytes
      ensures numCharacters <= 0 ==> r == Ok("")
      ensures numCharacters > 0 ==>
                r == if InSpan(bytes.Length, offset, 2 * numCharacters)
                     then Ok(utf16(bytes[offset..offset + 2 * numCharacters]))
                     else Err(ArgumentOutOfRange)
      ensures -0x4000_0000 <= numCharacters < 0x4000_0000 ==>
                r == Text.ReadStringAsWritten(bytes[..], offset, numCharacters, Text.UnicodeCharSize, utf16)
    {
      Text.UnicodeReadAgrees(bytes[..], offset, numCharacters, utf16);
      Text.ReadStringReadsWholeCharacters(bytes[..], offset, numCharacters, Text.UnicodeCharSize, utf16);
      Text.ReadString(bytes[..], offset, numCharacters, Text.UnicodeCharSize, utf16)
    }

    /** `numCharacters` ASCII characters from `offset`: exactly `numCharacters` bytes,
        decoded by `ascii`; empty text for a non-positive count. At one byte per
        character nothing wraps, so this is the source's read for every count. */
    function ReadASCIIString(offset: int32, numCharacters: int32, ascii: Text.Decoder): (r: Result<string>)
      reads bytes
      ensures numCharacters <= 0 ==> r == Ok("")
      ensures numCharacters > 0 ==>
                r == if InSpan(bytes.Length, offset, numCharacters)
                     then Ok(ascii(bytes[offset..offset + numCharacters]))
                     else Err(ArgumentOutOfRange)
      ensures r == Text.ReadStringAsWritten(bytes[..], offset, numCharacters, Text.AsciiCharSize, ascii)
    {
      Text.AsciiReadAgrees(bytes[..], offset, numCharacters, ascii);
      Text.ReadStringReadsWholeCharacters(bytes[..], offset, numCharacters, Text.AsciiCharSize, ascii);
      Text.ReadString(bytes[..], offset, numCharacters, Text.AsciiCharSize, ascii)
    }

    /** A fresh copy of the `size` bytes at `offset`; the buffer is left as it was, and a
        request that does not fit fails with nothing copied. */
    method ReadBytes(offset: int32, size: int32) returns (r: Result<array<byte>>)
      ensures r.Ok? ==> fresh(r.value)
      ensures r.Ok? <==> InSpan(bytes.Length, offset, size)
      ensures r.Ok? ==> r.value[..] == bytes[offset..offset + size]
      ensures r.Err? ==> r.error == Slice(bytes[..], offset, size).error
      ensures bytes[..] == old(bytes[..])
    {
      r := CopyOut(bytes, offset, size);
    }
  }

  /** The earlier class reads the one-`short` struct little-endian too: the bytes 1, 0
      give 1 and the bytes 0, 1 give 256. */
  lemma Test16bits(mapper1: StructMapper, mapper2: StructMapper)
    requires mapper1.bytes[..] == [1, 0] && mapper2.bytes[..] == [0, 1]
    ensures WellFormed(Int16Layout())
    ensures mapper1.Read(Int16Layout(), 0).number == 1
    ensures mapper2.Read(Int16Layout(), 0).number == 256
  {
    ReadInt16LittleEndian(mapper1.bytes[..], 0);
    ReadInt16LittleEndian(mapper2.bytes[..], 0);
  }
}
