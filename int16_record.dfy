/** The one struct the mapper is exercised with: a record holding a single `short`,
    which the runtime lays out as two bytes in little-endian order. */
module Int16Record {
  import opened Bytes
  import opened Records

  /** A .NET `short` (System.Int16). */
  newtype int16 = x: int | -0x8000 <= x < 0x8000

  /** A struct with one `short` field, `Number`. */
  datatype Record16 = Record16(number: int16)

  /** The `short` whose two's-complement bytes are `lo` at the lower address and `hi`
      at the next. */
  function DecodeInt16(lo: byte, hi: byte): (x: int16)
    ensures (x as int - (lo as int + 0x100 * hi as int)) % 0x1_0000 == 0
  {
    var u := lo as int + 0x100 * hi as int;
    (if u < 0x8000 then u else u - 0x1_0000) as int16
  }

  /** The two bytes of a `short` in memory, low byte first. */
  function EncodeInt16(x: int16): (bs: seq<byte>)
    ensures |bs| == 2
  {
    var u := if x < 0 then x as int + 0x1_0000 else x as int;
    [(u % 0x100) as byte, (u / 0x100) as byte]
  }

  /** Decoding the little-endian bytes of a `short` gives the `short` back. */
  lemma DecodeEncode(x: int16)
    ensures DecodeInt16(EncodeInt16(x)[0], EncodeInt16(x)[1]) == x
  {
    var u := if x < 0 then x as int + 0x1_0000 else x as int;
    assert u == u % 0x100 + 0x100 * (u / 0x100);
  }

  /** Every pair of bytes is the encoding of exactly the `short` it decodes to: decoding
      loses nothing and no two byte pairs give the same value. */
  lemma EncodeDecode(lo: byte, hi: byte)
    ensures EncodeInt16(DecodeInt16(lo, hi)) == [lo, hi]
  {
    var u := lo as int + 0x100 * hi as int;
    var x := DecodeInt16(lo, hi);
    assert (if x < 0 then x as int + 0x1_0000 else x as int) == u;
    assert u % 0x100 == lo as int && u / 0x100 == hi as int;
  }

  /** `typeof(_16bits)` as the marshaller lays it out: two bytes, and any two bytes decode,
      little-endian, to the struct holding that `short`. */
  function Int16Layout(): (rt: RecordType<Record16>)
    ensures rt.size == 2 && WellFormed(rt)
    ensures forall lo: byte, hi: byte :: rt.decode([lo, hi]) == Record16(DecodeInt16(lo, hi))
  {
    RecordType(2, (bs: seq<byte>) requires |bs| == 2 => Record16(DecodeInt16(bs[0], bs[1])))
  }

  /** Reading the record is little-endian: the byte at `at` is the low byte. A record
      encoded from `x` reads back as `x`. */
  lemma ReadInt16LittleEndian(buf: seq<byte>, at: int)
    requires InSpan(|buf|, at, 2)
    ensures WellFormed(Int16Layout())
    ensures ReadRecord(buf, Int16Layout(), at).number as int
         == buf[at] as int + 0x100 * buf[at + 1] as int - (if buf[at + 1] >= 0x80 then 0x1_0000 else 0)
    ensures buf[at..at + 2] == EncodeInt16(ReadRecord(buf, Int16Layout(), at).number)
  {
    EncodeDecode(buf[at], buf[at + 1]);
    assert buf[at..at + 2] == [buf[at], buf[at + 1]];
  }

  /** With a stride of one byte, nothing stops two-byte records from overlapping: the
      high byte of each record in the run is the low byte of the next. */
  lemma OverlappingRecords(buf: seq<byte>, pointer: int, count: int, k: nat)
    requires RecordsInBounds(|buf|, pointer, 1, count, 2)
    requires k + 1 < count
    ensures WellFormed(Int16Layout())
    ensures 0 <= pointer + k + 1 < |buf|
    ensures EncodeInt16(ReadRecords(buf, Int16Layout(), pointer, 1, count)[k].number)[1]
         == EncodeInt16(ReadRecords(buf, Int16Layout(), pointer, 1, count)[k + 1].number)[0]
         == buf[pointer + k + 1]
  {
    ReadRecordsAt(buf, Int16Layout(), pointer, 1, count);
    RecordAtIsProduct(pointer, 1, k);
    RecordAtIsProduct(pointer, 1, k + 1);
    ReadInt16LittleEndian(buf, pointer + k);
    ReadInt16LittleEndian(buf, pointer + k + 1);
  }
}
