/** Fixed-width text: `numCharacters` characters of `characterSize` bytes each,
    handed to a text decoder (`Encoding.ASCII` with 1 byte per character,
    `Encoding.Unicode`, i.e. UTF-16LE, with 2). */
module Text {
  import opened Bytes

  /** A text decoder, `Encoding.GetString` applied to exactly the bytes given. */
  type Decoder = seq<byte> -> string

  const AsciiCharSize: int32 := 1
  const UnicodeCharSize: int32 := 2

  /** An unbounded integer as a .NET `int` computes it in an unchecked context: wrapped
      into 32-bit two's complement. */
  function Wrap32(x: int): (w: int32)
    ensures (x - w) % 0x1_0000_0000 == 0
    ensures -0x8000_0000 <= x < 0x8000_0000 ==> w == x
  {
    var m := x % 0x1_0000_0000;
    if m < 0x8000_0000 then m else m - 0x1_0000_0000
  }

  /** The private `ReadString` as the source writes it: the byte count is an `int`
      product and wraps on overflow. A non-positive byte count gives the empty string
      without looking at `offset`; otherwise `Encoding.GetString(bytes, offset, numBytes)`
      rejects a range that leaves the buffer. */
  function ReadStringAsWritten(buf: seq<byte>, offset: int32, numCharacters: int32, characterSize: int32,
                               decode: Decoder): (r: Result<string>)
    ensures Wrap32(numCharacters as int * characterSize as int) <= 0 ==> r == Ok("")
    ensures r.Err? ==> r.error == ArgumentOutOfRange
  {
    var numBytes := Wrap32(numCharacters as int * characterSize as int);
    if numBytes <= 0 then Ok("")
    else if offset < 0 || offset > |buf| - numBytes then Err(ArgumentOutOfRange)
    else Ok(decode(buf[offset..offset + numBytes]))
  }

  /** `ReadString` with the byte count computed without wrap-around. Empty text for a
      non-positive count, whatever the offset; otherwise it decodes exactly the bytes
      `ReadBytes(offset, numBytes)` would copy, and fails where that copy fails. */
  function ReadString(buf: seq<byte>, offset: int32, numCharacters: int32, characterSize: int32,
                      decode: Decoder): (r: Result<string>)
    ensures numCharacters as int * characterSize as int <= 0 ==> r == Ok("")
    ensures numCharacters as int * characterSize as int > 0 ==>
              r.Ok? == Slice(buf, offset, numCharacters as int * characterSize as int).Ok?
    ensures numCharacters as int * characterSize as int > 0 && r.Ok? ==>
              r.value == decode(Slice(buf, offset, numCharacters as int * characterSize as int).value)
    ensures r.Err? ==> r.error == ArgumentOutOfRange
  {
    var numBytes := numCharacters as int * characterSize as int;
    if numBytes <= 0 then Ok("")
    else if offset < 0 || offset > |buf| - numBytes then Err(ArgumentOutOfRange)
    else Ok(decode(buf[offset..offset + numBytes]))
  }

  /** Where the product fits in an `int` the two agree; in particular for ASCII text,
      whose product is `numCharacters` itself. */
  lemma ReadStringAgrees(buf: seq<byte>, offset: int32, numCharacters: int32, characterSize: int32, decode: Decoder)
    requires -0x8000_0000 <= numCharacters as int * characterSize as int < 0x8000_0000
    ensures ReadStringAsWritten(buf, offset, numCharacters, characterSize, decode)
         == ReadString(buf, offset, numCharacters, characterSize, decode)
  {
    assert Wrap32(numCharacters as int * characterSize as int) == numCharacters as int * characterSize as int;
  }

  /** ASCII text never overflows: the as-written and corrected reads coincide. */
  lemma AsciiReadAgrees(buf: seq<byte>, offset: int32, numCharacters: int32, decode: Decoder)
    ensures ReadStringAsWritten(buf, offset, numCharacters, AsciiCharSize, decode)
         == ReadString(buf, offset, numCharacters, AsciiCharSize, decode)
  {
    ReadStringAgrees(buf, offset, numCharacters, AsciiCharSize, decode);
  }

  /** UTF-16 text overflows only from 2^30 characters either way: below that the
      as-written and corrected reads coincide. */
  lemma UnicodeReadAgrees(buf: seq<byte>, offset: int32, numCharacters: int32, decode: Decoder)
    ensures -0x4000_0000 <= numCharacters < 0x4000_0000 ==>
              ReadStringAsWritten(buf, offset, numCharacters, UnicodeCharSize, decode)
              == ReadString(buf, offset, numCharacters, UnicodeCharSize, decode)
  {
    if -0x4000_0000 <= numCharacters < 0x4000_0000 {
      ReadStringAgrees(buf, offset, numCharacters, UnicodeCharSize, decode);
    }
  }

  /** As written, a negative character count whose doubled value wraps to 2 reads and
      decodes two bytes, where a negative count should give the empty string. */
  lemma UnicodeNegativeCountWraps(buf: seq<byte>, decode: Decoder)
    requires |buf| >= 2
    ensures ReadStringAsWritten(buf, 0, -0x7FFF_FFFF, UnicodeCharSize, decode) == Ok(decode(buf[0..2]))
    ensures ReadString(buf, 0, -0x7FFF_FFFF, UnicodeCharSize, decode) == Ok("")
  {
    assert Wrap32(-0x7FFF_FFFF * 2) == 2;
  }

  /** As written, a character count of 2^30 wraps to a negative byte count and gives the
      empty string, where a range of 2^31 bytes can never lie inside the buffer. */
  lemma UnicodeLargeCountWraps(buf: seq<byte>, decode: Decoder)
    requires |buf| < 0x8000_0000
    ensures ReadStringAsWritten(buf, 0, 0x4000_0000, UnicodeCharSize, decode) == Ok("")
    ensures ReadString(buf, 0, 0x4000_0000, UnicodeCharSize, decode) == Err(ArgumentOutOfRange)
  {
    assert Wrap32(0x4000_0000 * 2) == -0x8000_0000;
  }

  /** The corrected read, for any positive character size: no text from a non-positive
      count, and for a positive count exactly `numCharacters * characterSize` bytes from
      `offset`, or a failure when they leave the buffer. */
  lemma ReadStringReadsWholeCharacters(buf: seq<byte>, offset: int32, numCharacters: int32, characterSize: int32,
                                       decode: Decoder)
    requires characterSize > 0
    ensures numCharacters <= 0 ==> ReadString(buf, offset, numCharacters, characterSize, decode) == Ok("")
    ensures numCharacters > 0 ==>
              ReadString(buf, offset, numCharacters, characterSize, decode)
              == if InSpan(|buf|, offset, numCharacters as int * characterSize as int)
                 then Ok(decode(buf[offset..offset + numCharacters as int * characterSize as int]))
                 else Err(ArgumentOutOfRange)
  {
    if numCharacters > 0 {
      var n := numCharacters as int * characterSize as int;
      assert n >= numCharacters as int by {
        assert n == numCharacters as int * (characterSize as int - 1) + numCharacters as int;
      }
      if InSpan(|buf|, offset, n) {
        assert Slice(buf, offset, n).value == buf[offset..offset + n];
      }
    } else {
      assert numCharacters as int * characterSize as int <= 0;
    }
  }
}
