/**
 The parser's cursor over an immutable byte buffer, and the three field
 readers of `Parser`: the 16-byte key, the BER-style length and the value.
 A reader returns the field it read (or `None`) together with the parser
 after the read; a reader that panics in the source returns `Err`.

 `GetLength` and `GetValue` follow the source as written. `GetLengthStandard`
 and `GetValueStandard` are the corrected readers: the long form of
 section 8.1.3.5 of ITU-T X.690, and a value read that accepts an empty
 value at the end of the buffer.
 */
module Reader {
  import opened Wrappers
  import opened Bytes
  import opened Panics
  import opened Convert

  /** Size of a SMPTE 336M Universal Label, the key of every record. */
  const KEY_LENGTH: nat := 16

  type Key = k: seq<uint8> | |k| == KEY_LENGTH witness seq(KEY_LENGTH, _ => 0)

  /** The source's `Parser`: the input buffer and the read position in it. */
  datatype Parser = Parser(input: seq<uint8>, cursor: nat)

  /** What a field reader gives back: the field, if one was read, and the parser after the read. */
  datatype Step<+T> = Step(out: Option<T>, parser: Parser)

  /** `Parser::new`: a parser at the start of `input`, with all of it left to read. */
  function New(input: seq<uint8>): (r: Parser)
    ensures r.input == input && r.cursor == 0
    ensures r.input[r.cursor..] == input
    ensures HasNext(r) <==> input != []
  {
    Parser(input, 0)
  }

  /** `has_next`: some byte is left to read. */
  predicate HasNext(p: Parser): (r: bool)
    ensures p.cursor <= |p.input| ==> (r <==> p.input[p.cursor..] != [])
    ensures r ==> |p.input| > 0
  {
    p.cursor < |p.input|
  }

  /**
   `increment_cursor`: move the read position forward by `bytes`, unchecked.
   The buffer is unchanged, and when the new position is still in the
   buffer, exactly `bytes` fewer bytes are left to read.
   */
  function Advance(p: Parser, bytes: nat): (r: Parser)
    ensures r.input == p.input && r.cursor == p.cursor + bytes
    ensures p.cursor + bytes <= |p.input| ==> |r.input| - r.cursor == |p.input| - p.cursor - bytes
    ensures HasNext(r) ==> HasNext(p)
  {
    p.(cursor := p.cursor + bytes)
  }

  /** `get_key`: the next 16 bytes as a key, or `None` with the cursor left in place. */
  function GetKey(p: Parser): (r: Step<Key>)
    ensures r.out.Some? <==> p.cursor + KEY_LENGTH <= |p.input|
    ensures r.out.Some? ==>
      && r.out.value == p.input[p.cursor..p.cursor + KEY_LENGTH]
      && r.parser == Parser(p.input, p.cursor + KEY_LENGTH)
    ensures r.out.None? ==> r.parser == p
  {
    var start := p.cursor;
    var end := p.cursor + KEY_LENGTH;
    if p.cursor < |p.input| && end <= |p.input| then
      Step(Some(p.input[start..end]), Advance(p, KEY_LENGTH))
    else
      Step(None, p)
  }

  /**
   `get_length` as written. A byte below 128 is the length. A byte `b` of
   128 or more selects a slice of `b - 127` bytes that STARTS AT `b` itself,
   read little-endian by `u8s_to_u32`; a slice past the buffer panics, and
   so does any slice size other than 2, 3 or 4.
   */
  function GetLength(p: Parser): (r: Result<Step<nat>, Failure>)
    // At the end of the buffer: no length, cursor unchanged.
    ensures !HasNext(p) ==> r == Ok(Step(None, p))
    // Short form: the byte itself, one byte consumed.
    ensures HasNext(p) && p.input[p.cursor] < 128 ==>
      r == Ok(Step(Some(p.input[p.cursor]), Parser(p.input, p.cursor + 1)))
    // Long form succeeds exactly for prefixes 0x81..0x83 whose slice fits.
    ensures HasNext(p) && p.input[p.cursor] >= 128 ==>
      var b := p.input[p.cursor];
      && (r.Ok? <==> 0x81 <= b <= 0x83 && p.cursor + b - 127 <= |p.input|)
      && (r.Ok? ==>
            r.value == Step(Some(LittleEndian(p.input[p.cursor..p.cursor + b - 127])),
                            Parser(p.input, p.cursor + b - 127)))
      && (p.cursor + b - 127 > |p.input| ==>
            r == Err(SliceOutOfRange(p.cursor, p.cursor + b - 127, |p.input|)))
      && (p.cursor + b - 127 <= |p.input| && (b == 0x80 || b >= 0x84) ==>
            r == Err(SizeNotTwoToFour(b - 127)))
    // A successful read consumes between one and four bytes and stays in the buffer.
    ensures r.Ok? && r.value.out.Some? ==>
      && r.value.parser.input == p.input
      && p.cursor + 1 <= r.value.parser.cursor <= p.cursor + 4
      && r.value.parser.cursor <= |p.input|
  {
    if p.cursor < |p.input| then
      var byte := p.input[p.cursor];
      if byte < 128 then
        Ok(Step(Some(byte), Advance(p, 1)))
      else
        var bytesLength := byte - 127;
        if p.cursor + bytesLength > |p.input| then
          Err(SliceOutOfRange(p.cursor, p.cursor + bytesLength, |p.input|))
        else
          match U8sToU32(p.input[p.cursor..p.cursor + bytesLength])
          case Err(e) => Err(e)
          case Ok(num) => Ok(Step(Some(num), Advance(p, bytesLength)))
    else
      Ok(Step(None, p))
  }

  /**
   `get_value`: the next `length` bytes, or `None` with the cursor left in
   place. The source also demands that the cursor is before the end, so an
   empty value at the very end of the buffer is refused.
   */
  function GetValue(p: Parser, length: nat): (r: Step<seq<uint8>>)
    ensures r.out.Some? <==> p.cursor < |p.input| && p.cursor + length <= |p.input|
    ensures r.out.Some? ==>
      && r.out.value == p.input[p.cursor..p.cursor + length]
      && r.parser == Parser(p.input, p.cursor + length)
    ensures r.out.None? ==> r.parser == p
  {
    var start := p.cursor;
    var end := p.cursor + length;
    if p.cursor < |p.input| && end <= |p.input| then
      Step(Some(p.input[start..end]), Advance(p, length))
    else
      Step(None, p)
  }

  /**
   Corrected `get_length`, after section 8.1.3 of ITU-T X.690. Short form as
   in `GetLength`. In the long form the low seven bits of the prefix count
   the octets that FOLLOW it (1 to 8 here), read most-significant first.
   Prefix 0x80 (the indefinite form) and counts over 8 are refused.
   */
  function GetLengthStandard(p: Parser): (r: Result<Step<nat>, Failure>)
    ensures !HasNext(p) ==> r == Ok(Step(None, p))
    ensures HasNext(p) && p.input[p.cursor] < 128 ==>
      r == Ok(Step(Some(p.input[p.cursor]), Parser(p.input, p.cursor + 1)))
    ensures HasNext(p) && p.input[p.cursor] >= 128 ==>
      var count := p.input[p.cursor] - 128;
      && (r.Ok? <==> 1 <= count <= 8 && p.cursor + 1 + count <= |p.input|)
      && (r.Ok? ==>
            r.value == Step(Some(BigEndian(p.input[p.cursor + 1..p.cursor + 1 + count])),
                            Parser(p.input, p.cursor + 1 + count)))
      && (count == 0 || count > 8 ==> r == Err(BadLengthPrefix(p.input[p.cursor])))
    ensures r.Ok? && r.value.out.Some? ==>
      && r.value.parser.input == p.input
      && p.cursor + 1 <= r.value.parser.cursor <= p.cursor + 9
      && r.value.parser.cursor <= |p.input|
  {
    if p.cursor < |p.input| then
      var byte := p.input[p.cursor];
      if byte < 128 then
        Ok(Step(Some(byte), Advance(p, 1)))
      else
        var count := byte - 128;
        if count == 0 || count > 8 then
          Err(BadLengthPrefix(byte))
        else if p.cursor + 1 + count > |p.input| then
          Err(SliceOutOfRange(p.cursor + 1, p.cursor + 1 + count, |p.input|))
        else
          Ok(Step(Some(BigEndian(p.input[p.cursor + 1..p.cursor + 1 + count])), Advance(p, 1 + count)))
    else
      Ok(Step(None, p))
  }

  /** Corrected `get_value`: the next `length` bytes whenever they are all in the buffer. */
  function GetValueStandard(p: Parser, length: nat): (r: Step<seq<uint8>>)
    ensures r.out.Some? <==> p.cursor + length <= |p.input|
    ensures r.out.Some? ==>
      && r.out.value == p.input[p.cursor..p.cursor + length]
      && r.parser == Parser(p.input, p.cursor + length)
    ensures r.out.None? ==> r.parser == p
  {
    if p.cursor + length <= |p.input| then
      Step(Some(p.input[p.cursor..p.cursor + length]), Advance(p, length))
    else
      Step(None, p)
  }
}
