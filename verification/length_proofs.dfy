/**
 What the two length decoders accept and produce, stated against the
 encoders: the as-written decoder reads exactly the `EncodeLength` bytes of
 a representable length and nothing else, and both decoders read back what
 `EncodeLength` writes.
 */
module LengthProofs {
  import opened Wrappers
  import opened Bytes
  import opened Panics
  import opened Reader
  import opened KlvParser
  import opened Encoding

  /**
   Every length the as-written decoder yields is representable, and the
   bytes it consumed are that length's encoding.
   */
  lemma GetLengthReadsEncoding(p: Parser)
    requires GetLength(p).Ok? && GetLength(p).value.out.Some?
    ensures
      var step := GetLength(p).value;
      && RepresentableAsWritten(step.out.value)
      && step.parser.cursor == p.cursor + |EncodeLength(AsWritten, step.out.value)|
      && p.input[p.cursor..step.parser.cursor] == EncodeLength(AsWritten, step.out.value)
  {
    var step := GetLength(p).value;
    var n := step.out.value;
    var b := p.input[p.cursor];
    if b < 128 {
      assert p.input[p.cursor..p.cursor + 1] == [b];
    } else {
      var width := b - 127;
      var slice := p.input[p.cursor..p.cursor + width];
      assert n == LittleEndian(slice) && step.parser.cursor == p.cursor + width;
      LittleEndianLowByte(slice);
      LittleEndianBound(slice);
      LeBytesOfLittleEndian(slice);
      assert n % 256 - 127 == width;
      assert EncodeLength(AsWritten, n) == LeBytes(n, width);
    }
  }

  /** A length the as-written decoder cannot represent never comes out of it, whatever the input. */
  lemma UnrepresentableNeverDecoded(p: Parser, n: nat)
    requires !RepresentableAsWritten(n)
    ensures GetLength(p).Ok? ==> GetLength(p).value.out != Some(n)
  {
    if GetLength(p).Ok? && GetLength(p).value.out.Some? {
      GetLengthReadsEncoding(p);
    }
  }

  /** The source's decoder reads back the length field `EncodeLength` writes for it. */
  lemma GetLengthOfEncoding(n: nat, input: seq<uint8>, c: nat)
    requires RepresentableAsWritten(n)
    requires c + |EncodeLength(AsWritten, n)| <= |input|
    requires input[c..c + |EncodeLength(AsWritten, n)|] == EncodeLength(AsWritten, n)
    ensures GetLength(Parser(input, c)) == Ok(Step(Some(n), Parser(input, c + |EncodeLength(AsWritten, n)|)))
  {
    var e := EncodeLength(AsWritten, n);
    assert input[c] == e[0];
    if n >= 128 {
      var width := n % 256 - 127;
      assert e == LeBytes(n, width);
      assert e[0] == n % 256;
      LittleEndianOfLeBytes(n, width);
    }
  }

  /** The corrected decoder reads back the length field `EncodeLength` writes for it. */
  lemma GetLengthStandardOfEncoding(n: nat, input: seq<uint8>, c: nat)
    requires n < Pow256(8)
    requires c + |EncodeLength(Standard, n)| <= |input|
    requires input[c..c + |EncodeLength(Standard, n)|] == EncodeLength(Standard, n)
    ensures GetLengthStandard(Parser(input, c)) == Ok(Step(Some(n), Parser(input, c + |EncodeLength(Standard, n)|)))
  {
    var e := EncodeLength(Standard, n);
    assert input[c] == e[0];
    if n >= 128 {
      var count := OctetCount(n);
      OctetCountAtMost(n, 8);
      assert e[1..] == BeBytes(n, count);
      assert input[c + 1..c + 1 + count] == e[1..];
      BigEndianOfBeBytes(n, count);
    }
  }

  /** Either dialect's decoder reads back the length field its encoder writes. */
  lemma LengthOfEncoding(d: Dialect, n: nat, input: seq<uint8>, c: nat)
    requires Encodable(d, n)
    requires c + |EncodeLength(d, n)| <= |input|
    requires input[c..c + |EncodeLength(d, n)|] == EncodeLength(d, n)
    ensures LengthIn(d, Parser(input, c)) == Ok(Step(Some(n), Parser(input, c + |EncodeLength(d, n)|)))
  {
    match d
    case AsWritten => GetLengthOfEncoding(n, input, c);
    case Standard => GetLengthStandardOfEncoding(n, input, c);
  }

  /**
   The long-form example [0x82, 0x00, 0x7B]: three bytes consumed by both
   decoders, but the source reads 0x7B0082 where section 8.1.3.5 of ITU-T
   X.690 reads 123.
   */
  lemma LongFormExample()
    ensures GetLength(Parser([0x82, 0x00, 0x7B], 0)) == Ok(Step(Some(0x7B0082), Parser([0x82, 0x00, 0x7B], 3)))
    ensures GetLengthStandard(Parser([0x82, 0x00, 0x7B], 0)) == Ok(Step(Some(123), Parser([0x82, 0x00, 0x7B], 3)))
  {
    var input: seq<uint8> := [0x82, 0x00, 0x7B];
    var octets: seq<uint8> := [0x00, 0x7B];
    assert input[0..3] == input;
    assert input[1..3] == octets;
    assert octets[..1] == [0x00] && [0x00][..0] == [];
    assert BigEndian(octets) == 123;
  }

  /**
   Prefix 0x80 and prefixes from 0x84 up panic in the source; the
   corrected decoder accepts 0x84 with four octets.
   */
  lemma PrefixExamples()
    ensures GetLength(Parser([0x80, 0x05], 0)) == Err(SizeNotTwoToFour(1))
    ensures GetLength(Parser([0x84, 0, 0, 0, 1], 0)) == Err(SizeNotTwoToFour(5))
    ensures GetLength(Parser([0x84, 0, 0, 1], 0)) == Err(SliceOutOfRange(0, 5, 4))
    ensures GetLengthStandard(Parser([0x80, 0x05], 0)) == Err(BadLengthPrefix(0x80))
    ensures GetLengthStandard(Parser([0x84, 0, 0, 0, 1], 0)) == Ok(Step(Some(1), Parser([0x84, 0, 0, 0, 1], 5)))
  {
    var input: seq<uint8> := [0x84, 0, 0, 0, 1];
    var octets: seq<uint8> := [0, 0, 0, 1];
    assert input[1..5] == octets;
    assert octets[..3] == [0, 0, 0] && [0, 0, 0][..2] == [0, 0] && [0, 0][..1] == [0] && [0][..0] == [];
    assert BigEndian(octets) == 1;
  }

  /**
   Gaps in what the source can decode: 128 and 200 have no encoding at
   all, while 129 has one ([0x81, 0x00]).
   */
  lemma RepresentableExamples()
    ensures !RepresentableAsWritten(128) && !RepresentableAsWritten(200) && !RepresentableAsWritten(256)
    ensures RepresentableAsWritten(129) && EncodeLength(AsWritten, 129) == [0x81, 0x00]
  {
  }
}
