/**
 The byte layout the parser accepts, written as encoders: for each dialect,
 which lengths can be written at all, how a length is written, and how a
 run of records is laid out. The decoder has no encoder of its own; these
 are the partners its round-trip properties are stated against.
 */
module Encoding {
  import opened Bytes
  import opened Reader
  import opened KlvParser

  /**
   The lengths the as-written decoder can produce: a short-form byte, or a
   number whose low byte is a long-form prefix 0x81..0x83 and whose value
   fits in the slice that prefix selects (2, 3 or 4 bytes).
   */
  predicate RepresentableAsWritten(n: nat)
  {
    n < 128 || (0x81 <= n % 256 <= 0x83 && n < Pow256(n % 256 - 127))
  }

  /** The lengths a dialect can write: the corrected one takes up to eight octets. */
  predicate Encodable(d: Dialect, n: nat)
  {
    match d
    case AsWritten => RepresentableAsWritten(n)
    case Standard => n < Pow256(8)
  }

  /**
   The length field for `n`. As written: the short form, or the little-endian
   bytes of `n` whose first byte doubles as the prefix. Corrected: the short
   form, or the prefix `0x80 + count` and the fewest octets that hold `n`,
   most-significant first.
   */
  function EncodeLength(d: Dialect, n: nat): (r: seq<uint8>)
    requires Encodable(d, n)
    ensures 1 <= |r| <= 9
  {
    if n < 128 then [n]
    else
      match d
      case AsWritten => LeBytes(n, n % 256 - 127)
      case Standard =>
        OctetCountAtMost(n, 8);
        [128 + OctetCount(n)] + BeBytes(n, OctetCount(n))
  }

  /** A record the dialect can write and read back. */
  predicate WellFormedRecord(d: Dialect, klv: Klv)
  {
    |klv.value| == klv.length && Encodable(d, klv.length)
  }

  /**
   A run of records the dialect can write and read back. As written, the
   last record must not have an empty value: `get_value` refuses an empty
   value at the end of the buffer.
   */
  predicate WellFormed(d: Dialect, klvs: seq<Klv>)
  {
    && (forall i | 0 <= i < |klvs| :: WellFormedRecord(d, klvs[i]))
    && (d == AsWritten && |klvs| > 0 ==> klvs[|klvs| - 1].length > 0)
  }

  /** Key, length field and value, back to back. */
  function EncodeKlv(d: Dialect, klv: Klv): seq<uint8>
    requires Encodable(d, klv.length)
  {
    klv.key + EncodeLength(d, klv.length) + klv.value
  }

  /** The records' encodings in order. */
  function EncodeAll(d: Dialect, klvs: seq<Klv>): seq<uint8>
    requires forall i | 0 <= i < |klvs| :: Encodable(d, klvs[i].length)
  {
    if |klvs| == 0 then [] else EncodeKlv(d, klvs[0]) + EncodeAll(d, klvs[1..])
  }

  /** Bytes one record occupies: key, length field and value. */
  function Width(d: Dialect, klv: Klv): nat
    requires Encodable(d, klv.length)
  {
    KEY_LENGTH + |EncodeLength(d, klv.length)| + klv.length
  }

  /** Bytes a run of records occupies. */
  function TotalWidth(d: Dialect, klvs: seq<Klv>): nat
    requires forall i | 0 <= i < |klvs| :: Encodable(d, klvs[i].length)
  {
    if |klvs| == 0 then 0 else Width(d, klvs[0]) + TotalWidth(d, klvs[1..])
  }
}
