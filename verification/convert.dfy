/**
 The little-endian helpers of the KLV parser: two, three or four bytes
 combined into a 32-bit word by shifting and OR-ing, and the dispatcher
 that picks one by slice size.
 */
module Convert {
  import opened Wrappers
  import opened Bytes
  import opened Panics

  /**
   `u32::from(b) << (8 * k)`: byte `b` moved to byte position `k` of the
   word. The source combines lanes with `|`; lanes at distinct positions
   share no bit, so the OR of lanes is their sum.
   */
  function Lane(b: uint8, k: nat): nat
  {
    b * Pow256(k)
  }

  /** The first two bytes as a word, `bytes[0]` least significant; panics below two bytes. */
  function TwoU8sToU32(bytes: seq<uint8>): (r: Result<uint32, Failure>)
    ensures r.Ok? <==> |bytes| >= 2
    ensures r.Ok? ==> r.value == LittleEndian(bytes[..2])
    ensures r.Err? ==> r.error == TooFewBytes(2, |bytes|)
  {
    if |bytes| >= 2 then
      LittleEndianSnoc(bytes[..2]);
      LittleEndianSnoc(bytes[..1]);
      Ok(Lane(bytes[1], 1) + Lane(bytes[0], 0))
    else
      Err(TooFewBytes(2, |bytes|))
  }

  /** The first three bytes as a word, `bytes[0]` least significant; panics below three bytes. */
  function ThreeU8sToU32(bytes: seq<uint8>): (r: Result<uint32, Failure>)
    ensures r.Ok? <==> |bytes| >= 3
    ensures r.Ok? ==> r.value == LittleEndian(bytes[..3])
    ensures r.Err? ==> r.error == TooFewBytes(3, |bytes|)
  {
    if |bytes| >= 3 then
      assert bytes[..3][..2] == bytes[..2] && bytes[..2][..1] == bytes[..1];
      LittleEndianSnoc(bytes[..3]);
      LittleEndianSnoc(bytes[..2]);
      LittleEndianSnoc(bytes[..1]);
      Ok(Lane(bytes[2], 2) + Lane(bytes[1], 1) + Lane(bytes[0], 0))
    else
      Err(TooFewBytes(3, |bytes|))
  }

  /** The first four bytes as a word, `bytes[0]` least significant; panics below four bytes. */
  function FourU8sToU32(bytes: seq<uint8>): (r: Result<uint32, Failure>)
    ensures r.Ok? <==> |bytes| >= 4
    ensures r.Ok? ==> r.value == LittleEndian(bytes[..4])
    ensures r.Err? ==> r.error == TooFewBytes(4, |bytes|)
  {
    if |bytes| >= 4 then
      assert bytes[..4][..3] == bytes[..3] && bytes[..3][..2] == bytes[..2] && bytes[..2][..1] == bytes[..1];
      LittleEndianSnoc(bytes[..4]);
      LittleEndianSnoc(bytes[..3]);
      LittleEndianSnoc(bytes[..2]);
      LittleEndianSnoc(bytes[..1]);
      Ok(Lane(bytes[3], 3) + Lane(bytes[2], 2) + Lane(bytes[1], 1) + Lane(bytes[0], 0))
    else
      Err(TooFewBytes(4, |bytes|))
  }

  /** A slice of two, three or four bytes as a little-endian word; any other size panics. */
  function U8sToU32(bytes: seq<uint8>): (r: Result<uint32, Failure>)
    ensures r.Ok? <==> 2 <= |bytes| <= 4
    ensures r.Ok? ==> r.value == LittleEndian(bytes)
    ensures r.Err? ==> r.error == SizeNotTwoToFour(|bytes|)
  {
    assert bytes[..|bytes|] == bytes;
    match |bytes|
    case 2 => TwoU8sToU32(bytes)
    case 3 => ThreeU8sToU32(bytes)
    case 4 => FourU8sToU32(bytes)
    case _ => Err(SizeNotTwoToFour(|bytes|))
  }

  /** The three vectors the source's unit tests pin. */
  lemma TestVectors()
    ensures TwoU8sToU32([45, 124]) == Ok(31789)
    ensures ThreeU8sToU32([45, 124, 101]) == Ok(6650925)
    ensures FourU8sToU32([45, 124, 101, 12]) == Ok(207977517)
  {
  }
}
