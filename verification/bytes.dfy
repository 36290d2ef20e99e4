/**
 Bytes, fixed-width integers and the two byte orders a multi-byte integer
 can be written in. `LittleEndian`/`BigEndian` read a byte string as a
 number; `LeBytes`/`BeBytes` write a number back with a given width.
 */
module Bytes {

  type uint8 = x: int | 0 <= x < 0x100
  type uint32 = x: int | 0 <= x < 0x1_0000_0000

  /** 256 to the power n: the number of distinct values n bytes can hold. */
  function Pow256(n: nat): (r: nat)
    ensures r > 0
  {
    if n == 0 then 1 else 256 * Pow256(n - 1)
  }

  /** The value of `bs` read least-significant byte first. */
  function LittleEndian(bs: seq<uint8>): nat
  {
    if |bs| == 0 then 0 else bs[0] + 256 * LittleEndian(bs[1..])
  }

  /** The value of `bs` read most-significant byte first. */
  function BigEndian(bs: seq<uint8>): nat
  {
    if |bs| == 0 then 0 else 256 * BigEndian(bs[..|bs| - 1]) + bs[|bs| - 1]
  }

  /** The low `n` bytes of `x`, least-significant first. */
  function LeBytes(x: nat, n: nat): (r: seq<uint8>)
    ensures |r| == n
  {
    if n == 0 then [] else [x % 256] + LeBytes(x / 256, n - 1)
  }

  /** The low `n` bytes of `x`, most-significant first. */
  function BeBytes(x: nat, n: nat): (r: seq<uint8>)
    ensures |r| == n
  {
    if n == 0 then [] else BeBytes(x / 256, n - 1) + [x % 256]
  }

  /** The fewest bytes (at least one) that hold `x`. */
  function OctetCount(x: nat): (r: nat)
    ensures 1 <= r && x < Pow256(r)
    ensures r > 1 ==> Pow256(r - 1) <= x
  {
    if x < 256 then 1 else 1 + OctetCount(x / 256)
  }

  /** n bytes never hold a value of Pow256(n) or more, in either order. */
  lemma {:induction false} LittleEndianBound(bs: seq<uint8>)
    ensures LittleEndian(bs) < Pow256(|bs|)
  {
    if |bs| > 0 {
      LittleEndianBound(bs[1..]);
    }
  }

  lemma {:induction false} BigEndianBound(bs: seq<uint8>)
    ensures BigEndian(bs) < Pow256(|bs|)
  {
    if |bs| > 0 {
      BigEndianBound(bs[..|bs| - 1]);
    }
  }

  /** Writing a value that fits and reading it back gives the value. */
  lemma {:induction false} LittleEndianOfLeBytes(x: nat, n: nat)
    requires x < Pow256(n)
    ensures LittleEndian(LeBytes(x, n)) == x
  {
    if n > 0 {
      var bs := LeBytes(x, n);
      assert bs[1..] == LeBytes(x / 256, n - 1);
      LittleEndianOfLeBytes(x / 256, n - 1);
    }
  }

  lemma {:induction false} BigEndianOfBeBytes(x: nat, n: nat)
    requires x < Pow256(n)
    ensures BigEndian(BeBytes(x, n)) == x
  {
    if n > 0 {
      var bs := BeBytes(x, n);
      var high := BeBytes(x / 256, n - 1);
      assert bs == high + [x % 256];
      assert bs[..n - 1] == high;
      BigEndianOfBeBytes(x / 256, n - 1);
    }
  }

  /** Reading bytes and writing the value back with the same width gives the bytes. */
  lemma {:induction false} LeBytesOfLittleEndian(bs: seq<uint8>)
    ensures LeBytes(LittleEndian(bs), |bs|) == bs
  {
    if |bs| > 0 {
      var x := LittleEndian(bs);
      assert x % 256 == bs[0] && x / 256 == LittleEndian(bs[1..]);
      LeBytesOfLittleEndian(bs[1..]);
    }
  }

  lemma {:induction false} BeBytesOfBigEndian(bs: seq<uint8>)
    ensures BeBytes(BigEndian(bs), |bs|) == bs
  {
    if |bs| > 0 {
      var n := |bs|;
      var x := BigEndian(bs);
      assert x % 256 == bs[n - 1] && x / 256 == BigEndian(bs[..n - 1]);
      BeBytesOfBigEndian(bs[..n - 1]);
      assert bs == bs[..n - 1] + [bs[n - 1]];
    }
  }

  /** The first byte of a little-endian string is its least significant one. */
  lemma LittleEndianLowByte(bs: seq<uint8>)
    requires |bs| > 0
    ensures LittleEndian(bs) % 256 == bs[0]
  {
  }

  /** The last byte of a little-endian string is its most significant one. */
  lemma {:induction false} LittleEndianSnoc(bs: seq<uint8>)
    requires |bs| > 0
    ensures LittleEndian(bs) == LittleEndian(bs[..|bs| - 1]) + bs[|bs| - 1] * Pow256(|bs| - 1)
  {
    if |bs| > 1 {
      var rest := bs[1..];
      LittleEndianSnoc(rest);
      assert rest[..|rest| - 1] == bs[..|bs| - 1][1..];
    }
  }

  /** A value that fits in n bytes needs at most n of them. */
  lemma {:induction false} OctetCountAtMost(x: nat, n: nat)
    requires 1 <= n && x < Pow256(n)
    ensures OctetCount(x) <= n
  {
    if x >= 256 {
      assert n >= 2;
      OctetCountAtMost(x / 256, n - 1);
    }
  }
}
