/** Bytes and multi-byte unsigned words.

    The IMU frame is a packed C struct laid over the received bytes in the
    host's byte order, which the source never states.  The order of the bytes
    inside a multi-byte field is therefore a parameter of every decoder and
    encoder in this model. */
module Bytes {

  type byte = b: int | 0 <= b < 0x100

  datatype ByteOrder = LittleEndian | BigEndian

  function Pow256(n: nat): (p: nat)
    ensures p > 0
  {
    if n == 0 then 1 else 256 * Pow256(n - 1)
  }

  lemma Pow256Widths()
    ensures Pow256(1) == 0x100 && Pow256(2) == 0x1_0000 && Pow256(4) == 0x1_0000_0000
  {
    assert Pow256(2) == 256 * Pow256(1);
    assert Pow256(4) == 256 * 256 * Pow256(2);
  }

  /** Value of a word stored least significant byte first. */
  function FromLE(bs: seq<byte>): (v: nat)
    ensures v < Pow256(|bs|)
  {
    if bs == [] then 0 else bs[0] + 256 * FromLE(bs[1..])
  }

  /** The `n` bytes of `v`, least significant first; the inverse of FromLE. */
  function ToLE(v: nat, n: nat): (bs: seq<byte>)
    requires v < Pow256(n)
    ensures |bs| == n
    ensures FromLE(bs) == v
  {
    if n == 0 then [] else
      var rest := ToLE(v / 256, n - 1);
      assert ([v % 256] + rest)[1..] == rest;
      [v % 256] + rest
  }

  lemma {:induction false} ToLEFromLE(bs: seq<byte>)
    ensures ToLE(FromLE(bs), |bs|) == bs
  {
    if bs != [] {
      var v := FromLE(bs);
      assert v % 256 == bs[0] && v / 256 == FromLE(bs[1..]);
      ToLEFromLE(bs[1..]);
    }
  }

  function Reverse(s: seq<byte>): (r: seq<byte>)
    ensures |r| == |s|
    ensures forall i :: 0 <= i < |s| ==> r[i] == s[|s| - 1 - i]
  {
    if s == [] then [] else Reverse(s[1..]) + [s[0]]
  }

  lemma ReverseReverse(s: seq<byte>)
    ensures Reverse(Reverse(s)) == s
  {
  }

  /** Value of an unsigned word stored in `order`. */
  function Unsigned(bs: seq<byte>, order: ByteOrder): (v: nat)
    ensures v < Pow256(|bs|)
  {
    match order
    case LittleEndian => FromLE(bs)
    case BigEndian => FromLE(Reverse(bs))
  }

  /** The `n` bytes of `v` in `order`; the inverse of Unsigned. */
  function ToBytes(v: nat, n: nat, order: ByteOrder): (bs: seq<byte>)
    requires v < Pow256(n)
    ensures |bs| == n
    ensures Unsigned(bs, order) == v
  {
    match order
    case LittleEndian => ToLE(v, n)
    case BigEndian =>
      ReverseReverse(ToLE(v, n));
      Reverse(ToLE(v, n))
  }

  lemma ToBytesUnsigned(bs: seq<byte>, order: ByteOrder)
    ensures ToBytes(Unsigned(bs, order), |bs|, order) == bs
  {
    match order
    case LittleEndian => ToLEFromLE(bs);
    case BigEndian =>
      ToLEFromLE(Reverse(bs));
      ReverseReverse(bs);
  }
}
