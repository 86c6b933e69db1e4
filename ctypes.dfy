/** The C scalar types that make up the IMU frame, and how a field of each
    type is read from and written to its bytes.

    `short` and `int` are two's complement; `float` fields are kept as their
    raw 32-bit pattern, because their units and meaning are undocumented. */
module CTypes {
  import opened Bytes

  type uint16 = x: int | 0 <= x < 0x1_0000
  type int16 = x: int | -0x8000 <= x < 0x8000
  type uint32 = x: int | 0 <= x < 0x1_0000_0000
  type int32 = x: int | -0x8000_0000 <= x < 0x8000_0000

  /** An IEEE-754 single precision value, as its bit pattern. */
  type Float32Bits = uint32

  datatype CType = UChar | UShort | Short | UInt | Int | Float {

    /** `sizeof` of the type on the target: 1 for `unsigned char`, 2 for
        `short`, 4 for `int` and `float`. */
    function Width(): nat
    {
      match this
      case UChar => 1
      case UShort | Short => 2
      case UInt | Int | Float => 4
    }

    predicate IsSigned()
    {
      this == Short || this == Int
    }

    /** Number of distinct bit patterns of the type. */
    function Modulus(): (m: nat)
      ensures m == Pow256(Width())
    {
      Pow256Widths();
      match this
      case UChar => 0x100
      case UShort | Short => 0x1_0000
      case UInt | Int | Float => 0x1_0000_0000
    }

    /** `v` is a value of the declared type (for `float`: a bit pattern). */
    predicate Holds(v: int)
    {
      if IsSigned() then -(Modulus() / 2) <= v < Modulus() / 2
      else 0 <= v < Modulus()
    }
  }

  /** The value a field of type `ty` has when its bits read as the unsigned
      number `u`: the one value of the type congruent to `u`. */
  function FromBits(ty: CType, u: nat): (v: int)
    requires u < ty.Modulus()
    ensures ty.Holds(v)
    ensures (v - u) % ty.Modulus() == 0
  {
    if ty.IsSigned() && u >= ty.Modulus() / 2 then u - ty.Modulus() else u
  }

  /** The bit pattern, read as an unsigned number, that stores `v`. */
  function ToBits(ty: CType, v: int): (u: nat)
    requires ty.Holds(v)
    ensures u < ty.Modulus()
    ensures (u - v) % ty.Modulus() == 0
  {
    if v < 0 then v + ty.Modulus() else v
  }

  lemma FromBitsToBits(ty: CType, v: int)
    requires ty.Holds(v)
    ensures FromBits(ty, ToBits(ty, v)) == v
  {
  }

  lemma ToBitsFromBits(ty: CType, u: nat)
    requires u < ty.Modulus()
    ensures ToBits(ty, FromBits(ty, u)) == u
  {
  }

  /** The declared-type ranges are exactly those of the fixed-width C types. */
  lemma HoldsIsDeclaredRange(v: int)
    ensures UShort.Holds(v) <==> 0 <= v < 0x1_0000
    ensures Short.Holds(v) <==> -0x8000 <= v < 0x8000
    ensures UInt.Holds(v) <==> 0 <= v < 0x1_0000_0000
    ensures Int.Holds(v) <==> -0x8000_0000 <= v < 0x8000_0000
    ensures Float.Holds(v) <==> 0 <= v < 0x1_0000_0000
  {
  }

  /** Reads a field of type `ty` from its `ty.Width()` bytes. */
  function DecodeValue(ty: CType, bs: seq<byte>, order: ByteOrder): (v: int)
    requires |bs| == ty.Width()
    ensures ty.Holds(v)
  {
    FromBits(ty, Unsigned(bs, order))
  }

  /** Writes a field of type `ty`; DecodeValue reads the value back. */
  function EncodeValue(ty: CType, v: int, order: ByteOrder): (bs: seq<byte>)
    requires ty.Holds(v)
    ensures |bs| == ty.Width()
    ensures DecodeValue(ty, bs, order) == v
  {
    FromBitsToBits(ty, v);
    ToBytes(ToBits(ty, v), ty.Width(), order)
  }

  lemma EncodeValueDecodeValue(ty: CType, bs: seq<byte>, order: ByteOrder)
    requires |bs| == ty.Width()
    ensures EncodeValue(ty, DecodeValue(ty, bs, order), order) == bs
  {
    ToBitsFromBits(ty, Unsigned(bs, order));
    ToBytesUnsigned(bs, order);
  }
}
