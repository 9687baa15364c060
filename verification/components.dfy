/** A small optional-value datatype used for partial decodings and lookups. */
module Options {

  datatype Option<+T> = None | Some(value: T)
}

/** The component types a channel value may have, their storage widths, and the
    "fully on" value the reshaper writes when it adds a channel (`getDefaultAlpha`).
    A component is modelled by its raw bit pattern, a natural number below
    `Limit(t)`; the decoders below give the numeric meaning of a pattern and are
    the reference the default-alpha table is checked against. */
module Components {
  import opened Options

  /** The C++ types `getDefaultAlpha` is specialised for. */
  datatype ComponentType = UInt8 | UInt16 | Int32 | UInt32 | Float32

  /** 256 to the power `k`: the number of bit patterns of `k` bytes. */
  function Pow256(k: nat): nat
  {
    if k == 0 then 1 else 0x100 * Pow256(k - 1)
  }

  /** `sizeof` of the component type, in bytes: one byte for `uint8_t`, two for
      `uint16_t`, four for `int32_t`, `uint32_t` and `float`. A type of that many
      bytes has `Limit(t)` bit patterns. */
  function Size(t: ComponentType): (n: nat)
    ensures t == UInt8 ==> n == 1
    ensures t == UInt16 ==> n == 2
    ensures t == Int32 || t == UInt32 || t == Float32 ==> n == 4
    ensures Limit(t) == Pow256(n)
  {
    match t
    case UInt8 => 1
    case UInt16 => 2
    case Int32 | UInt32 | Float32 => 4
  }

  /** Number of distinct bit patterns of the type (`Size` proves it is 256 to the power `Size(t)`). */
  function Limit(t: ComponentType): nat
  {
    match t
    case UInt8 => 0x100
    case UInt16 => 0x1_0000
    case Int32 | UInt32 | Float32 => 0x1_0000_0000
  }

  /** A bit pattern of type `t`. */
  predicate IsWord(t: ComponentType, w: nat)
  {
    w < Limit(t)
  }

  /** Two's-complement reading of a 32-bit pattern (the value of an `int32_t`). */
  function Signed32(w: nat): int
    requires w < 0x1_0000_0000
  {
    if w < 0x8000_0000 then w else w - 0x1_0000_0000
  }

  /** 2 raised to an integer power, as a real. */
  function Pow2(e: int): real
    decreases if e < 0 then -e else e
  {
    if e == 0 then 1.0
    else if e > 0 then 2.0 * Pow2(e - 1)
    else Pow2(e + 1) / 2.0
  }

  /** The finite value of an IEEE 754 binary interchange format pattern split into
      sign, biased exponent and fraction; None for infinities and NaNs (the
      all-ones exponent). */
  function BinaryValue(sign: nat, exponent: nat, fraction: nat,
                       maxExponent: nat, bias: nat, fractionScale: nat): Option<real>
    requires fractionScale > 0
  {
    if exponent == maxExponent then None
    else
      var f := fraction as real / fractionScale as real;
      var magnitude := if exponent == 0 then f * Pow2(1 - bias)
                       else (1.0 + f) * Pow2(exponent - bias);
      Some(if sign == 1 then -magnitude else magnitude)
  }

  /** IEEE 754 binary16 (half float): 1 sign bit, 5 exponent bits with bias 15,
      10 fraction bits. */
  function HalfValue(w: nat): Option<real>
    requires w < 0x1_0000
  {
    BinaryValue(w / 0x8000, (w / 0x400) % 0x20, w % 0x400, 0x1f, 15, 0x400)
  }

  /** IEEE 754 binary32 (`float`): 1 sign bit, 8 exponent bits with bias 127,
      23 fraction bits. */
  function SingleValue(w: nat): Option<real>
    requires w < 0x1_0000_0000
  {
    BinaryValue(w / 0x8000_0000, (w / 0x80_0000) % 0x100, w % 0x80_0000, 0xff, 127, 0x80_0000)
  }

  /** The value `getDefaultAlpha<t>()` returns, as the bit pattern stored in the
      buffer. It is a pattern of the type, and for the integer types it is the
      largest value of the type. */
  function DefaultAlpha(t: ComponentType): (alpha: nat)
    ensures IsWord(t, alpha)
    ensures t == UInt8 || t == UInt32 ==> forall w: nat | IsWord(t, w) :: w <= alpha
    ensures t == Int32 ==> Signed32(alpha) == 0x7fff_ffff
    ensures t == Int32 ==> forall w: nat | IsWord(t, w) :: Signed32(w) <= Signed32(alpha)
  {
    match t
    case Float32 => 0x3f80_0000
    case Int32 => 0x7fff_ffff
    case UInt32 => 0xffff_ffff
    case UInt16 => 0x3c00
    case UInt8 => 0xff
  }

  /** For the two floating-point encodings the default value is 1.0: the half-float
      pattern 0x3c00 for `uint16_t`, and the pattern of `1.0f` for `float`. */
  lemma DefaultAlphaIsOne(t: ComponentType)
    requires t == UInt16 || t == Float32
    ensures t == UInt16 ==> HalfValue(DefaultAlpha(t)) == Some(1.0)
    ensures t == Float32 ==> SingleValue(DefaultAlpha(t)) == Some(1.0)
  {
  }
}
