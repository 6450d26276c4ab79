/** IEEE 754 values as far as the filters need them: exact values and the partial order with NaN. */
module Floats {
  import opened Bytes

  datatype Float = NaN | NegInf | Finite(value: real) | PosInf

  function Exp2(e: int): (r: real)
    ensures r > 0.0
    decreases if e < 0 then -e else e
  {
    if e == 0 then 1.0 else if e > 0 then 2.0 * Exp2(e - 1) else Exp2(e + 1) / 2.0
  }

  // A finite size as a multiple of the distance between neighbours at its exponent.
  function InSteps(exponent: nat, mantissa: nat): real {
    if exponent == 0 then mantissa as real * Exp2(-149) else (mantissa + 0x80_0000) as real * Exp2(exponent - 150)
  }

  /** The value of a binary32 pattern; widening it to double changes nothing. */
  function Value(bits: F32): Float {
    var negative, exponent, mantissa := bits / 0x8000_0000 == 1, bits / 0x80_0000 % 0x100, bits % 0x80_0000;
    if exponent == 0xFF then
      if mantissa != 0 then NaN else if negative then NegInf else PosInf
    else
      var magnitude := InSteps(exponent, mantissa);
      Finite(if negative then -magnitude else magnitude)
  }

  /** `<` of C++: false as soon as either side is NaN. */
  predicate Less(a: Float, b: Float) {
    match (a, b)
    case (NaN, _) => false
    case (_, NaN) => false
    case (_, NegInf) => false
    case (NegInf, _) => true
    case (PosInf, _) => false
    case (_, PosInf) => true
    case (Finite(x), Finite(y)) => x < y
  }

  predicate AtMost(a: Float, b: Float) {
    !a.NaN? && !b.NaN? && !Less(b, a)
  }

  lemma LessThenAtMost(a: Float, b: Float, c: Float)
    requires Less(a, b) && AtMost(b, c)
    ensures Less(a, c)
  {
  }

  const POSITIVE_INFINITY: F32 := 0x7F80_0000

  function Magnitude(bits: F32): real
    requires bits < POSITIVE_INFINITY
  {
    InSteps(bits / 0x80_0000, bits % 0x80_0000)
  }

  lemma MagnitudeIsValue(bits: F32)
    requires bits < POSITIVE_INFINITY
    ensures Value(bits) == Finite(Magnitude(bits))
  {
  }

  lemma Exp2Doubles(e: int)
    ensures Exp2(e + 1) == 2.0 * Exp2(e)
  {
  }

  lemma NextPattern(bits: F32)
    requires bits + 1 < POSITIVE_INFINITY
    ensures Magnitude(bits) < Magnitude(bits + 1)
  {
    var exponent, mantissa := bits / 0x80_0000, bits % 0x80_0000;
    if mantissa + 1 < 0x80_0000 {
      assert (bits + 1) / 0x80_0000 == exponent && (bits + 1) % 0x80_0000 == mantissa + 1;
    } else {
      assert (bits + 1) / 0x80_0000 == exponent + 1 && (bits + 1) % 0x80_0000 == 0;
      Exp2Doubles(exponent - 150);
    }
  }

  /** Patterns of non-negative finite floats order like the numbers they are read as. */
  lemma {:induction false} PatternsOrderValues(a: F32, b: F32)
    requires a < b < POSITIVE_INFINITY
    ensures Less(Value(a), Value(b))
    decreases b
  {
    MagnitudeIsValue(a);
    MagnitudeIsValue(b);
    NextPattern(b - 1);
    if a < b - 1 {
      PatternsOrderValues(a, b - 1);
      MagnitudeIsValue(b - 1);
    }
  }

  /** What `<` decides: the order of numbers between the infinities, and nothing about NaN. */
  lemma LessExactly(a: Float, b: Float)
    ensures Less(a, b) <==>
              || (a.Finite? && b.Finite? && a.value < b.value)
              || (a.NegInf? && (b.Finite? || b.PosInf?))
              || (a.Finite? && b.PosInf?)
  {
  }

  lemma FourDoublings(e: int)
    ensures Exp2(e + 4) == 16.0 * Exp2(e)
  {
    Exp2Doubles(e);
    Exp2Doubles(e + 1);
    Exp2Doubles(e + 2);
    Exp2Doubles(e + 3);
  }

  lemma Scaled(mantissa: real, unit: real)
    ensures (mantissa + 8388608.0) * unit == (1.0 + mantissa / 8388608.0) * (unit * 8388608.0)
    ensures mantissa * unit == mantissa / 8388608.0 * (unit * 8388608.0)
  {
    var x := mantissa / 8388608.0;
    assert mantissa == x * 8388608.0;
    assert (x * 8388608.0) * unit == x * (unit * 8388608.0);
    assert (1.0 + x) * (unit * 8388608.0) == unit * 8388608.0 + x * (unit * 8388608.0);
  }

  lemma TwentyThreeDoublings(e: int)
    ensures Exp2(e + 23) == Exp2(e) * 8388608.0
  {
    FourDoublings(e);
    FourDoublings(e + 4);
    FourDoublings(e + 8);
    FourDoublings(e + 12);
    FourDoublings(e + 16);
    Exp2Doubles(e + 20);
    Exp2Doubles(e + 21);
    Exp2Doubles(e + 22);
  }

  lemma FieldsOf(sign: nat, exponent: nat, fraction: nat, bits: nat)
    requires sign < 2 && exponent < 256 && fraction < 8388608
    requires bits == sign * 0x8000_0000 + exponent * 0x80_0000 + fraction
    ensures bits < 0x1_0000_0000 && bits / 0x8000_0000 == sign
    ensures bits / 0x80_0000 % 0x100 == exponent && bits % 0x80_0000 == fraction
  {
    assert bits / 0x80_0000 == sign * 0x100 + exponent;
  }

  // The size of a finite value from its exponent and its fraction.
  function SizeOf(exponent: nat, fraction: nat): real {
    if exponent == 0 then fraction as real / 8388608.0 * Exp2(-126)
    else (1.0 + fraction as real / 8388608.0) * Exp2(exponent - 127)
  }

  lemma SizeScaled(exponent: nat, fraction: nat)
    ensures SizeOf(exponent, fraction) == InSteps(exponent, fraction)
  {
    assert (fraction + 0x80_0000) as real == fraction as real + 8388608.0;
    if exponent == 0 {
      TwentyThreeDoublings(-149);
      Scaled(fraction as real, Exp2(-149));
    } else {
      TwentyThreeDoublings(exponent - 150);
      Scaled(fraction as real, Exp2(exponent - 150));
    }
  }

  lemma ValueOfFields(bits: F32, sign: nat, exponent: nat, fraction: nat)
    requires bits / 0x8000_0000 == sign && bits / 0x80_0000 % 0x100 == exponent && bits % 0x80_0000 == fraction
    ensures exponent == 255 && fraction != 0 ==> Value(bits) == NaN
    ensures exponent == 255 && fraction == 0 ==> Value(bits) == if sign == 1 then NegInf else PosInf
    ensures exponent != 255 ==>
              Value(bits) == Finite(if sign == 1 then -SizeOf(exponent, fraction) else SizeOf(exponent, fraction))
  {
    SizeScaled(exponent, fraction);
  }

  /**
   * The binary32 format of IEEE 754, section 3.4: a sign bit, eight exponent bits biased by 127 and 23
   * fraction bits, with subnormals at the lowest exponent and infinities and NaNs at the highest.
   */
  lemma Binary32(sign: nat, exponent: nat, fraction: nat, bits: F32)
    requires sign < 2 && exponent < 256 && fraction < 8388608
    requires bits == sign * 0x8000_0000 + exponent * 0x80_0000 + fraction
    ensures exponent == 255 && fraction != 0 ==> Value(bits) == NaN
    ensures exponent == 255 && fraction == 0 ==> Value(bits) == if sign == 1 then NegInf else PosInf
    ensures exponent < 255 ==>
              Value(bits) == Finite(if sign == 1 then -SizeOf(exponent, fraction) else SizeOf(exponent, fraction))
  {
    FieldsOf(sign, exponent, fraction, bits);
    ValueOfFields(bits, sign, exponent, fraction);
  }

  /** The unit of the exponents: Exp2 is the power of two for every integer. */
  lemma Exp2IsPower(e: int)
    ensures Exp2(0) == 1.0 && Exp2(e + 1) == 2.0 * Exp2(e)
  {
  }
}
