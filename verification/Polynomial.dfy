/** The loop's polynomial constant against the one ECMA-182 prints. */
module Polynomial {
  import opened Gf2
  import opened Words
  import opened Crc64

  /** Hexadecimal digits, the most significant first. */
  datatype Hex = End | Digit(d: nat, rest: Hex)

  function Length(h: Hex): nat {
    match h case End => 0 case Digit(_, r) => 4 + Length(r)
  }

  function Nibble(d: nat): (s: Bits)
    ensures |s| == 4
  {
    [d / 8 % 2 == 1, d / 4 % 2 == 1, d / 2 % 2 == 1, d % 2 == 1]
  }

  /** The bits of the digits as written: coefficients, the highest power first. */
  function Coefficients(h: Hex): (s: Bits)
    ensures |s| == Length(h)
  {
    match h case End => [] case Digit(d, r) => Nibble(d) + Coefficients(r)
  }

  function Mirror(d: nat): nat {
    8 * (d % 2) + 4 * (d / 2 % 2) + 2 * (d / 4 % 2) + d / 8 % 2
  }

  // The same digits with all bits in the opposite order.
  function Reflected(h: Hex): nat {
    match h case End => 0 case Digit(d, r) => Mirror(d) + 16 * Reflected(r)
  }

  lemma TwoBits(v: nat, b0: nat, b1: nat, n: nat, x: nat)
    requires b0 < 2 && b1 < 2 && x == 4 * v + 2 * b0 + b1
    ensures BitsOf(x, n + 2) == [b1 == 1, b0 == 1] + BitsOf(v, n)
  {
    var y := 2 * v + b0;
    assert x == 2 * y + b1;
    OneMoreBit(v, b0, n);
    OneMoreBit(y, b1, n + 1);
    Pair(b1 == 1, b0 == 1, BitsOf(v, n));
  }

  lemma Pair(a: bool, b: bool, s: Bits)
    ensures [a] + ([b] + s) == [a, b] + s
  {
  }

  lemma Join(a: bool, b: bool, c: bool, d: bool, s: Bits)
    ensures [a, b] + ([c, d] + s) == [a, b, c, d] + s
  {
  }

  lemma NibbleBits(d: nat, v: nat, n: nat)
    ensures BitsOf(Mirror(d) + 16 * v, n + 4) == Nibble(d) + BitsOf(v, n)
  {
    var b0: nat, b1: nat, b2: nat, b3: nat := d % 2, d / 2 % 2, d / 4 % 2, d / 8 % 2;
    var upper := 4 * v + 2 * b0 + b1;
    TwoBits(v, b0, b1, n, upper);
    TwoBits(upper, b2, b3, n + 2, Mirror(d) + 16 * v);
    Join(b3 == 1, b2 == 1, b1 == 1, b0 == 1, BitsOf(v, n));
  }

  lemma {:induction false} ReflectedBits(h: Hex)
    ensures BitsOf(Reflected(h), Length(h)) == Coefficients(h)
    decreases h
  {
    match h
    case End =>
    case Digit(d, r) =>
      ReflectedBits(r);
      NibbleBits(d, Reflected(r), Length(r));
  }

  function Four(a: nat, b: nat, c: nat, d: nat, rest: Hex): Hex {
    Digit(a, Digit(b, Digit(c, Digit(d, rest))))
  }

  lemma FourDigits(a: nat, b: nat, c: nat, d: nat, rest: Hex)
    ensures Reflected(Four(a, b, c, d, rest))
         == Mirror(a) + 0x10 * Mirror(b) + 0x100 * Mirror(c) + 0x1000 * Mirror(d) + 0x1_0000 * Reflected(rest)
    ensures Length(Four(a, b, c, d, rest)) == 16 + Length(rest)
  {
    assert Reflected(Digit(c, Digit(d, rest))) == Mirror(c) + 16 * (Mirror(d) + 16 * Reflected(rest));
    assert Length(Digit(c, Digit(d, rest))) == 8 + Length(rest);
  }

  lemma MirrorIs(b3: nat, b2: nat, b1: nat, b0: nat)
    requires b3 < 2 && b2 < 2 && b1 < 2 && b0 < 2
    ensures Mirror(8 * b3 + 4 * b2 + 2 * b1 + b0) == 8 * b0 + 4 * b1 + 2 * b2 + b3
  {
    var d := 8 * b3 + 4 * b2 + 2 * b1 + b0;
    assert d / 2 == 4 * b3 + 2 * b2 + b1 && d / 4 == 2 * b3 + b2 && d / 8 == b3;
  }

  lemma MirrorsA()
    ensures Mirror(3) == 0xC && Mirror(6) == 6 && Mirror(9) == 9
  {
    MirrorIs(0, 0, 1, 1); MirrorIs(0, 1, 1, 0); MirrorIs(1, 0, 0, 1);
  }

  lemma MirrorsB()
    ensures Mirror(0xA) == 5 && Mirror(0xE) == 7
  {
    MirrorIs(1, 0, 1, 0); MirrorIs(1, 1, 1, 0);
  }

  lemma MirrorsC()
    ensures Mirror(4) == 2 && Mirror(2) == 4 && Mirror(0xF) == 0xF && Mirror(0) == 0
  {
    MirrorIs(0, 1, 0, 0); MirrorIs(0, 0, 1, 0); MirrorIs(1, 1, 1, 1); MirrorIs(0, 0, 0, 0);
  }

  lemma MirrorsD()
    ensures Mirror(1) == 8 && Mirror(0xB) == 0xD
  {
    MirrorIs(0, 0, 0, 1); MirrorIs(1, 0, 1, 1);
  }

  lemma LowerHalf(h3: Hex, h2: Hex)
    requires h3 == Four(3, 6, 9, 3, End) && h2 == Four(0xA, 9, 0xE, 0xA, h3)
    ensures Reflected(h2) == 0xC96C5795 && Length(h2) == 32
  {
    MirrorsA();
    MirrorsB();
    FourDigits(3, 6, 9, 3, End);
    FourDigits(0xA, 9, 0xE, 0xA, h3);
    assert Reflected(h3) == 0xC96C && Length(h3) == 16;
  }

  lemma UpperHalf(h2: Hex, h1: Hex, h: Hex)
    requires Reflected(h2) == 0xC96C5795 && Length(h2) == 32
    requires h1 == Four(0xE, 1, 0xE, 0xB, h2) && h == Four(4, 2, 0xF, 0, h1)
    ensures Reflected(h) == REFLECTED_POLY && Length(h) == 64
  {
    MirrorsB();
    MirrorsC();
    MirrorsD();
    FourDigits(0xE, 1, 0xE, 0xB, h2);
    FourDigits(4, 2, 0xF, 0, h1);
  }

  // The standard's polynomial below x^64: 42F0E1EBA9EA3693.
  function Ecma182(): Hex {
    Four(4, 2, 0xF, 0, Four(0xE, 1, 0xE, 0xB, Four(0xA, 9, 0xE, 0xA, Four(3, 6, 9, 3, End))))
  }

  lemma DigitsAreGenerator(h: Hex)
    requires Reflected(h) == REFLECTED_POLY && Length(h) == 64
    ensures GENERATOR == Coefficients(h)
  {
    ReflectedBits(h);
  }

  /** The generator of the loop is the ECMA-182 polynomial, coefficient for coefficient. */
  lemma GeneratorIsEcma182()
    ensures GENERATOR == Coefficients(Ecma182())
  {
    var h3 := Four(3, 6, 9, 3, End);
    var h2 := Four(0xA, 9, 0xE, 0xA, h3);
    var h1 := Four(0xE, 1, 0xE, 0xB, h2);
    var h := Four(4, 2, 0xF, 0, h1);
    LowerHalf(h3, h2);
    UpperHalf(h2, h1, h);
    DigitsAreGenerator(h);
  }

  // ----- Its number of terms -----

  lemma OddOfFour(a: bool, b: bool, c: bool, d: bool)
    ensures Odd([a, b, c, d]) <==> (a != (b != (c != d)))
  {
    OddAdds([a], [b, c, d]);
    OddAdds([b], [c, d]);
    OddAdds([c], [d]);
    assert [a] + [b, c, d] == [a, b, c, d] && [b] + [c, d] == [b, c, d] && [c] + [d] == [c, d];
    assert [a][1..] == [] && [b][1..] == [] && [c][1..] == [] && [d][1..] == [];
  }

  // The parity of a digit's bits.
  function OddDigit(d: nat): bool {
    (d / 8 % 2 + d / 4 % 2 + d / 2 % 2 + d % 2) % 2 == 1
  }

  lemma DigitFirst(d: nat, rest: Hex)
    ensures Odd(Coefficients(Digit(d, rest))) <==> (OddDigit(d) != Odd(Coefficients(rest)))
  {
    OddOfFour(d / 8 % 2 == 1, d / 4 % 2 == 1, d / 2 % 2 == 1, d % 2 == 1);
    OddAdds(Nibble(d), Coefficients(rest));
  }

  lemma FourFirst(a: nat, b: nat, c: nat, d: nat, rest: Hex)
    ensures Odd(Coefficients(Four(a, b, c, d, rest)))
       <==> (OddDigit(a) != (OddDigit(b) != (OddDigit(c) != (OddDigit(d) != Odd(Coefficients(rest))))))
  {
    DigitFirst(d, rest);
    DigitFirst(c, Digit(d, rest));
    DigitFirst(b, Digit(c, Digit(d, rest)));
    DigitFirst(a, Digit(b, Digit(c, Digit(d, rest))));
  }

  lemma LowerHalfOdd(h3: Hex, h2: Hex)
    requires h3 == Four(3, 6, 9, 3, End) && h2 == Four(0xA, 9, 0xE, 0xA, h3)
    ensures Odd(Coefficients(h2))
  {
    FourFirst(3, 6, 9, 3, End);
    assert !Odd(Coefficients(h3));
    FourFirst(0xA, 9, 0xE, 0xA, h3);
  }

  lemma UpperHalfOdd(h2: Hex, h1: Hex, h: Hex)
    requires Odd(Coefficients(h2))
    requires h1 == Four(0xE, 1, 0xE, 0xB, h2) && h == Four(4, 2, 0xF, 0, h1)
    ensures Odd(Coefficients(h))
  {
    FourFirst(0xE, 1, 0xE, 0xB, h2);
    FourFirst(4, 2, 0xF, 0, h1);
  }

  /** With its leading x^64 the generator has 34 terms, so x + 1 divides it. */
  lemma GeneratorIsOdd()
    ensures Odd(GENERATOR)
  {
    var h3 := Four(3, 6, 9, 3, End);
    var h2 := Four(0xA, 9, 0xE, 0xA, h3);
    LowerHalfOdd(h3, h2);
    UpperHalfOdd(h2, Four(0xE, 1, 0xE, 0xB, h2), Ecma182());
    GeneratorIsEcma182();
  }
}
