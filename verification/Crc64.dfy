/** CRC-64/XZ as the driver's bit loop computes it, and its algebra. */
module Crc64 {
  import opened Bytes
  import opened Gf2
  import opened Words

  // The ECMA-182 polynomial, reflected: bit k is the coefficient of x^(63 - k).
  const REFLECTED_POLY: U64 := 0xC96C5795D7870F42
  const ALL_ONES: U64 := 0xFFFF_FFFF_FFFF_FFFF

  function Xor64(a: U64, b: U64): U64 {
    Pow2Values();
    WordXor(a, b, 64)
  }

  // ----- The loop, as functions on the 64-bit register -----

  function BitStep(crc: U64): U64 {
    if crc % 2 == 1 then Xor64(crc / 2, REFLECTED_POLY) else crc / 2
  }

  function BitSteps(crc: U64, n: nat): U64
    decreases n, crc
  {
    if n == 0 then crc else BitSteps(BitStep(crc), n - 1)
  }

  function AbsorbByte(crc: U64, b: Byte): U64 {
    BitSteps(Xor64(crc, b), 8)
  }

  function Absorb(crc: U64, data: seq<Byte>): U64
    decreases |data|
  {
    if data == [] then crc else Absorb(AbsorbByte(crc, data[0]), data[1..])
  }

  function Crc(data: seq<Byte>): U64 {
    Xor64(Absorb(ALL_ONES, data), ALL_ONES)
  }

  lemma {:induction false} BitStepsLast(crc: U64, n: nat)
    ensures BitSteps(crc, n + 1) == BitStep(BitSteps(crc, n))
    decreases n
  {
    if n > 0 { BitStepsLast(BitStep(crc), n - 1); }
  }

  /** Absorbing two strings in turn is absorbing their concatenation. */
  lemma {:induction false} AbsorbComposes(crc: U64, a: seq<Byte>, b: seq<Byte>)
    ensures Absorb(crc, a + b) == Absorb(Absorb(crc, a), b)
    decreases |a|
  {
    if a == [] {
      assert a + b == b;
    } else {
      assert (a + b)[1..] == a[1..] + b;
      AbsorbComposes(AbsorbByte(crc, a[0]), a[1..], b);
    }
  }

  /** e2e_crc64_xz_update: the nested byte and bit loops. */
  method Update(start: U64, data: seq<Byte>) returns (crc: U64)
    ensures crc == Absorb(start, data)
  {
    crc := start;
    for i := 0 to |data|
      invariant crc == Absorb(start, data[..i])
    {
      ghost var before := crc;
      crc := Xor64(crc, data[i]);
      for bit := 0 to 8
        invariant crc == BitSteps(Xor64(before, data[i]), bit)
      {
        BitStepsLast(Xor64(before, data[i]), bit);
        crc := if crc % 2 == 1 then Xor64(crc / 2, REFLECTED_POLY) else crc / 2;
      }
      assert data[..i + 1] == data[..i] + [data[i]];
      AbsorbComposes(start, data[..i], [data[i]]);
      assert Absorb(before, [data[i]]) == crc by { assert [data[i]][1..] == []; }
    }
    assert data[..|data|] == data;
  }

  // ----- The bit loop is a shift register over bit strings -----

  function Reg(crc: U64): (s: Bits)
    ensures |s| == 64
  {
    BitsOf(crc, 64)
  }

  const GENERATOR: Bits := Reg(REFLECTED_POLY)

  lemma RegInjective(a: U64, b: U64)
    requires Reg(a) == Reg(b)
    ensures a == b
  {
    Pow2Values();
    BitsInjective(a, b, 64);
  }

  lemma RegXor(a: U64, b: U64)
    ensures Reg(Xor64(a, b)) == Xor(Reg(a), Reg(b))
  {
    Pow2Values();
    XorBits(a, b, 64);
  }

  // The message as the CRC reads it: byte by byte, least significant bit first.
  function BitsOfBytes(data: seq<Byte>): (s: Bits)
    ensures |s| == 8 * |data|
    decreases |data|
  {
    if data == [] then [] else BitsOf(data[0], 8) + BitsOfBytes(data[1..])
  }

  lemma BitStepIsShift(crc: U64)
    ensures Reg(BitStep(crc)) == Shift(Reg(crc), GENERATOR)
  {
    Pow2Values();
    BitsHalf(crc, 64);
    RegXor(crc / 2, REFLECTED_POLY);
  }

  lemma {:induction false} StepsAreShifts(crc: U64, n: nat, g: Bits)
    requires |g| == 64 && forall c: U64 {:trigger BitStep(c)} :: Reg(BitStep(c)) == Shift(Reg(c), g)
    ensures Reg(BitSteps(crc, n)) == Shifts(Reg(crc), n, g)
    decreases n
  {
    if n > 0 {
      StepsAreShifts(BitStep(crc), n - 1, g);
    }
  }

  lemma BitStepsAreShifts(crc: U64, n: nat)
    ensures Reg(BitSteps(crc, n)) == Shifts(Reg(crc), n, GENERATOR)
  {
    forall c: U64 ensures Reg(BitStep(c)) == Shift(Reg(c), GENERATOR) {
      BitStepIsShift(c);
    }
    StepsAreShifts(crc, n, GENERATOR);
  }

  lemma AbsorbByteIsFeed(crc: U64, b: Byte)
    ensures Reg(AbsorbByte(crc, b)) == Feed(Reg(crc), BitsOf(b, 8), GENERATOR)
  {
    Pow2Values();
    BitsWiden(b, 8, 56);
    RegXor(crc, b);
    BitStepsAreShifts(Xor64(crc, b), 8);
    FeedAtOnce(Reg(crc), BitsOf(b, 8), GENERATOR);
  }

  /** Absorbing bytes feeds their bits to the shift register of the polynomial. */
  lemma {:induction false} AbsorbIsFeed(crc: U64, data: seq<Byte>)
    ensures Reg(Absorb(crc, data)) == Feed(Reg(crc), BitsOfBytes(data), GENERATOR)
    decreases |data|
  {
    if data != [] {
      AbsorbByteIsFeed(crc, data[0]);
      AbsorbIsFeed(AbsorbByte(crc, data[0]), data[1..]);
      FeedComposes(Reg(crc), BitsOf(data[0], 8), BitsOfBytes(data[1..]), GENERATOR);
    }
  }

  lemma {:induction false} BitsOfBytesInjective(a: seq<Byte>, b: seq<Byte>)
    requires |a| == |b| && BitsOfBytes(a) == BitsOfBytes(b)
    ensures a == b
    decreases |a|
  {
    if a != [] {
      Pow2Values();
      assert BitsOfBytes(a)[..8] == BitsOf(a[0], 8) && BitsOfBytes(b)[..8] == BitsOf(b[0], 8);
      assert BitsOfBytes(a)[8..] == BitsOfBytes(a[1..]) && BitsOfBytes(b)[8..] == BitsOfBytes(b[1..]);
      BitsInjective(a[0], b[0], 8);
      BitsOfBytesInjective(a[1..], b[1..]);
    }
  }

  /** The polynomial has a constant term: the top bit of the reflected constant. */
  lemma ConstantTerm()
    ensures GENERATOR[63]
  {
    Pow2Values();
    assert Pow2(64) == 2 * Pow2(63);
    BitsTop(REFLECTED_POLY - 0x8000_0000_0000_0000, 1, 63);
  }

  // ----- What the checksum is -----

  // The message with its first 64 bits complemented (the initial register), times x^64.
  function MessagePolynomial(data: seq<Byte>): (d: Bits)
    ensures |d| == 8 * |data| + 64
  {
    Xor(Shifted(Reg(ALL_ONES), 8 * |data|), Shifted(BitsOfBytes(data), 64))
  }

  function Complement(s: Bits): (t: Bits)
    requires |s| == 64
    ensures |t| == 64
  {
    Xor(s, Reg(ALL_ONES))
  }

  lemma ComplementBack(x: U64)
    ensures Complement(Reg(Xor64(x, ALL_ONES))) == Reg(x)
  {
    RegXor(x, ALL_ONES);
    assert Xor(Xor(Reg(x), Reg(ALL_ONES)), Reg(ALL_ONES)) == Reg(x);
  }

  /**
   * The checksum is the complement of the remainder of the message polynomial modulo the generator,
   * and it is the only string that is: whatever quotient and remainder reconstruct the message
   * polynomial, the remainder is the checksum.
   */
  lemma CrcIsRemainder(data: seq<Byte>)
    ensures Complement(Reg(Crc(data))) == Remainder(MessagePolynomial(data), GENERATOR)
    ensures forall q: Bits, r: Bits {:trigger Dividend(q, r, GENERATOR)} ::
              |q| == 8 * |data| && |r| == 64 && Dividend(q, r, GENERATOR) == MessagePolynomial(data)
              ==> r == Complement(Reg(Crc(data)))
  {
    var d := MessagePolynomial(data);
    AbsorbIsFeed(ALL_ONES, data);
    FeedIsRemainder(Reg(ALL_ONES), BitsOfBytes(data), GENERATOR);
    ComplementBack(Absorb(ALL_ONES, data));
    DivisionExact(d, GENERATOR);
    forall q: Bits, r: Bits | |q| == 8 * |data| && |r| == 64 && Dividend(q, r, GENERATOR) == d
      ensures r == Complement(Reg(Crc(data)))
    {
      DivisionUnique(q, r, Quotient(d, GENERATOR), Remainder(d, GENERATOR), GENERATOR);
    }
  }

  // ----- Which changes the checksum sees -----

  lemma CrcEqualIffRegisterEqual(a: seq<Byte>, b: seq<Byte>)
    ensures Crc(a) == Crc(b) <==> Absorb(ALL_ONES, a) == Absorb(ALL_ONES, b)
  {
    var x, y := Absorb(ALL_ONES, a), Absorb(ALL_ONES, b);
    ComplementBack(x);
    ComplementBack(y);
    if Crc(a) == Crc(b) { RegInjective(x, y); }
  }

  // The two messages agree on every bit outside the `n` bits from `from`.
  ghost predicate AgreeOutside(a: seq<Byte>, b: seq<Byte>, from: nat, n: nat)
    requires |a| == |b|
  {
    var s, t := BitsOfBytes(a), BitsOfBytes(b);
    forall i :: 0 <= i < |s| && !(from <= i < from + n) ==> s[i] == t[i]
  }

  /** Every change confined to 64 consecutive message bits, byte-aligned or not, changes the checksum. */
  lemma BurstDetected(a: seq<Byte>, b: seq<Byte>, from: nat)
    requires |a| == |b| && a != b && AgreeOutside(a, b, from, 64)
    ensures Crc(a) != Crc(b)
  {
    if Crc(a) == Crc(b) {
      CrcEqualIffRegisterEqual(a, b);
      AbsorbIsFeed(ALL_ONES, a);
      AbsorbIsFeed(ALL_ONES, b);
      ConstantTerm();
      BurstSeen(Reg(ALL_ONES), BitsOfBytes(a), BitsOfBytes(b), from, GENERATOR);
      BitsOfBytesInjective(a, b);
    }
  }

  lemma {:induction false} BitsOfBytesAdds(a: seq<Byte>, b: seq<Byte>)
    ensures BitsOfBytes(a + b) == BitsOfBytes(a) + BitsOfBytes(b)
    decreases |a|
  {
    if a == [] {
      assert a + b == b;
    } else {
      assert (a + b)[1..] == a[1..] + b;
      BitsOfBytesAdds(a[1..], b);
    }
  }

  lemma BitsOfThree(x: seq<Byte>, y: seq<Byte>, z: seq<Byte>)
    ensures BitsOfBytes(x + y + z) == BitsOfBytes(x) + BitsOfBytes(y) + BitsOfBytes(z)
  {
    BitsOfBytesAdds(x + y, z);
    BitsOfBytesAdds(x, y);
  }

  lemma SplicesAgree(x: seq<Byte>, v: seq<Byte>, w: seq<Byte>, z: seq<Byte>)
    requires |v| == |w| <= 8
    ensures AgreeOutside(x + v + z, x + w + z, 8 * |x|, 64)
  {
    BitsOfThree(x, v, z);
    BitsOfThree(x, w, z);
  }

  /** In particular every change confined to 8 consecutive bytes. */
  lemma ByteBurstDetected(a: seq<Byte>, b: seq<Byte>, from: nat)
    requires |a| == |b| && a != b
    requires forall i :: 0 <= i < |a| && !(from <= i < from + 8) ==> a[i] == b[i]
    ensures Crc(a) != Crc(b)
  {
    var lo := if from <= |a| then from else |a|;
    var hi := if from + 8 <= |a| then from + 8 else |a|;
    var x, z := a[..lo], a[hi..];
    assert b[..lo] == x && b[hi..] == z;
    assert a == x + a[lo..hi] + z;
    assert b == x + b[lo..hi] + z;
    SplicesAgree(x, a[lo..hi], b[lo..hi], z);
    BurstDetected(a, b, 8 * lo);
  }

  lemma RegisterIsRemainder(data: seq<Byte>)
    ensures Remainder(MessagePolynomial(data), GENERATOR) == Reg(Absorb(ALL_ONES, data))
  {
    AbsorbIsFeed(ALL_ONES, data);
    FeedIsRemainder(Reg(ALL_ONES), BitsOfBytes(data), GENERATOR);
  }

  lemma ComplementsCancel(a: Bits, b: Bits, ones: Bits)
    requires |a| == |b| == |ones|
    ensures Xor(Xor(a, ones), Xor(b, ones)) == Xor(a, b)
  {
  }

  // The difference polynomial of two messages, times x^64.
  function Difference(a: seq<Byte>, b: seq<Byte>): (d: Bits)
    requires |a| == |b|
    ensures |d| == 8 * |a| + 64
  {
    Shifted(Xor(BitsOfBytes(a), BitsOfBytes(b)), 64)
  }

  lemma DifferenceOfPolynomials(a: seq<Byte>, b: seq<Byte>)
    requires |a| == |b|
    ensures Xor(MessagePolynomial(a), MessagePolynomial(b)) == Difference(a, b)
  {
  }

  /** The difference of the checksums is the remainder of the difference of the messages. */
  lemma DifferenceRemainder(a: seq<Byte>, b: seq<Byte>)
    requires |a| == |b|
    ensures Remainder(Difference(a, b), GENERATOR) == Xor(Reg(Crc(a)), Reg(Crc(b)))
  {
    DifferenceOfPolynomials(a, b);
    RemainderLinear(MessagePolynomial(a), MessagePolynomial(b), GENERATOR);
    RegisterIsRemainder(a);
    RegisterIsRemainder(b);
    RegXor(Absorb(ALL_ONES, a), ALL_ONES);
    RegXor(Absorb(ALL_ONES, b), ALL_ONES);
    ComplementsCancel(Reg(Absorb(ALL_ONES, a)), Reg(Absorb(ALL_ONES, b)), Reg(ALL_ONES));
  }

  lemma EqualIffNoDifference(x: U64, y: U64)
    ensures x == y <==> Xor(Reg(x), Reg(y)) == Zero(64)
  {
    XorZeroIffEqual(Reg(x), Reg(y));
    if Reg(x) == Reg(y) { RegInjective(x, y); }
  }

  /**
   * Exactly which changes go unseen, with no bound on the change: those whose difference polynomial,
   * times x^64, is a multiple of the generator.
   */
  lemma UnseenIffMultiple(a: seq<Byte>, b: seq<Byte>)
    requires |a| == |b|
    ensures Crc(a) == Crc(b) <==> exists q: Bits :: |q| == 8 * |a| && Times(q, GENERATOR) == Difference(a, b)
  {
    DifferenceRemainder(a, b);
    MultipleIffNoRemainder(Difference(a, b), GENERATOR);
    EqualIffNoDifference(Crc(a), Crc(b));
  }

  /** A message with a checksum behind it, as one polynomial. */
  function Codeword(data: seq<Byte>, crc: U64): (c: Bits)
    ensures |c| == 8 * |data| + 64
  {
    BitsOfBytes(data) + Reg(crc)
  }

  lemma CodewordDifference(a: seq<Byte>, ca: U64, b: seq<Byte>, cb: U64)
    requires |a| == |b|
    ensures Xor(Codeword(a, ca), Codeword(b, cb)) == Xor(Difference(a, b), Zero(8 * |a|) + Xor(Reg(ca), Reg(cb)))
  {
  }

  /**
   * Exactly which changes of message and checksum together go unseen: from a message with its own
   * checksum, those that add a multiple of the generator to the codeword.
   */
  lemma CodewordIffMultiple(a: seq<Byte>, b: seq<Byte>, crc: U64)
    requires |a| == |b|
    ensures Crc(b) == crc
       <==> exists q: Bits :: |q| == 8 * |a| && Times(q, GENERATOR) == Xor(Codeword(a, Crc(a)), Codeword(b, crc))
  {
    var d := Xor(Codeword(a, Crc(a)), Codeword(b, crc));
    var field := Xor(Reg(Crc(a)), Reg(crc));
    CodewordDifference(a, Crc(a), b, crc);
    RemainderLinear(Difference(a, b), Zero(8 * |a|) + field, GENERATOR);
    RemainderOfShort(8 * |a|, field, GENERATOR);
    DifferenceRemainder(a, b);
    assert Xor(Xor(Reg(Crc(a)), Reg(Crc(b))), field) == Xor(Reg(Crc(b)), Reg(crc));
    MultipleIffNoRemainder(d, GENERATOR);
    EqualIffNoDifference(Crc(b), crc);
  }

  // ----- Linearity in the register and the data together -----

  function XorBytes(a: seq<Byte>, b: seq<Byte>): (c: seq<Byte>)
    requires |a| == |b|
    ensures |c| == |a|
  {
    Pow2Values();
    seq(|a|, i requires 0 <= i < |a| => WordXor(a[i], b[i], 8))
  }

  lemma XorFirstByte(a: seq<Byte>, b: seq<Byte>)
    requires |a| == |b| && a != []
    ensures BitsOf(XorBytes(a, b)[0], 8) == Xor(BitsOf(a[0], 8), BitsOf(b[0], 8))
  {
    Pow2Values();
    XorBits(a[0], b[0], 8);
  }

  lemma XorOtherBytes(a: seq<Byte>, b: seq<Byte>)
    requires |a| == |b| && a != []
    ensures XorBytes(a, b)[1..] == XorBytes(a[1..], b[1..])
  {
    var x, y := XorBytes(a, b)[1..], XorBytes(a[1..], b[1..]);
    assert forall i :: 0 <= i < |x| ==> x[i] == y[i];
  }

  lemma {:induction false} XorBytesBits(a: seq<Byte>, b: seq<Byte>)
    requires |a| == |b|
    ensures BitsOfBytes(XorBytes(a, b)) == Xor(BitsOfBytes(a), BitsOfBytes(b))
    decreases |a|
  {
    if a != [] {
      XorFirstByte(a, b);
      XorOtherBytes(a, b);
      XorBytesBits(a[1..], b[1..]);
      XorAdds(BitsOf(a[0], 8), BitsOfBytes(a[1..]), BitsOf(b[0], 8), BitsOfBytes(b[1..]));
    }
  }

  /** The register is linear, over xor, in its start value and the data together. */
  lemma AbsorbLinear(x: U64, y: U64, a: seq<Byte>, b: seq<Byte>)
    requires |a| == |b|
    ensures Absorb(Xor64(x, y), XorBytes(a, b)) == Xor64(Absorb(x, a), Absorb(y, b))
  {
    var l, r := Absorb(Xor64(x, y), XorBytes(a, b)), Xor64(Absorb(x, a), Absorb(y, b));
    AbsorbIsFeed(Xor64(x, y), XorBytes(a, b));
    AbsorbIsFeed(x, a);
    AbsorbIsFeed(y, b);
    RegXor(x, y);
    XorBytesBits(a, b);
    RegXor(Absorb(x, a), Absorb(y, b));
    FeedLinear(Reg(x), BitsOfBytes(a), Reg(y), BitsOfBytes(b), GENERATOR);
    RegInjective(l, r);
  }

  // ----- A big-endian field, as bits -----

  function Backwards(p: seq<Byte>): (r: seq<Byte>)
    ensures |r| == |p|
  {
    seq(|p|, i requires 0 <= i < |p| => p[|p| - 1 - i])
  }

  lemma BackwardsAdds(a: seq<Byte>, b: seq<Byte>)
    ensures Backwards(a + b) == Backwards(b) + Backwards(a)
  {
  }

  lemma OneByte(b: Byte)
    ensures BitsOfBytes([b]) == BitsOf(b, 8)
  {
    assert [b][1..] == [];
  }

  lemma LastByte(p: seq<Byte>, b: Byte)
    ensures BitsOfBytes(Backwards(p + [b])) == BitsOf(b, 8) + BitsOfBytes(Backwards(p))
  {
    BackwardsAdds(p, [b]);
    assert Backwards([b]) == [b];
    OneByte(b);
    BitsOfBytesAdds([b], Backwards(p));
  }

  // The number whose bits are those of the bytes from the last to the first.
  function Number(p: seq<Byte>): nat {
    NumberOf(BitsOfBytes(Backwards(p)))
  }

  lemma NumberLast(p: seq<Byte>, b: Byte)
    ensures Number(p + [b]) == b + 0x100 * Number(p)
  {
    LastByte(p, b);
    Pow2Values();
    NumberAdds(BitsOf(b, 8), BitsOfBytes(Backwards(p)));
    NumberBack(b, 8);
  }

  lemma NumberMore(p: seq<Byte>, at: nat)
    requires at < |p|
    ensures Number(p[..at + 1]) == p[at] + 0x100 * Number(p[..at])
  {
    assert p[..at] + [p[at]] == p[..at + 1];
    NumberLast(p[..at], p[at]);
  }

  lemma NumberOfFour(p: seq<Byte>, at: nat)
    requires at + 4 <= |p|
    ensures Number(p[..at + 4]) == UnpackBe32(p, at) + 0x1_0000_0000 * Number(p[..at])
  {
    NumberMore(p, at);
    NumberMore(p, at + 1);
    NumberMore(p, at + 2);
    NumberMore(p, at + 3);
  }

  lemma NumberOfField(p: seq<Byte>)
    requires |p| >= 8
    ensures Number(p[..8]) == UnpackBe64(p, 0)
  {
    NumberOfFour(p, 0);
    NumberOfFour(p, 4);
    assert Number(p[..0]) == 0;
  }

  /** The register holds the bytes of a big-endian field from the last to the first. */
  lemma Be64Bits(p: seq<Byte>)
    requires |p| >= 8
    ensures Reg(UnpackBe64(p, 0)) == BitsOfBytes(Backwards(p[..8]))
  {
    NumberOfField(p);
    BitsBack(BitsOfBytes(Backwards(p[..8])));
  }

  lemma {:induction false} OddBackwards(p: seq<Byte>)
    ensures Odd(BitsOfBytes(Backwards(p))) <==> Odd(BitsOfBytes(p))
    decreases |p|
  {
    if p != [] {
      OddBackwards(p[1..]);
      assert p == [p[0]] + p[1..];
      BackwardsAdds([p[0]], p[1..]);
      assert Backwards([p[0]]) == [p[0]];
      BitsOfBytesAdds(Backwards(p[1..]), [p[0]]);
      OneByte(p[0]);
      OddAdds(BitsOfBytes(Backwards(p[1..])), BitsOf(p[0], 8));
      OddAdds(BitsOf(p[0], 8), BitsOfBytes(p[1..]));
    }
  }

  // ----- The message polynomial and the checksum, bit by bit -----

  /** Bit 8 k + j of a message is bit j of byte k. */
  lemma {:induction false} MessageBit(data: seq<Byte>, k: nat, j: nat)
    requires k < |data| && j < 8
    ensures BitsOfBytes(data)[8 * k + j] <==> Bit(data[k], j)
    decreases k
  {
    if k == 0 {
      BitsAt(data[0], 8, j);
    } else {
      MessageBit(data[1..], k - 1, j);
      assert BitsOfBytes(data)[8 * k + j] == BitsOfBytes(data[1..])[8 * (k - 1) + j];
    }
  }

  lemma OnesSet(i: nat)
    requires i < 64
    ensures Reg(ALL_ONES)[i]
  {
    Pow2Values();
    AllBitsSet(64, i);
  }

  /** The polynomial divided: the message's bits, 64 zeros behind them, and the first 64 of all these inverted. */
  lemma PolynomialBit(data: seq<Byte>, i: nat)
    requires i < 8 * |data| + 64
    ensures MessagePolynomial(data)[i] <==> ((i < 64) != (i < 8 * |data| && BitsOfBytes(data)[i]))
  {
    if i < 64 { OnesSet(i); }
  }

  /** And the checksum read off the remainder: every bit inverted, and the highest power in the lowest bit. */
  lemma CrcBit(data: seq<Byte>, i: nat)
    requires i < 64
    ensures Bit(Crc(data), i) <==> !Remainder(MessagePolynomial(data), GENERATOR)[i]
  {
    Pow2Values();
    OnesSet(i);
    CrcIsRemainder(data);
    BitsAt(Crc(data), 64, i);
  }
}
