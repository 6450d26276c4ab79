/** Machine words as naturals below 2^n: the bitwise exclusive-or, and words as bit strings. */
module Words {
  import opened Gf2

  function Pow2(n: nat): (p: nat)
    ensures p > 0
  {
    if n == 0 then 1 else 2 * Pow2(n - 1)
  }

  lemma Pow2Values()
    ensures Pow2(8) == 0x100 && Pow2(64) == 0x1_0000_0000_0000_0000
  {
    assert Pow2(4) == 16;
    assert Pow2(8) == 16 * Pow2(4);
    Pow2Doubles(8, 0x100);
    Pow2Doubles(16, 0x1_0000);
    Pow2Doubles(32, 0x1_0000_0000);
  }

  lemma Pow2Doubles(n: nat, p: nat)
    requires Pow2(n) == p
    ensures Pow2(2 * n) == p * p
  {
    Pow2Adds(n, n);
  }

  lemma {:induction false} Pow2Adds(n: nat, m: nat)
    ensures Pow2(n + m) == Pow2(n) * Pow2(m)
  {
    if n > 0 { Pow2Adds(n - 1, m); }
  }

  /** The machine's `^` on n-bit words, bit by bit. */
  function WordXor(a: nat, b: nat, n: nat): (c: nat)
    requires a < Pow2(n) && b < Pow2(n)
    ensures c < Pow2(n)
    decreases n, a, b
  {
    if n == 0 then 0 else 2 * WordXor(a / 2, b / 2, n - 1) + (a + b) % 2
  }

  // The bits of a word, the least significant first.
  function BitsOf(x: nat, n: nat): (s: Bits)
    ensures |s| == n
    decreases n, x
  {
    if n == 0 then [] else [x % 2 == 1] + BitsOf(x / 2, n - 1)
  }

  lemma HalfAndBit(half: nat, bit: nat)
    requires bit < 2
    ensures (2 * half + bit) / 2 == half && (2 * half + bit) % 2 == bit
  {
  }

  lemma BitOfSum(a: nat, b: nat)
    ensures (a + b) % 2 == 1 <==> ((a % 2 == 1) != (b % 2 == 1))
  {
  }

  lemma WordXorSplit(a: nat, b: nat, n: nat)
    requires n > 0 && a < Pow2(n) && b < Pow2(n)
    ensures WordXor(a, b, n) / 2 == WordXor(a / 2, b / 2, n - 1)
    ensures WordXor(a, b, n) % 2 == 1 <==> ((a % 2 == 1) != (b % 2 == 1))
  {
    HalfAndBit(WordXor(a / 2, b / 2, n - 1), (a + b) % 2);
    BitOfSum(a, b);
  }

  lemma {:induction false} XorBits(a: nat, b: nat, n: nat)
    requires a < Pow2(n) && b < Pow2(n)
    ensures BitsOf(WordXor(a, b, n), n) == Xor(BitsOf(a, n), BitsOf(b, n))
    decreases n
  {
    if n > 0 {
      XorBits(a / 2, b / 2, n - 1);
      WordXorSplit(a, b, n);
      XorCons(a % 2 == 1, BitsOf(a / 2, n - 1), b % 2 == 1, BitsOf(b / 2, n - 1));
    }
  }

  lemma {:induction false} BitsInjective(a: nat, b: nat, n: nat)
    requires a < Pow2(n) && b < Pow2(n) && BitsOf(a, n) == BitsOf(b, n)
    ensures a == b
    decreases n
  {
    if n > 0 {
      assert BitsOf(a, n)[0] == BitsOf(b, n)[0];
      assert BitsOf(a, n)[1..] == BitsOf(b, n)[1..];
      BitsInjective(a / 2, b / 2, n - 1);
    }
  }

  lemma {:induction false} BitsOfZero(n: nat)
    ensures BitsOf(0, n) == Zero(n)
    decreases n
  {
    if n > 0 { BitsOfZero(n - 1); }
  }

  /** A word that fits n bits reads, as a wider word, with zeros behind. */
  lemma {:induction false} BitsWiden(x: nat, n: nat, m: nat)
    requires x < Pow2(n)
    ensures BitsOf(x, n + m) == Shifted(BitsOf(x, n), m)
    decreases n
  {
    if n == 0 {
      BitsOfZero(m);
    } else {
      BitsWiden(x / 2, n - 1, m);
    }
  }

  lemma {:induction false} BitsHalf(x: nat, n: nat)
    requires n > 0 && x < Pow2(n)
    ensures BitsOf(x / 2, n) == BitsOf(x, n)[1..] + [false]
    decreases n
  {
    BitsWiden(x / 2, n - 1, 1);
    assert Zero(1) == [false];
  }

  lemma {:induction false} BitsTop(y: nat, top: nat, n: nat)
    requires y < Pow2(n) && top < 2
    ensures BitsOf(y + top * Pow2(n), n + 1) == BitsOf(y, n) + [top == 1]
    decreases n
  {
    if n > 0 {
      assert (y + top * Pow2(n)) / 2 == y / 2 + top * Pow2(n - 1);
      assert (y + top * Pow2(n)) % 2 == y % 2;
      BitsTop(y / 2, top, n - 1);
    }
  }

  lemma OneMoreBit(y: nat, b: nat, n: nat)
    requires b < 2
    ensures BitsOf(2 * y + b, n + 1) == [b == 1] + BitsOf(y, n)
  {
    HalfAndBit(y, b);
  }

  // The word that these bits are, the least significant first.
  function NumberOf(s: Bits): nat {
    if s == [] then 0 else (if s[0] then 1 else 0) + 2 * NumberOf(s[1..])
  }

  lemma {:induction false} BitsBack(s: Bits)
    ensures BitsOf(NumberOf(s), |s|) == s
    decreases |s|
  {
    if s != [] {
      var b := if s[0] then 1 else 0;
      OneMoreBit(NumberOf(s[1..]), b, |s| - 1);
      BitsBack(s[1..]);
    }
  }

  lemma {:induction false} NumberBack(x: nat, n: nat)
    requires x < Pow2(n)
    ensures NumberOf(BitsOf(x, n)) == x
    decreases n
  {
    if n > 0 {
      NumberBack(x / 2, n - 1);
      assert BitsOf(x, n)[1..] == BitsOf(x / 2, n - 1);
    }
  }

  lemma Distribute(bit: nat, x: nat, p: nat, y: nat)
    ensures bit + 2 * (x + p * y) == (bit + 2 * x) + (2 * p) * y
  {
  }

  /** A low and a high part, one behind the other. */
  lemma {:induction false} NumberAdds(s: Bits, t: Bits)
    ensures NumberOf(s + t) == NumberOf(s) + Pow2(|s|) * NumberOf(t)
    decreases |s|
  {
    if s == [] {
      assert s + t == t;
    } else {
      assert (s + t)[1..] == s[1..] + t;
      NumberAdds(s[1..], t);
      Distribute(if s[0] then 1 else 0, NumberOf(s[1..]), Pow2(|s| - 1), NumberOf(t));
    }
  }

  // ----- Bits by their position -----

  /** Bit i of a number: its last bit after i halvings. */
  predicate Bit(x: nat, i: nat)
    decreases i
  {
    if i == 0 then x % 2 == 1 else Bit(x / 2, i - 1)
  }

  lemma {:induction false} BitsAt(x: nat, n: nat, i: nat)
    requires i < n
    ensures BitsOf(x, n)[i] <==> Bit(x, i)
    decreases i
  {
    if i > 0 { BitsAt(x / 2, n - 1, i - 1); }
  }

  lemma {:induction false} AllBitsSet(n: nat, i: nat)
    requires i < n
    ensures BitsOf(Pow2(n) - 1, n)[i]
    decreases n
  {
    assert (Pow2(n) - 1) / 2 == Pow2(n - 1) - 1;
    if i > 0 { AllBitsSet(n - 1, i - 1); }
  }
}
