/**
 * Polynomials over GF(2) as bit strings, the highest power first, and schoolbook division by a
 * monic divisor: the independent definition that the CRC loop is measured against.
 */
module Gf2 {

  type Bits = seq<bool>

  function Zero(n: nat): (z: Bits)
    ensures |z| == n && forall i :: 0 <= i < n ==> !z[i]
  {
    seq(n, _ => false)
  }

  function Xor(a: Bits, b: Bits): (c: Bits)
    requires |a| == |b|
    ensures |c| == |a| && forall i :: 0 <= i < |a| ==> c[i] == (a[i] != b[i])
  {
    seq(|a|, i requires 0 <= i < |a| => a[i] != b[i])
  }

  // `a` written with `n` lower-order zeros after it: a times x^n.
  function Shifted(a: Bits, n: nat): (c: Bits)
    ensures |c| == |a| + n
  {
    a + Zero(n)
  }

  // `a` written with zero leading coefficients up to `n` bits in all.
  function Padded(a: Bits, n: nat): (c: Bits)
    requires |a| <= n
    ensures |c| == n
  {
    Zero(n - |a|) + a
  }

  /** The product of `q` with the monic polynomial x^|g| + g. */
  function Times(q: Bits, g: Bits): (c: Bits)
    ensures |c| == |q| + |g|
  {
    if q == [] then Zero(|g|)
    else Xor(if q[0] then Shifted([true] + g, |q| - 1) else Zero(|q| + |g|), [false] + Times(q[1..], g))
  }

  /** One step of long division: clear the leading coefficient with the divisor, then drop it. */
  function Reduce(d: Bits, g: Bits): (r: Bits)
    requires |d| > |g|
    ensures |r| == |d| - 1
  {
    (if d[0] then Xor(d, Shifted([true] + g, |d| - |g| - 1)) else d)[1..]
  }

  function Remainder(d: Bits, g: Bits): (r: Bits)
    requires |d| >= |g|
    ensures |r| == |g|
    decreases |d|
  {
    if |d| == |g| then d else Remainder(Reduce(d, g), g)
  }

  function Quotient(d: Bits, g: Bits): (q: Bits)
    requires |d| >= |g|
    ensures |q| == |d| - |g|
    decreases |d|
  {
    if |d| == |g| then [] else [d[0]] + Quotient(Reduce(d, g), g)
  }

  lemma XorSwap(a: Bits, b: Bits, c: Bits)
    requires |a| == |b| == |c|
    ensures Xor(Xor(a, b), c) == Xor(Xor(a, c), b)
  {
  }

  lemma XorOrder(a: Bits, b: Bits, c: Bits)
    requires |a| == |b| == |c|
    ensures Xor(Xor(a, c), Xor(b, c)) == Xor(a, b) && Xor(a, Xor(b, c)) == Xor(Xor(a, b), c)
  {
  }

  lemma XorCons(a: bool, s: Bits, b: bool, t: Bits)
    requires |s| == |t|
    ensures Xor([a] + s, [b] + t) == [a != b] + Xor(s, t)
  {
  }

  lemma XorAdds(a: Bits, s: Bits, b: Bits, t: Bits)
    requires |a| == |b| && |s| == |t|
    ensures Xor(a + s, b + t) == Xor(a, b) + Xor(s, t)
  {
  }

  lemma XorTail(a: Bits, b: Bits)
    requires |a| == |b| > 0
    ensures Xor(a, b)[1..] == Xor(a[1..], b[1..])
  {
  }

  lemma XorCancel(a: Bits, b: Bits)
    requires |a| == |b|
    ensures Xor(b, Xor(b, a)) == a
  {
  }

  // The dividend that `q` and `r` stand for.
  function Dividend(q: Bits, r: Bits, g: Bits): (d: Bits)
    requires |r| == |g|
    ensures |d| == |q| + |g|
  {
    Xor(Times(q, g), Padded(r, |q| + |g|))
  }

  // What the leading quotient coefficient contributes to a dividend of `n` bits.
  function Leading(b: bool, n: nat, g: Bits): (d: Bits)
    requires n > |g|
    ensures |d| == n && d[0] == b
  {
    if b then Shifted([true] + g, n - |g| - 1) else Zero(n)
  }

  lemma TimesSplit(q: Bits, g: Bits)
    requires q != []
    ensures Times(q, g) == Xor(Leading(q[0], |q| + |g|, g), [false] + Times(q[1..], g))
  {
  }

  lemma XorBehind(m: Bits, u: Bits, r: Bits)
    requires |u| == |r| && |m| == |u| + 1
    ensures Xor(Xor(m, [false] + u), [false] + r) == Xor(m, [false] + Xor(u, r))
  {
  }

  lemma PaddedMore(r: Bits, n: nat)
    requires |r| <= n
    ensures Padded(r, n + 1) == [false] + Padded(r, n)
  {
  }

  lemma DividendSplit(q: Bits, r: Bits, g: Bits)
    requires |r| == |g| && q != []
    ensures Dividend(q, r, g) == Xor(Leading(q[0], |q| + |g|, g), [false] + Dividend(q[1..], r, g))
  {
    var n := |q| + |g|;
    TimesSplit(q, g);
    PaddedMore(r, n - 1);
    XorBehind(Leading(q[0], n, g), Times(q[1..], g), Padded(r, n - 1));
  }

  lemma ReduceSplit(d: Bits, g: Bits)
    requires |d| > |g|
    ensures d == Xor(Leading(d[0], |d|, g), [false] + Reduce(d, g))
  {
    var m := Leading(d[0], |d|, g);
    assert forall i :: 0 < i < |d| ==> ([false] + Reduce(d, g))[i] == (d[i] != m[i]);
  }

  /** Quotient and remainder reconstruct the dividend. */
  lemma {:induction false} DivisionExact(d: Bits, g: Bits)
    requires |d| >= |g|
    ensures d == Dividend(Quotient(d, g), Remainder(d, g), g)
    decreases |d|
  {
    if |d| == |g| {
      assert Dividend([], d, g) == d;
    } else {
      var q := Quotient(d, g);
      DivisionExact(Reduce(d, g), g);
      assert q[1..] == Quotient(Reduce(d, g), g);
      DividendSplit(q, Remainder(d, g), g);
      ReduceSplit(d, g);
    }
  }

  /** No other quotient and remainder do. */
  lemma {:induction false} DivisionUnique(q: Bits, r: Bits, q': Bits, r': Bits, g: Bits)
    requires |q| == |q'| && |r| == |g| && |r'| == |g|
    requires Dividend(q, r, g) == Dividend(q', r', g)
    ensures q == q' && r == r'
    decreases |q|
  {
    if q == [] {
      assert Dividend(q, r, g) == r && Dividend(q', r', g) == r';
    } else {
      var t, t' := [false] + Dividend(q[1..], r, g), [false] + Dividend(q'[1..], r', g);
      DividendSplit(q, r, g);
      DividendSplit(q', r', g);
      var m := Leading(q[0], |q| + |g|, g);
      assert q[0] == q'[0] by {
        assert Xor(m, t)[0] == q[0];
        assert Xor(Leading(q'[0], |q| + |g|, g), t')[0] == q'[0];
      }
      XorCancel(t, m);
      XorCancel(t', m);
      assert Xor(m, Xor(m, t)) == t && Xor(m, Xor(m, t')) == t';
      assert t[1..] == Dividend(q[1..], r, g) && t'[1..] == Dividend(q'[1..], r', g);
      DivisionUnique(q[1..], r, q'[1..], r', g);
    }
  }

  /** Division is linear over xor. */
  lemma {:induction false} RemainderLinear(d: Bits, e: Bits, g: Bits)
    requires |d| == |e| >= |g|
    ensures Remainder(Xor(d, e), g) == Xor(Remainder(d, g), Remainder(e, g))
    decreases |d|
  {
    if |d| > |g| {
      assert Reduce(Xor(d, e), g) == Xor(Reduce(d, g), Reduce(e, g));
      RemainderLinear(Reduce(d, g), Reduce(e, g), g);
    }
  }

  lemma NoRemainder(q: Bits, g: Bits)
    ensures Dividend(q, Zero(|g|), g) == Times(q, g)
  {
  }

  /** A polynomial leaves no remainder exactly when it is a multiple of the divisor. */
  lemma MultipleIffNoRemainder(d: Bits, g: Bits)
    requires |d| >= |g|
    ensures Remainder(d, g) == Zero(|g|) <==> exists q: Bits :: |q| == |d| - |g| && Times(q, g) == d
  {
    DivisionExact(d, g);
    if Remainder(d, g) == Zero(|g|) {
      NoRemainder(Quotient(d, g), g);
    }
    if q: Bits :| |q| == |d| - |g| && Times(q, g) == d {
      NoRemainder(q, g);
      DivisionUnique(q, Zero(|g|), Quotient(d, g), Remainder(d, g), g);
    }
  }

  /** A polynomial of lower degree than the divisor is its own remainder. */
  lemma {:induction false} RemainderOfShort(n: nat, r: Bits, g: Bits)
    requires |r| == |g|
    ensures Remainder(Zero(n) + r, g) == r
    decreases n
  {
    if n == 0 {
      assert Zero(0) + r == r;
    } else {
      assert Reduce(Zero(n) + r, g) == Zero(n - 1) + r;
      RemainderOfShort(n - 1, r, g);
    }
  }

  // ----- Parity -----

  /** Whether a polynomial has an odd number of terms. */
  function Odd(s: Bits): bool {
    s != [] && (s[0] != Odd(s[1..]))
  }

  lemma {:induction false} OddAdds(a: Bits, b: Bits)
    ensures Odd(a + b) <==> (Odd(a) != Odd(b))
    decreases |a|
  {
    if a == [] {
      assert a + b == b;
    } else {
      assert (a + b)[1..] == a[1..] + b;
      OddAdds(a[1..], b);
    }
  }

  lemma {:induction false} OddXor(a: Bits, b: Bits)
    requires |a| == |b|
    ensures Odd(Xor(a, b)) <==> (Odd(a) != Odd(b))
    decreases |a|
  {
    if a != [] {
      assert Xor(a, b)[1..] == Xor(a[1..], b[1..]);
      OddXor(a[1..], b[1..]);
    }
  }

  lemma {:induction false} OddZero(n: nat)
    ensures !Odd(Zero(n))
    decreases n
  {
    if n > 0 {
      assert Zero(n)[1..] == Zero(n - 1);
      OddZero(n - 1);
    }
  }

  // A monic polynomial x^|g| + g with an even number of terms, or none, with zeros behind.
  lemma LeadingIsEven(b: bool, n: nat, g: Bits)
    requires n > |g| && Odd(g)
    ensures !Odd(Leading(b, n, g))
  {
    OddZero(n);
    OddZero(n - |g| - 1);
    OddAdds([true], g);
    OddAdds([true] + g, Zero(n - |g| - 1));
    assert [true][1..] == [];
  }

  /** If x + 1 divides the divisor, its multiples have an even number of terms. */
  lemma {:induction false} MultipleIsEven(q: Bits, g: Bits)
    requires Odd(g)
    ensures !Odd(Times(q, g))
    decreases |q|
  {
    if q == [] {
      OddZero(|g|);
    } else {
      var n := |q| + |g|;
      TimesSplit(q, g);
      LeadingIsEven(q[0], n, g);
      MultipleIsEven(q[1..], g);
      OddAdds([false], Times(q[1..], g));
      assert [false][1..] == [];
      OddXor(Leading(q[0], n, g), [false] + Times(q[1..], g));
    }
  }

  // ----- The shift register -----

  function Up(s: Bits): (t: Bits)
    requires s != []
    ensures |t| == |s|
  {
    s[1..] + [false]
  }

  /** One clock: shift towards the head, folding the generator in when a set bit falls out. */
  function Shift(s: Bits, g: Bits): (t: Bits)
    requires |s| == |g| > 0
    ensures |t| == |s|
  {
    if s[0] then Xor(Up(s), g) else Up(s)
  }

  lemma UpXor(a: Bits, b: Bits)
    requires |a| == |b| > 0
    ensures Up(Xor(a, b)) == Xor(Up(a), Up(b))
  {
  }

  lemma ShiftedXor(a: Bits, b: Bits, n: nat)
    requires |a| == |b|
    ensures Shifted(Xor(a, b), n) == Xor(Shifted(a, n), Shifted(b, n))
  {
  }

  function Shifts(s: Bits, n: nat, g: Bits): (t: Bits)
    requires |s| == |g| > 0
    ensures |t| == |s|
    decreases n, |s|
  {
    if n == 0 then s else Shifts(Shift(s, g), n - 1, g)
  }

  lemma ShiftsFirst(s: Bits, next: Bits, n: nat, g: Bits)
    requires |s| == |g| > 0 && next == Shift(s, g)
    ensures Shifts(s, n + 1, g) == Shifts(next, n, g)
  {
  }

  /** Feed message bits, first to last, into the head of the register. */
  function Feed(s: Bits, m: Bits, g: Bits): (t: Bits)
    requires |s| == |g| > 0
    ensures |t| == |s|
    decreases |m|
  {
    if m == [] then s else Feed(Shift(s[0 := s[0] != m[0]], g), m[1..], g)
  }

  lemma FeedFirst(s: Bits, m: Bits, next: Bits, g: Bits)
    requires |s| == |g| > 0 && m != [] && next == Shift(s[0 := s[0] != m[0]], g)
    ensures Feed(s, m, g) == Feed(next, m[1..], g)
  {
  }

  lemma {:induction false} FeedComposes(s: Bits, m: Bits, n: Bits, g: Bits)
    requires |s| == |g| > 0
    ensures Feed(s, m + n, g) == Feed(Feed(s, m, g), n, g)
    decreases |m|
  {
    if m == [] {
      assert m + n == n;
    } else {
      assert (m + n)[1..] == m[1..] + n;
      FeedComposes(Shift(s[0 := s[0] != m[0]], g), m[1..], n, g);
    }
  }

  // Clocking commutes with adding bits that are not yet at the head.
  lemma ShiftBehindHead(s: Bits, b: bool, w: Bits, g: Bits)
    requires |s| == |g| > 0 && |w| + 1 <= |g|
    ensures Shift(Xor(s, Shifted([b] + w, |g| - |w| - 1)), g)
         == Xor(Shift(s[0 := s[0] != b], g), Shifted(w, |g| - |w|))
  {
    var x := Shifted([b] + w, |g| - |w| - 1);
    var s' := s[0 := s[0] != b];
    assert Up(s') == Up(s);
    UpXor(s, x);
    assert Up(x) == Shifted(w, |g| - |w|);
    XorSwap(Up(s), Up(x), g);
  }

  lemma FirstBehindHead(s: Bits, w: Bits, x: Bits, next: Bits, g: Bits)
    requires |s| == |g| > 0 && 0 < |w| <= |g|
    requires x == Xor(s, Shifted(w, |g| - |w|)) && next == Shift(s[0 := s[0] != w[0]], g)
    ensures Shift(x, g) == Xor(next, Shifted(w[1..], |g| - |w| + 1))
  {
    assert w == [w[0]] + w[1..];
    ShiftBehindHead(s, w[0], w[1..], g);
  }

  /** Feeding up to a register's width of bits is adding them all at once and then clocking. */
  lemma {:induction false} FeedAtOnce(s: Bits, w: Bits, g: Bits)
    requires |s| == |g| > 0 && |w| <= |g|
    ensures Feed(s, w, g) == Shifts(Xor(s, Shifted(w, |g| - |w|)), |w|, g)
    decreases |w|
  {
    if w == [] {
      assert Xor(s, Shifted([], |g|)) == s;
    } else {
      var x := Xor(s, Shifted(w, |g| - |w|));
      var next := Shift(s[0 := s[0] != w[0]], g);
      FirstBehindHead(s, w, x, next, g);
      FeedAtOnce(next, w[1..], g);
      ShiftsFirst(x, Shift(x, g), |w| - 1, g);
      FeedFirst(s, w, next, g);
    }
  }

  /** With a set constant term, a clock can be undone. */
  lemma ShiftInjective(s: Bits, t: Bits, g: Bits)
    requires |s| == |t| == |g| > 0 && g[|g| - 1]
    requires Shift(s, g) == Shift(t, g)
    ensures s == t
  {
    assert Shift(s, g)[|g| - 1] == s[0] && Shift(t, g)[|g| - 1] == t[0];
    assert forall i :: 0 < i < |g| ==> Shift(s, g)[i - 1] == (s[i] != (s[0] && g[i - 1]));
    assert forall i :: 0 < i < |g| ==> Shift(t, g)[i - 1] == (t[i] != (t[0] && g[i - 1]));
  }

  lemma {:induction false} ShiftsInjective(s: Bits, t: Bits, n: nat, g: Bits)
    requires |s| == |t| == |g| > 0 && g[|g| - 1]
    requires Shifts(s, n, g) == Shifts(t, n, g)
    ensures s == t
    decreases n
  {
    if n > 0 {
      ShiftsInjective(Shift(s, g), Shift(t, g), n - 1, g);
      ShiftInjective(s, t, g);
    }
  }

  lemma {:induction false} FeedInjective(s: Bits, t: Bits, m: Bits, g: Bits)
    requires |s| == |t| == |g| > 0 && g[|g| - 1]
    requires Feed(s, m, g) == Feed(t, m, g)
    ensures s == t
    decreases |m|
  {
    if m != [] {
      var s', t' := s[0 := s[0] != m[0]], t[0 := t[0] != m[0]];
      FeedInjective(Shift(s', g), Shift(t', g), m[1..], g);
      ShiftInjective(s', t', g);
      assert forall i :: 0 <= i < |s| ==> s'[i] == (if i == 0 then s[0] != m[0] else s[i]);
      assert forall i :: 0 <= i < |s| ==> t'[i] == (if i == 0 then t[0] != m[0] else t[i]);
    }
  }

  lemma WindowSeen(s: Bits, v: Bits, w: Bits, g: Bits)
    requires |s| == |g| > 0 && g[|g| - 1]
    requires |v| == |w| <= |g|
    requires Feed(s, v, g) == Feed(s, w, g)
    ensures v == w
  {
    var x, y := Shifted(v, |g| - |v|), Shifted(w, |g| - |w|);
    FeedAtOnce(s, v, g);
    FeedAtOnce(s, w, g);
    ShiftsInjective(Xor(s, x), Xor(s, y), |v|, g);
    XorCancel(x, s);
    XorCancel(y, s);
    assert x[..|v|] == v && y[..|w|] == w;
  }

  lemma SliceThree(a: Bits, from: nat, to: nat)
    requires from <= to <= |a|
    ensures a == a[..from] + a[from..to] + a[to..]
  {
  }

  lemma FeedThree(s: Bits, head: Bits, v: Bits, tail: Bits, g: Bits)
    requires |s| == |g| > 0
    ensures Feed(s, head + v + tail, g) == Feed(Feed(Feed(s, head, g), v, g), tail, g)
  {
    FeedComposes(s, head + v, tail, g);
    FeedComposes(s, head, v, g);
  }

  lemma MiddleSeen(s: Bits, head: Bits, v: Bits, w: Bits, tail: Bits, g: Bits)
    requires |s| == |g| > 0 && g[|g| - 1]
    requires |v| == |w| <= |g|
    requires Feed(s, head + v + tail, g) == Feed(s, head + w + tail, g)
    ensures v == w
  {
    FeedThree(s, head, v, tail, g);
    FeedThree(s, head, w, tail, g);
    var s1 := Feed(s, head, g);
    FeedInjective(Feed(s1, v, g), Feed(s1, w, g), tail, g);
    WindowSeen(s1, v, w, g);
  }

  lemma OutsideWindow(a: Bits, b: Bits, from: nat, to: nat)
    requires |a| == |b| && from <= to <= |a|
    requires forall i :: 0 <= i < |a| && !(from <= i < to) ==> a[i] == b[i]
    ensures a[..from] == b[..from] && a[to..] == b[to..]
  {
  }

  /**
   * A burst no longer than the register is never absorbed: messages that agree outside a window
   * of |g| bits and leave the register in the same state are the same message.
   */
  lemma BurstSeen(s: Bits, a: Bits, b: Bits, from: nat, g: Bits)
    requires |s| == |g| > 0 && g[|g| - 1]
    requires |a| == |b|
    requires forall i :: 0 <= i < |a| && !(from <= i < from + |g|) ==> a[i] == b[i]
    requires Feed(s, a, g) == Feed(s, b, g)
    ensures a == b
  {
    if from < |a| {
      var to := if from + |g| < |a| then from + |g| else |a|;
      SliceThree(a, from, to);
      SliceThree(b, from, to);
      OutsideWindow(a, b, from, to);
      MiddleSeen(s, a[..from], a[from..to], b[from..to], a[to..], g);
    }
  }

  lemma XorZeroIffEqual(a: Bits, b: Bits)
    requires |a| == |b|
    ensures Xor(a, b) == Zero(|a|) <==> a == b
  {
    if Xor(a, b) == Zero(|a|) {
      assert forall i :: 0 <= i < |a| ==> !Xor(a, b)[i];
    }
  }

  lemma FeedStepLinear(s: Bits, c: bool, t: Bits, d: bool, g: Bits)
    requires |s| == |t| == |g| > 0
    ensures Shift(Xor(s, t)[0 := Xor(s, t)[0] != (c != d)], g)
         == Xor(Shift(s[0 := s[0] != c], g), Shift(t[0 := t[0] != d], g))
  {
    assert Up(Xor(s, t)[0 := Xor(s, t)[0] != (c != d)]) == Up(Xor(s, t));
    assert Up(s[0 := s[0] != c]) == Up(s) && Up(t[0 := t[0] != d]) == Up(t);
    UpXor(s, t);
    XorSwap(Up(s), Up(t), g);
    XorSwap(Up(s), g, Up(t));
    XorOrder(Up(s), Up(t), g);
  }

  /** The register is linear in its start value and the message together. */
  lemma {:induction false} FeedLinear(s: Bits, m: Bits, t: Bits, n: Bits, g: Bits)
    requires |s| == |t| == |g| > 0 && |m| == |n|
    ensures Feed(Xor(s, t), Xor(m, n), g) == Xor(Feed(s, m, g), Feed(t, n, g))
    decreases |m|
  {
    if m != [] {
      FeedStepLinear(s, m[0], t, n[0], g);
      assert Xor(m, n)[1..] == Xor(m[1..], n[1..]);
      FeedLinear(Shift(s[0 := s[0] != m[0]], g), m[1..], Shift(t[0 := t[0] != n[0]], g), n[1..], g);
    }
  }

  // ----- The shift register is long division -----

  // Adding the register in front of the unread message, one clock is one reduction.
  lemma ShiftIsReduce(s: Bits, m: Bits, g: Bits)
    requires |s| == |g| > 0 && m != []
    ensures Reduce(Xor(Shifted(s, |m|), Shifted(m, |g|)), g)
         == Xor(Shifted(Shift(s[0 := s[0] != m[0]], g), |m| - 1), Shifted(m[1..], |g|))
  {
    var n := |m| - 1;
    var s' := s[0 := s[0] != m[0]];
    var x, y := Shifted(s, n + 1), Shifted(m, |g|);
    var d := Xor(x, y);
    assert Up(s') == Up(s);
    assert x[1..] == Shifted(Up(s), n) && y[1..] == Shifted(m[1..], |g|);
    XorTail(x, y);
    XorTail(d, Shifted([true] + g, n));
    assert Shifted([true] + g, n)[1..] == Shifted(g, n);
    XorSwap(x[1..], y[1..], Shifted(g, n));
    ShiftedXor(Up(s), g, n);
  }

  /**
   * The register after a message is the remainder, modulo the generator, of the message times
   * x^|g| plus the start value times x^|m|.
   */
  lemma {:induction false} FeedIsRemainder(s: Bits, m: Bits, g: Bits)
    requires |s| == |g| > 0
    ensures Feed(s, m, g) == Remainder(Xor(Shifted(s, |m|), Shifted(m, |g|)), g)
    decreases |m|
  {
    if m == [] {
      assert Xor(Shifted(s, 0), Shifted(m, |g|)) == s;
    } else {
      ShiftIsReduce(s, m, g);
      FeedIsRemainder(Shift(s[0 := s[0] != m[0]], g), m[1..], g);
    }
  }
}
