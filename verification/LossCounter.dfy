/** The packet statistics of deliver_rdi_frame, in wrapping 32-bit arithmetic. */
module LossCounter {
  import opened Bytes

  const MODULUS: int := 0x1_0000_0000

  function Wrap(x: int): U32 {
    x % MODULUS
  }

  // How often x wraps.
  lemma Turns(x: int) returns (k: int)
    ensures x == Wrap(x) + k * MODULUS
  {
    k := x / MODULUS;
  }

  datatype Stats = Stats(total: U32, lost: U32, last: U32, first: bool)

  const FRESH := Stats(0, 0, 0, true)

  /** One delivery with this message counter. */
  function Counted(s: Stats, counter: U32): Stats {
    var expected := Wrap(s.last + 1);
    var lost := if !s.first && counter != expected then Wrap(s.lost + Wrap(counter - expected)) else s.lost;
    Stats(Wrap(s.total + 1), lost, counter, false)
  }

  function CountedAll(counters: seq<U32>): Stats {
    if counters == [] then FRESH
    else Counted(CountedAll(counters[..|counters| - 1]), counters[|counters| - 1])
  }

  lemma WrapsTo(x: int, w: int, k: int)
    requires 0 <= w < MODULUS && x == w + k * MODULUS
    ensures Wrap(x) == w
  {
  }

  // A gap adds, up to wrap-around, the counters skipped between the last delivery and this one.
  lemma GapIsExact(s: Stats, counter: U32) returns (k: int)
    requires !s.first
    ensures Counted(s, counter).lost == s.lost + (counter - s.last - 1) + k * MODULUS
  {
    var expected := Wrap(s.last + 1);
    var a := Turns(s.last + 1);
    if counter == expected {
      k := a;
    } else {
      var gap := Wrap(counter - expected);
      var b := Turns(counter - expected);
      var c := Turns(s.lost + gap);
      k := a - b - c;
    }
  }

  lemma {:induction false} Accounts(counters: seq<U32>) returns (k: int)
    requires counters != []
    ensures var s := CountedAll(counters);
            && !s.first && s.last == counters[|counters| - 1] && s.total == Wrap(|counters|)
            && |counters| + s.lost == s.last - counters[0] + 1 + k * MODULUS
  {
    var n := |counters| - 1;
    var before, c := CountedAll(counters[..n]), counters[n];
    if n == 0 {
      assert counters[..n] == [];
      k := 0;
    } else {
      var k0 := Accounts(counters[..n]);
      var k1 := GapIsExact(before, c);
      k := k0 + k1;
    }
    TotalStep(n, before.total);
  }

  lemma TotalStep(n: nat, total: U32)
    requires total == Wrap(n)
    ensures Wrap(total + 1) == Wrap(n + 1)
  {
    var a := Turns(n);
    var b := Turns(total + 1);
    WrapsTo(n + 1, Wrap(total + 1), a + b);
  }

  // Counters from the first to the last, both included.
  function Distance(counters: seq<U32>): int
    requires counters != []
  {
    var first: int, last: int := counters[0], counters[|counters| - 1];
    last - first + 1
  }

  /**
   * Conservation, through wrap-around, duplicates and reordering: packets counted plus packets lost is
   * the distance from the first counter to the last, modulo 2^32; so lost is exactly this number.
   */
  lemma LossConserved(counters: seq<U32>)
    requires counters != []
    ensures var s := CountedAll(counters);
            && s.total == |counters| % 0x1_0000_0000
            && (s.total + s.lost) % 0x1_0000_0000 == Distance(counters) % 0x1_0000_0000
            && s.lost == (Distance(counters) - |counters|) % 0x1_0000_0000
  {
    var s, d, n := CountedAll(counters), Distance(counters), |counters|;
    var k := Accounts(counters);
    var a := Turns(n);
    var b := Turns(d);
    WrapsTo(s.total + s.lost, Wrap(d), b + k - a);
    WrapsTo(d - n, s.lost, -k);
  }

  /** What happens between the first and the last delivery, in whatever order, does not matter. */
  lemma OrderBlind(a: seq<U32>, b: seq<U32>)
    requires a != [] && |a| == |b| && a[0] == b[0] && a[|a| - 1] == b[|b| - 1]
    ensures CountedAll(a) == CountedAll(b)
  {
    LossConserved(a);
    LossConserved(b);
    var ka := Accounts(a);
    var kb := Accounts(b);
  }

  // ----- What was missing -----

  function OnTheWire(cs: seq<nat>): (ws: seq<U32>)
    ensures |ws| == |cs| && forall i :: 0 <= i < |cs| ==> ws[i] == Wrap(cs[i])
  {
    seq(|cs|, i requires 0 <= i < |cs| => Wrap(cs[i]))
  }

  // Below, counters are unwrapped, in the order of delivery: any order, with repeats or not.

  // Whether `lo` and `hi` are the least and the greatest of the counters.
  predicate Spans(cs: seq<nat>, lo: nat, hi: nat) {
    lo in cs && hi in cs && forall i :: 0 <= i < |cs| ==> lo <= cs[i] <= hi
  }

  lemma {:induction false} HasSpan(cs: seq<nat>)
    requires cs != []
    ensures exists lo, hi :: Spans(cs, lo, hi)
  {
    var n := |cs| - 1;
    if n == 0 {
      assert Spans(cs, cs[0], cs[0]);
    } else {
      HasSpan(cs[..n]);
      var lo, hi :| Spans(cs[..n], lo, hi);
      assert forall i :: 0 <= i < n ==> lo <= cs[..n][i] == cs[i] <= hi;
      assert Spans(cs, if cs[n] < lo then cs[n] else lo, if cs[n] > hi then cs[n] else hi);
    }
  }

  ghost function Least(cs: seq<nat>): (lo: nat)
    requires cs != []
    ensures exists hi :: Spans(cs, lo, hi)
  {
    HasSpan(cs);
    var lo, hi :| Spans(cs, lo, hi);
    lo
  }

  ghost function Greatest(cs: seq<nat>): (hi: nat)
    requires cs != []
    ensures Spans(cs, Least(cs), hi)
  {
    var hi :| Spans(cs, Least(cs), hi);
    hi
  }

  // They are the only such two.
  lemma SpanUnique(cs: seq<nat>, lo: nat, hi: nat)
    requires Spans(cs, lo, hi)
    ensures Least(cs) == lo && Greatest(cs) == hi
  {
  }

  predicate NoRepeats(cs: seq<nat>) {
    forall i, j :: 0 <= i < j < |cs| ==> cs[i] != cs[j]
  }

  function Seen(cs: seq<nat>): set<nat> {
    set x | x in cs
  }

  function Range(lo: nat, hi: nat): (r: set<nat>)
    requires lo <= hi
    ensures forall x: nat :: x in r <==> lo <= x < hi
    ensures |r| == hi - lo
    decreases hi
  {
    if lo == hi then {} else Range(lo, hi - 1) + {hi - 1}
  }

  /** The counters between the least and the greatest that should have been seen but were not. */
  ghost function Missing(cs: seq<nat>): set<nat>
    requires cs != []
  {
    Range(Least(cs), Greatest(cs) + 1) - Seen(cs)
  }

  lemma SeenLast(cs: seq<nat>, c: nat)
    ensures Seen(cs + [c]) == Seen(cs) + {c}
  {
  }

  lemma RepeatsLast(cs: seq<nat>, c: nat)
    ensures NoRepeats(cs + [c]) <==> NoRepeats(cs) && c !in Seen(cs)
  {
    var all := cs + [c];
    if NoRepeats(all) {
      assert forall i :: 0 <= i < |cs| ==> cs[i] == all[i];
      assert c == all[|cs|];
    }
  }

  lemma {:induction false} SeenSize(cs: seq<nat>)
    ensures |Seen(cs)| <= |cs|
    ensures |Seen(cs)| == |cs| <==> NoRepeats(cs)
  {
    if cs != [] {
      var n := |cs| - 1;
      assert cs == cs[..n] + [cs[n]];
      SeenSize(cs[..n]);
      SeenLast(cs[..n], cs[n]);
      RepeatsLast(cs[..n], cs[n]);
    }
  }

  function Repeats(cs: seq<nat>): nat {
    SeenSize(cs);
    |cs| - |Seen(cs)|
  }

  lemma MissingSize(cs: seq<nat>)
    requires cs != []
    ensures |Missing(cs)| == Greatest(cs) - Least(cs) + 1 - |Seen(cs)| <= Greatest(cs) - Least(cs)
    ensures Repeats(cs) < |cs|
  {
    var range := Range(Least(cs), Greatest(cs) + 1);
    assert Seen(cs) <= range;
    assert |range - Seen(cs)| == |range| - |Seen(cs)|;
    assert cs[0] in Seen(cs);
  }

  lemma WrapSame(x: int, y: int, k: int)
    requires x == y + k * MODULUS
    ensures Wrap(x) == Wrap(y)
  {
    var j := Turns(y);
    WrapsTo(x, Wrap(y), j + k);
  }

  lemma WireDistance(cs: seq<nat>) returns (k: int)
    requires cs != []
    ensures Distance(OnTheWire(cs)) == cs[|cs| - 1] - cs[0] + 1 + k * MODULUS
  {
    var a := Turns(cs[0]);
    var b := Turns(cs[|cs| - 1]);
    k := a - b;
  }

  // How late the last delivery is, how early the first was, and the repeats.
  ghost function Disorder(cs: seq<nat>): nat
    requires cs != []
  {
    (Greatest(cs) - cs[|cs| - 1]) + (cs[0] - Least(cs)) + Repeats(cs)
  }

  lemma MissingLessDisorder(cs: seq<nat>)
    requires cs != []
    ensures |Missing(cs)| - Disorder(cs) == cs[|cs| - 1] - cs[0] + 1 - |cs|
  {
    MissingSize(cs);
  }

  /** On every run of deliveries lost is the number missing less the disorder, modulo 2^32. */
  lemma LostIsMissingLessDisorder(cs: seq<nat>)
    requires cs != []
    ensures CountedAll(OnTheWire(cs)).lost == Wrap(|Missing(cs)| - Disorder(cs))
  {
    var k := WireDistance(cs);
    LossConserved(OnTheWire(cs));
    MissingLessDisorder(cs);
    WrapSame(Distance(OnTheWire(cs)) - |cs|, |Missing(cs)| - Disorder(cs), k);
  }

  lemma WrapsToSelf(m: nat, off: nat)
    ensures Wrap(m - off) == m <==> m < MODULUS && off % MODULUS == 0
  {
    if m < MODULUS && off % MODULUS == 0 {
      WrapsTo(m - off, m, -(off / MODULUS));
    }
    if Wrap(m - off) == m {
      var k := Turns(m - off);
      assert off == -k * MODULUS;
    }
  }

  /** On every run: lost is exact if and only if it can hold the number missing and the disorder wraps to nothing. */
  lemma LossExactIff(cs: seq<nat>)
    requires cs != []
    ensures CountedAll(OnTheWire(cs)).lost == |Missing(cs)|
       <==> |Missing(cs)| < MODULUS && Disorder(cs) % MODULUS == 0
  {
    LostIsMissingLessDisorder(cs);
    WrapsToSelf(|Missing(cs)|, Disorder(cs));
  }

  /** None twice, none before the first and none after the last delivered. */
  ghost predicate InPlace(cs: seq<nat>)
    requires cs != []
  {
    NoRepeats(cs) && cs[0] == Least(cs) && cs[|cs| - 1] == Greatest(cs)
  }

  lemma NoDisorderIffInPlace(cs: seq<nat>)
    requires cs != []
    ensures Disorder(cs) == 0 <==> InPlace(cs)
  {
    SeenSize(cs);
  }

  lemma SmallWrapsToNothing(off: nat)
    requires off < MODULUS
    ensures off % MODULUS == 0 <==> off == 0
  {
  }

  // Where nothing can wrap.
  lemma LossExactIfSmall(cs: seq<nat>)
    requires cs != [] && Greatest(cs) - Least(cs) < MODULUS && Disorder(cs) < MODULUS
    ensures CountedAll(OnTheWire(cs)).lost == |Missing(cs)| <==> InPlace(cs)
  {
    MissingSize(cs);
    LossExactIff(cs);
    SmallWrapsToNothing(Disorder(cs));
    NoDisorderIffInPlace(cs);
  }

  lemma DisorderSmall(cs: seq<nat>)
    requires cs != []
    ensures Disorder(cs) < 2 * (Greatest(cs) - Least(cs)) + |cs|
    ensures cs[0] == Least(cs) && cs[|cs| - 1] == Greatest(cs) ==> Disorder(cs) < |cs|
  {
    MissingSize(cs);
  }

  /**
   * While counters and deliveries are few enough for nothing to wrap around, lost is the number of
   * packets missing if and only if none was delivered twice, the first delivered has the least counter
   * and the last the greatest.
   */
  lemma LossExactIffInPlace(cs: seq<nat>)
    requires cs != [] && 2 * (Greatest(cs) - Least(cs)) + |cs| <= MODULUS
    ensures CountedAll(OnTheWire(cs)).lost == |Missing(cs)| <==> InPlace(cs)
  {
    DisorderSmall(cs);
    LossExactIfSmall(cs);
  }

  /** Where the first is the least and the last the greatest, only repeats matter. */
  lemma LossExactIffNoRepeats(cs: seq<nat>)
    requires cs != [] && cs[0] == Least(cs) && cs[|cs| - 1] == Greatest(cs)
    requires Greatest(cs) - Least(cs) < MODULUS && |cs| <= MODULUS
    ensures CountedAll(OnTheWire(cs)).lost == |Missing(cs)| <==> NoRepeats(cs)
  {
    DisorderSmall(cs);
    LossExactIfSmall(cs);
  }

  // Strictly increasing, spanning less than 2^32.
  predicate Advancing(cs: seq<nat>) {
    && (forall i, j :: 0 <= i < j < |cs| ==> cs[i] < cs[j])
    && (cs != [] ==> cs[|cs| - 1] - cs[0] < MODULUS)
  }

  lemma {:induction false} AdvancingSpan(cs: seq<nat>)
    requires cs != [] && Advancing(cs)
    ensures cs[|cs| - 1] - cs[0] >= |cs| - 1
  {
    var n := |cs| - 1;
    if n > 0 {
      AdvancingSpan(cs[..n]);
    }
  }

  lemma AdvancingOrder(cs: seq<nat>)
    requires cs != [] && Advancing(cs)
    ensures InPlace(cs)
  {
    assert Spans(cs, cs[0], cs[|cs| - 1]);
    SpanUnique(cs, cs[0], cs[|cs| - 1]);
  }

  /** While counters only advance and span less than 2^32, lost is exactly the number missing. */
  lemma AdvancingLossIsExact(cs: seq<nat>)
    requires cs != [] && Advancing(cs)
    ensures CountedAll(OnTheWire(cs)).lost == |Missing(cs)|
  {
    AdvancingOrder(cs);
    AdvancingSpan(cs);
    LossExactIffNoRepeats(cs);
  }

  /** A duplicate of the last delivery takes one off the count of lost packets, or wraps it below zero. */
  lemma DuplicateUncounts(s: Stats)
    requires !s.first
    ensures Counted(s, s.last).lost == Wrap(s.lost - 1)
  {
    var k := GapIsExact(s, s.last);
    WrapsTo(s.lost - 1, Counted(s, s.last).lost, -k);
  }

  /** A packet delivered twice: nothing is missing, and 2^32 - 1 is reported lost. */
  lemma DuplicateShows(c: nat)
    ensures Missing([c, c]) == {} && CountedAll(OnTheWire([c, c])).lost == 0xFFFF_FFFF
  {
    var cs := [c, c];
    SpanUnique(cs, c, c);
    assert Seen(cs) == {c};
    assert Range(c, c + 1) == {c};
    assert |Seen(cs)| == 1;
    LostIsMissingLessDisorder(cs);
    WrapsTo(-1, 0xFFFF_FFFF, -1);
  }

  lemma LatePacket(c: nat, cs: seq<nat>)
    requires cs == [c, c + 2, c + 1]
    ensures NoRepeats(cs) && |Missing(cs)| == 0
  {
    assert cs[0] == c && cs[1] == c + 2 && cs[2] == c + 1;
    SpanUnique(cs, c, c + 2);
    SeenSize(cs);
    MissingSize(cs);
  }

  /** The last packet late: nothing is missing and nothing repeats, and 2^32 - 1 is reported lost. */
  lemma LatePacketShows(c: nat, cs: seq<nat>)
    requires cs == [c, c + 2, c + 1]
    ensures Missing(cs) == {} && NoRepeats(cs) && CountedAll(OnTheWire(cs)).lost == 0xFFFF_FFFF
  {
    LatePacket(c, cs);
    MissingLessDisorder(cs);
    LostIsMissingLessDisorder(cs);
    WrapsTo(-1, 0xFFFF_FFFF, -1);
  }
}
