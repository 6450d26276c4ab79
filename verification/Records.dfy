/** Runs of byte strings laid end to end, and fixed-size records cut back out of a payload. */
module Records {
  import opened Bytes

  function Flat(parts: seq<seq<Byte>>): seq<Byte> {
    if parts == [] then [] else parts[0] + Flat(parts[1..])
  }

  lemma {:induction false} FlatLast(parts: seq<seq<Byte>>, last: seq<Byte>)
    ensures Flat(parts + [last]) == Flat(parts) + last
    decreases |parts|
  {
    if parts == [] {
      assert [last][1..] == [];
    } else {
      assert (parts + [last])[1..] == parts[1..] + [last];
      FlatLast(parts[1..], last);
    }
  }

  function Min(a: nat, b: nat): nat {
    if a < b then a else b
  }

  lemma OneMore(n: nat, size: nat)
    requires n > 0
    ensures n * size == size + (n - 1) * size
  {
  }

  // n records of `size` bytes each, from offset `at`.
  function Split(p: seq<Byte>, at: nat, n: nat, size: nat): (rs: seq<seq<Byte>>)
    requires at + n * size <= |p|
    ensures |rs| == n && forall i :: 0 <= i < n ==> |rs[i]| == size
    decreases n
  {
    if n == 0 then []
    else
      OneMore(n, size);
      [p[at..at + size]] + Split(p, at + size, n - 1, size)
  }

  predicate AllOfSize(rs: seq<seq<Byte>>, size: nat) {
    forall i :: 0 <= i < |rs| ==> |rs[i]| == size
  }

  lemma {:induction false} FlatSize(rs: seq<seq<Byte>>, size: nat)
    requires AllOfSize(rs, size)
    ensures |Flat(rs)| == |rs| * size
    decreases |rs|
  {
    if rs != [] {
      FlatSize(rs[1..], size);
      OneMore(|rs|, size);
    }
  }

  /** Cutting up what was laid end to end gives the records back, wherever it sits. */
  lemma {:induction false} SplitOfFlat(p: seq<Byte>, at: nat, rs: seq<seq<Byte>>, size: nat)
    requires AllOfSize(rs, size) && Holds(p, at, Flat(rs))
    ensures at + |rs| * size <= |p| && Split(p, at, |rs|, size) == rs
    decreases |rs|
  {
    FlatSize(rs, size);
    if rs != [] {
      HeldPair(p, at, rs[0], Flat(rs[1..]));
      SplitOfFlat(p, at + size, rs[1..], size);
    }
  }

  lemma SliceJoins(p: seq<Byte>, a: nat, b: nat, c: nat)
    requires a <= b <= c <= |p|
    ensures p[a..c] == p[a..b] + p[b..c]
  {
  }

  /** And laying the cut records end to end gives the payload's bytes back. */
  lemma {:induction false} FlatOfSplit(p: seq<Byte>, at: nat, n: nat, size: nat, end: nat)
    requires end == at + n * size <= |p|
    ensures Flat(Split(p, at, n, size)) == p[at..end]
    decreases n
  {
    if n == 0 {
      assert end == at;
    } else {
      OneMore(n, size);
      FlatOfSplit(p, at + size, n - 1, size, end);
      SliceJoins(p, at, at + size, end);
    }
  }

  // The records depend on no byte past the last of them.
  lemma {:induction false} SplitLocal(p: seq<Byte>, q: seq<Byte>, at: nat, n: nat, size: nat)
    requires p <= q && at + n * size <= |p|
    ensures Split(p, at, n, size) == Split(q, at, n, size)
    decreases n
  {
    if n > 0 {
      OneMore(n, size);
      assert p[at..at + size] == q[at..at + size];
      SplitLocal(p, q, at + size, n - 1, size);
    }
  }

  lemma RoomForRecord(i: nat, n: nat, size: nat)
    requires i < n
    ensures i * size + size <= n * size
  {
    assert (n - i - 1) * size >= 0;
    assert n * size == i * size + size + (n - i - 1) * size;
  }

  lemma {:induction false} SplitAt(p: seq<Byte>, at: nat, n: nat, size: nat, i: nat)
    requires i < n && at + n * size <= |p|
    ensures at + i * size + size <= |p| && Split(p, at, n, size)[i] == p[at + i * size..at + i * size + size]
    decreases i
  {
    RoomForRecord(i, n, size);
    OneMore(n, size);
    if i == 0 {
      assert 0 * size == 0;
    } else {
      OneMore(i, size);
      SplitAt(p, at + size, n - 1, size, i - 1);
    }
  }

  lemma FewerFit(m: nat, n: nat, size: nat)
    requires m <= n
    ensures m * size <= n * size
  {
    if m < n { RoomForRecord(m, n, size); }
  }

  // Fewer records are the first of more.
  lemma SplitPrefix(p: seq<Byte>, at: nat, m: nat, n: nat, size: nat)
    requires m <= n && at + n * size <= |p|
    ensures at + m * size <= |p| && Split(p, at, m, size) == Split(p, at, n, size)[..m]
  {
    FewerFit(m, n, size);
    forall i | 0 <= i < m ensures Split(p, at, m, size)[i] == Split(p, at, n, size)[i] {
      SplitAt(p, at, m, size, i);
      SplitAt(p, at, n, size, i);
    }
  }
}
