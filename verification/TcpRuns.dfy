/** Runs of Receive calls: nothing lost, duplicated or reordered, and the backoff discipline. */
module TcpRuns {
  import opened Bytes
  import opened Framing
  import opened Records
  import opened TcpStream
  import opened Words

  function AfterCalls(l: Link, cap: nat, n: nat): Link
    decreases n
  {
    if n == 0 then l else AfterCalls(AfterReceive(l, cap), cap, n - 1)
  }

  function MessageOf(r: Received): seq<seq<Byte>> {
    match r case Message(m) => [m] case NoMessage(_) => []
  }

  // The messages n successive calls return, in order.
  function Messages(l: Link, cap: nat, n: nat): seq<seq<Byte>>
    decreases n
  {
    if n == 0 then [] else MessageOf(ReceiveResult(l, cap)) + Messages(AfterReceive(l, cap), cap, n - 1)
  }

  // The frames of every connection to come.
  function FramesOfAll(network: seq<Option<seq<Byte>>>, cap: nat): seq<seq<Byte>> {
    if network == [] then []
    else (if network[0].Some? then Frames(network[0].value, cap) else []) + FramesOfAll(network[1..], cap)
  }

  /** What the client still owes its caller: this connection's frames, then each later connection's. */
  function Owed(l: Link, cap: nat): seq<seq<Byte>> {
    (if l.open then Frames(l.stream, cap) else []) + if l.running then FramesOfAll(l.network, cap) else []
  }

  lemma Chain(all: seq<seq<Byte>>, m: seq<seq<Byte>>, rest: seq<seq<Byte>>, ms: seq<seq<Byte>>, owed: seq<seq<Byte>>)
    requires all == m + rest && rest == ms + owed
    ensures all == (m + ms) + owed
  {
  }

  lemma FirstCall(l: Link, next: Link, m: seq<seq<Byte>>, cap: nat, n: nat)
    requires n > 0 && next == AfterReceive(l, cap) && m == MessageOf(ReceiveResult(l, cap))
    ensures Messages(l, cap, n) == m + Messages(next, cap, n - 1)
    ensures AfterCalls(l, cap, n) == AfterCalls(next, cap, n - 1)
  {
  }

  lemma OneCallConserves(l: Link, cap: nat)
    ensures Owed(l, cap) == MessageOf(ReceiveResult(l, cap)) + Owed(AfterReceive(l, cap), cap)
  {
  }

  lemma CallThenRun(l: Link, next: Link, cap: nat, n: nat, owed: seq<seq<Byte>>)
    requires n > 0 && next == AfterReceive(l, cap)
    requires Owed(next, cap) == Messages(next, cap, n - 1) + owed
    ensures Owed(l, cap) == Messages(l, cap, n) + owed
  {
    var m := MessageOf(ReceiveResult(l, cap));
    OneCallConserves(l, cap);
    FirstCall(l, next, m, cap, n);
    Chain(Owed(l, cap), m, Owed(next, cap), Messages(next, cap, n - 1), owed);
  }

  /**
   * Conservation: after any number of calls, through drops, refused attempts, oversize frames and
   * reconnects, messages returned plus messages owed is what was owed at the start.
   */
  lemma {:induction false} NothingLostOrInvented(l: Link, cap: nat, n: nat)
    ensures Owed(l, cap) == Messages(l, cap, n) + Owed(AfterCalls(l, cap, n), cap)
    decreases n
  {
    if n == 0 {
      assert Messages(l, cap, n) == [] && AfterCalls(l, cap, n) == l;
    } else {
      var next := AfterReceive(l, cap);
      NothingLostOrInvented(next, cap, n - 1);
      CallThenRun(l, next, cap, n, Owed(AfterCalls(next, cap, n - 1), cap));
    }
  }

  // How many calls it takes to use up this connection, and all later ones.
  function CallsFor(s: seq<Byte>, cap: nat): nat {
    |Frames(s, cap)| + 1
  }

  function CallsForAll(network: seq<Option<seq<Byte>>>, cap: nat): nat {
    if network == [] then 0
    else 1 + (if network[0].Some? then CallsFor(network[0].value, cap) else 0) + CallsForAll(network[1..], cap)
  }

  function Enough(l: Link, cap: nat): nat {
    (if l.open then CallsFor(l.stream, cap) else 0) + if l.running then CallsForAll(l.network, cap) else 0
  }

  lemma OneCallFewer(l: Link, cap: nat)
    requires Enough(l, cap) > 0
    ensures Enough(AfterReceive(l, cap), cap) == Enough(l, cap) - 1
  {
  }

  lemma NoCallsLeft(l: Link, cap: nat)
    requires Enough(l, cap) == 0
    ensures Owed(l, cap) == []
  {
  }

  lemma {:induction false} EnoughUsesUp(l: Link, cap: nat, n: nat)
    requires n == Enough(l, cap)
    ensures Owed(AfterCalls(l, cap, n), cap) == []
    decreases n
  {
    if n == 0 {
      NoCallsLeft(l, cap);
    } else {
      OneCallFewer(l, cap);
      EnoughUsesUp(AfterReceive(l, cap), cap, n - 1);
    }
  }

  /** And enough calls return everything that was owed. */
  lemma EnoughCallsDeliver(l: Link, cap: nat)
    ensures Owed(AfterCalls(l, cap, Enough(l, cap)), cap) == []
    ensures Messages(l, cap, Enough(l, cap)) == Owed(l, cap)
  {
    EnoughUsesUp(l, cap, Enough(l, cap));
    NothingLostOrInvented(l, cap, Enough(l, cap));
  }

  // ----- Fragmentation -----

  // A connection that delivers the bytes of `cuts` in that order, with any EINTRs, and then ends.
  predicate Delivers(script: seq<RecvEvent>, bytes: seq<Byte>) {
    if script == [] then bytes == []
    else
      match script[0]
      case Chunk(b) => b != [] && b <= bytes && Delivers(script[1..], bytes[|b|..])
      case Interrupted => Delivers(script[1..], bytes)
      case Failed => bytes == []
      case Closed => bytes == []
  }

  /** However a byte stream is cut into recv results and interrupted, the client sees that stream. */
  lemma {:induction false} CutsDoNotMatter(script: seq<RecvEvent>, bytes: seq<Byte>)
    requires Delivers(script, bytes)
    ensures Stream(script) == bytes
  {
    if script != [] {
      match script[0]
      case Chunk(b) =>
        CutsDoNotMatter(script[1..], bytes[|b|..]);
        assert bytes == b + bytes[|b|..];
      case Interrupted => CutsDoNotMatter(script[1..], bytes);
      case Failed =>
      case Closed =>
    }
  }

  /** A connection that carries whole frames yields exactly those frames, through any cuts. */
  lemma FramesArrive(script: seq<RecvEvent>, fs: seq<seq<Byte>>, cap: nat, delay: nat)
    requires forall i :: 0 <= i < |fs| ==> WellFormed(fs[i], cap)
    requires Delivers(script, Flat(fs))
    ensures Messages(Link(false, true, delay, [], [Some(Stream(script))]), cap, |fs| + 2) == fs
  {
    var l := Link(false, true, delay, [], [Some(Stream(script))]);
    CutsDoNotMatter(script, Flat(fs));
    FramesOfFlat(fs, [], cap);
    assert Flat(fs) + [] == Flat(fs);
    assert Frames([], cap) == [];
    assert FramesOfAll(l.network, cap) == fs;
    EnoughCallsDeliver(l, cap);
    assert CallsForAll(l.network, cap) == |fs| + 2;
  }

  // ----- Backoff -----

  /** The delay the k-th failure in a row leaves behind. */
  function Backoff(k: nat): nat {
    Min(MIN_DELAY * Pow2(k), MAX_DELAY)
  }

  lemma BackoffDoubles(k: nat)
    ensures Min(2 * Backoff(k), MAX_DELAY) == Backoff(k + 1)
    ensures MIN_DELAY <= Backoff(k) <= MAX_DELAY
  {
    assert Pow2(k + 1) == 2 * Pow2(k);
  }

  // ----- Runs of any calls -----

  datatype Call = DoConnect | DoReceive | DoClose

  function AfterCall(l: Link, cap: nat, call: Call): Link {
    match call
    case DoConnect => AfterConnect(l)
    case DoReceive => AfterReceive(l, cap)
    case DoClose => AfterClose(l)
  }

  function AfterRun(l: Link, cap: nat, calls: seq<Call>): Link
    decreases |calls|
  {
    if calls == [] then l else AfterRun(AfterCall(l, cap, calls[0]), cap, calls[1..])
  }

  // What the Receive calls among them return, in order.
  function MessagesOfRun(l: Link, cap: nat, calls: seq<Call>): seq<seq<Byte>>
    decreases |calls|
  {
    if calls == [] then []
    else
      (if calls[0].DoReceive? then MessageOf(ReceiveResult(l, cap)) else [])
      + MessagesOfRun(AfterCall(l, cap, calls[0]), cap, calls[1..])
  }

  // Failed reconnects since the last attempt that succeeded, one call on.
  function FailuresNext(l: Link, k: nat, cap: nat, call: Call): nat {
    var next := AfterCall(l, cap, call);
    match call
    case DoClose => k
    case DoConnect => if next.open then 0 else k
    case DoReceive => if l.open || !l.running then k else if next.open then 0 else k + 1
  }

  function FailuresAfter(l: Link, k: nat, cap: nat, calls: seq<Call>): nat
    decreases |calls|
  {
    if calls == [] then k
    else FailuresAfter(AfterCall(l, cap, calls[0]), FailuresNext(l, k, cap, calls[0]), cap, calls[1..])
  }

  lemma DelayStep(l: Link, k: nat, cap: nat, call: Call)
    requires l.delay == Backoff(k)
    ensures AfterCall(l, cap, call).delay == Backoff(FailuresNext(l, k, cap, call))
  {
    BackoffDoubles(k);
    assert Backoff(0) == MIN_DELAY;
  }

  /**
   * At every point of every run of Connect, Receive and Close calls the delay is min(1000 * 2^k, 30000)
   * for k failed reconnects since an attempt last succeeded.
   */
  lemma {:induction false} DelayIsBackoff(l: Link, k: nat, cap: nat, calls: seq<Call>)
    requires l.delay == Min(1000 * Pow2(k), 30000)
    ensures AfterRun(l, cap, calls).delay == Min(1000 * Pow2(FailuresAfter(l, k, cap, calls)), 30000)
    ensures 1000 <= AfterRun(l, cap, calls).delay <= 30000
    decreases |calls|
  {
    if calls == [] {
      BackoffDoubles(k);
    } else {
      DelayStep(l, k, cap, calls[0]);
      DelayIsBackoff(AfterCall(l, cap, calls[0]), FailuresNext(l, k, cap, calls[0]), cap, calls[1..]);
    }
  }

  predicate NoConnect(calls: seq<Call>) {
    forall i :: 0 <= i < |calls| ==> !calls[i].DoConnect?
  }

  /** Once closed, without a Connect no calls reconnect, return a message or change anything. */
  lemma {:induction false} ClosedStaysClosed(l: Link, cap: nat, calls: seq<Call>)
    requires NoConnect(calls)
    ensures var c := AfterClose(l);
            AfterRun(c, cap, calls) == c && MessagesOfRun(c, cap, calls) == [] && ReceiveResult(c, cap) == NoMessage(-1)
    decreases |calls|
  {
    if calls != [] {
      assert NoConnect(calls[1..]);
      ClosedStaysClosed(l, cap, calls[1..]);
    }
  }

  function Connects(calls: seq<Call>): nat
    decreases |calls|
  {
    if calls == [] then 0 else (if calls[0].DoConnect? then 1 else 0) + Connects(calls[1..])
  }

  function Drop<T>(xs: seq<T>, n: nat): seq<T> {
    if n >= |xs| then [] else xs[n..]
  }

  lemma DropMore<T>(xs: seq<T>, n: nat)
    ensures Drop(Drop(xs, 1), n) == Drop(xs, n + 1)
  {
  }

  /**
   * And with Connect calls: a closed client uses up one attempt for each of them and none for anything
   * else, so it never reconnects by itself again.
   */
  lemma {:induction false} ClosedNeverReconnects(l: Link, cap: nat, calls: seq<Call>)
    requires !l.running
    ensures !AfterRun(l, cap, calls).running
    ensures AfterRun(l, cap, calls).network == Drop(l.network, Connects(calls))
    decreases |calls|
  {
    if calls != [] {
      var next := AfterCall(l, cap, calls[0]);
      ClosedNeverReconnects(next, cap, calls[1..]);
      if calls[0].DoConnect? {
        assert next.network == Drop(l.network, 1);
        DropMore(l.network, Connects(calls[1..]));
      }
    }
  }
}
