/** The RDI thread: from the TCP stream to published frames. */
module Pipeline {
  import opened Bytes
  import opened Records
  import opened Overlay
  import opened Reassembler
  import opened Framing
  import opened TcpStream
  import opened TcpRuns
  import opened RdiNode
  import RdiRuns
  import E2e
  import Rdi
  import Someip
  import PointCloud

  /** What one round of the thread reads besides the stream: the run-time flags and the clock. */
  datatype Reading = Reading(flags: E2e.Flags, clock: Clock)

  // The datagrams the thread hands to the node, one reading a round.
  function ArrivalsOf(l: Link, cap: nat, readings: seq<Reading>): seq<RdiRuns.Arrival>
    decreases |readings|
  {
    if readings == [] then []
    else ArrivalOf(l, cap, readings[0]) + ArrivalsOf(AfterReceive(l, cap), cap, readings[1..])
  }

  function ArrivalOf(l: Link, cap: nat, r: Reading): seq<RdiRuns.Arrival> {
    match ReceiveResult(l, cap)
    case Message(m) => [RdiRuns.Arrival(m, r.flags, r.clock)]
    case NoMessage(_) => []
  }

  lemma RunFirst(node: Node, a: RdiRuns.Arrival, rest: seq<RdiRuns.Arrival>)
    ensures var r := RdiRuns.Arrive(node, a);
            && RdiRuns.After(node, [a] + rest) == RdiRuns.After(r.node, rest)
            && Present(RdiRuns.Outputs(node, [a] + rest)) == Shows(r) + Present(RdiRuns.Outputs(r.node, rest))
  {
    assert ([a] + rest)[1..] == rest;
    var r := RdiRuns.Arrive(node, a);
    RdiRuns.PresentHead(r.frame, RdiRuns.Outputs(r.node, rest));
  }

  // What one round does to the node, and the frame it shows.
  function Round(node: Node, l: Link, cap: nat, r: Reading): StepResult {
    match ReceiveResult(l, cap)
    case NoMessage(_) => StepResult(node, None)
    case Message(m) => Step(r.flags, node, m, r.clock)
  }

  /**
   * One round, case by case: a whole frame at the head of an open connection is processed under the flags
   * and the clock read for it; in a round without one the node does nothing.
   */
  lemma RoundExactly(node: Node, l: Link, cap: nat, r: Reading)
    ensures l.open && WholeFrame(l.stream, cap) ==>
              Round(node, l, cap, r) == Step(r.flags, node, l.stream[..8 + BeNumber(l.stream[4..8])], r.clock)
    ensures !(l.open && WholeFrame(l.stream, cap)) ==> Round(node, l, cap, r) == StepResult(node, None)
  {
    ReceiveExactly(l, cap);
  }

  function Shows(r: StepResult): seq<Rdi.Frame> {
    if r.frame.Some? then [r.frame.value] else []
  }

  // What rounds still to come do.
  function FinalNode(node: Node, l: Link, cap: nat, readings: seq<Reading>): Node {
    RdiRuns.After(node, ArrivalsOf(l, cap, readings))
  }

  function StillToShow(node: Node, l: Link, cap: nat, readings: seq<Reading>): seq<Rdi.Frame> {
    Present(RdiRuns.Outputs(node, ArrivalsOf(l, cap, readings)))
  }

  lemma RoundFirst(node: Node, l: Link, cap: nat, readings: seq<Reading>)
    requires readings != []
    ensures var r, l' := Round(node, l, cap, readings[0]), AfterReceive(l, cap);
            && FinalNode(node, l, cap, readings) == FinalNode(r.node, l', cap, readings[1..])
            && StillToShow(node, l, cap, readings) == Shows(r) + StillToShow(r.node, l', cap, readings[1..])
  {
    var rest := ArrivalsOf(AfterReceive(l, cap), cap, readings[1..]);
    match ReceiveResult(l, cap)
    case NoMessage(_) =>
      assert ArrivalsOf(l, cap, readings) == [] + rest == rest;
    case Message(m) => RunFirst(node, RdiRuns.Arrival(m, readings[0].flags, readings[0].clock), rest);
  }

  // One turn of the thread's loop.
  method OneRound(client: TcpStreamClient, node: Afi920Node, buf: array<Byte>, reading: Reading)
    requires client.Valid() && Settled(node.tp.Value())
    modifies client, node, node.tp, buf
    ensures client.Valid() && Settled(node.tp.Value())
    ensures client.Value() == AfterReceive(old(client.Value()), buf.Length)
    ensures var r := Round(old(node.Value()), old(client.Value()), buf.Length, reading);
            node.Value() == r.node && node.log == old(node.log) + old(node.ShownIf(r.frame))
  {
    var n := client.Receive(buf);
    if n <= 0 {
      assert node.log + [] == node.log;
      return;
    }
    node.ProcessRdiDatagram(reading.flags, buf[..n], reading.clock);
  }

  /**
   * rdi_thread_func, for as many rounds as there are readings: receive, skip what is no message, process.
   * What is published is, for each frame still to be shown, in order, its cloud and detection array.
   */
  method RdiThread(client: TcpStreamClient, node: Afi920Node, buf: array<Byte>, readings: seq<Reading>)
    requires client.Valid() && Settled(node.tp.Value())
    modifies client, node, node.tp, buf
    ensures client.Valid() && Settled(node.tp.Value())
    ensures client.Value() == AfterCalls(old(client.Value()), buf.Length, |readings|)
    ensures node.Value() == FinalNode(old(node.Value()), old(client.Value()), buf.Length, readings)
    ensures var frames := StillToShow(old(node.Value()), old(client.Value()), buf.Length, readings);
            && node.log == old(node.log) + old(node.ShownAll(frames))
            && Added(old(node.log), node.log, frames, node.builder.project, node.builder.config,
                     node.publishDetections)
  {
    ghost var cap, before := buf.Length, node.log;
    ghost var at := Progress(client.Value(), node.Value(), []);
    ghost var goal := Goal(at, cap, readings);
    assert readings[0..] == readings && before + [] == before;
    for i := 0 to |readings|
      invariant client.Valid() && Settled(node.tp.Value())
      invariant at.link == client.Value() && at.node == node.Value()
      invariant node.log == before + node.ShownAll(at.shown)
      invariant Goal(at, cap, readings[i..]) == goal
    {
      ghost var r := Round(at.node, at.link, cap, readings[i]);
      GoalStays(at, cap, readings, i);
      ShownMore(node, before, at.shown, r.frame);
      OneRound(client, node, buf, readings[i]);
      at := Next(at, cap, readings[i]);
    }
    GoalReached(at, cap, readings[|readings|..]);
    assert goal.shown == StillToShow(old(node.Value()), old(client.Value()), cap, readings);
    ShownIsAdded(node, before, goal.shown);
  }

  lemma {:induction false} ShownAdds(node: Afi920Node, fs: seq<Rdi.Frame>, gs: seq<Rdi.Frame>)
    ensures node.ShownAll(fs + gs) == node.ShownAll(fs) + node.ShownAll(gs)
    decreases |fs|
  {
    if fs == [] {
      assert fs + gs == gs;
    } else {
      assert (fs + gs)[1..] == fs[1..] + gs;
      ShownAdds(node, fs[1..], gs);
      Regroup([node.Shown(fs[0])], node.ShownAll(fs[1..]), node.ShownAll(gs));
    }
  }

  lemma Regroup(a: seq<Published>, b: seq<Published>, c: seq<Published>)
    ensures a + (b + c) == (a + b) + c
  {
  }

  lemma ShownMore(node: Afi920Node, before: seq<Published>, shown: seq<Rdi.Frame>, frame: Option<Rdi.Frame>)
    ensures (before + node.ShownAll(shown)) + node.ShownIf(frame)
         == before + node.ShownAll(shown + if frame.Some? then [frame.value] else [])
  {
    match frame
    case None =>
      NothingMore(before + node.ShownAll(shown));
      assert shown + [] == shown;
    case Some(f) =>
      ShownAdds(node, shown, [f]);
      ShownOne(node, f);
      Regroup(before, node.ShownAll(shown), [node.Shown(f)]);
  }

  lemma NothingMore(log: seq<Published>)
    ensures log + [] == log
  {
  }

  lemma ShownOne(node: Afi920Node, f: Rdi.Frame)
    ensures node.ShownAll([f]) == [node.Shown(f)]
  {
    assert [f][1..] == [] && node.ShownAll([]) == [];
  }

  // Where the thread stands, and where it will when the readings are used up.
  datatype Progress = Progress(link: Link, node: Node, shown: seq<Rdi.Frame>)

  function Goal(at: Progress, cap: nat, readings: seq<Reading>): Progress {
    Progress(AfterCalls(at.link, cap, |readings|), FinalNode(at.node, at.link, cap, readings),
             at.shown + StillToShow(at.node, at.link, cap, readings))
  }

  function Next(at: Progress, cap: nat, reading: Reading): Progress {
    var r := Round(at.node, at.link, cap, reading);
    Progress(AfterReceive(at.link, cap), r.node, at.shown + Shows(r))
  }

  lemma GoalStays(at: Progress, cap: nat, readings: seq<Reading>, i: nat)
    requires i < |readings|
    ensures Goal(Next(at, cap, readings[i]), cap, readings[i + 1..]) == Goal(at, cap, readings[i..])
  {
    assert readings[i..][1..] == readings[i + 1..];
    RoundFirst(at.node, at.link, cap, readings[i..]);
    var r, l' := Round(at.node, at.link, cap, readings[i]), AfterReceive(at.link, cap);
    var rest := StillToShow(r.node, l', cap, readings[i + 1..]);
    assert at.shown + (Shows(r) + rest) == (at.shown + Shows(r)) + rest;
  }

  lemma GoalReached(at: Progress, cap: nat, none: seq<Reading>)
    requires none == []
    ensures Goal(at, cap, none) == at
  {
    assert at.shown + [] == at.shown;
  }

  // ----- End to end -----

  lemma ArrivalIsMessage(l: Link, cap: nat, r: Reading, rest: seq<RdiRuns.Arrival>)
    ensures RdiRuns.DatagramsOf(ArrivalOf(l, cap, r) + rest)
         == MessageOf(ReceiveResult(l, cap)) + RdiRuns.DatagramsOf(rest)
  {
    match ReceiveResult(l, cap)
    case Message(m) =>
      RdiRuns.DatagramsFirst(ArrivalOf(l, cap, r) + rest);
      assert (ArrivalOf(l, cap, r) + rest)[1..] == rest;
    case NoMessage(_) =>
      assert [] + rest == rest && ArrivalOf(l, cap, r) == [];
  }

  lemma {:induction false} ArrivalsAreMessages(l: Link, cap: nat, readings: seq<Reading>)
    ensures RdiRuns.DatagramsOf(ArrivalsOf(l, cap, readings)) == Messages(l, cap, |readings|)
    decreases |readings|
  {
    if readings == [] {
      assert RdiRuns.DatagramsOf([]) == [];
    } else {
      var rest := ArrivalsOf(AfterReceive(l, cap), cap, readings[1..]);
      ArrivalsAreMessages(AfterReceive(l, cap), cap, readings[1..]);
      ArrivalIsMessage(l, cap, readings[0], rest);
    }
  }

  function ClocksOf(arrivals: seq<RdiRuns.Arrival>): (cs: seq<Clock>)
    ensures |cs| == |arrivals|
  {
    seq(|arrivals|, i requires 0 <= i < |arrivals| => arrivals[i].clock)
  }

  predicate AllUnder(flags: E2e.Flags, readings: seq<Reading>) {
    forall i :: 0 <= i < |readings| ==> readings[i].flags == flags
  }

  predicate ArrivedUnder(flags: E2e.Flags, arrivals: seq<RdiRuns.Arrival>) {
    forall i :: 0 <= i < |arrivals| ==> arrivals[i].flags == flags
  }

  lemma UnderAdds(flags: E2e.Flags, a: seq<RdiRuns.Arrival>, b: seq<RdiRuns.Arrival>)
    requires ArrivedUnder(flags, a) && ArrivedUnder(flags, b)
    ensures ArrivedUnder(flags, a + b)
  {
  }

  lemma {:induction false} ArrivalsUnder(flags: E2e.Flags, l: Link, cap: nat, readings: seq<Reading>)
    requires AllUnder(flags, readings)
    ensures ArrivedUnder(flags, ArrivalsOf(l, cap, readings))
    decreases |readings|
  {
    if readings != [] {
      var rest := ArrivalsOf(AfterReceive(l, cap), cap, readings[1..]);
      ArrivalsUnder(flags, AfterReceive(l, cap), cap, readings[1..]);
      assert readings[0].flags == flags;
      UnderAdds(flags, ArrivalOf(l, cap, readings[0]), rest);
    }
  }

  // The same datagrams under the same flags differ in their clocks only.
  lemma DifferInClocks(flags: E2e.Flags, x: seq<RdiRuns.Arrival>, y: seq<RdiRuns.Arrival>)
    requires RdiRuns.DatagramsOf(x) == RdiRuns.DatagramsOf(y)
    requires ArrivedUnder(flags, x) && ArrivedUnder(flags, y)
    ensures |x| == |y| && RdiRuns.WithClocks(x, ClocksOf(y)) == y
  {
    assert |RdiRuns.DatagramsOf(x)| == |x| && |RdiRuns.DatagramsOf(y)| == |y|;
    forall i | 0 <= i < |y| ensures RdiRuns.WithClocks(x, ClocksOf(y))[i] == y[i] {
      assert RdiRuns.DatagramsOf(x)[i] == RdiRuns.DatagramsOf(y)[i];
    }
  }

  /**
   * What is published depends on the byte streams alone: under the same flags, two runs of the thread
   * that use up links owing the same frames publish the same frames and count the same losses, however
   * the streams were cut into recv results, however many attempts were refused or interrupted, and
   * whatever the clock said.
   */
  lemma StreamsDecide(flags: E2e.Flags, node: Node, a: Link, b: Link, cap: nat, ra: seq<Reading>, rb: seq<Reading>)
    requires Owed(a, cap) == Owed(b, cap) && AllUnder(flags, ra) && AllUnder(flags, rb)
    requires |ra| == Enough(a, cap) && |rb| == Enough(b, cap)
    ensures var x, y := ArrivalsOf(a, cap, ra), ArrivalsOf(b, cap, rb);
            && RdiRuns.Outputs(node, x) == RdiRuns.Outputs(node, y)
            && RdiRuns.After(node, x).stats == RdiRuns.After(node, y).stats
  {
    var x, y := ArrivalsOf(a, cap, ra), ArrivalsOf(b, cap, rb);
    EnoughCallsDeliver(a, cap);
    EnoughCallsDeliver(b, cap);
    ArrivalsAreMessages(a, cap, ra);
    ArrivalsAreMessages(b, cap, rb);
    ArrivalsUnder(flags, a, cap, ra);
    ArrivalsUnder(flags, b, cap, rb);
    DifferInClocks(flags, x, y);
    RdiRuns.ClockIsInert(node, node, x, ClocksOf(y));
  }

  // Two networks whose connections, refusals aside, deliver the same streams in the same order.
  predicate SameStreams(a: seq<Option<seq<Byte>>>, b: seq<Option<seq<Byte>>>)
    decreases |a| + |b|
  {
    if a != [] && a[0].None? then SameStreams(a[1..], b)
    else if b != [] && b[0].None? then SameStreams(a, b[1..])
    else if a == [] || b == [] then a == b
    else a[0] == b[0] && SameStreams(a[1..], b[1..])
  }

  lemma {:induction false} SameStreamsOweTheSame(a: seq<Option<seq<Byte>>>, b: seq<Option<seq<Byte>>>, cap: nat)
    requires SameStreams(a, b)
    ensures FramesOfAll(a, cap) == FramesOfAll(b, cap)
    decreases |a| + |b|
  {
    if a != [] && a[0].None? {
      SameStreamsOweTheSame(a[1..], b, cap);
    } else if b != [] && b[0].None? {
      SameStreamsOweTheSame(a, b[1..], cap);
    } else if a != [] && b != [] {
      SameStreamsOweTheSame(a[1..], b[1..], cap);
    }
  }

  // A client fresh from its constructor.
  function Fresh(network: seq<Outcome>): Link {
    Link(false, true, MIN_DELAY, [], Streams(network))
  }

  /** So clients fresh from their constructor on networks with the same streams publish the same. */
  lemma CutsAndRefusalsDoNotMatter(flags: E2e.Flags, node: Node, a: seq<Outcome>, b: seq<Outcome>, cap: nat,
                                   ra: seq<Reading>, rb: seq<Reading>)
    requires SameStreams(Streams(a), Streams(b)) && AllUnder(flags, ra) && AllUnder(flags, rb)
    requires |ra| == Enough(Fresh(a), cap) && |rb| == Enough(Fresh(b), cap)
    ensures StillToShow(node, Fresh(a), cap, ra) == StillToShow(node, Fresh(b), cap, rb)
  {
    SameStreamsOweTheSame(Streams(a), Streams(b), cap);
    StreamsDecide(flags, node, Fresh(a), Fresh(b), cap, ra, rb);
  }

  // ----- Sensor to publication -----

  /** A frame as the sensor sends it: whole, or cut into segments at multiples of 16 bytes. */
  datatype Sending = Sending(counter: U32, head: Rdi.Head, wires: seq<Rdi.Wire>, session: U16, cuts: Option<seq<nat>>)

  predicate Sendable(s: Sending) {
    |s.wires| <= Rdi.MAX_DETECTIONS
  }

  function PayloadSent(s: Sending): (p: seq<Byte>)
    requires Sendable(s)
    ensures 0 < |p| < 0x10_0000
  {
    RdiRuns.ProtectedFrame(s.counter, s.head, s.wires)
  }

  function DatagramsSent(s: Sending): seq<seq<Byte>>
    requires Sendable(s)
  {
    match s.cuts
    case None => [RdiRuns.WholeDatagram(PayloadSent(s), RdiRuns.LengthField(|PayloadSent(s)|), s.session)]
    case Some(cuts) => RdiRuns.Segmented(PayloadSent(s), cuts, s.session)
  }

  predicate AllSendable(ss: seq<Sending>) {
    forall i :: 0 <= i < |ss| ==> Sendable(ss[i])
  }

  function AllDatagrams(ss: seq<Sending>): seq<seq<Byte>>
    requires AllSendable(ss)
  {
    if ss == [] then [] else DatagramsSent(ss[0]) + AllDatagrams(ss[1..])
  }

  function AllPayloads(ss: seq<Sending>): seq<seq<Byte>>
    requires AllSendable(ss)
  {
    if ss == [] then [] else [PayloadSent(ss[0])] + AllPayloads(ss[1..])
  }

  function FramesSent(ss: seq<Sending>): seq<Rdi.Frame>
    requires AllSendable(ss)
  {
    if ss == [] then [] else [Rdi.FrameWith(ss[0].head, ss[0].wires)] + FramesSent(ss[1..])
  }

  // One sending completes its payload and nothing else, whatever the buffer held.
  lemma SendingCompletes(buffer: seq<Byte>, s: Sending, ds: seq<seq<Byte>>)
    requires Sendable(s) && ds == DatagramsSent(s)
    ensures Present(RdiRuns.PayloadsOf(buffer, ds)) == [PayloadSent(s)]
  {
    var p := PayloadSent(s);
    match s.cuts
    case None =>
      RdiRuns.WholeDatagramIsWhole(p, RdiRuns.LengthField(|p|), s.session);
      RdiRuns.OneCompletes(buffer, ds[0], p);
    case Some(cuts) =>
      RdiRuns.SegmentedCarries(p, cuts, s.session);
      RdiRuns.CarriedCompletes(buffer, ds, p, cuts, s.session);
      PresentOnlyLast(RdiRuns.PayloadsOf(buffer, ds), p);
  }

  lemma {:induction false} AllComplete(buffer: seq<Byte>, ss: seq<Sending>)
    requires AllSendable(ss)
    ensures Present(RdiRuns.PayloadsOf(buffer, AllDatagrams(ss))) == AllPayloads(ss)
    decreases |ss|
  {
    if ss != [] {
      var ds, rest := DatagramsSent(ss[0]), AllDatagrams(ss[1..]);
      var after := RdiRuns.BufferOver(buffer, ds);
      SendingCompletes(buffer, ss[0], ds);
      AllComplete(after, ss[1..]);
      RdiRuns.PayloadsAdd(buffer, ds, rest);
      PresentAdds(RdiRuns.PayloadsOf(buffer, ds), RdiRuns.PayloadsOf(after, rest));
    }
  }

  lemma SentYields(s: Sending)
    requires Sendable(s)
    ensures RdiRuns.YieldsAlways(PayloadSent(s), Rdi.FrameWith(s.head, s.wires))
  {
    RdiRuns.FrameYields(s.counter, s.head, s.wires);
  }

  lemma {:induction false} AllSentYield(ss: seq<Sending>)
    requires AllSendable(ss)
    ensures RdiRuns.AllYield(AllPayloads(ss), FramesSent(ss))
    decreases |ss|
  {
    if ss != [] {
      SentYields(ss[0]);
      AllSentYield(ss[1..]);
      RdiRuns.AllYieldMore(PayloadSent(ss[0]), AllPayloads(ss[1..]), Rdi.FrameWith(ss[0].head, ss[0].wires),
                           FramesSent(ss[1..]));
    }
  }

  // A datagram whose Length field is right, as a framed stream needs it.
  predicate LengthRight(d: seq<Byte>) {
    |d| >= Someip.HEADER_SIZE && |d| == PREFIX + UnpackBe32(d, 4)
  }

  lemma HeaderFrames(h: Someip.Header, body: seq<Byte>, d: seq<Byte>)
    requires d == Someip.Serialize(h) + body && h.length == |body| + Someip.HEADER_SIZE - PREFIX
    ensures LengthRight(d)
  {
    Someip.HeaderRoundTrip(h, body);
  }

  lemma WholeFrames(msg: seq<Byte>, session: U16)
    requires |msg| < 0x10_0000
    ensures LengthRight(RdiRuns.WholeDatagram(msg, RdiRuns.LengthField(|msg|), session))
  {
    HeaderFrames(RdiRuns.NotificationHeader(RdiRuns.LengthField(|msg|), session, 0x02), msg,
                 RdiRuns.WholeDatagram(msg, RdiRuns.LengthField(|msg|), session));
  }

  lemma SegmentFrames(s: Segment)
    requires RdiRuns.Addressable(s) && |s.data| < 0x10_0000
    ensures LengthRight(RdiRuns.SegmentDatagram(s))
  {
    var length := RdiRuns.LengthField(Someip.TP_HEADER_SIZE + |s.data|);
    var h := RdiRuns.NotificationHeader(length, s.session, 0x22);
    var tp := Someip.TpSerialize(Someip.TpHeader(s.offset, s.more));
    var d := RdiRuns.SegmentDatagram(s);
    assert d == Someip.Serialize(h) + (tp + s.data);
    HeaderFrames(h, tp + s.data, d);
  }

  predicate AllLengthsRight(ds: seq<seq<Byte>>) {
    forall i :: 0 <= i < |ds| ==> LengthRight(ds[i])
  }

  lemma SegmentedFrames(msg: seq<Byte>, cuts: seq<nat>, session: U16, ds: seq<seq<Byte>>)
    requires 0 < |msg| < 0x10_0000 && ds == RdiRuns.Segmented(msg, cuts, session)
    ensures AllLengthsRight(ds)
  {
    var segments := Cut(msg, 0, cuts, session);
    RdiRuns.CutIsAddressable(msg, 0, cuts, session);
    forall i | 0 <= i < |ds| ensures LengthRight(ds[i]) {
      SegmentFrames(segments[i]);
      assert ds[i] == RdiRuns.SegmentDatagram(segments[i]);
    }
  }

  lemma SendingFrames(s: Sending, ds: seq<seq<Byte>>)
    requires Sendable(s) && ds == DatagramsSent(s)
    ensures AllLengthsRight(ds)
  {
    match s.cuts
    case None => WholeFrames(PayloadSent(s), s.session);
    case Some(cuts) => SegmentedFrames(PayloadSent(s), cuts, s.session, ds);
  }

  lemma LengthsAdd(a: seq<seq<Byte>>, b: seq<seq<Byte>>)
    requires AllLengthsRight(a) && AllLengthsRight(b)
    ensures AllLengthsRight(a + b)
  {
  }

  lemma {:induction false} AllFramed(ss: seq<Sending>)
    requires AllSendable(ss)
    ensures AllLengthsRight(AllDatagrams(ss))
    decreases |ss|
  {
    if ss != [] {
      SendingFrames(ss[0], DatagramsSent(ss[0]));
      AllFramed(ss[1..]);
      LengthsAdd(DatagramsSent(ss[0]), AllDatagrams(ss[1..]));
    }
  }

  // A client about to connect where this script awaits it.
  function Connecting(script: seq<RecvEvent>, delay: nat): Link {
    Link(false, true, delay, [], [Some(Stream(script))])
  }

  lemma OneConnection(l: Link, cap: nat)
    requires !l.open && l.running && |l.network| == 1 && l.network[0].Some?
    ensures Owed(l, cap) == Frames(l.network[0].value, cap) && Enough(l, cap) == |Owed(l, cap)| + 2
  {
    assert l.network[1..] == [];
    assert FramesOfAll([], cap) == [] && CallsForAll([], cap) == 0;
  }

  lemma FramedArrive(script: seq<RecvEvent>, ds: seq<seq<Byte>>, cap: nat, delay: nat)
    requires AllLengthsRight(ds) && forall i :: 0 <= i < |ds| ==> |ds[i]| <= cap
    requires Delivers(script, Flat(ds))
    ensures Owed(Connecting(script, delay), cap) == ds && Enough(Connecting(script, delay), cap) == |ds| + 2
  {
    assert forall i :: 0 <= i < |ds| ==> LengthRight(ds[i]);
    CutsDoNotMatter(script, Flat(ds));
    FramesOfFlat(ds, [], cap);
    assert Flat(ds) + [] == Flat(ds);
    assert Frames(Flat(ds), cap) == ds;
    OneConnection(Connecting(script, delay), cap);
  }

  /** Whatever link owes exactly the datagrams of these sendings, the thread shows exactly their frames, in order. */
  lemma SendingsShown(node: Node, l: Link, cap: nat, readings: seq<Reading>, ss: seq<Sending>)
    requires AllSendable(ss) && Owed(l, cap) == AllDatagrams(ss)
    requires |readings| == Enough(l, cap)
    ensures StillToShow(node, l, cap, readings) == FramesSent(ss)
  {
    EnoughCallsDeliver(l, cap);
    ArrivalsAreMessages(l, cap, readings);
    AllComplete(node.tp.buffer, ss);
    AllSentYield(ss);
    RdiRuns.ShownAreOfPayloads(node, ArrivalsOf(l, cap, readings), FramesSent(ss));
  }

  // A connection that carries these sendings whole, in datagrams that fit the buffer.
  ghost predicate CarriesAll(script: seq<RecvEvent>, ss: seq<Sending>, cap: nat)
    requires AllSendable(ss)
  {
    && Delivers(script, Flat(AllDatagrams(ss)))
    && forall i :: 0 <= i < |AllDatagrams(ss)| ==> |AllDatagrams(ss)[i]| <= cap
  }

  /**
   * From sensor to publication: a connection that carries any list of protected frames, each whole or
   * in segments, through any cuts into recv results and any interruptions, shows exactly those frames,
   * in order, under any flags, at any times and whatever the node had received before.
   */
  lemma FramesPublished(node: Node, ss: seq<Sending>, script: seq<RecvEvent>, cap: nat, delay: nat,
                        readings: seq<Reading>)
    requires AllSendable(ss) && CarriesAll(script, ss, cap) && |readings| == |AllDatagrams(ss)| + 2
    ensures StillToShow(node, Connecting(script, delay), cap, readings) == FramesSent(ss)
  {
    AllFramed(ss);
    FramedArrive(script, AllDatagrams(ss), cap, delay);
    SendingsShown(node, Connecting(script, delay), cap, readings, ss);
  }

  /** Frame by frame, what was sent. */
  lemma {:induction false} SentAt(ss: seq<Sending>)
    requires AllSendable(ss)
    ensures |FramesSent(ss)| == |ss|
    ensures forall i :: 0 <= i < |ss| ==> FramesSent(ss)[i] == Rdi.FrameWith(ss[i].head, ss[i].wires)
    decreases |ss|
  {
    if ss != [] { SentAt(ss[1..]); }
  }

  /** And so the thread itself: what it adds to what is published is each frame sent, its cloud and its array. */
  method SensorToPublication(client: TcpStreamClient, node: Afi920Node, buf: array<Byte>, readings: seq<Reading>,
                             ghost script: seq<RecvEvent>, ghost ss: seq<Sending>)
    requires client.Valid() && Settled(node.tp.Value())
    requires client.Value() == Connecting(script, client.reconnectDelay)
    requires AllSendable(ss) && CarriesAll(script, ss, buf.Length) && |readings| == |AllDatagrams(ss)| + 2
    modifies client, node, node.tp, buf
    ensures Added(old(node.log), node.log, FramesSent(ss), node.builder.project, node.builder.config,
                  node.publishDetections)
  {
    FramesPublished(node.Value(), ss, script, buf.Length, client.reconnectDelay, readings);
    RdiThread(client, node, buf, readings);
  }
}
