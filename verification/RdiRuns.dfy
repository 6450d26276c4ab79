/** Whole runs of RDI datagrams: transport transparency, strict mode, statistics. */
module RdiRuns {
  import opened Bytes
  import opened Reassembler
  import opened Overlay
  import opened RdiNode
  import Someip
  import E2e
  import Rdi
  import LossCounter

  /** A datagram, and what its processing read: the run-time flags and the clock. */
  datatype Arrival = Arrival(datagram: seq<Byte>, flags: E2e.Flags, clock: Clock)

  function Arrive(node: Node, a: Arrival): StepResult {
    Step(a.flags, node, a.datagram, a.clock)
  }

  function After(node: Node, arrivals: seq<Arrival>): Node
    decreases |arrivals|
  {
    if arrivals == [] then node
    else After(Arrive(node, arrivals[0]).node, arrivals[1..])
  }

  // What each datagram delivers.
  function Outputs(node: Node, arrivals: seq<Arrival>): (fs: seq<Option<Rdi.Frame>>)
    ensures |fs| == |arrivals|
    decreases |arrivals|
  {
    if arrivals == [] then []
    else
      var r := Arrive(node, arrivals[0]);
      [r.frame] + Outputs(r.node, arrivals[1..])
  }

  // ----- The buffer over a run -----

  // The segment a datagram feeds, if it has data.
  function DataOf(d: seq<Byte>): (segments: seq<Segment>)
    ensures |segments| <= 1
  {
    match KindOf(d)
    case TpSegment(s) => if s.data == [] then [] else [s]
    case _ => []
  }

  function SegmentsIn(arrivals: seq<Arrival>): (segments: seq<Segment>)
    decreases |arrivals|
  {
    if arrivals == [] then [] else DataOf(arrivals[0].datagram) + SegmentsIn(arrivals[1..])
  }

  lemma StepWrites(flags: E2e.Flags, node: Node, d: seq<Byte>, clock: Clock)
    ensures Step(flags, node, d, clock).node.tp.buffer == WrittenAll(node.tp.buffer, DataOf(d))
  {
    match KindOf(d)
    case Foreign =>
    case Whole(p) => NumberedKeepsTp(flags, node, p, node.tp);
    case TpSegment(s) => if s.data != [] { assert [s][1..] == []; }
  }

  /** Over any run the buffer is its old content overlaid with every segment fed, whatever else went on. */
  lemma {:induction false} BufferAfterRun(node: Node, arrivals: seq<Arrival>)
    ensures After(node, arrivals).tp.buffer == WrittenAll(node.tp.buffer, SegmentsIn(arrivals))
    decreases |arrivals|
  {
    if arrivals != [] {
      var a := arrivals[0];
      StepWrites(a.flags, node, a.datagram, a.clock);
      BufferAfterRun(Arrive(node, a).node, arrivals[1..]);
      WrittenAllAdds(node.tp.buffer, DataOf(a.datagram), SegmentsIn(arrivals[1..]));
    }
  }

  /**
   * Every run keeps the reassembler settled between datagrams, and its buffer never shrinks and spans
   * every segment fed.
   */
  lemma {:induction false} RunsSettle(node: Node, arrivals: seq<Arrival>)
    requires Settled(node.tp)
    ensures Settled(After(node, arrivals).tp)
    ensures |After(node, arrivals).tp.buffer| >= |node.tp.buffer|
    ensures forall s :: s in SegmentsIn(arrivals) ==> End(s) <= |After(node, arrivals).tp.buffer|
    decreases |arrivals|
  {
    if arrivals != [] {
      var a := arrivals[0];
      var next := Arrive(node, a).node;
      StepSettles(a.flags, node, a.datagram, a.clock);
      StepSpans(a.flags, node, a.datagram, a.clock);
      RunsSettle(next, arrivals[1..]);
    }
  }

  lemma StepSpans(flags: E2e.Flags, node: Node, d: seq<Byte>, clock: Clock)
    ensures forall s :: s in DataOf(d) ==> End(s) <= |Step(flags, node, d, clock).node.tp.buffer|
  {
    if DataOf(d) != [] {
      StepWrites(flags, node, d, clock);
      WrittenAllSpans(node.tp.buffer, DataOf(d));
    }
  }

  // ----- The payloads of a run -----

  function DatagramsOf(arrivals: seq<Arrival>): (ds: seq<seq<Byte>>)
    ensures |ds| == |arrivals|
  {
    seq(|arrivals|, i requires 0 <= i < |arrivals| => arrivals[i].datagram)
  }

  /** The payload a datagram completes on top of a buffer: its own bytes, or the reassembled ones. */
  function PayloadOver(buffer: seq<Byte>, d: seq<Byte>): Option<seq<Byte>> {
    match KindOf(d)
    case Foreign => None
    case Whole(p) => Some(p)
    case TpSegment(s) => if Completes(s) then Some(Written(buffer, s)[..End(s)]) else None
  }

  // One entry a datagram.
  function PayloadsOf(buffer: seq<Byte>, ds: seq<seq<Byte>>): (ps: seq<Option<seq<Byte>>>)
    ensures |ps| == |ds|
    decreases |ds|
  {
    if ds == [] then []
    else [PayloadOver(buffer, ds[0])] + PayloadsOf(WrittenAll(buffer, DataOf(ds[0])), ds[1..])
  }

  function FrameFrom(flags: E2e.Flags, p: Option<seq<Byte>>): Option<Rdi.Frame> {
    match p case None => None case Some(payload) => FrameOf(flags, payload)
  }

  lemma StepFrame(flags: E2e.Flags, node: Node, d: seq<Byte>, clock: Clock)
    ensures Step(flags, node, d, clock).frame == FrameFrom(flags, PayloadOver(node.tp.buffer, d))
  {
  }

  lemma DatagramsFirst(arrivals: seq<Arrival>)
    requires arrivals != []
    ensures DatagramsOf(arrivals)[0] == arrivals[0].datagram && DatagramsOf(arrivals)[1..] == DatagramsOf(arrivals[1..])
  {
  }

  lemma PayloadsHead(buffer: seq<Byte>, ds: seq<seq<Byte>>)
    requires ds != []
    ensures PayloadsOf(buffer, ds)
         == [PayloadOver(buffer, ds[0])] + PayloadsOf(WrittenAll(buffer, DataOf(ds[0])), ds[1..])
  {
  }

  function FlagsOf(arrivals: seq<Arrival>): (fs: seq<E2e.Flags>)
    ensures |fs| == |arrivals|
  {
    seq(|arrivals|, i requires 0 <= i < |arrivals| => arrivals[i].flags)
  }

  // The frames of payloads, each under its own flags.
  function FramesFrom(fs: seq<E2e.Flags>, ps: seq<Option<seq<Byte>>>): (frames: seq<Option<Rdi.Frame>>)
    requires |fs| == |ps|
    ensures |frames| == |ps| && forall k :: 0 <= k < |ps| ==> frames[k] == FrameFrom(fs[k], ps[k])
  {
    seq(|ps|, k requires 0 <= k < |ps| => FrameFrom(fs[k], ps[k]))
  }

  lemma ConsAt<T>(x: T, xs: seq<T>, k: nat)
    requires k <= |xs|
    ensures ([x] + xs)[k] == if k == 0 then x else xs[k - 1]
  {
  }

  lemma FramesFromFirst(f: E2e.Flags, fs: seq<E2e.Flags>, p: Option<seq<Byte>>, ps: seq<Option<seq<Byte>>>)
    requires |fs| == |ps|
    ensures FramesFrom([f] + fs, [p] + ps) == [FrameFrom(f, p)] + FramesFrom(fs, ps)
  {
    var x, y := FramesFrom([f] + fs, [p] + ps), [FrameFrom(f, p)] + FramesFrom(fs, ps);
    forall k | 0 <= k < |x| ensures x[k] == y[k] {
      ConsAt(f, fs, k);
      ConsAt(p, ps, k);
      ConsAt(FrameFrom(f, p), FramesFrom(fs, ps), k);
    }
  }

  lemma FlagsFirst(arrivals: seq<Arrival>)
    requires arrivals != []
    ensures FlagsOf(arrivals) == [arrivals[0].flags] + FlagsOf(arrivals[1..])
  {
  }

  /** What a run delivers is, datagram by datagram, a function of the payloads completed and the flags then. */
  lemma {:induction false} OutputsAreOfPayloads(node: Node, arrivals: seq<Arrival>)
    ensures Outputs(node, arrivals)
         == FramesFrom(FlagsOf(arrivals), PayloadsOf(node.tp.buffer, DatagramsOf(arrivals)))
    decreases |arrivals|
  {
    if arrivals != [] {
      var a := arrivals[0];
      var next := Arrive(node, a).node;
      StepFrame(a.flags, node, a.datagram, a.clock);
      StepWrites(a.flags, node, a.datagram, a.clock);
      DatagramsFirst(arrivals);
      FlagsFirst(arrivals);
      PayloadsHead(node.tp.buffer, DatagramsOf(arrivals));
      OutputsAreOfPayloads(next, arrivals[1..]);
      FramesFromFirst(a.flags, FlagsOf(arrivals[1..]), PayloadOver(node.tp.buffer, a.datagram),
                      PayloadsOf(next.tp.buffer, DatagramsOf(arrivals[1..])));
    }
  }

  lemma OutputAt(node: Node, arrivals: seq<Arrival>, k: nat)
    requires k < |arrivals|
    ensures Outputs(node, arrivals)[k]
         == FrameFrom(arrivals[k].flags, PayloadsOf(node.tp.buffer, DatagramsOf(arrivals))[k])
  {
    OutputsAreOfPayloads(node, arrivals);
  }

  /** A payload that yields this frame whatever the flags. */
  ghost predicate YieldsAlways(p: seq<Byte>, frame: Rdi.Frame) {
    forall flags :: FrameOf(flags, p) == Some(frame)
  }

  ghost predicate AllYield(ps: seq<seq<Byte>>, frames: seq<Rdi.Frame>) {
    |ps| == |frames| && forall k :: 0 <= k < |ps| ==> YieldsAlways(ps[k], frames[k])
  }

  lemma AllYieldMore(p: seq<Byte>, ps: seq<seq<Byte>>, frame: Rdi.Frame, frames: seq<Rdi.Frame>)
    requires YieldsAlways(p, frame) && AllYield(ps, frames)
    ensures AllYield([p] + ps, [frame] + frames)
  {
  }

  lemma AllYieldRest(ps: seq<seq<Byte>>, frames: seq<Rdi.Frame>)
    requires AllYield(ps, frames) && ps != []
    ensures YieldsAlways(ps[0], frames[0]) && AllYield(ps[1..], frames[1..])
  {
  }

  lemma PresentHead<T>(x: Option<T>, xs: seq<Option<T>>)
    ensures Present([x] + xs) == match x case None => Present(xs) case Some(y) => [y] + Present(xs)
  {
    assert ([x] + xs)[1..] == xs;
  }

  // Flags do not matter to such payloads.
  lemma {:induction false} YieldedShown(fs: seq<E2e.Flags>, ps: seq<Option<seq<Byte>>>, frames: seq<Rdi.Frame>)
    requires |fs| == |ps| && AllYield(Present(ps), frames)
    ensures Present(FramesFrom(fs, ps)) == frames
    decreases |ps|
  {
    if ps != [] {
      assert ps == [ps[0]] + ps[1..] && fs == [fs[0]] + fs[1..];
      PresentHead(ps[0], ps[1..]);
      FramesFromFirst(fs[0], fs[1..], ps[0], ps[1..]);
      PresentHead(FrameFrom(fs[0], ps[0]), FramesFrom(fs[1..], ps[1..]));
      match ps[0]
      case None => YieldedShown(fs[1..], ps[1..], frames);
      case Some(p) =>
        AllYieldRest(Present(ps), frames);
        assert Present(ps)[1..] == Present(ps[1..]);
        YieldedShown(fs[1..], ps[1..], frames[1..]);
    }
  }

  /** A run whose completed payloads yield these frames always shows exactly them, in order. */
  lemma ShownAreOfPayloads(node: Node, arrivals: seq<Arrival>, frames: seq<Rdi.Frame>)
    requires AllYield(Present(PayloadsOf(node.tp.buffer, DatagramsOf(arrivals))), frames)
    ensures Present(Outputs(node, arrivals)) == frames
  {
    OutputsAreOfPayloads(node, arrivals);
    YieldedShown(FlagsOf(arrivals), PayloadsOf(node.tp.buffer, DatagramsOf(arrivals)), frames);
  }

  lemma OneCompletes(buffer: seq<Byte>, d: seq<Byte>, msg: seq<Byte>)
    requires PayloadOver(buffer, d) == Some(msg)
    ensures Present(PayloadsOf(buffer, [d])) == [msg]
  {
    PayloadsFirst(buffer, [d]);
    assert [d][1..] == [];
  }

  // The buffer after these datagrams.
  function BufferOver(buffer: seq<Byte>, ds: seq<seq<Byte>>): seq<Byte>
    decreases |ds|
  {
    if ds == [] then buffer else BufferOver(WrittenAll(buffer, DataOf(ds[0])), ds[1..])
  }

  lemma {:induction false} PayloadsAdd(buffer: seq<Byte>, a: seq<seq<Byte>>, b: seq<seq<Byte>>)
    ensures PayloadsOf(buffer, a + b) == PayloadsOf(buffer, a) + PayloadsOf(BufferOver(buffer, a), b)
    decreases |a|
  {
    if a == [] {
      assert a + b == b;
    } else {
      assert (a + b)[1..] == a[1..] + b;
      PayloadsAdd(WrittenAll(buffer, DataOf(a[0])), a[1..], b);
    }
  }

  lemma PayloadsFirst(buffer: seq<Byte>, ds: seq<seq<Byte>>)
    requires ds != []
    ensures var rest := Present(PayloadsOf(WrittenAll(buffer, DataOf(ds[0])), ds[1..]));
            Present(PayloadsOf(buffer, ds)) ==
              match PayloadOver(buffer, ds[0]) case None => rest case Some(p) => [p] + rest
  {
    var ps := PayloadsOf(buffer, ds);
    assert ps[1..] == PayloadsOf(WrittenAll(buffer, DataOf(ds[0])), ds[1..]);
  }

  // ----- Transport transparency -----

  /** A TP segment, not the last, carrying its part of the message; or no TP segment with data. */
  predicate CarriesOrForeign(d: seq<Byte>, msg: seq<Byte>) {
    KindOf(d).TpSegment? && KindOf(d).segment.data != [] ==>
      KindOf(d).segment.more && CarriesPart(KindOf(d).segment, msg)
  }

  predicate CarriesPart(s: Segment, msg: seq<Byte>) {
    End(s) <= |msg| && s.data == msg[s.offset..End(s)]
  }

  lemma {:induction false} PartsCarry(arrivals: seq<Arrival>, msg: seq<Byte>)
    requires forall k :: 0 <= k < |arrivals| ==> CarriesOrForeign(arrivals[k].datagram, msg)
    ensures forall k :: 0 <= k < |SegmentsIn(arrivals)| ==> CarriesPart(SegmentsIn(arrivals)[k], msg)
    decreases |arrivals|
  {
    if arrivals != [] {
      assert CarriesOrForeign(arrivals[0].datagram, msg);
      PartsCarry(arrivals[1..], msg);
    }
  }

  lemma PartWrites(buffer: seq<Byte>, s: Segment, msg: seq<Byte>, i: nat)
    requires CarriesPart(s, msg) && Covers(s, i)
    ensures s.data != [] && i < |Written(buffer, s)| && Written(buffer, s)[i] == msg[i]
  {
  }

  // Segments that all carry parts of a message leave its bytes wherever they reach.
  lemma {:induction false} PartsOverlay(buffer: seq<Byte>, segments: seq<Segment>, msg: seq<Byte>, i: nat)
    requires forall k :: 0 <= k < |segments| ==> CarriesPart(segments[k], msg)
    requires i < |msg| && CoveredBy(segments, i)
    ensures i < |WrittenAll(buffer, segments)| && WrittenAll(buffer, segments)[i] == msg[i]
    decreases |segments|
  {
    var s, rest := segments[0], segments[1..];
    var b := Overlaid(buffer, s);
    assert CarriesPart(s, msg);
    CoveredByFirst(segments, i);
    if CoveredBy(rest, i) {
      PartsOverlay(b, rest, msg, i);
    } else {
      PartWrites(buffer, s, msg, i);
      WrittenAllAt(b, b, rest, i);
    }
  }

  // The final segment of a message over whatever parts of it came before exposes it.
  lemma LastCompletesWhole(buffer: seq<Byte>, segments: seq<Segment>, s: Segment, msg: seq<Byte>)
    requires forall k :: 0 <= k < |segments| ==> CarriesPart(segments[k], msg)
    requires CarriesPart(s, msg) && End(s) == |msg| && Coverage(segments + [s], |msg|)
    ensures Written(WrittenAll(buffer, segments), s)[..End(s)] == msg
  {
    var b := Written(WrittenAll(buffer, segments), s);
    forall i | 0 <= i < |msg| ensures b[i] == msg[i] {
      if !Covers(s, i) {
        assert CoveredBy(segments + [s], i);
        PartsOverlay(buffer, segments, msg, i);
      }
    }
    assert b[..|msg|] == msg;
  }

  /** A non-TP datagram holding the message: any header of ours that does not carry the TP flag. */
  predicate HoldsWhole(d: seq<Byte>, msg: seq<Byte>) {
    KindOf(d) == Whole(msg)
  }

  /**
   * Transport transparency. Let a message arrive as TP segments in any order, with duplicates, overlaps,
   * any session ids, clock and earlier flags, among arbitrary other datagrams, the final segment last,
   * covering the message.
   * Then, whatever the reassembly buffer held, the node delivers what it delivers for one non-TP
   * datagram holding the message.
   */
  lemma TransportTransparent(node: Node, arrivals: seq<Arrival>, last: Arrival, msg: seq<Byte>, other: Node,
                             whole: Arrival)
    requires forall k :: 0 <= k < |arrivals| ==> CarriesOrForeign(arrivals[k].datagram, msg)
    requires KindOf(last.datagram).TpSegment?
    requires var s := KindOf(last.datagram).segment;
             && Completes(s) && CarriesPart(s, msg) && End(s) == |msg|
             && Coverage(SegmentsIn(arrivals) + [s], |msg|)
    requires HoldsWhole(whole.datagram, msg) && whole.flags == last.flags
    ensures Arrive(After(node, arrivals), last).frame == Arrive(other, whole).frame == FrameOf(last.flags, msg)
  {
    var s, segments := KindOf(last.datagram).segment, SegmentsIn(arrivals);
    BufferAfterRun(node, arrivals);
    PartsCarry(arrivals, msg);
    LastCompletesWhole(node.tp.buffer, segments, s, msg);
  }

  // ----- The sender's datagrams -----

  function NotificationHeader(length: U32, session: U16, messageType: Byte): Someip.Header {
    Someip.Header(Someip.SERVICE_ID, Someip.EVENT_RDI, length, 1, session, 1, 1, messageType, 0)
  }

  function WholeDatagram(msg: seq<Byte>, length: U32, session: U16): seq<Byte> {
    Someip.Serialize(NotificationHeader(length, session, 0x02)) + msg
  }

  function TpDatagram(data: seq<Byte>, offset: U32, more: bool, length: U32, session: U16): seq<Byte>
    requires offset % 16 == 0
  {
    Someip.Serialize(NotificationHeader(length, session, 0x22))
    + Someip.TpSerialize(Someip.TpHeader(offset, more)) + data
  }

  /** A notification without the TP flag holds its payload whole. */
  lemma WholeDatagramIsWhole(msg: seq<Byte>, length: U32, session: U16)
    ensures HoldsWhole(WholeDatagram(msg, length, session), msg)
  {
    Someip.HeaderRoundTrip(NotificationHeader(length, session, 0x02), msg);
    assert WholeDatagram(msg, length, session)[16..] == msg;
  }

  /** A TP notification carries its data at its 16-byte-aligned offset. */
  lemma TpDatagramIsSegment(data: seq<Byte>, offset: U32, more: bool, length: U32, session: U16)
    requires offset % 16 == 0
    ensures KindOf(TpDatagram(data, offset, more, length, session)) == TpSegment(Segment(data, offset, more, session))
  {
    var h := Someip.Serialize(NotificationHeader(length, session, 0x22));
    var t := Someip.TpSerialize(Someip.TpHeader(offset, more));
    var d := TpDatagram(data, offset, more, length, session);
    assert d == h + (t + data);
    Someip.HeaderRoundTrip(NotificationHeader(length, session, 0x22), t + data);
    Someip.TpHeaderRoundTrip(Someip.TpHeader(offset, more), h, data);
    assert d[20..] == data;
  }

  // The Length field of a notification of n bytes in all.
  function LengthField(n: nat): U32 {
    (n + Someip.HEADER_SIZE - 8) % 0x1_0000_0000
  }

  // Whether a TP header can express where the segment goes.
  predicate Addressable(s: Segment) {
    s.offset < 0x1_0000_0000 && s.offset % 16 == 0
  }

  function SegmentDatagram(s: Segment): seq<Byte>
    requires Addressable(s)
  {
    TpDatagram(s.data, s.offset, s.more, LengthField(Someip.TP_HEADER_SIZE + |s.data|), s.session)
  }

  // Datagrams that carry these segments, one each.
  ghost predicate Carry(ds: seq<seq<Byte>>, segments: seq<Segment>) {
    |ds| == |segments| && forall k :: 0 <= k < |ds| ==> KindOf(ds[k]) == TpSegment(segments[k])
  }

  lemma CarryRest(ds: seq<seq<Byte>>, segments: seq<Segment>)
    requires Carry(ds, segments) && ds != []
    ensures Carry(ds[1..], segments[1..])
  {
    assert forall k :: 0 <= k < |ds| - 1 ==> ds[1..][k] == ds[k + 1] && segments[1..][k] == segments[k + 1];
  }

  lemma CarriesOne(buffer: seq<Byte>, d: seq<Byte>, s: Segment)
    requires KindOf(d) == TpSegment(s)
    ensures PayloadOver(buffer, d) == (if Completes(s) then Some(Written(buffer, s)[..End(s)]) else None)
    ensures WrittenAll(buffer, DataOf(d)) == Overlaid(buffer, s)
  {
    assert [s][1..] == [];
  }

  /** Datagrams complete the payloads that their segments deliver to the reassembler. */
  lemma {:induction false} CarriedDelivers(buffer: seq<Byte>, ds: seq<seq<Byte>>, segments: seq<Segment>)
    requires Carry(ds, segments)
    ensures PayloadsOf(buffer, ds) == Deliveries(buffer, segments)
    decreases |ds|
  {
    if ds != [] {
      CarryRest(ds, segments);
      CarriesOne(buffer, ds[0], segments[0]);
      CarriedDelivers(WrittenAll(buffer, DataOf(ds[0])), ds[1..], segments[1..]);
    }
  }

  lemma CarriedCompletes(buffer: seq<Byte>, ds: seq<seq<Byte>>, msg: seq<Byte>, cuts: seq<nat>, session: U16)
    requires msg != [] && Carry(ds, Cut(msg, 0, cuts, session))
    ensures OnlyLast(PayloadsOf(buffer, ds), msg)
  {
    CarriedDelivers(buffer, ds, Cut(msg, 0, cuts, session));
    CutCompletes(buffer, msg, cuts, session);
  }

  /** A message cut into segments at multiples of 16 bytes, as datagrams. */
  function Segmented(msg: seq<Byte>, cuts: seq<nat>, session: U16): (ds: seq<seq<Byte>>)
    requires 0 < |msg| < 0x1_0000_0000
    ensures |ds| == |Cut(msg, 0, cuts, session)|
  {
    CutIsAddressable(msg, 0, cuts, session);
    var segments := Cut(msg, 0, cuts, session);
    seq(|segments|, k requires 0 <= k < |segments| => SegmentDatagram(segments[k]))
  }

  lemma DatagramCarries(s: Segment)
    requires Addressable(s)
    ensures KindOf(SegmentDatagram(s)) == TpSegment(s)
  {
    TpDatagramIsSegment(s.data, s.offset, s.more, LengthField(Someip.TP_HEADER_SIZE + |s.data|), s.session);
  }

  lemma SegmentedCarries(msg: seq<Byte>, cuts: seq<nat>, session: U16)
    requires 0 < |msg| < 0x1_0000_0000
    ensures Carry(Segmented(msg, cuts, session), Cut(msg, 0, cuts, session))
  {
    var segments := Cut(msg, 0, cuts, session);
    CutIsAddressable(msg, 0, cuts, session);
    forall k | 0 <= k < |segments| ensures KindOf(Segmented(msg, cuts, session)[k]) == TpSegment(segments[k]) {
      DatagramCarries(segments[k]);
    }
  }

  lemma {:induction false} CutIsAddressable(msg: seq<Byte>, at: nat, cuts: seq<nat>, session: U16)
    requires at < |msg| < 0x1_0000_0000 && at % 16 == 0
    ensures forall k :: 0 <= k < |Cut(msg, at, cuts, session)| ==> Addressable(Cut(msg, at, cuts, session)[k])
    ensures forall k :: 0 <= k < |Cut(msg, at, cuts, session)| ==> |Cut(msg, at, cuts, session)[k].data| <= |msg|
    decreases |cuts|
  {
    if cuts != [] && at + 16 * cuts[0] < |msg| {
      CutIsAddressable(msg, at + 16 * cuts[0], cuts[1..], session);
    }
  }

  // The payload in which a sensor sends a frame.
  function ProtectedFrame(counter: U32, h: Rdi.Head, ws: seq<Rdi.Wire>): (p: seq<Byte>)
    requires |ws| <= Rdi.MAX_DETECTIONS
    ensures E2e.HEADER_SIZE <= |p| < 0x10_0000
  {
    var iso := Rdi.Encode(h, |ws|, ws);
    assert iso + [] == iso;
    Rdi.EncodedLayout(h, |ws|, ws, [], iso);
    E2e.Protect(counter, E2e.DATA_ID_RDI, iso)
  }

  lemma EncodedFrame(flags: E2e.Flags, counter: U32, h: Rdi.Head, ws: seq<Rdi.Wire>)
    requires |ws| <= Rdi.MAX_DETECTIONS
    ensures FrameOf(flags, ProtectedFrame(counter, h, ws)) == Some(Rdi.FrameWith(h, ws))
  {
    var iso := Rdi.Encode(h, |ws|, ws);
    assert iso + [] == iso;
    Rdi.EncodedLayout(h, |ws|, ws, [], iso);
    Rdi.ParseOfEncode(h, |ws|, ws, []);
    assert ws[..|ws|] == ws;
    E2e.ProtectAccepted(flags, counter, E2e.DATA_ID_RDI, iso);
  }

  lemma LastIs<T>(xs: seq<Option<T>>, x: T)
    requires OnlyLast(xs, x)
    ensures xs[|xs| - 1] == Some(x)
  {
  }

  lemma NoneAt<T>(xs: seq<Option<T>>, x: T, k: nat)
    requires OnlyLast(xs, x) && k < |xs| - 1
    ensures xs[k] == None
  {
  }

  /**
   * At the node: a message cut into segments at multiples of 16 bytes and arriving in order, at any
   * times, delivers nothing before its last segment and there what its payload yields.
   */
  lemma SegmentedIsWhole(node: Node, msg: seq<Byte>, cuts: seq<nat>, session: U16, arrivals: seq<Arrival>)
    requires msg != [] && Carry(DatagramsOf(arrivals), Cut(msg, 0, cuts, session))
    ensures var n := |arrivals| - 1;
            && n >= 0 && Outputs(node, arrivals)[n] == FrameOf(arrivals[n].flags, msg)
            && forall k :: 0 <= k < n ==> Outputs(node, arrivals)[k] == None
  {
    var ps := PayloadsOf(node.tp.buffer, DatagramsOf(arrivals));
    CarriedCompletes(node.tp.buffer, DatagramsOf(arrivals), msg, cuts, session);
    LastIs(ps, msg);
    OutputAt(node, arrivals, |arrivals| - 1);
    forall k | 0 <= k < |arrivals| - 1 ensures Outputs(node, arrivals)[k] == None {
      NoneAt(ps, msg, k);
      OutputAt(node, arrivals, k);
    }
  }

  lemma SegmentedYields(node: Node, msg: seq<Byte>, cuts: seq<nat>, session: U16, arrivals: seq<Arrival>,
                        frame: Rdi.Frame)
    requires msg != [] && Carry(DatagramsOf(arrivals), Cut(msg, 0, cuts, session)) && YieldsAlways(msg, frame)
    ensures OnlyLast(Outputs(node, arrivals), frame)
  {
    SegmentedIsWhole(node, msg, cuts, session, arrivals);
    assert FrameOf(arrivals[|arrivals| - 1].flags, msg) == Some(frame);
  }

  lemma FrameYields(counter: U32, h: Rdi.Head, ws: seq<Rdi.Wire>)
    requires |ws| <= Rdi.MAX_DETECTIONS
    ensures YieldsAlways(ProtectedFrame(counter, h, ws), Rdi.FrameWith(h, ws))
  {
    forall flags ensures FrameOf(flags, ProtectedFrame(counter, h, ws)) == Some(Rdi.FrameWith(h, ws)) {
      EncodedFrame(flags, counter, h, ws);
    }
  }

  /** End to end: a protected frame sent in segments of any aligned sizes is delivered once, as it was written. */
  lemma SegmentedFrameDelivered(node: Node, counter: U32, h: Rdi.Head, ws: seq<Rdi.Wire>, cuts: seq<nat>, session: U16,
                                arrivals: seq<Arrival>)
    requires |ws| <= Rdi.MAX_DETECTIONS
    requires DatagramsOf(arrivals) == Segmented(ProtectedFrame(counter, h, ws), cuts, session)
    ensures OnlyLast(Outputs(node, arrivals), Rdi.FrameWith(h, ws))
  {
    var msg := ProtectedFrame(counter, h, ws);
    SegmentedCarries(msg, cuts, session);
    FrameYields(counter, h, ws);
    SegmentedYields(node, msg, cuts, session, arrivals, Rdi.FrameWith(h, ws));
  }

  // ----- Strict mode -----

  lemma StrictStep(f: E2e.Flags, g: E2e.Flags, a: Node, b: Node, d: seq<Byte>, c: Clock)
    requires a.tp == b.tp && E2e.AtLeastAsStrict(f, g)
    ensures var strict, lenient := Step(f, a, d, c), Step(g, b, d, c);
            strict.node.tp == lenient.node.tp && (strict.frame == None || strict.frame == lenient.frame)
  {
    if KindOf(d).Whole? {
      NumberedKeepsTp(f, a, KindOf(d).payload, a.tp);
      NumberedKeepsTp(g, b, KindOf(d).payload, b.tp);
    }
  }

  function WithFlags(arrivals: seq<Arrival>, fs: seq<E2e.Flags>): (bs: seq<Arrival>)
    requires |fs| == |arrivals|
    ensures |bs| == |arrivals|
  {
    seq(|arrivals|, i requires 0 <= i < |arrivals| => arrivals[i].(flags := fs[i]))
  }

  // Datagram by datagram, `strict` has nothing or the same as `lenient`.
  predicate Restricts(strict: seq<Option<Rdi.Frame>>, lenient: seq<Option<Rdi.Frame>>) {
    |strict| == |lenient| && forall k :: 0 <= k < |strict| ==> strict[k] == None || strict[k] == lenient[k]
  }

  lemma RestrictsCons(x: Option<Rdi.Frame>, xs: seq<Option<Rdi.Frame>>,
                      y: Option<Rdi.Frame>, ys: seq<Option<Rdi.Frame>>)
    requires (x == None || x == y) && Restricts(xs, ys)
    ensures Restricts([x] + xs, [y] + ys)
  {
  }

  /**
   * Strictness only removes frames: on every run, with the same validate flag at each datagram and the
   * strict flag, at either reading, on at least wherever it is in the other, each datagram delivers
   * either nothing or what it delivers there, and the reassembler goes through the same states.
   */
  lemma {:induction false} StrictRunIsRestriction(a: Node, b: Node, arrivals: seq<Arrival>, fs: seq<E2e.Flags>)
    requires a.tp == b.tp && |fs| == |arrivals|
    requires forall k :: 0 <= k < |fs| ==> E2e.AtLeastAsStrict(arrivals[k].flags, fs[k])
    ensures After(a, arrivals).tp == After(b, WithFlags(arrivals, fs)).tp
    ensures Restricts(Outputs(a, arrivals), Outputs(b, WithFlags(arrivals, fs)))
    decreases |arrivals|
  {
    if arrivals != [] {
      var bs := WithFlags(arrivals, fs);
      var x, y := Arrive(a, arrivals[0]), Arrive(b, bs[0]);
      StrictStep(arrivals[0].flags, fs[0], a, b, arrivals[0].datagram, arrivals[0].clock);
      assert bs[1..] == WithFlags(arrivals[1..], fs[1..]);
      StrictRunIsRestriction(x.node, y.node, arrivals[1..], fs[1..]);
      RestrictsCons(x.frame, Outputs(x.node, arrivals[1..]), y.frame, Outputs(y.node, bs[1..]));
    }
  }

  predicate Genuine(payload: seq<Byte>) {
    E2e.StatusOf(payload) == E2e.Ok && E2e.MetadataOk(payload, E2e.DATA_ID_RDI)
  }

  /**
   * Over any run, a datagram processed with all flags on delivers a frame only if it completes a payload
   * (its own bytes, or the reassembled ones) whose checksum, length and data id all match, and then
   * exactly the frame that payload parses to.
   */
  lemma StrictFramesAreGenuine(node: Node, arrivals: seq<Arrival>, k: nat)
    requires k < |arrivals| && arrivals[k].flags == E2e.ALL_ON
    ensures var p := PayloadsOf(node.tp.buffer, DatagramsOf(arrivals))[k];
            Outputs(node, arrivals)[k] ==
              if p.Some? && Genuine(p.value) then Rdi.Parsed(p.value[E2e.HEADER_SIZE..]) else None
  {
    OutputsAreOfPayloads(node, arrivals);
    var p := PayloadsOf(node.tp.buffer, DatagramsOf(arrivals))[k];
    if p.Some? {
      E2e.StrictIsARestriction(E2e.ALL_ON, E2e.ALL_ON, p.value, E2e.DATA_ID_RDI);
    }
  }

  // ----- Sessions and the clock, at the node -----

  function WithClocks(arrivals: seq<Arrival>, clocks: seq<Clock>): (bs: seq<Arrival>)
    requires |clocks| == |arrivals|
    ensures |bs| == |arrivals|
  {
    seq(|arrivals|, i requires 0 <= i < |arrivals| => arrivals[i].(clock := clocks[i]))
  }

  // What of a node can show in its later outputs.
  predicate SameButClock(a: Node, b: Node) {
    a.tp.buffer == b.tp.buffer && a.frameSeq == b.frameSeq && a.stats == b.stats
  }

  lemma ClockStep(flags: E2e.Flags, a: Node, b: Node, d: seq<Byte>, c: Clock, c': Clock)
    requires SameButClock(a, b)
    ensures Step(flags, a, d, c).frame == Step(flags, b, d, c').frame
    ensures SameButClock(Step(flags, a, d, c).node, Step(flags, b, d, c').node)
  {
    match KindOf(d)
    case Foreign =>
    case Whole(p) => NumberedAlike(flags, a, b, p);
    case TpSegment(s) => if Completes(s) { NumberedAlike(flags, a, b, AfterFeed(a.tp, s, c).buffer[..End(s)]); }
  }

  lemma NumberedAlike(flags: E2e.Flags, a: Node, b: Node, p: seq<Byte>)
    requires SameButClock(a, b)
    ensures SameButClock(Numbered(flags, a, p), Numbered(flags, b, p))
  {
  }

  /** The clock decides nothing: any readings of it give the same frames, numbers and statistics. */
  lemma {:induction false} ClockIsInert(a: Node, b: Node, arrivals: seq<Arrival>, clocks: seq<Clock>)
    requires |clocks| == |arrivals|
    requires SameButClock(a, b)
    ensures Outputs(a, arrivals) == Outputs(b, WithClocks(arrivals, clocks))
    ensures SameButClock(After(a, arrivals), After(b, WithClocks(arrivals, clocks)))
    decreases |arrivals|
  {
    if arrivals != [] {
      var bs := WithClocks(arrivals, clocks);
      ClockStep(arrivals[0].flags, a, b, arrivals[0].datagram, arrivals[0].clock, clocks[0]);
      assert bs[1..] == WithClocks(arrivals[1..], clocks[1..]);
      ClockIsInert(Arrive(a, arrivals[0]).node, Arrive(b, bs[0]).node, arrivals[1..], clocks[1..]);
    }
  }

  // ----- Frame numbers and statistics over a run -----

  // Whether the payload that a datagram completes on top of a buffer, if it does, gets through E2E.
  predicate GetsThrough(buffer: seq<Byte>, a: Arrival) {
    match PayloadOver(buffer, a.datagram)
    case None => false
    case Some(p) => E2e.Consumed(a.flags, p, 0x6000_8002).Some?
  }

  /** At any datagram the frame number goes up by one, modulo 2^32, exactly if a payload gets through E2E. */
  lemma StepNumbers(node: Node, a: Arrival)
    ensures Arrive(node, a).node.frameSeq
         == if GetsThrough(node.tp.buffer, a) then (node.frameSeq + 1) % 0x1_0000_0000 else node.frameSeq
  {
    match PayloadOver(node.tp.buffer, a.datagram)
    case None =>
    case Some(p) => NumberedExactly(a.flags, node, p);
  }

  function CountersOf(frames: seq<Option<Rdi.Frame>>): seq<U32>
  {
    if frames == [] then []
    else
      CountersOf(frames[..|frames| - 1])
      + match frames[|frames| - 1] case None => [] case Some(f) => [f.message.common.messageCounter]
  }

  lemma {:induction false} OutputsLast(node: Node, arrivals: seq<Arrival>, last: Arrival)
    ensures var before := After(node, arrivals);
            var r := Arrive(before, last);
            && Outputs(node, arrivals + [last]) == Outputs(node, arrivals) + [r.frame]
            && After(node, arrivals + [last]) == r.node
    decreases |arrivals|
  {
    if arrivals == [] {
      assert [last][1..] == [];
    } else {
      var next := Arrive(node, arrivals[0]).node;
      assert (arrivals + [last])[1..] == arrivals[1..] + [last];
      OutputsLast(next, arrivals[1..], last);
    }
  }

  lemma StepCounts(flags: E2e.Flags, node: Node, d: seq<Byte>, clock: Clock)
    ensures var r := Step(flags, node, d, clock);
            r.node.stats == match r.frame
                            case None => node.stats
                            case Some(f) => LossCounter.Counted(node.stats, f.message.common.messageCounter)
  {
  }

  lemma CountersLast(frames: seq<Option<Rdi.Frame>>, last: Option<Rdi.Frame>)
    ensures LossCounter.CountedAll(CountersOf(frames + [last]))
         == match last
            case None => LossCounter.CountedAll(CountersOf(frames))
            case Some(f) =>
              LossCounter.Counted(LossCounter.CountedAll(CountersOf(frames)), f.message.common.messageCounter)
  {
    var fs, cs := frames + [last], CountersOf(frames);
    assert fs[..|fs| - 1] == frames && fs[|fs| - 1] == last;
    match last
    case None =>
      assert CountersOf(fs) == cs + [] == cs;
    case Some(f) =>
      var c := f.message.common.messageCounter;
      assert CountersOf(fs) == cs + [c];
      assert (cs + [c])[..|cs + [c]| - 1] == cs;
  }

  /** The node's statistics are those of the counters of exactly the frames it delivered. */
  lemma {:induction false} StatsAreOfDelivered(arrivals: seq<Arrival>)
    ensures After(START, arrivals).stats == LossCounter.CountedAll(CountersOf(Outputs(START, arrivals)))
    decreases |arrivals|
  {
    if arrivals != [] {
      var init, last := arrivals[..|arrivals| - 1], arrivals[|arrivals| - 1];
      var before := After(START, init);
      assert arrivals == init + [last];
      StatsAreOfDelivered(init);
      OutputsLast(START, init, last);
      StepCounts(last.flags, before, last.datagram, last.clock);
      CountersLast(Outputs(START, init), Arrive(before, last).frame);
    }
  }
}
