/** The RDI path of the node: datagram in, parsed frame delivered, reassembler left ready. */
module RdiNode {
  import opened Bytes
  import opened Reassembler
  import Someip
  import Crc64
  import E2e
  import Rdi
  import LossCounter
  import PointCloud

  // ----- Where a datagram's payload comes from -----

  /** Dropped before the TP branch or with a bare TP header; or a TP segment; or a whole payload. */
  datatype Kind = Foreign | TpSegment(segment: Segment) | Whole(payload: seq<Byte>)

  function KindOf(d: seq<Byte>): Kind {
    match Someip.Deserialize(d)
    case None => Foreign
    case Some(h) =>
      if !Someip.Valid(h) || h.methodId != Someip.EVENT_RDI then Foreign
      else if !Someip.IsTp(h.messageType) then Whole(d[Someip.HEADER_SIZE..])
      else if |d| < Someip.HEADER_SIZE + Someip.TP_HEADER_SIZE then Foreign
      else
        var tp := Someip.TpDeserialize(d, Someip.HEADER_SIZE);
        TpSegment(Segment(d[Someip.HEADER_SIZE + Someip.TP_HEADER_SIZE..], tp.offset, tp.more, h.sessionId))
  }

  /** What a datagram is, read off its bytes: service, event, type and, for a segment, the four TP bytes. */
  lemma KindByBytes(d: seq<Byte>)
    ensures KindOf(d).Foreign? <==>
              || |d| < 16
              || BeNumber(d[0..2]) != 0x6000 || BeNumber(d[2..4]) != 0x8002 || d[14] % 32 != 2
              || (d[14] % 64 >= 32 && |d| < 20)
    ensures KindOf(d).Whole? ==> d[14] % 64 < 32 && KindOf(d).payload == d[16..]
    ensures KindOf(d).TpSegment? ==>
              && d[14] % 64 >= 32
              && KindOf(d).segment.data == d[20..] && KindOf(d).segment.session == BeNumber(d[10..12])
              && KindOf(d).segment.offset == BeNumber(d[16..20]) - BeNumber(d[16..20]) % 16
              && (KindOf(d).segment.more <==> d[19] % 2 == 1)
  {
    if |d| >= 16 {
      Someip.HeaderLayout(d);
      Someip.ValidExactly(Someip.Deserialize(d).value);
      if |d| >= 20 {
        Someip.TpHeaderLayout(d, 16);
        BeMore(d, 16, 20);
        LowBit(BeNumber(d[16..19]), d[19]);
      }
    }
  }

  lemma LowBit(high: nat, low: Byte)
    ensures (high * 0x100 + low) % 2 == low % 2
  {
    Someip.Parity(high * 0x80 + low / 2, low % 2);
  }

  // ----- The node's state and step -----

  datatype Node = Node(tp: State, frameSeq: U32, stats: LossCounter.Stats)

  const START := Node(Reassembler.FRESH, 0, LossCounter.FRESH)

  /** Between datagrams: no leftover sizes, and an idle reassembler has no session. */
  ghost predicate Settled(tp: State) {
    && tp.totalSize == 0 && tp.expectedTotal == 0
    && (!tp.inProgress ==> tp.session == 0)
  }

  datatype StepResult = StepResult(node: Node, frame: Option<Rdi.Frame>)

  // The frame a complete payload yields.
  function FrameOf(flags: E2e.Flags, payload: seq<Byte>): Option<Rdi.Frame> {
    match E2e.Consumed(flags, payload, E2e.DATA_ID_RDI)
    case None => None
    case Some(s) => Rdi.Parsed(s.iso)
  }

  /** Which payloads yield a frame, off their bytes and flags: those E2E lets through with 36 bytes or more behind. */
  lemma FrameExactly(flags: E2e.Flags, p: seq<Byte>)
    ensures FrameOf(flags, p).Some? <==>
              && |p| >= 56
              && (flags.validate && flags.strict ==> Crc64.Crc(p[8..]) == BeNumber(p[0..8]))
              && (flags.strictAgain ==> BeNumber(p[8..12]) == |p| - 20 && BeNumber(p[16..20]) == 0x6000_8002)
    ensures FrameOf(flags, p).Some? ==> FrameOf(flags, p) == Rdi.Parsed(p[20..])
  {
    E2e.AcceptedExactly(flags, p, E2e.DATA_ID_RDI);
  }

  // The statistics with this frame, if there is one.
  function Recorded(node: Node, frame: Option<Rdi.Frame>): Node {
    match frame
    case None => node
    case Some(f) => node.(stats := LossCounter.Counted(node.stats, f.message.common.messageCounter))
  }

  // Counting a complete payload: frame numbers for what passes E2E, statistics for what parses.
  function Numbered(flags: E2e.Flags, node: Node, payload: seq<Byte>): Node {
    if E2e.Rejected(flags, payload, E2e.DATA_ID_RDI) then node
    else Recorded(node.(frameSeq := (node.frameSeq + 1) % 0x1_0000_0000), FrameOf(flags, payload))
  }

  /** The number counts what E2E lets through, whether it parses or not; the statistics count what parses. */
  lemma NumberedExactly(flags: E2e.Flags, node: Node, p: seq<Byte>)
    ensures var after := Numbered(flags, node, p);
            && after.tp == node.tp
            && after.frameSeq == (if E2e.Consumed(flags, p, 0x6000_8002).Some? then (node.frameSeq + 1) % 0x1_0000_0000
                                  else node.frameSeq)
            && after.stats == match FrameOf(flags, p)
                              case None => node.stats
                              case Some(f) => LossCounter.Counted(node.stats, f.message.common.messageCounter)
  {
  }

  function SegmentStep(flags: E2e.Flags, node: Node, s: Segment, clock: Clock): StepResult {
    var tp := AfterFeed(node.tp, s, clock);
    if !Completes(s) then StepResult(node.(tp := tp), None)
    else
      var p := tp.buffer[..End(s)];
      StepResult(Numbered(flags, node, p).(tp := AfterReset(tp)), FrameOf(flags, p))
  }

  function Step(flags: E2e.Flags, node: Node, d: seq<Byte>, clock: Clock): StepResult {
    match KindOf(d)
    case Foreign => StepResult(node, None)
    case Whole(p) => StepResult(Numbered(flags, node, p), FrameOf(flags, p))
    case TpSegment(s) => SegmentStep(flags, node, s, clock)
  }

  lemma NumberedKeepsTp(flags: E2e.Flags, node: Node, payload: seq<Byte>, tp: State)
    ensures Numbered(flags, node.(tp := tp), payload) == Numbered(flags, node, payload).(tp := tp)
    ensures Numbered(flags, node, payload).tp == node.tp
  {
  }

  // ----- The node -----

  datatype Published = Published(frame: Rdi.Frame, cloud: PointCloud.Cloud,
                                 detections: Option<PointCloud.DetectionArray>)

  class Afi920Node {
    const tp: SomeipTpReassembler
    const builder: PointCloud.PointCloudBuilder
    const publishDetections: bool
    var frameSeq: U32
    var totalPackets: U32
    var lostPackets: U32
    var lastCounter: U32
    var firstRdi: bool
    // Everything published so far, in order.
    var log: seq<Published>

    function Value(): Node
      reads this, tp
    {
      Node(tp.Value(), frameSeq, LossCounter.Stats(totalPackets, lostPackets, lastCounter, firstRdi))
    }

    function Shown(frame: Rdi.Frame): Published
      reads builder
    {
      Published(frame, PointCloud.CloudOf(builder.project, builder.config, frame),
                if publishDetections then Some(PointCloud.ArrayOf(builder.project, builder.config, frame)) else None)
    }

    // What a datagram with this outcome adds to the log.
    function ShownIf(frame: Option<Rdi.Frame>): seq<Published>
      reads builder
    {
      match frame case None => [] case Some(f) => [Shown(f)]
    }

    // What these frames in turn add to the log.
    function ShownAll(frames: seq<Rdi.Frame>): seq<Published>
      reads builder
    {
      if frames == [] then [] else [Shown(frames[0])] + ShownAll(frames[1..])
    }

    constructor (config: PointCloud.Config, project: PointCloud.Projection, publishDetections: bool)
      ensures Value() == START && log == []
      ensures builder.config == config && builder.project == project && this.publishDetections == publishDetections
      ensures fresh(tp) && fresh(builder)
    {
      tp := new SomeipTpReassembler();
      builder := new PointCloud.PointCloudBuilder(config, project);
      this.publishDetections := publishDetections;
      frameSeq, totalPackets, lostPackets, lastCounter, firstRdi, log := 0, 0, 0, 0, true, [];
    }

    method DeliverRdiFrame(frame: Rdi.Frame)
      modifies this`totalPackets, this`lostPackets, this`lastCounter, this`firstRdi, this`log
      ensures Value() == Recorded(old(Value()), Some(frame))
      ensures log == old(log) + [old(Shown(frame))]
      ensures var p := log[|log| - 1];
              && p.frame == frame && p.cloud == PointCloud.CloudOf(builder.project, builder.config, frame)
              && (p.detections.Some? <==> publishDetections)
              && (publishDetections ==>
                    p.detections.value == PointCloud.ArrayOf(builder.project, builder.config, frame))
    {
      CountPacket(frame);
      OnRdiFrame(frame);
    }

    // The packet statistics.
    method CountPacket(frame: Rdi.Frame)
      modifies this`totalPackets, this`lostPackets, this`lastCounter, this`firstRdi
      ensures Value() == Recorded(old(Value()), Some(frame))
      ensures totalPackets == (old(totalPackets) + 1) % 0x1_0000_0000
      ensures lastCounter == frame.message.common.messageCounter && !firstRdi
    {
      var counter: int := frame.message.common.messageCounter;
      totalPackets := LossCounter.Wrap(totalPackets + 1);
      if !firstRdi {
        var expected := LossCounter.Wrap(lastCounter + 1);
        if counter != expected {
          var gap := LossCounter.Wrap(counter - expected);
          lostPackets := LossCounter.Wrap(lostPackets + gap);
        }
      } else {
        firstRdi := false;
      }
      lastCounter := counter;
    }

    method OnRdiFrame(frame: Rdi.Frame)
      modifies this`log
      ensures log == old(log) + [old(Shown(frame))]
      ensures var p := log[|log| - 1];
              && p.frame == frame && p.cloud == PointCloud.CloudOf(builder.project, builder.config, frame)
              && (p.detections.Some? <==> publishDetections)
              && (publishDetections ==>
                    p.detections.value == PointCloud.ArrayOf(builder.project, builder.config, frame))
    {
      var cloud := builder.Build(frame);
      var detections := None;
      if publishDetections {
        var a := builder.BuildDetectionArray(frame);
        detections := Some(a);
      }
      log := log + [Published(frame, cloud, detections)];
    }

    // The payload behind the E2E header: parse it and, if it parses, deliver the frame.
    method ProcessIso(iso: seq<Byte>)
      modifies this`totalPackets, this`lostPackets, this`lastCounter, this`firstRdi, this`log
      ensures Value() == Recorded(old(Value()), Rdi.Parsed(iso))
      ensures log == old(log) + old(ShownIf(Rdi.Parsed(iso)))
    {
      var frame := Rdi.Parse(iso);
      if frame.Some? {
        DeliverRdiFrame(frame.value);
      }
    }

    // Everything from the E2E header on, for a payload already complete.
    method ProcessPayload(flags: E2e.Flags, payload: seq<Byte>)
      modifies this`frameSeq, this`totalPackets, this`lostPackets, this`lastCounter, this`firstRdi, this`log
      ensures Value() == Numbered(flags, old(Value()), payload)
      ensures log == old(log) + old(ShownIf(FrameOf(flags, payload)))
    {
      var stripped := E2e.Consume(flags, payload, E2e.DATA_ID_RDI);
      if stripped.None? {
        return;
      }
      frameSeq := (frameSeq + 1) % 0x1_0000_0000;
      ProcessIso(stripped.value.iso);
    }

    // The TP branch: feed, and if that completes the message, process it and make ready for the next.
    method ProcessSegment(flags: E2e.Flags, s: Segment, clock: Clock)
      modifies this`frameSeq, this`totalPackets, this`lostPackets, this`lastCounter, this`firstRdi, this`log, tp
      ensures var r := SegmentStep(flags, old(Value()), s, clock);
              Value() == r.node && log == old(log) + old(ShownIf(r.frame))
    {
      ghost var before := Value();
      var complete := tp.Feed(s, clock);
      if !complete {
        return;
      }
      var payload := tp.Payload();
      NumberedKeepsTp(flags, before, payload, tp.Value());
      ProcessPayload(flags, payload);
      tp.Reset();
    }

    method ProcessRdiDatagram(flags: E2e.Flags, d: seq<Byte>, clock: Clock)
      requires Settled(tp.Value())
      modifies this`frameSeq, this`totalPackets, this`lostPackets, this`lastCounter, this`firstRdi, this`log, tp
      ensures var r := Step(flags, old(Value()), d, clock);
              Value() == r.node && log == old(log) + old(ShownIf(r.frame))
      ensures Settled(tp.Value())
    {
      StepSettles(flags, Value(), d, clock);
      if |d| < Someip.HEADER_SIZE {
        return;
      }
      var hdr := Someip.Deserialize(d);
      if hdr.None? {
        return;
      }
      if !Someip.Valid(hdr.value) {
        return;
      }
      if hdr.value.methodId != Someip.EVENT_RDI {
        return;
      }
      var offset := Someip.HEADER_SIZE;
      if Someip.IsTp(hdr.value.messageType) {
        if |d| < Someip.HEADER_SIZE + Someip.TP_HEADER_SIZE {
          return;
        }
        var tpHeader := Someip.TpDeserialize(d, offset);
        offset := offset + Someip.TP_HEADER_SIZE;
        ProcessSegment(flags, Segment(d[offset..], tpHeader.offset, tpHeader.more, hdr.value.sessionId), clock);
      } else {
        ProcessPayload(flags, d[offset..]);
      }
    }
  }

  // ----- What every datagram keeps -----

  /**
   * After any datagram the reassembler is settled again and its buffer has not shrunk; a datagram that
   * is not a TP segment leaves the reassembler untouched.
   */
  lemma StepSettles(flags: E2e.Flags, node: Node, d: seq<Byte>, clock: Clock)
    requires Settled(node.tp)
    ensures Settled(Step(flags, node, d, clock).node.tp)
    ensures |Step(flags, node, d, clock).node.tp.buffer| >= |node.tp.buffer|
    ensures !KindOf(d).TpSegment? ==> Step(flags, node, d, clock).node.tp == node.tp
  {
  }

  /**
   * Whatever is not a notification of our RDI event, that is any other service, any other event (the SHII
   * and SPI ones among them) and any other message type, changes nothing and yields nothing.
   */
  lemma OthersIgnored(flags: E2e.Flags, node: Node, h: Someip.Header, body: seq<Byte>, clock: Clock)
    requires h.serviceId != 0x6000 || h.methodId != 0x8002 || h.messageType % 32 != 2
    ensures Step(flags, node, Someip.Serialize(h) + body, clock) == StepResult(node, None)
  {
    Someip.HeaderRoundTrip(h, body);
    Someip.ValidExactly(h);
  }

  /** And so does a datagram too short for its headers. */
  lemma ShortIgnored(flags: E2e.Flags, node: Node, d: seq<Byte>, clock: Clock)
    requires |d| < 16 || (|d| < 20 && d[14] % 64 >= 32)
    ensures Step(flags, node, d, clock) == StepResult(node, None)
  {
    KindByBytes(d);
  }

  // The array shows what the cloud shows, member by member, with the frame's header.
  predicate Matching(p: Published)
    requires p.detections.Some?
  {
    var arr := p.detections.value;
    && arr.frameId == p.cloud.frameId && arr.message == p.frame.message && |arr.entries| == |p.cloud.points|
    && forall j :: 0 <= j < |arr.entries| ==> PointCloud.SameReading(p.cloud.points[j], arr.entries[j])
  }

  // A published frame with its cloud and, exactly when arrays are wanted, an array that matches the cloud.
  ghost predicate Carries(p: Published, frame: Rdi.Frame, project: PointCloud.Projection, config: PointCloud.Config,
                          arrays: bool)
  {
    && p.frame == frame && p.cloud == PointCloud.CloudOf(project, config, frame)
    && (p.detections.Some? <==> arrays) && (arrays ==> Matching(p))
  }

  // Behind what was published before, one entry for each of these frames, in order.
  ghost predicate Added(before: seq<Published>, log: seq<Published>, frames: seq<Rdi.Frame>,
                        project: PointCloud.Projection, config: PointCloud.Config, arrays: bool)
  {
    && |log| == |before| + |frames| && before <= log
    && forall i :: 0 <= i < |frames| ==> Carries(log[|before| + i], frames[i], project, config, arrays)
  }

  lemma {:induction false} ShownCarries(node: Afi920Node, frames: seq<Rdi.Frame>)
    ensures |node.ShownAll(frames)| == |frames|
    ensures forall i :: 0 <= i < |frames| ==>
              Carries(node.ShownAll(frames)[i], frames[i], node.builder.project, node.builder.config,
                      node.publishDetections)
    decreases |frames|
  {
    if frames != [] {
      ShownCarries(node, frames[1..]);
      PointCloud.CloudMatchesArray(node.builder.project, node.builder.config, frames[0]);
    }
  }

  /** What publishing shows of a list of frames: one entry a frame, with the array exactly when it is switched on. */
  lemma ShownIsAdded(node: Afi920Node, before: seq<Published>, frames: seq<Rdi.Frame>)
    ensures Added(before, before + node.ShownAll(frames), frames, node.builder.project, node.builder.config,
                  node.publishDetections)
  {
    ShownCarries(node, frames);
  }
}
