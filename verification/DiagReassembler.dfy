/** The diagnostic tool's reassembler, which starts every message on a fresh buffer. */
module DiagReassembler {
  import opened Bytes
  import opened Reassembler
  import opened Overlay

  datatype Value = Value(buf: seq<Byte>, sid: Option<U16>, n: nat)

  const EMPTY := Value([], None, 0)

  // The value once a segment of another session has discarded what was there.
  function Rebased(v: Value, s: Segment): Value {
    if v.sid.Some? && v.sid.value != s.session then EMPTY else v
  }

  function AfterSegment(v: Value, s: Segment): Value {
    if !s.more then EMPTY
    else Value(Written(Rebased(v, s).buf, s), Some(s.session), Rebased(v, s).n + 1)
  }

  function Result(v: Value, s: Segment): Option<seq<Byte>> {
    if s.more then None else Some(Written(Rebased(v, s).buf, s)[..End(s)])
  }

  /**
   * One feed of the tool: a segment of another session is fed as to a new tool; the bytes go over those
   * before, with zeros where there were none; a final segment gives the bytes up to its end and starts over.
   */
  lemma FeedExactly(v: Value, s: Segment)
    ensures v.sid.Some? && v.sid.value != s.session ==>
              Result(v, s) == Result(EMPTY, s) && AfterSegment(v, s) == AfterSegment(EMPTY, s)
    ensures v.sid.None? || v.sid.value == s.session ==>
              && (s.more ==> Result(v, s) == None && AfterSegment(v, s).n == v.n + 1)
              && (s.more ==> AfterSegment(v, s).sid == Some(s.session))
              && (!s.more ==> Result(v, s).Some? && AfterSegment(v, s) == Value([], None, 0))
              && (!s.more ==> |Result(v, s).value| == s.offset + |s.data|)
    ensures v.sid.None? || v.sid.value == s.session ==>
              var b := if s.more then AfterSegment(v, s).buf else Result(v, s).value;
              forall i :: 0 <= i < |b| ==>
                b[i] == if s.offset <= i < s.offset + |s.data| then s.data[i - s.offset]
                        else if i < |v.buf| then v.buf[i] else 0
  {
  }

  class TpReasm {
    var buf: seq<Byte>
    var sid: Option<U16>
    var n: nat

    function Current(): Value
      reads this
    {
      Value(buf, sid, n)
    }

    constructor ()
      ensures Current() == EMPTY
    {
      buf, sid, n := [], None, 0;
    }

    method Clear()
      modifies this
      ensures Current() == EMPTY
    {
      buf, sid, n := [], None, 0;
    }

    // Grow if need be, then copy.
    method Store(s: Segment)
      modifies this`buf
      ensures buf == Written(old(buf), s)
    {
      var end := s.offset + |s.data|;
      if end > |buf| {
        buf := Grown(buf, end);
      }
      CopiedIn(old(buf), s, buf);
      buf := buf[..s.offset] + s.data + buf[end..];
    }

    method Feed(s: Segment) returns (payload: Option<seq<Byte>>, count: nat)
      modifies this
      ensures Current() == AfterSegment(old(Current()), s)
      ensures payload == Result(old(Current()), s)
      ensures count == Rebased(old(Current()), s).n + 1
    {
      if sid.Some? && sid.value != s.session {
        Clear();
      }
      if sid.None? {
        sid := Some(s.session);
      }
      var end := s.offset + |s.data|;
      Store(s);
      n := n + 1;
      count := n;
      if !s.more {
        payload := Some(buf[..end]);
        Clear();
      } else {
        payload := None;
      }
    }
  }

  function Results(v: Value, segments: seq<Segment>): (rs: seq<Option<seq<Byte>>>)
    ensures |rs| == |segments|
    decreases |segments|
  {
    if segments == [] then []
    else [Result(v, segments[0])] + Results(AfterSegment(v, segments[0]), segments[1..])
  }

  // The segments of the message that `s` joins, given those of the message open before it.
  function Joined(open: seq<Segment>, s: Segment): (segments: seq<Segment>)
    ensures segments != [] && segments[|segments| - 1] == s
  {
    (if open != [] && open[|open| - 1].session != s.session then [] else open) + [s]
  }

  /** Every final segment has data and completes a message covered by the segments of its own session. */
  predicate EachMessageCovered(open: seq<Segment>, segments: seq<Segment>)
    decreases |segments|
  {
    segments == [] ||
    var s := segments[0];
    if s.more then EachMessageCovered(Joined(open, s), segments[1..])
    else s.data != [] && Coverage(Joined(open, s), End(s)) && EachMessageCovered([], segments[1..])
  }

  // The buffer holds 0 wherever the segments leave a gap before `end`.
  predicate ZeroInGaps(buffer: seq<Byte>, segments: seq<Segment>, end: nat) {
    forall i: nat :: i < end && i < |buffer| && !CoveredBy(segments, i) ==> buffer[i] == 0
  }

  // What the driver's buffer held before the message that `s` joins.
  function Before(buffer: seq<Byte>, start: seq<Byte>, open: seq<Segment>, s: Segment): seq<Byte> {
    if open == [] || open[|open| - 1].session != s.session then buffer else start
  }

  /**
   * Every final segment has data, and where the message it completes has gaps the driver's buffer held
   * zeros before that message. `start` is the buffer before the open message.
   */
  predicate GapsHoldZero(buffer: seq<Byte>, start: seq<Byte>, open: seq<Segment>, segments: seq<Segment>)
    decreases |segments|
  {
    segments == [] ||
    var s := segments[0];
    var b := Overlaid(buffer, s);
    if s.more then GapsHoldZero(b, Before(buffer, start, open, s), Joined(open, s), segments[1..])
    else
      && s.data != [] && ZeroInGaps(Before(buffer, start, open, s), Joined(open, s), End(s))
      && GapsHoldZero(b, b, [], segments[1..])
  }

  // The byte at a position, 0 past the end.
  function ByteAt(b: seq<Byte>, i: nat): Byte {
    if i < |b| then b[i] else 0
  }

  ghost predicate SameBytes(a: seq<Byte>, b: seq<Byte>) {
    forall i: nat :: ByteAt(a, i) == ByteAt(b, i)
  }

  // The tool's value when exactly `open` has been fed since its last reset.
  ghost predicate Holding(v: Value, open: seq<Segment>) {
    && SameBytes(v.buf, WrittenAll([], open))
    && v.sid == (if open == [] then None else Some(open[|open| - 1].session)) && v.n == |open|
  }

  /** The count the tool reports is that of the segments of the message so far, this one included. */
  lemma CountIsOfMessage(v: Value, open: seq<Segment>, s: Segment)
    requires Holding(v, open)
    ensures Rebased(v, s).n + 1 == |Joined(open, s)|
  {
  }

  lemma WrittenSame(a: seq<Byte>, b: seq<Byte>, s: Segment)
    requires SameBytes(a, b)
    ensures SameBytes(Written(a, s), Overlaid(b, s))
  {
    forall i: nat ensures ByteAt(Written(a, s), i) == ByteAt(Overlaid(b, s), i) {
      assert ByteAt(a, i) == ByteAt(b, i);
    }
  }

  lemma WrittenAllLast(a: seq<Byte>, segments: seq<Segment>, s: Segment)
    ensures WrittenAll(a, segments + [s]) == Overlaid(WrittenAll(a, segments), s)
  {
    WrittenAllAdds(a, segments, [s]);
    WrittenAllOne(WrittenAll(a, segments), s);
  }

  lemma HoldingJoined(v: Value, open: seq<Segment>, s: Segment)
    requires Holding(v, open)
    ensures SameBytes(Written(Rebased(v, s).buf, s), WrittenAll([], Joined(open, s)))
  {
    var base := if open != [] && open[|open| - 1].session != s.session then [] else open;
    assert SameBytes(Rebased(v, s).buf, WrittenAll([], base));
    WrittenAllLast([], base, s);
    WrittenSame(Rebased(v, s).buf, WrittenAll([], base), s);
  }

  lemma FirstBytesSame(a: seq<Byte>, b: seq<Byte>, n: nat)
    requires SameBytes(a, b) && n <= |a| && n <= |b|
    ensures a[..n] == b[..n]
  {
    forall i | 0 <= i < n ensures a[i] == b[i] {
      assert ByteAt(a, i) == ByteAt(b, i);
    }
  }

  // What the tool delivers for a final segment with data.
  lemma ToolCompletes(v: Value, open: seq<Segment>, s: Segment)
    requires Holding(v, open) && Completes(s)
    ensures Result(v, s) == Some(MessagePayload([], Joined(open, s)))
  {
    HoldingJoined(v, open, s);
    WrittenAllSpans([], Joined(open, s));
    FirstBytesSame(Written(Rebased(v, s).buf, s), WrittenAll([], Joined(open, s)), End(s));
  }

  // The driver's buffer is what it held before the open message, overlaid with that message.
  lemma DriverJoined(buffer: seq<Byte>, start: seq<Byte>, open: seq<Segment>, s: Segment)
    requires buffer == WrittenAll(start, open)
    ensures Overlaid(buffer, s) == WrittenAll(Before(buffer, start, open, s), Joined(open, s))
  {
    if open == [] || open[|open| - 1].session != s.session {
      assert Joined(open, s) == [] + [s];
      WrittenAllLast(buffer, [], s);
    } else {
      WrittenAllLast(start, open, s);
    }
  }

  lemma PayloadsAgreeIffZero(buffer: seq<Byte>, segments: seq<Segment>)
    requires segments != [] && Completes(segments[|segments| - 1])
    ensures MessagePayload(buffer, segments) == MessagePayload([], segments)
       <==> ZeroInGaps(buffer, segments, End(segments[|segments| - 1]))
  {
    var p, q, end := MessagePayload(buffer, segments), MessagePayload([], segments), End(segments[|segments| - 1]);
    forall i: nat | i < end
      ensures p[i] == (if CoveredBy(segments, i) then q[i] else if i < |buffer| then buffer[i] else 0)
      ensures !CoveredBy(segments, i) ==> q[i] == 0
    {
      PayloadBytes(buffer, segments, i);
      PayloadBytes([], segments, i);
    }
    if ZeroInGaps(buffer, segments, end) {
      assert forall i: nat :: i < end ==> p[i] == q[i];
    }
  }

  // One feed: whether both deliver the same.
  lemma FeedAgreesIff(buffer: seq<Byte>, start: seq<Byte>, v: Value, open: seq<Segment>, s: Segment)
    requires Holding(v, open) && buffer == WrittenAll(start, open)
    ensures Result(v, s) == (if Completes(s) then Some(Overlaid(buffer, s)[..End(s)]) else None)
       <==> s.more || (s.data != [] && ZeroInGaps(Before(buffer, start, open, s), Joined(open, s), End(s)))
  {
    if Completes(s) {
      DriverJoined(buffer, start, open, s);
      ToolCompletes(v, open, s);
      PayloadsAgreeIffZero(Before(buffer, start, open, s), Joined(open, s));
    }
  }

  lemma HoldingNext(v: Value, open: seq<Segment>, s: Segment)
    requires Holding(v, open)
    ensures Holding(AfterSegment(v, s), if s.more then Joined(open, s) else [])
  {
    HoldingJoined(v, open, s);
  }

  lemma BothFirst(buffer: seq<Byte>, v: Value, segments: seq<Segment>)
    requires segments != []
    ensures var s := segments[0];
            var here := Result(v, s) == if Completes(s) then Some(Overlaid(buffer, s)[..End(s)]) else None;
            (Deliveries(buffer, segments) == Results(v, segments) <==>
             here && Deliveries(Overlaid(buffer, s), segments[1..]) == Results(AfterSegment(v, s), segments[1..]))
  {
    var ds, rs := Deliveries(buffer, segments), Results(v, segments);
    assert ds[1..] == Deliveries(Overlaid(buffer, segments[0]), segments[1..]);
    assert rs[1..] == Results(AfterSegment(v, segments[0]), segments[1..]);
    assert ds == [ds[0]] + ds[1..] && rs == [rs[0]] + rs[1..];
  }

  /**
   * Driver and tool, on any sequence of segments whatever: they deliver the same at every feed exactly
   * when every final segment has data and the driver's leftover bytes are zero in the gaps of each
   * message that is completed.
   */
  lemma {:induction false} AgreeIffGapsHoldZero(buffer: seq<Byte>, start: seq<Byte>, v: Value, open: seq<Segment>,
                                                segments: seq<Segment>)
    requires Holding(v, open) && buffer == WrittenAll(start, open)
    ensures Deliveries(buffer, segments) == Results(v, segments) <==> GapsHoldZero(buffer, start, open, segments)
    decreases |segments|
  {
    if segments != [] {
      var s := segments[0];
      var b := Overlaid(buffer, s);
      BothFirst(buffer, v, segments);
      FeedAgreesIff(buffer, start, v, open, s);
      HoldingNext(v, open, s);
      DriverJoined(buffer, start, open, s);
      if s.more {
        AgreeIffGapsHoldZero(b, Before(buffer, start, open, s), AfterSegment(v, s), Joined(open, s), segments[1..]);
      } else {
        assert WrittenAll(b, []) == b;
        AgreeIffGapsHoldZero(b, b, EMPTY, [], segments[1..]);
      }
    }
  }

  /** The whole run, from a new tool and a driver whose buffer holds anything at all, under any clock and resets. */
  lemma RunsAgreeIff(st: State, history: seq<Event>)
    requires st.totalSize <= |st.buffer|
    ensures Observed(st, history) == Results(EMPTY, SegmentsOf(history))
       <==> GapsHoldZero(st.buffer, st.buffer, [], SegmentsOf(history))
  {
    SessionsAndClockAreInert(st, history);
    AgreeIffGapsHoldZero(st.buffer, st.buffer, EMPTY, [], SegmentsOf(history));
  }

  // Messages without gaps have none that could hold anything.
  lemma {:induction false} CoveredHasNoGaps(buffer: seq<Byte>, start: seq<Byte>, open: seq<Segment>,
                                            segments: seq<Segment>)
    requires EachMessageCovered(open, segments)
    ensures GapsHoldZero(buffer, start, open, segments)
    decreases |segments|
  {
    if segments != [] {
      var s := segments[0];
      var b := Overlaid(buffer, s);
      if s.more {
        CoveredHasNoGaps(b, Before(buffer, start, open, s), Joined(open, s), segments[1..]);
      } else {
        CoveredHasNoGaps(b, b, [], segments[1..]);
      }
    }
  }

  /**
   * The driver's single reused buffer refines the tool's fresh ones: on every sequence of segments whose
   * final ones have data and complete covered messages, both complete at the same feeds with the same
   * payloads. Through SessionsAndClockAreInert this holds for any clock and any resets in between.
   */
  lemma DriverRefinesTool(buffer: seq<Byte>, start: seq<Byte>, v: Value, open: seq<Segment>, segments: seq<Segment>)
    requires Holding(v, open) && buffer == WrittenAll(start, open)
    requires EachMessageCovered(open, segments)
    ensures Deliveries(buffer, segments) == Results(v, segments)
  {
    CoveredHasNoGaps(buffer, start, open, segments);
    AgreeIffGapsHoldZero(buffer, start, v, open, segments);
  }

  /** The whole run, from a new tool and a driver whose buffer holds anything at all. */
  lemma RunsAgree(st: State, history: seq<Event>)
    requires st.totalSize <= |st.buffer|
    requires EachMessageCovered([], SegmentsOf(history))
    ensures Observed(st, history) == Results(EMPTY, SegmentsOf(history))
  {
    SessionsAndClockAreInert(st, history);
    DriverRefinesTool(st.buffer, st.buffer, EMPTY, [], SegmentsOf(history));
  }

  // ----- A single message, with gaps or not -----

  /** Non-empty segments of one session, the last of them final. */
  predicate OneMessage(segments: seq<Segment>) {
    && segments != [] && Completes(segments[|segments| - 1])
    && (forall k :: 0 <= k < |segments| ==> segments[k].data != [] && segments[k].session == segments[0].session)
    && (forall k :: 0 <= k < |segments| - 1 ==> segments[k].more)
  }

  lemma OneMessageRest(segments: seq<Segment>)
    requires OneMessage(segments) && |segments| > 1
    ensures OneMessage(segments[1..]) && segments[1..][0].session == segments[0].session && segments[0].more
    ensures segments[1..][|segments| - 2] == segments[|segments| - 1]
  {
    var rest := segments[1..];
    assert forall k :: 0 <= k < |rest| ==> rest[k] == segments[k + 1];
  }

  lemma PayloadFirst(buffer: seq<Byte>, segments: seq<Segment>)
    requires OneMessage(segments)
    ensures |segments| == 1 ==> MessagePayload(buffer, segments) == Written(buffer, segments[0])[..End(segments[0])]
    ensures |segments| > 1 ==>
              && OneMessage(segments[1..])
              && MessagePayload(buffer, segments) == MessagePayload(Written(buffer, segments[0]), segments[1..])
  {
    assert WrittenAll(buffer, segments) == WrittenAll(Written(buffer, segments[0]), segments[1..]);
    if |segments| > 1 { OneMessageRest(segments); }
  }

  lemma ToolFirst(v: Value, segments: seq<Segment>)
    requires OneMessage(segments) && (v.sid == None || v.sid == Some(segments[0].session))
    ensures |segments| == 1 ==> Results(v, segments)[0] == Some(Written(v.buf, segments[0])[..End(segments[0])])
    ensures |segments| > 1 ==>
              var next := AfterSegment(v, segments[0]);
              && next.buf == Written(v.buf, segments[0]) && next.sid == Some(segments[0].session)
              && Results(v, segments)[|segments| - 1] == Results(next, segments[1..])[|segments| - 2]
  {
  }

  /** The tool delivers what the segments write over what it holds. */
  lemma {:induction false} ToolDelivers(v: Value, segments: seq<Segment>)
    requires OneMessage(segments) && (v.sid == None || v.sid == Some(segments[0].session))
    ensures Results(v, segments)[|segments| - 1] == Some(MessagePayload(v.buf, segments))
    decreases |segments|
  {
    PayloadFirst(v.buf, segments);
    ToolFirst(v, segments);
    if |segments| > 1 {
      OneMessageRest(segments);
      ToolDelivers(AfterSegment(v, segments[0]), segments[1..]);
    }
  }

  /**
   * A message with gaps, fed to both: from any state of the driver, under any clock and resets, they
   * deliver the same exactly when the driver's leftover bytes in the gaps are zero.
   */
  lemma GapsAgreeIffZero(st: State, history: seq<Event>)
    requires st.totalSize <= |st.buffer|
    requires OneMessage(SegmentsOf(history))
    ensures var segments, n := SegmentsOf(history), |SegmentsOf(history)| - 1;
            && |Observed(st, history)| == |Results(EMPTY, segments)| == n + 1
            && (Observed(st, history)[n] == Results(EMPTY, segments)[n]
                <==> ZeroInGaps(st.buffer, segments, End(segments[n])))
  {
    var segments := SegmentsOf(history);
    SessionsAndClockAreInert(st, history);
    DeliversPayload(st.buffer, segments);
    ToolDelivers(EMPTY, segments);
    PayloadsAgreeIffZero(st.buffer, segments);
  }

  function Repeated(b: Byte, n: nat): (p: seq<Byte>)
    ensures |p| == n && forall i :: 0 <= i < n ==> p[i] == b
  {
    seq(n, _ => b)
  }

  const PRIOR := Segment(Repeated(7, 32), 0, false, 1)
  const HEAD := Segment(Repeated(1, 8), 0, true, 2)
  const TAIL := Segment(Repeated(2, 8), 16, false, 2)

  const GAPPED: seq<Segment> := [HEAD, TAIL]

  // The three of them fed.
  function AllThree(a: Clock, b: Clock, c: Clock): seq<Event> {
    [Fed(PRIOR, a), Fed(HEAD, b), Fed(TAIL, c)]
  }

  lemma ThreeFed(a: Clock, b: Clock, c: Clock)
    ensures SegmentsOf(AllThree(a, b, c)) == [PRIOR] + GAPPED
  {
    assert [Fed(TAIL, c)][1..] == [];
    assert [Fed(HEAD, b), Fed(TAIL, c)][1..] == [Fed(TAIL, c)];
    assert AllThree(a, b, c)[1..] == [Fed(HEAD, b), Fed(TAIL, c)];
    assert SegmentsOf([Fed(TAIL, c)]) == [TAIL];
    assert SegmentsOf([Fed(HEAD, b), Fed(TAIL, c)]) == [HEAD, TAIL];
  }

  // Over any buffer, the gap delivers what the buffer held there.
  lemma GapDelivers(buffer: seq<Byte>)
    ensures var ds := Deliveries(buffer, GAPPED);
            && ds[0] == None && ds[1].Some? && |ds[1].value| == 24
            && ds[1].value[8] == if 8 < |buffer| then buffer[8] else 0
  {
    assert !CoveredBy(GAPPED, 8);
    DeliversPayload(buffer, GAPPED);
    DeliveredBytes(buffer, GAPPED, 8);
  }

  lemma PriorDelivers()
    ensures Deliveries([], [PRIOR] + GAPPED) == [Some(PRIOR.data)] + Deliveries(PRIOR.data, GAPPED)
    ensures Results(EMPTY, [PRIOR] + GAPPED) == [Some(PRIOR.data)] + Results(EMPTY, GAPPED)
  {
    var leftover := Written([], PRIOR);
    assert leftover == PRIOR.data == leftover[..32];
    DeliveriesFirst([], PRIOR, GAPPED);
    assert ([PRIOR] + GAPPED)[1..] == GAPPED;
  }

  lemma ToolSeesZero()
    ensures var rs := Results(EMPTY, GAPPED);
            rs[0] == None && rs[1] == Deliveries([], GAPPED)[1]
  {
    ToolDelivers(EMPTY, GAPPED);
    DeliversPayload([], GAPPED);
  }

  // The prior message whole, nothing, and then 24 bytes of which one is in the hole.
  predicate Seen(ds: seq<Option<seq<Byte>>>, hole: Byte) {
    && |ds| == 3 && ds[0] == Some(PRIOR.data) && ds[1] == None
    && ds[2].Some? && |ds[2].value| == 24 && ds[2].value[8] == hole
  }

  lemma SeenFrom(first: Option<seq<Byte>>, rest: seq<Option<seq<Byte>>>, ds: seq<Option<seq<Byte>>>, hole: Byte)
    requires ds == [first] + rest && first == Some(PRIOR.data) && |rest| == 2 && rest[0] == None
    requires rest[1].Some? && |rest[1].value| == 24 && rest[1].value[8] == hole
    ensures Seen(ds, hole)
  {
    assert ds[1] == rest[0] && ds[2] == rest[1];
  }

  /**
   * A complete message and then one with a hole, fed to a new driver and a new tool: they agree on the
   * first, and in the second the driver delivers an old byte, 7, where the tool delivers 0.
   */
  lemma StaleByteShows(a: Clock, b: Clock, c: Clock)
    ensures Seen(Observed(FRESH, AllThree(a, b, c)), 7)
    ensures Seen(Results(EMPTY, SegmentsOf(AllThree(a, b, c))), 0)
  {
    ThreeFed(a, b, c);
    SessionsAndClockAreInert(FRESH, AllThree(a, b, c));
    PriorDelivers();
    ToolSeesZero();
    GapDelivers(PRIOR.data);
    GapDelivers([]);
    SeenFrom(Some(PRIOR.data), Deliveries(PRIOR.data, GAPPED), Deliveries([], [PRIOR] + GAPPED), 7);
    SeenFrom(Some(PRIOR.data), Results(EMPTY, GAPPED), Results(EMPTY, [PRIOR] + GAPPED), 0);
  }

  const EMPTY_FINAL := Segment([], 0, false, 1)

  /** A final segment without data, fed to both: the tool delivers an empty payload and the driver nothing. */
  lemma EmptyFinalShows(st: State, clock: Clock)
    requires st.totalSize <= |st.buffer|
    ensures Observed(st, [Fed(EMPTY_FINAL, clock)]) == [None]
    ensures Results(EMPTY, [EMPTY_FINAL]) == [Some([])]
  {
    assert [Fed(EMPTY_FINAL, clock)][1..] == [] && [EMPTY_FINAL][1..] == [];
    assert Written([], EMPTY_FINAL)[..0] == [];
  }
}
