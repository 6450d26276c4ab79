/** What the never-cleared reassembly buffer holds after any history, and which messages it delivers. */
module Overlay {
  import opened Bytes
  import opened Reassembler

  datatype Event = Fed(segment: Segment, clock: Clock) | Reset

  // ----- Any history: the last writer wins -----

  function After(st: State, history: seq<Event>): State {
    if history == [] then st
    else
      var before := After(st, history[..|history| - 1]);
      match history[|history| - 1]
      case Fed(s, clock) => AfterFeed(before, s, clock)
      case Reset => AfterReset(before)
  }

  predicate Covers(s: Segment, i: nat) {
    s.offset <= i < End(s)
  }

  /** The byte of the most recent segment covering position i, or 0 if none ever did. */
  function LastWritten(history: seq<Event>, i: nat): Byte {
    if history == [] then 0
    else
      var last := history[|history| - 1];
      if last.Fed? && Covers(last.segment, i) then last.segment.data[i - last.segment.offset]
      else LastWritten(history[..|history| - 1], i)
  }

  // The furthest end of the non-empty segments so far.
  function Extent(history: seq<Event>): nat {
    if history == [] then 0
    else
      var last, rest := history[|history| - 1], Extent(history[..|history| - 1]);
      if last.Fed? && last.segment.data != [] && End(last.segment) > rest then End(last.segment) else rest
  }

  /** The buffer is the overlay of everything ever fed: resets, sessions and the clock leave no trace in it. */
  lemma {:induction false} BufferIsOverlay(history: seq<Event>)
    ensures var b := After(FRESH, history).buffer;
            |b| == Extent(history) && forall i :: 0 <= i < |b| ==> b[i] == LastWritten(history, i)
    ensures forall i: nat :: i >= Extent(history) ==> LastWritten(history, i) == 0
  {
    if history != [] {
      BufferIsOverlay(history[..|history| - 1]);
    }
  }

  /** A completing feed exposes exactly the bytes up to its own end, each from its last writer. */
  lemma CompletionExposes(history: seq<Event>, s: Segment, clock: Clock)
    requires Completes(s)
    ensures var st := After(FRESH, history + [Fed(s, clock)]);
            && st.totalSize == End(s) <= |st.buffer| && !st.inProgress
            && forall i :: 0 <= i < End(s) ==>
                 st.buffer[i] == if Covers(s, i) then s.data[i - s.offset] else LastWritten(history, i)
  {
    var h := history + [Fed(s, clock)];
    assert h[..|h| - 1] == history;
    BufferIsOverlay(h);
    BufferIsOverlay(history);
  }

  // The buffer with the segment fed: one without data leaves it alone.
  function Overlaid(buffer: seq<Byte>, s: Segment): seq<Byte> {
    if s.data == [] then buffer else Written(buffer, s)
  }

  // ----- What a history delivers -----

  // One entry a Feed: the payload it completed, if any.
  function Deliveries(buffer: seq<Byte>, segments: seq<Segment>): (ds: seq<Option<seq<Byte>>>)
    ensures |ds| == |segments|
    decreases |segments|
  {
    if segments == [] then []
    else
      var s := segments[0];
      var b := Overlaid(buffer, s);
      [if Completes(s) then Some(b[..End(s)]) else None] + Deliveries(b, segments[1..])
  }

  // The same read off the reassembler itself, run over feeds and resets.
  function Observed(st: State, history: seq<Event>): seq<Option<seq<Byte>>>
    requires st.totalSize <= |st.buffer|
    decreases |history|
  {
    if history == [] then []
    else
      match history[0]
      case Fed(s, clock) =>
        var st' := AfterFeed(st, s, clock);
        [if Completes(s) then Some(st'.buffer[..st'.totalSize]) else None] + Observed(st', history[1..])
      case Reset => Observed(AfterReset(st), history[1..])
  }

  function SegmentsOf(history: seq<Event>): (segments: seq<Segment>)
    decreases |history|
  {
    if history == [] then []
    else (match history[0] case Fed(s, _) => [s] case Reset => []) + SegmentsOf(history[1..])
  }

  /**
   * Session ids, the clock, the 100 ms timeout and resets never change what is delivered: the payloads
   * are a function of the segments' bytes, offsets and more flags and of the starting buffer alone.
   */
  lemma {:induction false} SessionsAndClockAreInert(st: State, history: seq<Event>)
    requires st.totalSize <= |st.buffer|
    ensures Observed(st, history) == Deliveries(st.buffer, SegmentsOf(history))
    decreases |history|
  {
    if history != [] {
      match history[0]
      case Fed(s, clock) =>
        SessionsAndClockAreInert(AfterFeed(st, s, clock), history[1..]);
        assert SegmentsOf(history) == [s] + SegmentsOf(history[1..]);
      case Reset =>
        SessionsAndClockAreInert(AfterReset(st), history[1..]);
        assert SegmentsOf(history) == SegmentsOf(history[1..]);
    }
  }

  // ----- One message, on top of whatever the buffer held -----

  function WrittenAll(buffer: seq<Byte>, segments: seq<Segment>): seq<Byte>
    decreases |segments|
  {
    if segments == [] then buffer
    else WrittenAll(Overlaid(buffer, segments[0]), segments[1..])
  }

  lemma {:induction false} WrittenAllAdds(buffer: seq<Byte>, a: seq<Segment>, b: seq<Segment>)
    ensures WrittenAll(buffer, a + b) == WrittenAll(WrittenAll(buffer, a), b)
    decreases |a|
  {
    if a == [] {
      assert a + b == b;
    } else {
      assert (a + b)[1..] == a[1..] + b;
      WrittenAllAdds(Overlaid(buffer, a[0]), a[1..], b);
    }
  }

  lemma WrittenAllOne(buffer: seq<Byte>, s: Segment)
    ensures WrittenAll(buffer, [s]) == Overlaid(buffer, s)
  {
    assert [s][1..] == [];
  }

  predicate CoveredBy(segments: seq<Segment>, i: nat) {
    exists k :: 0 <= k < |segments| && Covers(segments[k], i)
  }

  predicate Coverage(segments: seq<Segment>, end: nat) {
    forall i: nat :: i < end ==> CoveredBy(segments, i)
  }

  /** Covered positions depend on the segments alone; uncovered ones keep the old byte, or 0 past the old buffer. */
  lemma {:induction false} WrittenAllAt(a: seq<Byte>, b: seq<Byte>, segments: seq<Segment>, i: nat)
    ensures var wa, wb := WrittenAll(a, segments), WrittenAll(b, segments);
            && |wa| >= |a|
            && (CoveredBy(segments, i) ==> i < |wa| && i < |wb| && wa[i] == wb[i])
            && (!CoveredBy(segments, i) && i < |wa| ==> wa[i] == if i < |a| then a[i] else 0)
    decreases |segments|
  {
    if segments != [] {
      var s, rest := segments[0], segments[1..];
      var a' := Overlaid(a, s);
      var b' := Overlaid(b, s);
      WrittenAllAt(a', b', rest, i);
      CoveredByFirst(segments, i);
      if Covers(s, i) && !CoveredBy(rest, i) {
        WrittenAllAt(b', a', rest, i);
      }
    }
  }

  lemma CoveredByFirst(segments: seq<Segment>, i: nat)
    requires segments != []
    ensures CoveredBy(segments, i) <==> Covers(segments[0], i) || CoveredBy(segments[1..], i)
  {
    if CoveredBy(segments, i) {
      var k :| 0 <= k < |segments| && Covers(segments[k], i);
      if k > 0 { assert segments[1..][k - 1] == segments[k]; }
    }
    if CoveredBy(segments[1..], i) {
      var k :| 0 <= k < |segments| - 1 && Covers(segments[1..][k], i);
      assert segments[k + 1] == segments[1..][k];
    }
  }

  lemma {:induction false} WrittenAllSpans(a: seq<Byte>, segments: seq<Segment>)
    requires segments != [] && segments[|segments| - 1].data != []
    ensures |WrittenAll(a, segments)| >= End(segments[|segments| - 1])
    decreases |segments|
  {
    var a' := Overlaid(a, segments[0]);
    if |segments| == 1 {
      assert WrittenAll(a, segments) == a';
    } else {
      WrittenAllSpans(a', segments[1..]);
    }
  }

  // The payload of a message whose last segment completes it.
  function MessagePayload(buffer: seq<Byte>, segments: seq<Segment>): (p: seq<Byte>)
    requires segments != [] && Completes(segments[|segments| - 1])
    ensures |p| == End(segments[|segments| - 1])
  {
    WrittenAllSpans(buffer, segments);
    WrittenAll(buffer, segments)[..End(segments[|segments| - 1])]
  }

  // What the last segment delivers.
  function Delivered(buffer: seq<Byte>, segments: seq<Segment>): Option<seq<Byte>>
    requires segments != []
  {
    Deliveries(buffer, segments)[|segments| - 1]
  }

  /** Feeding the segments delivers the message's payload at the last of them. */
  lemma {:induction false} DeliversPayload(buffer: seq<Byte>, segments: seq<Segment>)
    requires segments != [] && Completes(segments[|segments| - 1])
    ensures Delivered(buffer, segments) == Some(MessagePayload(buffer, segments))
    decreases |segments|
  {
    var b := Overlaid(buffer, segments[0]);
    if |segments| == 1 {
      assert WrittenAll(buffer, segments) == b;
    } else {
      DeliversPayload(b, segments[1..]);
      assert Deliveries(buffer, segments)[1..] == Deliveries(b, segments[1..]);
    }
  }

  lemma CoveredIndependent(segments: seq<Segment>, a: seq<Byte>, b: seq<Byte>)
    requires segments != [] && Completes(segments[|segments| - 1])
    requires Coverage(segments, End(segments[|segments| - 1]))
    ensures MessagePayload(a, segments) == MessagePayload(b, segments)
  {
    var p, q := MessagePayload(a, segments), MessagePayload(b, segments);
    forall i | 0 <= i < |p| ensures p[i] == q[i] {
      WrittenAllAt(a, b, segments, i);
    }
  }

  lemma GapShows(segments: seq<Segment>, i: nat)
    requires segments != [] && Completes(segments[|segments| - 1])
    requires i < End(segments[|segments| - 1]) && !CoveredBy(segments, i)
    ensures exists a: seq<Byte>, b: seq<Byte> :: Delivered(a, segments) != Delivered(b, segments)
  {
    var end := End(segments[|segments| - 1]);
    var a, b: seq<Byte> := Zeros(end), seq(end, _ => 1);
    WrittenAllAt(a, b, segments, i);
    WrittenAllAt(b, a, segments, i);
    DeliversPayload(a, segments);
    DeliversPayload(b, segments);
    assert MessagePayload(a, segments)[i] != MessagePayload(b, segments)[i];
  }

  /**
   * What a message delivers is independent of what the buffer held before exactly when its segments
   * cover it; otherwise bytes of older messages show through.
   */
  lemma IndependentIffCovered(segments: seq<Segment>)
    requires segments != [] && Completes(segments[|segments| - 1])
    ensures Coverage(segments, End(segments[|segments| - 1]))
       <==> forall a: seq<Byte>, b: seq<Byte> :: Delivered(a, segments) == Delivered(b, segments)
  {
    if Coverage(segments, End(segments[|segments| - 1])) {
      forall a: seq<Byte>, b: seq<Byte> ensures Delivered(a, segments) == Delivered(b, segments) {
        CoveredIndependent(segments, a, b);
        DeliversPayload(a, segments);
        DeliversPayload(b, segments);
      }
    } else {
      var i: nat :| i < End(segments[|segments| - 1]) && !CoveredBy(segments, i);
      GapShows(segments, i);
    }
  }

  /** The payload byte by byte: the segments' own bytes where they reach, the leftover byte in a gap. */
  lemma PayloadBytes(buffer: seq<Byte>, segments: seq<Segment>, i: nat)
    requires segments != [] && Completes(segments[|segments| - 1]) && i < End(segments[|segments| - 1])
    ensures MessagePayload(buffer, segments)[i]
         == if CoveredBy(segments, i) then MessagePayload([], segments)[i] else if i < |buffer| then buffer[i] else 0
  {
    WrittenAllSpans(buffer, segments);
    WrittenAllAt(buffer, [], segments, i);
  }

  /** So byte by byte for what is delivered: in a gap the leftover byte of the earlier buffer, or 0 beyond it. */
  lemma DeliveredBytes(buffer: seq<Byte>, segments: seq<Segment>, i: nat)
    requires segments != [] && Completes(segments[|segments| - 1]) && i < End(segments[|segments| - 1])
    ensures var own, p := Delivered([], segments), Delivered(buffer, segments);
            && p.Some? && own.Some? && |p.value| == |own.value| == End(segments[|segments| - 1])
            && p.value[i] == if CoveredBy(segments, i) then own.value[i] else if i < |buffer| then buffer[i] else 0
  {
    DeliversPayload(buffer, segments);
    DeliversPayload([], segments);
    PayloadBytes(buffer, segments, i);
  }

  // ----- A message cut into segments, in order -----

  // The message from byte `at` on, in segments of as many 16-byte units as `cuts` says and a last one with the rest.
  function Cut(msg: seq<Byte>, at: nat, cuts: seq<nat>, session: U16): (segments: seq<Segment>)
    requires at < |msg|
    decreases |cuts|
  {
    if cuts == [] || at + 16 * cuts[0] >= |msg| then [Segment(msg[at..], at, false, session)]
    else
      [Segment(msg[at..at + 16 * cuts[0]], at, true, session)] + Cut(msg, at + 16 * cuts[0], cuts[1..], session)
  }

  // The first n bytes of the message are in place.
  predicate Placed(buffer: seq<Byte>, msg: seq<Byte>, n: nat) {
    n <= |buffer| && n <= |msg| && forall i :: 0 <= i < n ==> buffer[i] == msg[i]
  }

  lemma DeliveriesFirst(buffer: seq<Byte>, s: Segment, rest: seq<Segment>)
    ensures var b := Overlaid(buffer, s);
            Deliveries(buffer, [s] + rest) == [if Completes(s) then Some(b[..End(s)]) else None] + Deliveries(b, rest)
  {
    assert ([s] + rest)[1..] == rest;
  }

  // Nothing up to the last entry, and there x.
  predicate OnlyLast<T(==)>(xs: seq<Option<T>>, x: T) {
    xs != [] && xs[|xs| - 1] == Some(x) && forall k :: 0 <= k < |xs| - 1 ==> xs[k] == None
  }

  lemma {:induction false} PresentOnlyLast<T>(xs: seq<Option<T>>, x: T)
    requires OnlyLast(xs, x)
    ensures Present(xs) == [x]
    decreases |xs|
  {
    if |xs| > 1 {
      assert xs[0] == None;
      PresentOnlyLast(xs[1..], x);
    }
  }

  lemma NoneBefore<T>(xs: seq<Option<T>>, x: T)
    requires OnlyLast(xs, x)
    ensures OnlyLast([None] + xs, x)
  {
    var all := [None] + xs;
    assert forall k :: 1 <= k < |all| ==> all[k] == xs[k - 1];
  }

  lemma MoreDelivers(buffer: seq<Byte>, s: Segment, rest: seq<Segment>, msg: seq<Byte>)
    requires s.more && OnlyLast(Deliveries(Overlaid(buffer, s), rest), msg)
    ensures OnlyLast(Deliveries(buffer, [s] + rest), msg)
  {
    DeliveriesFirst(buffer, s, rest);
    NoneBefore(Deliveries(Overlaid(buffer, s), rest), msg);
  }

  // A segment with its part of the message where it goes.
  predicate PartOf(s: Segment, msg: seq<Byte>) {
    End(s) <= |msg| && forall i :: s.offset <= i < End(s) ==> s.data[i - s.offset] == msg[i]
  }

  // The parts of a message from `at` on, one behind the other, only the last of them final.
  predicate InOrder(segments: seq<Segment>, msg: seq<Byte>, at: nat)
    decreases |segments|
  {
    && segments != [] && segments[0].offset == at && PartOf(segments[0], msg)
    && if |segments| == 1 then Completes(segments[0]) && End(segments[0]) == |msg|
       else segments[0].more && InOrder(segments[1..], msg, End(segments[0]))
  }

  lemma PlacedMore(buffer: seq<Byte>, msg: seq<Byte>, s: Segment)
    requires PartOf(s, msg) && Placed(buffer, msg, s.offset)
    ensures Placed(Overlaid(buffer, s), msg, End(s))
  {
  }

  lemma LastCompletes(buffer: seq<Byte>, msg: seq<Byte>, s: Segment)
    requires PartOf(s, msg) && Completes(s) && End(s) == |msg| && Placed(buffer, msg, s.offset)
    ensures OnlyLast(Deliveries(buffer, [s]), msg)
  {
    PlacedMore(buffer, msg, s);
    assert Written(buffer, s)[..|msg|] == msg;
    DeliveriesFirst(buffer, s, []);
    assert [s] + [] == [s];
  }

  /** A message whose parts are fed in order completes at the last only, with its bytes, whatever the buffer held. */
  lemma {:induction false} InOrderCompletes(buffer: seq<Byte>, msg: seq<Byte>, at: nat, segments: seq<Segment>)
    requires InOrder(segments, msg, at) && Placed(buffer, msg, at)
    ensures OnlyLast(Deliveries(buffer, segments), msg)
    decreases |segments|
  {
    var s := segments[0];
    assert segments == [s] + segments[1..];
    if |segments| == 1 {
      LastCompletes(buffer, msg, s);
    } else {
      PlacedMore(buffer, msg, s);
      InOrderCompletes(Overlaid(buffer, s), msg, End(s), segments[1..]);
      MoreDelivers(buffer, s, segments[1..], msg);
    }
  }

  lemma SliceIsPart(msg: seq<Byte>, from: nat, to: nat, more: bool, session: U16)
    requires from <= to <= |msg|
    ensures var s := Segment(msg[from..to], from, more, session); PartOf(s, msg) && End(s) == to
  {
  }

  lemma InOrderMore(s: Segment, rest: seq<Segment>, msg: seq<Byte>)
    requires PartOf(s, msg) && s.more && InOrder(rest, msg, End(s))
    ensures InOrder([s] + rest, msg, s.offset)
  {
    assert ([s] + rest)[1..] == rest;
  }

  lemma {:induction false} CutIsInOrder(msg: seq<Byte>, at: nat, cuts: seq<nat>, session: U16)
    requires at < |msg|
    ensures InOrder(Cut(msg, at, cuts, session), msg, at)
    decreases |cuts|
  {
    if cuts == [] || at + 16 * cuts[0] >= |msg| {
      SliceIsPart(msg, at, |msg|, false, session);
      assert msg[at..|msg|] == msg[at..];
    } else {
      var end := at + 16 * cuts[0];
      SliceIsPart(msg, at, end, true, session);
      CutIsInOrder(msg, end, cuts[1..], session);
      InOrderMore(Segment(msg[at..end], at, true, session), Cut(msg, end, cuts[1..], session), msg);
    }
  }

  /** In particular a message cut at any multiples of 16 bytes. */
  lemma CutCompletes(buffer: seq<Byte>, msg: seq<Byte>, cuts: seq<nat>, session: U16)
    requires msg != []
    ensures OnlyLast(Deliveries(buffer, Cut(msg, 0, cuts, session)), msg)
  {
    CutIsInOrder(msg, 0, cuts, session);
    InOrderCompletes(buffer, msg, 0, Cut(msg, 0, cuts, session));
  }
}
