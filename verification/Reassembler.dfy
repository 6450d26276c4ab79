/** SOME/IP-TP reassembly: one buffer, reused from message to message and never cleared. */
module Reassembler {
  import opened Bytes

  const DEFAULT_TIMEOUT: int := 100

  /** What one received TP datagram carries. */
  datatype Segment = Segment(data: seq<Byte>, offset: nat, more: bool, session: U16)

  /** The two readings of the steady clock, in milliseconds, that one Feed may take. */
  datatype Clock = Clock(check: int, start: int)

  datatype State = State(buffer: seq<Byte>, totalSize: nat, expectedTotal: nat, inProgress: bool, session: U16,
                         startedAt: int)

  const FRESH := State([], 0, 0, false, 0, 0)

  function End(s: Segment): nat {
    s.offset + |s.data|
  }

  predicate Completes(s: Segment) {
    s.data != [] && !s.more
  }

  // The buffer grown, with zeros, to at least n bytes.
  function Grown(buffer: seq<Byte>, n: nat): (b: seq<Byte>)
    ensures |b| == if n > |buffer| then n else |buffer|
    ensures forall i :: 0 <= i < |b| ==> b[i] == if i < |buffer| then buffer[i] else 0
  {
    if n > |buffer| then buffer + Zeros(n - |buffer|) else buffer
  }

  // The buffer with the segment's bytes copied in.
  function Written(buffer: seq<Byte>, s: Segment): (b: seq<Byte>)
    ensures |b| == if End(s) > |buffer| then End(s) else |buffer|
    ensures forall i :: 0 <= i < |b| ==>
              b[i] == if s.offset <= i < End(s) then s.data[i - s.offset] else if i < |buffer| then buffer[i] else 0
  {
    var g := Grown(buffer, End(s));
    g[..s.offset] + s.data + g[End(s)..]
  }

  function AfterReset(st: State): State {
    st.(totalSize := 0, expectedTotal := 0, inProgress := false, session := 0)
  }

  predicate TimedOut(st: State, now: int, timeout: int) {
    st.inProgress && now - st.startedAt > timeout
  }

  // The state once a new session or a stale one has been discarded and, if need be, a new one begun.
  function Opened(st: State, s: Segment, clock: Clock): State {
    var st1 := if st.inProgress && s.session != st.session then AfterReset(st) else st;
    var st2 := if TimedOut(st1, clock.check, DEFAULT_TIMEOUT) then AfterReset(st1) else st1;
    if st2.inProgress then st2
    else st2.(inProgress := true, session := s.session, startedAt := clock.start, expectedTotal := 0)
  }

  function AfterFeed(st: State, s: Segment, clock: Clock): State {
    if s.data == [] then st
    else
      var st1 := Opened(st, s, clock).(buffer := Written(st.buffer, s));
      if s.more then st1 else st1.(expectedTotal := End(s), totalSize := End(s), inProgress := false)
  }

  /**
   * Bookkeeping in one condition: a segment joins the message in progress exactly when the session is
   * the same and the message began at most 100 ms before; otherwise it begins a new one. A final
   * segment ends whichever it is.
   */
  lemma JoinsOrBegins(st: State, s: Segment, clock: Clock)
    ensures s.data == [] ==> AfterFeed(st, s, clock) == st
    ensures s.data != [] ==>
              var st' := AfterFeed(st, s, clock);
              var joins := st.inProgress && st.session == s.session && clock.check - st.startedAt <= 100;
              && st'.session == s.session && st'.inProgress == s.more
              && st'.startedAt == (if joins then st.startedAt else clock.start)
              && st'.expectedTotal == if !s.more then End(s) else if joins then st.expectedTotal else 0
  {
  }

  lemma CopiedIn(buffer: seq<Byte>, s: Segment, grown: seq<Byte>)
    requires grown == if End(s) > |buffer| then Grown(buffer, End(s)) else buffer
    ensures End(s) <= |grown| && grown[..s.offset] + s.data + grown[End(s)..] == Written(buffer, s)
  {
  }

  class SomeipTpReassembler {
    var buffer: seq<Byte>
    var totalSize: nat
    var expectedTotal: nat
    var inProgress: bool
    var sessionId: U16
    var startedAt: int

    function Value(): State
      reads this
    {
      State(buffer, totalSize, expectedTotal, inProgress, sessionId, startedAt)
    }

    constructor ()
      ensures Value() == FRESH
    {
      buffer, totalSize, expectedTotal, inProgress, sessionId, startedAt := [], 0, 0, false, 0, 0;
    }

    predicate IsTimedOut(now: int, timeout: int)
      reads this
    {
      inProgress && now - startedAt > timeout
    }

    /** The buffer is kept for reuse. */
    method Reset()
      modifies this
      ensures Value() == AfterReset(old(Value()))
      ensures totalSize == expectedTotal == 0 && !inProgress && sessionId == 0
      ensures buffer == old(buffer) && startedAt == old(startedAt)
    {
      totalSize := 0;
      expectedTotal := 0;
      inProgress := false;
      sessionId := 0;
    }

    // A new session or a stale message starts over; the start of a message takes the session and the time.
    method Begin(s: Segment, clock: Clock)
      modifies this
      ensures Value() == Opened(old(Value()), s, clock)
    {
      if inProgress && s.session != sessionId {
        Reset();
      }
      if inProgress && IsTimedOut(clock.check, DEFAULT_TIMEOUT) {
        Reset();
      }
      if !inProgress {
        inProgress := true;
        sessionId := s.session;
        startedAt := clock.start;
        expectedTotal := 0;
      }
    }

    // Grow if need be, then copy.
    method CopyIn(s: Segment)
      modifies this`buffer
      ensures buffer == Written(old(buffer), s)
    {
      var end := s.offset + |s.data|;
      if end > |buffer| {
        buffer := Grown(buffer, end);
      }
      CopiedIn(old(buffer), s, buffer);
      buffer := buffer[..s.offset] + s.data + buffer[end..];
    }

    method Feed(s: Segment, clock: Clock) returns (complete: bool)
      modifies this
      ensures Value() == AfterFeed(old(Value()), s, clock)
      ensures complete == Completes(s)
    {
      if s.data == [] {
        return false;
      }
      Begin(s, clock);
      CopyIn(s);
      var end := s.offset + |s.data|;
      if !s.more {
        expectedTotal := end;
        if |buffer| >= expectedTotal {
          totalSize := expectedTotal;
          inProgress := false;
          return true;
        }
      }
      return false;
    }

    function Payload(): (p: seq<Byte>)
      requires totalSize <= |buffer|
      reads this
    {
      buffer[..totalSize]
    }
  }
}
