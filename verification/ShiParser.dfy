/** The SHII payload: variable-length arrays, stored in capped slots. */
module Shii {
  import opened Bytes
  import opened Records
  import opened CommonHeader

  const MIN_SIZE: nat := 32
  const MAX_OPERATION_MODES: nat := 11
  const MAX_INPUT_SIGNALS: nat := 4
  const MAX_CALIBRATION_COMPONENTS: nat := 3

  /** Everything a payload carries, no array cut short. */
  datatype Wire = Wire(common: Common, modes: seq<Byte>, defect: Defect,
                       inputTypes: seq<Byte>, inputStatuses: seq<Byte>, timeSync: Byte,
                       components: seq<Byte>, statuses: seq<Byte>, states: seq<Byte>)

  datatype Defect = Defect(recognised: Byte, reason: Byte, supplyVoltage: Byte, temperature: Byte)

  /** A counted array of fixed capacity: the slots past the count are zero. */
  datatype Slots = Slots(count: nat, slots: seq<Byte>)

  datatype Message = Message(common: Common, modes: Slots, defect: Defect, inputTypes: Slots, inputStatuses: Slots,
                             timeSync: Byte, timeSyncOffset: F32, components: Slots, statuses: Slots, states: Slots)

  function Stored(bytes: seq<Byte>, capacity: nat): Slots {
    var n := Min(|bytes|, capacity);
    Slots(n, bytes[..n] + Zeros(capacity - n))
  }

  /** Parallel arrays stay aligned: slot i of each holds entry i of its array, up to one shared count. */
  lemma ParallelSlots(a: seq<Byte>, b: seq<Byte>, capacity: nat)
    requires |a| == |b|
    ensures var s, t := Stored(a, capacity), Stored(b, capacity);
            && s.count == t.count == Min(|a|, capacity) && |s.slots| == |t.slots| == capacity
            && (forall i :: 0 <= i < s.count ==> s.slots[i] == a[i] && t.slots[i] == b[i])
            && (forall i :: s.count <= i < capacity ==> s.slots[i] == 0 && t.slots[i] == 0)
  {
  }

  function MessageOf(w: Wire): Message {
    Message(w.common, Stored(w.modes, MAX_OPERATION_MODES), w.defect,
            Stored(w.inputTypes, MAX_INPUT_SIGNALS), Stored(w.inputStatuses, MAX_INPUT_SIGNALS), w.timeSync, 0,
            Stored(w.components, MAX_CALIBRATION_COMPONENTS), Stored(w.statuses, MAX_CALIBRATION_COMPONENTS),
            Stored(w.states, MAX_CALIBRATION_COMPONENTS))
  }

  // ----- The sender's side -----

  /** Arrays of equal declared length travel one behind the other. */
  predicate Sendable(w: Wire) {
    && |w.modes| < 0x100
    && |w.inputTypes| == |w.inputStatuses| < 0x100
    && |w.components| == |w.statuses| == |w.states| < 0x100
  }

  function DefectBytes(d: Defect): (p: seq<Byte>)
    ensures |p| == 4
  {
    [d.recognised, d.reason, d.supplyVoltage, d.temperature]
  }

  function CalibrationBytes(w: Wire): (p: seq<Byte>)
    requires Sendable(w)
  {
    [|w.components|] + (w.components + w.statuses + w.states)
  }

  function InputBytes(w: Wire, tail: seq<Byte>): (p: seq<Byte>)
    requires Sendable(w)
  {
    [|w.inputTypes|] + (w.inputTypes + w.inputStatuses) + tail
  }

  function ModeBytes(w: Wire, tail: seq<Byte>): (p: seq<Byte>)
    requires Sendable(w)
  {
    [|w.modes|] + w.modes + tail
  }

  // A message with more bytes behind it.
  function EncodeBefore(w: Wire, rest: seq<Byte>): (p: seq<Byte>)
    requires Sendable(w)
  {
    CommonBytes(w.common)
    + ModeBytes(w, DefectBytes(w.defect) + InputBytes(w, [w.timeSync] + (CalibrationBytes(w) + rest)))
  }

  function Encode(w: Wire): (p: seq<Byte>)
    requires Sendable(w)
  {
    EncodeBefore(w, [])
  }

  // ----- The receiver's side, on what is left to read -----

  datatype Taken = Taken(n: nat, bytes: seq<Byte>, rest: seq<Byte>)

  // A count n, then `arrays` arrays of n bytes.
  function Take(r: seq<Byte>, arrays: nat): (t: Option<Taken>)
    requires arrays <= 3
    ensures t.Some? ==> |t.value.bytes| == arrays * t.value.n
  {
    if r == [] then None
    else
      var n: nat := r[0];
      if 1 + arrays * n > |r| then None else Some(Taken(n, r[1..1 + arrays * n], r[1 + arrays * n..]))
  }

  function DefectOf(r: seq<Byte>): Defect
    requires |r| >= 4
  {
    Defect(r[0], r[1], r[2], r[3])
  }

  // Input signals, time sync and calibration.
  datatype Later = Later(inputs: Taken, timeSync: Byte, calibration: Taken)

  function LaterOf(r: seq<Byte>): (l: Option<Later>)
    ensures l.Some? ==> |l.value.inputs.bytes| == 2 * l.value.inputs.n
    ensures l.Some? ==> |l.value.calibration.bytes| == 3 * l.value.calibration.n
  {
    var i := Take(r, 2);
    if i.None? || i.value.rest == [] then None
    else
      var c := Take(i.value.rest[1..], 3);
      if c.None? then None else Some(Later(i.value, i.value.rest[0], c.value))
  }

  function WireFrom(common: Common, modes: seq<Byte>, d: Defect, l: Later): Wire
    requires |l.inputs.bytes| == 2 * l.inputs.n && |l.calibration.bytes| == 3 * l.calibration.n
  {
    var i, c := l.inputs, l.calibration;
    Wire(common, modes, d, i.bytes[..i.n], i.bytes[i.n..], l.timeSync,
         c.bytes[..c.n], c.bytes[c.n..2 * c.n], c.bytes[2 * c.n..])
  }

  function Decoded(p: seq<Byte>): Option<Wire> {
    if |p| < MIN_SIZE then None
    else
      var m := Take(p[SIZE..], 1);
      if m.None? || |m.value.rest| < 4 then None
      else
        var l := LaterOf(m.value.rest[4..]);
        if l.None? then None
        else Some(WireFrom(CommonOf(p), m.value.bytes, DefectOf(m.value.rest), l.value))
  }

  // The same, at a cursor.
  lemma TakeAt(p: seq<Byte>, start: nat, arrays: nat)
    requires start <= |p| && arrays <= 3
    ensures Take(p[start..], arrays).Some? <==> start < |p| && start + 1 + arrays * Read(p, start) <= |p|
    ensures Take(p[start..], arrays).Some? ==>
              var t, n := Take(p[start..], arrays).value, Read(p, start);
              t.n == n && t.bytes == p[start + 1..start + 1 + arrays * n] && t.rest == p[start + 1 + arrays * n..]
  {
  }

  function Read(p: seq<Byte>, at: nat): nat
    requires at < |p|
  {
    p[at]
  }

  // memcpy of the first bytes of an array into zeroed slots.
  method CopyInto(p: seq<Byte>, at: nat, n: nat, declared: nat, capacity: nat) returns (s: Slots)
    requires n == Min(declared, capacity) && at + declared <= |p|
    ensures s == Stored(p[at..at + declared], capacity)
  {
    s := Slots(n, p[at..at + n] + Zeros(capacity - n));
    assert p[at..at + declared][..n] == p[at..at + n];
  }

  // Operation modes: a count and that many bytes, from the cursor.
  method ReadModes(p: seq<Byte>, start: nat) returns (ok: bool, modes: Slots, offset: nat)
    requires start <= |p|
    ensures ok <==> Take(p[start..], 1).Some?
    ensures ok ==>
              var t := Take(p[start..], 1).value;
              offset <= |p| && p[offset..] == t.rest && modes == Stored(t.bytes, MAX_OPERATION_MODES)
  {
    TakeAt(p, start, 1);
    ok, modes, offset := false, Slots(0, []), start;
    if offset >= |p| {
      return;
    }
    var declared: nat := p[offset];
    offset := offset + 1;
    if offset + declared > |p| {
      return;
    }
    var count := Min(declared, MAX_OPERATION_MODES);
    modes := CopyInto(p, offset, count, declared, MAX_OPERATION_MODES);
    offset := offset + declared;
    ok := true;
  }

  // Parallel arrays of n bytes each, one behind the other from `at`.
  lemma TwoArrays(p: seq<Byte>, at: nat, n: nat, b: seq<Byte>)
    requires at + 2 * n <= |p| && b == p[at..at + 2 * n]
    ensures b[..n] == p[at..at + n] && b[n..] == p[at + n..at + n + n]
  {
  }

  lemma ThreeArrays(p: seq<Byte>, at: nat, n: nat, b: seq<Byte>)
    requires at + 3 * n <= |p| && b == p[at..at + 3 * n]
    ensures b[..n] == p[at..at + n] && b[n..2 * n] == p[at + n..at + n + n]
    ensures b[2 * n..] == p[at + n + n..at + n + n + n]
  {
  }

  // Input signals: a count, that many types and that many statuses.
  method ReadInputs(p: seq<Byte>, start: nat) returns (ok: bool, types: Slots, statuses: Slots, offset: nat)
    requires start <= |p|
    ensures ok <==> Take(p[start..], 2).Some?
    ensures ok ==>
              var t := Take(p[start..], 2).value;
              && offset <= |p| && p[offset..] == t.rest
              && types == Stored(t.bytes[..t.n], MAX_INPUT_SIGNALS)
              && statuses == Stored(t.bytes[t.n..], MAX_INPUT_SIGNALS)
  {
    TakeAt(p, start, 2);
    ok, types, statuses, offset := false, Slots(0, []), Slots(0, []), start;
    if offset >= |p| {
      return;
    }
    var n: nat := p[offset];
    offset := offset + 1;
    if offset + n * 2 > |p| {
      return;
    }
    TwoArrays(p, offset, n, Take(p[start..], 2).value.bytes);
    var count := Min(n, MAX_INPUT_SIGNALS);
    types := CopyInto(p, offset, count, n, MAX_INPUT_SIGNALS);
    offset := offset + n;
    statuses := CopyInto(p, offset, count, n, MAX_INPUT_SIGNALS);
    offset := offset + n;
    ok := true;
  }

  // Calibration: a count and three parallel arrays.
  method ReadCalibration(p: seq<Byte>, start: nat)
    returns (ok: bool, components: Slots, statuses: Slots, states: Slots)
    requires start <= |p|
    ensures ok <==> Take(p[start..], 3).Some?
    ensures ok ==>
              var t := Take(p[start..], 3).value;
              && components == Stored(t.bytes[..t.n], MAX_CALIBRATION_COMPONENTS)
              && statuses == Stored(t.bytes[t.n..2 * t.n], MAX_CALIBRATION_COMPONENTS)
              && states == Stored(t.bytes[2 * t.n..], MAX_CALIBRATION_COMPONENTS)
  {
    TakeAt(p, start, 3);
    ok, components, statuses, states := false, Slots(0, []), Slots(0, []), Slots(0, []);
    var offset := start;
    if offset >= |p| {
      return;
    }
    var n: nat := p[offset];
    offset := offset + 1;
    if offset + n * 3 > |p| {
      return;
    }
    ThreeArrays(p, offset, n, Take(p[start..], 3).value.bytes);
    var count := Min(n, MAX_CALIBRATION_COMPONENTS);
    components := CopyInto(p, offset, count, n, MAX_CALIBRATION_COMPONENTS);
    offset := offset + n;
    statuses := CopyInto(p, offset, count, n, MAX_CALIBRATION_COMPONENTS);
    offset := offset + n;
    states := CopyInto(p, offset, count, n, MAX_CALIBRATION_COMPONENTS);
    ok := true;
  }

  // Everything after the defect, supply and temperature bytes.
  method ReadLater(p: seq<Byte>, start: nat)
    returns (ok: bool, types: Slots, statuses: Slots, sync: Byte, components: Slots, calStatuses: Slots, states: Slots)
    requires start <= |p|
    ensures ok <==> LaterOf(p[start..]).Some?
    ensures ok ==>
              var l := LaterOf(p[start..]).value;
              var i, c := l.inputs, l.calibration;
              && types == Stored(i.bytes[..i.n], MAX_INPUT_SIGNALS)
              && statuses == Stored(i.bytes[i.n..], MAX_INPUT_SIGNALS)
              && sync == l.timeSync
              && components == Stored(c.bytes[..c.n], MAX_CALIBRATION_COMPONENTS)
              && calStatuses == Stored(c.bytes[c.n..2 * c.n], MAX_CALIBRATION_COMPONENTS)
              && states == Stored(c.bytes[2 * c.n..], MAX_CALIBRATION_COMPONENTS)
  {
    var offset;
    sync, components, calStatuses, states := 0, Slots(0, []), Slots(0, []), Slots(0, []);
    ok, types, statuses, offset := ReadInputs(p, start);
    if !ok || offset >= |p| {
      return false, types, statuses, sync, components, calStatuses, states;
    }
    sync := p[offset];
    assert sync == p[offset..][0] && p[offset + 1..] == p[offset..][1..];
    ok, components, calStatuses, states := ReadCalibration(p, offset + 1);
  }

  lemma DefectAt(p: seq<Byte>, offset: nat)
    requires offset + 4 <= |p|
    ensures DefectOf(p[offset..]) == Defect(p[offset], p[offset + 1], p[offset + 2], p[offset + 3])
    ensures p[offset + 4..] == p[offset..][4..]
  {
  }

  /** ShiParser::Parse, section by section. */
  method Parse(p: seq<Byte>) returns (msg: Option<Message>)
    ensures msg.None? <==> Decoded(p).None?
    ensures msg.Some? ==> msg.value == MessageOf(Decoded(p).value)
  {
    if |p| < MIN_SIZE {
      return None;
    }
    var ok, modes, offset := ReadModes(p, SIZE);
    if !ok || offset + 4 > |p| {
      return None;
    }
    var defect := Defect(p[offset], p[offset + 1], p[offset + 2], p[offset + 3]);
    DefectAt(p, offset);
    var types, statuses, timeSync, components, calStatuses, states;
    ok, types, statuses, timeSync, components, calStatuses, states := ReadLater(p, offset + 4);
    if !ok {
      return None;
    }
    msg := Some(Message(CommonOf(p), modes, defect, types, statuses, timeSync, 0, components, calStatuses, states));
    MessageFrom(CommonOf(p), Take(p[SIZE..], 1).value.bytes, defect, LaterOf(p[offset + 4..]).value, modes, types,
                statuses, components, calStatuses, states);
  }

  lemma MessageFrom(common: Common, m: seq<Byte>, d: Defect, l: Later, modes: Slots, types: Slots, statuses: Slots,
                    components: Slots, calStatuses: Slots, states: Slots)
    requires |l.inputs.bytes| == 2 * l.inputs.n && |l.calibration.bytes| == 3 * l.calibration.n
    requires var i, c := l.inputs, l.calibration;
             && modes == Stored(m, MAX_OPERATION_MODES)
             && types == Stored(i.bytes[..i.n], MAX_INPUT_SIGNALS)
             && statuses == Stored(i.bytes[i.n..], MAX_INPUT_SIGNALS)
             && components == Stored(c.bytes[..c.n], MAX_CALIBRATION_COMPONENTS)
             && calStatuses == Stored(c.bytes[c.n..2 * c.n], MAX_CALIBRATION_COMPONENTS)
             && states == Stored(c.bytes[2 * c.n..], MAX_CALIBRATION_COMPONENTS)
    ensures MessageOf(WireFrom(common, m, d, l))
         == Message(common, modes, d, types, statuses, l.timeSync, 0, components, calStatuses, states)
  {
  }

  // ----- Both directions -----

  lemma TakesCounted(n: nat, bytes: seq<Byte>, tail: seq<Byte>, arrays: nat)
    requires n < 0x100 && arrays <= 3 && |bytes| == arrays * n
    ensures Take([n] + bytes + tail, arrays) == Some(Taken(n, bytes, tail))
  {
    var r := [n] + bytes + tail;
    assert r[1..1 + arrays * n] == bytes && r[1 + arrays * n..] == tail;
  }

  lemma TakeIsExact(r: seq<Byte>, arrays: nat)
    requires arrays <= 3 && Take(r, arrays).Some?
    ensures var t := Take(r, arrays).value; t.n < 0x100 && r == [t.n] + t.bytes + t.rest
  {
  }

  lemma Thirds(b: seq<Byte>, n: nat)
    requires |b| == 3 * n
    ensures b == b[..n] + b[n..2 * n] + b[2 * n..]
  {
  }

  lemma SplitArrays(w: Wire)
    requires Sendable(w)
    ensures var b, n := w.components + w.statuses + w.states, |w.components|;
            b[..n] == w.components && b[n..2 * n] == w.statuses && b[2 * n..] == w.states
    ensures var b, n := w.inputTypes + w.inputStatuses, |w.inputTypes|;
            b[..n] == w.inputTypes && b[n..] == w.inputStatuses
  {
  }

  // What a receiver takes from input signals on.
  function LaterSent(w: Wire, rest: seq<Byte>): Later
    requires Sendable(w)
  {
    Later(Taken(|w.inputTypes|, w.inputTypes + w.inputStatuses, [w.timeSync] + (CalibrationBytes(w) + rest)),
          w.timeSync,
          Taken(|w.components|, w.components + w.statuses + w.states, rest))
  }

  lemma TakesCalibration(w: Wire, rest: seq<Byte>)
    requires Sendable(w)
    ensures Take(CalibrationBytes(w) + rest, 3) == Some(LaterSent(w, rest).calibration)
  {
    TakesCounted(|w.components|, w.components + w.statuses + w.states, rest, 3);
  }

  lemma TakesInputs(w: Wire, tail: seq<Byte>)
    requires Sendable(w)
    ensures Take(InputBytes(w, tail), 2) == Some(Taken(|w.inputTypes|, w.inputTypes + w.inputStatuses, tail))
  {
    TakesCounted(|w.inputTypes|, w.inputTypes + w.inputStatuses, tail, 2);
  }

  lemma Behind(x: Byte, tail: seq<Byte>)
    ensures ([x] + tail)[0] == x && ([x] + tail)[1..] == tail
  {
  }

  lemma LaterDecodes(w: Wire, rest: seq<Byte>, r: seq<Byte>)
    requires Sendable(w) && r == InputBytes(w, [w.timeSync] + (CalibrationBytes(w) + rest))
    ensures LaterOf(r) == Some(LaterSent(w, rest))
  {
    TakesInputs(w, [w.timeSync] + (CalibrationBytes(w) + rest));
    Behind(w.timeSync, CalibrationBytes(w) + rest);
    TakesCalibration(w, rest);
  }

  lemma DefectDecodes(d: Defect, tail: seq<Byte>)
    ensures DefectOf(DefectBytes(d) + tail) == d && (DefectBytes(d) + tail)[4..] == tail
  {
  }

  // The common header, and what is taken from the operation modes on.
  lemma HeadDecodes(w: Wire, tail: seq<Byte>, p: seq<Byte>)
    requires Sendable(w) && p == CommonBytes(w.common) + ModeBytes(w, tail)
    ensures |p| >= SIZE && CommonOf(p) == w.common
    ensures Take(p[SIZE..], 1) == Some(Taken(|w.modes|, w.modes, tail))
  {
    assert p[..24] == CommonBytes(w.common) && p[24..] == ModeBytes(w, tail);
    assert p[0..24] == p[..24];
    CommonRoundTrip(p, w.common);
    TakesCounted(|w.modes|, w.modes, tail, 1);
  }

  lemma WireBack(w: Wire, rest: seq<Byte>)
    requires Sendable(w)
    ensures WireFrom(w.common, w.modes, w.defect, LaterSent(w, rest)) == w
  {
    SplitArrays(w);
  }

  /** Whatever a sender writes is decoded in full, unchanged by anything behind it. */
  lemma DecodesEncoded(w: Wire, rest: seq<Byte>, p: seq<Byte>)
    requires Sendable(w) && p == EncodeBefore(w, rest)
    ensures Decoded(p) == Some(w)
  {
    var r2 := InputBytes(w, [w.timeSync] + (CalibrationBytes(w) + rest));
    HeadDecodes(w, DefectBytes(w.defect) + r2, p);
    DefectDecodes(w.defect, r2);
    LaterDecodes(w, rest, r2);
    WireBack(w, rest);
  }

  lemma EncodeSplits(w: Wire, rest: seq<Byte>)
    requires Sendable(w)
    ensures EncodeBefore(w, rest) == Encode(w) + rest
  {
    var c := CalibrationBytes(w);
    assert [w.timeSync] + (c + rest) == ([w.timeSync] + (c + [])) + rest;
    TailOut(w, [w.timeSync] + (c + []), rest);
  }

  lemma TailOut(w: Wire, t: seq<Byte>, rest: seq<Byte>)
    requires Sendable(w)
    ensures CommonBytes(w.common) + ModeBytes(w, DefectBytes(w.defect) + InputBytes(w, t + rest))
         == CommonBytes(w.common) + ModeBytes(w, DefectBytes(w.defect) + InputBytes(w, t)) + rest
  {
    assert InputBytes(w, t + rest) == InputBytes(w, t) + rest;
    var u := DefectBytes(w.defect) + InputBytes(w, t);
    assert DefectBytes(w.defect) + (InputBytes(w, t) + rest) == u + rest;
    assert ModeBytes(w, u + rest) == ModeBytes(w, u) + rest;
  }

  lemma LaterIsExact(r: seq<Byte>, common: Common, m: seq<Byte>, d: Defect)
    requires LaterOf(r).Some? && |m| < 0x100
    ensures var l := LaterOf(r).value;
            var w := WireFrom(common, m, d, l);
            Sendable(w) && r == InputBytes(w, [w.timeSync] + (CalibrationBytes(w) + l.calibration.rest))
  {
    var l := LaterOf(r).value;
    var w := WireFrom(common, m, d, l);
    var i, c := l.inputs, l.calibration;
    TakeIsExact(r, 2);
    TakeIsExact(i.rest[1..], 3);
    Thirds(c.bytes, c.n);
    assert i.bytes == w.inputTypes + w.inputStatuses;
    assert i.rest == [w.timeSync] + i.rest[1..];
  }

  lemma HeadIsExact(p: seq<Byte>, w: Wire, m: Taken)
    requires |p| >= MIN_SIZE && Sendable(w) && w.common == CommonOf(p)
    requires Take(p[SIZE..], 1) == Some(m) && w.modes == m.bytes
    ensures p == CommonBytes(w.common) + ModeBytes(w, m.rest)
  {
    CommonInverse(p);
    TakeIsExact(p[SIZE..], 1);
    assert p == p[..SIZE] + p[SIZE..];
  }

  lemma Assembled(p: seq<Byte>, w: Wire, behind: seq<Byte>, later: seq<Byte>, rest: seq<Byte>)
    requires Sendable(w) && p == CommonBytes(w.common) + ModeBytes(w, behind)
    requires behind == DefectBytes(w.defect) + later
    requires later == InputBytes(w, [w.timeSync] + (CalibrationBytes(w) + rest))
    ensures p == Encode(w) + rest
  {
    EncodeSplits(w, rest);
  }

  lemma DefectIsExact(r: seq<Byte>)
    requires |r| >= 4
    ensures r == DefectBytes(DefectOf(r)) + r[4..]
  {
  }

  /** Nothing else is accepted: a payload that decodes is what a sender of that message writes, and more behind. */
  lemma AcceptsOnlyEncoded(p: seq<Byte>) returns (rest: seq<Byte>)
    requires Decoded(p).Some?
    ensures Sendable(Decoded(p).value) && p == Encode(Decoded(p).value) + rest
  {
    var w := Decoded(p).value;
    var m := Take(p[SIZE..], 1).value;
    rest := LaterOf(m.rest[4..]).value.calibration.rest;
    TakeIsExact(p[SIZE..], 1);
    LaterIsExact(m.rest[4..], CommonOf(p), m.bytes, DefectOf(m.rest));
    HeadIsExact(p, w, m);
    DefectIsExact(m.rest);
    Assembled(p, w, m.rest, m.rest[4..], rest);
  }

  lemma PrefixSplits(e: seq<Byte>, p: seq<Byte>)
    requires e <= p
    ensures p == e + p[|e|..]
  {
  }

  lemma DecodesPrefix(w: Wire, p: seq<Byte>)
    requires Sendable(w) && Encode(w) <= p
    ensures Decoded(p) == Some(w)
  {
    var e := Encode(w);
    var rest := p[|e|..];
    EncodeSplits(w, rest);
    PrefixSplits(e, p);
    DecodesEncoded(w, rest, p);
  }

  predicate StartsWithMessage(p: seq<Byte>, w: Wire) {
    Sendable(w) && Encode(w) <= p
  }

  /** So the driver parses a payload exactly when some sender's message is its prefix, and that message is unique. */
  lemma ParsesExactlyEncoded(p: seq<Byte>)
    ensures Decoded(p).Some? <==> exists w: Wire :: StartsWithMessage(p, w)
    ensures forall w: Wire :: StartsWithMessage(p, w) ==> Decoded(p) == Some(w)
  {
    if Decoded(p).Some? {
      var rest := AcceptsOnlyEncoded(p);
      assert StartsWithMessage(p, Decoded(p).value);
    }
    forall w: Wire | StartsWithMessage(p, w) ensures Decoded(p) == Some(w) {
      DecodesPrefix(w, p);
    }
  }

  // ----- Where everything lies -----

  /** A message at the front of a payload, array by array. */
  ghost predicate LaidOut(p: seq<Byte>, w: Wire) {
    HeadAt(p, |w.modes|, w) && LaterLies(p, 29 + |w.modes|, |w.inputTypes|, |w.components|, w)
  }

  ghost predicate LaterLies(p: seq<Byte>, at: nat, n: nat, c: nat, w: Wire) {
    && InputsAt(p, at, n, w) && at + 1 + 2 * n < |p| && w.timeSync == p[at + 1 + 2 * n]
    && CalibrationAt(p, at + 2 + 2 * n, c, w)
  }

  ghost predicate HeadAt(p: seq<Byte>, m: nat, w: Wire) {
    && |p| >= 29 + m && w.common == CommonOf(p) && p[24] == m && w.modes == p[25..25 + m]
    && w.defect == Defect(p[25 + m], p[26 + m], p[27 + m], p[28 + m])
  }

  ghost predicate InputsAt(p: seq<Byte>, at: nat, n: nat, w: Wire) {
    && at + 1 + 2 * n <= |p| && p[at] == n && |w.inputStatuses| == n
    && w.inputTypes == p[at + 1..at + 1 + n] && w.inputStatuses == p[at + 1 + n..at + 1 + n + n]
  }

  ghost predicate CalibrationAt(p: seq<Byte>, at: nat, c: nat, w: Wire) {
    && at + 1 + 3 * c <= |p| && p[at] == c
    && w.components == p[at + 1..at + 1 + c] && w.statuses == p[at + 1 + c..at + 1 + c + c]
    && w.states == p[at + 1 + c + c..at + 1 + c + c + c]
  }

  lemma Rests(p: seq<Byte>, at: nat, k: nat)
    requires at + k <= |p|
    ensures p[at..][k..] == p[at + k..]
  {
  }

  // Input signals, time sync and calibration at a cursor.
  lemma LaterAt(p: seq<Byte>, start: nat)
    requires start <= |p|
    ensures LaterOf(p[start..]).Some? <==>
              && start < |p| && start + 2 + 2 * Read(p, start) < |p|
              && start + 3 + 2 * Read(p, start) + 3 * Read(p, start + 2 + 2 * Read(p, start)) <= |p|
    ensures LaterOf(p[start..]).Some? ==>
              var l, n := LaterOf(p[start..]).value, Read(p, start);
              var at := start + 2 + 2 * n;
              var c := Read(p, at);
              && l.inputs.n == n && l.inputs.bytes == p[start + 1..start + 1 + 2 * n]
              && l.timeSync == p[start + 1 + 2 * n]
              && l.calibration.n == c && l.calibration.bytes == p[at + 1..at + 1 + 3 * c]
  {
    TakeAt(p, start, 2);
    if Take(p[start..], 2).Some? {
      var next := start + 1 + 2 * Read(p, start);
      if next < |p| {
        Rests(p, next, 1);
        TakeAt(p, next + 1, 3);
      }
    }
  }

  // The wire from `start` on, once its parts are found.
  lemma LaterWire(p: seq<Byte>, start: nat, common: Common, modes: seq<Byte>, d: Defect)
    requires start <= |p| && LaterOf(p[start..]).Some?
    ensures var l := LaterOf(p[start..]).value;
            var w := WireFrom(common, modes, d, l);
            LaterLies(p, start, |w.inputTypes|, |w.components|, w)
  {
    LaterAt(p, start);
    var l := LaterOf(p[start..]).value;
    TwoArrays(p, start + 1, l.inputs.n, l.inputs.bytes);
    ThreeArrays(p, start + 3 + 2 * l.inputs.n, l.calibration.n, l.calibration.bytes);
  }

  lemma DecodedParts(p: seq<Byte>) returns (m: nat)
    requires Decoded(p).Some?
    ensures 29 + m <= |p| && m == p[24] && LaterOf(p[29 + m..]).Some?
    ensures Decoded(p).value
         == WireFrom(CommonOf(p), p[25..25 + m], Defect(p[25 + m], p[26 + m], p[27 + m], p[28 + m]),
                     LaterOf(p[29 + m..]).value)
  {
    TakeAt(p, 24, 1);
    m := p[24];
    DefectAt(p, 25 + m);
  }

  lemma HeadLies(p: seq<Byte>, m: nat, l: Later, w: Wire)
    requires |l.inputs.bytes| == 2 * l.inputs.n && |l.calibration.bytes| == 3 * l.calibration.n
    requires 29 + m <= |p| && m == p[24]
    requires w == WireFrom(CommonOf(p), p[25..25 + m], Defect(p[25 + m], p[26 + m], p[27 + m], p[28 + m]), l)
    ensures |w.modes| == m && HeadAt(p, m, w)
  {
  }

  lemma DecodedIsLaidOut(p: seq<Byte>)
    requires Decoded(p).Some?
    ensures LaidOut(p, Decoded(p).value)
  {
    var m := DecodedParts(p);
    HeadLies(p, m, LaterOf(p[29 + m..]).value, Decoded(p).value);
    LaterWire(p, 29 + m, CommonOf(p), p[25..25 + m], Defect(p[25 + m], p[26 + m], p[27 + m], p[28 + m]));
  }

  lemma LaidOutDecodes(p: seq<Byte>, w: Wire)
    requires LaidOut(p, w)
    ensures Decoded(p).Some?
  {
    var m := |w.modes|;
    TakeAt(p, 24, 1);
    Rests(p, 25 + m, 4);
    LaterAt(p, 29 + m);
  }

  lemma SameHead(p: seq<Byte>, m: nat, n: nat, v: Wire, w: Wire)
    requires HeadAt(p, m, v) && HeadAt(p, n, w)
    ensures m == n && v.common == w.common && v.modes == w.modes && v.defect == w.defect
  {
  }

  lemma SameInputs(p: seq<Byte>, at: nat, m: nat, n: nat, v: Wire, w: Wire)
    requires InputsAt(p, at, m, v) && InputsAt(p, at, n, w)
    ensures m == n && v.inputTypes == w.inputTypes && v.inputStatuses == w.inputStatuses
  {
  }

  lemma SameCalibration(p: seq<Byte>, at: nat, m: nat, n: nat, v: Wire, w: Wire)
    requires CalibrationAt(p, at, m, v) && CalibrationAt(p, at, n, w)
    ensures v.components == w.components && v.statuses == w.statuses && v.states == w.states
  {
  }

  lemma SameLater(p: seq<Byte>, at: nat, m: nat, n: nat, c: nat, d: nat, v: Wire, w: Wire)
    requires LaterLies(p, at, m, c, v) && LaterLies(p, at, n, d, w)
    ensures v.inputTypes == w.inputTypes && v.inputStatuses == w.inputStatuses && v.timeSync == w.timeSync
    ensures v.components == w.components && v.statuses == w.statuses && v.states == w.states
  {
    SameInputs(p, at, m, n, v, w);
    SameCalibration(p, at + 2 + 2 * n, c, d, v, w);
  }

  lemma SameLayout(p: seq<Byte>, v: Wire, w: Wire)
    requires LaidOut(p, v) && LaidOut(p, w)
    ensures v == w
  {
    SameHead(p, |v.modes|, |w.modes|, v, w);
    SameLater(p, 29 + |v.modes|, |v.inputTypes|, |w.inputTypes|, |v.components|, |w.components|, v, w);
  }

  /** What is decoded, for every payload, off its bytes: each array where the counts before it put it. */
  lemma DecodedExactly(p: seq<Byte>, w: Wire)
    ensures Decoded(p) == Some(w) <==> LaidOut(p, w)
  {
    if Decoded(p).Some? { DecodedIsLaidOut(p); }
    if LaidOut(p, w) {
      LaidOutDecodes(p, w);
      DecodedIsLaidOut(p);
      SameLayout(p, Decoded(p).value, w);
    }
  }

  // The first `capacity` bytes of an array, and zeros behind them.
  ghost predicate Capped(s: Slots, bytes: seq<Byte>, capacity: nat) {
    && s.count == (if |bytes| < capacity then |bytes| else capacity) && |s.slots| == capacity
    && (forall i :: 0 <= i < s.count ==> s.slots[i] == bytes[i])
    && (forall i :: s.count <= i < capacity ==> s.slots[i] == 0)
  }

  /** What the driver keeps of each array. */
  lemma MessageExactly(w: Wire)
    ensures var m := MessageOf(w);
            && m.common == w.common && m.defect == w.defect && m.timeSync == w.timeSync && m.timeSyncOffset == 0
            && Capped(m.modes, w.modes, 11)
            && Capped(m.inputTypes, w.inputTypes, 4) && Capped(m.inputStatuses, w.inputStatuses, 4)
            && Capped(m.components, w.components, 3) && Capped(m.statuses, w.statuses, 3)
            && Capped(m.states, w.states, 3)
  {
  }
}
