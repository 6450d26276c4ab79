/** The SPI payload: a fixed part, then up to three counted sections of fixed-size records. */
module Spi {
  import opened Bytes
  import opened Records
  import opened CommonHeader

  const FIXED_SIZE: nat := 57
  const FOV_SIZE: nat := 17
  const OBJECT_SIZE: nat := 9
  const TARGET_SIZE: nat := 16
  const CAPACITY: nat := 16

  /** The sensor pose; origin errors and roll error are no longer on the wire and always zero. */
  datatype Pose = Pose(x: F32, y: F32, z: F32, yaw: F32, pitch: F32, roll: F32, yawError: F32, pitchError: F32)

  datatype FovSegment = FovSegment(azimuthBegin: F32, azimuthEnd: F32, elevationBegin: F32, elevationEnd: F32,
                                   blockage: Byte)
  datatype ObjectType = ObjectType(kind: Byte, rangeBegin: F32, rangeEnd: F32)
  datatype Target = Target(rcs: F32, rangeBegin: F32, rangeEnd: F32, snr: F32)

  /** Everything a payload carries: raw records, no section cut short, absent sections told from empty ones. */
  datatype Wire = Wire(common: Common, coordinates: Byte, pose: Pose, fov: Option<seq<seq<Byte>>>,
                       objects: Option<seq<seq<Byte>>>, targets: Option<seq<seq<Byte>>>)

  /** A counted array of 16 slots: those past the count are zero. */
  datatype Slots<T> = Slots(count: nat, slots: seq<T>)

  datatype Message = Message(common: Common, coordinates: Byte, pose: Pose, fov: Slots<FovSegment>,
                             objects: Slots<ObjectType>, targets: Slots<Target>)

  // ----- Records -----

  function FovOf(r: seq<Byte>): FovSegment
    requires |r| == FOV_SIZE
  {
    FovSegment(UnpackLe32(r, 0), UnpackLe32(r, 4), UnpackLe32(r, 8), UnpackLe32(r, 12), r[16])
  }

  function FovBytes(f: FovSegment): (r: seq<Byte>)
    ensures |r| == FOV_SIZE
  {
    PackLe32(f.azimuthBegin) + PackLe32(f.azimuthEnd) + PackLe32(f.elevationBegin) + PackLe32(f.elevationEnd)
    + [f.blockage]
  }

  function ObjectOf(r: seq<Byte>): ObjectType
    requires |r| == OBJECT_SIZE
  {
    ObjectType(r[0], UnpackLe32(r, 1), UnpackLe32(r, 5))
  }

  function ObjectBytes(o: ObjectType): (r: seq<Byte>)
    ensures |r| == OBJECT_SIZE
  {
    [o.kind] + PackLe32(o.rangeBegin) + PackLe32(o.rangeEnd)
  }

  function TargetOf(r: seq<Byte>): Target
    requires |r| == TARGET_SIZE
  {
    Target(UnpackLe32(r, 0), UnpackLe32(r, 4), UnpackLe32(r, 8), UnpackLe32(r, 12))
  }

  function TargetBytes(t: Target): (r: seq<Byte>)
    ensures |r| == TARGET_SIZE
  {
    PackLe32(t.rcs) + PackLe32(t.rangeBegin) + PackLe32(t.rangeEnd) + PackLe32(t.snr)
  }

  lemma FovRoundTrip(f: FovSegment)
    ensures FovOf(FovBytes(f)) == f
  {
    var r := FovBytes(f);
    assert r[0..4] == PackLe32(f.azimuthBegin) && r[4..8] == PackLe32(f.azimuthEnd);
    assert r[8..12] == PackLe32(f.elevationBegin) && r[12..16] == PackLe32(f.elevationEnd);
    Le32RoundTrip(r, 0, f.azimuthBegin);
    Le32RoundTrip(r, 4, f.azimuthEnd);
    Le32RoundTrip(r, 8, f.elevationBegin);
    Le32RoundTrip(r, 12, f.elevationEnd);
  }

  lemma ObjectRoundTrip(o: ObjectType)
    ensures ObjectOf(ObjectBytes(o)) == o
  {
    var r := ObjectBytes(o);
    assert r[1..5] == PackLe32(o.rangeBegin) && r[5..9] == r[5..] == PackLe32(o.rangeEnd);
    Le32RoundTrip(r, 1, o.rangeBegin);
    Le32RoundTrip(r, 5, o.rangeEnd);
  }

  lemma TargetRoundTrip(t: Target)
    ensures TargetOf(TargetBytes(t)) == t
  {
    var r := TargetBytes(t);
    assert r[0..4] == PackLe32(t.rcs) && r[4..8] == PackLe32(t.rangeBegin);
    assert r[8..12] == PackLe32(t.rangeEnd) && r[12..16] == r[12..] == PackLe32(t.snr);
    Le32RoundTrip(r, 0, t.rcs);
    Le32RoundTrip(r, 4, t.rangeBegin);
    Le32RoundTrip(r, 8, t.rangeEnd);
    Le32RoundTrip(r, 12, t.snr);
  }

  // ----- The message the driver keeps -----

  const NO_FOV := FovSegment(0, 0, 0, 0, 0)
  const NO_OBJECT := ObjectType(0, 0, 0)
  const NO_TARGET := Target(0, 0, 0, 0)

  function Given(section: Option<seq<seq<Byte>>>): seq<seq<Byte>> {
    match section case None => [] case Some(rs) => rs
  }

  function FovSlots(rs: seq<seq<Byte>>): Slots<FovSegment>
    requires AllOfSize(rs, FOV_SIZE)
  {
    Slots(Min(|rs|, CAPACITY), seq(CAPACITY, i requires 0 <= i => if i < |rs| then FovOf(rs[i]) else NO_FOV))
  }

  function ObjectSlots(rs: seq<seq<Byte>>): Slots<ObjectType>
    requires AllOfSize(rs, OBJECT_SIZE)
  {
    Slots(Min(|rs|, CAPACITY), seq(CAPACITY, i requires 0 <= i => if i < |rs| then ObjectOf(rs[i]) else NO_OBJECT))
  }

  function TargetSlots(rs: seq<seq<Byte>>): Slots<Target>
    requires AllOfSize(rs, TARGET_SIZE)
  {
    Slots(Min(|rs|, CAPACITY), seq(CAPACITY, i requires 0 <= i => if i < |rs| then TargetOf(rs[i]) else NO_TARGET))
  }

  /** A section is present only behind a present one, and holds fewer than 256 records of its own size. */
  predicate Sendable(w: Wire) {
    && (w.fov.None? ==> w.objects.None?) && (w.objects.None? ==> w.targets.None?)
    && AllOfSize(Given(w.fov), FOV_SIZE) && AllOfSize(Given(w.objects), OBJECT_SIZE)
    && AllOfSize(Given(w.targets), TARGET_SIZE)
    && |Given(w.fov)| < 0x100 && |Given(w.objects)| < 0x100 && |Given(w.targets)| < 0x100
  }

  function MessageOf(w: Wire): Message
    requires Sendable(w)
  {
    Message(w.common, w.coordinates, w.pose, FovSlots(Given(w.fov)), ObjectSlots(Given(w.objects)),
            TargetSlots(Given(w.targets)))
  }

  // ----- The sender's side -----

  function PoseBytes(s: Pose): (p: seq<Byte>)
    ensures |p| == 32
  {
    PackLe32(s.x) + PackLe32(s.y) + PackLe32(s.z) + PackLe32(s.yaw) + PackLe32(s.pitch) + PackLe32(s.roll)
    + PackLe32(s.yawError) + PackLe32(s.pitchError)
  }

  function FixedBytes(w: Wire): (p: seq<Byte>)
    ensures |p| == FIXED_SIZE
  {
    CommonBytes(w.common) + [w.coordinates] + PoseBytes(w.pose)
  }

  function SectionBytes(section: Option<seq<seq<Byte>>>): seq<Byte>
    requires |Given(section)| < 0x100
  {
    match section case None => [] case Some(rs) => [|rs|] + Flat(rs)
  }

  function Encode(w: Wire): seq<Byte>
    requires Sendable(w)
  {
    FixedBytes(w) + (SectionBytes(w.fov) + (SectionBytes(w.objects) + SectionBytes(w.targets)))
  }

  // ----- The receiver's side, on what is left to read -----

  datatype Section = Absent | Broken | Present(records: seq<seq<Byte>>, rest: seq<Byte>)

  // Nothing left; or a count and that many records, all there or not.
  function SectionOf(r: seq<Byte>, size: nat): (s: Section)
    ensures s.Present? ==> AllOfSize(s.records, size) && |s.records| < 0x100
  {
    if r == [] then Absent
    else
      var n: nat := r[0];
      if 1 + n * size > |r| then Broken else Present(Split(r, 1, n, size), r[1 + n * size..])
  }

  function PoseAt(p: seq<Byte>): Pose
    requires |p| >= FIXED_SIZE
  {
    Pose(UnpackLe32(p, 25), UnpackLe32(p, 29), UnpackLe32(p, 33), UnpackLe32(p, 37), UnpackLe32(p, 41),
         UnpackLe32(p, 45), UnpackLe32(p, 49), UnpackLe32(p, 53))
  }

  datatype Sections = Sections(fov: Option<seq<seq<Byte>>>, objects: Option<seq<seq<Byte>>>,
                               targets: Option<seq<seq<Byte>>>)

  function TargetsFrom(fov: seq<seq<Byte>>, objects: seq<seq<Byte>>, r: seq<Byte>): Option<Sections> {
    match SectionOf(r, TARGET_SIZE)
    case Broken => None
    case Absent => Some(Sections(Some(fov), Some(objects), None))
    case Present(rs, _) => Some(Sections(Some(fov), Some(objects), Some(rs)))
  }

  function ObjectsFrom(fov: seq<seq<Byte>>, r: seq<Byte>): Option<Sections> {
    match SectionOf(r, OBJECT_SIZE)
    case Broken => None
    case Absent => Some(Sections(Some(fov), None, None))
    case Present(rs, rest) => TargetsFrom(fov, rs, rest)
  }

  function SectionsFrom(r: seq<Byte>): Option<Sections> {
    match SectionOf(r, FOV_SIZE)
    case Broken => None
    case Absent => Some(Sections(None, None, None))
    case Present(rs, rest) => ObjectsFrom(rs, rest)
  }

  function Decoded(p: seq<Byte>): (w: Option<Wire>)
    ensures w.Some? ==> Sendable(w.value)
  {
    if |p| < FIXED_SIZE then None
    else
      match SectionsFrom(p[FIXED_SIZE..])
      case None => None
      case Some(s) => Some(Wire(CommonOf(p), p[24], PoseAt(p), s.fov, s.objects, s.targets))
  }

  // ----- The parser's section loops -----

  // The record at the parser's cursor is record i of the section.
  lemma RecordAt(p: seq<Byte>, start: nat, rs: seq<seq<Byte>>, size: nat, i: nat, offset: nat)
    requires start < |p| && HoldsSection(p, start, rs, size) && i < |rs| && offset == start + 1 + i * size
    ensures offset + size <= |p| && p[offset..offset + size] == rs[i]
  {
    var before := i * size;
    RoomForRecord(i, |rs|, size);
    SplitAt(p[start..], 1, |rs|, size, i);
    SuffixSlice(p, start, 1 + before, size);
  }

  lemma SuffixSlice(p: seq<Byte>, start: nat, lo: nat, size: nat)
    requires start + lo + size <= |p|
    ensures p[start..][lo..lo + size] == p[start + lo..start + lo + size]
  {
  }

  // A whole section with these records from `start` on.
  predicate HoldsSection(p: seq<Byte>, start: nat, rs: seq<seq<Byte>>, size: nat)
    requires start < |p|
  {
    var s := SectionOf(p[start..], size);
    s.Present? && s.records == rs
  }

  lemma SectionAt(p: seq<Byte>, start: nat, size: nat, n: nat)
    requires start < |p| && n == p[start]
    ensures SectionOf(p[start..], size) == Broken <==> start + 1 + n * size > |p|
  {
  }

  lemma SectionThere(p: seq<Byte>, start: nat, size: nat, n: nat) returns (rs: seq<seq<Byte>>)
    requires start < |p| && n == p[start] && start + 1 + n * size <= |p|
    ensures HoldsSection(p, start, rs, size) && AllOfSize(rs, size) && |rs| == n
    ensures SectionOf(p[start..], size).rest == p[start + 1 + n * size..]
  {
    rs := SectionOf(p[start..], size).records;
  }

  lemma FovSlotsAre(rs: seq<seq<Byte>>, slots: seq<FovSegment>)
    requires AllOfSize(rs, FOV_SIZE) && |slots| == CAPACITY
    requires forall k :: 0 <= k < CAPACITY ==> slots[k] == if k < |rs| then FovOf(rs[k]) else NO_FOV
    ensures slots == FovSlots(rs).slots
  {
  }

  lemma ObjectSlotsAre(rs: seq<seq<Byte>>, slots: seq<ObjectType>)
    requires AllOfSize(rs, OBJECT_SIZE) && |slots| == CAPACITY
    requires forall k :: 0 <= k < CAPACITY ==> slots[k] == if k < |rs| then ObjectOf(rs[k]) else NO_OBJECT
    ensures slots == ObjectSlots(rs).slots
  {
  }

  lemma TargetSlotsAre(rs: seq<seq<Byte>>, slots: seq<Target>)
    requires AllOfSize(rs, TARGET_SIZE) && |slots| == CAPACITY
    requires forall k :: 0 <= k < CAPACITY ==> slots[k] == if k < |rs| then TargetOf(rs[k]) else NO_TARGET
    ensures slots == TargetSlots(rs).slots
  {
  }

  method ReadFov(p: seq<Byte>, start: nat) returns (ok: bool, s: Slots<FovSegment>, offset: nat)
    requires start < |p|
    ensures ok <==> SectionOf(p[start..], FOV_SIZE).Present?
    ensures ok ==>
              var q := SectionOf(p[start..], FOV_SIZE);
              offset <= |p| && p[offset..] == q.rest && s == FovSlots(q.records)
  {
    ok, s, offset := false, Slots(0, []), start;
    var declared: nat := p[offset];
    offset := offset + 1;
    SectionAt(p, start, FOV_SIZE, declared);
    var n := Min(declared, CAPACITY);
    if offset + declared * FOV_SIZE > |p| {
      return;
    }
    ghost var rs := SectionThere(p, start, FOV_SIZE, declared);
    var segments := new FovSegment[CAPACITY](_ => NO_FOV);
    for i := 0 to declared
      invariant offset == start + 1 + i * FOV_SIZE
      invariant forall k :: 0 <= k < CAPACITY ==> segments[k] == if k < i then FovOf(rs[k]) else NO_FOV
    {
      RecordAt(p, start, rs, FOV_SIZE, i, offset);
      var record := p[offset..offset + FOV_SIZE];
      if i < n {
        segments[i] := FovOf(record);
      }
      offset := offset + FOV_SIZE;
    }
    s := Slots(n, segments[..]);
    FovSlotsAre(rs, segments[..]);
    ok := true;
  }

  method ReadObjects(p: seq<Byte>, start: nat) returns (ok: bool, s: Slots<ObjectType>, offset: nat)
    requires start < |p|
    ensures ok <==> SectionOf(p[start..], OBJECT_SIZE).Present?
    ensures ok ==>
              var q := SectionOf(p[start..], OBJECT_SIZE);
              offset <= |p| && p[offset..] == q.rest && s == ObjectSlots(q.records)
  {
    ok, s, offset := false, Slots(0, []), start;
    var declared: nat := p[offset];
    offset := offset + 1;
    SectionAt(p, start, OBJECT_SIZE, declared);
    var n := Min(declared, CAPACITY);
    if offset + declared * OBJECT_SIZE > |p| {
      return;
    }
    ghost var rs := SectionThere(p, start, OBJECT_SIZE, declared);
    var objects := new ObjectType[CAPACITY](_ => NO_OBJECT);
    for i := 0 to declared
      invariant offset == start + 1 + i * OBJECT_SIZE
      invariant forall k :: 0 <= k < CAPACITY ==> objects[k] == if k < i then ObjectOf(rs[k]) else NO_OBJECT
    {
      RecordAt(p, start, rs, OBJECT_SIZE, i, offset);
      var record := p[offset..offset + OBJECT_SIZE];
      if i < n {
        objects[i] := ObjectOf(record);
      }
      offset := offset + OBJECT_SIZE;
    }
    s := Slots(n, objects[..]);
    ObjectSlotsAre(rs, objects[..]);
    ok := true;
  }

  method ReadTargets(p: seq<Byte>, start: nat) returns (ok: bool, s: Slots<Target>)
    requires start < |p|
    ensures ok <==> SectionOf(p[start..], TARGET_SIZE).Present?
    ensures ok ==> s == TargetSlots(SectionOf(p[start..], TARGET_SIZE).records)
  {
    ok, s := false, Slots(0, []);
    var offset := start;
    var declared: nat := p[offset];
    offset := offset + 1;
    SectionAt(p, start, TARGET_SIZE, declared);
    var n := Min(declared, CAPACITY);
    if offset + declared * TARGET_SIZE > |p| {
      return;
    }
    ghost var rs := SectionThere(p, start, TARGET_SIZE, declared);
    var targets := new Target[CAPACITY](_ => NO_TARGET);
    for i := 0 to declared
      invariant offset == start + 1 + i * TARGET_SIZE
      invariant forall k :: 0 <= k < CAPACITY ==> targets[k] == if k < i then TargetOf(rs[k]) else NO_TARGET
    {
      RecordAt(p, start, rs, TARGET_SIZE, i, offset);
      var record := p[offset..offset + TARGET_SIZE];
      if i < n {
        targets[i] := TargetOf(record);
      }
      offset := offset + TARGET_SIZE;
    }
    s := Slots(n, targets[..]);
    TargetSlotsAre(rs, targets[..]);
    ok := true;
  }

  // The message of a payload with these sections.
  lemma MessageIs(p: seq<Byte>, s: Sections)
    requires |p| >= FIXED_SIZE && SectionsFrom(p[FIXED_SIZE..]) == Some(s)
    ensures Decoded(p).Some?
    ensures MessageOf(Decoded(p).value)
         == Message(CommonOf(p), p[24], PoseAt(p), FovSlots(Given(s.fov)), ObjectSlots(Given(s.objects)),
                    TargetSlots(Given(s.targets)))
  {
  }

  /** SpiParser::Parse: the fixed part, then each section unless the payload ends at its boundary. */
  method Parse(p: seq<Byte>) returns (msg: Option<Message>)
    ensures msg.None? <==> Decoded(p).None?
    ensures msg.Some? ==> msg.value == MessageOf(Decoded(p).value)
  {
    if |p| < FIXED_SIZE {
      return None;
    }
    var pose := PoseAt(p);
    var m := Message(CommonOf(p), p[24], pose, FovSlots([]), ObjectSlots([]), TargetSlots([]));
    var offset := FIXED_SIZE;
    if offset >= |p| {
      MessageIs(p, Sections(None, None, None));
      return Some(m);
    }
    var ok, fov, objects, targets;
    ghost var first := SectionOf(p[offset..], FOV_SIZE);
    ok, fov, offset := ReadFov(p, offset);
    if !ok {
      return None;
    }
    m := m.(fov := fov);
    ghost var second := SectionOf(p[offset..], OBJECT_SIZE);
    if offset >= |p| {
      MessageIs(p, Sections(Some(first.records), None, None));
      return Some(m);
    }
    ok, objects, offset := ReadObjects(p, offset);
    if !ok {
      return None;
    }
    m := m.(objects := objects);
    ghost var third := SectionOf(p[offset..], TARGET_SIZE);
    if offset >= |p| {
      MessageIs(p, Sections(Some(first.records), Some(second.records), None));
      return Some(m);
    }
    ok, targets := ReadTargets(p, offset);
    if !ok {
      return None;
    }
    MessageIs(p, Sections(Some(first.records), Some(second.records), Some(third.records)));
    return Some(m.(targets := targets));
  }

  // ----- Both directions -----

  lemma SectionRoundTrip(rs: seq<seq<Byte>>, rest: seq<Byte>, size: nat)
    requires AllOfSize(rs, size) && |rs| < 0x100
    ensures SectionOf(SectionBytes(Some(rs)) + rest, size) == Present(rs, rest)
  {
    var r := SectionBytes(Some(rs)) + rest;
    FlatSize(rs, size);
    assert r == [|rs|] + Flat(rs) + rest;
    HeldAfter([|rs|], Flat(rs), rest);
    SplitOfFlat(r, 1, rs, size);
    assert r[1 + |rs| * size..] == rest;
  }

  lemma CutInThree(r: seq<Byte>, m: nat)
    requires 1 + m <= |r|
    ensures r == ([r[0]] + r[1..1 + m]) + r[1 + m..]
  {
  }

  lemma SectionInverse(r: seq<Byte>, size: nat)
    requires SectionOf(r, size).Present?
    ensures r == SectionBytes(Some(SectionOf(r, size).records)) + SectionOf(r, size).rest
  {
    FlatOfSplit(r, 1, r[0], size, 1 + r[0] * size);
    CutInThree(r, r[0] * size);
  }

  // Bytes may only follow a message that has all three sections.
  predicate MayFollow(w: Wire, rest: seq<Byte>) {
    w.targets.None? ==> rest == []
  }

  lemma SectionsOfEncoded(w: Wire, rest: seq<Byte>)
    requires Sendable(w) && MayFollow(w, rest)
    ensures SectionsFrom(SectionBytes(w.fov) + (SectionBytes(w.objects) + (SectionBytes(w.targets) + rest)))
         == Some(Sections(w.fov, w.objects, w.targets))
  {
    var r3 := SectionBytes(w.targets) + rest;
    var r2 := SectionBytes(w.objects) + r3;
    if w.targets.Some? { SectionRoundTrip(w.targets.value, rest, TARGET_SIZE); }
    if w.objects.Some? { SectionRoundTrip(w.objects.value, r3, OBJECT_SIZE); }
    if w.fov.Some? { SectionRoundTrip(w.fov.value, r2, FOV_SIZE); }
  }

  lemma FixedRoundTrip(w: Wire, p: seq<Byte>)
    requires Holds(p, 0, FixedBytes(w))
    ensures CommonOf(p) == w.common && p[24] == w.coordinates && PoseAt(p) == w.pose
  {
    var b := FixedBytes(w);
    HeldPair(p, 0, CommonBytes(w.common) + [w.coordinates], PoseBytes(w.pose));
    HeldPair(p, 0, CommonBytes(w.common), [w.coordinates]);
    CommonRoundTrip(p, w.common);
    HeldByte(p, 24, [w.coordinates], 0);
    PoseRoundTrip(p, w.pose);
  }

  lemma PoseRoundTrip(p: seq<Byte>, s: Pose)
    requires Holds(p, 25, PoseBytes(s))
    ensures PoseAt(p) == s
  {
    var a := PackLe32(s.x) + PackLe32(s.y) + PackLe32(s.z) + PackLe32(s.yaw);
    var b := PackLe32(s.pitch) + PackLe32(s.roll) + PackLe32(s.yawError) + PackLe32(s.pitchError);
    assert PoseBytes(s) == a + b;
    HeldPair(p, 25, a, b);
    FourFloats(p, 25, s.x, s.y, s.z, s.yaw);
    FourFloats(p, 41, s.pitch, s.roll, s.yawError, s.pitchError);
  }

  lemma FourFloats(p: seq<Byte>, at: nat, a: F32, b: F32, c: F32, d: F32)
    requires Holds(p, at, PackLe32(a) + PackLe32(b) + PackLe32(c) + PackLe32(d))
    ensures UnpackLe32(p, at) == a && UnpackLe32(p, at + 4) == b
    ensures UnpackLe32(p, at + 8) == c && UnpackLe32(p, at + 12) == d
  {
    HeldPair(p, at, PackLe32(a) + PackLe32(b) + PackLe32(c), PackLe32(d));
    HeldPair(p, at, PackLe32(a) + PackLe32(b), PackLe32(c));
    HeldPair(p, at, PackLe32(a), PackLe32(b));
    Le32RoundTrip(p, at, a);
    Le32RoundTrip(p, at + 4, b);
    Le32RoundTrip(p, at + 8, c);
    Le32RoundTrip(p, at + 12, d);
  }

  lemma Regroup(a: seq<Byte>, b: seq<Byte>, c: seq<Byte>, d: seq<Byte>, rest: seq<Byte>)
    ensures a + (b + (c + (d + rest))) == (a + (b + (c + d))) + rest
  {
    assert c + (d + rest) == (c + d) + rest;
    assert b + ((c + d) + rest) == (b + (c + d)) + rest;
  }

  // The fixed part is read back, and what follows it is left to read.
  lemma FixedDecodes(w: Wire, tail: seq<Byte>, p: seq<Byte>)
    requires p == FixedBytes(w) + tail
    ensures |p| >= FIXED_SIZE && p[FIXED_SIZE..] == tail
    ensures CommonOf(p) == w.common && p[24] == w.coordinates && PoseAt(p) == w.pose
  {
    assert p[0..57] == FixedBytes(w);
    FixedRoundTrip(w, p);
  }

  /**
   * Whatever a sender writes is decoded in full: each section, however many records it declares
   * beyond the 16 the driver keeps, leaves the sections behind it readable.
   */
  lemma DecodesEncoded(w: Wire, rest: seq<Byte>, p: seq<Byte>)
    requires Sendable(w) && MayFollow(w, rest) && p == Encode(w) + rest
    ensures Decoded(p) == Some(w)
  {
    var tail := SectionBytes(w.fov) + (SectionBytes(w.objects) + (SectionBytes(w.targets) + rest));
    Regroup(FixedBytes(w), SectionBytes(w.fov), SectionBytes(w.objects), SectionBytes(w.targets), rest);
    FixedDecodes(w, tail, p);
    SectionsOfEncoded(w, rest);
  }

  lemma PoseInverse(p: seq<Byte>)
    requires |p| >= FIXED_SIZE
    ensures PoseBytes(PoseAt(p)) == p[25..57]
  {
    Le32Inverse(p, 25); Le32Inverse(p, 29); Le32Inverse(p, 33); Le32Inverse(p, 37);
    Le32Inverse(p, 41); Le32Inverse(p, 45); Le32Inverse(p, 49); Le32Inverse(p, 53);
    assert p[25..57] == p[25..29] + p[29..33] + p[33..37] + p[37..41] + p[41..45] + p[45..49] + p[49..53] + p[53..57];
  }

  lemma FixedInverse(p: seq<Byte>, w: Wire)
    requires |p| >= FIXED_SIZE && w.common == CommonOf(p) && w.coordinates == p[24] && w.pose == PoseAt(p)
    ensures FixedBytes(w) == p[..FIXED_SIZE]
  {
    CommonInverse(p);
    PoseInverse(p);
    assert p[..57] == p[..24] + [p[24]] + p[25..57];
  }

  lemma SectionsInverse(r: seq<Byte>, s: Sections) returns (rest: seq<Byte>)
    requires SectionsFrom(r) == Some(s)
    ensures |Given(s.fov)| < 0x100 && |Given(s.objects)| < 0x100 && |Given(s.targets)| < 0x100
    ensures r == SectionBytes(s.fov) + (SectionBytes(s.objects) + (SectionBytes(s.targets) + rest))
    ensures s.targets.None? ==> rest == []
  {
    rest := [];
    if s.fov.Some? {
      SectionInverse(r, FOV_SIZE);
      var r2 := SectionOf(r, FOV_SIZE).rest;
      if s.objects.Some? {
        SectionInverse(r2, OBJECT_SIZE);
        var r3 := SectionOf(r2, OBJECT_SIZE).rest;
        if s.targets.Some? {
          SectionInverse(r3, TARGET_SIZE);
          rest := SectionOf(r3, TARGET_SIZE).rest;
        }
      }
    }
  }

  predicate IsMessage(p: seq<Byte>, w: Wire, rest: seq<Byte>) {
    Sendable(w) && MayFollow(w, rest) && p == Encode(w) + rest
  }

  lemma AcceptsOnlyEncoded(p: seq<Byte>) returns (rest: seq<Byte>)
    requires Decoded(p).Some?
    ensures IsMessage(p, Decoded(p).value, rest)
  {
    var w := Decoded(p).value;
    FixedInverse(p, w);
    rest := SectionsInverse(p[FIXED_SIZE..], Sections(w.fov, w.objects, w.targets));
    Halve(p, FIXED_SIZE);
    Regroup(FixedBytes(w), SectionBytes(w.fov), SectionBytes(w.objects), SectionBytes(w.targets), rest);
  }

  lemma Halve(p: seq<Byte>, n: nat)
    requires n <= |p|
    ensures p == p[..n] + p[n..]
  {
  }

  /**
   * The driver parses a payload exactly when it is some sender's message (with bytes behind it only
   * if no section is missing), and then it is that one message.
   */
  lemma ParsesExactlyEncoded(p: seq<Byte>)
    ensures Decoded(p).Some? <==> exists w: Wire, rest: seq<Byte> :: IsMessage(p, w, rest)
    ensures forall w: Wire, rest: seq<Byte> :: IsMessage(p, w, rest) ==> Decoded(p) == Some(w)
  {
    if Decoded(p).Some? {
      var rest := AcceptsOnlyEncoded(p);
      assert IsMessage(p, Decoded(p).value, rest);
    }
    forall w: Wire, rest: seq<Byte> | IsMessage(p, w, rest) ensures Decoded(p) == Some(w) {
      DecodesEncoded(w, rest, p);
    }
  }

  // ----- Typed records through the whole path -----

  function FovRecords(fs: seq<FovSegment>): (rs: seq<seq<Byte>>)
    ensures |rs| == |fs| && AllOfSize(rs, FOV_SIZE)
  {
    seq(|fs|, i requires 0 <= i < |fs| => FovBytes(fs[i]))
  }

  function ObjectRecords(os: seq<ObjectType>): (rs: seq<seq<Byte>>)
    ensures |rs| == |os| && AllOfSize(rs, OBJECT_SIZE)
  {
    seq(|os|, i requires 0 <= i < |os| => ObjectBytes(os[i]))
  }

  function TargetRecords(ts: seq<Target>): (rs: seq<seq<Byte>>)
    ensures |rs| == |ts| && AllOfSize(rs, TARGET_SIZE)
  {
    seq(|ts|, i requires 0 <= i < |ts| => TargetBytes(ts[i]))
  }

  predicate Keeps<T(==)>(s: Slots<T>, sent: seq<T>, zero: T) {
    && s.count == Min(|sent|, 16) && |s.slots| == 16
    && (forall i :: 0 <= i < s.count ==> s.slots[i] == sent[i])
    && (forall i :: s.count <= i < 16 ==> s.slots[i] == zero)
  }

  /** Sent with any counts up to 255, each section arrives as its own first 16 entries and zeros. */
  lemma CappedRoundTrip(common: Common, coordinates: Byte, pose: Pose, fs: seq<FovSegment>, os: seq<ObjectType>,
                        ts: seq<Target>, rest: seq<Byte>)
    requires |fs| < 0x100 && |os| < 0x100 && |ts| < 0x100
    ensures var w := Wire(common, coordinates, pose,
                          Some(FovRecords(fs)), Some(ObjectRecords(os)), Some(TargetRecords(ts)));
            && Decoded(Encode(w) + rest) == Some(w)
            && MessageOf(w).common == common && MessageOf(w).coordinates == coordinates && MessageOf(w).pose == pose
            && Keeps(MessageOf(w).fov, fs, NO_FOV)
            && Keeps(MessageOf(w).objects, os, NO_OBJECT)
            && Keeps(MessageOf(w).targets, ts, NO_TARGET)
  {
    var w := Wire(common, coordinates, pose, Some(FovRecords(fs)), Some(ObjectRecords(os)), Some(TargetRecords(ts)));
    DecodesEncoded(w, rest, Encode(w) + rest);
    FovKept(fs);
    ObjectsKept(os);
    TargetsKept(ts);
  }

  lemma FovKept(fs: seq<FovSegment>)
    ensures Keeps(FovSlots(FovRecords(fs)), fs, NO_FOV)
  {
    forall i | 0 <= i < |fs| ensures FovOf(FovRecords(fs)[i]) == fs[i] { FovRoundTrip(fs[i]); }
  }

  lemma ObjectsKept(os: seq<ObjectType>)
    ensures Keeps(ObjectSlots(ObjectRecords(os)), os, NO_OBJECT)
  {
    forall i | 0 <= i < |os| ensures ObjectOf(ObjectRecords(os)[i]) == os[i] { ObjectRoundTrip(os[i]); }
  }

  lemma TargetsKept(ts: seq<Target>)
    ensures Keeps(TargetSlots(TargetRecords(ts)), ts, NO_TARGET)
  {
    forall i | 0 <= i < |ts| ensures TargetOf(TargetRecords(ts)[i]) == ts[i] { TargetRoundTrip(ts[i]); }
  }

  // ----- Where everything lies -----

  /** Where every field of the three kinds of record lies, as a number. */
  lemma FovLayout(r: seq<Byte>)
    requires |r| == 17
    ensures var f := FovOf(r);
            && f.azimuthBegin == LeNumber(r[0..4]) && f.azimuthEnd == LeNumber(r[4..8])
            && f.elevationBegin == LeNumber(r[8..12]) && f.elevationEnd == LeNumber(r[12..16])
            && f.blockage == r[16]
  {
    Le32IsNumber(r, 0); Le32IsNumber(r, 4); Le32IsNumber(r, 8); Le32IsNumber(r, 12);
  }

  lemma ObjectLayout(r: seq<Byte>)
    requires |r| == 9
    ensures var o := ObjectOf(r);
            o.kind == r[0] && o.rangeBegin == LeNumber(r[1..5]) && o.rangeEnd == LeNumber(r[5..9])
  {
    Le32IsNumber(r, 1); Le32IsNumber(r, 5);
  }

  lemma TargetLayout(r: seq<Byte>)
    requires |r| == 16
    ensures var t := TargetOf(r);
            && t.rcs == LeNumber(r[0..4]) && t.rangeBegin == LeNumber(r[4..8])
            && t.rangeEnd == LeNumber(r[8..12]) && t.snr == LeNumber(r[12..16])
  {
    Le32IsNumber(r, 0); Le32IsNumber(r, 4); Le32IsNumber(r, 8); Le32IsNumber(r, 12);
  }

  lemma PoseLayout(p: seq<Byte>)
    requires |p| >= 57
    ensures var s := PoseAt(p);
            && s.x == LeNumber(p[25..29]) && s.y == LeNumber(p[29..33]) && s.z == LeNumber(p[33..37])
            && s.yaw == LeNumber(p[37..41]) && s.pitch == LeNumber(p[41..45]) && s.roll == LeNumber(p[45..49])
            && s.yawError == LeNumber(p[49..53]) && s.pitchError == LeNumber(p[53..57])
  {
    Le32IsNumber(p, 25); Le32IsNumber(p, 29); Le32IsNumber(p, 33); Le32IsNumber(p, 37);
    Le32IsNumber(p, 41); Le32IsNumber(p, 45); Le32IsNumber(p, 49); Le32IsNumber(p, 53);
  }

  // A section at a cursor: none where the payload ends, else a count and that many records.
  ghost predicate SectionLies(p: seq<Byte>, at: nat, section: Option<seq<seq<Byte>>>, size: nat) {
    match section
    case None => at == |p|
    case Some(rs) =>
      && at < |p| && p[at] == |rs| && at + 1 + |rs| * size <= |p|
      && forall i :: 0 <= i < |rs| ==> RecordLies(p, at + 1 + i * size, rs[i], size)
  }

  ghost predicate RecordLies(p: seq<Byte>, at: nat, r: seq<Byte>, size: nat) {
    at + size <= |p| && r == p[at..at + size]
  }

  // The second and third sections behind a first one, and the third behind a second one.
  ghost predicate TargetsLie(p: seq<Byte>, at: nat, objects: Option<seq<seq<Byte>>>, targets: Option<seq<seq<Byte>>>)
  {
    match objects
    case None => targets.None?
    case Some(os) => SectionLies(p, at + 1 + |os| * 9, targets, 16)
  }

  ghost predicate ObjectsLie(p: seq<Byte>, fov: Option<seq<seq<Byte>>>, objects: Option<seq<seq<Byte>>>,
                             targets: Option<seq<seq<Byte>>>)
  {
    match fov
    case None => objects.None? && targets.None?
    case Some(fs) => SectionLies(p, 58 + |fs| * 17, objects, 9) && TargetsLie(p, 58 + |fs| * 17, objects, targets)
  }

  /** A message, section by section; bytes may lie behind the third section only. */
  ghost predicate LaidOut(p: seq<Byte>, w: Wire) {
    && |p| >= 57 && w.common == CommonOf(p) && w.coordinates == p[24] && w.pose == PoseAt(p)
    && SectionLies(p, 57, w.fov, 17) && ObjectsLie(p, w.fov, w.objects, w.targets)
  }

  lemma SectionExactly(p: seq<Byte>, at: nat, section: Option<seq<seq<Byte>>>, size: nat)
    requires at <= |p|
    ensures SectionLies(p, at, section, size) <==>
              match section
              case None => SectionOf(p[at..], size).Absent?
              case Some(rs) => SectionOf(p[at..], size).Present? && SectionOf(p[at..], size).records == rs
    ensures section.Some? && SectionLies(p, at, section, size) ==>
              SectionOf(p[at..], size).rest == p[at + 1 + |section.value| * size..]
  {
    if at < |p| && section.Some? && p[at] == |section.value| && at + 1 + |section.value| * size <= |p| {
      var rs := SectionThere(p, at, size, p[at]);
      forall i | 0 <= i < |rs| ensures RecordLies(p, at + 1 + i * size, rs[i], size) {
        RecordAt(p, at, rs, size, i, at + 1 + i * size);
      }
    }
  }

  lemma TargetsExactly(p: seq<Byte>, at: nat, fov: seq<seq<Byte>>, objects: Option<seq<seq<Byte>>>,
                       targets: Option<seq<seq<Byte>>>)
    requires at <= |p|
    ensures ObjectsFrom(fov, p[at..]) == Some(Sections(Some(fov), objects, targets))
       <==> SectionLies(p, at, objects, 9) && TargetsLie(p, at, objects, targets)
  {
    SectionExactly(p, at, objects, 9);
    if objects.Some? && SectionLies(p, at, objects, 9) {
      SectionExactly(p, at + 1 + |objects.value| * 9, targets, 16);
    }
  }

  lemma FirstIsKept(fov: seq<seq<Byte>>, r: seq<Byte>)
    ensures ObjectsFrom(fov, r).Some? ==> ObjectsFrom(fov, r).value.fov == Some(fov)
  {
  }

  // A first section, if there is one, is the one that is decoded.
  lemma FirstSection(r: seq<Byte>, s: Sections)
    ensures s.fov.None? ==>
              (SectionsFrom(r) == Some(s) <==> SectionOf(r, 17).Absent? && s.objects.None? && s.targets.None?)
    ensures s.fov.Some? ==>
              (SectionsFrom(r) == Some(s)
               <==>
               && SectionOf(r, 17).Present? && SectionOf(r, 17).records == s.fov.value
               && ObjectsFrom(s.fov.value, SectionOf(r, 17).rest) == Some(s))
  {
    match SectionOf(r, 17)
    case Present(rs, rest) => FirstIsKept(rs, rest);
    case _ =>
  }

  lemma NoSections(p: seq<Byte>, s: Sections)
    requires |p| >= 57 && s.fov.None?
    ensures SectionsFrom(p[57..]) == Some(s) <==> |p| == 57 && s.objects.None? && s.targets.None?
  {
    FirstSection(p[57..], s);
  }

  lemma SomeSections(p: seq<Byte>, fs: seq<seq<Byte>>, s: Sections)
    requires |p| >= 57 && s.fov == Some(fs)
    ensures SectionsFrom(p[57..]) == Some(s)
       <==> && SectionLies(p, 57, Some(fs), 17) && SectionLies(p, 58 + |fs| * 17, s.objects, 9)
            && TargetsLie(p, 58 + |fs| * 17, s.objects, s.targets)
  {
    var r := p[57..];
    FirstSection(r, s);
    SectionExactly(p, 57, Some(fs), 17);
    if SectionLies(p, 57, Some(fs), 17) {
      var second := 58 + |fs| * 17;
      assert second <= |p| && SectionOf(r, 17).rest == p[second..] && s == Sections(Some(fs), s.objects, s.targets);
      TargetsExactly(p, second, fs, s.objects, s.targets);
    } else {
      assert SectionsFrom(r) != Some(s);
    }
  }

  lemma SectionsExactly(p: seq<Byte>, s: Sections)
    requires |p| >= 57
    ensures SectionsFrom(p[57..]) == Some(s)
       <==> SectionLies(p, 57, s.fov, 17) && ObjectsLie(p, s.fov, s.objects, s.targets)
  {
    if s.fov.None? { NoSections(p, s); } else { SomeSections(p, s.fov.value, s); }
  }

  /** What is decoded, for every payload, off its bytes: each section where the counts before it put it. */
  lemma DecodedExactly(p: seq<Byte>, w: Wire)
    ensures Decoded(p) == Some(w) <==> LaidOut(p, w)
  {
    if |p| >= 57 { SectionsExactly(p, Sections(w.fov, w.objects, w.targets)); }
  }
}
