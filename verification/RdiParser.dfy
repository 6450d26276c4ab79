/** The RDI payload: a 36-byte header and 51-byte detection records. */
module Rdi {
  import opened Bytes
  import opened Records
  import opened CommonHeader

  const HEADER_SIZE: nat := 36
  const DETECTION_SIZE: nat := 51
  const MAX_DETECTIONS: nat := 4096

  /** What a detection record carries on the wire. */
  datatype Wire = Wire(status: StatusPart, information: InformationPart, position: PositionPart, dynamics: DynamicsPart)

  datatype StatusPart = StatusPart(existence: Byte, id: U16, objectId: U16, timestampDifference: F32)
  datatype InformationPart = InformationPart(rcs: F32, snr: F32, groupingId: U16)
  datatype PositionPart = PositionPart(range: F32, azimuth: F32, elevation: F32,
                                       rangeError: F32, azimuthError: F32, elevationError: F32)
  datatype DynamicsPart = DynamicsPart(velocity: F32, velocityError: F32)

  /** Members of the driver's structure that the wire no longer carries; the parser zeroes them. */
  datatype Legacy = Legacy(rcsError: F32, snrError: F32, multiTargetProbability: Byte, ambiguityProbability: Byte,
                           freeSpaceProbability: Byte, numClassifications: Byte, classificationTypes: seq<Byte>,
                           classificationConfidences: seq<Byte>, debugPower: F32, debugBytes: seq<Byte>,
                           debugAmbiguityIndexVelocity: U16)

  const ZEROED := Legacy(0, 0, 0, 0, 0, 0, Zeros(8), Zeros(8), 0, Zeros(9), 0)

  datatype Detection = Detection(wire: Wire, legacy: Legacy)

  const BLANK := Detection(Wire(StatusPart(0, 0, 0, 0), InformationPart(0, 0, 0), PositionPart(0, 0, 0, 0, 0, 0),
                                DynamicsPart(0, 0)), ZEROED)

  datatype Ambiguity = Ambiguity(velocityBegin: F32, velocityEnd: F32, rangeBegin: F32, rangeEnd: F32,
                                 azimuthBegin: F32, azimuthEnd: F32, elevationBegin: F32, elevationEnd: F32)

  datatype Message = Message(common: Common, ambiguity: Ambiguity, capability: U16, status: Byte, numDetections: U16)

  datatype Frame = Frame(message: Message, detections: seq<Detection>)

  // ----- One record -----

  function WireOf(d: seq<Byte>): Wire
    requires |d| == DETECTION_SIZE
  {
    Wire(StatusPart(d[0], UnpackLe16(d, 1), UnpackLe16(d, 3), UnpackLe32(d, 5)),
         InformationPart(UnpackLe32(d, 9), UnpackLe32(d, 13), UnpackLe16(d, 17)),
         PositionPart(UnpackLe32(d, 19), UnpackLe32(d, 23), UnpackLe32(d, 27),
                      UnpackLe32(d, 31), UnpackLe32(d, 35), UnpackLe32(d, 39)),
         DynamicsPart(UnpackLe32(d, 43), UnpackLe32(d, 47)))
  }

  function StatusBytes(s: StatusPart): (b: seq<Byte>)
    ensures |b| == 9
  {
    [s.existence] + PackLe16(s.id) + PackLe16(s.objectId) + PackLe32(s.timestampDifference)
  }

  function InformationBytes(s: InformationPart): (b: seq<Byte>)
    ensures |b| == 10
  {
    PackLe32(s.rcs) + PackLe32(s.snr) + PackLe16(s.groupingId)
  }

  function PositionBytes(s: PositionPart): (b: seq<Byte>)
    ensures |b| == 24
  {
    PackLe32(s.range) + PackLe32(s.azimuth) + PackLe32(s.elevation)
    + PackLe32(s.rangeError) + PackLe32(s.azimuthError) + PackLe32(s.elevationError)
  }

  function DynamicsBytes(s: DynamicsPart): (b: seq<Byte>)
    ensures |b| == 8
  {
    PackLe32(s.velocity) + PackLe32(s.velocityError)
  }

  function WireBytes(w: Wire): (d: seq<Byte>)
    ensures |d| == DETECTION_SIZE
  {
    StatusBytes(w.status) + InformationBytes(w.information) + PositionBytes(w.position) + DynamicsBytes(w.dynamics)
  }

  lemma StatusRoundTrip(d: seq<Byte>, s: StatusPart)
    requires Holds(d, 0, StatusBytes(s))
    ensures d[0] == s.existence && UnpackLe16(d, 1) == s.id && UnpackLe16(d, 3) == s.objectId
         && UnpackLe32(d, 5) == s.timestampDifference
  {
    var b := StatusBytes(s);
    HeldByte(d, 0, b, 0);
    assert b[1..3] == PackLe16(s.id) && b[3..5] == PackLe16(s.objectId) && b[5..9] == PackLe32(s.timestampDifference);
    HeldPart(d, 0, b, 1, 3); HeldPart(d, 0, b, 3, 5); HeldPart(d, 0, b, 5, 9);
    Le16RoundTrip(d, 1, s.id);
    Le16RoundTrip(d, 3, s.objectId);
    Le32RoundTrip(d, 5, s.timestampDifference);
  }

  lemma InformationRoundTrip(d: seq<Byte>, s: InformationPart)
    requires Holds(d, 9, InformationBytes(s))
    ensures UnpackLe32(d, 9) == s.rcs && UnpackLe32(d, 13) == s.snr && UnpackLe16(d, 17) == s.groupingId
  {
    var b := InformationBytes(s);
    assert b[0..4] == PackLe32(s.rcs) && b[4..8] == PackLe32(s.snr) && b[8..10] == PackLe16(s.groupingId);
    HeldPart(d, 9, b, 0, 4); HeldPart(d, 9, b, 4, 8); HeldPart(d, 9, b, 8, 10);
    Le32RoundTrip(d, 9, s.rcs);
    Le32RoundTrip(d, 13, s.snr);
    Le16RoundTrip(d, 17, s.groupingId);
  }

  lemma PositionRoundTrip(d: seq<Byte>, s: PositionPart)
    requires Holds(d, 19, PositionBytes(s))
    ensures UnpackLe32(d, 19) == s.range && UnpackLe32(d, 23) == s.azimuth && UnpackLe32(d, 27) == s.elevation
    ensures UnpackLe32(d, 31) == s.rangeError && UnpackLe32(d, 35) == s.azimuthError
    ensures UnpackLe32(d, 39) == s.elevationError
  {
    var b := PositionBytes(s);
    assert b[0..4] == PackLe32(s.range) && b[4..8] == PackLe32(s.azimuth) && b[8..12] == PackLe32(s.elevation);
    assert b[12..16] == PackLe32(s.rangeError) && b[16..20] == PackLe32(s.azimuthError)
        && b[20..24] == PackLe32(s.elevationError);
    HeldPart(d, 19, b, 0, 4); HeldPart(d, 19, b, 4, 8); HeldPart(d, 19, b, 8, 12);
    HeldPart(d, 19, b, 12, 16); HeldPart(d, 19, b, 16, 20); HeldPart(d, 19, b, 20, 24);
    Le32RoundTrip(d, 19, s.range); Le32RoundTrip(d, 23, s.azimuth); Le32RoundTrip(d, 27, s.elevation);
    Le32RoundTrip(d, 31, s.rangeError); Le32RoundTrip(d, 35, s.azimuthError); Le32RoundTrip(d, 39, s.elevationError);
  }

  lemma DynamicsRoundTrip(d: seq<Byte>, s: DynamicsPart)
    requires Holds(d, 43, DynamicsBytes(s))
    ensures UnpackLe32(d, 43) == s.velocity && UnpackLe32(d, 47) == s.velocityError
  {
    HeldPair(d, 43, PackLe32(s.velocity), PackLe32(s.velocityError));
    Le32RoundTrip(d, 43, s.velocity);
    Le32RoundTrip(d, 47, s.velocityError);
  }

  /** Reading back a written record gives every field, each from its own bytes. */
  lemma RecordRoundTrip(w: Wire)
    ensures WireOf(WireBytes(w)) == w
  {
    var d := WireBytes(w);
    assert d[0..9] == StatusBytes(w.status) && d[9..19] == InformationBytes(w.information);
    assert d[19..43] == PositionBytes(w.position) && d[43..51] == DynamicsBytes(w.dynamics);
    StatusRoundTrip(d, w.status);
    InformationRoundTrip(d, w.information);
    PositionRoundTrip(d, w.position);
    DynamicsRoundTrip(d, w.dynamics);
  }

  // ----- The payload -----

  function Declared(p: seq<Byte>): U16
    requires |p| >= HEADER_SIZE
  {
    UnpackLe16(p, 34)
  }

  /** The detections a payload yields: as many as declared, storable and wholly present. */
  function Count(p: seq<Byte>): (n: nat)
    requires |p| >= HEADER_SIZE
    ensures HEADER_SIZE + n * DETECTION_SIZE <= |p|
  {
    Min(Min(Declared(p), MAX_DETECTIONS), (|p| - HEADER_SIZE) / DETECTION_SIZE)
  }

  function DetectionOf(r: seq<Byte>): Detection
    requires |r| == DETECTION_SIZE
  {
    Detection(WireOf(r), ZEROED)
  }

  function DetectionsOf(rs: seq<seq<Byte>>): (ds: seq<Detection>)
    requires AllOfSize(rs, DETECTION_SIZE)
    ensures |ds| == |rs| && forall i :: 0 <= i < |rs| ==> ds[i] == DetectionOf(rs[i])
  {
    seq(|rs|, i requires 0 <= i < |rs| => DetectionOf(rs[i]))
  }

  function MessageOf(p: seq<Byte>): Message
    requires |p| >= HEADER_SIZE
  {
    Message(CommonOf(p), Ambiguity(UnpackLe32(p, 24), UnpackLe32(p, 28), 0, 0, 0, 0, 0, 0),
            UnpackLe16(p, 32), 0, Count(p))
  }

  function Parsed(p: seq<Byte>): Option<Frame> {
    if |p| < HEADER_SIZE then None
    else Some(Frame(MessageOf(p), DetectionsOf(Split(p, HEADER_SIZE, Count(p), DETECTION_SIZE))))
  }

  lemma ClampTwice(declared: U16, len: nat, n: nat)
    requires len >= HEADER_SIZE && n == Min(declared, MAX_DETECTIONS)
    ensures (if len < HEADER_SIZE + n * DETECTION_SIZE then (len - HEADER_SIZE) / DETECTION_SIZE else n)
         == Min(n, (len - HEADER_SIZE) / DETECTION_SIZE)
  {
  }

  lemma DetectionAt(p: seq<Byte>, n: nat, i: nat)
    requires i < n && HEADER_SIZE + n * DETECTION_SIZE <= |p|
    ensures var at := HEADER_SIZE + i * DETECTION_SIZE;
            DetectionsOf(Split(p, HEADER_SIZE, n, DETECTION_SIZE))[i] == DetectionOf(p[at..at + DETECTION_SIZE])
  {
    SplitAt(p, HEADER_SIZE, n, DETECTION_SIZE, i);
  }

  // The loop that fills detections_storage, resized to n.
  method FillStorage(p: seq<Byte>, n: nat) returns (storage: array<Detection>)
    requires HEADER_SIZE + n * DETECTION_SIZE <= |p|
    ensures storage[..] == DetectionsOf(Split(p, HEADER_SIZE, n, DETECTION_SIZE))
  {
    ghost var ds := DetectionsOf(Split(p, HEADER_SIZE, n, DETECTION_SIZE));
    storage := new Detection[n](_ => BLANK);
    for i := 0 to n
      invariant forall k :: 0 <= k < i ==> storage[k] == ds[k]
    {
      var at := HEADER_SIZE + i * DETECTION_SIZE;
      DetectionAt(p, n, i);
      storage[i] := DetectionOf(p[at..at + DETECTION_SIZE]);
    }
    assert storage[..] == ds;
  }

  /** RdiParser::Parse: two clamps on the declared count, a resize, and a loop over the records. */
  method Parse(p: seq<Byte>) returns (frame: Option<Frame>)
    ensures frame == Parsed(p)
  {
    if |p| < HEADER_SIZE {
      return None;
    }
    var n: nat := UnpackLe16(p, 34);
    if n > MAX_DETECTIONS {
      n := MAX_DETECTIONS;
    }
    ClampTwice(Declared(p), |p|, n);
    var expected := HEADER_SIZE + n * DETECTION_SIZE;
    if |p| < expected {
      n := (|p| - HEADER_SIZE) / DETECTION_SIZE;
    }
    assert n == Count(p);
    var storage := FillStorage(p, n);
    var message := Message(CommonOf(p), Ambiguity(UnpackLe32(p, 24), UnpackLe32(p, 28), 0, 0, 0, 0, 0, 0),
                           UnpackLe16(p, 32), 0, n);
    return Some(Frame(message, storage[..]));
  }

  // ----- The sender's side -----

  datatype Head = Head(common: Common, velocityBegin: F32, velocityEnd: F32, capability: U16)

  function HeadBytes(h: Head, declared: U16): (p: seq<Byte>)
    ensures |p| == HEADER_SIZE
  {
    CommonBytes(h.common) + PackLe32(h.velocityBegin) + PackLe32(h.velocityEnd)
    + PackLe16(h.capability) + PackLe16(declared)
  }

  function RecordsOf(ws: seq<Wire>): (rs: seq<seq<Byte>>)
    ensures |rs| == |ws| && AllOfSize(rs, DETECTION_SIZE)
  {
    seq(|ws|, i requires 0 <= i < |ws| => WireBytes(ws[i]))
  }

  /** A payload whose header declares `declared` detections and which then carries these. */
  function Encode(h: Head, declared: U16, ws: seq<Wire>): (p: seq<Byte>)
  {
    HeadBytes(h, declared) + Flat(RecordsOf(ws))
  }

  function FrameWith(h: Head, ws: seq<Wire>): Frame
    requires |ws| <= MAX_DETECTIONS
  {
    Frame(Message(h.common, Ambiguity(h.velocityBegin, h.velocityEnd, 0, 0, 0, 0, 0, 0), h.capability, 0, |ws|),
          seq(|ws|, i requires 0 <= i < |ws| => Detection(ws[i], ZEROED)))
  }

  /** The frame a sender means by a head and records: the head's fields, the records in order, and their number. */
  lemma SentFrame(h: Head, ws: seq<Wire>)
    requires |ws| <= 4096
    ensures var m := FrameWith(h, ws).message;
            && m.common == h.common && m.capability == h.capability && m.status == 0 && m.numDetections == |ws|
            && m.ambiguity.velocityBegin == h.velocityBegin && m.ambiguity.velocityEnd == h.velocityEnd
    ensures |FrameWith(h, ws).detections| == |ws|
    ensures forall i :: 0 <= i < |ws| ==> FrameWith(h, ws).detections[i].wire == ws[i]
  {
  }

  lemma HeadRoundTrip(p: seq<Byte>, h: Head, declared: U16)
    requires Holds(p, 0, HeadBytes(h, declared))
    ensures CommonOf(p) == h.common && UnpackLe32(p, 24) == h.velocityBegin && UnpackLe32(p, 28) == h.velocityEnd
         && UnpackLe16(p, 32) == h.capability && Declared(p) == declared
  {
    var b := HeadBytes(h, declared);
    assert b[0..24] == CommonBytes(h.common);
    assert b[24..28] == PackLe32(h.velocityBegin) && b[28..32] == PackLe32(h.velocityEnd);
    var x := CommonBytes(h.common) + PackLe32(h.velocityBegin) + PackLe32(h.velocityEnd);
    assert b == x + PackLe16(h.capability) + PackLe16(declared) && |x| == 32;
    assert b[32..34] == PackLe16(h.capability);
    assert b[34..36] == b[34..] == PackLe16(declared);
    HeldPart(p, 0, b, 0, 24); HeldPart(p, 0, b, 24, 28); HeldPart(p, 0, b, 28, 32);
    HeldPart(p, 0, b, 32, 34); HeldPart(p, 0, b, 34, 36);
    CommonRoundTrip(p, h.common);
    Le32RoundTrip(p, 24, h.velocityBegin);
    Le32RoundTrip(p, 28, h.velocityEnd);
    Le16RoundTrip(p, 32, h.capability);
    Le16RoundTrip(p, 34, declared);
  }

  lemma EncodedLayout(h: Head, declared: U16, ws: seq<Wire>, broken: seq<Byte>, p: seq<Byte>)
    requires |broken| < DETECTION_SIZE && p == Encode(h, declared, ws) + broken
    ensures |p| == HEADER_SIZE + |ws| * DETECTION_SIZE + |broken|
    ensures Holds(p, 0, HeadBytes(h, declared)) && Holds(p, HEADER_SIZE, Flat(RecordsOf(ws)))
    ensures Declared(p) == declared && Count(p) == Min(Min(declared, MAX_DETECTIONS), |ws|)
  {
    var rs := RecordsOf(ws);
    FlatSize(rs, DETECTION_SIZE);
    HeldAfter(HeadBytes(h, declared), Flat(rs), broken);
    assert p[0..36] == HeadBytes(h, declared);
    HeadRoundTrip(p, h, declared);
    WholeRecords(|ws|, |broken|);
  }

  lemma DetectionsRoundTrip(ws: seq<Wire>, n: nat)
    requires n <= |ws|
    ensures DetectionsOf(RecordsOf(ws)[..n]) == seq(n, i requires 0 <= i < n => Detection(ws[i], ZEROED))
  {
    forall i | 0 <= i < n ensures DetectionOf(RecordsOf(ws)[i]) == Detection(ws[i], ZEROED) {
      RecordRoundTrip(ws[i]);
    }
  }

  /**
   * Parsing what a sender wrote: whatever count it declares, and with up to one broken record's worth
   * of bytes behind, the first min(declared, 4096, present) detections come back unchanged.
   */
  lemma ParseOfEncode(h: Head, declared: U16, ws: seq<Wire>, broken: seq<Byte>)
    requires |broken| < DETECTION_SIZE
    ensures Parsed(Encode(h, declared, ws) + broken)
         == Some(FrameWith(h, ws[..Min(Min(declared, MAX_DETECTIONS), |ws|)]))
  {
    var p := Encode(h, declared, ws) + broken;
    EncodedLayout(h, declared, ws, broken, p);
    HeadRoundTrip(p, h, declared);
    var n := Count(p);
    SplitOfFlat(p, HEADER_SIZE, RecordsOf(ws), DETECTION_SIZE);
    SplitPrefix(p, HEADER_SIZE, n, |ws|, DETECTION_SIZE);
    DetectionsRoundTrip(ws, n);
    assert FrameWith(h, ws[..n]).detections == seq(n, i requires 0 <= i < n => Detection(ws[i], ZEROED));
  }

  lemma WholeRecords(n: nat, extra: nat)
    requires extra < DETECTION_SIZE
    ensures (n * DETECTION_SIZE + extra) / DETECTION_SIZE == n
  {
  }

  /** Cutting a payload short anywhere after the header only loses detections off the end. */
  lemma PrefixLosesOnlyTail(p: seq<Byte>, q: seq<Byte>)
    requires |p| >= HEADER_SIZE && p <= q
    ensures Parsed(p).value.detections <= Parsed(q).value.detections
    ensures Parsed(p).value.message == Parsed(q).value.message.(numDetections := Count(p))
  {
    assert forall i :: 0 <= i < |p| ==> p[i] == q[i];
    var m, n := Count(p), Count(q);
    DivideMonotone(|p| - HEADER_SIZE, |q| - HEADER_SIZE);
    SplitLocal(p, q, HEADER_SIZE, m, DETECTION_SIZE);
    SplitPrefix(q, HEADER_SIZE, m, n, DETECTION_SIZE);
  }

  lemma DivideMonotone(a: nat, b: nat)
    requires a <= b
    ensures a / DETECTION_SIZE <= b / DETECTION_SIZE
  {
  }

  // ----- Where everything lies -----

  /** Where every field of a record lies, as a number. */
  lemma RecordLayout(d: seq<Byte>)
    requires |d| == 51
    ensures var w := WireOf(d);
            && w.status.existence == d[0] && w.status.id == LeNumber(d[1..3])
            && w.status.objectId == LeNumber(d[3..5]) && w.status.timestampDifference == LeNumber(d[5..9])
            && w.information.rcs == LeNumber(d[9..13]) && w.information.snr == LeNumber(d[13..17])
            && w.information.groupingId == LeNumber(d[17..19])
            && w.position.range == LeNumber(d[19..23]) && w.position.azimuth == LeNumber(d[23..27])
            && w.position.elevation == LeNumber(d[27..31]) && w.position.rangeError == LeNumber(d[31..35])
            && w.position.azimuthError == LeNumber(d[35..39]) && w.position.elevationError == LeNumber(d[39..43])
            && w.dynamics.velocity == LeNumber(d[43..47]) && w.dynamics.velocityError == LeNumber(d[47..51])
  {
    Le16IsNumber(d, 1); Le16IsNumber(d, 3); Le32IsNumber(d, 5);
    Le32IsNumber(d, 9); Le32IsNumber(d, 13); Le16IsNumber(d, 17);
    Le32IsNumber(d, 19); Le32IsNumber(d, 23); Le32IsNumber(d, 27);
    Le32IsNumber(d, 31); Le32IsNumber(d, 35); Le32IsNumber(d, 39);
    Le32IsNumber(d, 43); Le32IsNumber(d, 47);
  }

  /** What is parsed, for every payload, off its bytes: a frame unless the header is cut short. */
  lemma ParsedExactly(p: seq<Byte>)
    ensures Parsed(p).None? <==> |p| < 36
    ensures |p| >= 36 ==>
              var m := Parsed(p).value.message;
              && m.common == CommonOf(p)
              && m.ambiguity.velocityBegin == LeNumber(p[24..28]) && m.ambiguity.velocityEnd == LeNumber(p[28..32])
              && m.capability == LeNumber(p[32..34]) && m.status == 0
              && m.numDetections == |Parsed(p).value.detections|
              && m.numDetections == Min(Min(LeNumber(p[34..36]), 4096), (|p| - 36) / 51)
  {
    if |p| >= 36 {
      Le32IsNumber(p, 24);
      Le32IsNumber(p, 28);
      Le16IsNumber(p, 32);
      Le16IsNumber(p, 34);
    }
  }

  /** And detection i is read from the 51 bytes at 36 + 51 i. */
  lemma DetectionsExactly(p: seq<Byte>, i: nat)
    requires |p| >= 36 && i < |Parsed(p).value.detections|
    ensures 36 + i * 51 + 51 <= |p|
    ensures Parsed(p).value.detections[i].wire == WireOf(p[36 + i * 51..36 + i * 51 + 51])
  {
    DetectionAt(p, Count(p), i);
  }

  /** What the wire no longer carries is zero in every parsed frame. */
  lemma LegacyIsZero(p: seq<Byte>)
    requires |p| >= 36
    ensures var a := Parsed(p).value.message.ambiguity;
            a.rangeBegin == a.rangeEnd == a.azimuthBegin == a.azimuthEnd == a.elevationBegin == a.elevationEnd == 0
    ensures forall d :: d in Parsed(p).value.detections ==>
              var l := d.legacy;
              && l.rcsError == l.snrError == l.debugPower == 0 && l.debugAmbiguityIndexVelocity == 0
              && l.multiTargetProbability == l.ambiguityProbability == l.freeSpaceProbability == 0
              && l.numClassifications == 0
              && (forall k :: 0 <= k < |l.classificationTypes| ==> l.classificationTypes[k] == 0)
              && (forall k :: 0 <= k < |l.classificationConfidences| ==> l.classificationConfidences[k] == 0)
              && (forall k :: 0 <= k < |l.debugBytes| ==> l.debugBytes[k] == 0)
  {
  }
}
