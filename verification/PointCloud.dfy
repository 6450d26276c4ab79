/** Filtering a frame and building the point cloud and the detection array from it. */
module PointCloud {
  import opened Bytes
  import opened Records
  import opened Rdi
  import opened Floats

  datatype Config = Config(frameId: string, minRange: Float, maxRange: Float, minSnr: Float, minExistence: Float)

  /** Cartesian coordinates, as computed by float arithmetic that is not modelled. */
  datatype Cartesian = Cartesian(x: F32, y: F32, z: F32)

  type Projection = (F32, F32, F32) -> Cartesian

  /** One PointCloud2 point; the integer-valued members are exact in a float and kept as integers. */
  datatype Point = Point(place: Cartesian, radialDistance: F32, azimuth: F32, elevation: F32, radialVelocity: F32,
                         rcs: F32, snr: F32, radialDistanceError: F32, azimuthError: F32, elevationError: F32,
                         radialVelocityError: F32, existence: nat, multiTarget: nat, detectionId: nat, sensorId: nat,
                         intensity: F32)

  datatype Cloud = Cloud(frameId: string, points: seq<Point>)

  /** One array entry: every member of the detection, its Cartesian place and the sensor id. */
  datatype Entry = Entry(detection: Detection, place: Cartesian, sensorId: Byte)

  datatype DetectionArray = DetectionArray(frameId: string, message: Message, entries: seq<Entry>)

  /** passes_filter: written with the comparisons that reject, so NaN never rejects. */
  predicate Passes(c: Config, d: Detection) {
    var range := Value(d.wire.position.range);
    && !(Less(range, c.minRange) || Less(c.maxRange, range))
    && !Less(Value(d.wire.information.snr), c.minSnr)
    && !Less(Finite(d.wire.status.existence as real), c.minExistence)
  }

  // The detections a frame really offers: both the count and the storage bound the loops.
  function Offered(frame: Frame): seq<Detection> {
    frame.detections[..Min(frame.message.numDetections, |frame.detections|)]
  }

  /** The detections that pass, in frame order. */
  function Kept(c: Config, ds: seq<Detection>): (ks: seq<Detection>)
    ensures |ks| <= |ds|
  {
    if ds == [] then []
    else
      var rest, last := Kept(c, ds[..|ds| - 1]), ds[|ds| - 1];
      if Passes(c, last) then rest + [last] else rest
  }

  function Place(project: Projection, d: Detection): Cartesian {
    project(d.wire.position.range, d.wire.position.azimuth, d.wire.position.elevation)
  }

  function PointOf(project: Projection, sensorId: Byte, d: Detection): Point {
    var p, v, i, s := d.wire.position, d.wire.dynamics, d.wire.information, d.wire.status;
    Point(Place(project, d), p.range, p.azimuth, p.elevation, v.velocity, i.rcs, i.snr, p.rangeError, p.azimuthError,
          p.elevationError, v.velocityError, s.existence, d.legacy.multiTargetProbability, s.id, sensorId, i.rcs)
  }

  function EntryOf(project: Projection, sensorId: Byte, d: Detection): Entry {
    Entry(d, Place(project, d), sensorId)
  }

  function PointsOf(project: Projection, sensorId: Byte, ds: seq<Detection>): (ps: seq<Point>)
    ensures |ps| == |ds|
  {
    seq(|ds|, i requires 0 <= i < |ds| => PointOf(project, sensorId, ds[i]))
  }

  function EntriesOf(project: Projection, sensorId: Byte, ds: seq<Detection>): (es: seq<Entry>)
    ensures |es| == |ds|
  {
    seq(|ds|, i requires 0 <= i < |ds| => EntryOf(project, sensorId, ds[i]))
  }

  function CloudOf(project: Projection, c: Config, frame: Frame): Cloud {
    Cloud(c.frameId, PointsOf(project, frame.message.common.sensorId, Kept(c, Offered(frame))))
  }

  function ArrayOf(project: Projection, c: Config, frame: Frame): DetectionArray {
    DetectionArray(c.frameId, frame.message, EntriesOf(project, frame.message.common.sensorId, Kept(c, Offered(frame))))
  }

  lemma KeptStep(c: Config, ds: seq<Detection>, i: nat)
    requires i < |ds|
    ensures Kept(c, ds[..i + 1]) == if Passes(c, ds[i]) then Kept(c, ds[..i]) + [ds[i]] else Kept(c, ds[..i])
  {
    assert ds[..i + 1][..i] == ds[..i];
  }

  lemma {:induction false} KeptPrefix(c: Config, ds: seq<Detection>, i: nat)
    requires i <= |ds|
    ensures Kept(c, ds[..i]) <= Kept(c, ds)
    decreases |ds| - i
  {
    if i < |ds| {
      KeptStep(c, ds, i);
      KeptPrefix(c, ds, i + 1);
    } else {
      assert ds[..i] == ds;
    }
  }

  lemma PointsStep(project: Projection, sensorId: Byte, ks: seq<Detection>, d: Detection)
    ensures PointsOf(project, sensorId, ks + [d]) == PointsOf(project, sensorId, ks) + [PointOf(project, sensorId, d)]
  {
  }

  const BLANK_POINT := Point(Cartesian(0, 0, 0), 0, 0, 0, 0, 0, 0, 0, 0, 0, 0, 0, 0, 0, 0, 0)

  // What the second pass has filled in after i detections.
  predicate Filled(done: seq<Point>, c: Config, project: Projection, sensorId: Byte, ds: seq<Detection>, i: nat) {
    i <= |ds| && done == PointsOf(project, sensorId, Kept(c, ds[..i]))
  }

  // One detection on: the point it adds, for which there is room.
  lemma FillStep(done: seq<Point>, c: Config, project: Projection, sensorId: Byte, ds: seq<Detection>, i: nat)
    requires i < |ds| && Filled(done, c, project, sensorId, ds, i)
    ensures Passes(c, ds[i]) ==>
              && Filled(done + [PointOf(project, sensorId, ds[i])], c, project, sensorId, ds, i + 1)
              && |done| < |Kept(c, ds)|
    ensures !Passes(c, ds[i]) ==> Filled(done, c, project, sensorId, ds, i + 1)
  {
    KeptStep(c, ds, i);
    KeptPrefix(c, ds, i + 1);
    if Passes(c, ds[i]) { PointsStep(project, sensorId, Kept(c, ds[..i]), ds[i]); }
  }

  lemma FilledAll(done: seq<Point>, c: Config, project: Projection, sensorId: Byte, ds: seq<Detection>)
    requires Filled(done, c, project, sensorId, ds, |ds|)
    ensures done == PointsOf(project, sensorId, Kept(c, ds)) && |done| == |Kept(c, ds)|
  {
    assert ds[..|ds|] == ds;
  }

  class PointCloudBuilder {
    var config: Config
    const project: Projection

    constructor (config: Config, project: Projection)
      ensures this.config == config && this.project == project
    {
      this.config, this.project := config, project;
    }

    method UpdateConfig(config: Config)
      modifies this
      ensures this.config == config
    {
      this.config := config;
    }

    // The first pass.
    method CountPassing(ds: seq<Detection>) returns (count: nat)
      ensures count == |Kept(config, ds)|
    {
      count := 0;
      for i := 0 to |ds|
        invariant count == |Kept(config, ds[..i])|
      {
        KeptStep(config, ds, i);
        if Passes(config, ds[i]) {
          count := count + 1;
        }
      }
      assert ds[..|ds|] == ds;
    }

    /**
     * build: count, size the cloud, then fill it through iterators that advance once a point.
     */
    method Build(frame: Frame) returns (cloud: Cloud)
      ensures cloud == CloudOf(project, config, frame)
    {
      var ds, sensorId := Offered(frame), frame.message.common.sensorId;
      if frame.message.numDetections == 0 || frame.detections == [] {
        return Cloud(config.frameId, []);
      }
      var count := CountPassing(ds);
      if count == 0 {
        return Cloud(config.frameId, []);
      }
      var points := new Point[count](_ => BLANK_POINT);
      var _ := FillPoints(points, ds, sensorId);
      cloud := Cloud(config.frameId, points[..]);
    }

    // The second pass: the iterators never leave the cloud and end exactly at its end.
    method FillPoints(points: array<Point>, ds: seq<Detection>, sensorId: Byte) returns (it: nat)
      requires points.Length == |Kept(config, ds)|
      modifies points
      ensures points[..] == PointsOf(project, sensorId, Kept(config, ds))
      ensures it == points.Length
    {
      it := 0;
      ghost var c, done: seq<Point> := config, [];
      for i := 0 to |ds|
        invariant config == c && it == |done| <= points.Length && points[..it] == done
        invariant Filled(done, c, project, sensorId, ds, i)
      {
        FillStep(done, c, project, sensorId, ds, i);
        if !Passes(config, ds[i]) {
          continue;
        }
        var point := PointOf(project, sensorId, ds[i]);
        points[it] := point;
        done := done + [point];
        it := it + 1;
      }
      FilledAll(done, c, project, sensorId, ds);
      assert points[..it] == points[..];
    }

    method BuildDetectionArray(frame: Frame) returns (arr: DetectionArray)
      ensures arr == ArrayOf(project, config, frame)
    {
      var ds, sensorId := Offered(frame), frame.message.common.sensorId;
      var entries := [];
      for i := 0 to |ds|
        invariant entries == EntriesOf(project, sensorId, Kept(config, ds[..i]))
      {
        KeptStep(config, ds, i);
        if !Passes(config, ds[i]) {
          continue;
        }
        entries := entries + [EntryOf(project, sensorId, ds[i])];
      }
      assert ds[..|ds|] == ds;
      arr := DetectionArray(config.frameId, frame.message, entries);
    }
  }

  // ----- What the two outputs have in common -----

  // A point and an array entry report the same detection of the same sensor, member by member.
  predicate SameReading(p: Point, e: Entry) {
    var w := e.detection.wire;
    && p.place == e.place
    && p.radialDistance == w.position.range && p.radialDistanceError == w.position.rangeError
    && p.azimuth == w.position.azimuth && p.azimuthError == w.position.azimuthError
    && p.elevation == w.position.elevation && p.elevationError == w.position.elevationError
    && p.radialVelocity == w.dynamics.velocity && p.radialVelocityError == w.dynamics.velocityError
    && p.rcs == w.information.rcs && p.intensity == w.information.rcs && p.snr == w.information.snr
    && p.existence == w.status.existence && p.multiTarget == e.detection.legacy.multiTargetProbability
    && p.detectionId == w.status.id && p.sensorId == e.sensorId
  }

  /** The cloud and the array show the same detections, one for one, in frame order, under the same frame id. */
  lemma CloudMatchesArray(project: Projection, c: Config, frame: Frame)
    ensures var cloud, arr := CloudOf(project, c, frame), ArrayOf(project, c, frame);
            && cloud.frameId == arr.frameId == c.frameId && |cloud.points| == |arr.entries|
            && forall i :: 0 <= i < |cloud.points| ==>
                 SameReading(cloud.points[i], arr.entries[i]) && arr.entries[i].detection == Kept(c, Offered(frame))[i]
  {
  }

  // ----- What the filter decides -----

  /** Each detection by itself: what rejects it, for all bounds and readings, NaN and infinities included. */
  lemma RejectedExactly(c: Config, d: Detection)
    ensures var range, snr := Value(d.wire.position.range), Value(d.wire.information.snr);
            Kept(c, [d]) == if Less(range, c.minRange) || Less(c.maxRange, range) || Less(snr, c.minSnr)
                               || Less(Finite(d.wire.status.existence as real), c.minExistence) then [] else [d]
  {
    assert [d][..0] == [] && [] + [d] == [d];
  }

  /** Where bounds and readings are numbers, exactly the detections within all bounds, ends included, are kept. */
  lemma KeptExactly(c: Config, d: Detection, lo: real, hi: real, snr: real, existence: real, r: real, s: real)
    requires c.minRange == Finite(lo) && c.maxRange == Finite(hi)
    requires c.minSnr == Finite(snr) && c.minExistence == Finite(existence)
    requires Value(d.wire.position.range) == Finite(r) && Value(d.wire.information.snr) == Finite(s)
    ensures Kept(c, [d])
         == if lo <= r <= hi && snr <= s && existence <= d.wire.status.existence as real then [d] else []
  {
    RejectedExactly(c, d);
  }

  /** A range outside its bounds is enough to drop a detection, whatever the rest of it or of the bounds. */
  lemma RangeOutside(c: Config, d: Detection, lo: real, hi: real, r: real)
    requires c.minRange == Finite(lo) && c.maxRange == Finite(hi) && Value(d.wire.position.range) == Finite(r)
    requires !(lo <= r <= hi)
    ensures Kept(c, [d]) == []
  {
    RejectedExactly(c, d);
  }

  /** And so is a signal-to-noise ratio below its bound. */
  lemma SnrBelow(c: Config, d: Detection, snr: real, s: real)
    requires c.minSnr == Finite(snr) && Value(d.wire.information.snr) == Finite(s) && s < snr
    ensures Kept(c, [d]) == []
  {
    RejectedExactly(c, d);
  }

  /** And an existence probability below its bound. */
  lemma ExistenceBelow(c: Config, d: Detection, existence: real)
    requires c.minExistence == Finite(existence) && d.wire.status.existence as real < existence
    ensures Kept(c, [d]) == []
  {
    RejectedExactly(c, d);
  }

  ghost predicate Increasing(idx: seq<nat>) {
    forall j, k :: 0 <= j < k < |idx| ==> idx[j] < idx[k]
  }

  // The kept of a list are those of its elements that pass, in order.
  ghost predicate Selects(idx: seq<nat>, c: Config, ds: seq<Detection>, ks: seq<Detection>) {
    && Increasing(idx) && |idx| == |ks|
    && (forall j :: 0 <= j < |idx| ==> idx[j] < |ds| && ks[j] == ds[idx[j]])
    && (forall i :: 0 <= i < |ds| ==> (i in idx <==> Passes(c, ds[i])))
  }

  lemma SelectsMore(idx: seq<nat>, c: Config, rest: seq<Detection>, last: Detection, ks: seq<Detection>)
    requires Selects(idx, c, rest, ks)
    ensures Passes(c, last) ==> Selects(idx + [|rest|], c, rest + [last], ks + [last])
    ensures !Passes(c, last) ==> Selects(idx, c, rest + [last], ks)
  {
    var ds := rest + [last];
    assert forall i :: 0 <= i < |rest| ==> ds[i] == rest[i];
    assert forall i :: i in idx ==> i < |rest|;
  }

  lemma {:induction false} KeptSelects(c: Config, ds: seq<Detection>) returns (idx: seq<nat>)
    ensures Selects(idx, c, ds, Kept(c, ds))
    decreases |ds|
  {
    if ds == [] {
      idx := [];
    } else {
      var rest, last := ds[..|ds| - 1], ds[|ds| - 1];
      idx := KeptSelects(c, rest);
      SelectsMore(idx, c, rest, last, Kept(c, rest));
      assert ds == rest + [last];
      if Passes(c, last) { idx := idx + [|rest|]; }
    }
  }

  // The filter's choice among the detections that both the count and the storage offer.
  ghost predicate ChosenOf(idx: seq<nat>, c: Config, frame: Frame) {
    && Increasing(idx)
    && (forall j :: 0 <= j < |idx| ==> idx[j] < frame.message.numDetections && idx[j] < |frame.detections|)
    && (forall i: nat :: i < frame.message.numDetections && i < |frame.detections| ==>
          (i in idx <==> Kept(c, [frame.detections[i]]) == [frame.detections[i]]))
  }

  /**
   * Both outputs, element by element: of the detections that count and storage offer, those the filter
   * keeps by themselves, in frame order, each with its place, the sensor's id and the frame's header.
   */
  lemma OutputsExactly(project: Projection, c: Config, frame: Frame) returns (idx: seq<nat>)
    ensures ChosenOf(idx, c, frame)
    ensures CloudOf(project, c, frame).frameId == ArrayOf(project, c, frame).frameId == c.frameId
    ensures ArrayOf(project, c, frame).message == frame.message
    ensures |CloudOf(project, c, frame).points| == |ArrayOf(project, c, frame).entries| == |idx|
    ensures forall j :: 0 <= j < |idx| ==>
              var d, e := frame.detections[idx[j]], ArrayOf(project, c, frame).entries[j];
              && e.detection == d && e.sensorId == frame.message.common.sensorId
              && e.place == project(d.wire.position.range, d.wire.position.azimuth, d.wire.position.elevation)
              && SameReading(CloudOf(project, c, frame).points[j], e)
  {
    var ds := Offered(frame);
    idx := KeptSelects(c, ds);
    forall i: nat | i < |ds| ensures i in idx <==> Kept(c, [frame.detections[i]]) == [frame.detections[i]] {
      RejectedExactly(c, frame.detections[i]);
      assert ds[i] == frame.detections[i];
    }
    forall j | 0 <= j < |idx| ensures ArrayOf(project, c, frame).entries[j].detection == frame.detections[idx[j]] {
      assert ds[idx[j]] == frame.detections[idx[j]];
    }
    CloudMatchesArray(project, c, frame);
  }

  /** Where each member of a point comes from. */
  lemma PointMembers(project: Projection, sensorId: Byte, d: Detection)
    ensures var p, w := PointOf(project, sensorId, d), d.wire;
            && p.place == project(w.position.range, w.position.azimuth, w.position.elevation)
            && p.radialDistance == w.position.range && p.radialDistanceError == w.position.rangeError
            && p.azimuth == w.position.azimuth && p.azimuthError == w.position.azimuthError
            && p.elevation == w.position.elevation && p.elevationError == w.position.elevationError
            && p.radialVelocity == w.dynamics.velocity && p.radialVelocityError == w.dynamics.velocityError
            && p.rcs == p.intensity == w.information.rcs && p.snr == w.information.snr
            && p.existence == w.status.existence && p.multiTarget == d.legacy.multiTargetProbability
            && p.detectionId == w.status.id && p.sensorId == sensorId
  {
  }

  predicate Subsequence(a: seq<Detection>, b: seq<Detection>)
    decreases |b|
  {
    a == [] ||
    (b != [] &&
     ((a[|a| - 1] == b[|b| - 1] && Subsequence(a[..|a| - 1], b[..|b| - 1])) || Subsequence(a, b[..|b| - 1])))
  }

  ghost predicate AllPass(c: Config, ds: seq<Detection>) {
    forall i :: 0 <= i < |ds| ==> Passes(c, ds[i])
  }

  /** The kept detections are a subsequence of the frame, and all of them pass. */
  lemma {:induction false} KeptIsFiltered(c: Config, ds: seq<Detection>)
    ensures Subsequence(Kept(c, ds), ds) && AllPass(c, Kept(c, ds))
    decreases |ds|
  {
    if ds != [] {
      var rest := ds[..|ds| - 1];
      KeptIsFiltered(c, rest);
      if Passes(c, ds[|ds| - 1]) {
        assert Kept(c, ds)[..|Kept(c, ds)| - 1] == Kept(c, rest);
      }
    }
  }

  /** And none is missing: every passing subsequence of the frame is a subsequence of them. */
  lemma {:induction false} KeptIsLargest(c: Config, a: seq<Detection>, ds: seq<Detection>)
    requires Subsequence(a, ds) && AllPass(c, a)
    ensures Subsequence(a, Kept(c, ds))
    decreases |ds|
  {
    if a != [] {
      var rest := ds[..|ds| - 1];
      if a[|a| - 1] == ds[|ds| - 1] && Subsequence(a[..|a| - 1], rest) {
        KeptIsLargest(c, a[..|a| - 1], rest);
        assert Passes(c, ds[|ds| - 1]);
        assert Kept(c, ds)[..|Kept(c, ds)| - 1] == Kept(c, rest);
      } else {
        KeptIsLargest(c, a, rest);
        if Passes(c, ds[|ds| - 1]) {
          assert Kept(c, ds)[..|Kept(c, ds)| - 1] == Kept(c, rest);
        }
      }
    }
  }

  // Each bound of `d` is at least as strict as that of `c`; a NaN bound filters nothing.
  predicate Tightens(d: Config, c: Config) {
    && (c.minRange.NaN? || AtMost(c.minRange, d.minRange))
    && (c.maxRange.NaN? || AtMost(d.maxRange, c.maxRange))
    && (c.minSnr.NaN? || AtMost(c.minSnr, d.minSnr))
    && (c.minExistence.NaN? || AtMost(c.minExistence, d.minExistence))
  }

  lemma TighterRejectsMore(d: Config, c: Config, x: Detection)
    requires Tightens(d, c) && Passes(d, x)
    ensures Passes(c, x)
  {
    var range, snr := Value(x.wire.position.range), Value(x.wire.information.snr);
    var ep := Finite(x.wire.status.existence as real);
    if Less(range, c.minRange) { LessThenAtMost(range, c.minRange, d.minRange); }
    if Less(c.maxRange, range) { assert Less(d.maxRange, range); }
    if Less(snr, c.minSnr) { LessThenAtMost(snr, c.minSnr, d.minSnr); }
    if Less(ep, c.minExistence) { LessThenAtMost(ep, c.minExistence, d.minExistence); }
  }

  /** Tightening filter bounds only ever drops detections from the output. */
  lemma {:induction false} TighteningGivesSubsequence(d: Config, c: Config, ds: seq<Detection>)
    requires Tightens(d, c)
    ensures Subsequence(Kept(d, ds), Kept(c, ds))
  {
    KeptIsFiltered(d, ds);
    forall i | 0 <= i < |Kept(d, ds)| ensures Passes(c, Kept(d, ds)[i]) {
      TighterRejectsMore(d, c, Kept(d, ds)[i]);
    }
    KeptIsLargest(c, Kept(d, ds), ds);
  }

  /** NaN never rejects: with range and SNR both NaN only the existence bound counts. */
  lemma NaNNeverRejects(c: Config, x: Detection)
    requires Value(x.wire.position.range).NaN? && Value(x.wire.information.snr).NaN?
    ensures Passes(c, x) <==> !Less(Finite(x.wire.status.existence as real), c.minExistence)
  {
  }
}
