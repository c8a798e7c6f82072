/** The marker registry of the tracker: one record per detector ID, its latest pose,
    and the per-sample histories filled while a recording is active. */
module Markers {
  import opened Geometry

  /** Corners the detector reports per marker. */
  const CORNERS: nat := 4
  /** A marker not seen for more than this many seconds is dropped when a recording starts. */
  const STALE_SECONDS: real := 2.0

  /** One detection of one frame: the detector's ID, the marker centre and its ordered corners. */
  datatype Detection = Detection(id: int, center: Point, corners: seq<Point>)

  /** A marker record. `time`, `center` and the four `corner[k]` are parallel histories,
      one entry per recorded sample; the `last*` fields hold the latest pose. */
  datatype Marker = Marker(
    id: int,
    time: seq<real>,
    center: seq<Point>,
    corner: seq<seq<Point>>,
    lastCenter: Point,
    lastCorner: seq<Point>,
    lastTime: real)

  predicate WellFormed(m: Marker) {
    && |m.corner| == CORNERS
    && |m.lastCorner| == CORNERS
    && |m.center| == |m.time|
    && forall k :: 0 <= k < CORNERS ==> |m.corner[k]| == |m.time|
  }

  predicate AllWellFormed(ms: seq<Marker>) {
    forall i :: 0 <= i < |ms| ==> WellFormed(ms[i])
  }

  predicate ValidDetection(d: Detection) {
    |d.corners| == CORNERS
  }

  predicate AllValid(ds: seq<Detection>) {
    forall q :: 0 <= q < |ds| ==> ValidDetection(ds[q])
  }

  predicate UniqueIds(ms: seq<Marker>) {
    forall i, j :: 0 <= i < j < |ms| ==> ms[i].id != ms[j].id
  }

  predicate HasId(ms: seq<Marker>, id: int) {
    exists i :: 0 <= i < |ms| && ms[i].id == id
  }

  predicate Detected(ds: seq<Detection>, id: int) {
    exists q :: 0 <= q < |ds| && ds[q].id == id
  }

  /** A default-constructed record; every pose field is overwritten before it is read. */
  function NewMarker(id: int): Marker {
    Marker(id, [], [], [[], [], [], []], Origin, [Origin, Origin, Origin, Origin], 0.0)
  }

  function AppendCorners(h: seq<seq<Point>>, ps: seq<Point>): seq<seq<Point>>
    requires |h| == CORNERS && |ps| == CORNERS
  {
    seq(CORNERS, k requires 0 <= k < CORNERS => h[k] + [ps[k]])
  }

  /** One detection applied to its record: the pose is overwritten, and while recording
      the sample is appended to every history. */
  function Observe(m: Marker, d: Detection, now: real, record: bool): (r: Marker)
    requires WellFormed(m) && ValidDetection(d)
    ensures WellFormed(r) && r.id == d.id
    ensures |r.time| == |m.time| + (if record then 1 else 0)
    ensures r.lastTime == now && r.lastCenter == d.center && r.lastCorner == d.corners
    ensures record ==> && r.time == m.time + [now] && r.center == m.center + [d.center]
                       && forall k :: 0 <= k < CORNERS ==> r.corner[k] == m.corner[k] + [d.corners[k]]
    ensures !record ==> r.time == m.time && r.center == m.center && r.corner == m.corner
  {
    var posed := m.(id := d.id, lastTime := now, lastCenter := d.center, lastCorner := d.corners);
    if record then
      posed.(time := m.time + [now], center := m.center + [d.center], corner := AppendCorners(m.corner, d.corners))
    else
      posed
  }

  /** Position of the first record with the given ID, or -1: the linear scan of the frame update. */
  function IndexOf(ms: seq<Marker>, id: int): (j: int)
    ensures -1 <= j < |ms|
    ensures 0 <= j ==> ms[j].id == id && forall k :: 0 <= k < j ==> ms[k].id != id
    ensures j == -1 <==> !HasId(ms, id)
  {
    if ms == [] then -1
    else if ms[0].id == id then 0
    else
      var j := IndexOf(ms[1..], id);
      if j == -1 then -1 else j + 1
  }

  /** One detection applied to the registry: update the matching record in place, or append a new one. */
  function Upsert(ms: seq<Marker>, d: Detection, now: real, record: bool): (r: seq<Marker>)
    requires AllWellFormed(ms) && ValidDetection(d)
    ensures AllWellFormed(r)
  {
    var j := IndexOf(ms, d.id);
    if j == -1 then ms + [Observe(NewMarker(d.id), d, now, record)]
    else ms[j := Observe(ms[j], d, now, record)]
  }

  /** The registry after one frame's detections, applied in detection order. */
  function ApplyFrame(ms: seq<Marker>, ds: seq<Detection>, now: real, record: bool): (r: seq<Marker>)
    requires AllWellFormed(ms) && AllValid(ds)
    ensures AllWellFormed(r)
    decreases |ds|
  {
    if ds == [] then ms
    else Upsert(ApplyFrame(ms, ds[..|ds| - 1], now, record), ds[|ds| - 1], now, record)
  }

  /** One more detection of the frame update keeps IDs unique and extends the frame by that detection. */
  lemma UpsertStep(ms: seq<Marker>, ds: seq<Detection>, i: int, now: real, record: bool)
    requires AllWellFormed(ms) && UniqueIds(ms) && AllValid(ds) && 0 <= i < |ds|
    ensures ApplyFrame(ms, ds[..i + 1], now, record) == Upsert(ApplyFrame(ms, ds[..i], now, record), ds[i], now, record)
    ensures UniqueIds(ApplyFrame(ms, ds[..i + 1], now, record))
  {
    assert ds[..i + 1][..i] == ds[..i];
    ApplyFrameRegistry(ms, ds[..i + 1], now, record);
  }

  /* ---------- reference views of one frame, per ID ---------- */

  /** The detections of a frame that carry the given ID, in detection order. */
  function Matching(ds: seq<Detection>, id: int): (r: seq<Detection>)
    ensures forall q :: 0 <= q < |r| ==> r[q].id == id
    ensures AllValid(ds) ==> AllValid(r)
    ensures r == [] <==> !Detected(ds, id)
    decreases |ds|
  {
    if ds == [] then []
    else
      var last := ds[|ds| - 1];
      Matching(ds[..|ds| - 1], id) + (if last.id == id then [last] else [])
  }

  /** Several detections applied to one record, in order. */
  function ObserveAll(m: Marker, ds: seq<Detection>, now: real, record: bool): (r: Marker)
    requires WellFormed(m) && AllValid(ds)
    ensures WellFormed(r)
    ensures (forall q :: 0 <= q < |ds| ==> ds[q].id == m.id) ==> r.id == m.id
    decreases |ds|
  {
    if ds == [] then m
    else Observe(ObserveAll(m, ds[..|ds| - 1], now, record), ds[|ds| - 1], now, record)
  }

  /** The IDs a frame adds to the registry: detected, not yet registered, in order of first detection. */
  function NewIds(ms: seq<Marker>, ds: seq<Detection>): (r: seq<int>)
    decreases |ds|
  {
    if ds == [] then []
    else
      var prior := NewIds(ms, ds[..|ds| - 1]);
      var id := ds[|ds| - 1].id;
      if HasId(ms, id) || id in prior then prior else prior + [id]
  }

  /** Position of the last detection with the given ID, or -1. */
  function LastIndexOf(ds: seq<Detection>, id: int): (q: int)
    ensures -1 <= q < |ds|
    ensures 0 <= q ==> ds[q].id == id && forall p :: q < p < |ds| ==> ds[p].id != id
    ensures q == -1 <==> !Detected(ds, id)
    decreases |ds|
  {
    if ds == [] then -1
    else if ds[|ds| - 1].id == id then |ds| - 1
    else LastIndexOf(ds[..|ds| - 1], id)
  }

  function Repeat(t: real, n: nat): (r: seq<real>) {
    seq(n, _ => t)
  }

  function Centers(ds: seq<Detection>): seq<Point> {
    seq(|ds|, q requires 0 <= q < |ds| => ds[q].center)
  }

  function CornersAt(ds: seq<Detection>, k: nat): seq<Point>
    requires AllValid(ds) && k < CORNERS
  {
    seq(|ds|, q requires 0 <= q < |ds| => ds[q].corners[k])
  }

  /* ---------- lemmas about one frame ---------- */

  lemma ObserveAllSnoc(m: Marker, ds: seq<Detection>, d: Detection, now: real, record: bool)
    requires WellFormed(m) && AllValid(ds) && ValidDetection(d)
    ensures ObserveAll(m, ds + [d], now, record) == Observe(ObserveAll(m, ds, now, record), d, now, record)
  {
  }

  lemma MatchingSnoc(ds0: seq<Detection>, d: Detection, id: int)
    ensures d.id != id ==> Matching(ds0 + [d], id) == Matching(ds0, id)
    ensures d.id == id ==> Matching(ds0 + [d], id) == Matching(ds0, id) + [d]
  {
  }

  /** The record each position of the registry starts the frame from: the old records, then a
      fresh record per new ID. */
  function Origins(ms: seq<Marker>, added: seq<int>): (b: seq<Marker>)
    ensures |b| == |ms| + |added|
    ensures forall i :: 0 <= i < |ms| ==> b[i] == ms[i]
    ensures forall k :: 0 <= k < |added| ==> b[|ms| + k] == NewMarker(added[k])
    ensures AllWellFormed(ms) ==> AllWellFormed(b)
  {
    ms + seq(|added|, k requires 0 <= k < |added| => NewMarker(added[k]))
  }

  /** Each position of `r` holds the record at the same position of `base` having absorbed exactly
      the detections of `ds` with its ID. */
  ghost predicate Absorbed(base: seq<Marker>, ds: seq<Detection>, r: seq<Marker>, now: real, record: bool)
    requires AllWellFormed(base) && AllValid(ds)
  {
    && SameIds(base, r)
    && forall i :: 0 <= i < |r| ==> r[i] == ObserveAll(base[i], Matching(ds, base[i].id), now, record)
  }

  predicate SameIds(base: seq<Marker>, r: seq<Marker>) {
    |r| == |base| && forall i :: 0 <= i < |r| ==> r[i].id == base[i].id
  }

  predicate Registered(ds: seq<Detection>, r: seq<Marker>) {
    forall q :: 0 <= q < |ds| ==> HasId(r, ds[q].id)
  }

  /** The registry `r` after the detections `ds`, described record by record: each position holds its
      origin having absorbed exactly the detections with its ID; IDs are unique and every detected ID
      is registered. */
  ghost predicate Shape(ms: seq<Marker>, ds: seq<Detection>, r: seq<Marker>, now: real, record: bool)
    requires AllWellFormed(ms) && AllValid(ds)
  {
    && Absorbed(Origins(ms, NewIds(ms, ds)), ds, r, now, record)
    && UniqueIds(r)
    && Registered(ds, r)
  }

  lemma AbsorbNew(base: seq<Marker>, ds0: seq<Detection>, d: Detection, r0: seq<Marker>, now: real, record: bool)
    requires AllWellFormed(base) && AllValid(ds0) && ValidDetection(d)
    requires Absorbed(base, ds0, r0, now, record)
    requires !HasId(r0, d.id) && !Detected(ds0, d.id)
    ensures Absorbed(base + [NewMarker(d.id)], ds0 + [d], r0 + [Observe(NewMarker(d.id), d, now, record)], now, record)
  {
    var ds := ds0 + [d];
    var base' := base + [NewMarker(d.id)];
    var r := r0 + [Observe(NewMarker(d.id), d, now, record)];
    forall i | 0 <= i < |r|
      ensures r[i].id == base'[i].id && r[i] == ObserveAll(base'[i], Matching(ds, base'[i].id), now, record)
    {
      if i < |r0| {
        assert r[i] == r0[i] && base'[i] == base[i];
        assert base[i].id != d.id;
        MatchingSnoc(ds0, d, base[i].id);
      } else {
        MatchingSnoc(ds0, d, d.id);
        assert Matching(ds, d.id) == [d];
        assert [] + [d] == [d];
        ObserveAllSnoc(NewMarker(d.id), [], d, now, record);
      }
    }
  }

  lemma AbsorbExisting(base: seq<Marker>, ds0: seq<Detection>, d: Detection, r0: seq<Marker>, j: int, now: real, record: bool)
    requires AllWellFormed(base) && AllValid(ds0) && ValidDetection(d) && AllWellFormed(r0)
    requires Absorbed(base, ds0, r0, now, record) && UniqueIds(r0)
    requires 0 <= j < |r0| && r0[j].id == d.id
    ensures Absorbed(base, ds0 + [d], r0[j := Observe(r0[j], d, now, record)], now, record)
  {
    var ds := ds0 + [d];
    var r := r0[j := Observe(r0[j], d, now, record)];
    forall i | 0 <= i < |r|
      ensures r[i].id == base[i].id && r[i] == ObserveAll(base[i], Matching(ds, base[i].id), now, record)
    {
      assert r0[i].id == base[i].id;
      MatchingSnoc(ds0, d, base[i].id);
      if i == j {
        assert base[i].id == d.id;
        ObserveAllSnoc(base[i], Matching(ds0, d.id), d, now, record);
      } else {
        assert r[i] == r0[i] && r0[i].id != r0[j].id;
      }
    }
  }

  lemma RegisterNew(ds0: seq<Detection>, d: Detection, r0: seq<Marker>, m: Marker)
    requires Registered(ds0, r0) && m.id == d.id
    ensures Registered(ds0 + [d], r0 + [m])
  {
    var ds, r := ds0 + [d], r0 + [m];
    forall q | 0 <= q < |ds| ensures HasId(r, ds[q].id) {
      if q < |ds0| {
        assert ds[q] == ds0[q];
        var i :| 0 <= i < |r0| && r0[i].id == ds0[q].id;
        assert r[i] == r0[i];
      } else {
        assert r[|r0|] == m;
      }
    }
  }

  lemma RegisterUpdate(ds0: seq<Detection>, d: Detection, r0: seq<Marker>, j: int, m: Marker)
    requires Registered(ds0, r0) && 0 <= j < |r0| && r0[j].id == d.id && m.id == d.id
    ensures Registered(ds0 + [d], r0[j := m])
  {
    var ds, r := ds0 + [d], r0[j := m];
    forall q | 0 <= q < |ds| ensures HasId(r, ds[q].id) {
      if q < |ds0| {
        assert ds[q] == ds0[q];
        var i :| 0 <= i < |r0| && r0[i].id == ds0[q].id;
        assert r[i].id == r0[i].id;
      } else {
        assert r[j] == m;
      }
    }
  }

  /** A registered record's ID is an old record's or one added earlier in the frame. */
  lemma RegisteredId(ms: seq<Marker>, ds0: seq<Detection>, r0: seq<Marker>, j: int)
    requires SameIds(Origins(ms, NewIds(ms, ds0)), r0) && 0 <= j < |r0|
    ensures HasId(ms, r0[j].id) || r0[j].id in NewIds(ms, ds0)
  {
  }

  lemma UniqueSnoc(ms: seq<Marker>, m: Marker)
    requires UniqueIds(ms) && !HasId(ms, m.id)
    ensures UniqueIds(ms + [m])
  {
  }

  lemma NewIdsSnoc(ms: seq<Marker>, ds0: seq<Detection>, d: Detection)
    ensures NewIds(ms, ds0 + [d]) ==
      if HasId(ms, d.id) || d.id in NewIds(ms, ds0) then NewIds(ms, ds0) else NewIds(ms, ds0) + [d.id]
  {
  }

  /** A detection the registry lacks adds one fresh origin at the end. */
  lemma NewStepOrigins(ms: seq<Marker>, ds0: seq<Detection>, d: Detection, r0: seq<Marker>)
    requires SameIds(Origins(ms, NewIds(ms, ds0)), r0) && Registered(ds0, r0) && !HasId(r0, d.id)
    ensures Origins(ms, NewIds(ms, ds0 + [d])) == Origins(ms, NewIds(ms, ds0)) + [NewMarker(d.id)]
    ensures !Detected(ds0, d.id)
  {
  }

  /** Appending the record of an unregistered ID keeps the three parts of the frame's shape. */
  lemma StepNew(base: seq<Marker>, ds0: seq<Detection>, d: Detection, r0: seq<Marker>, now: real, record: bool)
    requires AllWellFormed(base) && AllValid(ds0) && ValidDetection(d)
    requires Absorbed(base, ds0, r0, now, record) && UniqueIds(r0) && Registered(ds0, r0)
    requires !HasId(r0, d.id) && !Detected(ds0, d.id)
    ensures var r := r0 + [Observe(NewMarker(d.id), d, now, record)];
      && Absorbed(base + [NewMarker(d.id)], ds0 + [d], r, now, record)
      && UniqueIds(r)
      && Registered(ds0 + [d], r)
  {
    var created := Observe(NewMarker(d.id), d, now, record);
    AbsorbNew(base, ds0, d, r0, now, record);
    UniqueSnoc(r0, created);
    RegisterNew(ds0, d, r0, created);
  }

  lemma ShapeStepNew(ms: seq<Marker>, ds0: seq<Detection>, d: Detection, r0: seq<Marker>, now: real, record: bool)
    requires AllWellFormed(ms) && AllValid(ds0) && ValidDetection(d) && AllWellFormed(r0)
    requires Shape(ms, ds0, r0, now, record)
    requires IndexOf(r0, d.id) == -1
    ensures Shape(ms, ds0 + [d], Upsert(r0, d, now, record), now, record)
  {
    NewStepOrigins(ms, ds0, d, r0);
    StepNew(Origins(ms, NewIds(ms, ds0)), ds0, d, r0, now, record);
  }

  lemma ShapeStepExisting(ms: seq<Marker>, ds0: seq<Detection>, d: Detection, r0: seq<Marker>, now: real, record: bool)
    requires AllWellFormed(ms) && AllValid(ds0) && ValidDetection(d) && AllWellFormed(r0)
    requires Shape(ms, ds0, r0, now, record)
    requires IndexOf(r0, d.id) != -1
    ensures Shape(ms, ds0 + [d], Upsert(r0, d, now, record), now, record)
  {
    var a0 := NewIds(ms, ds0);
    var base := Origins(ms, a0);
    var j := IndexOf(r0, d.id);
    NewIdsSnoc(ms, ds0, d);
    RegisteredId(ms, ds0, r0, j);
    var r := Upsert(r0, d, now, record);
    assert r == r0[j := Observe(r0[j], d, now, record)];
    AbsorbExisting(base, ds0, d, r0, j, now, record);
    RegisterUpdate(ds0, d, r0, j, Observe(r0[j], d, now, record));
  }

  lemma {:induction false} ApplyFrameShape(ms: seq<Marker>, ds: seq<Detection>, now: real, record: bool)
    requires AllWellFormed(ms) && UniqueIds(ms) && AllValid(ds)
    ensures Shape(ms, ds, ApplyFrame(ms, ds, now, record), now, record)
    decreases |ds|
  {
    if ds == [] {
      assert Origins(ms, []) == ms;
      return;
    }
    var ds0, d := ds[..|ds| - 1], ds[|ds| - 1];
    assert ds0 + [d] == ds;
    ApplyFrameShape(ms, ds0, now, record);
    var r0 := ApplyFrame(ms, ds0, now, record);
    if IndexOf(r0, d.id) == -1 {
      ShapeStepNew(ms, ds0, d, r0, now, record);
    } else {
      ShapeStepExisting(ms, ds0, d, r0, now, record);
    }
  }

  /* ---------- what one frame does to the registry ---------- */

  lemma {:induction false} NewIdsAreNew(ms: seq<Marker>, ds: seq<Detection>)
    ensures forall k :: 0 <= k < |NewIds(ms, ds)| ==> !HasId(ms, NewIds(ms, ds)[k]) && Detected(ds, NewIds(ms, ds)[k])
    decreases |ds|
  {
    if ds != [] {
      var ds0 := ds[..|ds| - 1];
      NewIdsAreNew(ms, ds0);
      forall q | 0 <= q < |ds0| ensures ds[q] == ds0[q] { }
    }
  }

  lemma {:induction false} MatchingLast(ds: seq<Detection>, id: int)
    requires Detected(ds, id)
    ensures var m := Matching(ds, id); |m| > 0 && m[|m| - 1] == ds[LastIndexOf(ds, id)]
    decreases |ds|
  {
    var n := |ds|;
    var ds0 := ds[..n - 1];
    if ds[n - 1].id != id {
      assert Detected(ds0, id) by {
        var q :| 0 <= q < n && ds[q].id == id;
        assert q < n - 1 && ds0[q] == ds[q];
      }
      MatchingLast(ds0, id);
    }
  }

  lemma {:induction false} ObserveAllHistory(m: Marker, ds: seq<Detection>, now: real, record: bool)
    requires WellFormed(m) && AllValid(ds)
    ensures var r := ObserveAll(m, ds, now, record);
      if record then
        && r.time == m.time + Repeat(now, |ds|)
        && r.center == m.center + Centers(ds)
        && forall k :: 0 <= k < CORNERS ==> r.corner[k] == m.corner[k] + CornersAt(ds, k)
      else
        r.time == m.time && r.center == m.center && r.corner == m.corner
    decreases |ds|
  {
    if ds != [] {
      var n := |ds|;
      var ds0, d := ds[..n - 1], ds[n - 1];
      ObserveAllHistory(m, ds0, now, record);
      if record {
        var r0 := ObserveAll(m, ds0, now, record);
        assert Repeat(now, n) == Repeat(now, n - 1) + [now];
        assert Centers(ds) == Centers(ds0) + [d.center];
        assert m.time + Repeat(now, n) == (m.time + Repeat(now, n - 1)) + [now];
        assert m.center + Centers(ds) == (m.center + Centers(ds0)) + [d.center];
        forall k | 0 <= k < CORNERS
          ensures ObserveAll(m, ds, now, record).corner[k] == m.corner[k] + CornersAt(ds, k)
        {
          assert CornersAt(ds, k) == CornersAt(ds0, k) + [d.corners[k]];
          assert m.corner[k] + CornersAt(ds, k) == (m.corner[k] + CornersAt(ds0, k)) + [d.corners[k]];
        }
      }
    }
  }

  /** Registry bookkeeping of one frame: IDs stay unique, every detected ID is registered, existing
      records keep their positions, and the records appended at the end carry exactly the new IDs. */
  lemma ApplyFrameRegistry(ms: seq<Marker>, ds: seq<Detection>, now: real, record: bool)
    requires AllWellFormed(ms) && UniqueIds(ms) && AllValid(ds)
    ensures var r := ApplyFrame(ms, ds, now, record);
      && UniqueIds(r)
      && (forall q :: 0 <= q < |ds| ==> HasId(r, ds[q].id))
      && |ms| <= |r|
      && (forall i :: 0 <= i < |ms| ==> r[i].id == ms[i].id)
      && (forall i :: |ms| <= i < |r| ==> !HasId(ms, r[i].id) && Detected(ds, r[i].id))
  {
    ApplyFrameShape(ms, ds, now, record);
    NewIdsAreNew(ms, ds);
    var r := ApplyFrame(ms, ds, now, record);
    var added := NewIds(ms, ds);
    var base := Origins(ms, added);
    forall i | |ms| <= i < |r| ensures !HasId(ms, r[i].id) && Detected(ds, r[i].id) {
      assert r[i].id == base[i].id == added[i - |ms|];
    }
  }

  /** Pose of one frame: a record whose ID was detected holds the frame time and the pose of the LAST
      detection with that ID; a record whose ID was not detected is an old record, unchanged. */
  lemma ApplyFramePose(ms: seq<Marker>, ds: seq<Detection>, now: real, record: bool)
    requires AllWellFormed(ms) && UniqueIds(ms) && AllValid(ds)
    ensures var r := ApplyFrame(ms, ds, now, record);
      forall i :: 0 <= i < |r| ==>
        var q := LastIndexOf(ds, r[i].id);
        && (0 <= q ==> r[i].lastTime == now && r[i].lastCenter == ds[q].center && r[i].lastCorner == ds[q].corners)
        && (q == -1 ==> i < |ms| && r[i] == ms[i])
  {
    ApplyFrameShape(ms, ds, now, record);
    NewIdsAreNew(ms, ds);
    var r := ApplyFrame(ms, ds, now, record);
    var added := NewIds(ms, ds);
    var base := Origins(ms, added);
    forall i | 0 <= i < |r|
      ensures var q := LastIndexOf(ds, r[i].id);
        && (0 <= q ==> r[i].lastTime == now && r[i].lastCenter == ds[q].center && r[i].lastCorner == ds[q].corners)
        && (q == -1 ==> i < |ms| && r[i] == ms[i])
    {
      ObservedPose(base[i], ds, r[i].id, now, record);
      if |ms| <= i {
        assert r[i].id == added[i - |ms|];
      }
    }
  }

  lemma ObservedPose(m: Marker, ds: seq<Detection>, id: int, now: real, record: bool)
    requires WellFormed(m) && AllValid(ds)
    ensures var r := ObserveAll(m, Matching(ds, id), now, record);
      var q := LastIndexOf(ds, id);
      && (0 <= q ==> r.lastTime == now && r.lastCenter == ds[q].center && r.lastCorner == ds[q].corners)
      && (q == -1 ==> r == m)
  {
    var ms := Matching(ds, id);
    if Detected(ds, id) {
      MatchingLast(ds, id);
      assert ms[..|ms| - 1] + [ms[|ms| - 1]] == ms;
      ObserveAllSnoc(m, ms[..|ms| - 1], ms[|ms| - 1], now, record);
    }
  }

  /** Histories of one frame: while recording, each record's `time`, `center` and `corner[k]` grow by
      exactly one entry per detection with its ID, in detection order; otherwise histories are untouched.
      Records appended this frame start from empty histories. */
  lemma ApplyFrameHistory(ms: seq<Marker>, ds: seq<Detection>, now: real, record: bool)
    requires AllWellFormed(ms) && UniqueIds(ms) && AllValid(ds)
    ensures var r := ApplyFrame(ms, ds, now, record);
      forall i :: 0 <= i < |r| ==>
        var m := Matching(ds, r[i].id);
        var old_time := if i < |ms| then ms[i].time else [];
        var old_center := if i < |ms| then ms[i].center else [];
        && r[i].time == (if record then old_time + Repeat(now, |m|) else old_time)
        && r[i].center == (if record then old_center + Centers(m) else old_center)
        && forall k :: 0 <= k < CORNERS ==>
             var old_corner := if i < |ms| then ms[i].corner[k] else [];
             r[i].corner[k] == (if record then old_corner + CornersAt(m, k) else old_corner)
  {
    ApplyFrameShape(ms, ds, now, record);
    var r := ApplyFrame(ms, ds, now, record);
    var added := NewIds(ms, ds);
    var base := Origins(ms, added);
    forall i | 0 <= i < |r|
      ensures var m := Matching(ds, r[i].id);
        var old_time := if i < |ms| then ms[i].time else [];
        var old_center := if i < |ms| then ms[i].center else [];
        && r[i].time == (if record then old_time + Repeat(now, |m|) else old_time)
        && r[i].center == (if record then old_center + Centers(m) else old_center)
        && forall k :: 0 <= k < CORNERS ==>
             var old_corner := if i < |ms| then ms[i].corner[k] else [];
             r[i].corner[k] == (if record then old_corner + CornersAt(m, k) else old_corner)
    {
      var m := Matching(ds, r[i].id);
      assert r[i] == ObserveAll(base[i], m, now, record);
      ObserveAllHistory(base[i], m, now, record);
      if |ms| <= i {
        assert base[i] == NewMarker(added[i - |ms|]);
      }
    }
  }

  /* ---------- starting a recording ---------- */

  /** A marker unseen for more than STALE_SECONDS at time `now`. */
  predicate Stale(m: Marker, now: real) {
    now > m.lastTime + STALE_SECONDS
  }

  function ClearHistory(m: Marker): Marker {
    m.(time := [], center := [], corner := [[], [], [], []])
  }

  /** The registry when a recording starts: stale markers dropped, survivors' histories emptied. */
  function Rearm(ms: seq<Marker>, now: real): seq<Marker>
  {
    if ms == [] then []
    else (if Stale(ms[0], now) then [] else [ClearHistory(ms[0])]) + Rearm(ms[1..], now)
  }

  /** One step of the backward scan that starts a recording: the marker at `i` is dropped or
      cleared in front of the markers already handled. */
  lemma RearmStep(ms: seq<Marker>, i: int, now: real)
    requires 0 <= i < |ms|
    ensures Rearm(ms[i..], now) == (if Stale(ms[i], now) then [] else [ClearHistory(ms[i])]) + Rearm(ms[i + 1..], now)
  {
  }

  /** Rearm works marker by marker: it distributes over concatenation, so survivors keep their order. */
  lemma {:induction false} RearmAppend(a: seq<Marker>, b: seq<Marker>, now: real)
    ensures Rearm(a + b, now) == Rearm(a, now) + Rearm(b, now)
    decreases |a|
  {
    if a == [] {
      assert a + b == b;
    } else {
      assert (a + b)[0] == a[0];
      assert (a + b)[1..] == a[1..] + b;
      RearmAppend(a[1..], b, now);
      var head := if Stale(a[0], now) then [] else [ClearHistory(a[0])];
      assert head + (Rearm(a[1..], now) + Rearm(b, now)) == (head + Rearm(a[1..], now)) + Rearm(b, now);
    }
  }

  /** Every survivor is an old marker with its histories emptied and its pose kept; none is stale. */
  lemma {:induction false} RearmCleared(ms: seq<Marker>, now: real)
    requires AllWellFormed(ms)
    ensures var r := Rearm(ms, now);
      && AllWellFormed(r)
      && (forall i :: 0 <= i < |r| ==> r[i].time == [] && r[i].center == [] && !Stale(r[i], now))
      && (forall i :: 0 <= i < |r| ==> exists j :: 0 <= j < |ms| && r[i] == ClearHistory(ms[j]))
    decreases |ms|
  {
    if ms != [] {
      var tail := ms[1..];
      RearmCleared(tail, now);
      var r, rt := Rearm(ms, now), Rearm(tail, now);
      var head := if Stale(ms[0], now) then [] else [ClearHistory(ms[0])];
      assert r == head + rt;
      forall i | 0 <= i < |r| ensures exists j :: 0 <= j < |ms| && r[i] == ClearHistory(ms[j]) {
        if i < |head| {
          assert r[i] == ClearHistory(ms[0]);
        } else {
          assert r[i] == rt[i - |head|];
          var j :| 0 <= j < |tail| && rt[i - |head|] == ClearHistory(tail[j]);
          assert tail[j] == ms[j + 1];
        }
      }
    }
  }

  /** A marker survives the start of a recording exactly when it is not stale. */
  lemma {:induction false} RearmKeeps(ms: seq<Marker>, now: real)
    requires AllWellFormed(ms)
    ensures forall j :: 0 <= j < |ms| ==> (ClearHistory(ms[j]) in Rearm(ms, now) <==> !Stale(ms[j], now))
    decreases |ms|
  {
    if ms != [] {
      var tail := ms[1..];
      RearmKeeps(tail, now);
      RearmCleared(ms, now);
      var r, rt := Rearm(ms, now), Rearm(tail, now);
      var head := if Stale(ms[0], now) then [] else [ClearHistory(ms[0])];
      assert r == head + rt;
      forall j | 0 <= j < |ms| ensures ClearHistory(ms[j]) in r <==> !Stale(ms[j], now) {
        if j > 0 {
          assert ms[j] == tail[j - 1];
        }
        if ClearHistory(ms[j]) in r {
          var i :| 0 <= i < |r| && r[i] == ClearHistory(ms[j]);
          assert !Stale(r[i], now);
        }
      }
    }
  }

  /** Starting a recording keeps IDs unique and removes every stale marker's ID from the registry. */
  lemma {:induction false} RearmUnique(ms: seq<Marker>, now: real)
    requires AllWellFormed(ms) && UniqueIds(ms)
    ensures var r := Rearm(ms, now);
      && UniqueIds(r)
      && forall j :: 0 <= j < |ms| && Stale(ms[j], now) ==> !HasId(r, ms[j].id)
    decreases |ms|
  {
    RearmCleared(ms, now);
    if ms != [] {
      var tail := ms[1..];
      RearmUnique(tail, now);
      RearmCleared(tail, now);
      var r, rt := Rearm(ms, now), Rearm(tail, now);
      var head := if Stale(ms[0], now) then [] else [ClearHistory(ms[0])];
      assert r == head + rt;
      forall i | 0 <= i < |rt| ensures rt[i].id != ms[0].id {
        var j :| 0 <= j < |tail| && rt[i] == ClearHistory(tail[j]);
        assert tail[j] == ms[j + 1];
      }
      forall j | 0 <= j < |ms| && Stale(ms[j], now) ensures !HasId(r, ms[j].id) {
        forall i | 0 <= i < |r| ensures r[i].id != ms[j].id {
          var j' :| 0 <= j' < |ms| && r[i] == ClearHistory(ms[j']);
          assert !Stale(ms[j'], now);
        }
      }
    }
  }
}
