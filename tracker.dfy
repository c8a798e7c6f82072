/** The tracker application: the marker registry updated every frame, the recording session
    and its trim window, the export of the trimmed samples, and the grid corner handles. */
module Tracker {
  import opened Wrappers
  import opened Markers
  import opened Export
  import opened Grid

  /** What pressing and releasing Save produces. */
  datatype SaveResult =
    | NoMarkerData                      // the registry is empty: only a log line
    | Cancelled                         // the save dialog was dismissed
    | Saved(buffers: seq<seq<Row>>)     // one buffer of rows per marker, in registry order

  /** The outcome of an export over the registry `ms` with the absolute trim bounds `lo` and `hi`. */
  function SaveOutcome(ms: seq<Marker>, lo: real, hi: real, confirmed: bool): SaveResult
    requires AllWellFormed(ms)
  {
    if ms == [] then NoMarkerData
    else if !confirmed then Cancelled
    else Saved(Buffers(ms, lo, hi))
  }

  class App {
    var markers: seq<Marker>
    var record: bool
    /** Start and end of the last recording, in seconds since launch. */
    var recordBegin: real
    var recordEnd: real
    /** The trim window, in seconds relative to recordBegin. */
    var saveBegin: real
    var saveEnd: real
    const gridCorners: array<Pixel>
    var gridCornerGrabbed: int

    ghost predicate Valid()
      reads this
    {
      && AllWellFormed(markers)
      && UniqueIds(markers)
      && gridCorners.Length == CORNERS
      && 0 <= gridCornerGrabbed < CORNERS
      && (record ==> recordEnd == recordBegin)
    }

    /** Absolute bounds of the trim window. */
    function TrimBegin(): real
      reads this
    {
      saveBegin + recordBegin
    }

    function TrimEnd(): real
      reads this
    {
      saveEnd + recordBegin
    }

    /** The state after setup, before any settings or corner file is loaded. */
    constructor ()
      ensures Valid() && fresh(gridCorners)
      ensures markers == [] && !record
      ensures recordBegin == 0.0 && recordEnd == 1.0 && saveBegin == 0.0 && saveEnd == 1.0
      ensures gridCorners[..] == [Pixel(0, 0), Pixel(0, 0), Pixel(0, 0), Pixel(0, 0)]
      ensures gridCornerGrabbed == 0
    {
      markers := [];
      record := false;
      recordBegin := 0.0;
      recordEnd := 1.0;
      saveBegin := 0.0;
      saveEnd := 1.0;
      gridCorners := new Pixel[CORNERS](_ => Pixel(0, 0));
      gridCornerGrabbed := 0;
    }

    /** The linear scan of the frame update: the first record with the given ID, or -1. */
    method FindMarker(id: int) returns (j: int)
      ensures j == IndexOf(markers, id)
      ensures j == -1 <==> !HasId(markers, id)
    {
      j := 0;
      while j < |markers|
        invariant 0 <= j <= |markers|
        invariant forall k :: 0 <= k < j ==> markers[k].id != id
      {
        if markers[j].id == id {
          return;
        }
        j := j + 1;
      }
      j := -1;
    }

    /** One detection of a frame: the record with its ID, appended first when the ID is new, takes
        the detection's pose and, while recording, appends the sample to its histories. */
    method Register(d: Detection, now: real)
      requires AllWellFormed(markers) && ValidDetection(d)
      modifies this`markers
      ensures markers == Upsert(old(markers), d, now, record)
    {
      var j := FindMarker(d.id);
      if j == -1 {
        markers := markers + [NewMarker(d.id)];
        j := |markers| - 1;
      }
      var m := markers[j];
      m := m.(id := d.id, lastTime := now, lastCenter := d.center, lastCorner := d.corners);
      if record {
        m := m.(time := m.time + [now], center := m.center + [d.center], corner := AppendCorners(m.corner, d.corners));
      }
      assert m == Observe(markers[j], d, now, record);
      markers := markers[j := m];
    }

    /** One frame: every detection, in detector order, is registered. */
    method Update(ds: seq<Detection>, now: real)
      requires Valid() && AllValid(ds)
      modifies this`markers
      ensures Valid()
      ensures markers == ApplyFrame(old(markers), ds, now, record)
    {
      var i := 0;
      while i < |ds|
        invariant 0 <= i <= |ds|
        invariant AllWellFormed(markers) && UniqueIds(markers)
        invariant markers == ApplyFrame(old(markers), ds[..i], now, record)
      {
        Register(ds[i], now);
        UpsertStep(old(markers), ds, i, now, record);
        i := i + 1;
      }
      assert ds[..i] == ds;
    }

    /** The scan that starts a recording, from the last record to the first: a record unseen for
        more than STALE_SECONDS is erased, any other has its histories emptied. */
    method DropStale(now: real)
      modifies this`markers
      ensures markers == Rearm(old(markers), now)
    {
      var i := |markers|;
      while i > 0
        invariant 0 <= i <= |old(markers)|
        invariant markers == old(markers)[..i] + Rearm(old(markers)[i..], now)
      {
        i := i - 1;
        ghost var done := Rearm(old(markers)[i + 1..], now);
        RearmStep(old(markers), i, now);
        assert markers == old(markers)[..i] + [old(markers)[i]] + done by {
          assert old(markers)[..i + 1] == old(markers)[..i] + [old(markers)[i]];
        }
        if now > markers[i].lastTime + STALE_SECONDS {
          assert markers[..i] == old(markers)[..i] && markers[i + 1..] == done;
          markers := markers[..i] + markers[i + 1..];
        } else {
          markers := markers[i := ClearHistory(markers[i])];
          assert markers == old(markers)[..i] + [ClearHistory(old(markers)[i])] + done;
        }
      }
      assert old(markers)[..0] == [] && old(markers)[0..] == old(markers);
    }

    /** The Record toggle, after the toggle has flipped `record`. Turning it on drops every marker
        unseen for more than two seconds, empties the survivors' histories and starts the clock;
        turning it off stops the clock and opens the trim window over the whole recording. */
    method RecordToggled(now: real)
      requires Valid()
      modifies this`record, this`markers, this`recordBegin, this`recordEnd, this`saveBegin, this`saveEnd
      ensures Valid()
      ensures record == !old(record)
      ensures record ==> && markers == Rearm(old(markers), now)
                         && recordBegin == now && recordEnd == now
                         && saveBegin == old(saveBegin) && saveEnd == old(saveEnd)
      ensures !record ==> && markers == old(markers)
                          && recordBegin == old(recordBegin) && recordEnd == now
                          && saveBegin == 0.0 && saveEnd == recordEnd - recordBegin
    {
      record := !record;
      if record {
        RearmCleared(markers, now);
        RearmUnique(markers, now);
        DropStale(now);
        recordBegin := now;
        recordEnd := now;
      } else {
        recordEnd := now;
        saveBegin := 0.0;
        saveEnd := recordEnd - recordBegin;
      }
    }

    /** The trim range slider, after it has written `low` and `high` into the trim window. While
        recording the window is forced back to the whole (still empty) recording; otherwise the
        preview colours every recorded sample by whether the export would keep it. */
    method RecordLimitsChanged(low: real, high: real) returns (preview: Option<seq<seq<bool>>>)
      requires Valid()
      modifies this`saveBegin, this`saveEnd
      ensures Valid()
      ensures record ==> saveBegin == 0.0 && saveEnd == recordEnd - recordBegin == 0.0 && preview == None
      ensures !record ==> && saveBegin == low && saveEnd == high
                          && preview == Some(Preview(markers, low + recordBegin, high + recordBegin))
    {
      saveBegin, saveEnd := low, high;
      if record {
        saveBegin := 0.0;
        saveEnd := recordEnd - recordBegin;
        preview := None;
      } else {
        var colours := PreviewColours();
        preview := Some(colours);
      }
    }

    /** The colour of every recorded sample in the trim preview, marker by marker. */
    method PreviewColours() returns (c: seq<seq<bool>>)
      ensures c == Preview(markers, TrimBegin(), TrimEnd())
    {
      var timeBegin, timeEnd := TrimBegin(), TrimEnd();
      c := [];
      var i := 0;
      while i < |markers|
        invariant 0 <= i <= |markers|
        invariant |c| == i
        invariant forall q :: 0 <= q < i ==> c[q] == Preview(markers, timeBegin, timeEnd)[q]
      {
        var row: seq<bool> := [];
        var j := 0;
        while j < |markers[i].time|
          invariant 0 <= j <= |markers[i].time|
          invariant row == Preview(markers, timeBegin, timeEnd)[i][..j]
        {
          row := row + [markers[i].time[j] > timeBegin && markers[i].time[j] < timeEnd];
          j := j + 1;
        }
        c := c + [row];
        i := i + 1;
      }
    }

    /** The export: nothing but a log line for an empty registry; otherwise, once the dialog is
        confirmed, one buffer per marker holding the rows of its samples strictly inside the trim
        window, in history order, each timed from the start of the window. Every buffer is written
        to the one chosen file, so the file ends up holding the last marker's buffer only. */
    method Save(confirmed: bool) returns (result: SaveResult)
      requires Valid()
      ensures result == SaveOutcome(markers, TrimBegin(), TrimEnd(), confirmed)
      ensures result.Saved? ==> && |result.buffers| == |markers|
                                && forall i, p :: 0 <= i < |markers| && 0 <= p < |result.buffers[i]| ==>
                                     0.0 < result.buffers[i][p].t < saveEnd - saveBegin
      ensures result.Saved? ==> && result.buffers != []
                                && WriteAll(map[], SharedFileWrites(result.buffers))
                                     == map[ChosenFile := result.buffers[|result.buffers| - 1]]
    {
      if markers == [] {
        return NoMarkerData;
      }
      if !confirmed {
        return Cancelled;
      }
      var timeBegin, timeEnd := TrimBegin(), TrimEnd();
      var buffers: seq<seq<Row>> := [];
      var i := 0;
      while i < |markers|
        invariant 0 <= i <= |markers|
        invariant |buffers| == i
        invariant forall q :: 0 <= q < i ==> buffers[q] == MarkerRows(markers[q], timeBegin, timeEnd)
      {
        var m := markers[i];
        var buffer: seq<Row> := [];
        var j := 0;
        while j < |m.time|
          invariant 0 <= j <= |m.time|
          invariant buffer == Rows(m, j, timeBegin, timeEnd)
        {
          if m.time[j] > timeBegin && m.time[j] < timeEnd {
            var corners := [m.corner[0][j], m.corner[1][j], m.corner[2][j], m.corner[3][j]];
            assert corners == SampleRow(m, j, timeBegin).corners;
            buffer := buffer + [Row(m.time[j] - timeBegin, m.center[j], corners)];
          }
          j := j + 1;
        }
        buffers := buffers + [buffer];
        i := i + 1;
      }
      SharedFileKeepsLast(map[], buffers);
      result := Saved(buffers);
    }

    /** The Save button: a press or release first stops a running recording and opens the trim
        window over all of it; the export runs on release. */
    method SaveEvent(now: real, buttonDown: bool, confirmed: bool) returns (result: Option<SaveResult>)
      requires Valid()
      modifies this`record, this`recordEnd, this`saveBegin, this`saveEnd
      ensures Valid() && !record
      ensures old(record) ==> recordEnd == now && saveBegin == 0.0 && saveEnd == now - recordBegin
      ensures !old(record) ==> recordEnd == old(recordEnd) && saveBegin == old(saveBegin) && saveEnd == old(saveEnd)
      ensures buttonDown ==> result == None
      ensures !buttonDown ==> result == Some(SaveOutcome(markers, TrimBegin(), TrimEnd(), confirmed))
    {
      if record {
        recordEnd := now;
        saveBegin := 0.0;
        saveEnd := recordEnd - recordBegin;
        record := false;
      }
      result := None;
      if !buttonDown {
        var saved := Save(confirmed);
        result := Some(saved);
      }
    }

    /** A press with the grid corners open and outside the control panel grabs the corner nearest
        to the mouse and moves it there. */
    method MousePressed(x: int, y: int, gridOpen: bool, overGui: bool)
      requires Valid()
      modifies this`gridCornerGrabbed, gridCorners
      ensures Valid()
      ensures gridOpen && !overGui ==>
        && IsNearest(old(gridCorners[..]), Pixel(x, y), old(gridCornerGrabbed), gridCornerGrabbed)
        && gridCorners[..] == old(gridCorners[..])[gridCornerGrabbed := Pixel(x, y)]
      ensures !(gridOpen && !overGui) ==>
        gridCornerGrabbed == old(gridCornerGrabbed) && gridCorners[..] == old(gridCorners[..])
    {
      if gridOpen && !overGui {
        var mouse := Pixel(x, y);
        ghost var cs, start := gridCorners[..], gridCornerGrabbed;
        var i := 0;
        while i < CORNERS
          invariant 0 <= i <= CORNERS && 0 <= gridCornerGrabbed < CORNERS
          invariant gridCorners[..] == cs
          invariant forall j :: 0 <= j < i ==> DistanceSquared(cs[gridCornerGrabbed], mouse) <= DistanceSquared(cs[j], mouse)
          invariant DistanceSquared(cs[gridCornerGrabbed], mouse) <= DistanceSquared(cs[start], mouse)
          invariant DistanceSquared(cs[start], mouse) == DistanceSquared(cs[gridCornerGrabbed], mouse) ==> gridCornerGrabbed == start
          invariant gridCornerGrabbed != start ==>
            forall j :: 0 <= j < gridCornerGrabbed ==> DistanceSquared(cs[gridCornerGrabbed], mouse) < DistanceSquared(cs[j], mouse)
        {
          if DistanceSquared(gridCorners[i], mouse) < DistanceSquared(gridCorners[gridCornerGrabbed], mouse) {
            gridCornerGrabbed := i;
          }
          i := i + 1;
        }
        gridCorners[gridCornerGrabbed] := mouse;
      }
    }

    /** A drag with the grid corners open and outside the control panel moves the grabbed corner
        to the mouse position; nothing else changes. */
    method MouseDragged(x: int, y: int, gridOpen: bool, overGui: bool)
      requires Valid()
      modifies gridCorners
      ensures Valid()
      ensures gridOpen && !overGui ==> gridCorners[..] == old(gridCorners[..])[gridCornerGrabbed := Pixel(x, y)]
      ensures !(gridOpen && !overGui) ==> gridCorners[..] == old(gridCorners[..])
    {
      if gridOpen && !overGui {
        gridCorners[gridCornerGrabbed] := Pixel(x, y);
      }
    }
  }
}
