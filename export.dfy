/** The trim filter shared by the preview and the export, and the rows the export produces. */
module Export {
  import opened Geometry
  import opened Markers

  /** One exported row: time relative to the trim start, the centre, then the four corners. */
  datatype Row = Row(t: real, center: Point, corners: seq<Point>)

  /** A sample time qualifies when it lies strictly between the absolute trim bounds. */
  predicate Inside(t: real, lo: real, hi: real) {
    lo < t && t < hi
  }

  function SampleRow(m: Marker, j: nat, lo: real): Row
    requires WellFormed(m) && j < |m.time|
  {
    Row(m.time[j] - lo, m.center[j], seq(CORNERS, k requires 0 <= k < CORNERS => m.corner[k][j]))
  }

  /** The rows of the first `n` samples of a marker that fall inside the trim window. */
  function Rows(m: Marker, n: nat, lo: real, hi: real): (r: seq<Row>)
    requires WellFormed(m) && n <= |m.time|
    ensures |r| <= n
    ensures forall p :: 0 <= p < |r| ==> 0.0 < r[p].t < hi - lo
  {
    if n == 0 then []
    else Rows(m, n - 1, lo, hi) + (if Inside(m.time[n - 1], lo, hi) then [SampleRow(m, n - 1, lo)] else [])
  }

  /** The buffer the export fills for one marker. */
  function MarkerRows(m: Marker, lo: real, hi: real): seq<Row>
    requires WellFormed(m)
  {
    Rows(m, |m.time|, lo, hi)
  }

  /** One buffer per marker, in registry order. */
  function Buffers(ms: seq<Marker>, lo: real, hi: real): (b: seq<seq<Row>>)
    requires AllWellFormed(ms)
  {
    seq(|ms|, i requires 0 <= i < |ms| => MarkerRows(ms[i], lo, hi))
  }

  /** The preview colour of every recorded sample: true (green) inside the trim window, false (red) outside. */
  function Preview(ms: seq<Marker>, lo: real, hi: real): seq<seq<bool>>
  {
    seq(|ms|, i requires 0 <= i < |ms| => seq(|ms[i].time|, j requires 0 <= j < |ms[i].time| => Inside(ms[i].time[j], lo, hi)))
  }

  /** The rows of a marker are exactly its qualifying samples, in history order: `idx` lists the
      qualifying sample positions, strictly increasing, and row p is the row of sample idx[p]. */
  lemma {:induction false} RowsInHistoryOrder(m: Marker, n: nat, lo: real, hi: real) returns (idx: seq<nat>)
    requires WellFormed(m) && n <= |m.time|
    ensures |idx| == |Rows(m, n, lo, hi)|
    ensures forall p, p' :: 0 <= p < p' < |idx| ==> idx[p] < idx[p']
    ensures forall p :: 0 <= p < |idx| ==>
      idx[p] < n && Inside(m.time[idx[p]], lo, hi) && Rows(m, n, lo, hi)[p] == SampleRow(m, idx[p], lo)
    ensures forall j :: 0 <= j < n && Inside(m.time[j], lo, hi) ==> j in idx
  {
    if n == 0 {
      return [];
    }
    var prev := RowsInHistoryOrder(m, n - 1, lo, hi);
    if Inside(m.time[n - 1], lo, hi) {
      idx := prev + [n - 1];
    } else {
      idx := prev;
    }
  }

  /** With every sample inside the window, the export keeps every sample, in order. */
  lemma {:induction false} RowsFullRange(m: Marker, n: nat, lo: real, hi: real)
    requires WellFormed(m) && n <= |m.time|
    requires forall j :: 0 <= j < n ==> Inside(m.time[j], lo, hi)
    ensures |Rows(m, n, lo, hi)| == n
    ensures forall j :: 0 <= j < n ==> Rows(m, n, lo, hi)[j] == SampleRow(m, j, lo)
  {
    if n > 0 {
      RowsFullRange(m, n - 1, lo, hi);
    }
  }

  /** The preview shows a sample green exactly when the export writes its row. */
  lemma PreviewMatchesExport(ms: seq<Marker>, lo: real, hi: real, i: int, j: int)
    requires AllWellFormed(ms) && 0 <= i < |ms| && 0 <= j < |ms[i].time|
    ensures Preview(ms, lo, hi)[i][j] <==> SampleRow(ms[i], j, lo) in Buffers(ms, lo, hi)[i]
  {
    var m := ms[i];
    var idx := RowsInHistoryOrder(m, |m.time|, lo, hi);
    var rows := Buffers(ms, lo, hi)[i];
    if SampleRow(m, j, lo) in rows {
      var p :| 0 <= p < |rows| && rows[p] == SampleRow(m, j, lo);
      assert m.time[j] - lo == m.time[idx[p]] - lo;
    }
    if Inside(m.time[j], lo, hi) {
      var p :| 0 <= p < |idx| && idx[p] == j;
    }
  }

  /* ---------- where the buffers end up ---------- */

  /** Destination of one buffer: the file chosen in the save dialog, or the per-marker file
      `<ID>_<file>` named in the commented-out alternative of the export loop. */
  datatype Target = ChosenFile | MarkerFile(id: int)

  /** The files after writing each buffer in turn; a later write to a target replaces an earlier one. */
  function WriteAll(files: map<Target, seq<Row>>, writes: seq<(Target, seq<Row>)>): map<Target, seq<Row>>
    decreases |writes|
  {
    if writes == [] then files
    else WriteAll(files[writes[0].0 := writes[0].1], writes[1..])
  }

  /** The writes of the export as written: every marker's buffer goes to the same chosen file. */
  function SharedFileWrites(buffers: seq<seq<Row>>): seq<(Target, seq<Row>)> {
    seq(|buffers|, i requires 0 <= i < |buffers| => (ChosenFile, buffers[i]))
  }

  /** The writes as evidently intended: each marker's buffer goes to a file named after its ID. */
  function PerMarkerWrites(ms: seq<Marker>, buffers: seq<seq<Row>>): seq<(Target, seq<Row>)>
    requires |ms| == |buffers|
  {
    seq(|ms|, i requires 0 <= i < |ms| => (MarkerFile(ms[i].id), buffers[i]))
  }

  /** The files the corrected export leaves behind, starting from none. */
  function SavedFiles(ms: seq<Marker>, buffers: seq<seq<Row>>): map<Target, seq<Row>>
    requires |ms| == |buffers|
  {
    WriteAll(map[], PerMarkerWrites(ms, buffers))
  }

  /** As written, only the last marker's buffer survives in the chosen file. */
  lemma {:induction false} SharedFileKeepsLast(files: map<Target, seq<Row>>, buffers: seq<seq<Row>>)
    requires |buffers| > 0
    ensures WriteAll(files, SharedFileWrites(buffers)) == files[ChosenFile := buffers[|buffers| - 1]]
    decreases |buffers|
  {
    var ws := SharedFileWrites(buffers);
    if |buffers| > 1 {
      assert ws[1..] == SharedFileWrites(buffers[1..]);
      SharedFileKeepsLast(files[ChosenFile := buffers[0]], buffers[1..]);
      assert files[ChosenFile := buffers[0]][ChosenFile := buffers[|buffers| - 1]] == files[ChosenFile := buffers[|buffers| - 1]];
    } else {
      assert ws[1..] == [];
    }
  }

  /** Two markers, each with one sample inside the window: the saved file holds the second marker's
      row only, and the first marker's row is lost. */
  lemma SharedFileLosesRows()
    ensures var p, q := Point(1.0, 2.0), Point(3.0, 4.0);
      var a := Marker(7, [0.5], [p], [[p], [p], [p], [p]], p, [p, p, p, p], 0.5);
      var b := Marker(8, [0.5], [q], [[q], [q], [q], [q]], q, [q, q, q, q], 0.5);
      var buffers := Buffers([a, b], 0.0, 1.0);
      var files := WriteAll(map[], SharedFileWrites(buffers));
      && buffers[0] == [SampleRow(a, 0, 0.0)]
      && files == map[ChosenFile := buffers[1]]
      && SampleRow(a, 0, 0.0) !in files[ChosenFile]
  {
    var p, q := Point(1.0, 2.0), Point(3.0, 4.0);
    var a := Marker(7, [0.5], [p], [[p], [p], [p], [p]], p, [p, p, p, p], 0.5);
    var b := Marker(8, [0.5], [q], [[q], [q], [q], [q]], q, [q, q, q, q], 0.5);
    var buffers := Buffers([a, b], 0.0, 1.0);
    assert MarkerRows(a, 0.0, 1.0) == [SampleRow(a, 0, 0.0)];
    assert MarkerRows(b, 0.0, 1.0) == [SampleRow(b, 0, 0.0)];
    SharedFileKeepsLast(map[], buffers);
    assert SampleRow(a, 0, 0.0).center != SampleRow(b, 0, 0.0).center;
  }

  lemma {:induction false} WriteAllDistinct(files: map<Target, seq<Row>>, writes: seq<(Target, seq<Row>)>)
    requires forall p, p' :: 0 <= p < p' < |writes| ==> writes[p].0 != writes[p'].0
    ensures forall p :: 0 <= p < |writes| ==>
      writes[p].0 in WriteAll(files, writes) && WriteAll(files, writes)[writes[p].0] == writes[p].1
    decreases |writes|
  {
    if writes != [] {
      var rest := writes[1..];
      WriteAllDistinct(files[writes[0].0 := writes[0].1], rest);
      var after := WriteAll(files, writes);
      assert after == WriteAll(files[writes[0].0 := writes[0].1], rest);
      assert writes[0].0 in after && after[writes[0].0] == writes[0].1 by {
        WriteAllUntouched(files[writes[0].0 := writes[0].1], rest, writes[0].0);
      }
      forall p | 1 <= p < |writes|
        ensures writes[p].0 in after && after[writes[p].0] == writes[p].1
      {
        assert writes[p] == rest[p - 1];
      }
    }
  }

  lemma {:induction false} WriteAllUntouched(files: map<Target, seq<Row>>, writes: seq<(Target, seq<Row>)>, t: Target)
    requires forall p :: 0 <= p < |writes| ==> writes[p].0 != t
    ensures t in files ==> t in WriteAll(files, writes) && WriteAll(files, writes)[t] == files[t]
    decreases |writes|
  {
    if writes != [] {
      WriteAllUntouched(files[writes[0].0 := writes[0].1], writes[1..], t);
    }
  }

  /** Corrected export: with one file per marker ID, every marker's buffer is kept in full. */
  lemma PerMarkerKeepsAll(ms: seq<Marker>, buffers: seq<seq<Row>>)
    requires UniqueIds(ms) && |ms| == |buffers|
    ensures var files := SavedFiles(ms, buffers);
      forall i :: 0 <= i < |ms| ==> MarkerFile(ms[i].id) in files && files[MarkerFile(ms[i].id)] == buffers[i]
  {
    var ws := PerMarkerWrites(ms, buffers);
    forall p, p' | 0 <= p < p' < |ws| ensures ws[p].0 != ws[p'].0 {
      assert ws[p].0 == MarkerFile(ms[p].id) && ws[p'].0 == MarkerFile(ms[p'].id);
    }
    WriteAllDistinct(map[], ws);
    forall i | 0 <= i < |ms|
      ensures MarkerFile(ms[i].id) in WriteAll(map[], ws) && WriteAll(map[], ws)[MarkerFile(ms[i].id)] == buffers[i]
    {
      assert ws[i] == (MarkerFile(ms[i].id), buffers[i]);
    }
  }
}
