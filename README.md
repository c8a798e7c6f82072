# ARTracker: marker registry, recording, trim and export

ARTracker is an openFrameworks application that tracks fiducial markers in a camera or video
stream. The detector reports, for each frame, the ID, centre and four ordered corners of every
marker it sees. The application keeps one record per marker ID with its latest pose. While a
recording runs, it also appends every detection to that record's time, centre and corner
histories. When the recording stops, the operator chooses a trim window with a range slider.
A preview colours every recorded sample green inside the window and red outside it. Save writes
the samples inside the window, one row per sample. A separate perspective grid has four corner
handles; a mouse press grabs the nearest corner and a drag moves it.

This project models that core of `src/ofApp.cpp` and proves properties of it:

- `wrappers.dfy`: module `Wrappers`, an `Option` type.
- `geometry.dfy`: module `Geometry`, the real-valued `Point` used for detections.
- `markers.dfy`: module `Markers`. It holds the marker record (`Marker`, a value in the registry
  sequence) and the frame update as a specification function (`ApplyFrame`, one `Upsert` per
  detection). It also holds the start-of-recording scan (`Rearm`) and the lemmas about both.
- `export.dfy`: module `Export`. It holds the strict trim filter (`Inside`), the exported rows
  (`Rows`), the preview classification (`Preview`) and where the buffers end up (`WriteAll`).
- `grid.dfy`: module `Grid`. It holds integer pixel positions, the squared distance and the
  corner-grab rule (`IsNearest`).
- `tracker.dfy`: module `Tracker`. Its class `App` has the application's fields (`markers`,
  `record`, `recordBegin`, `recordEnd`, `saveBegin`, `saveEnd`, the `gridCorners` array,
  `gridCornerGrabbed`) and one method per event handler. Each method is proved against the
  specification functions above.

`App.Valid()` is the invariant every handler keeps:
- every record's histories have equal lengths;
- marker IDs are unique;
- there are four grid corners and the grabbed index is in range;
- while recording, `recordEnd == recordBegin`.

Time and coordinates are mathematical reals. The clock (`ofGetElapsedTimef`), the detector's
output, the state of the GUI toggles, the mouse position and the save dialog's answer are
method parameters.

## Model

| member | source | states |
|---|---|---|
| Markers.Observe | src/ofApp.cpp:181-194 | one detection sets the ID, the time to now and the pose to the detection's; when recording each history gains exactly that sample at its end (time now, the centre, each corner), otherwise the histories are unchanged |
| Markers.IndexOf | src/ofApp.cpp:171-176 | the result is the first position holding the ID, or -1 exactly when no record has it |
| Markers.ApplyFrame | src/ofApp.cpp:163-201 | after a frame every record's time, centre and four corner histories still have equal lengths |
| Markers.ApplyFrameShape | src/ofApp.cpp:167-194 | each record after a frame is its starting record (old, or a new default one per new ID) having absorbed exactly the frame's detections with its ID, in order; IDs stay unique and every detected ID is registered |
| Markers.UpsertStep | src/ofApp.cpp:167-194 | handling one more detection extends the frame by that detection and keeps IDs unique |
| Markers.ApplyFrameRegistry | src/ofApp.cpp:167-180 | IDs stay unique, every detected ID is registered, old records keep their positions and IDs, and the appended records carry exactly new detected IDs |
| Markers.NewIdsAreNew | src/ofApp.cpp:177-180 | the IDs a frame appends were not registered before and were detected in the frame |
| Markers.ApplyFramePose | src/ofApp.cpp:181-188 | a detected record has the frame time and the pose of the last detection with its ID; an undetected record is an old record left unchanged |
| Markers.ApplyFrameHistory | src/ofApp.cpp:189-194 | when recording, each history grows by one entry per detection with the record's ID, in detection order; when not recording, histories are unchanged; appended records start from empty histories |
| Markers.MatchingLast | src/ofApp.cpp:181-188 | the last detection with an ID is the last one applied to its record |
| Markers.RearmAppend | src/ofApp.cpp:328-339 | the scan works record by record, so the survivors keep their relative order |
| Markers.RearmCleared | src/ofApp.cpp:329-338 | every survivor is an old record whose histories are empty and whose pose is kept, and none is stale |
| Markers.RearmKeeps | src/ofApp.cpp:329-338 | a record survives the start of a recording exactly when it was seen within the last two seconds |
| Markers.RearmUnique | src/ofApp.cpp:328-331 | starting a recording keeps IDs unique and removes every stale ID |
| Export.Rows | src/ofApp.cpp:427-437 | at most one row per sample, and every row's time lies strictly between 0 and the window length |
| Export.RowsInHistoryOrder | src/ofApp.cpp:427-437 | the rows are exactly the samples strictly inside the absolute window, in history order, each timed from the window start |
| Export.RowsFullRange | src/ofApp.cpp:423-437 | when every sample is inside the window, the export keeps every sample, in order |
| Export.PreviewMatchesExport | src/ofApp.cpp:387-399 | the preview shows a sample green exactly when the export writes its row |
| Export.SharedFileKeepsLast | src/ofApp.cpp:425-442 | writing every marker's buffer to the one chosen file leaves only the last marker's buffer |
| Export.SharedFileLosesRows | src/ofApp.cpp:440 | with two markers that each have one sample in the window, the first marker's row is missing from the file |
| Export.WriteAllDistinct | src/ofApp.cpp:439 | writes to pairwise distinct files all survive |
| Export.PerMarkerKeepsAll | src/ofApp.cpp:439 | with one file per marker ID, every marker's buffer is kept in full |
| Grid.DistanceSquared | src/ofApp.cpp:512 | the squared distance is never negative and is zero exactly at the same point |
| Grid.NearestUnique | src/ofApp.cpp:511-514 | the grabbed corner is fully determined by the corners, the press and the previous grab |
| Tracker.App.constructor | src/ofApp.cpp:57-75 | setup state: not recording, recording bounds 0 and 1, window 0 to 1, no markers, four corners at the origin, corner 0 grabbed |
| Tracker.App.FindMarker | src/ofApp.cpp:170-176 | the scan returns the first position with the ID, or -1 exactly when the ID is not registered |
| Tracker.App.Register | src/ofApp.cpp:168-194 | one detection updates the registry as `Upsert` does |
| Tracker.App.Update | src/ofApp.cpp:163-201 | the registry after a frame is `ApplyFrame` of the old registry, and the invariant holds |
| Tracker.App.DropStale | src/ofApp.cpp:328-339 | the backward erase-or-clear scan leaves `Rearm` of the old registry |
| Tracker.App.RecordToggled | src/ofApp.cpp:326-363 | turning on leaves `Rearm` of the registry and both recording bounds at now; turning off sets the end to now and the window to the whole recording |
| Tracker.App.RecordLimitsChanged | src/ofApp.cpp:380-401 | while recording the window is forced to 0 and the recording length (which is 0); otherwise the new bounds are kept and the preview is returned |
| Tracker.App.PreviewColours | src/ofApp.cpp:387-399 | the colour of every sample is the strict-window classification `Preview` |
| Tracker.App.Save | src/ofApp.cpp:418-449 | empty registry: no data; dismissed dialog: nothing; otherwise one buffer per marker equal to its trimmed rows, every row time inside the window length; writing all buffers to the one chosen file leaves only the last marker's buffer there; no modelled field changes |
| Tracker.App.SaveEvent | src/ofApp.cpp:403-414 | a running recording is stopped with the window over all of it; the export runs only on release |
| Tracker.App.MousePressed | src/ofApp.cpp:507-518 | with the grid open and the mouse off the panel, the nearest corner is grabbed (ties keep the previous grab, then the first) and moved to the mouse position; otherwise nothing changes |
| Tracker.App.MouseDragged | src/ofApp.cpp:498-504 | with the grid open and the mouse off the panel, only the grabbed corner moves, to the mouse position; otherwise nothing changes |

## Left out

- Video capture and playback, image conversion and thresholding: I/O and image processing, outside the core.
- The ARToolKit detector: its per-frame output is the `ds` parameter of `Update`.
- Drawing: the record overlay circles, `drawGrid`, the save banner (`saveAlpha`) and the record-time label.
- GUI widgets and their callbacks: their effects are parameters (`gridOpen`, `overGui`, `buttonDown`, `low`, `high`).
- The camera settings dialog, and the settings and grid-corner files read at setup and written at exit: file I/O.
- The save dialog and `ofBufferToFile`: the dialog's answer is the `confirmed` parameter, the file name it returns (`saveFile`, assigned by `save()`) is the single `ChosenFile` target rather than a field, and the text format of a row (`ofToString` of numbers and points) is not modelled. A `Row` holds the values of one line.
- Float rounding: times and coordinates are reals.
- Tracker.App.constructor: stops at the state before the settings and grid-corner files are loaded.
- Tracker.App.RecordToggled: every reading of the clock within one event is the single `now` parameter, where the source reads the clock again for each record and for each bound.
- Tracker.App.DropStale: reads the clock once (`now`), like `RecordToggled`.
- Tracker.App.RecordLimitsChanged: the slider's own clamping of `low` and `high` to the recording length is not modelled; the method accepts any bounds.
- Tracker.App.Update: requires every detection to have four corners; the source reads four corners from the detector without checking.
- Grid.Pixel: grid corners are integers, because the source only ever sets them from integer mouse or file coordinates.
- Trim semantics: the source filters by absolute seconds with strict bounds (`saveBegin + recordBegin < t < saveEnd + recordBegin`) and the model follows the source. A normalized, inclusive window is not what the code does.
- Tracker.App.Save: states the export as written (every buffer to the one chosen file, so only the last survives); the corrected one-file-per-ID layout from Findings is proved separately by `Export.PerMarkerKeepsAll` and is not what `Save` does.

## Findings

| source | as written | input that shows it | evidently intended | confidence | as-written member | corrected member |
|---|---|---|---|---|---|---|
| src/ofApp.cpp:440 | every marker's buffer is written to the same chosen file inside the per-marker loop, so each write replaces the previous one | two markers, IDs 7 and 8, each with one sample at 0.5 s, window from 0 to 1 s: the file holds only marker 8's row | one file per marker, named after its ID (the alternative left commented out at line 439) | not executed; high | Export.SharedFileLosesRows | Export.PerMarkerKeepsAll |
