# Footfall counter: the per-detection counting step

This project models the stateful core of a footfall counter written in Python
(Flask + OpenCV + a YOLO tracker). For every video frame, the tracker supplies
boxes, class ids and persistent track ids. For each detection whose class name
contains `person`, the counter does four things:

- **Enter path.** Take the anchor, the bottom-left corner `(x1, y2)` of the box.
  If it lies in the outer zone `area2`, remember the id in `enter`. If the id
  is remembered and the anchor lies in the inner zone `area1`, highlight the
  box and append the id to `list_enter`, unless it is already there.
- **Exit path.** The same with the zones swapped, using `exit_` and `list_exit`.
- **Trail.** Append the box centre `((x1+x2)//2, (y1+y2)//2)` to the id's
  trajectory. Drop the oldest point when the trajectory holds more than 50
  points. Draw one line per pair of consecutive points.
- **Heatmap.** Add one visit to the centre's pixel of the 600 x 1020 density
  grid, if the centre is on the frame.

The displayed totals are `len(list_enter)` and `len(list_exit)`.

The model is functional. `Counting.Session` is an immutable record of the six
globals the loop mutates. `Counting.Step` processes one detection.
`Counting.ProcessFrame` folds `Step` over one frame's detections in order, and
`Counting.ProcessFrames` folds that over a sequence of frames.
`Counting.RunFrame` is the same frame loop written as a `while` loop.

Modules:

- `Geometry`: integer points, polygons, and the containment test `InZone`.
- `Zones`: the two fixed quadrilaterals and the edge they share.
- `Detections`: boxes, detections, tracker output, anchor, centroid, and the
  `person` substring test.
- `Crossing`: the one-way state machine that both the enter and the exit path
  use, plus `list.count`.
- `Trail`: the 50-point FIFO trajectory and its line segments.
- `Heatmap`: the grid of visit counters.
- `Counting`: the session, the step, the folds, and their invariants.
- `Traces`: the counts stated against the history of observations, plus worked
  scenarios.

Containment uses OpenCV's `pointPolygonTest(..., False) >= 0`. That is a
foreign call, so it is replaced by an exact integer crossing-number test in
which points on the outline count as inside. All coordinates are integers, so
the test needs no rounding. The zones share the edge (466,589)–(210,447). A
single observation whose anchor lies on that edge is in both zones, so it
fires both the enter path and the exit path (`Traces.SharedEdgeCountsBoth`).
The model keeps this behaviour rather than excluding it.

Python's `//` with divisor 2 rounds towards negative infinity. Dafny's `/` on
`int` does the same for a positive divisor, so `Centroid` uses `/` directly.

`enter` and `exit_` map each id to the last anchor seen in the first zone of
their path (app.py:69, 82). The session is never reset: the `paused` and
`restart_flag` globals are declared but never acted on, and the zones are
constants, so there is no geometry validation to model.

## Model

| member | source | states |
|---|---|---|
| Geometry.InZone | app.py:67-84 | every point on the outline of a zone counts as contained, as the `>= 0` test of each containment check requires, and an empty polygon contains nothing |
| Geometry.InZoneSpec | app.py:67-68 | A point on any edge is contained, a contained point off the outline has an edge that its ray crosses, and an empty polygon contains nothing. |
| Geometry.OnBoundaryFromSpec | app.py:67-68 | the recursive outline test holds exactly when some edge from the given index on holds the point |
| Geometry.CrossingsFromSpec | app.py:67-68 | the crossing count is at most the number of edges examined, and is zero exactly when the ray crosses none of them |
| Geometry.VertexInZone | app.py:67-68 | every vertex of a zone is contained in that zone |
| Zones.SharedEdgeInBothZones | app.py:22-23 | every point of the edge (466,589)–(210,447) is contained in both `area1` and `area2` |
| Zones.OuterSample | app.py:22-23 | (270,500) is in `area2` and not in `area1` |
| Zones.InnerSample | app.py:22-23 | (330,500) is in `area1` and not in `area2` |
| Zones.OutsideSample | app.py:22-23 | (300,450) is in neither zone |
| Detections.Anchor | app.py:67 | the zone tests use the bottom-left corner of the box, which for a box that is not inverted lies left of and below the centroid |
| Detections.IsPerson | app.py:63 | a detection is a person exactly when its class name contains `person` at some position |
| Detections.Centroid | app.py:94 | each centroid coordinate is the floor of the half-sum: `2c <= a+b < 2c+2`, and it lies between the box edges when the box is not inverted |
| Detections.OccursFrom | app.py:63 | the scan succeeds exactly when the pattern occurs at some position at or after the start index |
| Detections.Contains | app.py:63 | `'person' in class_name` holds exactly when the pattern occurs at some position of the name |
| Detections.PersonLabels | app.py:63 | "person" passes the class filter and "car" does not |
| Detections.FrameDetections | app.py:56-62 | no tracker ids gives no detections; otherwise `zip` stops at the shortest list, and each entry pairs box i, the class name of class id i and track id i |
| Crossing.Occurrences | app.py:76 | `list.count` is at most the list length, and is zero exactly when the id is absent |
| Crossing.NoDuplicatesOccurOnce | app.py:76-77 | in a list without duplicates every id occurs at most once |
| Crossing.NoDuplicatesCardinality | app.py:76-77 | a duplicate-free list is as long as its set of ids |
| Crossing.Observe | app.py:67-77 | the id is remembered iff it was already remembered or its anchor is in the first zone, and then with the latest such anchor; other ids are untouched; the path fires iff the id is remembered and the anchor is in the second zone; the counted list only gains the observed id, only when the path fires, by at most one element at the end, and stays duplicate-free |
| Trail.Newest | app.py:101-103 | the newest part of a sequence has length `min(len, 50)` and is its suffix |
| Trail.Append | app.py:97-103 | the trail ends with the new centroid; below 50 points it is `old + [c]`; at 50 or more it is `old[1..] + [c]`; from a bounded trail it is the newest 50 points of `old + [c]` |
| Trail.AppendNewest | app.py:97-103 | appending to the newest part of a history gives the newest part of the extended history |
| Trail.AppendAllKeepsNewest | app.py:97-103 | any number of appends to a bounded trail leaves exactly the newest 50 points of the whole history, in insertion order |
| Trail.OverflowKeepsLast | app.py:101-103 | after 55 appends to an empty trail, exactly the last 50 centroids remain and the oldest five are dropped |
| Trail.Segments | app.py:106-107 | `max(0, len - 1)` segments are drawn, segment j joining points j and j+1 |
| Heatmap.Empty | app.py:21 | the initial grid is 600 x 1020 with every counter zero |
| Heatmap.Record | app.py:110-111 | an on-frame centroid raises exactly its own cell by one; every other cell is unchanged; an off-frame centroid leaves the grid unchanged; no cell decreases |
| Heatmap.DominatesTransitive | app.py:110-111 | "no cell decreased" composes across successive updates |
| Counting.Initial | app.py:20-26 | the session starts with a well-formed grid |
| Counting.InitialValid | app.py:20-26 | the fresh session satisfies every session invariant |
| Counting.EnterPath | app.py:67-77 | the enter path fires iff the id was remembered or its anchor is in `area2`, and its anchor is in `area1`; `list_enter` gains the id only when the path fires |
| Counting.ExitPath | app.py:80-90 | the exit path fires iff the id was remembered or its anchor is in `area1`, and its anchor is in `area2`; `list_exit` gains the id only when the path fires |
| Counting.TrailOf | app.py:97-98 | an id with no trail yet starts from the empty trail, and in a valid session no trail exceeds 50 points |
| Counting.Step | app.py:61-111 | a non-person detection changes nothing; a person detection leaves its id with a trail ending in the new centroid; counted lists are only extended at the end; remembered ids and trails are never dropped; no heatmap cell decreases |
| Counting.Highlighted | app.py:70-88 | the box is highlighted iff it is a person and, on the enter or the exit path, it is remembered or newly in the first zone and its anchor is in the second zone |
| Counting.ProcessFrame | app.py:61-111 | over one frame's detections the grid keeps its shape, the counted lists never shrink, and no remembered id or trail is dropped |
| Counting.ProcessFrames | app.py:41-111 | over a sequence of frames the grid keeps its shape, the counted lists never shrink, and no remembered id or trail is dropped |
| Counting.Totals | app.py:116-117 | in a valid session each displayed total is at most the number of ids remembered on its path |
| Counting.TotalsBounded | app.py:116-117 | in a valid session each counted list is no longer than the set of ids remembered on its path |
| Counting.ProcessTrackerOutput | app.py:56-61 | a frame without tracker ids leaves the session unchanged |
| Counting.RunFrame | app.py:61-111 | the loop over a frame's detections computes the fold of the step over them in order, and keeps the session invariants |
| Counting.StepPreservesValid | app.py:61-111 | one step keeps the invariants: no duplicates in either counted list, every counted id is remembered on its path, every remembered anchor lies in the path's first zone, every trail holds 1 to 50 points, and the grid keeps its shape |
| Counting.ProcessFramePreservesValid | app.py:61-111 | a whole frame keeps the session invariants |
| Counting.ProcessFramesPreservesValid | app.py:41-111 | a whole sequence of frames keeps the session invariants |
| Counting.StepLeavesOtherIds | app.py:64-111 | a step for one id leaves every other id's enter and exit entries, trail, and counted status unchanged |
| Counting.StepCountsOnce | app.py:76-90 | each total rises by at most one per step; it rises exactly when the detection is a person, its path fires, and its id was not yet counted; the rise appends that id |
| Counting.StepTrailOf | app.py:97-103 | a step appends the centroid to an id's trail exactly when the detection is a person with that id, and leaves the trail alone otherwise |
| Counting.StepTrail | app.py:97-107 | after a person step the id's trail holds 1 to 50 points and ends with the centroid; a full trail loses its oldest point and a shorter one keeps all points; one fewer segment than points is drawn |
| Counting.StepHeatmap | app.py:110-111 | a person step adds one visit to the centroid's pixel when it is on the frame, and changes no other cell |
| Counting.StepNeedsOuterZoneFirst | app.py:67-77 | an id never remembered on the enter path, whose anchor is not in `area2` now, is neither remembered nor counted as entering after the step |
| Counting.ProcessFrameConcat | app.py:61 | processing a list of detections in two parts is the same as processing it in one run |
| Counting.ProcessFramesIsFlatten | app.py:41-61 | processing frame after frame is the same as processing all their detections in one run |
| Counting.NoPersonNoChange | app.py:61-63 | a frame with no person detection, the empty frame included, leaves the session unchanged |
| Counting.ExtendsTransitive | app.py:61-111 | "a later state extends an earlier one" composes |
| Counting.ProcessFrameExtends | app.py:61-111 | over a frame no id is forgotten, the counted lists are only appended to, and no heatmap cell decreases |
| Counting.TotalsNeverDecrease | app.py:116-117 | over a session, the displayed totals at a later frame are at least those at an earlier frame, and the later state extends the earlier one |
| Counting.FlattenConcat | app.py:41-61 | flattening two runs of frames is the concatenation of their flattenings |
| Counting.SessionCountsOnce | app.py:76-90 | over a whole session each id occurs at most once in `list_enter` and at most once in `list_exit` |
| Traces.SeenInSnoc | app.py:67-69 | an id was seen in a zone in a history iff it was seen there before the last observation or at the last observation |
| Traces.QualifiedSnoc | app.py:70-77 | an id qualified in a history iff it qualified before the last observation, or the last observation puts it in the second zone after it was seen in the first |
| Traces.EnterHistory | app.py:67-77 | from a fresh session, an id is in `enter` iff some anchor of it was in `area2`, and in `list_enter` iff some anchor was in `area1` with the same or an earlier anchor in `area2` |
| Traces.ExitHistory | app.py:80-90 | from a fresh session, an id is in `exit_` iff some anchor of it was in `area1`, and in `list_exit` iff some anchor was in `area2` with the same or an earlier anchor in `area1` |
| Traces.SessionHistory | app.py:41-90 | over a session of frames, an id is in `enter` iff some anchor of it was in `area2` and in `exit_` iff some anchor was in `area1`; it is in `list_enter` or `list_exit` iff it qualified on that path, over all the frames' detections in order |
| Traces.NeverOuterNeverEnters | app.py:67-70 | an id whose anchor was never in `area2` is never counted as entering, however long it stays in `area1` |
| Traces.NeverInnerNeverExits | app.py:80-83 | an id whose anchor was never in `area1` is never counted as exiting |
| Traces.QualifiedIsObserved | app.py:70-77 | an id that qualified was observed |
| Traces.TotalsCountQualifiedIds | app.py:116-117 | from a fresh session, the enter total equals the number of distinct ids that qualified as entering, and likewise for exit |
| Traces.TrailHistory | app.py:97-103 | from a fresh session, an id's trail is exactly the newest 50 centroids of its person observations, oldest first |
| Traces.TrailOverflowInSession | app.py:101-103 | an id observed 55 times from a fresh session keeps its last 50 centroids and has dropped the first five |
| Traces.EnterScenario | app.py:66-90 | track 7 at anchor (270,500) and then (330,500) counts nothing on the first step and one enter and no exit on the second; the totals are (1, 0) |
| Traces.ExitScenario | app.py:66-90 | the reverse walk counts one exit and no enter |
| Traces.SharedEdgeCountsBoth | app.py:66-90 | one observation at (338,518) on the shared edge counts a fresh id as both entering and exiting, and highlights the box |

## Left out

- Flask routes, the page template, the view toggle and the file download (app.py:138-163): HTTP plumbing.
- Loading the YOLO model and calling `model.track` (app.py:12-13, 54): an external detector and tracker. Its output is an input here (`Detections.TrackerOutput`). The class-name table `names` is a parameter, and every class id that `zip` pairs with a box and a track id must be in it, because the source's lookup would raise otherwise.
- Video capture, end-of-video handling, resizing, alternate-frame skipping, JPEG encoding and MJPEG streaming (app.py:36-53, 129-134): I/O. `Counting.ProcessFrames` takes the frames that were admitted.
- All drawing calls (rectangles, labels, circles, lines, polylines and the totals text): rendering. Only `Counting.Highlighted` (the box is highlighted) and `Trail.Segments` (the trail lines) are exposed.
- Heatmap display normalisation, colour map and alpha blending (app.py:122-127): floating point inside OpenCV, and it never writes back to the grid.
- The `paused`, `restart_flag` and `show_heatmap` globals (app.py:29-31): `paused` and `restart_flag` are never acted on, and `show_heatmap` only affects display.
- OpenCV's own implementation of `pointPolygonTest` is not part of this model. `Geometry.InZone` is an exact integer crossing-number test with the same convention: a point on the outline counts as contained.
- Heatmap.Record: the source grid is `float32`, whose `+= 1` stops changing a cell once it reaches 2^24 visits. The model's counters are unbounded `nat`, so that saturation is not modelled.
- Concurrent streams: each `/video_feed` request (app.py:143-145) runs its own frame loop over the same module globals (app.py:20-26), and the development server serves requests on threads without a lock (app.py:163). The model processes one stream at a time; interleaving two streams between whole steps is another sequence of steps, and is covered, but a thread switch inside a step is not modelled. Such a switch between the `count` test and the `append` (app.py:76-77) could duplicate an id in a counted list. One between the trail append and `pop(0)` (app.py:97-103) could leave a trail longer than 50 points.
- Counting.Session: nothing is ever evicted, as in the source. Per-id state grows with the number of distinct ids seen.
- Box coordinates pass through a 32-bit tensor (`.int()`, app.py:57), but `.tolist()` turns them into Python integers, so the sum `x1 + x2` at app.py:94 is unbounded. The model's `int` matches that, and nothing is truncated.
