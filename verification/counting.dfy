/**
 The counting session: everything the per-detection step reads and writes,
 the step itself, and its fold over one frame's detections and over a
 sequence of frames.
 */
module Counting {
  import opened Geometry
  import opened Zones
  import opened Detections
  import opened Crossing
  import Trail
  import opened Heatmap

  /**
   enter: ids whose anchor was seen in Area2, with the last such anchor.
   exit: ids whose anchor was seen in Area1, with the last such anchor.
   listEnter, listExit: ids counted as entering / exiting, in counting order.
   trackPaths: each id's recent centroids, oldest first.
   heatmap: visit counters per pixel.
   */
  datatype Session = Session(
    enter: map<int, Point>,
    exit: map<int, Point>,
    listEnter: seq<int>,
    listExit: seq<int>,
    trackPaths: map<int, seq<Point>>,
    heatmap: Grid)

  function Initial(): (s: Session)
    ensures WellFormed(s.heatmap)
  {
    Session(map[], map[], [], [], map[], Empty())
  }

  /** The invariants every reachable session satisfies. */
  predicate Valid(s: Session) {
    && NoDuplicates(s.listEnter)
    && NoDuplicates(s.listExit)
    && (forall id :: id in s.listEnter ==> id in s.enter)
    && (forall id :: id in s.listExit ==> id in s.exit)
    && (forall id :: id in s.enter ==> InZone(Area2, s.enter[id]))
    && (forall id :: id in s.exit ==> InZone(Area1, s.exit[id]))
    && (forall id :: id in s.trackPaths ==> 0 < |s.trackPaths[id]| <= Trail.MaxLength)
    && WellFormed(s.heatmap)
  }

  /**
   The running totals shown on every frame. In a valid session the enter
   total never exceeds the number of ids ever seen in Area2, nor the exit
   total the number seen in Area1.
   */
  function Totals(s: Session): (r: (nat, nat))
    ensures Valid(s) ==> r.0 <= |s.enter.Keys| && r.1 <= |s.exit.Keys|
  {
    TotalsBounded(s);
    (|s.listEnter|, |s.listExit|)
  }

  lemma TotalsBounded(s: Session)
    ensures Valid(s) ==> |s.listEnter| <= |s.enter.Keys| && |s.listExit| <= |s.exit.Keys|
  {
    if Valid(s) {
      NoDuplicatesCardinality(s.listEnter);
      NoDuplicatesCardinality(s.listExit);
      assert (set x | x in s.listEnter) <= s.enter.Keys;
      assert (set x | x in s.listExit) <= s.exit.Keys;
      SubsetCardinality((set x | x in s.listEnter), s.enter.Keys);
      SubsetCardinality((set x | x in s.listExit), s.exit.Keys);
    }
  }

  lemma SubsetCardinality(a: set<int>, b: set<int>)
    requires a <= b
    ensures |a| <= |b|
  {
    assert b == a + (b - a);
  }

  /** The enter path: seen in Area2, then in Area1. */
  function EnterPath(s: Session, d: Detection): (r: Outcome)
    ensures r.fired <==> (d.id in s.enter || InZone(Area2, Anchor(d.box))) && InZone(Area1, Anchor(d.box))
    ensures forall k :: k in r.counted <==> k in s.listEnter || (k == d.id && r.fired)
  {
    Observe(s.enter, s.listEnter, d.id, Anchor(d.box), Area2, Area1)
  }

  /** The exit path: seen in Area1, then in Area2. */
  function ExitPath(s: Session, d: Detection): (r: Outcome)
    ensures r.fired <==> (d.id in s.exit || InZone(Area1, Anchor(d.box))) && InZone(Area2, Anchor(d.box))
    ensures forall k :: k in r.counted <==> k in s.listExit || (k == d.id && r.fired)
  {
    Observe(s.exit, s.listExit, d.id, Anchor(d.box), Area1, Area2)
  }

  /** The trail of id before this step; a new id starts with none. */
  function TrailOf(s: Session, id: int): (r: seq<Point>)
    ensures id !in s.trackPaths ==> r == []
    ensures Valid(s) ==> |r| <= Trail.MaxLength
  {
    if id in s.trackPaths then s.trackPaths[id] else []
  }

  /** Process one detection. */
  function Step(s: Session, d: Detection): (r: Session)
    requires WellFormed(s.heatmap)
    ensures WellFormed(r.heatmap) && Dominates(r.heatmap, s.heatmap)
    ensures !IsPerson(d.className) ==> r == s
    ensures IsPerson(d.className) ==>
      && d.id in r.trackPaths
      && var t := r.trackPaths[d.id]; |t| > 0 && t[|t| - 1] == Centroid(d.box)
    ensures IsPrefix(s.listEnter, r.listEnter) && IsPrefix(s.listExit, r.listExit)
    ensures s.enter.Keys <= r.enter.Keys && s.exit.Keys <= r.exit.Keys
    ensures s.trackPaths.Keys <= r.trackPaths.Keys
  {
    if !IsPerson(d.className) then s
    else
      var en := EnterPath(s, d);
      var ex := ExitPath(s, d);
      var c := Centroid(d.box);
      Session(en.seen, ex.seen, en.counted, ex.counted,
              s.trackPaths[d.id := Trail.Append(TrailOf(s, d.id), c)],
              Record(s.heatmap, c))
  }

  /** Whether the step highlights the box: either path qualified on this observation. */
  function Highlighted(s: Session, d: Detection): (r: bool)
    ensures r <==>
      && IsPerson(d.className)
      && var a := Anchor(d.box);
         || ((d.id in s.enter || InZone(Area2, a)) && InZone(Area1, a))
         || ((d.id in s.exit || InZone(Area1, a)) && InZone(Area2, a))
  {
    IsPerson(d.className) && (EnterPath(s, d).fired || ExitPath(s, d).fired)
  }

  /** Process one frame's detections in order. */
  function ProcessFrame(s: Session, ds: seq<Detection>): (r: Session)
    requires WellFormed(s.heatmap)
    ensures WellFormed(r.heatmap)
    ensures |s.listEnter| <= |r.listEnter| && |s.listExit| <= |r.listExit|
    ensures s.enter.Keys <= r.enter.Keys && s.exit.Keys <= r.exit.Keys
    ensures s.trackPaths.Keys <= r.trackPaths.Keys
    decreases |ds|
  {
    if ds == [] then s else Step(ProcessFrame(s, ds[..|ds| - 1]), ds[|ds| - 1])
  }

  /** Process a sequence of frames in order. */
  function ProcessFrames(s: Session, frames: seq<seq<Detection>>): (r: Session)
    requires WellFormed(s.heatmap)
    ensures WellFormed(r.heatmap)
    ensures |s.listEnter| <= |r.listEnter| && |s.listExit| <= |r.listExit|
    ensures s.enter.Keys <= r.enter.Keys && s.exit.Keys <= r.exit.Keys
    ensures s.trackPaths.Keys <= r.trackPaths.Keys
    decreases |frames|
  {
    if frames == [] then s
    else ProcessFrame(ProcessFrames(s, frames[..|frames| - 1]), frames[|frames| - 1])
  }

  /** All detections of a sequence of frames, in order. */
  function Flatten(frames: seq<seq<Detection>>): (r: seq<Detection>)
    decreases |frames|
  {
    if frames == [] then [] else Flatten(frames[..|frames| - 1]) + frames[|frames| - 1]
  }

  /** Process the tracker output of one admitted frame. */
  function ProcessTrackerOutput(s: Session, names: map<int, string>, out: TrackerOutput): (r: Session)
    requires WellFormed(s.heatmap)
    requires out.Tracked? ==> forall i :: 0 <= i < |out.classIds| && i < |out.boxes| && i < |out.trackIds| ==> out.classIds[i] in names
    ensures WellFormed(r.heatmap)
    ensures out.Untracked? ==> r == s
  {
    ProcessFrame(s, FrameDetections(names, out))
  }

  /** The frame loop, one detection at a time. */
  method RunFrame(s: Session, ds: seq<Detection>) returns (r: Session)
    requires WellFormed(s.heatmap)
    ensures r == ProcessFrame(s, ds)
    ensures Valid(s) ==> Valid(r)
  {
    r := s;
    var i := 0;
    while i < |ds|
      invariant 0 <= i <= |ds|
      invariant WellFormed(r.heatmap)
      invariant r == ProcessFrame(s, ds[..i])
    {
      assert ds[..i + 1][..i] == ds[..i];
      r := Step(r, ds[i]);
      i := i + 1;
    }
    assert ds[..i] == ds;
    if Valid(s) {
      ProcessFramePreservesValid(s, ds);
    }
  }

  // ---------------------------------------------------------------------
  // Invariants

  lemma InitialValid()
    ensures Valid(Initial())
  {
  }

  /** The step keeps every invariant of the session. */
  lemma StepPreservesValid(s: Session, d: Detection)
    requires Valid(s)
    ensures Valid(Step(s, d))
  {
    if IsPerson(d.className) {
      var r := Step(s, d);
      var a := Anchor(d.box);
      assert forall id :: id in r.enter ==> InZone(Area2, r.enter[id]) by {
        forall id | id in r.enter ensures InZone(Area2, r.enter[id]) {
          if id == d.id && InZone(Area2, a) {
            assert r.enter[id] == a;
          }
        }
      }
      assert forall id :: id in r.exit ==> InZone(Area1, r.exit[id]) by {
        forall id | id in r.exit ensures InZone(Area1, r.exit[id]) {
          if id == d.id && InZone(Area1, a) {
            assert r.exit[id] == a;
          }
        }
      }
      var t := TrailOf(s, d.id);
      assert |t| <= Trail.MaxLength;
      assert |r.trackPaths[d.id]| <= Trail.MaxLength;
    }
  }

  lemma {:induction false} ProcessFramePreservesValid(s: Session, ds: seq<Detection>)
    requires Valid(s)
    ensures Valid(ProcessFrame(s, ds))
    decreases |ds|
  {
    if ds != [] {
      ProcessFramePreservesValid(s, ds[..|ds| - 1]);
      StepPreservesValid(ProcessFrame(s, ds[..|ds| - 1]), ds[|ds| - 1]);
    }
  }

  lemma {:induction false} ProcessFramesPreservesValid(s: Session, frames: seq<seq<Detection>>)
    requires Valid(s)
    ensures Valid(ProcessFrames(s, frames))
    decreases |frames|
  {
    if frames != [] {
      ProcessFramesPreservesValid(s, frames[..|frames| - 1]);
      ProcessFramePreservesValid(ProcessFrames(s, frames[..|frames| - 1]), frames[|frames| - 1]);
    }
  }

  // ---------------------------------------------------------------------
  // One step

  /** A step for one id leaves every other id's entries untouched. */
  lemma StepLeavesOtherIds(s: Session, d: Detection, k: int)
    requires WellFormed(s.heatmap)
    requires k != d.id
    ensures var r := Step(s, d);
      && (k in r.enter <==> k in s.enter) && (k in s.enter ==> r.enter[k] == s.enter[k])
      && (k in r.exit <==> k in s.exit) && (k in s.exit ==> r.exit[k] == s.exit[k])
      && (k in r.trackPaths <==> k in s.trackPaths)
      && (k in s.trackPaths ==> r.trackPaths[k] == s.trackPaths[k])
      && (k in r.listEnter <==> k in s.listEnter)
      && (k in r.listExit <==> k in s.listExit)
  {
  }

  /**
   The enter count grows by at most one per step, only for the observed id,
   and only when the path qualified; an id already counted is not counted again.
   */
  lemma StepCountsOnce(s: Session, d: Detection)
    requires Valid(s)
    ensures var r := Step(s, d);
      && |r.listEnter| <= |s.listEnter| + 1
      && |r.listExit| <= |s.listExit| + 1
      && (|r.listEnter| == |s.listEnter| + 1 <==>
            IsPerson(d.className) && EnterPath(s, d).fired && d.id !in s.listEnter)
      && (|r.listExit| == |s.listExit| + 1 <==>
            IsPerson(d.className) && ExitPath(s, d).fired && d.id !in s.listExit)
      && (|r.listEnter| == |s.listEnter| + 1 ==> r.listEnter == s.listEnter + [d.id])
      && (|r.listExit| == |s.listExit| + 1 ==> r.listExit == s.listExit + [d.id])
  {
    var r := Step(s, d);
    if IsPerson(d.className) {
      var en := EnterPath(s, d);
      var ex := ExitPath(s, d);
      if |r.listEnter| == |s.listEnter| + 1 {
        assert r.listEnter[..|s.listEnter|] == s.listEnter;
        assert r.listEnter[|s.listEnter|] in r.listEnter;
        assert r.listEnter == s.listEnter + [r.listEnter[|s.listEnter|]];
      }
      if |r.listExit| == |s.listExit| + 1 {
        assert r.listExit[..|s.listExit|] == s.listExit;
        assert r.listExit[|s.listExit|] in r.listExit;
        assert r.listExit == s.listExit + [r.listExit[|s.listExit|]];
      }
    }
  }

  /**
   A step for a person detection moves the id's trail as a bounded FIFO:
   it keeps at most MaxLength points, ends with the new centroid, and drops
   the oldest point exactly when the trail was already full.
   */
  lemma StepTrail(s: Session, d: Detection)
    requires Valid(s)
    requires IsPerson(d.className)
    ensures var t := TrailOf(s, d.id);
            var t' := Step(s, d).trackPaths[d.id];
            var c := Centroid(d.box);
      && 0 < |t'| <= Trail.MaxLength
      && t'[|t'| - 1] == c
      && (|t| == Trail.MaxLength ==> t' == t[1..] + [c])
      && (|t| < Trail.MaxLength ==> t' == t + [c])
      && |Trail.Segments(t')| == |t'| - 1
  {
  }

  /**
   A person detection adds exactly one visit to the centroid's pixel when
   the centroid is on the frame, and leaves the grid alone otherwise.
   */
  lemma StepHeatmap(s: Session, d: Detection)
    requires WellFormed(s.heatmap)
    requires IsPerson(d.className)
    ensures var g := s.heatmap;
            var g' := Step(s, d).heatmap;
            var c := Centroid(d.box);
      && (InBounds(c) ==> g'[c.y][c.x] == g[c.y][c.x] + 1)
      && (forall y, x :: 0 <= y < Rows && 0 <= x < Cols && (y, x) != (c.y, c.x) ==> g'[y][x] == g[y][x])
      && (!InBounds(c) ==> g' == g)
  {
  }

  /** One step moves an id's trail only when the detection is a person observation of that id. */
  lemma StepTrailOf(s: Session, d: Detection, id: int)
    requires WellFormed(s.heatmap)
    ensures TrailOf(Step(s, d), id) ==
      if IsPerson(d.className) && d.id == id then Trail.Append(TrailOf(s, id), Centroid(d.box))
      else TrailOf(s, id)
  {
    if IsPerson(d.className) && d.id != id {
      StepLeavesOtherIds(s, d, id);
    }
  }

  /** An id whose anchor was never in Area2 is not counted as entering, wherever it is now. */
  lemma StepNeedsOuterZoneFirst(s: Session, d: Detection)
    requires Valid(s)
    requires d.id !in s.enter && !InZone(Area2, Anchor(d.box))
    ensures d.id !in Step(s, d).listEnter
    ensures d.id !in Step(s, d).enter
  {
  }

  // ---------------------------------------------------------------------
  // Folds

  /** A frame made of two parts is the second part processed after the first. */
  lemma {:induction false} ProcessFrameConcat(s: Session, a: seq<Detection>, b: seq<Detection>)
    requires WellFormed(s.heatmap)
    ensures ProcessFrame(s, a + b) == ProcessFrame(ProcessFrame(s, a), b)
    decreases |b|
  {
    if b == [] {
      assert a + b == a;
    } else {
      var b' := b[..|b| - 1];
      ProcessFrameConcat(s, a, b');
      assert (a + b)[..|a + b| - 1] == a + b';
      assert (a + b)[|a + b| - 1] == b[|b| - 1];
    }
  }

  /** Processing frame by frame is processing all their detections in one run. */
  lemma {:induction false} ProcessFramesIsFlatten(s: Session, frames: seq<seq<Detection>>)
    requires WellFormed(s.heatmap)
    ensures ProcessFrames(s, frames) == ProcessFrame(s, Flatten(frames))
    decreases |frames|
  {
    if frames != [] {
      var init := frames[..|frames| - 1];
      ProcessFramesIsFlatten(s, init);
      ProcessFrameConcat(s, Flatten(init), frames[|frames| - 1]);
    }
  }

  /** A frame with no person detection leaves the session unchanged. */
  lemma {:induction false} NoPersonNoChange(s: Session, ds: seq<Detection>)
    requires WellFormed(s.heatmap)
    requires forall i :: 0 <= i < |ds| ==> !IsPerson(ds[i].className)
    ensures ProcessFrame(s, ds) == s
    decreases |ds|
  {
    if ds != [] {
      NoPersonNoChange(s, ds[..|ds| - 1]);
    }
  }

  /**
   What a later session state keeps of an earlier one: ids are never
   forgotten, the counted lists are only appended to (so the totals never
   decrease and their order is kept), and no counter of the grid decreases.
   */
  predicate Extends(r: Session, s: Session)
    requires WellFormed(r.heatmap) && WellFormed(s.heatmap)
  {
    && s.enter.Keys <= r.enter.Keys
    && s.exit.Keys <= r.exit.Keys
    && s.trackPaths.Keys <= r.trackPaths.Keys
    && IsPrefix(s.listEnter, r.listEnter)
    && IsPrefix(s.listExit, r.listExit)
    && Dominates(r.heatmap, s.heatmap)
  }

  lemma ExtendsTransitive(a: Session, b: Session, c: Session)
    requires WellFormed(a.heatmap) && WellFormed(b.heatmap) && WellFormed(c.heatmap)
    requires Extends(a, b) && Extends(b, c)
    ensures Extends(a, c)
  {
    DominatesTransitive(a.heatmap, b.heatmap, c.heatmap);
    assert a.listEnter[..|c.listEnter|] == a.listEnter[..|b.listEnter|][..|c.listEnter|];
    assert a.listExit[..|c.listExit|] == a.listExit[..|b.listExit|][..|c.listExit|];
  }

  lemma {:induction false} ProcessFrameExtends(s: Session, ds: seq<Detection>)
    requires WellFormed(s.heatmap)
    ensures Extends(ProcessFrame(s, ds), s)
    decreases |ds|
  {
    if ds != [] {
      var mid := ProcessFrame(s, ds[..|ds| - 1]);
      ProcessFrameExtends(s, ds[..|ds| - 1]);
      ExtendsTransitive(Step(mid, ds[|ds| - 1]), mid, s);
    }
  }

  /** Over a session, the displayed totals never decrease from one frame to a later one. */
  lemma TotalsNeverDecrease(s: Session, earlier: seq<seq<Detection>>, later: seq<seq<Detection>>)
    requires WellFormed(s.heatmap)
    ensures var a := ProcessFrames(s, earlier);
            var b := ProcessFrames(s, earlier + later);
      && Totals(a).0 <= Totals(b).0
      && Totals(a).1 <= Totals(b).1
      && Extends(b, a)
  {
    ProcessFramesIsFlatten(s, earlier);
    ProcessFramesIsFlatten(s, earlier + later);
    FlattenConcat(earlier, later);
    ProcessFrameConcat(s, Flatten(earlier), Flatten(later));
    ProcessFrameExtends(ProcessFrame(s, Flatten(earlier)), Flatten(later));
  }

  lemma {:induction false} FlattenConcat(a: seq<seq<Detection>>, b: seq<seq<Detection>>)
    ensures Flatten(a + b) == Flatten(a) + Flatten(b)
    decreases |b|
  {
    if b == [] {
      assert a + b == a;
    } else {
      var b' := b[..|b| - 1];
      FlattenConcat(a, b');
      SnocSplit(a, b);
    }
  }

  /** Over a whole session each id is counted at most once as entering and at most once as exiting. */
  lemma SessionCountsOnce(frames: seq<seq<Detection>>, id: int)
    ensures Occurrences(ProcessFrames(Initial(), frames).listEnter, id) <= 1
    ensures Occurrences(ProcessFrames(Initial(), frames).listExit, id) <= 1
  {
    InitialValid();
    ProcessFramesPreservesValid(Initial(), frames);
    var r := ProcessFrames(Initial(), frames);
    NoDuplicatesOccurOnce(r.listEnter, id);
    NoDuplicatesOccurOnce(r.listExit, id);
  }

  lemma SnocSplit(a: seq<seq<Detection>>, b: seq<seq<Detection>>)
    requires b != []
    ensures (a + b)[..|a + b| - 1] == a + b[..|b| - 1]
    ensures (a + b)[|a + b| - 1] == b[|b| - 1]
  {
  }
}
