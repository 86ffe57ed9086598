/**
 What a whole run of observations does to the counts, stated against the
 history of observations rather than the session's internal maps: an id
 is counted as entering exactly when one of its anchors was in Area2 and
 the same or a later anchor was in Area1, and the displayed total is the
 number of such ids.
 */
module Traces {
  import opened Geometry
  import opened Zones
  import opened Detections
  import opened Crossing
  import opened Counting
  import Trail

  /** d is a counted (person) observation of id. */
  predicate Observes(d: Detection, id: int) {
    d.id == id && IsPerson(d.className)
  }

  /** Observation i of t is of id, with its anchor in zone z. */
  predicate SeenAt(t: seq<Detection>, i: nat, id: int, z: Zone)
    requires i < |t|
  {
    Observes(t[i], id) && InZone(z, Anchor(t[i].box))
  }

  /** Some observation of id in t has its anchor in z. */
  predicate SeenIn(t: seq<Detection>, id: int, z: Zone) {
    exists i :: 0 <= i < |t| && SeenAt(t, i, id, z)
  }

  /** Some observation of id in t has its anchor in second, and the same or an earlier one had it in first. */
  predicate Qualified(t: seq<Detection>, id: int, first: Zone, second: Zone) {
    exists j :: 0 <= j < |t| && SeenAt(t, j, id, second) && SeenIn(t[..j + 1], id, first)
  }

  /** The ids of all observations of t. */
  function Ids(t: seq<Detection>): set<int> {
    set i | 0 <= i < |t| :: t[i].id
  }

  /** The ids that qualified for the path from first to second. */
  function QualifiedIds(t: seq<Detection>, first: Zone, second: Zone): set<int> {
    set id | id in Ids(t) && Qualified(t, id, first, second)
  }

  // ---------------------------------------------------------------------
  // Histories extended by one observation

  lemma SeenAtPrefix(t: seq<Detection>, k: nat, i: nat, id: int, z: Zone)
    requires i < k <= |t|
    ensures SeenAt(t[..k], i, id, z) <==> SeenAt(t, i, id, z)
  {
  }

  lemma SeenInSnoc(t: seq<Detection>, id: int, z: Zone)
    requires t != []
    ensures SeenIn(t, id, z) <==> SeenIn(t[..|t| - 1], id, z) || SeenAt(t, |t| - 1, id, z)
  {
    var t' := t[..|t| - 1];
    if SeenIn(t, id, z) {
      var i :| 0 <= i < |t| && SeenAt(t, i, id, z);
      if i < |t| - 1 {
        SeenAtPrefix(t, |t| - 1, i, id, z);
      }
    }
    if SeenIn(t', id, z) {
      var i :| 0 <= i < |t'| && SeenAt(t', i, id, z);
      SeenAtPrefix(t, |t| - 1, i, id, z);
    }
  }

  /** Qualifying in a history whose last observation is dropped, or on that last observation. */
  lemma QualifiedSnoc(t: seq<Detection>, id: int, first: Zone, second: Zone)
    requires t != []
    ensures Qualified(t, id, first, second) <==>
      || Qualified(t[..|t| - 1], id, first, second)
      || (SeenAt(t, |t| - 1, id, second) && SeenIn(t, id, first))
  {
    if Qualified(t, id, first, second) {
      QualifiedSnocForward(t, id, first, second);
    }
    if Qualified(t[..|t| - 1], id, first, second) {
      QualifiedSnocBackward(t, id, first, second);
    }
    if SeenAt(t, |t| - 1, id, second) && SeenIn(t, id, first) {
      assert t[..|t|] == t;
    }
  }

  lemma QualifiedSnocForward(t: seq<Detection>, id: int, first: Zone, second: Zone)
    requires t != []
    requires Qualified(t, id, first, second)
    ensures || Qualified(t[..|t| - 1], id, first, second)
            || (SeenAt(t, |t| - 1, id, second) && SeenIn(t, id, first))
  {
    var n := |t|;
    var j :| 0 <= j < n && SeenAt(t, j, id, second) && SeenIn(t[..j + 1], id, first);
    if j < n - 1 {
      var t' := t[..n - 1];
      SeenAtPrefix(t, n - 1, j, id, second);
      assert t'[..j + 1] == t[..j + 1];
      assert SeenAt(t', j, id, second) && SeenIn(t'[..j + 1], id, first);
    } else {
      assert t[..n] == t;
    }
  }

  lemma QualifiedSnocBackward(t: seq<Detection>, id: int, first: Zone, second: Zone)
    requires t != []
    requires Qualified(t[..|t| - 1], id, first, second)
    ensures Qualified(t, id, first, second)
  {
    var n := |t|;
    var t' := t[..n - 1];
    var j :| 0 <= j < |t'| && SeenAt(t', j, id, second) && SeenIn(t'[..j + 1], id, first);
    SeenAtPrefix(t, n - 1, j, id, second);
    assert t'[..j + 1] == t[..j + 1];
    assert SeenAt(t, j, id, second) && SeenIn(t[..j + 1], id, first);
  }

  // ---------------------------------------------------------------------
  // The counts against the history

  /**
   From a fresh session, an id is remembered on the enter path exactly when
   one of its anchors was in Area2, and it is counted as entering exactly
   when it qualified: an anchor in Area2 and then (or at the same time) one
   in Area1.
   */
  lemma {:induction false} EnterHistory(t: seq<Detection>, id: int)
    ensures var r := ProcessFrame(Initial(), t);
      && (id in r.enter <==> SeenIn(t, id, Area2))
      && (id in r.listEnter <==> Qualified(t, id, Area2, Area1))
    decreases |t|
  {
    if t != [] {
      var t' := t[..|t| - 1];
      var d := t[|t| - 1];
      EnterHistory(t', id);
      SeenInSnoc(t, id, Area2);
      QualifiedSnoc(t, id, Area2, Area1);
      var r' := ProcessFrame(Initial(), t');
      if d.id != id {
        StepLeavesOtherIds(r', d, id);
      }
    }
  }

  /** The same for the exit path, with the zones swapped. */
  lemma {:induction false} ExitHistory(t: seq<Detection>, id: int)
    ensures var r := ProcessFrame(Initial(), t);
      && (id in r.exit <==> SeenIn(t, id, Area1))
      && (id in r.listExit <==> Qualified(t, id, Area1, Area2))
    decreases |t|
  {
    if t != [] {
      var t' := t[..|t| - 1];
      var d := t[|t| - 1];
      ExitHistory(t', id);
      SeenInSnoc(t, id, Area1);
      QualifiedSnoc(t, id, Area1, Area2);
      var r' := ProcessFrame(Initial(), t');
      if d.id != id {
        StepLeavesOtherIds(r', d, id);
      }
    }
  }

  /** Over a session of frames the history is all the frames' detections in order. */
  lemma SessionHistory(frames: seq<seq<Detection>>, id: int)
    ensures var r := ProcessFrames(Initial(), frames);
      && (id in r.enter <==> SeenIn(Flatten(frames), id, Area2))
      && (id in r.exit <==> SeenIn(Flatten(frames), id, Area1))
      && (id in r.listEnter <==> Qualified(Flatten(frames), id, Area2, Area1))
      && (id in r.listExit <==> Qualified(Flatten(frames), id, Area1, Area2))
  {
    ProcessFramesIsFlatten(Initial(), frames);
    EnterHistory(Flatten(frames), id);
    ExitHistory(Flatten(frames), id);
  }

  /** The centroids of id's person observations in t, in order. */
  function CentroidsOf(t: seq<Detection>, id: int): (cs: seq<Point>)
    ensures |cs| <= |t|
    decreases |t|
  {
    if t == [] then []
    else
      var d := t[|t| - 1];
      CentroidsOf(t[..|t| - 1], id) + (if Observes(d, id) then [Centroid(d.box)] else [])
  }

  /**
   From a fresh session, an id's trail is exactly the newest 50 centroids of
   its observations, oldest first; an id never observed has no trail.
   */
  lemma {:induction false} TrailHistory(t: seq<Detection>, id: int)
    ensures TrailOf(ProcessFrame(Initial(), t), id) == Trail.Newest(CentroidsOf(t, id))
    decreases |t|
  {
    if t != [] {
      var t' := t[..|t| - 1];
      var d := t[|t| - 1];
      TrailHistory(t', id);
      StepTrailOf(ProcessFrame(Initial(), t'), d, id);
      if Observes(d, id) {
        Trail.AppendNewest(CentroidsOf(t', id), Centroid(d.box));
      } else {
        assert CentroidsOf(t, id) == CentroidsOf(t', id) + [];
      }
    }
  }

  /** An id observed N + 5 times from a fresh session keeps only its last N centroids. */
  lemma TrailOverflowInSession(t: seq<Detection>, id: int)
    requires |CentroidsOf(t, id)| == Trail.MaxLength + 5
    ensures TrailOf(ProcessFrame(Initial(), t), id) == CentroidsOf(t, id)[5..]
  {
    TrailHistory(t, id);
  }

  /** An id whose anchor has never been in Area2 is never counted as entering, however long it stays in Area1. */
  lemma NeverOuterNeverEnters(t: seq<Detection>, id: int)
    requires !SeenIn(t, id, Area2)
    ensures id !in ProcessFrame(Initial(), t).listEnter
  {
    EnterHistory(t, id);
    if Qualified(t, id, Area2, Area1) {
      var j :| 0 <= j < |t| && SeenAt(t, j, id, Area1) && SeenIn(t[..j + 1], id, Area2);
      var i :| 0 <= i < j + 1 && SeenAt(t[..j + 1], i, id, Area2);
      SeenAtPrefix(t, j + 1, i, id, Area2);
    }
  }

  /** An id whose anchor has never been in Area1 is never counted as exiting. */
  lemma NeverInnerNeverExits(t: seq<Detection>, id: int)
    requires !SeenIn(t, id, Area1)
    ensures id !in ProcessFrame(Initial(), t).listExit
  {
    ExitHistory(t, id);
    if Qualified(t, id, Area1, Area2) {
      var j :| 0 <= j < |t| && SeenAt(t, j, id, Area2) && SeenIn(t[..j + 1], id, Area1);
      var i :| 0 <= i < j + 1 && SeenAt(t[..j + 1], i, id, Area1);
      SeenAtPrefix(t, j + 1, i, id, Area1);
    }
  }

  lemma QualifiedIsObserved(t: seq<Detection>, id: int, first: Zone, second: Zone)
    requires Qualified(t, id, first, second)
    ensures id in Ids(t)
  {
    var j :| 0 <= j < |t| && SeenAt(t, j, id, second) && SeenIn(t[..j + 1], id, first);
    assert t[j].id == id;
  }

  /**
   The displayed enter total of a fresh session equals the number of
   distinct ids that qualified as entering; likewise for exits. Re-entering
   the zones again and again therefore adds nothing once an id is counted.
   */
  lemma TotalsCountQualifiedIds(t: seq<Detection>)
    ensures var r := ProcessFrame(Initial(), t);
      && Totals(r).0 == |QualifiedIds(t, Area2, Area1)|
      && Totals(r).1 == |QualifiedIds(t, Area1, Area2)|
  {
    var r := ProcessFrame(Initial(), t);
    InitialValid();
    ProcessFramePreservesValid(Initial(), t);
    assert (set x | x in r.listEnter) == QualifiedIds(t, Area2, Area1) by {
      forall id ensures id in r.listEnter <==> id in QualifiedIds(t, Area2, Area1) {
        EnterHistory(t, id);
        if id in r.listEnter {
          QualifiedIsObserved(t, id, Area2, Area1);
        }
      }
    }
    assert (set x | x in r.listExit) == QualifiedIds(t, Area1, Area2) by {
      forall id ensures id in r.listExit <==> id in QualifiedIds(t, Area1, Area2) {
        ExitHistory(t, id);
        if id in r.listExit {
          QualifiedIsObserved(t, id, Area1, Area2);
        }
      }
    }
    NoDuplicatesCardinality(r.listEnter);
    NoDuplicatesCardinality(r.listExit);
  }

  // ---------------------------------------------------------------------
  // Worked scenarios

  /** A person box whose bottom-left corner is (x, y). */
  function PersonAt(id: int, x: int, y: int): Detection {
    Detection(Box(x, y - 100, x + 30, y), "person", id)
  }

  /**
   Track 7 seen first in Area2 and then in Area1 is counted once as
   entering, on its second observation, and not as exiting.
   */
  lemma EnterScenario()
    ensures var s1 := Step(Initial(), PersonAt(7, 270, 500));
            var s2 := Step(s1, PersonAt(7, 330, 500));
      && s1.listEnter == [] && s1.listExit == []
      && s2.listEnter == [7] && s2.listExit == []
      && Totals(s2) == (1, 0)
  {
    PersonLabels();
    OuterSample();
    InnerSample();
  }

  /** The reverse walk is counted once as exiting. */
  lemma ExitScenario()
    ensures var s1 := Step(Initial(), PersonAt(7, 330, 500));
            var s2 := Step(s1, PersonAt(7, 270, 500));
      && s1.listEnter == [] && s1.listExit == []
      && s2.listEnter == [] && s2.listExit == [7]
  {
    PersonLabels();
    OuterSample();
    InnerSample();
  }

  /**
   One observation on the edge the zones share is in both zones, so a fresh
   id is counted as entering and as exiting by that single step.
   */
  lemma SharedEdgeCountsBoth()
    ensures var s1 := Step(Initial(), PersonAt(9, 338, 518));
      && s1.listEnter == [9] && s1.listExit == [9]
      && Highlighted(Initial(), PersonAt(9, 338, 518))
  {
    PersonLabels();
    SharedMidpointInBothZones();
  }
}
