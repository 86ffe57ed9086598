/**
 One frame's output of the external detector/tracker, and the points the
 counter derives from each box.
 */
module Detections {
  import opened Geometry

  /** Integer box corners: (x1, y1) top-left, (x2, y2) bottom-right, in frame pixels. */
  datatype Box = Box(x1: int, y1: int, x2: int, y2: int)

  /** One tracked observation: its box, its class name and its track id. */
  datatype Detection = Detection(box: Box, className: string, id: int)

  /**
   What the tracker hands over for a frame: nothing when it produced no boxes
   or no track ids, otherwise three parallel lists.
   */
  datatype TrackerOutput =
    | Untracked
    | Tracked(boxes: seq<Box>, classIds: seq<int>, trackIds: seq<int>)

  /**
   The zone tests use the bottom-left corner of the box: for a box that is
   not inverted, it lies left of and below (larger y than) the centroid.
   */
  function Anchor(b: Box): (a: Point)
    ensures b.x1 <= b.x2 && b.y1 <= b.y2 ==> a.x <= Centroid(b).x && a.y >= Centroid(b).y
  {
    Point(b.x1, b.y2)
  }

  /** The centre of the box, each coordinate rounded towards negative infinity. */
  function Centroid(b: Box): (c: Point)
    ensures 2 * c.x <= b.x1 + b.x2 < 2 * c.x + 2
    ensures 2 * c.y <= b.y1 + b.y2 < 2 * c.y + 2
    ensures b.x1 <= b.x2 ==> b.x1 <= c.x <= b.x2
    ensures b.y1 <= b.y2 ==> b.y1 <= c.y <= b.y2
  {
    Point((b.x1 + b.x2) / 2, (b.y1 + b.y2) / 2)
  }

  /** t occurs in s starting at position k. */
  predicate MatchesAt(s: string, t: string, k: nat) {
    k + |t| <= |s| && s[k..k + |t|] == t
  }

  /** t occurs in s at some position i or later. */
  function OccursFrom(s: string, t: string, i: nat): (r: bool)
    ensures r <==> exists k: nat :: i <= k && MatchesAt(s, t, k)
    decreases |s| - i
  {
    if i + |t| > |s| then false
    else MatchesAt(s, t, i) || OccursFrom(s, t, i + 1)
  }

  /** Substring test on class names. */
  function Contains(s: string, t: string): (r: bool)
    ensures r <==> exists k: nat :: MatchesAt(s, t, k)
  {
    OccursFrom(s, t, 0)
  }

  /** Only detections whose class name contains "person" are counted. */
  function IsPerson(className: string): (r: bool)
    ensures r <==> exists k: nat :: MatchesAt(className, "person", k)
  {
    Contains(className, "person")
  }

  /**
   Pairs the tracker's parallel lists up, stopping at the shortest, and looks
   each class id up in the detector's class-name table.
   */
  function FrameDetections(names: map<int, string>, out: TrackerOutput): (r: seq<Detection>)
    requires out.Tracked? ==> forall i :: 0 <= i < |out.classIds| && i < |out.boxes| && i < |out.trackIds| ==> out.classIds[i] in names
    ensures out.Untracked? ==> r == []
    ensures out.Tracked? ==>
      && |r| == Min(|out.boxes|, Min(|out.classIds|, |out.trackIds|))
      && forall i :: 0 <= i < |r| ==>
           r[i] == Detection(out.boxes[i], names[out.classIds[i]], out.trackIds[i])
  {
    match out
    case Untracked => []
    case Tracked(boxes, classIds, trackIds) =>
      var n := Min(|boxes|, Min(|classIds|, |trackIds|));
      seq(n, i requires 0 <= i < n => Detection(boxes[i], names[classIds[i]], trackIds[i]))
  }

  lemma PersonLabels()
    ensures IsPerson("person")
    ensures !IsPerson("car")
  {
    assert MatchesAt("person", "person", 0);
  }
}
