/**
 The two fixed counting zones. Area1 is the inner zone and Area2 the outer
 one: an enter is an anchor seen in Area2 and later in Area1, an exit the
 reverse. The two quadrilaterals share the edge from (466, 589) to
 (210, 447), so a point on that edge is contained in both.
 */
module Zones {
  import opened Geometry

  const Area1: Zone := [Point(251, 445), Point(516, 575), Point(466, 589), Point(210, 447)]
  const Area2: Zone := [Point(466, 589), Point(210, 447), Point(167, 460), Point(386, 595)]

  /** The endpoints of the edge the zones share. */
  const SharedA: Point := Point(466, 589)
  const SharedB: Point := Point(210, 447)

  /** Any point of the shared edge is contained in both zones. */
  lemma SharedEdgeInBothZones(p: Point)
    requires OnSegment(SharedA, SharedB, p)
    ensures InZone(Area1, p) && InZone(Area2, p)
  {
    assert OnEdge(Area1, 2, p);
    assert OnEdge(Area2, 0, p);
    InZoneSpec(Area1, p);
    InZoneSpec(Area2, p);
  }

  /** The midpoint of the shared edge is one such point. */
  lemma SharedMidpointInBothZones()
    ensures InZone(Area1, Point(338, 518)) && InZone(Area2, Point(338, 518))
  {
    SharedEdgeInBothZones(Point(338, 518));
  }

  /** A point strictly inside Area2 that is outside Area1. */
  lemma OuterSample()
    ensures InZone(Area2, Point(270, 500)) && !InZone(Area1, Point(270, 500))
  {
    OuterSampleInArea2();
    OuterSampleOutsideArea1();
  }

  lemma OuterSampleInArea2()
    ensures InZone(Area2, Point(270, 500))
  {
    var p := Point(270, 500);
    assert OnBoundaryFrom(Area2, p, 0) == false;
    assert CrossingsFrom(Area2, p, 0) == 1;
  }

  lemma OuterSampleOutsideArea1()
    ensures !InZone(Area1, Point(270, 500))
  {
    var p := Point(270, 500);
    assert OnBoundaryFrom(Area1, p, 0) == false;
    assert CrossingsFrom(Area1, p, 0) == 2;
  }

  /** A point strictly inside Area1 that is outside Area2. */
  lemma InnerSample()
    ensures InZone(Area1, Point(330, 500)) && !InZone(Area2, Point(330, 500))
  {
    InnerSampleInArea1();
    InnerSampleOutsideArea2();
  }

  lemma InnerSampleInArea1()
    ensures InZone(Area1, Point(330, 500))
  {
    var p := Point(330, 500);
    assert OnBoundaryFrom(Area1, p, 0) == false;
    assert CrossingsFrom(Area1, p, 0) == 1;
  }

  lemma InnerSampleOutsideArea2()
    ensures !InZone(Area2, Point(330, 500))
  {
    var p := Point(330, 500);
    assert OnBoundaryFrom(Area2, p, 0) == false;
    assert CrossingsFrom(Area2, p, 0) == 0;
  }

  /** A point outside both zones. */
  lemma OutsideSample()
    ensures !InZone(Area1, Point(300, 450)) && !InZone(Area2, Point(300, 450))
  {
    OutsideSampleArea1();
    OutsideSampleArea2();
  }

  lemma OutsideSampleArea1()
    ensures !InZone(Area1, Point(300, 450))
  {
    var p := Point(300, 450);
    assert OnBoundaryFrom(Area1, p, 0) == false;
    assert CrossingsFrom(Area1, p, 0) == 0;
  }

  lemma OutsideSampleArea2()
    ensures !InZone(Area2, Point(300, 450))
  {
    var p := Point(300, 450);
    assert OnBoundaryFrom(Area2, p, 0) == false;
    assert CrossingsFrom(Area2, p, 0) == 0;
  }
}
