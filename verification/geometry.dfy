/**
 Integer point-in-polygon containment for the counting zones.

 The counter asks whether a point lies in a zone and treats a point on the
 zone's outline as contained (a containment test result `>= 0`). All
 coordinates are integers, so the test is exact: a point is on the outline
 when it is collinear with an edge and within that edge's bounding box, and
 strictly inside when a ray from it towards +x crosses the outline an odd
 number of times (crossing number, with each edge half-open in y so that a
 ray through a vertex is counted once).
 */
module Geometry {

  datatype Point = Point(x: int, y: int)

  /** A polygon given by its vertices in order; the last vertex joins the first. */
  type Zone = seq<Point>

  function Min(a: int, b: int): int { if a <= b then a else b }
  function Max(a: int, b: int): int { if a <= b then b else a }

  /** Twice the signed area of the triangle a, b, p: zero exactly when the three are collinear. */
  function Cross(a: Point, b: Point, p: Point): int {
    (b.x - a.x) * (p.y - a.y) - (b.y - a.y) * (p.x - a.x)
  }

  /** p lies on the closed segment from a to b. */
  predicate OnSegment(a: Point, b: Point, p: Point) {
    && Cross(a, b, p) == 0
    && Min(a.x, b.x) <= p.x <= Max(a.x, b.x)
    && Min(a.y, b.y) <= p.y <= Max(a.y, b.y)
  }

  /** The ray from p towards +x meets the segment from a to b, which is taken half-open in y. */
  predicate RayCrosses(a: Point, b: Point, p: Point) {
    && (a.y > p.y) != (b.y > p.y)
    && (if b.y > a.y then Cross(a, b, p) > 0 else Cross(a, b, p) < 0)
  }

  /** Edge i joins vertex i to vertex i + 1, wrapping round to vertex 0. */
  function EdgeEnd(z: Zone, i: nat): Point
    requires i < |z|
  {
    z[(i + 1) % |z|]
  }

  predicate OnEdge(z: Zone, i: nat, p: Point)
    requires i < |z|
  {
    OnSegment(z[i], EdgeEnd(z, i), p)
  }

  predicate CrossesEdge(z: Zone, i: nat, p: Point)
    requires i < |z|
  {
    RayCrosses(z[i], EdgeEnd(z, i), p)
  }

  /** p lies on one of the edges i, i + 1, ... of z. */
  function OnBoundaryFrom(z: Zone, p: Point, i: nat): bool
    requires i <= |z|
    decreases |z| - i
  {
    if i == |z| then false
    else OnEdge(z, i, p) || OnBoundaryFrom(z, p, i + 1)
  }

  lemma {:induction false} OnBoundaryFromSpec(z: Zone, p: Point, i: nat)
    requires i <= |z|
    ensures OnBoundaryFrom(z, p, i) <==> exists k :: i <= k < |z| && OnEdge(z, k, p)
    decreases |z| - i
  {
    if i < |z| {
      OnBoundaryFromSpec(z, p, i + 1);
    }
  }

  /** The number of edges among i, i + 1, ... of z that the ray from p crosses. */
  function CrossingsFrom(z: Zone, p: Point, i: nat): nat
    requires i <= |z|
    decreases |z| - i
  {
    if i == |z| then 0
    else (if CrossesEdge(z, i, p) then 1 else 0) + CrossingsFrom(z, p, i + 1)
  }

  lemma {:induction false} CrossingsFromSpec(z: Zone, p: Point, i: nat)
    requires i <= |z|
    ensures CrossingsFrom(z, p, i) <= |z| - i
    ensures CrossingsFrom(z, p, i) == 0 <==> forall k :: i <= k < |z| ==> !CrossesEdge(z, k, p)
    decreases |z| - i
  {
    if i < |z| {
      CrossingsFromSpec(z, p, i + 1);
    }
  }

  predicate OnBoundary(z: Zone, p: Point) {
    OnBoundaryFrom(z, p, 0)
  }

  /**
   The containment test: true for points on the outline and for points whose
   ray crosses the outline an odd number of times.
   */
  function InZone(z: Zone, p: Point): (r: bool)
    ensures OnBoundary(z, p) ==> r
    ensures |z| == 0 ==> !r
  {
    OnBoundary(z, p) || CrossingsFrom(z, p, 0) % 2 == 1
  }

  /**
   Points on the outline are contained; a contained point off the outline
   has an edge its ray crosses; an empty zone contains nothing.
   */
  lemma InZoneSpec(z: Zone, p: Point)
    ensures (exists k :: 0 <= k < |z| && OnEdge(z, k, p)) ==> InZone(z, p)
    ensures InZone(z, p) && !OnBoundary(z, p) ==> exists k :: 0 <= k < |z| && CrossesEdge(z, k, p)
    ensures |z| == 0 ==> !InZone(z, p)
  {
    OnBoundaryFromSpec(z, p, 0);
    CrossingsFromSpec(z, p, 0);
  }

  /** Every vertex of a zone is contained in it. */
  lemma VertexInZone(z: Zone, i: nat)
    requires i < |z|
    ensures InZone(z, z[i])
  {
    assert Cross(z[i], EdgeEnd(z, i), z[i]) == 0;
    assert OnEdge(z, i, z[i]);
    InZoneSpec(z, z[i]);
  }
}
