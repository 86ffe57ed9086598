/**
 The density grid: one visit counter per pixel of the 1020 x 600 working
 frame, indexed row (y) first. Recording a centroid bumps its pixel's
 counter; centroids off the frame are ignored.
 */
module Heatmap {
  import opened Geometry

  const Rows: nat := 600
  const Cols: nat := 1020

  type Grid = seq<seq<nat>>

  predicate WellFormed(g: Grid) {
    |g| == Rows && forall y :: 0 <= y < |g| ==> |g[y]| == Cols
  }

  predicate InBounds(p: Point) {
    0 <= p.y < Rows && 0 <= p.x < Cols
  }

  /** The grid the session starts from. */
  function Empty(): (g: Grid)
    ensures WellFormed(g)
    ensures forall y, x :: 0 <= y < Rows && 0 <= x < Cols ==> g[y][x] == 0
  {
    seq(Rows, _ => seq(Cols, _ => 0))
  }

  /** Every counter of g is at least the corresponding counter of h. */
  predicate Dominates(g: Grid, h: Grid)
    requires WellFormed(g) && WellFormed(h)
  {
    forall y, x :: 0 <= y < Rows && 0 <= x < Cols ==> g[y][x] >= h[y][x]
  }

  /** Count one visit of the centroid c. */
  function Record(g: Grid, c: Point): (r: Grid)
    requires WellFormed(g)
    ensures WellFormed(r)
    ensures InBounds(c) ==> r[c.y][c.x] == g[c.y][c.x] + 1
    ensures forall y, x :: 0 <= y < Rows && 0 <= x < Cols && (y, x) != (c.y, c.x) ==> r[y][x] == g[y][x]
    ensures !InBounds(c) ==> r == g
    ensures Dominates(r, g)
  {
    if InBounds(c) then g[c.y := g[c.y][c.x := g[c.y][c.x] + 1]] else g
  }

  lemma DominatesTransitive(a: Grid, b: Grid, c: Grid)
    requires WellFormed(a) && WellFormed(b) && WellFormed(c)
    requires Dominates(a, b) && Dominates(b, c)
    ensures Dominates(a, c)
  {
  }
}
