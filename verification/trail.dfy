/**
 The bounded trajectory kept per track id: the newest centroids, at most
 MaxLength of them, oldest first. Appending to a full trail evicts the
 oldest point.
 */
module Trail {
  import opened Geometry

  const MaxLength: nat := 50

  /** The newest MaxLength points of s (all of s when it is short enough). */
  function Newest(s: seq<Point>): (r: seq<Point>)
    ensures |r| == Min(|s|, MaxLength)
    ensures r == s[|s| - |r|..]
  {
    if |s| <= MaxLength then s else s[|s| - MaxLength..]
  }

  /** Append a centroid, then drop the first point if the trail grew beyond MaxLength. */
  function Append(trail: seq<Point>, c: Point): (r: seq<Point>)
    ensures |r| > 0 && r[|r| - 1] == c
    ensures |trail| < MaxLength ==> r == trail + [c]
    ensures |trail| >= MaxLength ==> r == trail[1..] + [c]
    ensures |trail| <= MaxLength ==> r == Newest(trail + [c])
  {
    var t := trail + [c];
    if |t| > MaxLength then t[1..] else t
  }

  /** Append a sequence of centroids in order. */
  function AppendAll(trail: seq<Point>, cs: seq<Point>): seq<Point>
    decreases |cs|
  {
    if cs == [] then trail else Append(AppendAll(trail, cs[..|cs| - 1]), cs[|cs| - 1])
  }

  /** Newest of a sequence extended by one point is Newest of the newest part extended by it. */
  lemma NewestSnoc(s: seq<Point>, c: Point)
    ensures Newest(Newest(s) + [c]) == Newest(s + [c])
  {
    if |s| >= MaxLength {
      var k := |s| - MaxLength;
      assert Newest(s) == s[k..];
      assert (s[k..] + [c])[1..] == s[k + 1..] + [c];
      assert (s + [c])[k + 1..] == s[k + 1..] + [c];
    }
  }

  lemma ConcatSnoc(s: seq<Point>, t: seq<Point>)
    requires t != []
    ensures s + t == (s + t[..|t| - 1]) + [t[|t| - 1]]
  {
    assert t == t[..|t| - 1] + [t[|t| - 1]];
  }

  /** Appending to the newest part of s gives the newest part of s extended. */
  lemma AppendNewest(s: seq<Point>, c: Point)
    ensures Append(Newest(s), c) == Newest(s + [c])
  {
    NewestSnoc(s, c);
  }

  /**
   However many centroids are appended to a trail that respects the bound,
   the result is exactly the newest MaxLength points, in insertion order.
   */
  lemma {:induction false} AppendAllKeepsNewest(trail: seq<Point>, cs: seq<Point>)
    requires |trail| <= MaxLength
    ensures AppendAll(trail, cs) == Newest(trail + cs)
    decreases |cs|
  {
    if cs == [] {
      assert trail + cs == trail;
    } else {
      var init := cs[..|cs| - 1];
      var c := cs[|cs| - 1];
      AppendAllKeepsNewest(trail, init);
      AppendNewest(trail + init, c);
      ConcatSnoc(trail, cs);
    }
  }

  /** Starting from no trail, N + 5 appends keep the last N centroids: the oldest five are dropped. */
  lemma OverflowKeepsLast(cs: seq<Point>)
    requires |cs| == MaxLength + 5
    ensures AppendAll([], cs) == cs[5..]
  {
    AppendAllKeepsNewest([], cs);
    EmptyConcat(cs);
  }

  lemma EmptyConcat(s: seq<Point>)
    ensures [] + s == s
  {
  }

  /** The line segments drawn for a trail: one per pair of consecutive points. */
  function Segments(trail: seq<Point>): (r: seq<(Point, Point)>)
    ensures |r| == Max(0, |trail| - 1)
    ensures forall j :: 0 <= j < |r| ==> r[j] == (trail[j], trail[j + 1])
  {
    if |trail| < 2 then []
    else seq(|trail| - 1, j requires 0 <= j < |trail| - 1 => (trail[j], trail[j + 1]))
  }
}
