/**
 The one-way zone-crossing state machine. The enter path and the exit path
 are two instances of it with the zones swapped: an id is remembered once
 its anchor is seen in the first zone, and it is counted, once, when its
 anchor is then seen in the second zone.
 */
module Crossing {
  import opened Geometry

  /** How many times x occurs in s (a list's `count`). */
  function Occurrences(s: seq<int>, x: int): (n: nat)
    ensures n <= |s|
    ensures n == 0 <==> x !in s
  {
    if s == [] then 0
    else (if s[|s| - 1] == x then 1 else 0) + Occurrences(s[..|s| - 1], x)
  }

  predicate NoDuplicates(s: seq<int>) {
    forall i, j :: 0 <= i < j < |s| ==> s[i] != s[j]
  }

  /** A list without duplicates holds each id at most once. */
  lemma {:induction false} NoDuplicatesOccurOnce(s: seq<int>, x: int)
    requires NoDuplicates(s)
    ensures Occurrences(s, x) <= 1
  {
    if s != [] {
      var init := s[..|s| - 1];
      assert NoDuplicates(init);
      NoDuplicatesOccurOnce(init, x);
      if s[|s| - 1] == x {
        assert x !in init by {
          forall i | 0 <= i < |init| ensures init[i] != x {
            assert s[i] != s[|s| - 1];
          }
        }
      }
    }
  }

  /** A list without duplicates has as many elements as its set of elements. */
  lemma {:induction false} NoDuplicatesCardinality(s: seq<int>)
    requires NoDuplicates(s)
    ensures |set x | x in s| == |s|
  {
    if s != [] {
      var init := s[..|s| - 1];
      var last := s[|s| - 1];
      assert NoDuplicates(init);
      NoDuplicatesCardinality(init);
      assert last !in init by {
        forall i | 0 <= i < |init| ensures init[i] != last {
          assert s[i] != s[|s| - 1];
        }
      }
      assert (set x | x in s) == (set x | x in init) + {last};
    }
  }

  /**
   The state of one path after an observation: the ids seen in the first
   zone with the last anchor seen there, the ids counted so far in the
   order they were counted, and whether this observation qualified (the
   source then highlights the box).
   */
  datatype Outcome = Outcome(seen: map<int, Point>, counted: seq<int>, fired: bool)

  /** s is a prefix of t: t only extends s. */
  predicate IsPrefix(s: seq<int>, t: seq<int>) {
    |s| <= |t| && t[..|s|] == s
  }

  /** One observation of id with anchor p, on the path from zone first to zone second. */
  function Observe(seen: map<int, Point>, counted: seq<int>, id: int, p: Point, first: Zone, second: Zone): (r: Outcome)
    ensures id in r.seen <==> id in seen || InZone(first, p)
    ensures id in r.seen ==> r.seen[id] == (if InZone(first, p) then p else seen[id])
    ensures forall k :: k != id ==> (k in r.seen <==> k in seen)
    ensures forall k :: k != id && k in seen ==> r.seen[k] == seen[k]
    ensures r.fired <==> (id in seen || InZone(first, p)) && InZone(second, p)
    ensures forall k :: k in r.counted <==> k in counted || (k == id && r.fired)
    ensures IsPrefix(counted, r.counted) && |r.counted| <= |counted| + 1
    ensures NoDuplicates(counted) ==> NoDuplicates(r.counted)
  {
    var seen' := if InZone(first, p) then seen[id := p] else seen;
    var fired := id in seen' && InZone(second, p);
    var counted' := if fired && Occurrences(counted, id) == 0 then counted + [id] else counted;
    Outcome(seen', counted', fired)
  }
}
