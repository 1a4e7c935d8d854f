/**
 * The crossing evaluator (crossing.py): each current detection is associated
 * with the nearest detection of the previous frame, and a crossing is reported
 * when some associated pair moved from strictly left of the trigger line to
 * at-or-right of it.
 *
 * Centroids `x + w/2` are kept exact by doubling them (`2x + w`), and the
 * Euclidean distance is replaced by the squared distance on doubled
 * coordinates, which orders pairs of boxes exactly as the distance does.
 */
module Crossing {
  import opened Wrappers

  /** A bounding box `(x, y, w, h)` as the detector reports it. */
  datatype Box = Box(x: int, y: int, w: int, h: int)

  /** Twice the x coordinate of the centroid. */
  function CenterX2(b: Box): int { 2 * b.x + b.w }

  /** Twice the y coordinate of the centroid. */
  function CenterY2(b: Box): int { 2 * b.y + b.h }

  /** Four times the squared Euclidean distance between two centroids. */
  function Dist2(a: Box, b: Box): nat
  {
    var dx := CenterX2(a) - CenterX2(b);
    var dy := CenterY2(a) - CenterY2(b);
    dx * dx + dy * dy
  }

  /**
   * k is the index of the nearest box of `prev` to `c`, and the first one in
   * list order among those at that distance.
   */
  ghost predicate IsFirstNearest(c: Box, prev: seq<Box>, k: nat)
  {
    && k < |prev|
    && (forall j :: 0 <= j < |prev| ==> Dist2(c, prev[k]) <= Dist2(c, prev[j]))
    && (forall j :: 0 <= j < k ==> Dist2(c, prev[k]) < Dist2(c, prev[j]))
  }

  /** At most one index is the first nearest: the association is deterministic. */
  lemma FirstNearestUnique(c: Box, prev: seq<Box>, k1: nat, k2: nat)
    requires IsFirstNearest(c, prev, k1) && IsFirstNearest(c, prev, k2)
    ensures k1 == k2
  {
    assert Dist2(c, prev[k1]) == Dist2(c, prev[k2]);
  }

  /** The association of the scan: a later box replaces the best so far only when strictly closer. */
  function Nearest(c: Box, prev: seq<Box>): (k: nat)
    requires |prev| > 0
    ensures IsFirstNearest(c, prev, k)
  {
    if |prev| == 1 then 0
    else
      var k := Nearest(c, prev[..|prev| - 1]);
      if Dist2(c, prev[|prev| - 1]) < Dist2(c, prev[k]) then |prev| - 1 else k
  }

  /** Python truthiness of the optional previous centroid: neither None nor zero. */
  predicate Truthy(x: Option<int>)
  {
    x.Some? && x.value != 0
  }

  /**
   * The test applied to one associated pair, on doubled coordinates: the
   * previous centroid is non-zero and strictly left of the line, the current
   * one at or right of it.
   */
  predicate PairCrosses(p: Box, c: Box, lineX: int)
    ensures PairCrosses(p, c, lineX) ==> CenterX2(p) != 0 && CenterX2(p) < CenterX2(c)
  {
    Truthy(Some(CenterX2(p))) && CenterX2(p) < 2 * lineX <= CenterX2(c)
  }

  /** Some current box crosses together with its nearest previous box. */
  predicate Crosses(current: seq<Box>, previous: seq<Box>, lineX: int)
    ensures Crosses(current, previous, lineX) ==>
      exists i, j :: 0 <= i < |current| && 0 <= j < |previous| && PairCrosses(previous[j], current[i], lineX)
  {
    && |previous| > 0
    && exists i :: 0 <= i < |current| && PairCrosses(previous[Nearest(current[i], previous)], current[i], lineX)
  }

  /**
   * The inner loop of check_crossing: twice the centroid x of the nearest
   * previous box, None when there is no previous box.
   */
  method NearestCenterX(curr: Box, previous: seq<Box>) returns (prevCenterX2: Option<int>)
    ensures |previous| == 0 ==> prevCenterX2.None?
    ensures |previous| > 0 ==> prevCenterX2 == Some(CenterX2(previous[Nearest(curr, previous)]))
  {
    // None plays the part of float('inf'); the centroid's y coordinate is
    // never read afterwards, so it is not kept.
    var minDist: Option<nat> := None;
    prevCenterX2 := None;
    ghost var best: nat := 0;
    for j := 0 to |previous|
      invariant j == 0 ==> minDist.None? && prevCenterX2.None?
      invariant j > 0 ==> && IsFirstNearest(curr, previous[..j], best)
                          && minDist == Some(Dist2(curr, previous[best]))
                          && prevCenterX2 == Some(CenterX2(previous[best]))
    {
      var p := previous[j];
      var dist := Dist2(curr, p);
      if minDist.None? || dist < minDist.value {
        minDist := Some(dist);
        prevCenterX2 := Some(CenterX2(p));
        best := j;
      }
    }
    if |previous| > 0 {
      assert previous[..|previous|] == previous;
      FirstNearestUnique(curr, previous, best, Nearest(curr, previous));
    }
  }

  /** check_crossing: test every current box against its nearest previous box, with no early exit. */
  method CheckCrossing(current: seq<Box>, previous: seq<Box>, lineX: int) returns (crossings: bool)
    ensures crossings == Crosses(current, previous, lineX)
    ensures |previous| == 0 ==> !crossings
    ensures |current| == 0 ==> !crossings
  {
    if |previous| == 0 {
      return false;
    }
    crossings := false;
    for i := 0 to |current|
      invariant crossings <==>
        exists j :: 0 <= j < i && PairCrosses(previous[Nearest(current[j], previous)], current[j], lineX)
    {
      var curr := current[i];
      var currCenterX2 := CenterX2(curr);
      var prevCenterX2 := NearestCenterX(curr, previous);
      if Truthy(prevCenterX2) && prevCenterX2.value < 2 * lineX <= currCenterX2 {
        crossings := true;
      }
    }
  }

  /** Nothing crosses when every previous centroid is at or right of the line. */
  lemma NoCrossingFromTheRight(current: seq<Box>, previous: seq<Box>, lineX: int)
    requires forall j :: 0 <= j < |previous| ==> CenterX2(previous[j]) >= 2 * lineX
    ensures !Crosses(current, previous, lineX)
  {
  }

  /** Nothing crosses when every current centroid is left of the line. */
  lemma NoCrossingToTheLeft(current: seq<Box>, previous: seq<Box>, lineX: int)
    requires forall i :: 0 <= i < |current| ==> CenterX2(current[i]) < 2 * lineX
    ensures !Crosses(current, previous, lineX)
  {
  }

  lemma CrossingWitnessMoves(current: seq<Box>, reordered: seq<Box>, previous: seq<Box>, lineX: int)
    requires multiset(current) == multiset(reordered)
    requires Crosses(current, previous, lineX)
    ensures Crosses(reordered, previous, lineX)
  {
    var i :| 0 <= i < |current| && PairCrosses(previous[Nearest(current[i], previous)], current[i], lineX);
    assert current[i] in multiset(reordered);
    var j :| 0 <= j < |reordered| && reordered[j] == current[i];
  }

  /** The result is an OR over the current boxes, so their order does not matter. */
  lemma CrossingIgnoresCurrentOrder(current: seq<Box>, reordered: seq<Box>, previous: seq<Box>, lineX: int)
    requires multiset(current) == multiset(reordered)
    ensures Crosses(current, previous, lineX) == Crosses(reordered, previous, lineX)
  {
    if Crosses(current, previous, lineX) {
      CrossingWitnessMoves(current, reordered, previous, lineX);
    }
    if Crosses(reordered, previous, lineX) {
      CrossingWitnessMoves(reordered, current, previous, lineX);
    }
  }

  /**
   * A box whose centroid is at x = 0 is falsy in the source's test: here the
   * pair moves from x = 0 to x = 110 across the line at 50 and no crossing is
   * reported.
   */
  lemma ZeroCentroidNeverCrosses()
    ensures CenterX2(Box(-10, 0, 20, 20)) == 0
    ensures !Crosses([Box(100, 0, 20, 20)], [Box(-10, 0, 20, 20)], 50)
  {
  }

  /** A box as the detector produces it: non-negative corner, positive size. */
  predicate DetectorBox(b: Box)
  {
    b.x >= 0 && b.y >= 0 && b.w > 0 && b.h > 0
  }

  /**
   * For previous boxes from the detector the truthiness test never fails, so
   * the result is the plain geometric left-to-right crossing.
   */
  lemma DetectorBoxesCrossGeometrically(current: seq<Box>, previous: seq<Box>, lineX: int)
    requires forall j :: 0 <= j < |previous| ==> DetectorBox(previous[j])
    ensures Crosses(current, previous, lineX) <==>
      && |previous| > 0
      && exists i :: 0 <= i < |current| &&
           CenterX2(previous[Nearest(current[i], previous)]) < 2 * lineX <= CenterX2(current[i])
  {
    if |previous| > 0 {
      forall i | 0 <= i < |current|
        ensures PairCrosses(previous[Nearest(current[i], previous)], current[i], lineX) <==>
                CenterX2(previous[Nearest(current[i], previous)]) < 2 * lineX <= CenterX2(current[i])
      {
        assert DetectorBox(previous[Nearest(current[i], previous)]);
      }
    }
  }

  /**
   * Centroids 110 and 211: with the line at 150 the pair crosses, with the
   * line at 250 it does not.
   */
  lemma WorkedExample()
    ensures Crosses([Box(200, 52, 22, 18)], [Box(100, 50, 20, 20)], 150)
    ensures !Crosses([Box(200, 52, 22, 18)], [Box(100, 50, 20, 20)], 250)
  {
    var current, previous := [Box(200, 52, 22, 18)], [Box(100, 50, 20, 20)];
    assert Nearest(current[0], previous) == 0;
    assert PairCrosses(previous[0], current[0], 150);
  }

  /** Between two previous boxes at the same distance, the first in list order is chosen. */
  lemma TieGoesToFirst(c: Box, a: Box, b: Box)
    requires Dist2(c, a) == Dist2(c, b)
    ensures Nearest(c, [a, b]) == 0
  {
    var ab := [a, b];
    assert Dist2(c, ab[0]) == Dist2(c, ab[1]);
  }

  /**
   * So the order of the previous boxes matters: when `c` is equidistant from
   * `a`, which crosses with it, and `b`, which does not, the result follows
   * whichever of the two comes first.
   */
  lemma PreviousOrderDecidesTies(c: Box, a: Box, b: Box, lineX: int)
    requires Dist2(c, a) == Dist2(c, b)
    requires PairCrosses(a, c, lineX) && !PairCrosses(b, c, lineX)
    ensures Crosses([c], [a, b], lineX)
    ensures !Crosses([c], [b, a], lineX)
  {
    TieGoesToFirst(c, a, b);
    TieGoesToFirst(c, b, a);
    var current, ab := [c], [a, b];
    assert PairCrosses(ab[Nearest(current[0], ab)], current[0], lineX);
  }
}
