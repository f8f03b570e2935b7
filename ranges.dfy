/**
 * Distance algebra of a one-dimensional axis-aligned bound (one dimension of
 * an HRectBound under the Euclidean metric, where the per-dimension
 * distance between two coordinates is their absolute difference).
 */
module Ranges {

  /** A closed interval [lo, hi] of coordinates. */
  datatype Range = Range(lo: real, hi: real) {
    /** A built (non-empty) range has its low edge at or below its high edge. */
    predicate Valid() { lo <= hi }

    predicate Contains(x: real) { lo <= x <= hi }
  }

  function Abs(x: real): real { if x < 0.0 then -x else x }

  function Max(a: real, b: real): real { if a < b then b else a }

  function Min(a: real, b: real): real { if a < b then a else b }

  /** Positive part: `v` when it is positive, otherwise 0. */
  function Pos(x: real): real { if x > 0.0 then x else 0.0 }

  /** Two ranges share at least one coordinate. */
  predicate Overlap(a: Range, b: Range) { a.lo <= b.hi && b.lo <= a.hi }

  /** Smallest distance from a point of `a` to a point of `b`: the gap between the nearer edges. */
  function MinDistance(a: Range, b: Range): (r: real)
    requires a.Valid() && b.Valid()
    ensures r >= 0.0
    ensures r == 0.0 <==> Overlap(a, b)
  {
    Pos(b.lo - a.hi) + Pos(a.lo - b.hi)
  }

  /** Largest distance from a point of `a` to a point of `b`: the larger edge-to-edge separation. */
  function MaxDistance(a: Range, b: Range): (r: real)
    requires a.Valid() && b.Valid()
    ensures r >= 0.0
  {
    Max(Abs(b.hi - a.lo), Abs(a.hi - b.lo))
  }

  /** Smallest distance from the point `x` to a point of `a`: 0 inside, else the distance to the nearer edge. */
  function MinPointDistance(a: Range, x: real): (r: real)
    requires a.Valid()
    ensures r >= 0.0
    ensures r == 0.0 <==> a.Contains(x)
  {
    Pos(a.lo - x) + Pos(x - a.hi)
  }

  /** Largest distance from the point `x` to a point of `a`: the distance to the farther edge. */
  function MaxPointDistance(a: Range, x: real): (r: real)
    requires a.Valid()
    ensures r >= 0.0
  {
    Max(Abs(x - a.lo), Abs(a.hi - x))
  }

  /** No pair of points, one in each range, is closer than MinDistance. */
  lemma MinDistanceIsLowerBound(a: Range, b: Range, x: real, y: real)
    requires a.Valid() && b.Valid() && a.Contains(x) && b.Contains(y)
    ensures MinDistance(a, b) <= Abs(x - y)
  {
  }

  /** MinDistance is reached by some pair of points, so it is the exact minimum. */
  lemma MinDistanceIsAttained(a: Range, b: Range)
    requires a.Valid() && b.Valid()
    ensures exists x: real, y: real :: a.Contains(x) && b.Contains(y) && Abs(x - y) == MinDistance(a, b)
  {
    if b.lo > a.hi {
      assert a.Contains(a.hi) && b.Contains(b.lo) && Abs(a.hi - b.lo) == MinDistance(a, b);
    } else if a.lo > b.hi {
      assert a.Contains(a.lo) && b.Contains(b.hi) && Abs(a.lo - b.hi) == MinDistance(a, b);
    } else {
      var m := Max(a.lo, b.lo);
      assert a.Contains(m) && b.Contains(m) && Abs(m - m) == MinDistance(a, b);
    }
  }

  /** No pair of points, one in each range, is further apart than MaxDistance. */
  lemma MaxDistanceIsUpperBound(a: Range, b: Range, x: real, y: real)
    requires a.Valid() && b.Valid() && a.Contains(x) && b.Contains(y)
    ensures Abs(x - y) <= MaxDistance(a, b)
  {
  }

  /** MaxDistance is reached by a pair of opposite edges, so it is the exact maximum. */
  lemma MaxDistanceIsAttained(a: Range, b: Range)
    requires a.Valid() && b.Valid()
    ensures exists x: real, y: real :: a.Contains(x) && b.Contains(y) && Abs(x - y) == MaxDistance(a, b)
  {
    if Abs(b.hi - a.lo) < Abs(a.hi - b.lo) {
      assert a.Contains(a.hi) && b.Contains(b.lo) && Abs(a.hi - b.lo) == MaxDistance(a, b);
    } else {
      assert a.Contains(a.lo) && b.Contains(b.hi) && Abs(a.lo - b.hi) == MaxDistance(a, b);
    }
  }

  /** No point of `a` is closer to `x` than MinPointDistance. */
  lemma MinPointDistanceIsLowerBound(a: Range, x: real, y: real)
    requires a.Valid() && a.Contains(y)
    ensures MinPointDistance(a, x) <= Abs(x - y)
  {
  }

  /** MinPointDistance is the distance from `x` to its nearest point of `a` (the clamp of `x`). */
  lemma MinPointDistanceIsAttained(a: Range, x: real)
    requires a.Valid()
    ensures exists y: real :: a.Contains(y) && Abs(x - y) == MinPointDistance(a, x)
  {
    var c := Min(Max(x, a.lo), a.hi);
    assert a.Contains(c) && Abs(x - c) == MinPointDistance(a, x);
  }

  /** No point of `a` is further from `x` than MaxPointDistance. */
  lemma MaxPointDistanceIsUpperBound(a: Range, x: real, y: real)
    requires a.Valid() && a.Contains(y)
    ensures Abs(x - y) <= MaxPointDistance(a, x)
  {
  }

  /** MaxPointDistance is reached at one of the two edges. */
  lemma MaxPointDistanceIsAttained(a: Range, x: real)
    requires a.Valid()
    ensures exists y: real :: a.Contains(y) && Abs(x - y) == MaxPointDistance(a, x)
  {
    if Abs(x - a.lo) < Abs(a.hi - x) {
      assert a.Contains(a.hi) && Abs(x - a.hi) == MaxPointDistance(a, x);
    } else {
      assert a.Contains(a.lo) && Abs(x - a.lo) == MaxPointDistance(a, x);
    }
  }

  /** Both node-to-node distances do not depend on the order of the two nodes. */
  lemma NodeDistancesSymmetric(a: Range, b: Range)
    requires a.Valid() && b.Valid()
    ensures MinDistance(a, b) == MinDistance(b, a)
    ensures MaxDistance(a, b) == MaxDistance(b, a)
  {
  }

  /** The lower bound never exceeds the upper bound. */
  lemma MinAtMostMax(a: Range, b: Range, x: real)
    requires a.Valid() && b.Valid()
    ensures MinDistance(a, b) <= MaxDistance(a, b)
    ensures MinPointDistance(a, x) <= MaxPointDistance(a, x)
  {
  }

  /**
   * A degenerate range [x, x] behaves as the point x: node-to-node distances
   * reduce to point-to-node ones, and point-to-node ones to |x - y|.
   */
  lemma DegenerateRange(a: Range, x: real, y: real)
    requires a.Valid()
    ensures MinDistance(Range(x, x), a) == MinPointDistance(a, x)
    ensures MaxDistance(Range(x, x), a) == MaxPointDistance(a, x)
    ensures MinPointDistance(Range(y, y), x) == Abs(x - y)
    ensures MaxPointDistance(Range(y, y), x) == Abs(x - y)
  {
  }
}
