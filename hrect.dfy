/**
 * A one-dimensional HRectBound: the bound of a tree node, grown in place by
 * `|=` with points and emptied by `Clear()`.
 */
module HRect {
  import opened Ranges

  class IntervalBound {
    var lo: real
    var hi: real
    var empty: bool
    /** The points added since construction or the last Clear. */
    ghost var Points: set<real>

    /** The bound is empty exactly when no point was added, and otherwise is the tightest interval holding them. */
    ghost predicate Valid()
      reads this
    {
      (empty <==> Points == {}) &&
      (!empty ==> lo in Points && hi in Points && forall x :: x in Points ==> lo <= x <= hi)
    }

    /** HRectBound(1): a fresh bound of dimension one with no points. */
    constructor ()
      ensures Valid() && empty && Points == {}
    {
      lo, hi, empty := 0.0, 0.0, true;
      Points := {};
    }

    /** `bound |= point`: expand the bound so that it holds `x`. */
    method Expand(x: real)
      requires Valid()
      modifies this
      ensures Valid() && !empty && Points == old(Points) + {x}
      ensures lo == (if old(empty) then x else Min(old(lo), x))
      ensures hi == (if old(empty) then x else Max(old(hi), x))
    {
      if empty {
        lo, hi := x, x;
      } else {
        lo, hi := Min(lo, x), Max(hi, x);
      }
      empty := false;
      Points := Points + {x};
    }

    /** `bound.Clear()`: forget every point; the bound is empty again. */
    method Clear()
      requires Valid()
      modifies this
      ensures Valid() && empty && Points == {}
    {
      empty := true;
      Points := {};
    }

    /** The interval a non-empty bound covers: the hull of its points. */
    function Bounds(): (r: Range)
      reads this
      requires Valid() && !empty
      ensures r.Valid() && r.lo in Points && r.hi in Points
      ensures forall x :: x in Points ==> r.Contains(x)
    {
      Range(lo, hi)
    }
  }
}
