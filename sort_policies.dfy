/**
 * The two neighbour-search sort policies, NearestNeighborSort and
 * FurthestNeighborSort, as one datatype: the same operations, with the
 * direction of "better" as the only difference.
 */
module SortPolicies {
  import opened Wrappers
  import opened Ranges

  /** DBL_MAX, the largest finite IEEE-754 double, (2^53 - 1) * 2^971. */
  const DblMax: real := 179769313486231570814527423731704356798070567525844996598917476803157260780028538760589558632766878171540458953514382464234321326889464182768467546703537516986049910576551282076245490090389328944075868508455133942304583236903222948165808559332123348274797826204144723168738177180919299881250404026184124858368.0

  /** The largest size_t on a 64-bit platform, the value of `size_t() - 1`. */
  const SizeMax: nat := 18446744073709551615

  datatype Policy = Nearest | Furthest

  /** A distance a double can hold and a metric can return. */
  predicate IsDistance(d: real) { 0.0 <= d <= DblMax }

  /** The distance of a perfect match: it beats every other distance, and none beats it. */
  function BestDistance(p: Policy): (r: real)
    ensures IsDistance(r)
    ensures forall d :: IsDistance(d) ==> !IsBetter(p, d, r)
    ensures forall d :: IsDistance(d) && d != r ==> IsBetter(p, r, d)
  {
    match p
    case Nearest => 0.0
    case Furthest => DblMax
  }

  /** The distance of "no candidate yet", used to fill an empty list: it beats no distance, and every other one beats it. */
  function WorstDistance(p: Policy): (r: real)
    ensures IsDistance(r)
    ensures forall d :: IsDistance(d) ==> !IsBetter(p, r, d)
    ensures forall d :: IsDistance(d) && d != r ==> IsBetter(p, d, r)
  {
    match p
    case Nearest => DblMax
    case Furthest => 0.0
  }

  /**
   * `value` ranks strictly ahead of `ref`: a tie never does, and of two
   * different distances the smaller wins for nearest, the larger for furthest.
   */
  function IsBetter(p: Policy, value: real, ref: real): (r: bool)
    ensures r <==> value != ref && (p == Nearest <==> value < ref)
  {
    match p
    case Nearest => value < ref
    case Furthest => value > ref
  }

  /** The best sentinel beats the worst one under both policies. */
  lemma BestBeatsWorst(p: Policy)
    ensures IsBetter(p, BestDistance(p), WorstDistance(p))
  {
  }

  /** IsBetter is a strict total order: irreflexive, transitive, and total on distinct values. */
  lemma IsBetterIsStrictTotalOrder(p: Policy, a: real, b: real, c: real)
    ensures !IsBetter(p, a, a)
    ensures IsBetter(p, a, b) && IsBetter(p, b, c) ==> IsBetter(p, a, c)
    ensures a != b ==> (IsBetter(p, a, b) <==> !IsBetter(p, b, a))
  {
  }

  /** The furthest policy ranks distances in exactly the reverse order of the nearest policy. */
  lemma FurthestReversesNearest(a: real, b: real)
    ensures IsBetter(Furthest, a, b) <==> IsBetter(Nearest, b, a)
  {
  }

  /** The list is ordered best to worst: no later entry ranks ahead of an earlier one. */
  function SortedBestToWorst(p: Policy, list: seq<real>): (r: bool)
    ensures |list| <= 1 ==> r
    ensures r ==> forall i :: 0 < i < |list| ==> !IsBetter(p, list[i], list[i - 1])
  {
    forall i, j :: 0 <= i < j < |list| ==> !IsBetter(p, list[j], list[i])
  }

  /** The first index at or after `from` whose entry `d` beats, if any. */
  function FirstBeaten(p: Policy, list: seq<real>, d: real, from: nat): (r: Option<nat>)
    requires from <= |list|
    decreases |list| - from
    ensures r.Some? ==> from <= r.value < |list| && IsBetter(p, d, list[r.value])
    ensures r.Some? ==> forall j :: from <= j < r.value ==> !IsBetter(p, d, list[j])
    ensures r.None? ==> forall j :: from <= j < |list| ==> !IsBetter(p, d, list[j])
  {
    if from == |list| then None
    else if IsBetter(p, d, list[from]) then Some(from)
    else FirstBeaten(p, list, d, from + 1)
  }

  /**
   * SortDistance(list, indices, d): the position at which `d` would be
   * inserted into `list`, or None (the C++ `size_t() - 1`) when it should
   * not be inserted because it does not beat the last entry. The list and
   * the indices are only read, and the indices do not influence the answer.
   */
  function SortDistance(p: Policy, list: seq<real>, indices: seq<nat>, d: real): (r: Option<nat>)
    ensures r.None? <==> (|list| == 0 || !IsBetter(p, d, list[|list| - 1]))
    ensures r.Some? ==> r.value < |list| && IsBetter(p, d, list[r.value])
    ensures r.Some? ==> forall j :: 0 <= j < r.value ==> !IsBetter(p, d, list[j])
  {
    if |list| == 0 || !IsBetter(p, d, list[|list| - 1]) then None
    else FirstBeaten(p, list, d, 0)
  }

  /** The value the C++ code returns: the position, or `size_t() - 1` for "do not insert". */
  function AsSizeT(r: Option<nat>): (n: nat)
    ensures r.Some? ==> n == r.value
    ensures r.None? ==> n == SizeMax
  {
    match r
    case Some(k) => k
    case None => SizeMax
  }

  /** For any list a size_t can index, the returned size_t is the sentinel exactly when nothing is inserted. */
  lemma SizeTSentinelIsUnambiguous(p: Policy, list: seq<real>, indices: seq<nat>, d: real)
    requires |list| <= SizeMax
    ensures AsSizeT(SortDistance(p, list, indices, d)) == SizeMax <==> SortDistance(p, list, indices, d).None?
  {
  }

  /** The index list never changes the position. */
  lemma SortDistanceIgnoresIndices(p: Policy, list: seq<real>, i1: seq<nat>, i2: seq<nat>, d: real)
    ensures SortDistance(p, list, i1, d) == SortDistance(p, list, i2, d)
  {
  }

  /**
   * On a list sorted best to worst, the returned position is the rank of `d`:
   * every entry before it is at least as good as `d`, every entry from it on
   * is beaten by `d`, and inserting `d` there keeps the list sorted. When
   * nothing is inserted, `d` beats no entry at all.
   */
  lemma SortDistanceOnSortedList(p: Policy, list: seq<real>, indices: seq<nat>, d: real)
    requires SortedBestToWorst(p, list)
    ensures SortDistance(p, list, indices, d).None? ==> forall j :: 0 <= j < |list| ==> !IsBetter(p, d, list[j])
    ensures SortDistance(p, list, indices, d).Some? ==>
      var k := SortDistance(p, list, indices, d).value;
      (forall j :: k <= j < |list| ==> IsBetter(p, d, list[j])) &&
      SortedBestToWorst(p, list[..k] + [d] + list[k..])
  {
  }

  /** A list holding only the worst sentinel accepts at its head every candidate that beats the sentinel. */
  lemma AllWorstInsertsAtHead(p: Policy, list: seq<real>, indices: seq<nat>, d: real)
    requires |list| > 0
    requires forall i :: 0 <= i < |list| ==> list[i] == WorstDistance(p)
    requires IsBetter(p, d, WorstDistance(p))
    ensures SortDistance(p, list, indices, d) == Some(0)
  {
  }

  /**
   * The most optimistic distance between two nodes' bounds: the smallest
   * possible distance for nearest search, the largest for furthest search.
   */
  function BestNodeToNodeDistance(p: Policy, a: Range, b: Range): (r: real)
    requires a.Valid() && b.Valid()
    ensures r >= 0.0
    ensures forall x, y :: a.Contains(x) && b.Contains(y) ==> !IsBetter(p, Abs(x - y), r)
  {
    match p
    case Nearest => MinDistance(a, b)
    case Furthest => MaxDistance(a, b)
  }

  /** The most optimistic distance between a point and a node's bound. */
  function BestPointToNodeDistance(p: Policy, x: real, a: Range): (r: real)
    requires a.Valid()
    ensures r >= 0.0
    ensures forall y :: a.Contains(y) ==> !IsBetter(p, Abs(x - y), r)
  {
    match p
    case Nearest => MinPointDistance(a, x)
    case Furthest => MaxPointDistance(a, x)
  }

  /** The node-to-node bound is reached by a pair of points, so it is the best achievable distance. */
  lemma BestNodeToNodeIsTight(p: Policy, a: Range, b: Range)
    requires a.Valid() && b.Valid()
    ensures exists x: real, y: real :: a.Contains(x) && b.Contains(y) && Abs(x - y) == BestNodeToNodeDistance(p, a, b)
  {
    match p
    case Nearest => MinDistanceIsAttained(a, b);
    case Furthest => MaxDistanceIsAttained(a, b);
  }

  /** The point-to-node bound is reached by a point of the node. */
  lemma BestPointToNodeIsTight(p: Policy, x: real, a: Range)
    requires a.Valid()
    ensures exists y: real :: a.Contains(y) && Abs(x - y) == BestPointToNodeDistance(p, x, a)
  {
    match p
    case Nearest => MinPointDistanceIsAttained(a, x);
    case Furthest => MaxPointDistanceIsAttained(a, x);
  }

  /**
   * Pruning is safe: when the current worst candidate already beats a node's
   * best bound, every point pair of the two nodes is beaten by it too.
   */
  lemma NodePruneIsSafe(p: Policy, a: Range, b: Range, worst: real, x: real, y: real)
    requires a.Valid() && b.Valid() && a.Contains(x) && b.Contains(y)
    requires IsBetter(p, worst, BestNodeToNodeDistance(p, a, b))
    ensures IsBetter(p, worst, Abs(x - y))
  {
  }

  /** The same for a single query point against a node. */
  lemma PointPruneIsSafe(p: Policy, x: real, a: Range, worst: real, y: real)
    requires a.Valid() && a.Contains(y)
    requires IsBetter(p, worst, BestPointToNodeDistance(p, x, a))
    ensures IsBetter(p, worst, Abs(x - y))
  {
  }
}
