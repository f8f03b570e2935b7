# mlpack neighbour-search sort policies, modelled in Dafny

mlpack's neighbour search (k-nearest and k-furthest neighbours over a
space-partitioning tree) is one algorithm parameterised by a *sort policy*:
`NearestNeighborSort` or `FurthestNeighborSort`. A policy supplies the two
sentinel distances (`BestDistance`, `WorstDistance`), the strict ranking
`IsBetter`, the insertion position of a new candidate distance in a
best-to-worst candidate list (`SortDistance`), and the most optimistic
distance between a node's bound and another node or a query point
(`BestNodeToNodeDistance`, `BestPointToNodeDistance`). The bounds are
`HRectBound`s, grown in place with `|=` and emptied with `Clear()`.

The model has five modules:

- `Wrappers` (`wrappers.dfy`): `Option`, used for the "do not insert" sentinel.
- `Ranges` (`ranges.dfy`): the one-dimensional bound algebra under the
  Euclidean metric, where the distance of two coordinates is `|x - y|`.
  Each bound distance is proved to be the exact minimum or maximum over all
  point pairs, both as a bound and as being reached.
- `HRect` (`hrect.dfy`): `IntervalBound`, a class for a one-dimensional
  `HRectBound` with fields `lo`, `hi` and `empty`. A ghost set holds the
  points added so far, and the invariant says the bound is their hull.
- `SortPolicies` (`sort_policies.dfy`): `Policy = Nearest | Furthest` with
  the sentinels, `IsBetter`, `SortDistance` and the best bound distances.
  Lemmas show that the order is strict and total, that the returned position
  is the rank of the candidate in a sorted list, and that pruning on the best
  bound discards no better candidate.
- `SortPolicyTests` (`sort_policy_tests.dfy`): the test cases of the suite,
  as lemmas or as methods that build the bounds step by step. For the two
  tie warnings, `IsBetterNotStrict` states the model's answer, which makes
  those warnings fire.

Distances are exact `real`s. `DBL_MAX` is the constant `DblMax`, the exact
value `(2^53 - 1) * 2^971`. `size_t() - 1` is `SizeMax = 2^64 - 1`, and
`AsSizeT` maps `None` to it.

## Model

| member | source | states |
|---|---|---|
| `Ranges.MinDistance` | src/mlpack/tests/sort_policy_test.cpp:137-145 | the nearest node-to-node distance is non-negative, and it is 0 exactly when the two intervals overlap |
| `Ranges.MaxDistance` | src/mlpack/tests/sort_policy_test.cpp:284-285 | the furthest node-to-node distance is non-negative |
| `Ranges.MinPointDistance` | src/mlpack/tests/sort_policy_test.cpp:180-184 | the nearest point-to-node distance is non-negative, and it is 0 exactly when the point lies inside the interval |
| `Ranges.MaxPointDistance` | src/mlpack/tests/sort_policy_test.cpp:332-345 | the furthest point-to-node distance is non-negative |
| `Ranges.MinDistanceIsLowerBound` | src/mlpack/tests/sort_policy_test.cpp:123-135 | no point of one node is closer to a point of the other than the nearest node-to-node distance |
| `Ranges.MinDistanceIsAttained` | src/mlpack/tests/sort_policy_test.cpp:123-145 | some pair of points, one per node, is exactly the nearest node-to-node distance apart (the gap between nearer edges, or 0 on overlap) |
| `Ranges.MaxDistanceIsUpperBound` | src/mlpack/tests/sort_policy_test.cpp:284-306 | no pair of points, one per node, is further apart than the furthest node-to-node distance |
| `Ranges.MaxDistanceIsAttained` | src/mlpack/tests/sort_policy_test.cpp:284-306 | some pair of opposite edges is exactly the furthest node-to-node distance apart |
| `Ranges.MinPointDistanceIsLowerBound` | src/mlpack/tests/sort_policy_test.cpp:171-178 | no point of the node is closer to the query than the nearest point-to-node distance |
| `Ranges.MinPointDistanceIsAttained` | src/mlpack/tests/sort_policy_test.cpp:171-184 | the point of the node nearest the query is exactly that distance away |
| `Ranges.MaxPointDistanceIsUpperBound` | src/mlpack/tests/sort_policy_test.cpp:332-345 | no point of the node is further from the query than the furthest point-to-node distance |
| `Ranges.MaxPointDistanceIsAttained` | src/mlpack/tests/sort_policy_test.cpp:332-345 | one edge of the node is exactly the furthest point-to-node distance from the query |
| `Ranges.NodeDistancesSymmetric` | src/mlpack/tests/sort_policy_test.cpp:126-135 | both node-to-node distances are the same whichever node comes first; this goes beyond the cited assertions, which never swap the arguments |
| `Ranges.MinAtMostMax` | src/mlpack/tests/sort_policy_test.cpp:123-124 | the nearest bound never exceeds the furthest bound, node-to-node and point-to-node |
| `Ranges.DegenerateRange` | src/mlpack/tests/sort_policy_test.cpp:162-178 | a one-point interval [x, x] behaves as the point x: node distances become point distances, and point distances become `abs(x - y)` |
| `HRect.IntervalBound.constructor` | src/mlpack/tests/sort_policy_test.cpp:109 | `HRectBound(1)` is an empty bound that holds no points |
| `HRect.IntervalBound.Expand` | src/mlpack/tests/sort_policy_test.cpp:110-112 | expanding the bound by a point sets lo and hi to the point on an empty bound and otherwise widens them to min and max; the bound stays the hull of all points added |
| `HRect.IntervalBound.Clear` | src/mlpack/tests/sort_policy_test.cpp:127 | `Clear()` empties the bound and forgets every point |
| `HRect.IntervalBound.Bounds` | src/mlpack/tests/sort_policy_test.cpp:123-124 | a non-empty bound covers `[lo, hi]`, holds every added point, and both edges are added points |
| `SortPolicies.BestBeatsWorst` | src/mlpack/tests/sort_policy_test.cpp:30-41 | under both policies the best sentinel ranks strictly ahead of the worst |
| `SortPolicies.BestDistance` | src/mlpack/tests/sort_policy_test.cpp:30-41 | the best sentinel (0 for nearest, DBL_MAX for furthest, lines 192-203) is a distance that no distance beats and that beats every other distance |
| `SortPolicies.WorstDistance` | src/mlpack/tests/sort_policy_test.cpp:192-203 | the worst sentinel (DBL_MAX for nearest, 0 for furthest) is a distance that beats no distance and that every other distance beats |
| `SortPolicies.IsBetter` | src/mlpack/tests/sort_policy_test.cpp:46-49 | a tie is never better; of two different distances, the smaller wins for nearest and the larger for furthest (lines 208-211) |
| `SortPolicies.IsBetterIsStrictTotalOrder` | src/mlpack/tests/sort_policy_test.cpp:46-57 | `IsBetter` is irreflexive and transitive, and exactly one of two distinct values beats the other |
| `SortPolicies.FurthestReversesNearest` | src/mlpack/tests/sort_policy_test.cpp:208-211 | the furthest policy ranks every pair in the reverse order of the nearest policy |
| `SortPolicies.SortedBestToWorst` | src/mlpack/tests/sort_policy_test.cpp:80-83 | lists of at most one entry are sorted, and in a sorted list no entry ranks ahead of its predecessor |
| `SortPolicies.FirstBeaten` | src/mlpack/tests/sort_policy_test.cpp:80-90 | the scan returns the first index, from a start position on, whose entry the candidate beats, or None when it beats none of them |
| `SortPolicies.SortDistance` | src/mlpack/tests/sort_policy_test.cpp:84-92 | None (do not insert) exactly when the list is empty or the candidate does not beat the last entry; otherwise the first index whose entry the candidate beats |
| `SortPolicies.AsSizeT` | src/mlpack/tests/sort_policy_test.cpp:91-92 | a position is returned as it is, and "do not insert" becomes `size_t() - 1` |
| `SortPolicies.SizeTSentinelIsUnambiguous` | src/mlpack/tests/sort_policy_test.cpp:91-92 | for any list a size_t can index, the size_t result equals `size_t() - 1` exactly when nothing is inserted |
| `SortPolicies.SortDistanceIgnoresIndices` | src/mlpack/tests/sort_policy_test.cpp:84-85 | the index list has no influence on the position |
| `SortPolicies.SortDistanceOnSortedList` | src/mlpack/tests/sort_policy_test.cpp:78-93 | on a best-to-worst list the position is the candidate's rank: it beats every entry from the position on, inserting it there keeps the list sorted, and when nothing is inserted it beats no entry |
| `SortPolicies.AllWorstInsertsAtHead` | src/mlpack/tests/sort_policy_test.cpp:63-72 | a non-empty list filled with the worst sentinel takes any candidate better than the sentinel at position 0 |
| `SortPolicies.BestNodeToNodeDistance` | src/mlpack/tests/sort_policy_test.cpp:123-145 | the bound is non-negative and no pair of points, one per node, ranks ahead of it: min distance for nearest, max distance for furthest (lines 284-306) |
| `SortPolicies.BestNodeToNodeIsTight` | src/mlpack/tests/sort_policy_test.cpp:271-306 | some pair of points from the two nodes is exactly the policy's node-to-node bound apart |
| `SortPolicies.BestPointToNodeDistance` | src/mlpack/tests/sort_policy_test.cpp:171-184 | the bound is non-negative and no point of the node ranks ahead of it: min distance for nearest, max distance for furthest (lines 332-345) |
| `SortPolicies.BestPointToNodeIsTight` | src/mlpack/tests/sort_policy_test.cpp:323-345 | some point of the node is exactly the policy's point-to-node bound from the query |
| `SortPolicies.NodePruneIsSafe` | src/mlpack/tests/sort_policy_test.cpp:123-124 | if the current worst candidate beats the node-to-node bound, it beats every pair of points of the two nodes, so the pair can be pruned; this is the use of the bound, beyond the distance values the cited lines assert |
| `SortPolicies.PointPruneIsSafe` | src/mlpack/tests/sort_policy_test.cpp:171-172 | if the current worst candidate beats the point-to-node bound, it beats every point of the node; this is the use of the bound, beyond the distance values the cited lines assert |
| `SortPolicyTests.NnsSentinels` | src/mlpack/tests/sort_policy_test.cpp:30-41 | nearest: best distance 0, worst DBL_MAX |
| `SortPolicyTests.FnsSentinels` | src/mlpack/tests/sort_policy_test.cpp:192-203 | furthest: best distance DBL_MAX, worst 0 |
| `SortPolicyTests.IsBetterStrict` | src/mlpack/tests/sort_policy_test.cpp:46-49 | nearest ranks 5 ahead of 6; furthest (lines 208-211) ranks 5 ahead of 4 |
| `SortPolicyTests.IsBetterNotStrict` | src/mlpack/tests/sort_policy_test.cpp:54-57 | the model's answer for the tie 6 vs 6 is false under both policies (furthest: lines 216-219), so both warnings would be raised |
| `SortPolicyTests.SortDistanceAllWorst` | src/mlpack/tests/sort_policy_test.cpp:63-72 | 5.0 goes to position 0 of five DBL_MAX slots (nearest) and of five 0 slots (furthest, lines 225-234) |
| `SortPolicyTests.NnsSortDistance2` | src/mlpack/tests/sort_policy_test.cpp:78-93 | on [0.66, 0.89, 1.14]: 0.61 at 0, 0.76 at 1, 0.99 at 2, and 1.22 gives `size_t() - 1` |
| `SortPolicyTests.FnsSortDistance2` | src/mlpack/tests/sort_policy_test.cpp:240-255 | on [1.14, 0.89, 0.66]: 1.22 at 0, 0.93 at 1, 0.68 at 2, and 0.62 gives `size_t() - 1` |
| `SortPolicyTests.NnsNodeToNodeDistance` | src/mlpack/tests/sort_policy_test.cpp:99-146 | bounds built by expansion and `Clear()`: [0,1] to [5,6] is 4, to [-2,-1] is 1, to [-0.5,0.5] is 0 |
| `SortPolicyTests.NnsPointToNodeDistance` | src/mlpack/tests/sort_policy_test.cpp:152-185 | [0,1] to -0.5 is 0.5, to 1.5 is 0.5, to 0.5 is 0 |
| `SortPolicyTests.FnsNodeToNodeDistance` | src/mlpack/tests/sort_policy_test.cpp:261-307 | [0,1] to [5,6] is 6, to [-2,-1] is 3, to [-0.5,0.5] is 1.5 |
| `SortPolicyTests.FnsPointToNodeDistance` | src/mlpack/tests/sort_policy_test.cpp:313-346 | [0,1] to -0.5 is 1.5, to 1.5 is 1.5, to 0.5 is 0.5 |

## Left out

- Floating point: distances are exact reals. The `1e-5` tolerances of the close and small checks become equalities.
- Multi-dimensional bounds and the square root of the Euclidean metric: every test uses one-dimensional bounds. In one dimension the metric is `abs(x - y)`. `MinDistance` and `MinPointDistance` are written with positive parts.
- `KDTree` construction and the one-point dataset: the tree serves only to hold a bound, so the model works on the bound directly.
- The dimension argument of `HRectBound(1)`: the bound always has one dimension.
- Armadillo vectors: `list` and `indices` are sequences.
- SortPolicies.IsBetterIsStrictTotalOrder: the comparison is strict, so the model's `IsBetter(6.0, 6.0)` is false, and both tie warnings (lines 56 and 218) would be raised. A strict order has two consequences for `SortDistance`. On a sorted list, a candidate is placed after the entries equal to it. A candidate equal to the last entry is discarded.
- SortPolicies.SortDistance: no test calls it on an empty list, and the model returns None there. A candidate equal to the last entry is not inserted, even in a list filled with the worst sentinel: `SortDistance(Nearest, [DblMax, DblMax, DblMax], _, DblMax)` is None.
- SortPolicies.BestDistance: the sentinels are DBL_MAX, as lines 40 and 194 assert. No infinite distance is modelled.
- The consumption of the returned position: shift-inserting into the candidate list, the tree traversal and its pruning loop do not appear in the test file, so they are not part of this model. The pruning lemmas state only the property a traversal depends on.
- `WorstNodeToNodeDistance` and `WorstPointToNodeDistance`: no test uses them.
- Ranges.MaxDistance: its own contract states only non-negativity. The meaning (the exact maximum over point pairs) is in `MaxDistanceIsUpperBound` and `MaxDistanceIsAttained`.
- Ranges.MaxPointDistance: its own contract states only non-negativity. The meaning is in `MaxPointDistanceIsUpperBound` and `MaxPointDistanceIsAttained`.
