/**
 * The test cases of the sort policy suite, stated as lemmas about the
 * policies and as methods that build the bounds step by step as the tests do.
 */
module SortPolicyTests {
  import opened Wrappers
  import opened Ranges
  import opened HRect
  import opened SortPolicies

  lemma NnsSentinels()
    ensures BestDistance(Nearest) == 0.0
    ensures WorstDistance(Nearest) == DblMax
  {
  }

  lemma FnsSentinels()
    ensures BestDistance(Furthest) == DblMax
    ensures WorstDistance(Furthest) == 0.0
  {
  }

  lemma IsBetterStrict()
    ensures IsBetter(Nearest, 5.0, 6.0)
    ensures IsBetter(Furthest, 5.0, 4.0)
  {
  }

  /**
   * Ties: the model's comparison is strict, so a distance never beats
   * itself and the suite's two warnings about ties would be raised.
   */
  lemma IsBetterNotStrict()
    ensures !IsBetter(Nearest, 6.0, 6.0)
    ensures !IsBetter(Furthest, 6.0, 6.0)
  {
  }

  /** Five slots of DBL_MAX (nearest) or 0 (furthest): 5.0 goes to the head. */
  lemma SortDistanceAllWorst()
    ensures SortDistance(Nearest, [DblMax, DblMax, DblMax, DblMax, DblMax], [0, 0, 0, 0, 0], 5.0) == Some(0)
    ensures SortDistance(Furthest, [0.0, 0.0, 0.0, 0.0, 0.0], [0, 0, 0, 0, 0], 5.0) == Some(0)
  {
  }

  /** Repeated queries against the nearest list [0.66, 0.89, 1.14]. */
  lemma NnsSortDistance2()
    ensures SortDistance(Nearest, [0.66, 0.89, 1.14], [0, 0, 0], 0.61) == Some(0)
    ensures SortDistance(Nearest, [0.66, 0.89, 1.14], [0, 0, 0], 0.76) == Some(1)
    ensures SortDistance(Nearest, [0.66, 0.89, 1.14], [0, 0, 0], 0.99) == Some(2)
    ensures AsSizeT(SortDistance(Nearest, [0.66, 0.89, 1.14], [0, 0, 0], 1.22)) == SizeMax
  {
  }

  /** Repeated queries against the furthest list [1.14, 0.89, 0.66]. */
  lemma FnsSortDistance2()
    ensures SortDistance(Furthest, [1.14, 0.89, 0.66], [0, 0, 0], 1.22) == Some(0)
    ensures SortDistance(Furthest, [1.14, 0.89, 0.66], [0, 0, 0], 0.93) == Some(1)
    ensures SortDistance(Furthest, [1.14, 0.89, 0.66], [0, 0, 0], 0.68) == Some(2)
    ensures AsSizeT(SortDistance(Furthest, [1.14, 0.89, 0.66], [0, 0, 0], 0.62)) == SizeMax
  {
  }

  /**
   * Node one is [0, 1]; node two is [5, 6], then cleared and rebuilt as
   * [-2, -1], then cleared and rebuilt as [-0.5, 0.5]. Returns the
   * nearest policy's node-to-node distance for each configuration.
   */
  method NnsNodeToNodeDistance() returns (far: real, otherSide: real, overlapping: real)
    ensures far == 4.0 && otherSide == 1.0 && overlapping == 0.0
  {
    var nodeOne := new IntervalBound();
    nodeOne.Expand(0.0);
    nodeOne.Expand(1.0);
    var one := nodeOne.Bounds();
    assert one == Range(0.0, 1.0);

    var nodeTwo := new IntervalBound();
    nodeTwo.Expand(5.0);
    nodeTwo.Expand(6.0);
    var two := nodeTwo.Bounds();
    assert two == Range(5.0, 6.0);
    far := BestNodeToNodeDistance(Nearest, one, two);

    nodeTwo.Clear();
    nodeTwo.Expand(-2.0);
    nodeTwo.Expand(-1.0);
    two := nodeTwo.Bounds();
    assert two == Range(-2.0, -1.0);
    otherSide := BestNodeToNodeDistance(Nearest, one, two);

    nodeTwo.Clear();
    nodeTwo.Expand(-0.5);
    nodeTwo.Expand(0.5);
    two := nodeTwo.Bounds();
    assert two == Range(-0.5, 0.5);
    overlapping := BestNodeToNodeDistance(Nearest, one, two);
  }

  /**
   * The node is [0, 1]; the query point is -0.5, then 1.5, then 0.5.
   * Returns the nearest policy's point-to-node distance for each point.
   */
  method NnsPointToNodeDistance() returns (below: real, above: real, inside: real)
    ensures below == 0.5 && above == 0.5 && inside == 0.0
  {
    var node := new IntervalBound();
    node.Expand(0.0);
    node.Expand(1.0);
    var bound := node.Bounds();
    assert bound == Range(0.0, 1.0);

    below := BestPointToNodeDistance(Nearest, -0.5, bound);
    above := BestPointToNodeDistance(Nearest, 1.5, bound);
    inside := BestPointToNodeDistance(Nearest, 0.5, bound);
  }

  /**
   * Node one is [0, 1]; node two is [5, 6], then cleared and rebuilt as
   * [-2, -1], then cleared and rebuilt as [-0.5, 0.5]. Returns the
   * furthest policy's node-to-node distance for each configuration.
   */
  method FnsNodeToNodeDistance() returns (far: real, otherSide: real, overlapping: real)
    ensures far == 6.0 && otherSide == 3.0 && overlapping == 1.5
  {
    var nodeOne := new IntervalBound();
    nodeOne.Expand(0.0);
    nodeOne.Expand(1.0);
    var one := nodeOne.Bounds();
    assert one == Range(0.0, 1.0);

    var nodeTwo := new IntervalBound();
    nodeTwo.Expand(5.0);
    nodeTwo.Expand(6.0);
    var two := nodeTwo.Bounds();
    assert two == Range(5.0, 6.0);
    far := BestNodeToNodeDistance(Furthest, one, two);

    nodeTwo.Clear();
    nodeTwo.Expand(-2.0);
    nodeTwo.Expand(-1.0);
    two := nodeTwo.Bounds();
    assert two == Range(-2.0, -1.0);
    otherSide := BestNodeToNodeDistance(Furthest, one, two);

    nodeTwo.Clear();
    nodeTwo.Expand(-0.5);
    nodeTwo.Expand(0.5);
    two := nodeTwo.Bounds();
    assert two == Range(-0.5, 0.5);
    overlapping := BestNodeToNodeDistance(Furthest, one, two);
  }

  /**
   * The node is [0, 1]; the query point is -0.5, then 1.5, then 0.5.
   * Returns the furthest policy's point-to-node distance for each point.
   */
  method FnsPointToNodeDistance() returns (below: real, above: real, inside: real)
    ensures below == 1.5 && above == 1.5 && inside == 0.5
  {
    var node := new IntervalBound();
    node.Expand(0.0);
    node.Expand(1.0);
    var bound := node.Bounds();
    assert bound == Range(0.0, 1.0);

    below := BestPointToNodeDistance(Furthest, -0.5, bound);
    above := BestPointToNodeDistance(Furthest, 1.5, bound);
    inside := BestPointToNodeDistance(Furthest, 0.5, bound);
  }
}
