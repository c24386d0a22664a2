/** The cost of a path (`calculate_path_distance`). */
module PathCosts {
  import opened Graphs

  /** The summed edge weights over consecutive pairs of `path`; a pair of
      nodes that are not adjacent makes `graph[u][v]` raise. */
  function PathCost(g: Graph, path: seq<Node>): Result<real>
    decreases |path|
  {
    if |path| <= 1 then Ok(0.0)
    else if !Adjacent(g, path[0], path[1]) then Err(NoSuchEdge)
    else match PathCost(g, path[1..])
      case Err(e) => Err(e)
      case Ok(rest) => Ok(EdgeWeight(g, path[0], path[1]) + rest)
  }

  /** `total` added to a successful cost. */
  function AddTo(total: real, r: Result<real>): Result<real>
  {
    match r
    case Err(e) => Err(e)
    case Ok(c) => Ok(total + c)
  }

  /** The accumulator loop of `calculate_path_distance`. */
  method CalculatePathDistance(g: Graph, path: seq<Node>) returns (r: Result<real>)
    ensures r == PathCost(g, path)
  {
    var total := 0.0;
    var i := 0;
    assert path[0..] == path;
    while i + 1 < |path|
      invariant i <= |path|
      invariant PathCost(g, path) == AddTo(total, PathCost(g, path[i..]))
    {
      if !Adjacent(g, path[i], path[i + 1]) {
        return Err(NoSuchEdge);
      }
      var edgeWeight := EdgeWeight(g, path[i], path[i + 1]);
      assert path[i..][1..] == path[i + 1..];
      total := total + edgeWeight;
      i := i + 1;
    }
    r := Ok(total);
  }

  /** A path of at most one node costs nothing. */
  lemma ShortPathIsFree(g: Graph, path: seq<Node>)
    requires |path| <= 1
    ensures PathCost(g, path) == Ok(0.0)
  {
  }

  /** Cost is additive when two paths are joined at a shared node: the join
      has a cost exactly when both halves do, and it is their sum. */
  lemma {:induction false} PathCostJoin(g: Graph, p: seq<Node>, q: seq<Node>)
    requires p != [] && q != [] && p[|p| - 1] == q[0]
    ensures PathCost(g, p + q[1..]).Ok? <==> PathCost(g, p).Ok? && PathCost(g, q).Ok?
    ensures PathCost(g, p + q[1..]).Ok? ==>
      PathCost(g, p + q[1..]).value == PathCost(g, p).value + PathCost(g, q).value
    decreases |p|
  {
    var joined := p + q[1..];
    if |p| == 1 {
      assert joined == q;
    } else {
      assert joined[1..] == p[1..] + q[1..];
      assert joined[0] == p[0] && joined[1] == p[1];
      PathCostJoin(g, p[1..], q);
    }
  }

  /** With non-negative weights, every consecutive pair of a path with a
      cost adds a non-negative weight, and the cost is positive when one of
      them is. */
  lemma {:induction false} PathCostPositive(g: Graph, path: seq<Node>)
    requires forall e :: e in g.weight ==> g.weight[e] >= 0.0
    requires PathCost(g, path).Ok?
    requires forall i :: 0 <= i < |path| - 1 ==> EdgeWeight(g, path[i], path[i + 1]) != 0.0
    ensures |path| >= 2 <==> PathCost(g, path).value > 0.0
    decreases |path|
  {
    if |path| >= 2 {
      var tail := path[1..];
      forall i | 0 <= i < |tail| - 1
        ensures EdgeWeight(g, tail[i], tail[i + 1]) != 0.0
      {
        assert tail[i] == path[i + 1] && tail[i + 1] == path[i + 2];
      }
      PathCostPositive(g, tail);
      assert EdgeWeight(g, path[0], path[1]) > 0.0;
    }
  }
}
