/** One ant's walk from the source to the destination (`ant_move`). */
module Walks {
  import opened Graphs
  import opened Scoring
  import opened Roulette
  import opened PathCosts

  /** The walk never passes a population exponent, so its default of zero applies. */
  const WalkGamma: nat := 0

  /** The node a draw `r` selects at `current`, if the probabilities there exist. */
  function Step(g: Graph, levels: map<Edge, real>, current: Node, alpha: nat, beta: nat, r: real): Option<Node>
  {
    match Probabilities(g, levels, current, alpha, beta, WalkGamma)
    case Err(_) => None
    case Ok(ps) => Choose(ps, r)
  }

  /** The path an ant walks from `current` to `destination`, consuming one
      draw per move. A `None` choice is appended to the path, and the next
      round of the loop then asks for the neighbours of `None`, which
      raises. The loop has no other way out, so running out of draws is
      reported as an error of its own. */
  function Walk(g: Graph, current: Node, destination: Node, levels: map<Edge, real>,
                alpha: nat, beta: nat, draws: seq<real>): Result<seq<Node>>
    decreases |draws|
  {
    if current == destination then Ok([current])
    else match Probabilities(g, levels, current, alpha, beta, WalkGamma)
      case Err(e) => Err(e)
      case Ok(ps) =>
        if draws == [] then Err(DrawsExhausted)
        else match Choose(ps, draws[0])
          case None => Err(NodeNotInGraph)
          case Some(next) =>
            match Walk(g, next, destination, levels, alpha, beta, draws[1..])
            case Err(e) => Err(e)
            case Ok(rest) => Ok([current] + rest)
  }

  /** `prefix` put in front of a successful path. */
  function Behind(prefix: seq<Node>, r: Result<seq<Node>>): Result<seq<Node>>
  {
    match r
    case Err(e) => Err(e)
    case Ok(s) => Ok(prefix + s)
  }

  lemma BehindEmpty(r: Result<seq<Node>>)
    ensures Behind([], r) == r
  {
    if r.Ok? {
      assert [] + r.value == r.value;
    }
  }

  lemma BehindStep(prefix: seq<Node>, n: Node, r: Result<seq<Node>>)
    ensures Behind(prefix, Behind([n], r)) == Behind(prefix + [n], r)
  {
    if r.Ok? {
      assert prefix + ([n] + r.value) == (prefix + [n]) + r.value;
    }
  }

  /** The `while current_node != destination` loop of `ant_move`, with the
      random draws supplied. */
  method AntMove(g: Graph, source: Node, destination: Node, levels: map<Edge, real>,
                 alpha: nat, beta: nat, draws: seq<real>)
    returns (r: Result<seq<Node>>)
    ensures r == Walk(g, source, destination, levels, alpha, beta, draws)
  {
    var current := source;
    var path := [current];
    var used := 0;
    assert draws[0..] == draws;
    BehindEmpty(Walk(g, source, destination, levels, alpha, beta, draws));
    while current != destination
      invariant used <= |draws| && path != [] && path[|path| - 1] == current
      invariant Walk(g, source, destination, levels, alpha, beta, draws)
             == Behind(path[..|path| - 1], Walk(g, current, destination, levels, alpha, beta, draws[used..]))
      decreases |draws| - used
    {
      var probabilities := CalculateProbabilities(g, current, levels, alpha, beta, WalkGamma);
      if probabilities.Err? {
        return Err(probabilities.error);
      }
      if used == |draws| {
        return Err(DrawsExhausted);
      }
      var next := ChooseNextNode(probabilities.value, draws[used]);
      if next.None? {
        return Err(NodeNotInGraph);
      }
      assert draws[used..][1..] == draws[used + 1..];
      BehindStep(path[..|path| - 1], current,
                 Walk(g, next.value, destination, levels, alpha, beta, draws[used + 1..]));
      assert (path + [next.value])[..|path|] == path[..|path| - 1] + [current];
      current := next.value;
      path := path + [current];
      used := used + 1;
    }
    assert path[..|path| - 1] + [current] == path;
    r := Ok(path);
  }

  /** A successful walk starts at the source, ends at the destination, meets
      the destination nowhere else, uses at most one draw per move, and each
      next node is the one the step's draw selects. */
  lemma {:induction false} WalkShape(g: Graph, current: Node, destination: Node, levels: map<Edge, real>,
                                     alpha: nat, beta: nat, draws: seq<real>)
    requires Walk(g, current, destination, levels, alpha, beta, draws).Ok?
    ensures var p := Walk(g, current, destination, levels, alpha, beta, draws).value;
      && p != [] && p[0] == current && p[|p| - 1] == destination
      && (forall i :: 0 <= i < |p| - 1 ==> p[i] != destination)
      && |p| <= |draws| + 1
      && forall i :: 0 <= i < |p| - 1 ==> Step(g, levels, p[i], alpha, beta, draws[i]) == Some(p[i + 1])
    decreases |draws|
  {
    if current != destination {
      var ps := Probabilities(g, levels, current, alpha, beta, WalkGamma).value;
      var next := Choose(ps, draws[0]).value;
      var tail := draws[1..];
      WalkShape(g, next, destination, levels, alpha, beta, tail);
      var rest := Walk(g, next, destination, levels, alpha, beta, tail).value;
      var p := [current] + rest;
      forall i | 0 < i < |p| - 1
        ensures p[i] != destination
        ensures Step(g, levels, p[i], alpha, beta, draws[i]) == Some(p[i + 1])
      {
        assert p[i] == rest[i - 1] && p[i + 1] == rest[i] && draws[i] == tail[i - 1];
      }
    }
  }

  /** Every move of a successful walk follows an edge to a neighbour at a
      non-zero distance, so the walked path always has a cost. */
  lemma WalkFollowsEdges(g: Graph, current: Node, destination: Node, levels: map<Edge, real>,
                         alpha: nat, beta: nat, draws: seq<real>)
    requires Walk(g, current, destination, levels, alpha, beta, draws).Ok?
    ensures var p := Walk(g, current, destination, levels, alpha, beta, draws).value;
      && (forall i :: 0 <= i < |p| - 1 ==> Adjacent(g, p[i], p[i + 1]) && EdgeWeight(g, p[i], p[i + 1]) != 0.0)
      && PathCost(g, p).Ok?
  {
    WalkShape(g, current, destination, levels, alpha, beta, draws);
    var p := Walk(g, current, destination, levels, alpha, beta, draws).value;
    forall i | 0 <= i < |p| - 1
      ensures Adjacent(g, p[i], p[i + 1]) && EdgeWeight(g, p[i], p[i + 1]) != 0.0
    {
      assert Step(g, levels, p[i], alpha, beta, draws[i]) == Some(p[i + 1]);
      StepFollowsEdge(g, levels, p[i], alpha, beta, draws[i]);
    }
    EdgesGiveCost(g, p);
  }

  /** A node the step selects is a neighbour at a non-zero distance. */
  lemma StepFollowsEdge(g: Graph, levels: map<Edge, real>, current: Node, alpha: nat, beta: nat, r: real)
    requires Step(g, levels, current, alpha, beta, r).Some?
    ensures Adjacent(g, current, Step(g, levels, current, alpha, beta, r).value)
    ensures EdgeWeight(g, current, Step(g, levels, current, alpha, beta, r).value) != 0.0
  {
    ProbabilitiesExact(g, levels, current, alpha, beta, WalkGamma);
    var ps := Probabilities(g, levels, current, alpha, beta, WalkGamma).value;
    ChosenIsListed(ps, r);
    var i :| 0 <= i < |ps| && ps[i].0 == Choose(ps, r).value;
    assert ps[i].0 == g.adj[current][i];
  }

  lemma {:induction false} EdgesGiveCost(g: Graph, p: seq<Node>)
    requires forall i :: 0 <= i < |p| - 1 ==> Adjacent(g, p[i], p[i + 1])
    ensures PathCost(g, p).Ok?
    decreases |p|
  {
    if |p| >= 2 {
      var tail := p[1..];
      forall i | 0 <= i < |tail| - 1
        ensures Adjacent(g, tail[i], tail[i + 1])
      {
        assert tail[i] == p[i + 1] && tail[i + 1] == p[i + 2];
      }
      EdgesGiveCost(g, tail);
    }
  }

  /** With non-negative weights a successful walk costs nothing only when it
      never moved, that is when the source is the destination; any other
      walked path has a positive cost. */
  lemma ZeroCostWalkStaysPut(g: Graph, source: Node, destination: Node, levels: map<Edge, real>,
                             alpha: nat, beta: nat, draws: seq<real>)
    requires forall e :: e in g.weight ==> g.weight[e] >= 0.0
    requires Walk(g, source, destination, levels, alpha, beta, draws).Ok?
    ensures var p := Walk(g, source, destination, levels, alpha, beta, draws).value;
      PathCost(g, p).Ok? && (PathCost(g, p).value == 0.0 <==> source == destination)
  {
    WalkShape(g, source, destination, levels, alpha, beta, draws);
    WalkFollowsEdges(g, source, destination, levels, alpha, beta, draws);
    var p := Walk(g, source, destination, levels, alpha, beta, draws).value;
    PathCostPositive(g, p);
  }

  /** In exact arithmetic a draw in [0, 1] always selects a neighbour when
      the current node has one, so the `None` choice arises only at a node
      without neighbours. */
  lemma NoneOnlyWithoutNeighbours(g: Graph, levels: map<Edge, real>, current: Node,
                                  alpha: nat, beta: nat, r: real)
    requires 0.0 <= r <= 1.0
    requires Probabilities(g, levels, current, alpha, beta, WalkGamma).Ok?
    ensures Choose(Probabilities(g, levels, current, alpha, beta, WalkGamma).value, r).None?
        <==> g.adj[current] == []
  {
    ProbabilitiesExact(g, levels, current, alpha, beta, WalkGamma);
    var ps := Probabilities(g, levels, current, alpha, beta, WalkGamma).value;
    if ps != [] {
      UnitMassAlwaysChooses(ps, r);
    }
  }
}
