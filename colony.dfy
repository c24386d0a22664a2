/** The outer loop (`ant_colony_optimisation`): rounds of walks, one
    pheromone update per round, and the best run found; and `find_node`. */
module Colony {
  import opened Graphs
  import opened Scoring
  import opened Roulette
  import opened PathCosts
  import opened Walks
  import opened Pheromones

  /** `find_node`: the target itself when it is a node of the graph. */
  function FindNode(g: Graph, target: Node): (r: Option<Node>)
    ensures r.Some? <==> target in g.adj
    ensures r.Some? ==> r.value == target
  {
    if target in g.adj then Some(target) else None
  }

  /** The best run so far after looking at `run`: `None` stands for the
      initial `best_distance` of +infinity, and only a strictly smaller cost
      replaces the best. */
  function Improve(best: Option<AntRun>, run: AntRun): Option<AntRun>
  {
    if best.None? || run.cost < best.value.cost then Some(run) else best
  }

  /** The best run after looking at `runs` in order. */
  function Track(best: Option<AntRun>, runs: seq<AntRun>): Option<AntRun>
    decreases |runs|
  {
    if runs == [] then best else Track(Improve(best, runs[0]), runs[1..])
  }

  /** The best-solution loop that closes each round. */
  method UpdateBest(best: Option<AntRun>, runs: seq<AntRun>) returns (newBest: Option<AntRun>)
    ensures newBest == Track(best, runs)
  {
    newBest := best;
    assert runs[0..] == runs;
    for j := 0 to |runs|
      invariant Track(best, runs) == Track(newBest, runs[j..])
    {
      var run := runs[j];
      if newBest.None? || run.cost < newBest.value.cost {
        newBest := Some(run);
      }
      assert runs[j..][1..] == runs[j + 1..];
    }
  }

  /** Tracking over two lists in a row is tracking over their concatenation. */
  lemma {:induction false} TrackAppend(best: Option<AntRun>, runs: seq<AntRun>, more: seq<AntRun>)
    ensures Track(best, runs + more) == Track(Track(best, runs), more)
    decreases |runs|
  {
    if runs == [] {
      assert runs + more == more;
    } else {
      assert (runs + more)[1..] == runs[1..] + more;
      TrackAppend(Improve(best, runs[0]), runs[1..], more);
    }
  }

  /** The best distance never grows: the tracked cost is at most the
      starting best's and at most every cost looked at, and a best exists
      once any run has been looked at. */
  lemma {:induction false} TrackNonIncreasing(best: Option<AntRun>, runs: seq<AntRun>)
    ensures Track(best, runs).Some? <==> best.Some? || runs != []
    ensures best.Some? ==> Track(best, runs).value.cost <= best.value.cost
    ensures forall j :: 0 <= j < |runs| ==> Track(best, runs).value.cost <= runs[j].cost
    decreases |runs|
  {
    if runs != [] {
      var tail := runs[1..];
      TrackNonIncreasing(Improve(best, runs[0]), tail);
      assert forall j :: 0 < j < |runs| ==> runs[j] == tail[j - 1];
    }
  }

  /** `r` is `runs[k]`, strictly cheaper than `best` when there is one, no
      dearer than any run, and strictly cheaper than every run before it. */
  predicate FirstLeast(best: Option<AntRun>, runs: seq<AntRun>, r: Option<AntRun>, k: int)
  {
    && 0 <= k < |runs| && r == Some(runs[k])
    && (best.Some? ==> runs[k].cost < best.value.cost)
    && (forall j :: 0 <= j < |runs| ==> runs[k].cost <= runs[j].cost)
    && (forall j :: 0 <= j < k ==> runs[j].cost > runs[k].cost)
  }

  /** `r` is the starting `best`, which exists when there are runs, and
      no run is strictly cheaper than it. */
  predicate Kept(best: Option<AntRun>, runs: seq<AntRun>, r: Option<AntRun>)
  {
    r == best && forall j :: 0 <= j < |runs| ==> best.Some? && runs[j].cost >= best.value.cost
  }

  /** Tracking keeps the starting best when no run is strictly cheaper (so
      from no best, only over no runs);
      otherwise it ends at the first run of least cost, which is strictly
      cheaper than the starting best. */
  lemma {:induction false} TrackCharacterised(best: Option<AntRun>, runs: seq<AntRun>)
    ensures var r := Track(best, runs);
      Kept(best, runs, r) || exists k :: FirstLeast(best, runs, r, k)
    decreases |runs|
  {
    if runs != [] {
      var next := Improve(best, runs[0]);
      TrackCharacterised(next, runs[1..]);
      if Kept(next, runs[1..], Track(next, runs[1..])) {
        if next == best {
          KeptBestStays(best, runs);
        } else {
          FirstRunWins(best, runs);
          assert FirstLeast(best, runs, Track(best, runs), 0);
        }
      } else {
        var k :| FirstLeast(next, runs[1..], Track(next, runs[1..]), k);
        LaterRunWins(best, runs, k);
        assert FirstLeast(best, runs, Track(best, runs), k + 1);
      }
    }
  }

  /** A starting best that the first run does not beat, and that no later
      run beats, is kept. */
  lemma KeptBestStays(best: Option<AntRun>, runs: seq<AntRun>)
    requires runs != [] && Improve(best, runs[0]) == best
    requires Kept(best, runs[1..], Track(best, runs[1..]))
    ensures Kept(best, runs, Track(best, runs))
  {
    assert best.Some?;
    forall j | 0 <= j < |runs|
      ensures runs[j].cost >= best.value.cost
    {
      if j > 0 {
        assert runs[j] == runs[1..][j - 1];
      }
    }
  }

  /** A first run that beats the starting best and is never beaten later is
      the first run of least cost. */
  lemma FirstRunWins(best: Option<AntRun>, runs: seq<AntRun>)
    requires runs != [] && Improve(best, runs[0]) != best
    requires Kept(Improve(best, runs[0]), runs[1..], Track(Improve(best, runs[0]), runs[1..]))
    ensures FirstLeast(best, runs, Track(best, runs), 0)
  {
    assert Improve(best, runs[0]) == Some(runs[0]);
    assert Track(best, runs) == Some(runs[0]);
    forall j | 0 <= j < |runs|
      ensures runs[0].cost <= runs[j].cost
    {
      if j > 0 {
        assert runs[j] == runs[1..][j - 1];
      }
    }
  }

  /** When a later run is the first of least cost after the first step, it
      is also the first of least cost from the start. */
  lemma LaterRunWins(best: Option<AntRun>, runs: seq<AntRun>, k: int)
    requires runs != []
    requires FirstLeast(Improve(best, runs[0]), runs[1..], Track(Improve(best, runs[0]), runs[1..]), k)
    ensures FirstLeast(best, runs, Track(best, runs), k + 1)
  {
    var tail := runs[1..];
    assert runs[k + 1] == tail[k];
    assert runs[0].cost > tail[k].cost;
    forall j | 0 <= j < |runs|
      ensures runs[k + 1].cost <= runs[j].cost
      ensures j < k + 1 ==> runs[j].cost > runs[k + 1].cost
    {
      if j > 0 {
        assert runs[j] == tail[j - 1];
      }
    }
  }

  /** With no earlier best (an initial distance of +infinity), tracking a
      non-empty list picks the first run of least cost: ties keep the
      earliest. */
  lemma TrackFirstMinimum(runs: seq<AntRun>)
    requires runs != []
    ensures exists k :: FirstLeast(None, runs, Track(None, runs), k)
  {
    TrackCharacterised(None, runs);
  }

  /** One round's ants, each walking with its own draws from the source, in
      order, each run paired with its path's cost. */
  function RoundRuns(g: Graph, source: Node, destination: Node, levels: Levels,
                     alpha: nat, beta: nat, ants: seq<seq<real>>): Result<seq<AntRun>>
    decreases |ants|
  {
    if ants == [] then Ok([])
    else match Walk(g, source, destination, levels, alpha, beta, ants[0])
      case Err(e) => Err(e)
      case Ok(path) =>
        match PathCost(g, path)
        case Err(e) => Err(e)
        case Ok(cost) =>
          match RoundRuns(g, source, destination, levels, alpha, beta, ants[1..])
          case Err(e) => Err(e)
          case Ok(rest) => Ok([AntRun(path, cost)] + rest)
  }

  /** Every round's runs, in order, the pheromone field being updated once
      at the end of each round with the default deposit. */
  function Rounds(g: Graph, source: Node, destination: Node, levels: Levels, rate: real,
                  alpha: nat, beta: nat, rounds: seq<seq<seq<real>>>): Result<seq<AntRun>>
    decreases |rounds|
  {
    if rounds == [] then Ok([])
    else match RoundRuns(g, source, destination, levels, alpha, beta, rounds[0])
      case Err(e) => Err(e)
      case Ok(runs) =>
        match Update(levels, g.edges, runs, rate, DefaultDeposit)
        case Err(e) => Err(e)
        case Ok(next) =>
          match Rounds(g, source, destination, next, rate, alpha, beta, rounds[1..])
          case Err(e) => Err(e)
          case Ok(rest) => Ok(runs + rest)
  }

  /** `ant_colony_optimisation` as a function of the graph, its parameters
      and the draws of every ant of every round: the cheapest run found, or
      the error that escaped. With no run at all the best solution is still
      `None` and converting it to points fails. */
  function Colony(g: Graph, source: Node, destination: Node, rate: real,
                  alpha: nat, beta: nat, rounds: seq<seq<seq<real>>>): Result<AntRun>
  {
    match Rounds(g, source, destination, InitialLevels(g), rate, alpha, beta, rounds)
    case Err(e) => Err(e)
    case Ok(runs) =>
      match Track(None, runs)
      case None => Err(NoSolution)
      case Some(best) => Ok(best)
  }

  /** `prefix` put in front of a successful list of runs. */
  function RunsBehind(prefix: seq<AntRun>, r: Result<seq<AntRun>>): Result<seq<AntRun>>
  {
    match r
    case Err(e) => Err(e)
    case Ok(s) => Ok(prefix + s)
  }

  lemma RunsBehindEmpty(r: Result<seq<AntRun>>)
    ensures RunsBehind([], r) == r
  {
    if r.Ok? {
      assert [] + r.value == r.value;
    }
  }

  lemma RunsBehindAppend(prefix: seq<AntRun>, more: seq<AntRun>, r: Result<seq<AntRun>>)
    ensures RunsBehind(prefix, RunsBehind(more, r)) == RunsBehind(prefix + more, r)
  {
    if r.Ok? {
      assert prefix + (more + r.value) == (prefix + more) + r.value;
    }
  }

  /** The two nested loops of `ant_colony_optimisation`, with the random
      draws of ant `a` in round `i` supplied as `draws[i][a]`. */
  method AntColonyOptimisation(g: Graph, source: Node, destination: Node, numAnts: nat, iterations: nat,
                               evaporationRate: real, alpha: nat, beta: nat, draws: seq<seq<seq<real>>>)
    returns (result: Result<AntRun>)
    requires |draws| == iterations
    requires forall i :: 0 <= i < |draws| ==> |draws[i]| == numAnts
    ensures result == Colony(g, source, destination, evaporationRate, alpha, beta, draws)
  {
    var field := new PheromoneField(g);
    var best: Option<AntRun> := None;
    ghost var seen: seq<AntRun> := [];
    ghost var whole := Rounds(g, source, destination, field.levels, evaporationRate, alpha, beta, draws);
    RunsBehindEmpty(whole);
    assert draws[0..] == draws;
    for round := 0 to iterations
      invariant fresh(field)
      invariant whole == RunsBehind(seen, Rounds(g, source, destination, field.levels, evaporationRate, alpha, beta, draws[round..]))
      invariant best == Track(None, seen)
    {
      var antPaths: seq<AntRun> := [];
      ghost var levels := field.levels;
      ghost var roundWhole := RoundRuns(g, source, destination, levels, alpha, beta, draws[round]);
      RunsBehindEmpty(roundWhole);
      assert draws[round][0..] == draws[round];
      for ant := 0 to numAnts
        invariant field.levels == levels
        invariant roundWhole == RunsBehind(antPaths, RoundRuns(g, source, destination, levels, alpha, beta, draws[round][ant..]))
      {
        var path := AntMove(g, source, destination, field.levels, alpha, beta, draws[round][ant]);
        if path.Err? {
          return Err(path.error);
        }
        var distance := CalculatePathDistance(g, path.value);
        if distance.Err? {
          return Err(distance.error);
        }
        assert draws[round][ant..][1..] == draws[round][ant + 1..];
        RunsBehindAppend(antPaths, [AntRun(path.value, distance.value)],
                         RoundRuns(g, source, destination, levels, alpha, beta, draws[round][ant + 1..]));
        antPaths := antPaths + [AntRun(path.value, distance.value)];
      }
      assert draws[round][numAnts..] == [];
      assert antPaths + [] == antPaths;
      var updated := field.UpdatePheromone(g, antPaths, evaporationRate, DefaultDeposit);
      if updated.Err? {
        return Err(updated.error);
      }
      best := UpdateBest(best, antPaths);
      TrackAppend(None, seen, antPaths);
      assert draws[round..][1..] == draws[round + 1..];
      RunsBehindAppend(seen, antPaths,
                       Rounds(g, source, destination, field.levels, evaporationRate, alpha, beta, draws[round + 1..]));
      seen := seen + antPaths;
    }
    assert draws[iterations..] == [];
    assert seen + [] == seen;
    if best.None? {
      return Err(NoSolution);
    }
    result := Ok(best.value);
  }

  /** A run as an ant produces it: a path from the source to the destination
      whose cost is the recorded one. */
  predicate ValidRun(g: Graph, source: Node, destination: Node, run: AntRun)
  {
    && run.path != [] && run.path[0] == source && run.path[|run.path| - 1] == destination
    && PathCost(g, run.path) == Ok(run.cost)
  }

  predicate AllValid(g: Graph, source: Node, destination: Node, runs: seq<AntRun>)
  {
    forall j :: 0 <= j < |runs| ==> ValidRun(g, source, destination, runs[j])
  }

  lemma AllValidAppend(g: Graph, source: Node, destination: Node, runs: seq<AntRun>, more: seq<AntRun>)
    requires AllValid(g, source, destination, runs) && AllValid(g, source, destination, more)
    ensures AllValid(g, source, destination, runs + more)
  {
    var joined := runs + more;
    forall j | |runs| <= j < |joined|
      ensures ValidRun(g, source, destination, joined[j])
    {
      assert joined[j] == more[j - |runs|];
    }
  }

  /** A round succeeds exactly when every ant's walk does; then there is one
      run per ant, in order, holding that ant's walk. */
  lemma {:induction false} RoundRunsExact(g: Graph, source: Node, destination: Node, levels: Levels,
                                          alpha: nat, beta: nat, ants: seq<seq<real>>)
    ensures RoundRuns(g, source, destination, levels, alpha, beta, ants).Ok? <==>
      forall a :: 0 <= a < |ants| ==> Walk(g, source, destination, levels, alpha, beta, ants[a]).Ok?
    ensures RoundRuns(g, source, destination, levels, alpha, beta, ants).Ok? ==>
      var runs := RoundRuns(g, source, destination, levels, alpha, beta, ants).value;
      && |runs| == |ants|
      && forall a :: 0 <= a < |ants| ==> Walk(g, source, destination, levels, alpha, beta, ants[a]) == Ok(runs[a].path)
    decreases |ants|
  {
    if ants != [] {
      var tail := ants[1..];
      RoundRunsExact(g, source, destination, levels, alpha, beta, tail);
      assert forall a :: 0 < a < |ants| ==> ants[a] == tail[a - 1];
      if Walk(g, source, destination, levels, alpha, beta, ants[0]).Ok? {
        WalkFollowsEdges(g, source, destination, levels, alpha, beta, ants[0]);
      }
    }
  }

  /** Every run of a successful round goes from the source to the
      destination at its recorded cost. */
  lemma {:induction false} RoundRunsValid(g: Graph, source: Node, destination: Node, levels: Levels,
                                          alpha: nat, beta: nat, ants: seq<seq<real>>)
    requires RoundRuns(g, source, destination, levels, alpha, beta, ants).Ok?
    ensures var runs := RoundRuns(g, source, destination, levels, alpha, beta, ants).value;
      |runs| == |ants| && AllValid(g, source, destination, runs)
    decreases |ants|
  {
    if ants != [] {
      var path := Walk(g, source, destination, levels, alpha, beta, ants[0]).value;
      WalkShape(g, source, destination, levels, alpha, beta, ants[0]);
      RoundRunsValid(g, source, destination, levels, alpha, beta, ants[1..]);
      var rest := RoundRuns(g, source, destination, levels, alpha, beta, ants[1..]).value;
      var run := AntRun(path, PathCost(g, path).value);
      assert ValidRun(g, source, destination, run);
      AllValidAppend(g, source, destination, [run], rest);
    }
  }

  /** Every round has `numAnts` ants. */
  predicate Shaped(rounds: seq<seq<seq<real>>>, numAnts: nat)
  {
    forall i :: 0 <= i < |rounds| ==> |rounds[i]| == numAnts
  }

  lemma ShapedTail(rounds: seq<seq<seq<real>>>, numAnts: nat)
    requires rounds != [] && Shaped(rounds, numAnts)
    ensures |rounds[0]| == numAnts && Shaped(rounds[1..], numAnts)
  {
    var tail := rounds[1..];
    assert forall i :: 0 < i < |rounds| ==> rounds[i] == tail[i - 1];
  }

  /** The pheromone field after the first round. */
  function AfterFirstRound(g: Graph, levels: Levels, first: seq<AntRun>, rate: real): Levels
    requires Update(levels, g.edges, first, rate, DefaultDeposit).Ok?
  {
    Update(levels, g.edges, first, rate, DefaultDeposit).value
  }

  /** A successful run of the rounds is the first round's runs followed by
      the runs of the remaining rounds over the updated field. */
  lemma RoundsStep(g: Graph, source: Node, destination: Node, levels: Levels, rate: real,
                   alpha: nat, beta: nat, rounds: seq<seq<seq<real>>>)
    requires rounds != []
    requires Rounds(g, source, destination, levels, rate, alpha, beta, rounds).Ok?
    ensures RoundRuns(g, source, destination, levels, alpha, beta, rounds[0]).Ok?
    ensures var first := RoundRuns(g, source, destination, levels, alpha, beta, rounds[0]).value;
      && Update(levels, g.edges, first, rate, DefaultDeposit).Ok?
      && var next := AfterFirstRound(g, levels, first, rate);
      && Rounds(g, source, destination, next, rate, alpha, beta, rounds[1..]).Ok?
      && Rounds(g, source, destination, levels, rate, alpha, beta, rounds).value
         == first + Rounds(g, source, destination, next, rate, alpha, beta, rounds[1..]).value
  {
  }

  lemma OneMoreRound(rounds: nat, numAnts: nat)
    ensures (rounds + 1) * numAnts == numAnts + rounds * numAnts
  {
  }

  /** A successful run of every round yields one valid run per ant per
      round. */
  lemma {:induction false} RoundsValid(g: Graph, source: Node, destination: Node, levels: Levels, rate: real,
                                       alpha: nat, beta: nat, rounds: seq<seq<seq<real>>>, numAnts: nat)
    requires Shaped(rounds, numAnts)
    requires Rounds(g, source, destination, levels, rate, alpha, beta, rounds).Ok?
    ensures var runs := Rounds(g, source, destination, levels, rate, alpha, beta, rounds).value;
      |runs| == |rounds| * numAnts && AllValid(g, source, destination, runs)
    decreases |rounds|
  {
    if rounds != [] {
      RoundsStep(g, source, destination, levels, rate, alpha, beta, rounds);
      ShapedTail(rounds, numAnts);
      var first := RoundRuns(g, source, destination, levels, alpha, beta, rounds[0]).value;
      RoundRunsValid(g, source, destination, levels, alpha, beta, rounds[0]);
      var next := AfterFirstRound(g, levels, first, rate);
      var tail := rounds[1..];
      RoundsValid(g, source, destination, next, rate, alpha, beta, tail, numAnts);
      var rest := Rounds(g, source, destination, next, rate, alpha, beta, tail).value;
      AllValidAppend(g, source, destination, first, rest);
      OneMoreRound(|tail|, numAnts);
    }
  }

  /** The answer is the first run of least cost among all the runs of all
      the rounds, and it goes from the source to the destination at its
      recorded cost. */
  lemma ColonyIsFirstCheapest(g: Graph, source: Node, destination: Node, rate: real,
                              alpha: nat, beta: nat, rounds: seq<seq<seq<real>>>, numAnts: nat)
    requires Shaped(rounds, numAnts)
    requires Colony(g, source, destination, rate, alpha, beta, rounds).Ok?
    ensures Rounds(g, source, destination, InitialLevels(g), rate, alpha, beta, rounds).Ok?
    ensures var runs := Rounds(g, source, destination, InitialLevels(g), rate, alpha, beta, rounds).value;
      var best := Colony(g, source, destination, rate, alpha, beta, rounds).value;
      && |runs| == |rounds| * numAnts
      && (exists k :: FirstLeast(None, runs, Some(best), k))
      && AllValid(g, source, destination, runs)
      && ValidRun(g, source, destination, best)
  {
    var runs := Rounds(g, source, destination, InitialLevels(g), rate, alpha, beta, rounds).value;
    RoundsValid(g, source, destination, InitialLevels(g), rate, alpha, beta, rounds, numAnts);
    TrackFirstMinimum(runs);
  }

  /** Rounds without ants never fail when the field stores every edge of
      the graph, since the update then keeps the key set. */
  lemma {:induction false} AntlessRoundsSucceed(g: Graph, source: Node, destination: Node, levels: Levels,
                                                rate: real, alpha: nat, beta: nat, rounds: seq<seq<seq<real>>>)
    requires forall i :: 0 <= i < |g.edges| ==> g.edges[i] in levels
    requires Shaped(rounds, 0)
    ensures Rounds(g, source, destination, levels, rate, alpha, beta, rounds) == Ok([])
    decreases |rounds|
  {
    if rounds != [] {
      ShapedTail(rounds, 0);
      assert RoundRuns(g, source, destination, levels, alpha, beta, rounds[0]) == Ok([]);
      UpdateExact(levels, g.edges, [], rate, DefaultDeposit);
      var next := AfterFirstRound(g, levels, [], rate);
      assert forall i :: 0 <= i < |g.edges| ==> g.edges[i] in next;
      AntlessRoundsSucceed(g, source, destination, next, rate, alpha, beta, rounds[1..]);
      var none: seq<AntRun> := [];
      assert none + none == none;
    }
  }

  /** No iteration or no ant: the best solution is never set and the final
      conversion fails, whatever the graph. */
  lemma NoAntsNoSolution(g: Graph, source: Node, destination: Node, rate: real,
                         alpha: nat, beta: nat, rounds: seq<seq<seq<real>>>)
    requires Shaped(rounds, 0)
    ensures Colony(g, source, destination, rate, alpha, beta, rounds) == Err(NoSolution)
  {
    AntlessRoundsSucceed(g, source, destination, InitialLevels(g), rate, alpha, beta, rounds);
  }

  /** When every round runs, the best solution is missing exactly when there
      was no run at all. */
  lemma NoSolutionOnlyWithoutRuns(g: Graph, source: Node, destination: Node, rate: real,
                                  alpha: nat, beta: nat, rounds: seq<seq<seq<real>>>)
    requires Rounds(g, source, destination, InitialLevels(g), rate, alpha, beta, rounds).Ok?
    ensures Colony(g, source, destination, rate, alpha, beta, rounds) == Err(NoSolution)
        <==> Rounds(g, source, destination, InitialLevels(g), rate, alpha, beta, rounds).value == []
  {
    TrackNonIncreasing(None, Rounds(g, source, destination, InitialLevels(g), rate, alpha, beta, rounds).value);
  }

  /** When the source is the destination every ant's path is the source
      alone, of cost zero, so the first update divides `Q` by zero: any run
      with at least one ant raises. */
  lemma SourceIsDestinationRaises(g: Graph, node: Node, rate: real,
                                  alpha: nat, beta: nat, rounds: seq<seq<seq<real>>>)
    requires rounds != [] && rounds[0] != []
    ensures Colony(g, node, node, rate, alpha, beta, rounds) == Err(ZeroDivision)
  {
    var levels := InitialLevels(g);
    RoundRunsExact(g, node, node, levels, alpha, beta, rounds[0]);
    var runs := RoundRuns(g, node, node, levels, alpha, beta, rounds[0]).value;
    assert runs[0].path == [node];
    assert runs[0].cost == 0.0;
    EvaporateExact(levels, g.edges, rate);
    assert forall i :: 0 <= i < |g.edges| ==> g.edges[i] in levels;
  }

  /** On a networkx graph every adjacent pair is stored in the field under
      one orientation or the other, so a path along edges never makes the
      deposit's read raise. */
  lemma WalkedPairsStored(g: Graph, levels: Levels, path: seq<Node>)
    requires WellFormed(g)
    requires levels.Keys == set i | 0 <= i < |g.edges| :: g.edges[i]
    requires forall i :: 0 <= i < |path| - 1 ==> Adjacent(g, path[i], path[i + 1])
    ensures PairsStored(levels.Keys, path)
  {
    forall i | 0 <= i < |path| - 1
      ensures Canonical(path[i], path[i + 1]) in levels.Keys || Reversed(path[i], path[i + 1]) in levels.Keys
    {
      var u, v := path[i], path[i + 1];
      assert (u, v) in g.edges || (v, u) in g.edges;
      if (u, v) in g.edges {
        var k :| 0 <= k < |g.edges| && g.edges[k] == (u, v);
      } else {
        var k :| 0 <= k < |g.edges| && g.edges[k] == (v, u);
      }
    }
  }

  /** On a networkx graph with the field keyed by its edges, the update that
      closes a round whose walks all succeeded raises only when some ant's
      path costs nothing, which with non-negative distances means only when
      the source is the destination; it then keeps the key set. */
  lemma RoundUpdateSucceeds(g: Graph, source: Node, destination: Node, levels: Levels,
                            alpha: nat, beta: nat, ants: seq<seq<real>>, rate: real)
    requires WellFormed(g)
    requires levels.Keys == set i | 0 <= i < |g.edges| :: g.edges[i]
    requires RoundRuns(g, source, destination, levels, alpha, beta, ants).Ok?
    ensures var runs := RoundRuns(g, source, destination, levels, alpha, beta, ants).value;
      && (Update(levels, g.edges, runs, rate, DefaultDeposit).Ok? <==> source != destination || ants == [])
      && (Update(levels, g.edges, runs, rate, DefaultDeposit).Ok? ==>
            Update(levels, g.edges, runs, rate, DefaultDeposit).value.Keys == levels.Keys)
  {
    var runs := RoundRuns(g, source, destination, levels, alpha, beta, ants).value;
    RoundRunsExact(g, source, destination, levels, alpha, beta, ants);
    RoundRunsValid(g, source, destination, levels, alpha, beta, ants);
    assert forall i :: 0 <= i < |g.edges| ==> g.edges[i] in levels;
    UpdateExact(levels, g.edges, runs, rate, DefaultDeposit);
    forall a | 0 <= a < |runs|
      ensures runs[a].cost != 0.0 <==> source != destination
      ensures PairsStored(levels.Keys, runs[a].path)
    {
      assert ValidRun(g, source, destination, runs[a]);
      WalkFollowsEdges(g, source, destination, levels, alpha, beta, ants[a]);
      ZeroCostWalkStaysPut(g, source, destination, levels, alpha, beta, ants[a]);
      WalkedPairsStored(g, levels, runs[a].path);
    }
    if source == destination && ants != [] {
      assert runs[0].cost == 0.0;
    }
  }
}
