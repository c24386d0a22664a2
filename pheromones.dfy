/** The pheromone field and its once-per-round update (`update_pheromone`). */
module Pheromones {
  import opened Graphs

  type Levels = map<Edge, real>

  /** The `Q` of the deposit rule when the caller passes none. */
  const DefaultDeposit: real := 1.0

  /** The key a deposit is made under: `(min(a, b), max(a, b))`. */
  function Canonical(a: Node, b: Node): Edge
  {
    if a <= b then (a, b) else (b, a)
  }

  /** The key the error handler reads: `(max(a, b), min(a, b))`. */
  function Reversed(a: Node, b: Node): Edge
  {
    if a <= b then (b, a) else (a, b)
  }

  /** Every edge of the graph at level 1.0, keyed as `graph.edges()` yields it. */
  function InitialLevels(g: Graph): (levels: Levels)
    ensures levels.Keys == set i | 0 <= i < |g.edges| :: g.edges[i]
    ensures forall e :: e in levels ==> levels[e] == 1.0
  {
    map e | e in g.edges :: 1.0
  }

  /** A level after one evaporation at `rate`. */
  function Faded(level: real, rate: real): real
  {
    level * (1.0 - rate)
  }

  /** The evaporation loop over `edges`, from the current `levels`; an edge
      the dictionary lacks raises. */
  function Evaporate(levels: Levels, edges: seq<Edge>, rate: real): Result<Levels>
    decreases |edges|
  {
    if edges == [] then Ok(levels)
    else if edges[0] !in levels then Err(MissingKey)
    else Evaporate(levels[edges[0] := Faded(levels[edges[0]], rate)], edges[1..], rate)
  }

  /** One consecutive pair's deposit: added under the `(min, max)` key when
      it is stored; when only the `(max, min)` key is stored the handler just
      reads it and the deposit is lost; when neither is, the read raises. */
  function DepositPair(levels: Levels, a: Node, b: Node, amount: real): Result<Levels>
  {
    var key := Canonical(a, b);
    if key in levels then Ok(levels[key := levels[key] + amount])
    else if Reversed(a, b) in levels then Ok(levels)
    else Err(MissingKey)
  }

  /** The deposits of one path, pair by pair from the front. */
  function DepositPath(levels: Levels, path: seq<Node>, amount: real): Result<Levels>
    decreases |path|
  {
    if |path| <= 1 then Ok(levels)
    else match DepositPair(levels, path[0], path[1], amount)
      case Err(e) => Err(e)
      case Ok(next) => DepositPath(next, path[1..], amount)
  }

  /** The deposits of every ant, in order: `Q / cost` on each pair of its
      path; a zero cost raises before any of its pairs. */
  function DepositAll(levels: Levels, runs: seq<AntRun>, q: real): Result<Levels>
    decreases |runs|
  {
    if runs == [] then Ok(levels)
    else if runs[0].cost == 0.0 then Err(ZeroDivision)
    else match DepositPath(levels, runs[0].path, q / runs[0].cost)
      case Err(e) => Err(e)
      case Ok(next) => DepositAll(next, runs[1..], q)
  }

  /** `update_pheromone`: evaporation over every graph edge, then the deposits. */
  function Update(levels: Levels, edges: seq<Edge>, runs: seq<AntRun>, rate: real, q: real): Result<Levels>
  {
    match Evaporate(levels, edges, rate)
    case Err(e) => Err(e)
    case Ok(evaporated) => DepositAll(evaporated, runs, q)
  }

  /** How many consecutive pairs of `path` deposit under key `k`. */
  function PairCount(path: seq<Node>, k: Edge): nat
    decreases |path|
  {
    if |path| <= 1 then 0
    else (if Canonical(path[0], path[1]) == k then 1 else 0) + PairCount(path[1..], k)
  }

  /** What one path's deposits of `amount` add under key `k`. */
  function DepositedOnPath(path: seq<Node>, k: Edge, amount: real): real
    decreases |path|
  {
    if |path| <= 1 then 0.0
    else (if Canonical(path[0], path[1]) == k then amount else 0.0) + DepositedOnPath(path[1..], k, amount)
  }

  /** Every consecutive pair of `path` is stored under one orientation or the other. */
  predicate PairsStored(keys: set<Edge>, path: seq<Node>)
  {
    forall i :: 0 <= i < |path| - 1 ==>
      Canonical(path[i], path[i + 1]) in keys || Reversed(path[i], path[i + 1]) in keys
  }

  lemma PairsStoredCons(keys: set<Edge>, path: seq<Node>)
    requires |path| > 1
    ensures PairsStored(keys, path) <==>
      (Canonical(path[0], path[1]) in keys || Reversed(path[0], path[1]) in keys) && PairsStored(keys, path[1..])
  {
    var tail := path[1..];
    assert forall i :: 0 < i < |path| ==> path[i] == tail[i - 1];
    if (Canonical(path[0], path[1]) in keys || Reversed(path[0], path[1]) in keys) && PairsStored(keys, tail) {
      forall i | 0 <= i < |path| - 1
        ensures Canonical(path[i], path[i + 1]) in keys || Reversed(path[i], path[i + 1]) in keys
      {
        if i > 0 {
          assert path[i] == tail[i - 1] && path[i + 1] == tail[i];
        }
      }
    }
  }

  /** A path's deposits of `amount` on `k` are `amount` times its pairs under `k`. */
  lemma {:induction false} DepositedOnPathCounts(path: seq<Node>, k: Edge, amount: real)
    ensures DepositedOnPath(path, k, amount) == amount * PairCount(path, k) as real
    decreases |path|
  {
    if |path| > 1 {
      DepositedOnPathCounts(path[1..], k, amount);
      var c := if Canonical(path[0], path[1]) == k then 1 else 0;
      assert amount * (c + PairCount(path[1..], k)) as real
          == amount * c as real + amount * PairCount(path[1..], k) as real;
    }
  }

  predicate PositiveCosts(runs: seq<AntRun>)
  {
    forall j :: 0 <= j < |runs| ==> runs[j].cost != 0.0
  }

  /** The total deposited under key `k` by all the ants. */
  function Deposited(runs: seq<AntRun>, k: Edge, q: real): real
    requires PositiveCosts(runs)
    decreases |runs|
  {
    if runs == [] then 0.0
    else DepositedOnPath(runs[0].path, k, q / runs[0].cost) + Deposited(runs[1..], k, q)
  }

  /** Evaporation succeeds exactly when every listed edge is stored; then the
      key set is unchanged and, when no edge is listed twice, every listed
      edge is scaled by (1 - rate) once and every other key is untouched. */
  lemma {:induction false} EvaporateExact(levels: Levels, edges: seq<Edge>, rate: real)
    ensures Evaporate(levels, edges, rate).Ok? <==> forall i :: 0 <= i < |edges| ==> edges[i] in levels
    ensures Evaporate(levels, edges, rate).Ok? ==> Evaporate(levels, edges, rate).value.Keys == levels.Keys
    ensures Evaporate(levels, edges, rate).Ok? && NoDuplicates(edges) ==>
      forall k :: k in levels ==>
        Evaporate(levels, edges, rate).value[k] == if k in edges then levels[k] * (1.0 - rate) else levels[k]
    decreases |edges|
  {
    if edges != [] {
      var tail := edges[1..];
      if edges[0] in levels {
        var next := levels[edges[0] := Faded(levels[edges[0]], rate)];
        EvaporateExact(next, tail, rate);
        assert forall i :: 0 < i < |edges| ==> edges[i] == tail[i - 1];
        if Evaporate(levels, edges, rate).Ok? && NoDuplicates(edges) {
          assert edges[0] !in tail;
          forall k | k in levels
            ensures Evaporate(levels, edges, rate).value[k] == if k in edges then levels[k] * (1.0 - rate) else levels[k]
          {
            assert k in edges <==> k == edges[0] || k in tail;
          }
        }
      }
    }
  }

  /** A path's deposits succeed exactly when every pair is stored in some
      orientation; the key set is unchanged and each stored key gains the
      amount once for every pair whose `(min, max)` key it is. */
  lemma {:induction false} DepositPathExact(levels: Levels, path: seq<Node>, amount: real)
    ensures DepositPath(levels, path, amount).Ok? <==> PairsStored(levels.Keys, path)
    ensures DepositPath(levels, path, amount).Ok? ==>
      var r := DepositPath(levels, path, amount).value;
      && r.Keys == levels.Keys
      && forall k :: k in levels ==> r[k] == levels[k] + DepositedOnPath(path, k, amount)
    decreases |path|
  {
    if |path| > 1 {
      PairsStoredCons(levels.Keys, path);
      match DepositPair(levels, path[0], path[1], amount)
      case Err(_) =>
      case Ok(next) =>
        DepositPairExact(levels, path[0], path[1], amount);
        DepositPathExact(next, path[1..], amount);
    }
  }

  lemma DepositPairExact(levels: Levels, a: Node, b: Node, amount: real)
    ensures DepositPair(levels, a, b, amount).Ok? <==> Canonical(a, b) in levels || Reversed(a, b) in levels
    ensures DepositPair(levels, a, b, amount).Ok? ==>
      var r := DepositPair(levels, a, b, amount).value;
      && r.Keys == levels.Keys
      && forall k :: k in levels ==> r[k] == levels[k] + (if Canonical(a, b) == k then amount else 0.0)
  {
  }

  /** All deposits succeed exactly when no cost is zero and every pair of
      every path is stored in some orientation; the key set is unchanged and
      the ants' deposits on a key add up. */
  lemma {:induction false} DepositAllExact(levels: Levels, runs: seq<AntRun>, q: real)
    ensures DepositAll(levels, runs, q).Ok? <==>
      PositiveCosts(runs) && forall j :: 0 <= j < |runs| ==> PairsStored(levels.Keys, runs[j].path)
    ensures DepositAll(levels, runs, q).Ok? ==>
      var r := DepositAll(levels, runs, q).value;
      && PositiveCosts(runs)
      && r.Keys == levels.Keys
      && forall k :: k in levels ==> r[k] == levels[k] + Deposited(runs, k, q)
    decreases |runs|
  {
    if runs != [] {
      var tail := runs[1..];
      assert forall j :: 0 < j < |runs| ==> runs[j] == tail[j - 1];
      if runs[0].cost != 0.0 {
        var amount := q / runs[0].cost;
        DepositPathExact(levels, runs[0].path, amount);
        match DepositPath(levels, runs[0].path, amount)
        case Err(_) =>
        case Ok(next) =>
          DepositAllExact(next, tail, q);
      }
    }
  }

  /** `update_pheromone` succeeds exactly when every graph edge is stored, no
      cost is zero and every walked pair is stored in some orientation. Then
      the key set is unchanged, and every key listed once among the edges
      ends at its level times (1 - rate) plus the sum over the ants of
      `Q / cost` for each of their pairs deposited under it. */
  lemma UpdateExact(levels: Levels, edges: seq<Edge>, runs: seq<AntRun>, rate: real, q: real)
    ensures Update(levels, edges, runs, rate, q).Ok? <==>
      && (forall i :: 0 <= i < |edges| ==> edges[i] in levels)
      && PositiveCosts(runs)
      && forall j :: 0 <= j < |runs| ==> PairsStored(levels.Keys, runs[j].path)
    ensures Update(levels, edges, runs, rate, q).Ok? ==>
      var r := Update(levels, edges, runs, rate, q).value;
      && PositiveCosts(runs)
      && r.Keys == levels.Keys
      && (NoDuplicates(edges) ==>
            forall k :: k in levels ==>
              r[k] == (if k in edges then levels[k] * (1.0 - rate) else levels[k]) + Deposited(runs, k, q))
  {
    EvaporateExact(levels, edges, rate);
    match Evaporate(levels, edges, rate)
    case Err(_) =>
    case Ok(evaporated) =>
      DepositAllExact(evaporated, runs, q);
  }

  lemma {:induction false} NothingDepositedOffPaths(runs: seq<AntRun>, k: Edge, q: real)
    requires PositiveCosts(runs)
    requires forall j :: 0 <= j < |runs| ==> PairCount(runs[j].path, k) == 0
    ensures Deposited(runs, k, q) == 0.0
    decreases |runs|
  {
    if runs != [] {
      assert forall j :: 0 < j < |runs| ==> runs[j] == runs[1..][j - 1];
      NothingDepositedOffPaths(runs[1..], k, q);
      DepositedOnPathCounts(runs[0].path, k, q / runs[0].cost);
    }
  }

  /** An edge that lies on no ant's path only evaporates. */
  lemma UntouchedEdgeOnlyEvaporates(levels: Levels, edges: seq<Edge>, runs: seq<AntRun>, rate: real, q: real, k: Edge)
    requires NoDuplicates(edges) && k in edges && k in levels
    requires Update(levels, edges, runs, rate, q).Ok?
    requires forall j :: 0 <= j < |runs| ==> PairCount(runs[j].path, k) == 0
    ensures var r := Update(levels, edges, runs, rate, q).value;
      k in r && r[k] == levels[k] * (1.0 - rate)
  {
    UpdateExact(levels, edges, runs, rate, q);
    NothingDepositedOffPaths(runs, k, q);
  }

  /** With no evaporation and no ants the update leaves the field as it was,
      whenever every listed edge has a level. */
  lemma NoRateNoAntsIsIdentity(levels: Levels, edges: seq<Edge>, q: real)
    requires forall i :: 0 <= i < |edges| ==> edges[i] in levels
    ensures Update(levels, edges, [], 0.0, q) == Ok(levels)
  {
    NoRateIsIdentity(levels, edges);
  }

  /** Evaporating at rate zero rewrites every listed level with itself. */
  lemma {:induction false} NoRateIsIdentity(levels: Levels, edges: seq<Edge>)
    requires forall i :: 0 <= i < |edges| ==> edges[i] in levels
    ensures Evaporate(levels, edges, 0.0) == Ok(levels)
    decreases |edges|
  {
    if edges != [] {
      var e := edges[0];
      assert Faded(levels[e], 0.0) == levels[e];
      assert levels[e := Faded(levels[e], 0.0)] == levels;
      assert forall i :: 0 <= i < |edges[1..]| ==> edges[1..][i] == edges[i + 1];
      NoRateIsIdentity(levels, edges[1..]);
    }
  }

  lemma {:induction false} DepositedOnPathNonNegative(path: seq<Node>, k: Edge, amount: real)
    requires amount >= 0.0
    ensures DepositedOnPath(path, k, amount) >= 0.0
    decreases |path|
  {
    if |path| > 1 {
      DepositedOnPathNonNegative(path[1..], k, amount);
    }
  }

  lemma {:induction false} DepositedNonNegative(runs: seq<AntRun>, k: Edge, q: real)
    requires q >= 0.0
    requires forall j :: 0 <= j < |runs| ==> runs[j].cost > 0.0
    ensures PositiveCosts(runs) && Deposited(runs, k, q) >= 0.0
    decreases |runs|
  {
    if runs != [] {
      assert forall j :: 0 < j < |runs| ==> runs[j] == runs[1..][j - 1];
      DepositedNonNegative(runs[1..], k, q);
      DivisionNonNegative(q, runs[0].cost);
      DepositedOnPathNonNegative(runs[0].path, k, q / runs[0].cost);
    }
  }

  lemma DivisionNonNegative(x: real, y: real)
    requires x >= 0.0 && y > 0.0
    ensures x / y >= 0.0
  {
  }

  /** A positive level, evaporated at a rate below one, stays positive
      after a non-negative deposit. */
  lemma FadedPlusDepositPositive(level: real, rate: real, deposited: real)
    requires level > 0.0 && rate < 1.0 && deposited >= 0.0
    ensures level * (1.0 - rate) + deposited > 0.0
  {
    var kept := 1.0 - rate;
    assert kept > 0.0;
    assert level * kept > 0.0;
  }

  /** With rate < 1, Q >= 0 and positive costs, positive levels stay positive
      through an update. */
  lemma UpdateKeepsLevelsPositive(levels: Levels, edges: seq<Edge>, runs: seq<AntRun>, rate: real, q: real)
    requires NoDuplicates(edges) && rate < 1.0 && q >= 0.0
    requires forall k :: k in levels ==> levels[k] > 0.0
    requires forall j :: 0 <= j < |runs| ==> runs[j].cost > 0.0
    requires Update(levels, edges, runs, rate, q).Ok?
    ensures var r := Update(levels, edges, runs, rate, q).value;
      forall k :: k in r ==> r[k] > 0.0
  {
    UpdateExact(levels, edges, runs, rate, q);
    var r := Update(levels, edges, runs, rate, q).value;
    forall k | k in levels
      ensures r[k] > 0.0
    {
      DepositedNonNegative(runs, k, q);
      var deposited := Deposited(runs, k, q);
      if k in edges {
        FadedPlusDepositPositive(levels[k], rate, deposited);
        assert r[k] == levels[k] * (1.0 - rate) + deposited;
      } else {
        assert r[k] == levels[k] + deposited;
      }
    }
  }

  /** When only the `(max, min)` orientation of a pair is stored, its deposit
      is lost: the field is left exactly as it was. */
  lemma LostDeposit(levels: Levels, a: Node, b: Node, amount: real)
    requires Canonical(a, b) !in levels && Reversed(a, b) in levels
    ensures DepositPath(levels, [a, b], amount) == Ok(levels)
  {
  }

  /** An ant whose walk never left the source has cost zero, and the update
      raises on it once evaporation has gone through. */
  lemma ZeroCostRaises(levels: Levels, edges: seq<Edge>, runs: seq<AntRun>, rate: real, q: real)
    requires Evaporate(levels, edges, rate).Ok?
    requires runs != [] && runs[0].cost == 0.0
    ensures Update(levels, edges, runs, rate, q) == Err(ZeroDivision)
  {
  }

  lemma EvaporateStep(levels: Levels, edges: seq<Edge>, i: nat, runs: seq<AntRun>, rate: real, q: real)
    requires i < |edges| && edges[i] in levels
    ensures Update(levels, edges[i..], runs, rate, q)
         == Update(levels[edges[i] := Faded(levels[edges[i]], rate)], edges[i + 1..], runs, rate, q)
  {
    assert edges[i..][1..] == edges[i + 1..];
    assert Evaporate(levels, edges[i..], rate)
        == Evaporate(levels[edges[i] := Faded(levels[edges[i]], rate)], edges[i + 1..], rate);
  }

  /** The field `pheromone_levels`, which the update changes in place. */
  class PheromoneField {
    var levels: Levels

    /** `{edge: 1.0 for edge in graph.edges()}`. */
    constructor (g: Graph)
      ensures levels == InitialLevels(g)
    {
      levels := InitialLevels(g);
    }

    /** `update_pheromone(graph, pheromone_levels, ant_paths, rate, Q)`:
        on success the field holds the updated levels; on an exception the
        caller discards the field, so its partial state is not described. */
    method UpdatePheromone(g: Graph, runs: seq<AntRun>, rate: real, q: real) returns (r: Result<()>)
      modifies this
      ensures r.Ok? <==> Update(old(levels), g.edges, runs, rate, q).Ok?
      ensures r.Err? ==> r.error == Update(old(levels), g.edges, runs, rate, q).error
      ensures r.Ok? ==> levels == Update(old(levels), g.edges, runs, rate, q).value
    {
      ghost var whole := Update(levels, g.edges, runs, rate, q);
      assert g.edges[0..] == g.edges;
      for i := 0 to |g.edges|
        invariant whole == Update(levels, g.edges[i..], runs, rate, q)
      {
        var edge := g.edges[i];
        if edge !in levels {
          return Err(MissingKey);
        }
        EvaporateStep(levels, g.edges, i, runs, rate, q);
        levels := levels[edge := Faded(levels[edge], rate)];
      }
      assert g.edges[|g.edges|..] == [];
      assert runs[0..] == runs;
      for j := 0 to |runs|
        invariant whole == DepositAll(levels, runs[j..], q)
      {
        var path := runs[j].path;
        if runs[j].cost == 0.0 {
          return Err(ZeroDivision);
        }
        var deposit := q / runs[j].cost;
        ghost var before := levels;
        assert runs[j..][1..] == runs[j + 1..];
        assert whole == Then(DepositPath(before, path, deposit), runs[j + 1..], q);
        var i := 0;
        assert path[0..] == path;
        while i + 1 < |path|
          invariant i <= |path|
          invariant DepositPath(before, path, deposit) == DepositPath(levels, path[i..], deposit)
        {
          var edge := Canonical(path[i], path[i + 1]);
          if edge !in levels {
            if Reversed(path[i], path[i + 1]) !in levels {
              return Err(MissingKey);
            }
          } else {
            levels := levels[edge := levels[edge] + deposit];
          }
          assert path[i..][1..] == path[i + 1..];
          i := i + 1;
        }
      }
      assert runs[|runs|..] == [];
      r := Ok(());
    }
  }

  /** The deposits of the ants after `r`'s path, if that path's went through. */
  function Then(r: Result<Levels>, rest: seq<AntRun>, q: real): Result<Levels>
  {
    match r
    case Err(e) => Err(e)
    case Ok(next) => DepositAll(next, rest, q)
  }
}
