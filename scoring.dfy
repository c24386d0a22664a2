/** Neighbour scoring and normalisation (`calculate_probabilities`). */
module Scoring {
  import opened Graphs

  /** A neighbour paired with its score or its probability. */
  type Choice = (Node, real)

  /** Pheromone of an edge neither orientation of which is stored. */
  const DefaultPheromone: real := 1.0
  /** Population of a node without a "sum_population" attribute. */
  const DefaultPopulation: real := 60.0
  /** Calibration bounds of the population normalisation. */
  const PopulationLow: real := 6.0
  const PopulationHigh: real := 150.0

  /** `x ** n` for a whole exponent; `Pow(x, 0) == 1.0` for every `x`. */
  function Pow(x: real, n: nat): real
  {
    if n == 0 then 1.0 else x * Pow(x, n - 1)
  }

  /** The level looked up under `(current, n)`, then `(n, current)`, then the default. */
  function PheromoneOf(levels: map<Edge, real>, current: Node, n: Node): real
  {
    if (current, n) in levels then levels[(current, n)]
    else if (n, current) in levels then levels[(n, current)]
    else DefaultPheromone
  }

  function Population(g: Graph, n: Node): real
  {
    if n in g.population then g.population[n] else DefaultPopulation
  }

  function NormalisedPopulation(g: Graph, n: Node): real
  {
    (Population(g, n) - PopulationLow) / (PopulationHigh - PopulationLow)
  }

  /** The desirability of moving from `current` to `n`:
      pheromone^alpha * (1/distance)^beta * normalised_population^gamma. */
  function Score(g: Graph, levels: map<Edge, real>, current: Node, n: Node,
                 alpha: nat, beta: nat, gamma: nat): real
    requires EdgeWeight(g, current, n) != 0.0
  {
    Pow(PheromoneOf(levels, current, n), alpha)
    * Pow(1.0 / EdgeWeight(g, current, n), beta)
    * Pow(NormalisedPopulation(g, n), gamma)
  }

  /** The score, or the error `1 / distance` raises at a zero distance. */
  function RawScore(g: Graph, levels: map<Edge, real>, current: Node, n: Node,
                    alpha: nat, beta: nat, gamma: nat): Result<real>
  {
    if EdgeWeight(g, current, n) == 0.0 then Err(ZeroDivision)
    else Ok(Score(g, levels, current, n, alpha, beta, gamma))
  }

  /** The raw scores of `ns`, in order; the first zero distance raises. */
  function RawScores(g: Graph, levels: map<Edge, real>, current: Node, ns: seq<Node>,
                     alpha: nat, beta: nat, gamma: nat): Result<seq<Choice>>
    decreases |ns|
  {
    if ns == [] then Ok([])
    else match RawScore(g, levels, current, ns[0], alpha, beta, gamma)
      case Err(e) => Err(e)
      case Ok(s) =>
        match RawScores(g, levels, current, ns[1..], alpha, beta, gamma)
        case Err(e) => Err(e)
        case Ok(rest) => Ok([(ns[0], s)] + rest)
  }

  /** The sum of the second components, as `sum(...)` computes it. */
  function Mass(ps: seq<Choice>): real
  {
    if ps == [] then 0.0 else ps[0].1 + Mass(ps[1..])
  }

  /** The normalising comprehension: every score divided by the total. An
      empty list divides nothing; a zero total over a non-empty list raises. */
  function Normalise(raw: seq<Choice>): Result<seq<Choice>>
  {
    if raw != [] && Mass(raw) == 0.0 then Err(ZeroDivision)
    else Ok(seq(|raw|, i requires 0 <= i < |raw| => (raw[i].0, raw[i].1 / Mass(raw))))
  }

  /** `calculate_probabilities` as a function of its inputs. */
  function Probabilities(g: Graph, levels: map<Edge, real>, current: Node,
                         alpha: nat, beta: nat, gamma: nat): Result<seq<Choice>>
  {
    if current !in g.adj then Err(NodeNotInGraph)
    else match RawScores(g, levels, current, g.adj[current], alpha, beta, gamma)
      case Err(e) => Err(e)
      case Ok(raw) => Normalise(raw)
  }

  /** The scores loop of `calculate_probabilities`, followed by the total and
      the normalising comprehension. */
  method CalculateProbabilities(g: Graph, current: Node, levels: map<Edge, real>,
                                alpha: nat, beta: nat, gamma: nat)
    returns (r: Result<seq<Choice>>)
    ensures r == Probabilities(g, levels, current, alpha, beta, gamma)
  {
    if current !in g.adj {
      return Err(NodeNotInGraph);
    }
    var neighbours := g.adj[current];
    var raw: seq<Choice> := [];
    PrefixedEmpty(RawScores(g, levels, current, neighbours, alpha, beta, gamma));
    assert neighbours[0..] == neighbours;
    for i := 0 to |neighbours|
      invariant RawScores(g, levels, current, neighbours, alpha, beta, gamma)
             == Prefixed(raw, RawScores(g, levels, current, neighbours[i..], alpha, beta, gamma))
    {
      var distance := EdgeWeight(g, current, neighbours[i]);
      if distance == 0.0 {
        return Err(ZeroDivision);
      }
      var probability := Score(g, levels, current, neighbours[i], alpha, beta, gamma);
      RawScoresCons(g, levels, current, neighbours[i..], alpha, beta, gamma);
      assert neighbours[i..][1..] == neighbours[i + 1..];
      PrefixedAppend(raw, (neighbours[i], probability), RawScores(g, levels, current, neighbours[i + 1..], alpha, beta, gamma));
      raw := raw + [(neighbours[i], probability)];
    }
    assert neighbours[|neighbours|..] == [];
    assert raw + [] == raw;
    var total := Mass(raw);
    if raw != [] && total == 0.0 {
      return Err(ZeroDivision);
    }
    r := Ok(seq(|raw|, i requires 0 <= i < |raw| => (raw[i].0, raw[i].1 / total)));
  }

  /** `prefix` put in front of a successful list. */
  function Prefixed(prefix: seq<Choice>, r: Result<seq<Choice>>): Result<seq<Choice>>
  {
    match r
    case Err(e) => Err(e)
    case Ok(s) => Ok(prefix + s)
  }

  lemma PrefixedEmpty(r: Result<seq<Choice>>)
    ensures Prefixed([], r) == r
  {
    if r.Ok? {
      assert [] + r.value == r.value;
    }
  }

  lemma PrefixedAppend(raw: seq<Choice>, c: Choice, r: Result<seq<Choice>>)
    ensures Prefixed(raw, Prefixed([c], r)) == Prefixed(raw + [c], r)
  {
    if r.Ok? {
      assert raw + ([c] + r.value) == (raw + [c]) + r.value;
    }
  }

  /** One step of `RawScores`: the head's score in front of the rest's. */
  lemma RawScoresCons(g: Graph, levels: map<Edge, real>, current: Node, ns: seq<Node>,
                      alpha: nat, beta: nat, gamma: nat)
    requires ns != [] && EdgeWeight(g, current, ns[0]) != 0.0
    ensures RawScores(g, levels, current, ns, alpha, beta, gamma)
         == Prefixed([(ns[0], RawScore(g, levels, current, ns[0], alpha, beta, gamma).value)],
                     RawScores(g, levels, current, ns[1..], alpha, beta, gamma))
  {
    match RawScores(g, levels, current, ns[1..], alpha, beta, gamma)
    case Err(_) =>
    case Ok(_) =>
  }

  /** The scores exist exactly when no neighbour is at distance zero, and
      the i-th is the i-th neighbour with its raw score. */
  lemma {:induction false} RawScoresExact(g: Graph, levels: map<Edge, real>, current: Node,
                                          ns: seq<Node>, alpha: nat, beta: nat, gamma: nat)
    ensures RawScores(g, levels, current, ns, alpha, beta, gamma).Ok?
        <==> forall i :: 0 <= i < |ns| ==> EdgeWeight(g, current, ns[i]) != 0.0
    ensures RawScores(g, levels, current, ns, alpha, beta, gamma).Ok? ==>
      var raw := RawScores(g, levels, current, ns, alpha, beta, gamma).value;
      && |raw| == |ns|
      && forall i :: 0 <= i < |ns| ==>
           raw[i] == (ns[i], RawScore(g, levels, current, ns[i], alpha, beta, gamma).value)
    decreases |ns|
  {
    if ns != [] {
      RawScoresExact(g, levels, current, ns[1..], alpha, beta, gamma);
      var tail := ns[1..];
      assert forall i :: 1 <= i < |ns| ==> ns[i] == tail[i - 1];
    }
  }

  /** Dividing every element by `t` divides the mass by `t`. */
  lemma {:induction false} MassScaled(raw: seq<Choice>, t: real)
    requires t != 0.0
    ensures Mass(seq(|raw|, i requires 0 <= i < |raw| => (raw[i].0, raw[i].1 / t))) == Mass(raw) / t
    decreases |raw|
  {
    var scaled := seq(|raw|, i requires 0 <= i < |raw| => (raw[i].0, raw[i].1 / t));
    if raw != [] {
      var tail := raw[1..];
      MassScaled(tail, t);
      assert scaled[1..] == seq(|tail|, i requires 0 <= i < |tail| => (tail[i].0, tail[i].1 / t));
    }
  }

  /** The normalised probabilities sum to one whenever there is a neighbour. */
  lemma NormalisedSumsToOne(raw: seq<Choice>)
    requires Normalise(raw).Ok? && raw != []
    ensures Mass(Normalise(raw).value) == 1.0
  {
    MassScaled(raw, Mass(raw));
  }

  /** `calculate_probabilities` returns one pair per neighbour, in neighbour
      order, each probability being the raw score over the total; the
      probabilities then sum to one. It raises exactly when the node is not
      in the graph, a neighbour is at distance zero, or the scores of a
      non-empty neighbourhood total zero. */
  lemma ProbabilitiesExact(g: Graph, levels: map<Edge, real>, current: Node,
                           alpha: nat, beta: nat, gamma: nat)
    ensures Probabilities(g, levels, current, alpha, beta, gamma).Ok? <==>
      && current in g.adj
      && (forall i :: 0 <= i < |g.adj[current]| ==> EdgeWeight(g, current, g.adj[current][i]) != 0.0)
      && (g.adj[current] == [] || (RawScores(g, levels, current, g.adj[current], alpha, beta, gamma).Ok? && Mass(RawScores(g, levels, current, g.adj[current], alpha, beta, gamma).value) != 0.0))
    ensures Probabilities(g, levels, current, alpha, beta, gamma).Ok? ==>
      var ns := g.adj[current];
      var raw := RawScores(g, levels, current, ns, alpha, beta, gamma).value;
      var ps := Probabilities(g, levels, current, alpha, beta, gamma).value;
      && |ps| == |ns|
      && (forall i :: 0 <= i < |ns| ==>
            ps[i] == (ns[i], RawScore(g, levels, current, ns[i], alpha, beta, gamma).value / Mass(raw)))
      && (ns != [] ==> Mass(ps) == 1.0)
  {
    if current in g.adj {
      var ns := g.adj[current];
      RawScoresExact(g, levels, current, ns, alpha, beta, gamma);
      var scores := RawScores(g, levels, current, ns, alpha, beta, gamma);
      if scores.Ok? && Normalise(scores.value).Ok? && ns != [] {
        NormalisedSumsToOne(scores.value);
      }
    }
  }

  /** With gamma = 0 (the only value the walk uses) the population factor is
      one, so the score is the two-factor pheromone-times-inverse-distance form. */
  lemma PopulationIgnoredWhenGammaZero(g: Graph, levels: map<Edge, real>, current: Node, n: Node,
                                       alpha: nat, beta: nat)
    ensures RawScore(g, levels, current, n, alpha, beta, 0).Ok? <==> EdgeWeight(g, current, n) != 0.0
    ensures RawScore(g, levels, current, n, alpha, beta, 0).Ok? ==>
      RawScore(g, levels, current, n, alpha, beta, 0).value
        == Pow(PheromoneOf(levels, current, n), alpha) * Pow(1.0 / EdgeWeight(g, current, n), beta)
  {
  }
}
