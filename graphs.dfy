/** The data the colony works over: an undirected weighted graph given as an
    ordered adjacency map, the ant runs it produces, and the errors the
    engine can raise. */
module Graphs {

  /** Stop references. The repository keeps them as strings, so `min` and
      `max` on them compare text; this model takes them as integers and
      uses the numeric order instead. */
  type Node = int

  /** An edge key as `graph.edges()` yields it: one orientation of the pair. */
  type Edge = (Node, Node)

  /** The exceptions that escape the engine. */
  datatype Error =
    | ZeroDivision    // `1 / distance`, `probability / total`, `Q / path_distance` with a zero divisor
    | NodeNotInGraph  // neighbours asked of something that is not a node (a `None` choice included)
    | NoSuchEdge      // `graph[u][v]` on two nodes that are not adjacent
    | MissingKey      // `pheromone_levels[edge]` on a key the dictionary lacks
    | DrawsExhausted  // the walk used up the random draws it was given
    | NoSolution      // no ant ran, so the best solution is still `None`

  datatype Option<T> = None | Some(value: T)

  datatype Result<T> = Ok(value: T) | Err(error: Error)

  /** One ant's walk together with its cost, as collected in `ant_paths`. */
  datatype AntRun = AntRun(path: seq<Node>, cost: real)

  /** `adj` gives each node's neighbours in `graph.neighbors` order (its key
      set is the node set); `edges` lists `graph.edges()`; `weight` holds the
      optional "weight" attribute of an edge, `population` the optional
      "sum_population" attribute of a node. */
  datatype Graph = Graph(
    adj: map<Node, seq<Node>>,
    edges: seq<Edge>,
    weight: map<Edge, real>,
    population: map<Node, real>)

  predicate Adjacent(g: Graph, u: Node, v: Node)
  {
    u in g.adj && v in g.adj[u]
  }

  /** `graph[u][v].get("weight", 1.0)`. */
  function EdgeWeight(g: Graph, u: Node, v: Node): real
  {
    if (u, v) in g.weight then g.weight[(u, v)] else 1.0
  }

  predicate NoDuplicates<T(==)>(s: seq<T>)
  {
    forall i, j :: 0 <= i < j < |s| ==> s[i] != s[j]
  }

  /** What a networkx `Graph` guarantees: adjacency is symmetric and lists
      nodes only, `graph.edges()` lists each adjacent pair once in one
      orientation, and an edge's weight is shared by both orientations.
      Euclidean distances are never negative. */
  ghost predicate WellFormed(g: Graph)
  {
    && (forall u, v :: Adjacent(g, u, v) ==> v in g.adj && u in g.adj[v])
    && (forall u :: u in g.adj ==> NoDuplicates(g.adj[u]))
    && NoDuplicates(g.edges)
    && (forall i :: 0 <= i < |g.edges| ==> Adjacent(g, g.edges[i].0, g.edges[i].1))
    && (forall u, v :: Adjacent(g, u, v) ==> (u, v) in g.edges || (v, u) in g.edges)
    && (forall i, j :: 0 <= i < |g.edges| && 0 <= j < |g.edges| ==>
          g.edges[i] != (g.edges[j].1, g.edges[j].0) || i == j)
    && (forall u, v :: (u, v) in g.weight ==> (v, u) in g.weight && g.weight[(v, u)] == g.weight[(u, v)])
    && (forall e :: e in g.weight ==> g.weight[e] >= 0.0)
  }
}
