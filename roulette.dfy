/** Roulette-wheel selection of the next node (`choose_next_node`). */
module Roulette {
  import opened Graphs
  import opened Scoring

  /** The probability mass of the first `k` pairs. */
  function Cumulative(ps: seq<Choice>, k: nat): real
    requires k <= |ps|
  {
    Mass(ps[..k])
  }

  /** The selection walked from a running total `acc`: the first pair whose
      running total reaches the draw `r`, or nothing. */
  function ChooseFrom(ps: seq<Choice>, r: real, acc: real): Option<Node>
    decreases |ps|
  {
    if ps == [] then None
    else if r <= acc + ps[0].1 then Some(ps[0].0)
    else ChooseFrom(ps[1..], r, acc + ps[0].1)
  }

  /** The neighbour a draw `r` selects, starting from a running total of zero. */
  function Choose(ps: seq<Choice>, r: real): Option<Node>
  {
    ChooseFrom(ps, r, 0.0)
  }

  /** The cumulative loop of `choose_next_node`, with the draw `r` supplied. */
  method ChooseNextNode(ps: seq<Choice>, r: real) returns (selected: Option<Node>)
    ensures selected == Choose(ps, r)
  {
    selected := None;
    var cumulative := 0.0;
    assert ps[0..] == ps;
    for i := 0 to |ps|
      invariant Choose(ps, r) == ChooseFrom(ps[i..], r, cumulative)
    {
      cumulative := cumulative + ps[i].1;
      if r <= cumulative {
        selected := Some(ps[i].0);
        break;
      }
      assert ps[i..][1..] == ps[i + 1..];
    }
  }

  lemma MassAppend(ps: seq<Choice>, c: Choice)
    ensures Mass(ps + [c]) == Mass(ps) + c.1
    decreases |ps|
  {
    if ps != [] {
      assert (ps + [c])[1..] == ps[1..] + [c];
      MassAppend(ps[1..], c);
    }
  }

  lemma CumulativeStep(ps: seq<Choice>, k: nat)
    requires k < |ps|
    ensures Cumulative(ps, k + 1) == Cumulative(ps, k) + ps[k].1
  {
    assert ps[..k + 1] == ps[..k] + [ps[k]];
    MassAppend(ps[..k], ps[k]);
  }

  /** The running total right after adding the probability of index `i`. */
  function Through(ps: seq<Choice>, i: nat): real
    requires i < |ps|
  {
    Cumulative(ps, i + 1)
  }

  /** Running totals over a list are its head's probability plus those over its tail. */
  lemma ThroughCons(ps: seq<Choice>, i: nat)
    requires 0 < i < |ps|
    ensures Through(ps, i) == ps[0].1 + Through(ps[1..], i - 1)
  {
    assert ps[..i + 1][1..] == ps[1..][..i];
  }

  lemma ThroughFirst(ps: seq<Choice>)
    requires ps != []
    ensures Through(ps, 0) == ps[0].1
  {
    assert ps[..1][1..] == [];
    assert Mass(ps[..1]) == ps[0].1 + Mass([]);
  }

  /** The walk from a running total `acc` picks the first index whose running
      total reaches `r`; it picks nothing exactly when no running total does. */
  lemma {:induction false} ChooseFromFirstReaching(ps: seq<Choice>, r: real, acc: real)
    ensures ChooseFrom(ps, r, acc).None? <==>
      forall i :: 0 <= i < |ps| ==> r > acc + Through(ps, i)
    ensures ChooseFrom(ps, r, acc).Some? ==>
      exists i :: 0 <= i < |ps| && ps[i].0 == ChooseFrom(ps, r, acc).value
        && r <= acc + Through(ps, i)
        && forall j :: 0 <= j < i ==> r > acc + Through(ps, j)
    decreases |ps|
  {
    if ps != [] {
      var tail := ps[1..];
      var acc' := acc + ps[0].1;
      ChooseFromFirstReaching(tail, r, acc');
      ThroughFirst(ps);
      forall i | 0 < i < |ps|
        ensures acc + Through(ps, i) == acc' + Through(tail, i - 1)
      {
        ThroughCons(ps, i);
      }
      if r <= acc' {
        assert r <= acc + Through(ps, 0);
      } else if ChooseFrom(tail, r, acc').Some? {
        var k :| 0 <= k < |tail| && tail[k].0 == ChooseFrom(tail, r, acc').value
          && r <= acc' + Through(tail, k)
          && forall j :: 0 <= j < k ==> r > acc' + Through(tail, j);
        assert ps[k + 1] == tail[k];
        assert r <= acc + Through(ps, k + 1);
        forall j | 0 <= j < k + 1
          ensures r > acc + Through(ps, j)
        {
          if j > 0 {
            assert r > acc' + Through(tail, j - 1);
          }
        }
      } else {
        forall i | 0 <= i < |ps|
          ensures r > acc + Through(ps, i)
        {
          if i > 0 {
            assert r > acc' + Through(tail, i - 1);
          }
        }
      }
    }
  }

  /** `choose_next_node` returns the neighbour of the first index whose
      cumulative probability is at least the draw, or `None` exactly when the
      draw exceeds every cumulative probability. */
  lemma ChooseIsFirstReaching(ps: seq<Choice>, r: real)
    ensures Choose(ps, r).None? <==> forall i :: 0 <= i < |ps| ==> r > Through(ps, i)
    ensures Choose(ps, r).Some? ==>
      exists i :: 0 <= i < |ps| && ps[i].0 == Choose(ps, r).value
        && r <= Through(ps, i)
        && forall j :: 0 <= j < i ==> r > Through(ps, j)
  {
    ChooseFromFirstReaching(ps, r, 0.0);
  }

  /** A selected node is always one of the listed neighbours. */
  lemma ChosenIsListed(ps: seq<Choice>, r: real)
    requires Choose(ps, r).Some?
    ensures exists i :: 0 <= i < |ps| && ps[i].0 == Choose(ps, r).value
  {
    ChooseIsFirstReaching(ps, r);
  }

  predicate NonNegative(ps: seq<Choice>)
  {
    forall i :: 0 <= i < |ps| ==> ps[i].1 >= 0.0
  }

  lemma {:induction false} CumulativeMonotone(ps: seq<Choice>, i: nat, j: nat)
    requires NonNegative(ps) && i <= j <= |ps|
    ensures Cumulative(ps, i) <= Cumulative(ps, j)
    decreases j - i
  {
    if i < j {
      CumulativeStep(ps, j - 1);
      CumulativeMonotone(ps, i, j - 1);
    }
  }

  /** With non-negative probabilities, nothing is selected exactly when the
      draw exceeds the total mass. */
  lemma NoneIffBeyondMass(ps: seq<Choice>, r: real)
    requires NonNegative(ps)
    ensures Choose(ps, r).None? <==> ps == [] || r > Mass(ps)
  {
    ChooseIsFirstReaching(ps, r);
    assert ps[..|ps|] == ps;
    if ps != [] && r > Mass(ps) {
      forall i | 0 <= i < |ps|
        ensures r > Through(ps, i)
      {
        CumulativeMonotone(ps, i + 1, |ps|);
      }
    }
    if ps != [] && r <= Mass(ps) {
      assert r <= Through(ps, |ps| - 1);
    }
  }

  /** A draw no greater than a total mass of one always selects a neighbour. */
  lemma UnitMassAlwaysChooses(ps: seq<Choice>, r: real)
    requires ps != [] && Mass(ps) == 1.0 && r <= 1.0
    ensures Choose(ps, r).Some?
  {
    ChooseIsFirstReaching(ps, r);
    assert ps[..|ps|] == ps;
    assert r <= Through(ps, |ps| - 1);
  }
}
