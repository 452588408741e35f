/** The search policies that drive `NetworkSearch`: each popped node is
    offered to `take` with its cost, and the search stops once `done`
    holds. `FindClosest` keeps the matching nodes at the least cost;
    `FindWithinCost` keeps every node cheaper than a threshold. */
module Policies {
  import opened Wrappers

  /** A node popped by the search, with the cost it was popped at. */
  datatype Visit = Visit(node: nat, cost: nat)

  /** The policy state. `matches` is the set of nodes the stopping
      condition accepts; `closestCost` is `None` until a match is seen. */
  datatype Policy =
    | Closest(matches: set<nat>, closestCost: Option<nat>, done: bool)
    | WithinCost(maxCost: nat, done: bool)

  /** `FindClosest` raises "Invalid state" when a match arrives cheaper
      than the closest one already seen. */
  datatype PolicyError = InvalidState

  datatype Step = Step(taken: bool, next: Policy)

  /** Both policies in their initial state. */
  function FindClosest(matches: set<nat>): Policy {
    Closest(matches, None, false)
  }

  function FindWithinCost(maxCost: nat): Policy {
    WithinCost(maxCost, false)
  }

  /** Offers one popped node to the policy. */
  function Take(p: Policy, node: nat, cost: nat): (r: Result<Step, PolicyError>)
    // the policy's parameters never change, and `done` is never cleared
    ensures r.Success? ==> r.value.next.Closest? == p.Closest?
    ensures r.Success? && p.Closest? ==> r.value.next.matches == p.matches
    ensures r.Success? && p.WithinCost? ==> r.value.next.maxCost == p.maxCost
    ensures r.Success? && p.done ==> r.value.next.done
    // FindWithinCost: taken exactly below the threshold, done from the first cost at or above it
    ensures p.WithinCost? ==>
      (&& r.Success?
       && (r.value.taken <==> cost < p.maxCost)
       && (r.value.next.done <==> p.done || p.maxCost <= cost))
    // FindClosest: a node failing the condition is ignored and changes nothing
    ensures p.Closest? && node !in p.matches ==> r == Success(Step(false, p))
    // FindClosest: the first match fixes the closest cost and is taken
    ensures p.Closest? && node in p.matches && p.closestCost.None? ==>
      r == Success(Step(true, p.(closestCost := Some(cost))))
    // FindClosest: later matches are taken at that cost, stop it when dearer, and are an error when cheaper
    ensures p.Closest? && node in p.matches && p.closestCost.Some? ==>
      && (r.Failure? <==> cost < p.closestCost.value)
      && (r.Success? ==> r.value.next.closestCost == p.closestCost)
      && (r.Success? ==> (r.value.taken <==> cost == p.closestCost.value))
      && (r.Success? ==> (r.value.next.done <==> p.done || p.closestCost.value < cost))
  {
    match p
    case WithinCost(maxCost, done) =>
      if cost >= maxCost then Success(Step(false, WithinCost(maxCost, true)))
      else Success(Step(true, p))
    case Closest(matches, closestCost, done) =>
      if node in matches then
        if closestCost.None? then Success(Step(true, Closest(matches, Some(cost), done)))
        else if cost == closestCost.value then Success(Step(true, p))
        else if cost > closestCost.value then Success(Step(false, Closest(matches, closestCost, true)))
        else Failure(InvalidState)
      else Success(Step(false, p))
  }

  /** The nodes taken so far and the policy state after them. */
  datatype Run = Run(taken: set<nat>, state: Policy)

  /** The search's driving of a policy: the visits are offered in order
      until the policy is done; an error ends the run. */
  function Feed(p: Policy, visits: seq<Visit>): (r: Result<Run, PolicyError>)
    ensures r.Success? ==> forall u :: u in r.value.taken ==> exists i :: 0 <= i < |visits| && visits[i].node == u
    ensures r.Success? ==> r.value.state.Closest? == p.Closest?
    ensures r.Success? && p.Closest? ==> r.value.state.matches == p.matches
    ensures r.Success? && p.WithinCost? ==> r.value.state.maxCost == p.maxCost
    ensures r.Success? && p.done ==> r.value.state.done
    decreases |visits|
  {
    if |visits| == 0 then Success(Run({}, p))
    else
      var init := visits[..|visits| - 1];
      var v := visits[|visits| - 1];
      match Feed(p, init)
      case Failure(e) => Failure(e)
      case Success(run) =>
        if run.state.done then
          assert forall u :: u in run.taken ==> exists i :: 0 <= i < |init| && init[i].node == u;
          assert forall i :: 0 <= i < |init| ==> init[i] == visits[i];
          Success(run)
        else
          match Take(run.state, v.node, v.cost)
          case Failure(e) => Failure(e)
          case Success(step) =>
            assert forall i :: 0 <= i < |init| ==> init[i] == visits[i];
            Success(Run(if step.taken then run.taken + {v.node} else run.taken, step.next))
  }

  /** One more visit offered to a live policy. */
  lemma FeedSnoc(p: Policy, visits: seq<Visit>, w: Visit)
    requires Feed(p, visits).Success? && !Feed(p, visits).value.state.done
    ensures var run := Feed(p, visits).value;
      Feed(p, visits + [w]) == match Take(run.state, w.node, w.cost)
        case Failure(err) => Failure(err)
        case Success(step) => Success(Run(if step.taken then run.taken + {w.node} else run.taken, step.next))
  {
    assert (visits + [w])[..|visits|] == visits;
  }

  /** Once the policy is done, further visits change nothing. */
  lemma {:induction false} FeedAfterDone(p: Policy, visits: seq<Visit>, k: nat)
    requires k <= |visits|
    requires Feed(p, visits[..k]).Success? && Feed(p, visits[..k]).value.state.done
    ensures Feed(p, visits) == Feed(p, visits[..k])
    decreases |visits|
  {
    if k < |visits| {
      var init := visits[..|visits| - 1];
      assert init[..k] == visits[..k];
      FeedAfterDone(p, init, k);
    } else {
      assert visits[..k] == visits;
    }
  }

  /** A policy that starts done takes nothing. */
  lemma {:induction false} FeedDone(p: Policy, visits: seq<Visit>)
    requires p.done
    ensures Feed(p, visits) == Success(Run({}, p))
  {
    assert visits[..0] == [];
    FeedAfterDone(p, visits, 0);
  }

  // ---------------------------------------------------------------------
  // Closed forms on visits arriving in non-decreasing cost
  // ---------------------------------------------------------------------

  predicate Sorted(visits: seq<Visit>) {
    forall i, j :: 0 <= i < j < |visits| ==> visits[i].cost <= visits[j].cost
  }

  function Nodes(visits: seq<Visit>): set<nat> {
    set i | 0 <= i < |visits| :: visits[i].node
  }

  /** The nodes visited at a cost below `maxCost`. */
  function CheaperThan(visits: seq<Visit>, maxCost: nat): set<nat> {
    set i | 0 <= i < |visits| && visits[i].cost < maxCost :: visits[i].node
  }

  predicate Exceeds(visits: seq<Visit>, maxCost: nat) {
    exists i :: 0 <= i < |visits| && maxCost <= visits[i].cost
  }

  lemma CheaperThanSnoc(visits: seq<Visit>, v: Visit, maxCost: nat)
    ensures CheaperThan(visits + [v], maxCost)
         == CheaperThan(visits, maxCost) + (if v.cost < maxCost then {v.node} else {})
  {
    var w := visits + [v];
    assert forall i :: 0 <= i < |visits| ==> w[i] == visits[i];
    assert w[|visits|] == v;
  }

  lemma ExceedsSnoc(visits: seq<Visit>, v: Visit, maxCost: nat)
    ensures Exceeds(visits + [v], maxCost) == (Exceeds(visits, maxCost) || maxCost <= v.cost)
  {
    var w := visits + [v];
    assert forall i :: 0 <= i < |visits| ==> w[i] == visits[i];
    assert w[|visits|] == v;
  }

  /** On visits in cost order, FindWithinCost takes exactly the nodes
      visited below the threshold and is done exactly when some visit
      reached it. */
  lemma {:induction false} FeedWithinCost(maxCost: nat, visits: seq<Visit>)
    requires Sorted(visits)
    ensures Feed(FindWithinCost(maxCost), visits)
         == Success(Run(CheaperThan(visits, maxCost), WithinCost(maxCost, Exceeds(visits, maxCost))))
    decreases |visits|
  {
    if |visits| > 0 {
      var init := visits[..|visits| - 1];
      var v := visits[|visits| - 1];
      assert visits == init + [v];
      FeedWithinCost(maxCost, init);
      CheaperThanSnoc(init, v, maxCost);
      ExceedsSnoc(init, v, maxCost);
      if Exceeds(init, maxCost) {
        var i :| 0 <= i < |init| && maxCost <= init[i].cost;
        assert init[i] == visits[i];
        assert visits[i].cost <= visits[|visits| - 1].cost;
        assert maxCost <= v.cost;
        assert Feed(FindWithinCost(maxCost), visits) == Feed(FindWithinCost(maxCost), init);
        assert CheaperThan(visits, maxCost) == CheaperThan(init, maxCost);
        assert Exceeds(visits, maxCost);
      } else {
        var run := Run(CheaperThan(init, maxCost), WithinCost(maxCost, false));
        assert Feed(FindWithinCost(maxCost), init) == Success(run);
        var step := Take(run.state, v.node, v.cost).value;
        assert Feed(FindWithinCost(maxCost), visits)
            == Success(Run(if step.taken then run.taken + {v.node} else run.taken, step.next));
        assert step.next == WithinCost(maxCost, maxCost <= v.cost);
        assert Exceeds(visits, maxCost) == (maxCost <= v.cost);
        assert CheaperThan(visits, maxCost) == if step.taken then run.taken + {v.node} else run.taken;
      }
    } else {
      assert CheaperThan(visits, maxCost) == {};
    }
  }

  /** The cost of the earliest visit to a matching node. */
  function FirstMatch(visits: seq<Visit>, matches: set<nat>): (c: Option<nat>)
    ensures c.None? <==> forall i :: 0 <= i < |visits| ==> visits[i].node !in matches
    ensures c.Some? ==> exists i :: 0 <= i < |visits| && visits[i].node in matches && visits[i].cost == c.value
    ensures c.Some? && Sorted(visits) ==>
      forall i :: 0 <= i < |visits| && visits[i].node in matches ==> c.value <= visits[i].cost
    decreases |visits|
  {
    if |visits| == 0 then None
    else
      var init := visits[..|visits| - 1];
      var v := visits[|visits| - 1];
      assert forall i :: 0 <= i < |init| ==> init[i] == visits[i];
      var c := FirstMatch(init, matches);
      if c.Some? then c
      else if v.node in matches then Some(v.cost)
      else None
  }

  /** The matching nodes visited at cost `c`. */
  function MatchesAt(visits: seq<Visit>, matches: set<nat>, c: nat): set<nat> {
    set i | 0 <= i < |visits| && visits[i].node in matches && visits[i].cost == c :: visits[i].node
  }

  /** Some matching node was visited at a cost above `c`. */
  predicate MatchAbove(visits: seq<Visit>, matches: set<nat>, c: nat) {
    exists i :: 0 <= i < |visits| && visits[i].node in matches && c < visits[i].cost
  }

  lemma MatchesAtSnoc(visits: seq<Visit>, v: Visit, matches: set<nat>, c: nat)
    ensures MatchesAt(visits + [v], matches, c)
         == MatchesAt(visits, matches, c) + (if v.node in matches && v.cost == c then {v.node} else {})
    ensures MatchAbove(visits + [v], matches, c) == (MatchAbove(visits, matches, c) || (v.node in matches && c < v.cost))
  {
    var w := visits + [v];
    assert forall i :: 0 <= i < |visits| ==> w[i] == visits[i];
    assert w[|visits|] == v;
  }

  lemma MatchesAtNone(visits: seq<Visit>, matches: set<nat>, c: nat)
    requires forall i :: 0 <= i < |visits| ==> visits[i].node !in matches
    ensures MatchesAt(visits, matches, c) == {} && !MatchAbove(visits, matches, c)
  {
  }

  /** The matching nodes visited at the least matching cost. */
  function ClosestTaken(visits: seq<Visit>, matches: set<nat>): set<nat> {
    var c := FirstMatch(visits, matches);
    if c.Some? then MatchesAt(visits, matches, c.value) else {}
  }

  predicate Overshoots(visits: seq<Visit>, matches: set<nat>) {
    var c := FirstMatch(visits, matches);
    c.Some? && MatchAbove(visits, matches, c.value)
  }

  /** The state FindClosest reaches on visits in cost order. */
  function ClosestRun(visits: seq<Visit>, matches: set<nat>): Run {
    Run(ClosestTaken(visits, matches), Closest(matches, FirstMatch(visits, matches), Overshoots(visits, matches)))
  }

  /** One more visit after a match was seen. */
  lemma ClosestSnocMatched(matches: set<nat>, init: seq<Visit>, v: Visit)
    requires forall i :: 0 <= i < |init| ==> init[i].cost <= v.cost
    requires FirstMatch(init, matches).Some?
    requires Feed(FindClosest(matches), init) == Success(ClosestRun(init, matches))
    ensures Feed(FindClosest(matches), init + [v]) == Success(ClosestRun(init + [v], matches))
  {
    var visits := init + [v];
    assert visits[..|visits| - 1] == init && visits[|visits| - 1] == v;
    assert forall i :: 0 <= i < |init| ==> init[i] == visits[i];
    var c := FirstMatch(init, matches);
    var run := ClosestRun(init, matches);
    assert FirstMatch(visits, matches) == c;
    MatchesAtSnoc(init, v, matches, c.value);
    var k :| 0 <= k < |init| && init[k].node in matches && init[k].cost == c.value;
    assert c.value <= v.cost;
    assert ClosestRun(visits, matches)
        == Run(MatchesAt(visits, matches, c.value), Closest(matches, c, MatchAbove(visits, matches, c.value)));
    if MatchAbove(init, matches, c.value) {
      var i :| 0 <= i < |init| && init[i].node in matches && c.value < init[i].cost;
      assert c.value < v.cost;
      assert Feed(FindClosest(matches), visits) == Success(run);
      assert ClosestRun(visits, matches) == run;
    } else {
      var step := Take(run.state, v.node, v.cost).value;
      var taken := if step.taken then run.taken + {v.node} else run.taken;
      assert Feed(FindClosest(matches), visits) == Success(Run(taken, step.next));
      assert step.next == Closest(matches, c, v.node in matches && c.value < v.cost);
      assert step.taken <==> v.node in matches && v.cost == c.value;
      assert taken == MatchesAt(visits, matches, c.value);
    }
  }

  /** One more visit before any match was seen. */
  lemma ClosestSnocUnmatched(matches: set<nat>, init: seq<Visit>, v: Visit)
    requires FirstMatch(init, matches).None?
    requires Feed(FindClosest(matches), init) == Success(ClosestRun(init, matches))
    ensures Feed(FindClosest(matches), init + [v]) == Success(ClosestRun(init + [v], matches))
  {
    var visits := init + [v];
    assert visits[..|visits| - 1] == init && visits[|visits| - 1] == v;
    assert forall i :: 0 <= i < |init| ==> init[i] == visits[i];
    var run := ClosestRun(init, matches);
    MatchesAtNone(init, matches, 0);
    var step := Take(run.state, v.node, v.cost).value;
    assert Feed(FindClosest(matches), visits)
        == Success(Run(if step.taken then run.taken + {v.node} else run.taken, step.next));
    if v.node in matches {
      assert FirstMatch(visits, matches) == Some(v.cost);
      MatchesAtNone(init, matches, v.cost);
      MatchesAtSnoc(init, v, matches, v.cost);
      assert step == Step(true, Closest(matches, Some(v.cost), false));
    } else {
      assert FirstMatch(visits, matches) == None;
      assert step == Step(false, run.state);
    }
  }

  /** On visits in cost order, FindClosest never fails, takes exactly the
      matching nodes at the least matching cost, and is done exactly when
      a dearer match was seen. */
  lemma {:induction false} FeedClosest(matches: set<nat>, visits: seq<Visit>)
    requires Sorted(visits)
    ensures Feed(FindClosest(matches), visits) == Success(ClosestRun(visits, matches))
    decreases |visits|
  {
    if |visits| > 0 {
      var init := visits[..|visits| - 1];
      var v := visits[|visits| - 1];
      assert visits == init + [v];
      FeedClosest(matches, init);
      assert forall i :: 0 <= i < |init| ==> init[i].cost <= v.cost by {
        forall i | 0 <= i < |init| ensures init[i].cost <= v.cost {
          assert init[i] == visits[i];
        }
      }
      if FirstMatch(init, matches).Some? {
        ClosestSnocMatched(matches, init, v);
      } else {
        ClosestSnocUnmatched(matches, init, v);
      }
    }
  }
}
