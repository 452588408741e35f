/** `FindNodes`, the cost-threshold policy of the top-level package: a
    separate class with the same behaviour as `FindWithinCost`. */
module FindNodesPolicy {
  import opened Wrappers
  import opened Policies

  datatype FindNodes = FindNodes(maxCost: nat, done: bool)

  datatype NodesStep = NodesStep(taken: bool, next: FindNodes)

  datatype NodesRun = NodesRun(taken: set<nat>, state: FindNodes)

  /** Offers one popped node: it is taken below the threshold, and the
      first cost at or above it makes the policy done. */
  function TakeNodes(p: FindNodes, node: nat, cost: nat): (r: NodesStep)
    ensures r.taken <==> cost < p.maxCost
    ensures r.next.done <==> p.done || p.maxCost <= cost
    ensures r.next.maxCost == p.maxCost
  {
    if cost >= p.maxCost then NodesStep(false, FindNodes(p.maxCost, true))
    else NodesStep(true, p)
  }

  /** Offers the visits in order until the policy is done. */
  function FeedNodes(p: FindNodes, visits: seq<Visit>): (r: NodesRun)
    ensures r.state.maxCost == p.maxCost
    ensures p.done ==> r.state.done
    decreases |visits|
  {
    if |visits| == 0 then NodesRun({}, p)
    else
      var run := FeedNodes(p, visits[..|visits| - 1]);
      var v := visits[|visits| - 1];
      if run.state.done then run
      else
        var step := TakeNodes(run.state, v.node, v.cost);
        NodesRun(if step.taken then run.taken + {v.node} else run.taken, step.next)
  }

  /** The FindWithinCost state with the same threshold and flag. */
  function AsWithinCost(p: FindNodes): Policy {
    WithinCost(p.maxCost, p.done)
  }

  /** Each call gives the same answer and the same `done` flag as
      FindWithinCost in the same state. */
  lemma TakeNodesAgrees(p: FindNodes, node: nat, cost: nat)
    ensures Take(AsWithinCost(p), node, cost)
         == Success(Step(TakeNodes(p, node, cost).taken, AsWithinCost(TakeNodes(p, node, cost).next)))
  {
  }

  /** Over any sequence of visits the two policies take the same nodes and
      end with the same `done` flag. */
  lemma {:induction false} FeedNodesAgrees(p: FindNodes, visits: seq<Visit>)
    ensures Feed(AsWithinCost(p), visits)
         == Success(Run(FeedNodes(p, visits).taken, AsWithinCost(FeedNodes(p, visits).state)))
    decreases |visits|
  {
    if |visits| > 0 {
      var init := visits[..|visits| - 1];
      var v := visits[|visits| - 1];
      FeedNodesAgrees(p, init);
      var run := FeedNodes(p, init);
      if !run.state.done {
        TakeNodesAgrees(run.state, v.node, v.cost);
      }
    }
  }
}
