/** `NetworkSearch.search`: Dijkstra's algorithm from a start node, with a
    `(cost, id)`-ordered frontier, parallel edges collapsed to the cheapest
    one, decrease-key on strict improvement, and a policy that is offered
    every popped node and can stop the search. */
module NetworkSearch {
  import opened Wrappers
  import opened Networks
  import opened Paths
  import opened Frontiers
  import opened Policies

  /** The search's per-node arrays and its frontier. */
  datatype Engine = Engine(open: seq<bool>, closed: seq<bool>, cost: seq<nat>, tree: set<nat>)

  predicate Sized(g: Network, e: Engine) {
    && |e.open| == g.nodeCount && |e.closed| == g.nodeCount && |e.cost| == g.nodeCount
    && (forall u :: u in e.tree ==> u < g.nodeCount)
  }

  /** What the relaxation loop does to the engine: every target in
      `neighbours` is opened and offered `focusCost` plus the cost of its
      edge; nothing else changes. */
  ghost predicate Expanded(g: Network, e: Engine, neighbours: map<nat, Edge>, focusCost: nat, r: Engine)
    requires Sized(g, e)
  {
    && Sized(g, r) && r.closed == e.closed
    && r.tree == e.tree + neighbours.Keys
    && (forall u :: 0 <= u < g.nodeCount && u in neighbours ==>
          r.open[u] && r.cost[u] == Improve(e.open[u], e.cost[u], focusCost + neighbours[u].cost))
    && (forall u :: 0 <= u < g.nodeCount && u !in neighbours ==>
          r.open[u] == e.open[u] && r.cost[u] == e.cost[u])
  }

  /** The relaxation loop over the cheapest edge to each unclosed target. */
  method Expand(g: Network, e: Engine, neighbours: map<nat, Edge>, focusCost: nat) returns (r: Engine)
    requires Sized(g, e)
    requires forall t :: t in neighbours ==> t < g.nodeCount && !e.closed[t]
    requires forall u :: 0 <= u < g.nodeCount && e.open[u] && !e.closed[u] ==> u in e.tree
    ensures Expanded(g, e, neighbours, focusCost, r)
  {
    var todo := neighbours.Keys;
    r := e;
    while todo != {}
      invariant todo <= neighbours.Keys
      invariant Sized(g, r) && r.closed == e.closed
      invariant r.tree == e.tree + (neighbours.Keys - todo)
      invariant forall u :: 0 <= u < g.nodeCount && u in neighbours && u !in todo ==>
        r.open[u] && r.cost[u] == Improve(e.open[u], e.cost[u], focusCost + neighbours[u].cost)
      invariant forall u :: 0 <= u < g.nodeCount && (u !in neighbours || u in todo) ==>
        r.open[u] == e.open[u] && r.cost[u] == e.cost[u]
      decreases todo
    {
      var t :| t in todo;
      var offered := focusCost + neighbours[t].cost;
      if r.open[t] {
        if offered < r.cost[t] {
          r := r.(cost := r.cost[t := offered], tree := r.tree + {t});
        }
      } else {
        r := r.(open := r.open[t := true], cost := r.cost[t := offered], tree := r.tree + {t});
      }
      todo := todo - {t};
    }
  }

  // ---------------------------------------------------------------------
  // Loop invariants
  // ---------------------------------------------------------------------

  predicate PositiveCosts(g: Network) {
    forall x :: x in g.edges ==> 0 < x.cost
  }

  /** Visit `a` comes before visit `b` in the frontier's `(cost, id)` order. */
  predicate VisitBefore(a: Visit, b: Visit) {
    a.cost < b.cost || (a.cost == b.cost && a.node < b.node)
  }

  /** The popped sequence starts at the start node at cost 0 and pops
      each node once. */
  ghost predicate TraceShape(n: nat, start: nat, trace: seq<Visit>, closed: set<nat>) {
    && closed == Nodes(trace)
    && (|trace| > 0 ==> trace[0] == Visit(start, 0))
    && (forall i :: 0 <= i < |trace| ==> trace[i].node < n)
    && (forall i, j :: 0 <= i < j < |trace| ==> trace[i].node != trace[j].node)
  }

  /** Every node is popped at its shortest distance. */
  ghost predicate TraceShortest(g: Network, start: nat, trace: seq<Visit>) {
    forall i :: 0 <= i < |trace| ==> Shortest(g, start, trace[i].node, trace[i].cost)
  }

  /** Nodes are popped in cost order, and in `(cost, id)` order when every
      edge costs something. */
  predicate TraceOrdered(g: Network, trace: seq<Visit>) {
    && Sorted(trace)
    && (PositiveCosts(g) ==> forall i, j :: 0 <= i < j < |trace| ==> VisitBefore(trace[i], trace[j]))
  }

  /** No node outside `closed` is reachable for less than `c`. */
  ghost predicate NoCloser(g: Network, start: nat, closed: set<nat>, c: nat) {
    forall u, q :: u !in closed && IsPath(g, q, start, u) ==> c <= Cost(q)
  }

  /** What the popped sequence satisfies: its shape, shortest distances,
      order, and every node not yet popped is at least as far as the last
      popped one. */
  ghost predicate TraceInv(g: Network, start: nat, trace: seq<Visit>, closed: set<nat>) {
    && TraceShape(g.nodeCount, start, trace, closed)
    && TraceShortest(g, start, trace)
    && TraceOrdered(g, trace)
    && (|trace| > 0 ==> NoCloser(g, start, closed, trace[|trace| - 1].cost))
  }

  /** The arrays agree with the popped sequence: `closed` marks exactly
      the popped nodes, each with the cost it was popped at; the frontier
      holds unclosed nodes that were opened (or the start node before the
      first pop), and every opened unclosed node is on it. */
  ghost predicate EngineShape(g: Network, start: nat, e: Engine, trace: seq<Visit>, closed: set<nat>) {
    && Valid(g) && start < g.nodeCount && Sized(g, e)
    && (forall u :: u in closed ==> u < g.nodeCount)
    && (forall u :: 0 <= u < g.nodeCount ==> (e.closed[u] <==> u in closed))
    && (forall i :: 0 <= i < |trace| ==> trace[i].node in closed && trace[i].node < |e.cost| && trace[i].cost == e.cost[trace[i].node])
    && (forall u :: u in e.tree ==> u !in closed && (e.open[u] || u == start))
    && (forall u :: 0 <= u < g.nodeCount && e.open[u] && !e.closed[u] ==> u in e.tree)
    && (|trace| == 0 ==> closed == {} && e.tree == {start} && e.cost[start] == 0)
    && (|trace| > 0 ==> start in closed)
  }

  /** `paths` holds, for every closed or frontier node, a path of exactly
      its recorded cost. */
  ghost predicate Witnessed(g: Network, start: nat, e: Engine, closed: set<nat>, paths: map<nat, seq<Edge>>) {
    forall u :: u in e.tree || u in closed ==>
      u < |e.cost| && u in paths && IsPath(g, paths[u], start, u) && Cost(paths[u]) == e.cost[u]
  }

  /** Every frontier node comes after the last popped one. */
  predicate FrontierAbove(g: Network, e: Engine, trace: seq<Visit>) {
    && (|trace| > 0 ==> forall u :: u in e.tree ==> u < |e.cost| && trace[|trace| - 1].cost <= e.cost[u])
    && (PositiveCosts(g) && |trace| > 0 ==>
          forall u :: u in e.tree ==> u < |e.cost| && VisitBefore(trace[|trace| - 1], Visit(u, e.cost[u])))
  }

  /** What the arrays and the frontier satisfy between two pops. */
  ghost predicate EngineInv(g: Network, start: nat, e: Engine, trace: seq<Visit>, closed: set<nat>,
                            paths: map<nat, seq<Edge>>) {
    && EngineShape(g, start, e, trace, closed)
    && Witnessed(g, start, e, closed, paths)
    && Settled(g, start, closed, e.cost)
    && Relaxed(g, closed, e.tree, e.cost)
    && FrontierAbove(g, e, trace)
  }

  lemma NodesSnoc(trace: seq<Visit>, v: Visit)
    ensures Nodes(trace + [v]) == Nodes(trace) + {v.node}
  {
    var t := trace + [v];
    assert forall i :: 0 <= i < |trace| ==> t[i] == trace[i];
    assert t[|trace|] == v;
  }

  /** The popped node is no farther than any node not yet closed. */
  lemma PopIsLeast(g: Network, start: nat, closed: set<nat>, tree: set<nat>, cost: seq<nat>, v: nat)
    requires Settled(g, start, closed, cost) && Relaxed(g, closed, tree, cost)
    requires start in closed || (v == start && start < |cost| && cost[start] == 0)
    requires v in tree && v < |cost|
    requires forall x :: x in tree && x != v ==> x < |cost| && Before(cost, v, x)
    ensures NoCloser(g, start, closed, cost[v])
  {
    if start in closed {
      ZeroConsistent(g);
      forall u, q | u !in closed && IsPath(g, q, start, u) ensures cost[v] <= Cost(q) {
        Cut(g, Zero, closed, tree, cost, q, start, u);
      }
    }
  }

  lemma PopShape(n: nat, start: nat, trace: seq<Visit>, closed: set<nat>, v: nat, c: nat)
    requires TraceShape(n, start, trace, closed)
    requires v < n && v !in closed
    requires |trace| == 0 ==> v == start && c == 0
    ensures TraceShape(n, start, trace + [Visit(v, c)], closed + {v})
  {
    var w := Visit(v, c);
    var t := trace + [w];
    assert forall i :: 0 <= i < |trace| ==> t[i] == trace[i];
    assert t[|trace|] == w;
    NodesSnoc(trace, w);
    forall i | 0 <= i < |trace| ensures trace[i].node != v {
      assert trace[i].node in Nodes(trace);
    }
  }

  lemma PopShortest(g: Network, start: nat, trace: seq<Visit>, closed: set<nat>, v: nat, c: nat, path: seq<Edge>)
    requires TraceShortest(g, start, trace)
    requires v !in closed && NoCloser(g, start, closed, c)
    requires IsPath(g, path, start, v) && Cost(path) == c
    ensures TraceShortest(g, start, trace + [Visit(v, c)])
  {
    var t := trace + [Visit(v, c)];
    assert forall i :: 0 <= i < |trace| ==> t[i] == trace[i];
    assert Shortest(g, start, v, c);
  }

  lemma PopOrdered(g: Network, trace: seq<Visit>, v: nat, c: nat)
    requires TraceOrdered(g, trace)
    requires |trace| > 0 ==> trace[|trace| - 1].cost <= c
    requires PositiveCosts(g) && |trace| > 0 ==> VisitBefore(trace[|trace| - 1], Visit(v, c))
    ensures TraceOrdered(g, trace + [Visit(v, c)])
  {
    var t := trace + [Visit(v, c)];
    assert forall i :: 0 <= i < |trace| ==> t[i] == trace[i];
    if PositiveCosts(g) {
      forall i, j | 0 <= i < j < |t| ensures VisitBefore(t[i], t[j]) {
        if j == |trace| && i < |trace| - 1 {
          assert VisitBefore(trace[i], trace[|trace| - 1]);
        }
      }
    }
  }

  /** Popping a node no farther than any unclosed node, reached by a
      path of its recorded cost, extends the popped sequence. */
  lemma PopStep(g: Network, start: nat, trace: seq<Visit>, closed: set<nat>, v: nat, c: nat, path: seq<Edge>)
    requires TraceInv(g, start, trace, closed)
    requires v < g.nodeCount && v !in closed
    requires IsPath(g, path, start, v) && Cost(path) == c
    requires NoCloser(g, start, closed, c)
    requires |trace| == 0 ==> v == start && c == 0
    requires |trace| > 0 ==> trace[|trace| - 1].cost <= c
    requires PositiveCosts(g) && |trace| > 0 ==> VisitBefore(trace[|trace| - 1], Visit(v, c))
    ensures TraceInv(g, start, trace + [Visit(v, c)], closed + {v})
  {
    PopShape(g.nodeCount, start, trace, closed, v, c);
    PopShortest(g, start, trace, closed, v, c, path);
    PopOrdered(g, trace, v, c);
  }

  // ---------------------------------------------------------------------
  // Expansion preserves the engine invariant
  // ---------------------------------------------------------------------

  /** The engine with `v` popped and closed. */
  function Close(e: Engine, v: nat): Engine
    requires v < |e.closed|
  {
    Engine(e.open, e.closed[v := true], e.cost, e.tree - {v})
  }

  /** `neighbours` is what `Neighbours` promises for `v` in `e`. */
  ghost predicate NeighboursOf(g: Network, v: nat, e: Engine, neighbours: map<nat, Edge>)
    requires Sized(g, e)
  {
    && (forall t :: t in neighbours ==> t < g.nodeCount && !e.closed[t])
    && (forall t :: t in neighbours ==> neighbours[t] in g.edges && neighbours[t].from == v && neighbours[t].to == t)
    && (forall x :: x in g.edges && x.from == v && x.to < g.nodeCount && !e.closed[x.to] ==>
          x.to in neighbours && neighbours[x.to].cost <= x.cost)
  }

  /** Closing a frontier node leaves the engine ready to relax its edges. */
  lemma CloseReady(g: Network, start: nat, e: Engine, trace: seq<Visit>, closed: set<nat>, v: nat)
    requires EngineShape(g, start, e, trace, closed) && v in e.tree
    ensures Valid(g) && Sized(g, Close(e, v))
    ensures forall u :: 0 <= u < g.nodeCount && Close(e, v).open[u] && !Close(e, v).closed[u] ==> u in Close(e, v).tree
  {
  }

  /** `Neighbours` gives what the expansion lemmas expect. */
  lemma NeighboursAre(g: Network, v: nat, e: Engine, nb: map<nat, Edge>)
    requires Valid(g) && Sized(g, e) && nb == Neighbours(g, v, e.closed)
    ensures NeighboursOf(g, v, e, nb)
    ensures forall t :: t in nb ==> t < g.nodeCount && !e.closed[t]
  {
  }

  lemma ExpandShape(g: Network, start: nat, e: Engine, trace: seq<Visit>, closed: set<nat>,
                    v: nat, nb: map<nat, Edge>, e2: Engine)
    requires EngineShape(g, start, e, trace, closed) && v in e.tree
    requires NeighboursOf(g, v, Close(e, v), nb) && Expanded(g, Close(e, v), nb, e.cost[v], e2)
    ensures EngineShape(g, start, e2, trace + [Visit(v, e.cost[v])], closed + {v})
  {
    var t := trace + [Visit(v, e.cost[v])];
    assert forall i :: 0 <= i < |trace| ==> t[i] == trace[i];
    assert forall i :: 0 <= i < |t| ==> t[i].node < |e2.cost| && t[i].cost == e2.cost[t[i].node];
  }

  /** The witness map after expansion: a neighbour whose cost came from
      `v` gets `v`'s path extended by the cheapest edge. */
  ghost function Rewitness(paths: map<nat, seq<Edge>>, v: nat, nb: map<nat, Edge>, cost2: seq<nat>, c: nat)
      : map<nat, seq<Edge>>
    requires v in paths
    requires forall t :: t in nb ==> t < |cost2|
  {
    map u | u in paths.Keys + nb.Keys ::
      if u in nb && (u !in paths || cost2[u] == c + nb[u].cost) then paths[v] + [nb[u]] else paths[u]
  }

  lemma RewitnessNeighbour(g: Network, start: nat, paths: map<nat, seq<Edge>>, v: nat, nb: map<nat, Edge>,
                           cost2: seq<nat>, c: nat, u: nat, open: bool, current: nat)
    requires v in paths && IsPath(g, paths[v], start, v) && Cost(paths[v]) == c
    requires forall t :: t in nb ==> t < |cost2|
    requires u in nb && nb[u] in g.edges && nb[u].from == v && nb[u].to == u
    requires cost2[u] == Improve(open, current, c + nb[u].cost)
    requires open ==> u in paths && IsPath(g, paths[u], start, u) && Cost(paths[u]) == current
    ensures u in Rewitness(paths, v, nb, cost2, c)
    ensures IsPath(g, Rewitness(paths, v, nb, cost2, c)[u], start, u)
    ensures Cost(Rewitness(paths, v, nb, cost2, c)[u]) == cost2[u]
  {
    var w := Rewitness(paths, v, nb, cost2, c);
    if u !in paths || cost2[u] == c + nb[u].cost {
      assert w[u] == paths[v] + [nb[u]];
      PathSnoc(g, paths[v], start, nb[u]);
    } else {
      assert w[u] == paths[u];
    }
  }

  lemma RewitnessKept(g: Network, start: nat, paths: map<nat, seq<Edge>>, v: nat, nb: map<nat, Edge>,
                      cost2: seq<nat>, c: nat, u: nat)
    requires v in paths && forall t :: t in nb ==> t < |cost2|
    requires u !in nb && u in paths && IsPath(g, paths[u], start, u)
    ensures u in Rewitness(paths, v, nb, cost2, c) && Rewitness(paths, v, nb, cost2, c)[u] == paths[u]
  {
  }

  lemma ExpandWitness(g: Network, start: nat, e: Engine, trace: seq<Visit>, closed: set<nat>,
                      paths: map<nat, seq<Edge>>, v: nat, nb: map<nat, Edge>, e2: Engine)
      returns (paths2: map<nat, seq<Edge>>)
    requires EngineShape(g, start, e, trace, closed) && Witnessed(g, start, e, closed, paths) && v in e.tree
    requires NeighboursOf(g, v, Close(e, v), nb) && Expanded(g, Close(e, v), nb, e.cost[v], e2)
    ensures Witnessed(g, start, e2, closed + {v}, paths2)
  {
    var c := e.cost[v];
    paths2 := Rewitness(paths, v, nb, e2.cost, c);
    forall u | u in e2.tree || u in closed + {v}
      ensures u < |e2.cost| && u in paths2 && IsPath(g, paths2[u], start, u) && Cost(paths2[u]) == e2.cost[u]
    {
      if u in nb {
        assert e.open[u] ==> u in e.tree;
        RewitnessNeighbour(g, start, paths, v, nb, e2.cost, c, u, e.open[u], e.cost[u]);
      } else {
        assert u in e.tree || u in closed;
        RewitnessKept(g, start, paths, v, nb, e2.cost, c, u);
      }
    }
  }

  lemma ExpandSettled(g: Network, start: nat, e: Engine, closed: set<nat>, v: nat, e2: Engine)
    requires v < |e.cost| && |e2.cost| == |e.cost|
    requires Settled(g, start, closed, e.cost) && NoCloser(g, start, closed, e.cost[v])
    requires forall u :: u in closed + {v} ==> e2.cost[u] == e.cost[u]
    ensures Settled(g, start, closed + {v}, e2.cost)
  {
  }

  lemma ExpandRelaxed(g: Network, start: nat, e: Engine, trace: seq<Visit>, closed: set<nat>,
                      v: nat, nb: map<nat, Edge>, e2: Engine)
    requires EngineShape(g, start, e, trace, closed) && Relaxed(g, closed, e.tree, e.cost) && v in e.tree
    requires NeighboursOf(g, v, Close(e, v), nb) && Expanded(g, Close(e, v), nb, e.cost[v], e2)
    ensures Relaxed(g, closed + {v}, e2.tree, e2.cost)
  {
    forall x | x in g.edges && x.from in closed + {v} && x.to !in closed + {v}
      ensures x.from < |e2.cost| && x.to < |e2.cost|
      ensures x.to in e2.tree && e2.cost[x.to] <= e2.cost[x.from] + x.cost
    {
      if x.from in closed {
        assert x.to in e.tree;
        if x.to in nb {
          assert e.open[x.to];
        }
      } else {
        assert x.to in nb;
      }
    }
  }

  lemma ExpandFrontier(g: Network, e: Engine, trace: seq<Visit>, v: nat, nb: map<nat, Edge>, e2: Engine)
    requires Sized(g, e) && v in e.tree
    requires forall x :: x in e.tree && x != v ==> Before(e.cost, v, x)
    requires forall u :: 0 <= u < g.nodeCount && e.open[u] && !e.closed[u] ==> u in e.tree
    requires NeighboursOf(g, v, Close(e, v), nb) && Expanded(g, Close(e, v), nb, e.cost[v], e2)
    ensures FrontierAbove(g, e2, trace + [Visit(v, e.cost[v])])
  {
    var c := e.cost[v];
    forall u | u in e2.tree
      ensures u < |e2.cost| && c <= e2.cost[u]
      ensures PositiveCosts(g) ==> VisitBefore(Visit(v, c), Visit(u, e2.cost[u]))
    {
      if u in nb {
        if e2.cost[u] != c + nb[u].cost {
          assert e.open[u] && u in e.tree && u != v;
        }
      }
    }
  }

  /** Expanding the popped node restores the engine invariant. */
  lemma ExpandStep(g: Network, start: nat, e: Engine, trace: seq<Visit>, closed: set<nat>,
                   paths: map<nat, seq<Edge>>, v: nat, nb: map<nat, Edge>, e2: Engine)
      returns (paths2: map<nat, seq<Edge>>)
    requires EngineInv(g, start, e, trace, closed, paths) && v in e.tree
    requires forall x :: x in e.tree && x != v ==> Before(e.cost, v, x)
    requires NoCloser(g, start, closed, e.cost[v])
    requires NeighboursOf(g, v, Close(e, v), nb) && Expanded(g, Close(e, v), nb, e.cost[v], e2)
    ensures EngineInv(g, start, e2, trace + [Visit(v, e.cost[v])], closed + {v}, paths2)
  {
    ExpandShape(g, start, e, trace, closed, v, nb, e2);
    paths2 := ExpandWitness(g, start, e, trace, closed, paths, v, nb, e2);
    ExpandSettled(g, start, e, closed, v, e2);
    ExpandRelaxed(g, start, e, trace, closed, v, nb, e2);
    ExpandFrontier(g, e, trace, v, nb, e2);
  }

  // ---------------------------------------------------------------------
  // The search
  // ---------------------------------------------------------------------

  /** The policy neither failed nor finished on any proper prefix of
      `visits`. */
  ghost predicate LiveBefore(policy: Policy, visits: seq<Visit>) {
    forall k :: 0 <= k < |visits| ==>
      Feed(policy, visits[..k]).Success? && !Feed(policy, visits[..k]).value.state.done
  }

  /** The policy neither failed nor finished on any prefix of `visits`. */
  ghost predicate Live(policy: Policy, visits: seq<Visit>) {
    && LiveBefore(policy, visits)
    && Feed(policy, visits).Success? && !Feed(policy, visits).value.state.done
  }

  lemma LiveExtends(policy: Policy, visits: seq<Visit>, w: Visit)
    requires Live(policy, visits)
    ensures LiveBefore(policy, visits + [w])
  {
    var t := visits + [w];
    forall k | 0 <= k < |t|
      ensures Feed(policy, t[..k]).Success? && !Feed(policy, t[..k]).value.state.done
    {
      if k < |visits| {
        assert t[..k] == visits[..k];
      } else {
        assert t[..k] == visits;
      }
    }
  }

  /** What the search returns for a policy run: the taken nodes, or the
      policy's error. */
  function Outcome(f: Result<Run, PolicyError>): Result<set<nat>, PolicyError> {
    match f
    case Success(run) => Success(run.taken)
    case Failure(err) => Failure(err)
  }

  /** Popping the first frontier node extends the popped sequence, and
      nothing outside the closed set is nearer than it. */
  lemma Popped(g: Network, start: nat, e: Engine, trace: seq<Visit>, closed: set<nat>,
               paths: map<nat, seq<Edge>>, v: nat)
    requires TraceInv(g, start, trace, closed) && EngineInv(g, start, e, trace, closed, paths)
    requires v in e.tree && forall x :: x in e.tree - {v} ==> Before(e.cost, v, x)
    ensures v < |e.cost| && NoCloser(g, start, closed, e.cost[v])
    ensures TraceInv(g, start, trace + [Visit(v, e.cost[v])], closed + {v})
    ensures |closed + {v}| == |closed| + 1 <= g.nodeCount
  {
    PopIsLeast(g, start, closed, e.tree, e.cost, v);
    PopStep(g, start, trace, closed, v, e.cost[v], paths[v]);
    BoundedCard(closed + {v}, g.nodeCount);
  }

  /** Offering one more visit to a live policy: the run grows by what
      `Take` answers, and stays live unless it failed or finished. */
  lemma Offered(policy: Policy, trace: seq<Visit>, out: set<nat>, p: Policy, w: Visit,
                res: Result<Step, PolicyError>)
    requires Feed(policy, trace) == Success(Run(out, p)) && Live(policy, trace)
    requires res == Take(p, w.node, w.cost)
    ensures LiveBefore(policy, trace + [w])
    ensures res.Failure? ==> Feed(policy, trace + [w]) == Failure(res.error) && !Live(policy, trace + [w])
    ensures res.Success? ==>
      && Feed(policy, trace + [w]) == Success(Run(if res.value.taken then out + {w.node} else out, res.value.next))
      && (Live(policy, trace + [w]) <==> !res.value.next.done)
  {
    FeedSnoc(policy, trace, w);
    LiveExtends(policy, trace, w);
  }

  /** Closes the popped node `v` and relaxes its out-edges. */
  method Relax(g: Network, start: nat, e: Engine, ghost trace: seq<Visit>, ghost closed: set<nat>,
               ghost paths: map<nat, seq<Edge>>, v: nat)
      returns (e2: Engine, ghost paths2: map<nat, seq<Edge>>)
    requires EngineInv(g, start, e, trace, closed, paths) && v in e.tree
    requires forall x :: x in e.tree && x != v ==> Before(e.cost, v, x)
    requires NoCloser(g, start, closed, e.cost[v])
    ensures EngineInv(g, start, e2, trace + [Visit(v, e.cost[v])], closed + {v}, paths2)
  {
    CloseReady(g, start, e, trace, closed, v);
    var e1 := Close(e, v);
    var nb := Neighbours(g, v, e1.closed);
    NeighboursAre(g, v, e1, nb);
    e2 := Expand(g, e1, nb, e.cost[v]);
    paths2 := ExpandStep(g, start, e, trace, closed, paths, v, nb, e2);
  }

  /** One round of the search loop: pop the first frontier node, close
      it, offer it to the policy, and unless the policy failed or is done,
      relax its out-edges. `stop` carries the search's result when it ends
      here. */
  method Round(g: Network, start: nat, policy: Policy, e: Engine, ghost trace: seq<Visit>, ghost closed: set<nat>,
               ghost paths: map<nat, seq<Edge>>, out: set<nat>, p: Policy)
      returns (stop: Option<Result<set<nat>, PolicyError>>, e2: Engine, ghost trace2: seq<Visit>,
               ghost closed2: set<nat>, ghost paths2: map<nat, seq<Edge>>, out2: set<nat>, p2: Policy)
    requires e.tree != {}
    requires TraceInv(g, start, trace, closed) && EngineInv(g, start, e, trace, closed, paths)
    requires Feed(policy, trace) == Success(Run(out, p)) && !p.done && Live(policy, trace)
    ensures TraceInv(g, start, trace2, closed2) && |closed2| == |closed| + 1 && |closed2| <= g.nodeCount
    ensures stop.Some? ==> stop.value == Outcome(Feed(policy, trace2))
    ensures stop.Some? ==> LiveBefore(policy, trace2) && !Live(policy, trace2)
    ensures stop.None? ==> EngineInv(g, start, e2, trace2, closed2, paths2)
    ensures stop.None? ==> Feed(policy, trace2) == Success(Run(out2, p2)) && !p2.done && Live(policy, trace2)
  {
    var v, rest := PopMin(e.tree, e.cost);
    var focusCost := e.cost[v];
    Popped(g, start, e, trace, closed, paths, v);
    trace2 := trace + [Visit(v, focusCost)];
    closed2 := closed + {v};
    out2, p2, e2, paths2 := out, p, e, paths;
    var res := Take(p, v, focusCost);
    Offered(policy, trace, out, p, Visit(v, focusCost), res);
    if res.Failure? {
      stop := Some(Failure(res.error));
      return;
    }
    out2 := if res.value.taken then out + {v} else out;
    p2 := res.value.next;
    if p2.done {
      stop := Some(Success(out2));
      return;
    }
    stop := None;
    e2, paths2 := Relax(g, start, e, trace, closed, paths, v);
  }

  /** A policy only ever takes popped nodes, and every popped node is
      reachable from `start`. */
  lemma TakenReachable(g: Network, start: nat, policy: Policy, trace: seq<Visit>)
    requires TraceShortest(g, start, trace)
    ensures Outcome(Feed(policy, trace)).Success? ==>
      forall u :: u in Outcome(Feed(policy, trace)).value ==> Reachable(g, start, u)
  {
    var f := Feed(policy, trace);
    if f.Success? {
      forall u | u in f.value.taken ensures Reachable(g, start, u) {
        var i :| 0 <= i < |trace| && trace[i].node == u;
        assert Shortest(g, start, trace[i].node, trace[i].cost);
      }
    }
  }

  /** Dijkstra's search from `start`, offering every popped node to the
      policy. The ghost `trace` is the sequence of pops: it starts at
      `start`, pops each node once at its shortest distance, in cost order
      (and `(cost, id)` order when every edge costs something); the result
      is what the policy makes of that sequence; the search stops at the
      first pop after which the policy fails or is done, and otherwise runs
      until every reachable node is popped. */
  method Search(g: Network, start: nat, policy: Policy) returns (r: Result<set<nat>, PolicyError>, ghost trace: seq<Visit>)
    requires Valid(g) && start < g.nodeCount && !policy.done
    ensures TraceShape(g.nodeCount, start, trace, Nodes(trace))
    ensures TraceShortest(g, start, trace)
    ensures TraceOrdered(g, trace)
    ensures r == Outcome(Feed(policy, trace))
    ensures LiveBefore(policy, trace)
    ensures |trace| > 0 ==> NoCloser(g, start, Nodes(trace), trace[|trace| - 1].cost)
    ensures Live(policy, trace) ==> forall u :: Reachable(g, start, u) ==> u in Nodes(trace)
    ensures r.Success? ==> forall u :: u in r.value ==> Reachable(g, start, u)
  {
    var n := g.nodeCount;
    var e := Engine(seq(n, _ => false), seq(n, _ => false), seq(n, _ => 0), {start});
    var out: set<nat> := {};
    var p := policy;
    ghost var closed: set<nat> := {};
    ghost var paths: map<nat, seq<Edge>> := map[start := []];
    trace := [];
    assert trace[..0] == trace;
    while e.tree != {}
      invariant TraceInv(g, start, trace, closed)
      invariant EngineInv(g, start, e, trace, closed, paths)
      invariant Feed(policy, trace) == Success(Run(out, p)) && !p.done
      invariant Live(policy, trace)
      invariant |closed| <= n
      decreases n - |closed|
    {
      var stop;
      stop, e, trace, closed, paths, out, p := Round(g, start, policy, e, trace, closed, paths, out, p);
      if stop.Some? {
        r := stop.value;
        TakenReachable(g, start, policy, trace);
        return;
      }
    }
    r := Success(out);
    TakenReachable(g, start, policy, trace);
    forall u | Reachable(g, start, u) ensures u in Nodes(trace) {
      var q :| IsPath(g, q, start, u);
      Exhausted(g, closed, e.cost, start, q, u);
    }
  }

  // ---------------------------------------------------------------------
  // What the two policies make of a search
  // ---------------------------------------------------------------------

  /** The nodes a path of cost below `maxCost` reaches. */
  ghost predicate WithinReach(g: Network, start: nat, maxCost: nat, v: nat) {
    exists p :: IsPath(g, p, start, v) && Cost(p) < maxCost
  }

  lemma {:induction false} WithinCostResult(g: Network, start: nat, maxCost: nat, trace: seq<Visit>)
    requires TraceShortest(g, start, trace) && Sorted(trace)
    requires |trace| > 0 ==> NoCloser(g, start, Nodes(trace), trace[|trace| - 1].cost)
    requires !Exceeds(trace, maxCost) ==> forall u :: Reachable(g, start, u) ==> u in Nodes(trace)
    ensures forall v :: v in CheaperThan(trace, maxCost) <==> WithinReach(g, start, maxCost, v)
  {
    forall v ensures v in CheaperThan(trace, maxCost) <==> WithinReach(g, start, maxCost, v) {
      if v in CheaperThan(trace, maxCost) {
        var i :| 0 <= i < |trace| && trace[i].cost < maxCost && trace[i].node == v;
        assert Shortest(g, start, trace[i].node, trace[i].cost);
      }
      if WithinReach(g, start, maxCost, v) {
        var p :| IsPath(g, p, start, v) && Cost(p) < maxCost;
        if Exceeds(trace, maxCost) {
          var j :| 0 <= j < |trace| && maxCost <= trace[j].cost;
          assert trace[j].cost <= trace[|trace| - 1].cost;
        } else {
          assert Reachable(g, start, v);
        }
        assert v in Nodes(trace);
        var i :| 0 <= i < |trace| && trace[i].node == v;
        assert Shortest(g, start, trace[i].node, trace[i].cost);
      }
    }
  }

  /** `FindWithinCost`: the nodes whose shortest distance from `start` is
      below `maxCost`. */
  method SearchWithinCost(g: Network, start: nat, maxCost: nat) returns (r: set<nat>)
    requires Valid(g) && start < g.nodeCount
    ensures forall v :: v in r <==> WithinReach(g, start, maxCost, v)
  {
    var res;
    ghost var trace;
    res, trace := Search(g, start, FindWithinCost(maxCost));
    FeedWithinCost(maxCost, trace);
    WithinCostResult(g, start, maxCost, trace);
    r := res.value;
  }

  /** `v` is a matching node no farther from `start` than any matching
      node. */
  ghost predicate ClosestMatch(g: Network, start: nat, matches: set<nat>, v: nat) {
    && v in matches
    && exists p :: IsPath(g, p, start, v)
         && forall u, q :: u in matches && IsPath(g, q, start, u) ==> Cost(p) <= Cost(q)
  }

  /** A visited node was visited at its shortest distance. */
  lemma VisitedAt(g: Network, start: nat, trace: seq<Visit>, u: nat) returns (i: nat)
    requires TraceShortest(g, start, trace) && u in Nodes(trace)
    ensures i < |trace| && trace[i].node == u && Shortest(g, start, u, trace[i].cost)
  {
    i :| 0 <= i < |trace| && trace[i].node == u;
  }

  /** A matching node left unvisited is no closer than any visited one,
      when the search stopped on a dearer matching node. */
  lemma UnvisitedFarther(g: Network, start: nat, matches: set<nat>, trace: seq<Visit>, c: nat, u: nat, q: seq<Edge>)
    requires Sorted(trace) && |trace| > 0 && NoCloser(g, start, Nodes(trace), trace[|trace| - 1].cost)
    requires MatchAbove(trace, matches, c)
    requires u !in Nodes(trace) && IsPath(g, q, start, u)
    ensures c < Cost(q)
  {
    var j :| 0 <= j < |trace| && trace[j].node in matches && c < trace[j].cost;
    assert trace[j].cost <= trace[|trace| - 1].cost;
  }

  lemma ClosestIn(g: Network, start: nat, matches: set<nat>, trace: seq<Visit>, v: nat)
    requires TraceShortest(g, start, trace) && Sorted(trace)
    requires |trace| > 0 ==> NoCloser(g, start, Nodes(trace), trace[|trace| - 1].cost)
    requires !Overshoots(trace, matches) ==> forall u :: Reachable(g, start, u) ==> u in Nodes(trace)
    requires v in ClosestTaken(trace, matches)
    ensures ClosestMatch(g, start, matches, v)
  {
    var c := FirstMatch(trace, matches).value;
    var i :| 0 <= i < |trace| && trace[i].node in matches && trace[i].cost == c && trace[i].node == v;
    assert Shortest(g, start, trace[i].node, trace[i].cost);
    var p :| IsPath(g, p, start, v) && Cost(p) == c;
    forall u, q | u in matches && IsPath(g, q, start, u) ensures c <= Cost(q) {
      if u in Nodes(trace) {
        var j := VisitedAt(g, start, trace, u);
      } else {
        assert Reachable(g, start, u);
        UnvisitedFarther(g, start, matches, trace, c, u, q);
      }
    }
  }

  lemma ClosestOut(g: Network, start: nat, matches: set<nat>, trace: seq<Visit>, v: nat)
    requires TraceShortest(g, start, trace) && Sorted(trace)
    requires |trace| > 0 ==> NoCloser(g, start, Nodes(trace), trace[|trace| - 1].cost)
    requires !Overshoots(trace, matches) ==> forall u :: Reachable(g, start, u) ==> u in Nodes(trace)
    requires ClosestMatch(g, start, matches, v)
    ensures v in ClosestTaken(trace, matches)
  {
    var p :| IsPath(g, p, start, v) && forall u, q :: u in matches && IsPath(g, q, start, u) ==> Cost(p) <= Cost(q);
    assert Reachable(g, start, v);
    if Overshoots(trace, matches) {
      var c := FirstMatch(trace, matches).value;
      var k :| 0 <= k < |trace| && trace[k].node in matches && trace[k].cost == c;
      var pk :| IsPath(g, pk, start, trace[k].node) && Cost(pk) == c;
      assert Cost(p) <= c;
      if v !in Nodes(trace) {
        UnvisitedFarther(g, start, matches, trace, c, v, p);
      }
    }
    assert v in Nodes(trace);
    var i := VisitedAt(g, start, trace, v);
    var c := FirstMatch(trace, matches).value;
    var k :| 0 <= k < |trace| && trace[k].node in matches && trace[k].cost == c;
    var pk :| IsPath(g, pk, start, trace[k].node) && Cost(pk) == c;
    assert Cost(p) <= c;
    assert trace[i].cost <= Cost(p);
    assert c <= trace[i].cost;
    assert trace[i].node in matches && trace[i].cost == c;
  }

  /** `FindClosest`: the matching nodes at the least distance from `start`
      among all matching nodes; the policy never reports an invalid
      state. */
  method SearchClosest(g: Network, start: nat, matches: set<nat>) returns (r: set<nat>)
    requires Valid(g) && start < g.nodeCount
    ensures forall v :: v in r <==> ClosestMatch(g, start, matches, v)
  {
    var res;
    ghost var trace;
    res, trace := Search(g, start, FindClosest(matches));
    FeedClosest(matches, trace);
    r := res.value;
    forall v ensures v in r <==> ClosestMatch(g, start, matches, v) {
      if v in r {
        ClosestIn(g, start, matches, trace, v);
      }
      if ClosestMatch(g, start, matches, v) {
        ClosestOut(g, start, matches, trace, v);
      }
    }
  }
}
