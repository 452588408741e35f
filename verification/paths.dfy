/** Paths through a network and their costs: the reference notion of
    distance that both search engines are measured against. */
module Paths {
  import opened Networks

  /** `p` is a chain of network edges leading from `s` to `t`; the empty
      chain leads from a node to itself. */
  predicate IsPath(g: Network, p: seq<Edge>, s: nat, t: nat)
    decreases |p|
  {
    if |p| == 0 then s == t
    else
      var e := p[|p| - 1];
      e in g.edges && e.to == t && IsPath(g, p[..|p| - 1], s, e.from)
  }

  /** The accumulated edge cost of a chain. */
  function Cost(p: seq<Edge>): nat
    decreases |p|
  {
    if |p| == 0 then 0 else Cost(p[..|p| - 1]) + p[|p| - 1].cost
  }

  /** The chain read front to back: its first edge leaves `s`, its last
      reaches `t`, each edge's target is the next edge's source, and every
      edge is a network edge. */
  predicate Chains(g: Network, p: seq<Edge>, s: nat, t: nat) {
    && (|p| == 0 ==> s == t)
    && (|p| > 0 ==> p[0].from == s && p[|p| - 1].to == t)
    && (forall i :: 0 <= i < |p| - 1 ==> p[i].to == p[i + 1].from)
    && (forall e :: e in p ==> e in g.edges)
  }

  lemma {:induction false} PathIsChain(g: Network, p: seq<Edge>, s: nat, t: nat)
    ensures IsPath(g, p, s, t) <==> Chains(g, p, s, t)
    decreases |p|
  {
    if |p| > 0 {
      var init := p[..|p| - 1];
      var e := p[|p| - 1];
      assert p == init + [e];
      PathIsChain(g, init, s, e.from);
      if IsPath(g, p, s, t) {
        assert Chains(g, p, s, t) by {
          forall x | x in p ensures x in g.edges {
            if x != e { assert x in init; }
          }
          if |init| > 0 {
            assert p[0] == init[0];
            forall i | 0 <= i < |p| - 1 ensures p[i].to == p[i + 1].from {
              if i < |init| - 1 {
                assert p[i] == init[i] && p[i + 1] == init[i + 1];
              }
            }
          }
        }
      }
      if Chains(g, p, s, t) {
        if |init| > 0 {
          assert init[0] == p[0];
          assert init[|init| - 1].to == e.from by {
            assert init[|init| - 1] == p[|p| - 2];
          }
          forall i | 0 <= i < |init| - 1 ensures init[i].to == init[i + 1].from {
            assert init[i] == p[i] && init[i + 1] == p[i + 1];
          }
        } else {
          assert p[0] == e;
        }
        forall x | x in init ensures x in g.edges {
          assert x in p;
        }
        assert Chains(g, init, s, e.from);
      }
    }
  }

  ghost predicate Reachable(g: Network, s: nat, t: nat) {
    exists p :: IsPath(g, p, s, t)
  }

  /** `d` is the shortest-path distance from `s` to `t`: some path costs
      `d` and none costs less. */
  ghost predicate Shortest(g: Network, s: nat, t: nat, d: nat) {
    && (exists p :: IsPath(g, p, s, t) && Cost(p) == d)
    && (forall p :: IsPath(g, p, s, t) ==> d <= Cost(p))
  }

  /** Extending a path by an edge leaving its end. */
  lemma PathSnoc(g: Network, p: seq<Edge>, s: nat, e: Edge)
    requires IsPath(g, p, s, e.from) && e in g.edges
    ensures IsPath(g, p + [e], s, e.to)
    ensures Cost(p + [e]) == Cost(p) + e.cost
  {
    assert (p + [e])[..|p|] == p;
  }

  /** Prefixing a path by an edge entering its start. */
  lemma {:induction false} PathCons(g: Network, e: Edge, p: seq<Edge>, t: nat)
    requires e in g.edges && IsPath(g, p, e.to, t)
    ensures IsPath(g, [e] + p, e.from, t)
    ensures Cost([e] + p) == e.cost + Cost(p)
    decreases |p|
  {
    if |p| > 0 {
      var init := p[..|p| - 1];
      var last := p[|p| - 1];
      PathCons(g, e, init, last.from);
      assert ([e] + p)[..|p|] == [e] + init;
      assert ([e] + p)[|p|] == last;
    }
  }

  /** A non-empty path of a valid network ends at a node of it. */
  lemma PathEndsAtNode(g: Network, p: seq<Edge>, s: nat, t: nat)
    requires Valid(g) && s < g.nodeCount && IsPath(g, p, s, t)
    ensures t < g.nodeCount
  {
  }

  // ---------------------------------------------------------------------
  // The invariants a best-first search keeps, and the cut argument
  // ---------------------------------------------------------------------

  /** A potential (a heuristic towards a fixed goal) never drops by more
      than the cost of an edge. */
  ghost predicate Consistent(g: Network, pot: nat -> nat) {
    forall e :: e in g.edges ==> pot(e.from) <= e.cost + pot(e.to)
  }

  /** Every closed node carries its shortest distance from `s`. */
  ghost predicate Settled(g: Network, s: nat, closed: set<nat>, dist: seq<nat>) {
    && (forall u :: u in closed ==> u < |dist|)
    && (forall u, q :: u in closed && IsPath(g, q, s, u) ==> u < |dist| && dist[u] <= Cost(q))
  }

  /** Every edge leaving the closed set has been relaxed: its target is on
      the frontier with a tentative distance no worse than through it. */
  ghost predicate Relaxed(g: Network, closed: set<nat>, frontier: set<nat>, dist: seq<nat>) {
    forall e :: e in g.edges && e.from in closed && e.to !in closed ==>
      && e.from < |dist| && e.to < |dist|
      && e.to in frontier && dist[e.to] <= dist[e.from] + e.cost
  }

  /** Any path from the closed set to a node outside it crosses the
      frontier at a node whose key is at most the path's cost plus the
      potential of its end. */
  lemma {:induction false} Cut(g: Network, pot: nat -> nat, closed: set<nat>, frontier: set<nat>,
                               dist: seq<nat>, p: seq<Edge>, s: nat, v: nat)
    requires Consistent(g, pot)
    requires Settled(g, s, closed, dist) && Relaxed(g, closed, frontier, dist)
    requires IsPath(g, p, s, v) && s in closed && v !in closed
    ensures exists x :: x in frontier && x < |dist| && dist[x] + pot(x) <= Cost(p) + pot(v)
    decreases |p|
  {
    var init := p[..|p| - 1];
    var e := p[|p| - 1];
    if e.from in closed {
      assert dist[e.from] <= Cost(init);
      assert dist[v] + pot(v) <= Cost(p) + pot(v);
    } else {
      Cut(g, pot, closed, frontier, dist, init, s, e.from);
      var x :| x in frontier && x < |dist| && dist[x] + pot(x) <= Cost(init) + pot(e.from);
      assert pot(e.from) <= e.cost + pot(v);
      assert dist[x] + pot(x) <= Cost(p) + pot(v);
    }
  }

  /** A frontier node of least key carries its shortest distance. */
  lemma PopSettles(g: Network, pot: nat -> nat, closed: set<nat>, frontier: set<nat>,
                   dist: seq<nat>, s: nat, v: nat)
    requires Consistent(g, pot)
    requires Settled(g, s, closed, dist) && Relaxed(g, closed, frontier, dist)
    requires s in closed && v in frontier && v !in closed && v < |dist|
    requires forall x :: x in frontier && x < |dist| ==> dist[v] + pot(v) <= dist[x] + pot(x)
    ensures forall p :: IsPath(g, p, s, v) ==> dist[v] <= Cost(p)
  {
    forall p | IsPath(g, p, s, v) ensures dist[v] <= Cost(p) {
      Cut(g, pot, closed, frontier, dist, p, s, v);
    }
  }

  /** The potential of plain Dijkstra. */
  function Zero(u: nat): nat { 0 }

  lemma ZeroConsistent(g: Network)
    ensures Consistent(g, Zero)
  {
  }

  /** Any path from the closed set to a node outside it leaves the closed
      set along a relaxed edge, so the frontier is not empty. */
  lemma {:induction false} Crossing(g: Network, closed: set<nat>, frontier: set<nat>, dist: seq<nat>,
                                    p: seq<Edge>, s: nat, v: nat)
    requires Relaxed(g, closed, frontier, dist)
    requires IsPath(g, p, s, v) && s in closed && v !in closed
    ensures frontier != {}
    decreases |p|
  {
    var init := p[..|p| - 1];
    var e := p[|p| - 1];
    if e.from in closed {
      assert e.to in frontier;
    } else {
      Crossing(g, closed, frontier, dist, init, s, e.from);
    }
  }

  /** With no frontier left, every node reachable from a closed node is
      closed. */
  lemma Exhausted(g: Network, closed: set<nat>, dist: seq<nat>, s: nat, p: seq<Edge>, v: nat)
    requires Relaxed(g, closed, {}, dist)
    requires s in closed && IsPath(g, p, s, v)
    ensures v in closed
  {
    if v !in closed {
      Crossing(g, closed, {}, dist, p, s, v);
    }
  }
}
