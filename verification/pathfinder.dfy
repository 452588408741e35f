/** `Pathfinder.find`: A* search from one node to another, ordered by
    `(G + heuristic, id)`, relaxing the cheapest edge to each unclosed
    target, and reading the path back through the parent edges. */
module Pathfinder {
  import opened Wrappers
  import opened Networks
  import opened Paths
  import opened Frontiers

  // ---------------------------------------------------------------------
  // One relaxation
  // ---------------------------------------------------------------------

  /** What the search knows about one node: whether it was ever opened,
      its best known distance `G`, and the edge that distance came
      through. */
  datatype Label = Label(open: bool, gCost: nat, parent: Option<Edge>)

  /** The relaxation test: an unopened node takes any offer, an opened one
      only a strictly better one. */
  predicate Improves(l: Label, offered: nat) {
    !l.open || offered < l.gCost
  }

  /** Relaxing a node with an offer through edge `x`, with the node marked
      open once it takes an offer. */
  function Relax(l: Label, x: Edge, offered: nat): (r: Label)
    ensures r.open && r.gCost <= offered
    ensures l.open ==> r.gCost <= l.gCost
    ensures r == l || (r.gCost == offered && r.parent == Some(x))
    ensures r != l <==> Improves(l, offered)
  {
    if Improves(l, offered) then Label(true, offered, Some(x)) else l
  }

  /** The relaxation as `Pathfinder.find` writes it: the node is marked open only
      in the branch where it already is, so it never becomes open and every
      later offer replaces the earlier one. */
  function RelaxAsWritten(l: Label, x: Edge, offered: nat): (r: Label)
    ensures r.open == l.open
    ensures Improves(l, offered) ==> r.gCost == offered && r.parent == Some(x)
  {
    if Improves(l, offered) then Label(if !l.open then l.open else true, offered, Some(x)) else l
  }

  /** Two offers to a fresh node, 11 through `a` and then 101 through `b`
      (the graph 0->1 (1), 0->2 (1), 1->3 (10), 2->3 (100) searched from 0
      to 3 with a zero heuristic makes exactly these offers to node 3): as
      written, the worse one wins and the node keeps the dearer parent. */
  lemma AsWrittenKeepsWorseOffer(a: Edge, b: Edge)
    ensures RelaxAsWritten(RelaxAsWritten(Label(false, 0, None), a, 11), b, 101) == Label(false, 101, Some(b))
    ensures Relax(Relax(Label(false, 0, None), a, 11), b, 101) == Label(true, 11, Some(a))
  {
  }

  /** With the node marked open, offers never raise a node's distance: the
      distance after any sequence of offers is their minimum. */
  lemma {:induction false} RelaxKeepsBest(x: Edge, offers: seq<nat>)
    requires |offers| > 0
    ensures RelaxAll(Label(false, 0, None), x, offers).gCost == Least(offers)
    decreases |offers|
  {
    if |offers| > 1 {
      RelaxKeepsBest(x, offers[..|offers| - 1]);
    }
  }

  /** The offers made to one node, in order, all through the same edge. */
  function RelaxAll(l: Label, x: Edge, offers: seq<nat>): Label
    decreases |offers|
  {
    if |offers| == 0 then l else Relax(RelaxAll(l, x, offers[..|offers| - 1]), x, offers[|offers| - 1])
  }

  function Least(s: seq<nat>): (m: nat)
    requires |s| > 0
    ensures forall i :: 0 <= i < |s| ==> m <= s[i]
    ensures exists i :: 0 <= i < |s| && m == s[i]
    decreases |s|
  {
    if |s| == 1 then s[0]
    else
      var m := Least(s[..|s| - 1]);
      assert forall i :: 0 <= i < |s| - 1 ==> s[..|s| - 1][i] == s[i];
      if s[|s| - 1] < m then s[|s| - 1] else m
  }

  // ---------------------------------------------------------------------
  // The search state
  // ---------------------------------------------------------------------

  /** The per-node arrays of the search and its frontier. */
  datatype AStar = AStar(open: seq<bool>, closed: seq<bool>, gCost: seq<nat>, fCost: seq<nat>,
                         parents: seq<Option<Edge>>, tree: set<nat>)

  predicate Sized(g: Network, s: AStar) {
    && |s.open| == g.nodeCount && |s.closed| == g.nodeCount && |s.gCost| == g.nodeCount
    && |s.fCost| == g.nodeCount && |s.parents| == g.nodeCount
    && (forall u :: u in s.tree ==> u < g.nodeCount)
  }

  function LabelOf(s: AStar, u: nat): Label
    requires u < |s.open| && u < |s.gCost| && u < |s.parents|
  {
    Label(s.open[u], s.gCost[u], s.parents[u])
  }

  /** The heuristic towards `goal`, as a potential on nodes. */
  function Toward(h: (nat, nat) -> nat, goal: nat): nat -> nat {
    x => h(x, goal)
  }

  /** `e` is no dearer than any edge parallel to it. */
  predicate CheapestParallel(g: Network, e: Edge) {
    forall x :: x in g.edges && x.from == e.from && x.to == e.to ==> e.cost <= x.cost
  }

  /** `e` is a valid parent edge for `u`: a cheapest network edge into `u`
      from a closed node, and `u`'s distance is the one through it. */
  ghost predicate Link(g: Network, closed: set<nat>, gCost: seq<nat>, u: nat, e: Edge) {
    && e in g.edges && e.to == u && e.from in closed && CheapestParallel(g, e)
    && u < |gCost| && e.from < |gCost| && gCost[u] == gCost[e.from] + e.cost
  }

  /** The closed nodes' parent edges lead back to `start`: each points to a
      node closed earlier (`order` numbers the closed nodes). */
  ghost predicate ParentTree(g: Network, start: nat, closed: set<nat>, gCost: seq<nat>, parents: seq<Option<Edge>>,
                             order: map<nat, nat>) {
    && (forall u :: u in closed ==> u < |gCost| && u < |parents| && u in order && order[u] < |closed|)
    && (forall u :: u in closed && u != start ==>
          && u < |parents| && parents[u].Some? && Link(g, closed, gCost, u, parents[u].value)
          && parents[u].value.from in order && u in order && order[parents[u].value.from] < order[u])
  }

  /** The arrays agree with the closed set and the frontier. */
  ghost predicate Shape(g: Network, start: nat, goal: nat, s: AStar, closed: set<nat>) {
    && Valid(g) && start < g.nodeCount && Sized(g, s)
    && (forall u :: u in closed ==> u < g.nodeCount)
    && (forall u :: 0 <= u < g.nodeCount ==> (s.closed[u] <==> u in closed))
    && (forall u :: u in s.tree ==> u !in closed && (s.open[u] || u == start))
    && (forall u :: 0 <= u < g.nodeCount && s.open[u] && !s.closed[u] ==> u in s.tree)
    && (closed == {} ==> s.tree == {start})
    && (closed != {} ==> start in closed)
    && s.gCost[start] == 0
    && goal !in closed
  }

  /** Frontier nodes other than the start carry `F = G + h` and a parent. */
  ghost predicate Frontier(g: Network, start: nat, goal: nat, h: (nat, nat) -> nat, s: AStar, closed: set<nat>) {
    forall u :: u in s.tree && u != start ==>
      && u < |s.fCost| && u < |s.gCost| && u < |s.parents|
      && s.fCost[u] == s.gCost[u] + h(u, goal)
      && s.parents[u].Some? && Link(g, closed, s.gCost, u, s.parents[u].value)
  }

  ghost predicate Inv(g: Network, start: nat, goal: nat, h: (nat, nat) -> nat, s: AStar, closed: set<nat>,
                      order: map<nat, nat>) {
    && Shape(g, start, goal, s, closed)
    && Frontier(g, start, goal, h, s, closed)
    && ParentTree(g, start, closed, s.gCost, s.parents, order)
    && (Consistent(g, Toward(h, goal)) ==> Settled(g, start, closed, s.gCost))
    && Relaxed(g, closed, s.tree, s.gCost)
  }

  // ---------------------------------------------------------------------
  // Popping a node
  // ---------------------------------------------------------------------

  /** The engine with `v` popped and closed. */
  function Close(s: AStar, v: nat): AStar
    requires v < |s.closed|
  {
    s.(closed := s.closed[v := true], tree := s.tree - {v})
  }

  /** Under a consistent heuristic, the first frontier node in
      `(F, id)` order carries its shortest distance. */
  lemma PopSettled(g: Network, start: nat, goal: nat, h: (nat, nat) -> nat, s: AStar, closed: set<nat>,
                   order: map<nat, nat>, v: nat)
    requires Inv(g, start, goal, h, s, closed, order)
    requires v in s.tree && forall x :: x in s.tree - {v} ==> Before(s.fCost, v, x)
    ensures Consistent(g, Toward(h, goal)) ==> Settled(g, start, closed + {v}, s.gCost)
  {
    if Consistent(g, Toward(h, goal)) {
      if start in closed {
        forall x | x in s.tree && x < |s.gCost|
          ensures s.gCost[v] + Toward(h, goal)(v) <= s.gCost[x] + Toward(h, goal)(x)
        {
          if x != v {
            assert Before(s.fCost, v, x);
          }
        }
        PopSettles(g, Toward(h, goal), closed, s.tree, s.gCost, start, v);
      }
    }
  }

  /** Closing `v` extends the parent tree: its parent was closed before
      it. */
  lemma PopTree(g: Network, start: nat, closed: set<nat>, gCost: seq<nat>, parents: seq<Option<Edge>>,
                order: map<nat, nat>, v: nat)
    requires ParentTree(g, start, closed, gCost, parents, order)
    requires v !in closed && v < |gCost| && v < |parents|
    requires v != start ==> parents[v].Some? && Link(g, closed, gCost, v, parents[v].value)
    ensures ParentTree(g, start, closed + {v}, gCost, parents, order[v := |closed|])
  {
    var order2 := order[v := |closed|];
    assert |closed + {v}| == |closed| + 1;
    forall u | u in closed + {v} && u != start
      ensures u < |parents| && parents[u].Some? && Link(g, closed + {v}, gCost, u, parents[u].value)
      ensures parents[u].value.from in order2 && u in order2 && order2[parents[u].value.from] < order2[u]
    {
      assert Link(g, closed, gCost, u, parents[u].value);
    }
  }

  // ---------------------------------------------------------------------
  // Expanding a node
  // ---------------------------------------------------------------------

  /** Node `u` has been relaxed with `focusCost` plus the cost of its edge
      in `neighbours`, and took the key `G + h` if it improved. */
  ghost predicate OfferedAt(goal: nat, h: (nat, nat) -> nat, s: AStar, neighbours: map<nat, Edge>,
                            focusCost: nat, r: AStar, u: nat) {
    && u in neighbours && u < |s.open| && u < |s.gCost| && u < |s.parents| && u < |s.fCost|
    && u < |r.open| && u < |r.gCost| && u < |r.parents| && u < |r.fCost|
    && var offered := focusCost + neighbours[u].cost;
       && LabelOf(r, u) == Relax(LabelOf(s, u), neighbours[u], offered)
       && r.fCost[u] == (if Improves(LabelOf(s, u), offered) then offered + h(u, goal) else s.fCost[u])
  }

  /** Node `u` carries the same label and key in `r` as in `s`. */
  ghost predicate KeptAt(s: AStar, r: AStar, u: nat) {
    && u < |s.open| && u < |s.gCost| && u < |s.parents| && u < |s.fCost|
    && u < |r.open| && u < |r.gCost| && u < |r.parents| && u < |r.fCost|
    && LabelOf(r, u) == LabelOf(s, u) && r.fCost[u] == s.fCost[u]
  }

  /** What the relaxation loop does: every target in `neighbours` is
      relaxed with `focusCost` plus the cost of its edge, and takes the
      key `G + h` when it improves; nothing else changes. */
  ghost predicate Expanded(g: Network, goal: nat, h: (nat, nat) -> nat, s: AStar, neighbours: map<nat, Edge>,
                           focusCost: nat, r: AStar)
    requires Sized(g, s)
  {
    && Sized(g, r) && r.closed == s.closed
    && r.tree == s.tree + neighbours.Keys
    && (forall u :: 0 <= u < g.nodeCount && u in neighbours ==> OfferedAt(goal, h, s, neighbours, focusCost, r, u))
    && (forall u :: 0 <= u < g.nodeCount && u !in neighbours ==> KeptAt(s, r, u))
  }

  /** One offer: node `t` is relaxed with `offered` through `x`, and takes
      `key` if it improves. */
  function OfferAt(r: AStar, t: nat, x: Edge, offered: nat, key: nat): (r2: AStar)
    requires t < |r.open| && |r.open| == |r.gCost| == |r.parents| == |r.fCost|
    ensures |r2.open| == |r.open| && |r2.gCost| == |r.gCost| && |r2.parents| == |r.parents|
    ensures |r2.fCost| == |r.fCost| && r2.closed == r.closed
    ensures LabelOf(r2, t) == Relax(LabelOf(r, t), x, offered)
    ensures r2.fCost[t] == (if Improves(LabelOf(r, t), offered) then key else r.fCost[t])
    ensures r2.tree == (if Improves(LabelOf(r, t), offered) then r.tree + {t} else r.tree)
    ensures forall u: nat :: u < |r.open| && u != t ==> KeptAt(r, r2, u)
  {
    if Improves(LabelOf(r, t), offered) then
      var l := Relax(LabelOf(r, t), x, offered);
      r.(open := r.open[t := l.open], gCost := r.gCost[t := l.gCost], parents := r.parents[t := l.parent],
         fCost := r.fCost[t := key], tree := r.tree + {t})
    else r
  }

  /** The relaxation loop's invariant: the targets no longer in `todo`
      have been offered their edge, every other node is as it was. */
  ghost predicate Expanding(g: Network, goal: nat, h: (nat, nat) -> nat, s: AStar, neighbours: map<nat, Edge>,
                            focusCost: nat, r: AStar, todo: set<nat>) {
    && todo <= neighbours.Keys
    && Sized(g, r) && r.closed == s.closed
    && r.tree == s.tree + (neighbours.Keys - todo)
    && (forall u :: 0 <= u < g.nodeCount && u in neighbours && u !in todo ==>
          OfferedAt(goal, h, s, neighbours, focusCost, r, u))
    && (forall u :: 0 <= u < g.nodeCount && (u !in neighbours || u in todo) ==> KeptAt(s, r, u))
  }

  /** Offering `t` its edge moves it from the kept nodes to the offered
      ones and leaves every other node as it was. */
  lemma OfferStep(g: Network, goal: nat, h: (nat, nat) -> nat, s: AStar, neighbours: map<nat, Edge>,
                  focusCost: nat, r: AStar, todo: set<nat>, t: nat, r2: AStar)
    requires Sized(g, s)
    requires forall t :: t in neighbours ==> t < g.nodeCount && !s.closed[t]
    requires forall u :: 0 <= u < g.nodeCount && s.open[u] && !s.closed[u] ==> u in s.tree
    requires Expanding(g, goal, h, s, neighbours, focusCost, r, todo) && t in todo
    requires r2 == OfferAt(r, t, neighbours[t], focusCost + neighbours[t].cost,
                           focusCost + neighbours[t].cost + h(t, goal))
    ensures Expanding(g, goal, h, s, neighbours, focusCost, r2, todo - {t})
  {
    assert KeptAt(s, r, t);
    forall u | 0 <= u < g.nodeCount && u in neighbours && u !in todo - {t}
      ensures OfferedAt(goal, h, s, neighbours, focusCost, r2, u)
    {
      if u != t {
        assert KeptAt(r, r2, u);
      }
    }
    forall u | 0 <= u < g.nodeCount && (u !in neighbours || u in todo - {t})
      ensures KeptAt(s, r2, u)
    {
      assert KeptAt(r, r2, u);
    }
    if !Improves(LabelOf(r, t), focusCost + neighbours[t].cost) {
      assert t in s.tree;
    }
  }

  /** The relaxation loop over the cheapest edge to each unclosed target. */
  method Expand(g: Network, goal: nat, h: (nat, nat) -> nat, s: AStar, neighbours: map<nat, Edge>, focusCost: nat)
      returns (r: AStar)
    requires Sized(g, s)
    requires forall t :: t in neighbours ==> t < g.nodeCount && !s.closed[t]
    requires forall u :: 0 <= u < g.nodeCount && s.open[u] && !s.closed[u] ==> u in s.tree
    ensures Expanded(g, goal, h, s, neighbours, focusCost, r)
  {
    var todo := neighbours.Keys;
    r := s;
    while todo != {}
      invariant Expanding(g, goal, h, s, neighbours, focusCost, r, todo)
      decreases todo
    {
      var t :| t in todo;
      var offered := focusCost + neighbours[t].cost;
      var r2 := OfferAt(r, t, neighbours[t], offered, offered + h(t, goal));
      OfferStep(g, goal, h, s, neighbours, focusCost, r, todo, t, r2);
      r := r2;
      todo := todo - {t};
    }
  }

  /** `neighbours` is what `Neighbours` promises for `v` in `s`. */
  ghost predicate NeighboursOf(g: Network, v: nat, s: AStar, neighbours: map<nat, Edge>)
    requires Sized(g, s)
  {
    && (forall t :: t in neighbours ==> t < g.nodeCount && !s.closed[t])
    && (forall t :: t in neighbours ==> neighbours[t] in g.edges && neighbours[t].from == v && neighbours[t].to == t)
    && (forall x :: x in g.edges && x.from == v && x.to < g.nodeCount && !s.closed[x.to] ==>
          x.to in neighbours && neighbours[x.to].cost <= x.cost)
  }

  lemma ExpandShape(g: Network, start: nat, goal: nat, h: (nat, nat) -> nat, s: AStar, closed: set<nat>,
                    v: nat, nb: map<nat, Edge>, r: AStar)
    requires Shape(g, start, goal, s, closed) && v in s.tree && v != goal
    requires NeighboursOf(g, v, Close(s, v), nb) && Expanded(g, goal, h, Close(s, v), nb, s.gCost[v], r)
    ensures Shape(g, start, goal, r, closed + {v})
  {
    if start !in closed {
      assert v == start;
    }
  }

  /** A neighbour that takes the offer gets `F = G + h` and the expanded
      node's edge as its parent. */
  lemma FrontierImproved(g: Network, goal: nat, h: (nat, nat) -> nat, s: AStar, closed: set<nat>,
                         v: nat, nb: map<nat, Edge>, r: AStar, u: nat)
    requires Sized(g, s) && v < g.nodeCount
    requires NeighboursOf(g, v, Close(s, v), nb) && Expanded(g, goal, h, Close(s, v), nb, s.gCost[v], r)
    requires u in nb && Improves(LabelOf(s, u), s.gCost[v] + nb[u].cost)
    ensures u < |r.fCost| && u < |r.gCost| && u < |r.parents|
    ensures r.fCost[u] == r.gCost[u] + h(u, goal)
    ensures r.parents[u].Some? && Link(g, closed + {v}, r.gCost, u, r.parents[u].value)
  {
    var cs := Close(s, v);
    assert LabelOf(cs, u) == LabelOf(s, u);
    assert LabelOf(r, u) == Relax(LabelOf(s, u), nb[u], s.gCost[v] + nb[u].cost);
    assert v !in nb;
    assert LabelOf(r, v) == LabelOf(cs, v);
    assert r.gCost[v] == s.gCost[v];
  }

  /** A frontier node that does not take an offer keeps its arrays, and
      its parent link survives the closing of `v`. */
  lemma FrontierKept(g: Network, start: nat, goal: nat, h: (nat, nat) -> nat, s: AStar, closed: set<nat>,
                     v: nat, nb: map<nat, Edge>, r: AStar, u: nat)
    requires Shape(g, start, goal, s, closed) && Frontier(g, start, goal, h, s, closed) && v in s.tree
    requires NeighboursOf(g, v, Close(s, v), nb) && Expanded(g, goal, h, Close(s, v), nb, s.gCost[v], r)
    requires u in r.tree && u != start && !(u in nb && Improves(LabelOf(s, u), s.gCost[v] + nb[u].cost))
    ensures u < |r.fCost| && u < |r.gCost| && u < |r.parents|
    ensures r.fCost[u] == r.gCost[u] + h(u, goal)
    ensures r.parents[u].Some? && Link(g, closed + {v}, r.gCost, u, r.parents[u].value)
  {
    var cs := Close(s, v);
    assert LabelOf(cs, u) == LabelOf(s, u);
    assert u in s.tree && u != v;
    assert LabelOf(r, u) == LabelOf(s, u) && r.fCost[u] == s.fCost[u];
    var e := s.parents[u].value;
    assert Link(g, closed, s.gCost, u, e);
    assert e.from !in nb;
    assert LabelOf(r, e.from) == LabelOf(cs, e.from);
  }

  lemma ExpandFrontier(g: Network, start: nat, goal: nat, h: (nat, nat) -> nat, s: AStar, closed: set<nat>,
                       v: nat, nb: map<nat, Edge>, r: AStar)
    requires Shape(g, start, goal, s, closed) && Frontier(g, start, goal, h, s, closed) && v in s.tree
    requires NeighboursOf(g, v, Close(s, v), nb) && Expanded(g, goal, h, Close(s, v), nb, s.gCost[v], r)
    ensures Frontier(g, start, goal, h, r, closed + {v})
  {
    forall u | u in r.tree && u != start
      ensures u < |r.fCost| && u < |r.gCost| && u < |r.parents|
      ensures r.fCost[u] == r.gCost[u] + h(u, goal)
      ensures r.parents[u].Some? && Link(g, closed + {v}, r.gCost, u, r.parents[u].value)
    {
      if u in nb && Improves(LabelOf(s, u), s.gCost[v] + nb[u].cost) {
        FrontierImproved(g, goal, h, s, closed, v, nb, r, u);
      } else {
        FrontierKept(g, start, goal, h, s, closed, v, nb, r, u);
      }
    }
  }

  lemma ExpandRelaxed(g: Network, start: nat, goal: nat, h: (nat, nat) -> nat, s: AStar, closed: set<nat>,
                      v: nat, nb: map<nat, Edge>, r: AStar)
    requires Shape(g, start, goal, s, closed) && Relaxed(g, closed, s.tree, s.gCost) && v in s.tree
    requires NeighboursOf(g, v, Close(s, v), nb) && Expanded(g, goal, h, Close(s, v), nb, s.gCost[v], r)
    ensures Relaxed(g, closed + {v}, r.tree, r.gCost)
  {
    forall x | x in g.edges && x.from in closed + {v} && x.to !in closed + {v}
      ensures x.from < |r.gCost| && x.to < |r.gCost|
      ensures x.to in r.tree && r.gCost[x.to] <= r.gCost[x.from] + x.cost
    {
      assert r.gCost[x.to] == LabelOf(r, x.to).gCost;
      assert x.from !in nb;
      assert r.gCost[x.from] == LabelOf(r, x.from).gCost == s.gCost[x.from];
      if x.from in closed {
        assert x.to in s.tree;
        if x.to in nb {
          assert s.open[x.to];
        }
      } else {
        assert x.to in nb;
        assert r.gCost[x.to] <= s.gCost[v] + nb[x.to].cost;
      }
    }
  }

  /** Relaxation leaves the closed nodes alone. */
  lemma ExpandKeepsClosed(g: Network, goal: nat, h: (nat, nat) -> nat, s: AStar, closed: set<nat>, v: nat, nb: map<nat, Edge>, r: AStar)
    requires Sized(g, s) && v < g.nodeCount
    requires forall u :: u in closed ==> u < g.nodeCount && s.closed[u]
    requires NeighboursOf(g, v, Close(s, v), nb) && Expanded(g, goal, h, Close(s, v), nb, s.gCost[v], r)
    ensures forall u :: u in closed + {v} ==> r.gCost[u] == s.gCost[u] && r.parents[u] == s.parents[u]
  {
    forall u | u in closed + {v} ensures r.gCost[u] == s.gCost[u] && r.parents[u] == s.parents[u] {
      assert u !in nb;
      assert LabelOf(r, u) == LabelOf(s, u);
    }
  }

  lemma ExpandSettled(g: Network, start: nat, closed: set<nat>, gCost: seq<nat>, gCost2: seq<nat>)
    requires Settled(g, start, closed, gCost) && |gCost2| == |gCost|
    requires forall u :: u in closed ==> gCost2[u] == gCost[u]
    ensures Settled(g, start, closed, gCost2)
  {
  }

  lemma ExpandTree(g: Network, start: nat, closed: set<nat>, s: AStar, order: map<nat, nat>, nb: map<nat, Edge>,
                   r: AStar)
    requires ParentTree(g, start, closed, s.gCost, s.parents, order)
    requires |r.gCost| == |s.gCost| && |r.parents| == |s.parents|
    requires forall u :: u in closed ==> r.gCost[u] == s.gCost[u] && r.parents[u] == s.parents[u]
    ensures ParentTree(g, start, closed, r.gCost, r.parents, order)
  {
    forall u | u in closed && u != start
      ensures Link(g, closed, r.gCost, u, r.parents[u].value)
    {
      assert Link(g, closed, s.gCost, u, s.parents[u].value);
    }
  }

  /** Closing `v` and relaxing its out-edges keeps the invariant. */
  lemma Stepped(g: Network, start: nat, goal: nat, h: (nat, nat) -> nat, s: AStar, closed: set<nat>,
                order: map<nat, nat>, v: nat, nb: map<nat, Edge>, r: AStar)
    requires Inv(g, start, goal, h, s, closed, order) && v in s.tree && v != goal
    requires forall x :: x in s.tree - {v} ==> Before(s.fCost, v, x)
    requires NeighboursOf(g, v, Close(s, v), nb) && Expanded(g, goal, h, Close(s, v), nb, s.gCost[v], r)
    ensures Inv(g, start, goal, h, r, closed + {v}, order[v := |closed|])
  {
    PopSettled(g, start, goal, h, s, closed, order, v);
    PopTree(g, start, closed, s.gCost, s.parents, order, v);
    ExpandShape(g, start, goal, h, s, closed, v, nb, r);
    ExpandFrontier(g, start, goal, h, s, closed, v, nb, r);
    ExpandRelaxed(g, start, goal, h, s, closed, v, nb, r);
    ExpandKeepsClosed(g, goal, h, s, closed, v, nb, r);
    ExpandTree(g, start, closed + {v}, s, order[v := |closed|], nb, r);
    if Consistent(g, Toward(h, goal)) {
      ExpandSettled(g, start, closed + {v}, s.gCost, r.gCost);
    }
  }

  /** Closing a frontier node leaves the arrays ready for the relaxation
      loop. */
  lemma CloseReady(g: Network, start: nat, goal: nat, s: AStar, closed: set<nat>, v: nat)
    requires Shape(g, start, goal, s, closed) && v in s.tree
    ensures Sized(g, Close(s, v))
    ensures forall u :: 0 <= u < g.nodeCount && Close(s, v).open[u] && !Close(s, v).closed[u] ==> u in Close(s, v).tree
  {
  }

  /** `Neighbours` gives what the expansion lemmas expect. */
  lemma NeighboursAre(g: Network, v: nat, s: AStar, nb: map<nat, Edge>)
    requires Valid(g) && Sized(g, s) && nb == Neighbours(g, v, s.closed)
    ensures NeighboursOf(g, v, s, nb)
    ensures forall t :: t in nb ==> t < g.nodeCount && !s.closed[t]
  {
  }

  /** Closes `v` and relaxes its out-edges. */
  method Step(g: Network, start: nat, goal: nat, h: (nat, nat) -> nat, s: AStar, ghost closed: set<nat>,
              ghost order: map<nat, nat>, v: nat)
      returns (r: AStar)
    requires Inv(g, start, goal, h, s, closed, order) && v in s.tree && v != goal
    requires forall x :: x in s.tree - {v} ==> Before(s.fCost, v, x)
    ensures Inv(g, start, goal, h, r, closed + {v}, order[v := |closed|])
  {
    var s1 := s.(closed := s.closed[v := true], tree := s.tree - {v});
    assert s1 == Close(s, v);
    CloseReady(g, start, goal, s, closed, v);
    var nb := Neighbours(g, v, s1.closed);
    NeighboursAre(g, v, s1, nb);
    r := Expand(g, goal, h, s1, nb, s.gCost[v]);
    Stepped(g, start, goal, h, s, closed, order, v, nb, r);
  }

  // ---------------------------------------------------------------------
  // Reading the path back, and the search
  // ---------------------------------------------------------------------

  /** Follows the parent edges from `goal` back to `start` and returns
      them in path order. */
  method BuildPath(g: Network, gCost: seq<nat>, parents: seq<Option<Edge>>, start: nat, goal: nat,
                   ghost closed: set<nat>, ghost order: map<nat, nat>) returns (p: seq<Edge>)
    requires ParentTree(g, start, closed, gCost, parents, order)
    requires goal in closed && start < |gCost| && gCost[start] == 0
    ensures IsPath(g, p, start, goal) && Cost(p) == gCost[goal]
    ensures forall e :: e in p ==> CheapestParallel(g, e)
    ensures start == goal ==> p == []
  {
    var focus := goal;
    p := [];
    while focus != start
      invariant focus in closed
      invariant IsPath(g, p, focus, goal) && gCost[focus] + Cost(p) == gCost[goal]
      invariant forall e :: e in p ==> CheapestParallel(g, e)
      invariant start == goal ==> p == []
      decreases order[focus]
    {
      var e := parents[focus].value;
      assert Link(g, closed, gCost, focus, e);
      PathCons(g, e, p, goal);
      p := [e] + p;
      focus := e.from;
    }
  }

  /** A* from `start` to `goal` with heuristic `h`: a path exactly when
      `goal` is reachable, the empty one when `start` is `goal`, built
      from cheapest parallel edges, and shortest when the heuristic is
      consistent. */
  method Find(g: Network, start: nat, goal: nat, h: (nat, nat) -> nat) returns (r: Option<seq<Edge>>)
    requires Valid(g) && start < g.nodeCount
    ensures r.Some? ==> IsPath(g, r.value, start, goal) && Chains(g, r.value, start, goal)
    ensures r.None? <==> !Reachable(g, start, goal)
    ensures start == goal ==> r == Some([])
    ensures r.Some? ==> forall e :: e in r.value ==> CheapestParallel(g, e)
    ensures r.Some? && Consistent(g, Toward(h, goal)) ==>
      forall q :: IsPath(g, q, start, goal) ==> Cost(r.value) <= Cost(q)
  {
    var n := g.nodeCount;
    var s := AStar(seq(n, _ => false), seq(n, _ => false), seq(n, _ => 0), seq(n, _ => 0),
                   seq(n, _ => None), {start});
    ghost var closed: set<nat> := {};
    ghost var order: map<nat, nat> := map[];
    while s.tree != {}
      invariant Inv(g, start, goal, h, s, closed, order)
      invariant |closed| <= n
      decreases n - |closed|
    {
      var v, rest := PopMin(s.tree, s.fCost);
      if v == goal {
        PopSettled(g, start, goal, h, s, closed, order, v);
        PopTree(g, start, closed, s.gCost, s.parents, order, v);
        var p := BuildPath(g, s.gCost, s.parents, start, goal, closed + {v}, order[v := |closed|]);
        PathIsChain(g, p, start, goal);
        r := Some(p);
        return;
      }
      s := Step(g, start, goal, h, s, closed, order, v);
      order := order[v := |closed|];
      closed := closed + {v};
      BoundedCard(closed, n);
    }
    r := None;
    if Reachable(g, start, goal) {
      var q :| IsPath(g, q, start, goal);
      Exhausted(g, closed, s.gCost, start, q, goal);
    }
  }
}
