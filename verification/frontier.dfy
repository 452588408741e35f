/** The pieces both search engines share: the `(key, id)`-ordered frontier
    and the collapse of parallel out-edges to the cheapest one per target. */
module Frontiers {
  import opened Networks

  /** `(key[a], a)` comes strictly before `(key[b], b)` in the frontier's
      order: smaller key first, smaller node id among equal keys. */
  predicate Before(key: seq<nat>, a: nat, b: nat)
    requires a < |key| && b < |key|
  {
    key[a] < key[b] || (key[a] == key[b] && a < b)
  }

  /** Removes and returns the first node of the frontier in `(key, id)`
      order, as `TreeSet.pollFirst` does. */
  method PopMin(frontier: set<nat>, key: seq<nat>) returns (v: nat, rest: set<nat>)
    requires frontier != {}
    requires forall x :: x in frontier ==> x < |key|
    ensures v in frontier && rest == frontier - {v}
    ensures forall x :: x in rest ==> Before(key, v, x)
  {
    var todo := frontier;
    v :| v in todo;
    todo := todo - {v};
    while todo != {}
      invariant todo <= frontier && v in frontier && v !in todo
      invariant forall x :: x in frontier - todo - {v} ==> Before(key, v, x)
      decreases todo
    {
      var x :| x in todo;
      if Before(key, x, v) {
        forall y | y in frontier - todo - {v} ensures Before(key, x, y) {
          if y != v {
            assert Before(key, v, y);
          }
        }
        v := x;
      }
      todo := todo - {x};
    }
    rest := frontier - {v};
  }

  /** The cost a neighbour ends up with when offered `offered`: a node seen
      before changes only on a strict improvement, a new one takes the
      offer. */
  function Improve(open: bool, current: nat, offered: nat): (c: nat)
    ensures open ==> c <= current && c <= offered && (c == current || offered < current)
    ensures open ==> c == current || c == offered
    ensures !open ==> c == offered
  {
    if open && current <= offered then current else offered
  }

  /** A set of node ids below `n` has at most `n` elements. */
  lemma {:induction false} BoundedCard(s: set<nat>, n: nat)
    requires forall u :: u in s ==> u < n
    ensures |s| <= n
    decreases n
  {
    if n > 0 {
      BoundedCard(s - {n - 1}, n - 1);
    } else {
      assert s == {};
    }
  }

  /** The out-edges whose target is not yet closed. */
  function Unclosed(es: seq<Edge>, closed: seq<bool>): (r: seq<Edge>)
    ensures forall e :: e in r <==> e in es && !(e.to < |closed| && closed[e.to])
  {
    Filter(es, (e: Edge) => !(e.to < |closed| && closed[e.to]))
  }

  /** For every target of `es`, one of its cheapest edges (grouping by
      target, then taking the minimum by cost; the earliest one wins a tie). */
  function Cheapest(es: seq<Edge>): (m: map<nat, Edge>)
    ensures forall t :: t in m <==> exists e :: e in es && e.to == t
    ensures forall t :: t in m ==> m[t] in es && m[t].to == t
    ensures forall t, e :: t in m && e in es && e.to == t ==> m[t].cost <= e.cost
    decreases |es|
  {
    if |es| == 0 then map[]
    else
      var init := es[..|es| - 1];
      var e := es[|es| - 1];
      assert es == init + [e];
      var m := Cheapest(init);
      if e.to in m && m[e.to].cost <= e.cost then m else m[e.to := e]
  }

  /** `es[k]` is `c`, and every earlier edge of `es` to `t` is strictly
      dearer than `c`. */
  predicate EarliestAt(es: seq<Edge>, t: nat, k: nat, c: Edge) {
    k < |es| && es[k] == c && forall j :: 0 <= j < k && es[j].to == t ==> c.cost < es[j].cost
  }

  lemma SplitLast(es: seq<Edge>)
    requires |es| > 0
    ensures es == es[..|es| - 1] + [es[|es| - 1]]
  {
  }

  lemma CheapestSnoc(init: seq<Edge>, e: Edge)
    ensures Cheapest(init + [e])
         == var m := Cheapest(init); if e.to in m && m[e.to].cost <= e.cost then m else m[e.to := e]
  {
    assert (init + [e])[..|init + [e]| - 1] == init;
  }

  lemma EarliestKept(init: seq<Edge>, e: Edge, t: nat, k: nat, c: Edge)
    requires EarliestAt(init, t, k, c)
    ensures EarliestAt(init + [e], t, k, c)
  {
    assert forall j :: 0 <= j <= k ==> (init + [e])[j] == init[j];
  }

  lemma EarliestNew(init: seq<Edge>, e: Edge)
    requires forall f :: f in init && f.to == e.to ==> e.cost < f.cost
    ensures EarliestAt(init + [e], e.to, |init|, e)
  {
    forall j | 0 <= j < |init| && (init + [e])[j].to == e.to
      ensures e.cost < (init + [e])[j].cost
    {
      assert (init + [e])[j] == init[j] && init[j] in init;
    }
  }

  /** A tie goes to the earliest of the cheapest edges, as `minBy` keeps the
      first of equal elements of the insertion-ordered out-edge stream. */
  lemma {:induction false} CheapestEarliest(es: seq<Edge>, t: nat) returns (k: nat)
    requires t in Cheapest(es)
    ensures EarliestAt(es, t, k, Cheapest(es)[t])
    decreases |es|
  {
    var init := es[..|es| - 1];
    var e := es[|es| - 1];
    SplitLast(es);
    CheapestSnoc(init, e);
    var m := Cheapest(init);
    if t in m && (t != e.to || m[t].cost <= e.cost) {
      k := CheapestEarliest(init, t);
      EarliestKept(init, e, t, k, m[t]);
    } else {
      k := |init|;
      EarliestNew(init, e);
    }
  }

  /** The targets `v` can still relax, each with its cheapest edge. */
  function Neighbours(g: Network, v: nat, closed: seq<bool>): (m: map<nat, Edge>)
    requires Valid(g)
    ensures forall t :: t in m ==> t < g.nodeCount && !(t < |closed| && closed[t])
    ensures forall t :: t in m ==> m[t] in g.edges && m[t].from == v && m[t].to == t
    ensures forall x :: x in g.edges && x.from == v && !(x.to < |closed| && closed[x.to]) ==>
      x.to in m && m[x.to].cost <= x.cost
  {
    Cheapest(Unclosed(Out(g, v), closed))
  }
}
