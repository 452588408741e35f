/** The weighted directed multigraph `Network`: its adjacency indices, the
    queries built on them, and the edits that produce new networks. */
module Networks {
  import opened Wrappers

  /** A directed weighted edge. Java `Edge`s are distinct objects, so
      two edges with equal endpoints and cost are still two members of a
      network; `id` stands for that identity. */
  datatype Edge = Edge(id: nat, from: nat, to: nat, cost: nat)

  /** A network over the dense node range [0, nodeCount). */
  datatype Network = Network(nodeCount: nat, edges: seq<Edge>)

  datatype Side = Source | Target

  function Endpoint(e: Edge, side: Side): nat {
    match side
    case Source => e.from
    case Target => e.to
  }

  /** Every endpoint is a node: the engines index per-node arrays by it. */
  predicate Valid(g: Network) {
    forall e :: e in g.edges ==> e.from < g.nodeCount && e.to < g.nodeCount
  }

  predicate HasNode(g: Network, v: nat) {
    v < g.nodeCount
  }

  predicate Touches(e: Edge, nodes: set<nat>) {
    e.from in nodes || e.to in nodes
  }

  // ---------------------------------------------------------------------
  // Filtering, the reference definition of every edge query
  // ---------------------------------------------------------------------

  /** The elements of `s` satisfying `keep`, in their original order. */
  function Filter(s: seq<Edge>, keep: Edge -> bool): (r: seq<Edge>)
    ensures forall x :: x in r <==> x in s && keep(x)
    ensures |r| <= |s|
  {
    if |s| == 0 then []
    else
      var init := s[..|s| - 1];
      var last := s[|s| - 1];
      assert s == init + [last];
      Filter(init, keep) + (if keep(last) then [last] else [])
  }

  lemma {:induction false} FilterAll(s: seq<Edge>, keep: Edge -> bool)
    requires forall x :: x in s ==> keep(x)
    ensures Filter(s, keep) == s
  {
    if |s| > 0 {
      assert s == s[..|s| - 1] + [s[|s| - 1]];
      FilterAll(s[..|s| - 1], keep);
    }
  }

  lemma {:induction false} FilterNone(s: seq<Edge>, keep: Edge -> bool)
    requires forall x :: x in s ==> !keep(x)
    ensures Filter(s, keep) == []
  {
    if |s| > 0 {
      assert s == s[..|s| - 1] + [s[|s| - 1]];
      FilterNone(s[..|s| - 1], keep);
    }
  }

  /** Filtering twice is filtering once by the conjunction. */
  lemma {:induction false} FilterFilter(s: seq<Edge>, f: Edge -> bool, k: Edge -> bool, both: Edge -> bool)
    requires forall x :: both(x) == (f(x) && k(x))
    ensures Filter(Filter(s, f), k) == Filter(s, both)
  {
    if |s| > 0 {
      var init := s[..|s| - 1];
      var last := s[|s| - 1];
      FilterFilter(init, f, k, both);
      var fi := Filter(init, f);
      var fs := Filter(s, f);
      assert fs == fi + (if f(last) then [last] else []);
      if f(last) {
        assert fs[..|fs| - 1] == fi;
        assert Filter(fs, k) == Filter(fi, k) + (if k(last) then [last] else []);
      } else {
        assert fs == fi;
      }
    }
  }

  /** The edges of `es` whose `side` endpoint is `v`, in order. */
  function Select(es: seq<Edge>, side: Side, v: nat): (r: seq<Edge>)
    ensures forall e :: e in r <==> e in es && Endpoint(e, side) == v
  {
    Filter(es, (e: Edge) => Endpoint(e, side) == v)
  }

  lemma SelectSnoc(es: seq<Edge>, side: Side, v: nat, e: Edge)
    ensures Select(es + [e], side, v)
         == Select(es, side, v) + (if Endpoint(e, side) == v then [e] else [])
  {
    assert (es + [e])[..|es + [e]| - 1] == es;
  }

  /** Selecting from a concatenation selects from each part. */
  lemma {:induction false} SelectAppend(a: seq<Edge>, b: seq<Edge>, side: Side, v: nat)
    ensures Select(a + b, side, v) == Select(a, side, v) + Select(b, side, v)
    decreases |b|
  {
    if |b| > 0 {
      var init := b[..|b| - 1];
      var last := b[|b| - 1];
      assert a + b == (a + init) + [last];
      assert b == init + [last];
      SelectSnoc(a + init, side, v, last);
      SelectSnoc(init, side, v, last);
      SelectAppend(a, init, side, v);
    } else {
      assert a + b == a;
      assert Select(b, side, v) == [];
    }
  }

  // ---------------------------------------------------------------------
  // Adjacency indices
  // ---------------------------------------------------------------------

  /** Lookup that yields no edges for an absent key instead of failing. */
  function Lookup(index: map<nat, seq<Edge>>, v: nat): seq<Edge> {
    if v in index then index[v] else []
  }

  /** The index the constructor builds once: edges grouped by one endpoint,
      each group in edge order, with no key for a node that has no edges. */
  function Group(es: seq<Edge>, side: Side): (index: map<nat, seq<Edge>>)
    ensures forall v :: Lookup(index, v) == Select(es, side, v)
    ensures forall v :: v in index ==> index[v] != []
  {
    if |es| == 0 then map[]
    else
      var init := es[..|es| - 1];
      var last := es[|es| - 1];
      assert es == init + [last];
      var index := Group(init, side);
      var k := Endpoint(last, side);
      var r := index[k := Lookup(index, k) + [last]];
      assert forall v :: Lookup(r, v) == Select(es, side, v) by {
        forall v ensures Lookup(r, v) == Select(es, side, v) {
          SelectSnoc(init, side, v, last);
        }
      }
      r
  }

  // ---------------------------------------------------------------------
  // Queries
  // ---------------------------------------------------------------------

  /** getOut: the outgoing edges of `v`, parallel copies included. */
  function Out(g: Network, v: nat): (r: seq<Edge>)
    ensures r == Select(g.edges, Source, v)
    ensures forall e :: e in r <==> e in g.edges && e.from == v
  {
    Lookup(Group(g.edges, Source), v)
  }

  /** getIn: the incoming edges of `v`, parallel copies included. */
  function In(g: Network, v: nat): (r: seq<Edge>)
    ensures r == Select(g.edges, Target, v)
    ensures forall e :: e in r <==> e in g.edges && e.to == v
  {
    Lookup(Group(g.edges, Target), v)
  }

  /** A node with no outgoing (incoming) edge gets an empty sequence. */
  lemma NoEdgesIsEmpty(g: Network, v: nat)
    ensures (forall e :: e in g.edges ==> e.from != v) ==> Out(g, v) == []
    ensures (forall e :: e in g.edges ==> e.to != v) ==> In(g, v) == []
  {
    if forall e :: e in g.edges ==> e.from != v {
      FilterNone(g.edges, (e: Edge) => Endpoint(e, Source) == v);
    }
    if forall e :: e in g.edges ==> e.to != v {
      FilterNone(g.edges, (e: Edge) => Endpoint(e, Target) == v);
    }
  }

  /** The sequence without repeats, keeping first occurrences in order. */
  function Distinct(s: seq<nat>): (r: seq<nat>)
    ensures forall x :: x in r <==> x in s
    ensures forall i, j :: 0 <= i < j < |r| ==> r[i] != r[j]
  {
    if |s| == 0 then []
    else
      var init := s[..|s| - 1];
      var last := s[|s| - 1];
      assert s == init + [last];
      var r := Distinct(init);
      if last in r then r else r + [last]
  }

  function Ends(es: seq<Edge>, side: Side): seq<nat> {
    seq(|es|, i requires 0 <= i < |es| => Endpoint(es[i], side))
  }

  lemma InEnds(es: seq<Edge>, side: Side, u: nat)
    ensures u in Ends(es, side) <==> exists e :: e in es && Endpoint(e, side) == u
  {
    if exists e :: e in es && Endpoint(e, side) == u {
      var e :| e in es && Endpoint(e, side) == u;
      var i :| 0 <= i < |es| && es[i] == e;
      assert Ends(es, side)[i] == u;
    }
  }

  lemma SuccessorEnds(g: Network, v: nat)
    ensures forall u :: u in Ends(Out(g, v), Target) <==> exists e :: e in g.edges && e.from == v && e.to == u
  {
    forall u ensures u in Ends(Out(g, v), Target) <==> exists e :: e in g.edges && e.from == v && e.to == u {
      InEnds(Out(g, v), Target, u);
      if exists e :: e in g.edges && e.from == v && e.to == u {
        var e :| e in g.edges && e.from == v && e.to == u;
        assert e in Out(g, v);
      }
    }
  }

  lemma PredecessorEnds(g: Network, v: nat)
    ensures forall u :: u in Ends(In(g, v), Source) <==> exists e :: e in g.edges && e.to == v && e.from == u
  {
    forall u ensures u in Ends(In(g, v), Source) <==> exists e :: e in g.edges && e.to == v && e.from == u {
      InEnds(In(g, v), Source, u);
      if exists e :: e in g.edges && e.to == v && e.from == u {
        var e :| e in g.edges && e.to == v && e.from == u;
        assert e in In(g, v);
      }
    }
  }

  /** getBelow: the distinct successors of `v`. */
  function Below(g: Network, v: nat): (r: seq<nat>)
    ensures forall u :: u in r <==> exists e :: e in g.edges && e.from == v && e.to == u
    ensures forall i, j :: 0 <= i < j < |r| ==> r[i] != r[j]
  {
    SuccessorEnds(g, v);
    Distinct(Ends(Out(g, v), Target))
  }

  /** getAbove: the distinct predecessors of `v`. */
  function Above(g: Network, v: nat): (r: seq<nat>)
    ensures forall u :: u in r <==> exists e :: e in g.edges && e.to == v && e.from == u
    ensures forall i, j :: 0 <= i < j < |r| ==> r[i] != r[j]
  {
    PredecessorEnds(g, v);
    Distinct(Ends(In(g, v), Source))
  }

  /** getEdges: the parallel edges from `a` to `b`. */
  function EdgesBetween(g: Network, a: nat, b: nat): (r: seq<Edge>)
    ensures forall e :: e in r <==> e in g.edges && e.from == a && e.to == b
    ensures r == [] <==> forall e :: e in g.edges ==> !(e.from == a && e.to == b)
  {
    var r := Select(Out(g, a), Target, b);
    assert r == [] <==> forall e :: e in g.edges ==> !(e.from == a && e.to == b) by {
      if r != [] { assert r[0] in r; }
    }
    r
  }

  /** getReverses: the edges running the other way between the same pair. */
  function Reverses(g: Network, e: Edge): (r: seq<Edge>)
    ensures forall f :: f in r <==> f in g.edges && f.from == e.to && f.to == e.from
  {
    EdgesBetween(g, e.to, e.from)
  }

  /** A self-loop of the network is among its own reverses. */
  lemma SelfLoopIsOwnReverse(g: Network, e: Edge)
    requires e in g.edges && e.from == e.to
    ensures e in Reverses(g, e)
  {
  }

  /** Reversal is symmetric: f reverses e exactly when e reverses f. */
  lemma ReverseSymmetric(g: Network, e: Edge, f: Edge)
    requires e in g.edges && f in g.edges
    ensures f in Reverses(g, e) <==> e in Reverses(g, f)
  {
  }

  // ---------------------------------------------------------------------
  // Edits
  // ---------------------------------------------------------------------

  /** The edges of `a` that no edge of `b` shares endpoints with. */
  function Unshadowed(a: seq<Edge>, b: Network): seq<Edge> {
    Filter(a, (e: Edge) => EdgesBetween(b, e.from, e.to) == [])
  }

  /** merge: the union of both node sets; all of `other`'s edges, and the
      edges of `g` whose endpoint pair `other` does not connect. */
  function Merge(g: Network, other: Network): (r: Network)
    ensures forall v :: HasNode(r, v) <==> HasNode(g, v) || HasNode(other, v)
    ensures forall e :: e in other.edges ==> e in r.edges
    ensures forall e :: e in g.edges ==>
      (e in r.edges <==> e in other.edges || forall f :: f in other.edges ==> !(f.from == e.from && f.to == e.to))
    ensures forall e :: e in r.edges ==> e in g.edges || e in other.edges
    ensures Valid(g) && Valid(other) ==> Valid(r)
  {
    Network(Max(g.nodeCount, other.nodeCount), other.edges + Unshadowed(g.edges, other))
  }

  /** Where `other` connects a pair, the merge holds exactly its edges for
      that pair; elsewhere, exactly those of `g`. */
  lemma MergeOtherWins(g: Network, other: Network, a: nat, b: nat)
    ensures forall e :: e in EdgesBetween(Merge(g, other), a, b) <==>
      if EdgesBetween(other, a, b) != [] then e in EdgesBetween(other, a, b)
      else e in EdgesBetween(g, a, b)
  {
  }

  /** Merging a network with itself gives it back unchanged. */
  lemma MergeSelf(g: Network)
    ensures Merge(g, g) == g
  {
    forall e | e in g.edges ensures EdgesBetween(g, e.from, e.to) != [] {
      assert e in EdgesBetween(g, e.from, e.to);
    }
    FilterNone(g.edges, (e: Edge) => EdgesBetween(g, e.from, e.to) == []);
  }

  /** disconnect: the same nodes, with every edge touching `nodes` removed. */
  function Disconnect(g: Network, nodes: set<nat>): (r: Network)
    ensures r.nodeCount == g.nodeCount
    ensures forall e :: e in r.edges <==> e in g.edges && !Touches(e, nodes)
    ensures Valid(g) ==> Valid(r)
  {
    Network(g.nodeCount, Filter(g.edges, (e: Edge) => !Touches(e, nodes)))
  }

  /** Disconnecting twice is disconnecting the union, in the same edge order. */
  lemma DisconnectTwice(g: Network, s: set<nat>, t: set<nat>)
    ensures Disconnect(Disconnect(g, s), t) == Disconnect(g, s + t)
  {
    FilterFilter(g.edges, (e: Edge) => !Touches(e, s), (e: Edge) => !Touches(e, t),
                 (e: Edge) => !Touches(e, s + t));
  }

  /** Disconnecting is idempotent. */
  lemma DisconnectIdempotent(g: Network, s: set<nat>)
    ensures Disconnect(Disconnect(g, s), s) == Disconnect(g, s)
  {
    DisconnectTwice(g, s, s);
    assert s + s == s;
  }

  /** The edge `e` after repricing: an edge touching `nodes` is replaced by a
      new edge with the same endpoints, cost `cost` and identity `id`. */
  function Reprice(e: Edge, nodes: set<nat>, cost: nat, id: nat): Edge {
    if Touches(e, nodes) then Edge(id, e.from, e.to, cost) else e
  }

  /** Repricing a sequence of edges; the new edge at position `i` gets the
      identity `nextId + i`. */
  function Reprices(es: seq<Edge>, nodes: set<nat>, cost: nat, nextId: nat): (r: seq<Edge>)
    ensures |r| == |es|
    ensures forall i :: 0 <= i < |es| ==> r[i] == Reprice(es[i], nodes, cost, nextId + i)
  {
    if |es| == 0 then []
    else Reprices(es[..|es| - 1], nodes, cost, nextId) + [Reprice(es[|es| - 1], nodes, cost, nextId + |es| - 1)]
  }

  /** `nextId` and every identity above it are unused by the edges of `g`:
      what allocating new objects guarantees. */
  predicate FreshFor(g: Network, nextId: nat) {
    forall e :: e in g.edges ==> e.id < nextId
  }

  /** setCosts: the same nodes; every edge touching `nodes` is replaced, in
      place, by a new edge with the same endpoints and cost `cost`, distinct
      from every other edge; every other edge is the same edge. New
      identities are drawn from `nextId` upward. */
  function SetCosts(g: Network, nodes: set<nat>, cost: nat, nextId: nat): (r: Network)
    ensures r.nodeCount == g.nodeCount && |r.edges| == |g.edges|
    ensures forall i :: 0 <= i < |g.edges| ==>
      var e, f := g.edges[i], r.edges[i];
      f.from == e.from && f.to == e.to
      && (Touches(e, nodes) ==> f.cost == cost && nextId <= f.id)
      && (!Touches(e, nodes) ==> f == e)
    ensures forall i, j :: 0 <= i < j < |g.edges| && Touches(g.edges[i], nodes) ==> r.edges[i] != r.edges[j]
    ensures FreshFor(g, nextId) ==>
      forall i :: 0 <= i < |g.edges| && Touches(g.edges[i], nodes) ==> r.edges[i] !in g.edges
    ensures Valid(g) ==> Valid(r)
  {
    var r := Network(g.nodeCount, Reprices(g.edges, nodes, cost, nextId));
    assert Valid(g) ==> Valid(r) by {
      if Valid(g) {
        forall f | f in r.edges ensures f.from < r.nodeCount && f.to < r.nodeCount {
          var i :| 0 <= i < |r.edges| && r.edges[i] == f;
          assert g.edges[i] in g.edges;
        }
      }
    }
    r
  }

  /** An edge with its identity forgotten. */
  function Priced(e: Edge): (nat, nat, nat) {
    (e.from, e.to, e.cost)
  }

  /** Setting the same cost twice gives the network setting it once gives,
      up to the identities of the new edges: position by position, the same
      endpoints and the same cost. */
  lemma SetCostsIdempotent(g: Network, nodes: set<nat>, cost: nat, nextId: nat, nextId': nat)
    ensures var once := SetCosts(g, nodes, cost, nextId);
      var twice := SetCosts(once, nodes, cost, nextId');
      twice.nodeCount == once.nodeCount && |twice.edges| == |once.edges|
      && forall i :: 0 <= i < |once.edges| ==> Priced(twice.edges[i]) == Priced(once.edges[i])
  {
  }

  /** Repricing the edges of nodes that are then disconnected has no effect. */
  lemma DisconnectAfterSetCosts(g: Network, nodes: set<nat>, cost: nat, nextId: nat)
    ensures Disconnect(SetCosts(g, nodes, cost, nextId), nodes) == Disconnect(g, nodes)
  {
    DisconnectRepriced(g.edges, nodes, cost, nextId);
  }

  lemma {:induction false} DisconnectRepriced(es: seq<Edge>, nodes: set<nat>, cost: nat, nextId: nat)
    ensures Filter(Reprices(es, nodes, cost, nextId), (e: Edge) => !Touches(e, nodes))
         == Filter(es, (e: Edge) => !Touches(e, nodes))
  {
    if |es| > 0 {
      var init := es[..|es| - 1];
      var rs := Reprices(es, nodes, cost, nextId);
      DisconnectRepriced(init, nodes, cost, nextId);
      assert rs[..|rs| - 1] == Reprices(init, nodes, cost, nextId);
    }
  }
}
