/** createGridNetwork: a width-by-height grid whose cell (x, y) is node
    `width * y + x`, with one edge per neighbour offset that stays on the grid. */
module Grids {
  import opened Networks

  predicate OnGrid(width: nat, height: nat, x: int, y: int) {
    0 <= x < width && 0 <= y < height
  }

  /** Offset `i` leads from cell (x, y) to a cell of the grid. */
  predicate Steps(width: nat, height: nat, dxs: seq<int>, dys: seq<int>, x: nat, y: nat, i: nat)
    requires |dxs| <= |dys|
  {
    i < |dxs| && OnGrid(width, height, x + dxs[i], y + dys[i])
  }

  /** The node of cell (x, y), counting row by row: the cells of the
      `y` rows above it, `width` each, then `x` more. */
  function CellIndex(width: nat, x: nat, y: nat): nat
    decreases y
  {
    if y == 0 then x else width + CellIndex(width, x, y - 1)
  }

  /** The row-by-row count is `createGridNetwork`'s `width * y + x`. */
  lemma {:induction false} CellIndexFormula(width: nat, x: nat, y: nat)
    ensures CellIndex(width, x, y) == width * y + x
    decreases y
  {
    if y > 0 {
      CellIndexFormula(width, x, y - 1);
      assert width * y == width + width * (y - 1);
    }
  }

  lemma CellIndexBound(width: nat, height: nat, x: nat, y: nat)
    requires x < width && y < height
    ensures CellIndex(width, x, y) < width * height
  {
    CellIndexOrder(width, x, y, 0, height);
    CellIndexFormula(width, 0, height);
  }

  /** Moving right within a row adds to the index. */
  lemma {:induction false} CellIndexShift(width: nat, x: nat, y: nat)
    ensures CellIndex(width, x, y) == CellIndex(width, 0, y) + x
    decreases y
  {
    if y > 0 {
      CellIndexShift(width, x, y - 1);
    }
  }

  /** Every cell of a lower row has a larger index. */
  lemma {:induction false} CellIndexOrder(width: nat, x: nat, y: nat, x': nat, y': nat)
    requires x < width && y < y'
    ensures CellIndex(width, x, y) < CellIndex(width, x', y')
    decreases y'
  {
    CellIndexShift(width, x, y);
    CellIndexShift(width, x', y' - 1);
    if y < y' - 1 {
      CellIndexOrder(width, x, y, x', y' - 1);
    }
  }

  lemma CellIndexInjective(width: nat, x: nat, y: nat, x': nat, y': nat)
    requires x < width && x' < width && CellIndex(width, x, y) == CellIndex(width, x', y')
    ensures x == x' && y == y'
  {
    if y < y' {
      CellIndexOrder(width, x, y, x', y');
    } else if y' < y {
      CellIndexOrder(width, x', y', x, y);
    } else {
      CellIndexShift(width, x, y);
      CellIndexShift(width, x', y');
    }
  }

  /** A distinct identity for the edge of each (cell, offset). */
  function EdgeId(height: nat, offsets: nat, x: nat, y: nat, i: nat): nat {
    CellIndex(offsets, i, CellIndex(height, y, x))
  }

  /** The edge from cell (x, y) by offset `i`; its cost is the given cost of
      a step by that offset. */
  function GridEdge(width: nat, height: nat, dxs: seq<int>, dys: seq<int>,
                    stepCost: (int, int) -> nat, x: nat, y: nat, i: nat): Edge
    requires |dxs| <= |dys| && Steps(width, height, dxs, dys, x, y, i)
  {
    var nx: nat := x + dxs[i];
    var ny: nat := y + dys[i];
    Edge(EdgeId(height, |dxs|, x, y, i), CellIndex(width, x, y), CellIndex(width, nx, ny), stepCost(dxs[i], dys[i]))
  }

  /** The edges of cell (x, y) for offsets i, i + 1, ... */
  function CellEdges(width: nat, height: nat, dxs: seq<int>, dys: seq<int>,
                     stepCost: (int, int) -> nat, x: nat, y: nat, i: nat): seq<Edge>
    requires |dxs| <= |dys|
    decreases |dxs| - i
  {
    if i >= |dxs| then []
    else
      (if Steps(width, height, dxs, dys, x, y, i) then [GridEdge(width, height, dxs, dys, stepCost, x, y, i)] else [])
      + CellEdges(width, height, dxs, dys, stepCost, x, y, i + 1)
  }

  /** The edges of cells (x, y), (x, y + 1), ... */
  function ColumnEdges(width: nat, height: nat, dxs: seq<int>, dys: seq<int>,
                       stepCost: (int, int) -> nat, x: nat, y: nat): seq<Edge>
    requires |dxs| <= |dys|
    decreases height - y
  {
    if y >= height then []
    else CellEdges(width, height, dxs, dys, stepCost, x, y, 0) + ColumnEdges(width, height, dxs, dys, stepCost, x, y + 1)
  }

  /** The edges of columns x, x + 1, ... */
  function GridEdges(width: nat, height: nat, dxs: seq<int>, dys: seq<int>,
                     stepCost: (int, int) -> nat, x: nat): seq<Edge>
    requires |dxs| <= |dys|
    decreases width - x
  {
    if x >= width then []
    else ColumnEdges(width, height, dxs, dys, stepCost, x, 0) + GridEdges(width, height, dxs, dys, stepCost, x + 1)
  }

  /** `e` is the edge of some on-grid cell by some offset that stays on the grid. */
  ghost predicate IsGridEdge(width: nat, height: nat, dxs: seq<int>, dys: seq<int>,
                             stepCost: (int, int) -> nat, e: Edge)
    requires |dxs| <= |dys|
  {
    exists x: nat, y: nat, i: nat ::
      x < width && y < height && Steps(width, height, dxs, dys, x, y, i)
      && e == GridEdge(width, height, dxs, dys, stepCost, x, y, i)
  }

  lemma {:induction false} CellEdgesMembers(width: nat, height: nat, dxs: seq<int>, dys: seq<int>,
                                            stepCost: (int, int) -> nat, x: nat, y: nat, i: nat, e: Edge)
    requires |dxs| <= |dys|
    ensures e in CellEdges(width, height, dxs, dys, stepCost, x, y, i) <==>
      exists j: nat :: i <= j && Steps(width, height, dxs, dys, x, y, j)
        && e == GridEdge(width, height, dxs, dys, stepCost, x, y, j)
    decreases |dxs| - i
  {
    if i < |dxs| {
      CellEdgesMembers(width, height, dxs, dys, stepCost, x, y, i + 1, e);
      var rest := CellEdges(width, height, dxs, dys, stepCost, x, y, i + 1);
      if Steps(width, height, dxs, dys, x, y, i) {
        var here := GridEdge(width, height, dxs, dys, stepCost, x, y, i);
        assert CellEdges(width, height, dxs, dys, stepCost, x, y, i) == [here] + rest;
        if e == here {
          assert i <= i && Steps(width, height, dxs, dys, x, y, i);
        }
      } else {
        assert CellEdges(width, height, dxs, dys, stepCost, x, y, i) == rest;
      }
      if exists j: nat :: i <= j && Steps(width, height, dxs, dys, x, y, j)
          && e == GridEdge(width, height, dxs, dys, stepCost, x, y, j) {
        var j: nat :| i <= j && Steps(width, height, dxs, dys, x, y, j)
          && e == GridEdge(width, height, dxs, dys, stepCost, x, y, j);
        if j != i {
          assert e in rest;
        }
      }
    }
  }

  lemma {:induction false} ColumnEdgesMembers(width: nat, height: nat, dxs: seq<int>, dys: seq<int>,
                                              stepCost: (int, int) -> nat, x: nat, y: nat, e: Edge)
    requires |dxs| <= |dys|
    ensures e in ColumnEdges(width, height, dxs, dys, stepCost, x, y) <==>
      exists y': nat, j: nat :: y <= y' < height && Steps(width, height, dxs, dys, x, y', j)
        && e == GridEdge(width, height, dxs, dys, stepCost, x, y', j)
    decreases height - y
  {
    if y < height {
      var cell := CellEdges(width, height, dxs, dys, stepCost, x, y, 0);
      var rest := ColumnEdges(width, height, dxs, dys, stepCost, x, y + 1);
      assert ColumnEdges(width, height, dxs, dys, stepCost, x, y) == cell + rest;
      CellEdgesMembers(width, height, dxs, dys, stepCost, x, y, 0, e);
      ColumnEdgesMembers(width, height, dxs, dys, stepCost, x, y + 1, e);
      if e in cell {
        var j: nat :| 0 <= j && Steps(width, height, dxs, dys, x, y, j)
          && e == GridEdge(width, height, dxs, dys, stepCost, x, y, j);
        assert y <= y < height;
      }
      if exists y': nat, j: nat :: y <= y' < height && Steps(width, height, dxs, dys, x, y', j)
          && e == GridEdge(width, height, dxs, dys, stepCost, x, y', j) {
        var y': nat, j: nat :| y <= y' < height && Steps(width, height, dxs, dys, x, y', j)
          && e == GridEdge(width, height, dxs, dys, stepCost, x, y', j);
        if y' == y {
          assert e in CellEdges(width, height, dxs, dys, stepCost, x, y, 0);
        } else {
          assert e in ColumnEdges(width, height, dxs, dys, stepCost, x, y + 1);
        }
      }
    }
  }

  lemma {:induction false} GridEdgesMembers(width: nat, height: nat, dxs: seq<int>, dys: seq<int>,
                                            stepCost: (int, int) -> nat, x: nat, e: Edge)
    requires |dxs| <= |dys|
    ensures e in GridEdges(width, height, dxs, dys, stepCost, x) <==>
      exists x': nat, y': nat, j: nat :: x <= x' < width && y' < height && Steps(width, height, dxs, dys, x', y', j)
        && e == GridEdge(width, height, dxs, dys, stepCost, x', y', j)
    decreases width - x
  {
    if x < width {
      var col := ColumnEdges(width, height, dxs, dys, stepCost, x, 0);
      var rest := GridEdges(width, height, dxs, dys, stepCost, x + 1);
      assert GridEdges(width, height, dxs, dys, stepCost, x) == col + rest;
      ColumnEdgesMembers(width, height, dxs, dys, stepCost, x, 0, e);
      GridEdgesMembers(width, height, dxs, dys, stepCost, x + 1, e);
      if e in col {
        var y': nat, j: nat :| y' < height && Steps(width, height, dxs, dys, x, y', j)
          && e == GridEdge(width, height, dxs, dys, stepCost, x, y', j);
        assert x <= x < width;
      }
      if exists x': nat, y': nat, j: nat :: x <= x' < width && y' < height && Steps(width, height, dxs, dys, x', y', j)
          && e == GridEdge(width, height, dxs, dys, stepCost, x', y', j) {
        var x': nat, y': nat, j: nat :| x <= x' < width && y' < height && Steps(width, height, dxs, dys, x', y', j)
          && e == GridEdge(width, height, dxs, dys, stepCost, x', y', j);
        if x' == x {
          assert e in ColumnEdges(width, height, dxs, dys, stepCost, x, 0);
        } else {
          assert e in GridEdges(width, height, dxs, dys, stepCost, x + 1);
        }
      }
    }
  }

  /** createGridNetwork: the nodes are exactly [0, width * height), and the
      edges are exactly one per on-grid cell and offset whose neighbour is on
      the grid, running between the two cells' indices. An offset beyond the
      shorter of the two offset arrays makes `Network.createGridNetwork` throw, so the
      y-offsets must cover every x-offset. */
  function CreateGrid(width: nat, height: nat, dxs: seq<int>, dys: seq<int>,
                      stepCost: (int, int) -> nat): (g: Network)
    requires |dxs| <= |dys|
    ensures g.nodeCount == width * height
    ensures Valid(g)
    ensures forall e :: e in g.edges <==> IsGridEdge(width, height, dxs, dys, stepCost, e)
  {
    var g := Network(width * height, GridEdges(width, height, dxs, dys, stepCost, 0));
    forall e ensures e in g.edges <==> IsGridEdge(width, height, dxs, dys, stepCost, e) {
      GridEdgesMembers(width, height, dxs, dys, stepCost, 0, e);
    }
    assert Valid(g) by {
      forall e | e in g.edges ensures e.from < g.nodeCount && e.to < g.nodeCount {
        var x: nat, y: nat, i: nat :| x < width && y < height && Steps(width, height, dxs, dys, x, y, i)
          && e == GridEdge(width, height, dxs, dys, stepCost, x, y, i);
        CellIndexBound(width, height, x, y);
        CellIndexBound(width, height, x + dxs[i], y + dys[i]);
      }
    }
    g
  }

  // ---------------------------------------------------------------------
  // Four-neighbour grids, of which `NetworkTest` builds the 3 x 3 one
  // ---------------------------------------------------------------------

  const FourDXs: seq<int> := [-1, 0, 1, 0]
  const FourDYs: seq<int> := [0, -1, 0, 1]

  /** `stepCost` gives each four-neighbour offset its Euclidean length,
      `Math.sqrt(dx * dx + dy * dy)`, which is exactly 1. */
  predicate UnitSteps(stepCost: (int, int) -> nat) {
    forall i :: 0 <= i < |FourDXs| ==> stepCost(FourDXs[i], FourDYs[i]) == 1
  }

  /** The cell a step by offset `i` from (x, y) reaches, as a node index. */
  function Neighbour(width: nat, height: nat, dxs: seq<int>, dys: seq<int>, x: nat, y: nat, i: nat): nat
    requires |dxs| <= |dys| && Steps(width, height, dxs, dys, x, y, i)
  {
    CellIndex(width, x + dxs[i], y + dys[i])
  }

  lemma StepIsSuccessor(width: nat, height: nat, dxs: seq<int>, dys: seq<int>,
                        stepCost: (int, int) -> nat, x: nat, y: nat, i: nat)
    requires |dxs| <= |dys|
    requires x < width && y < height && Steps(width, height, dxs, dys, x, y, i)
    ensures Neighbour(width, height, dxs, dys, x, y, i) in Below(CreateGrid(width, height, dxs, dys, stepCost), CellIndex(width, x, y))
  {
    var g := CreateGrid(width, height, dxs, dys, stepCost);
    var e := GridEdge(width, height, dxs, dys, stepCost, x, y, i);
    assert IsGridEdge(width, height, dxs, dys, stepCost, e);
    assert e in g.edges;
  }

  /** `u` is the node of an on-grid orthogonal neighbour of cell (x, y). */
  predicate Orthogonal(width: nat, height: nat, x: nat, y: nat, u: int) {
    || (x > 0 && u == CellIndex(width, x - 1, y))
    || (y > 0 && u == CellIndex(width, x, y - 1))
    || (x + 1 < width && u == CellIndex(width, x + 1, y))
    || (y + 1 < height && u == CellIndex(width, x, y + 1))
  }

  /** A grid edge leaving cell (x, y) is a step from (x, y). */
  lemma EdgeFromCell(width: nat, height: nat, dxs: seq<int>, dys: seq<int>, stepCost: (int, int) -> nat,
                     x: nat, y: nat, x': nat, y': nat, i: nat, e: Edge)
    requires |dxs| <= |dys| && x < width && x' < width && Steps(width, height, dxs, dys, x', y', i)
    requires e == GridEdge(width, height, dxs, dys, stepCost, x', y', i) && e.from == CellIndex(width, x, y)
    ensures Steps(width, height, dxs, dys, x, y, i) && e.to == Neighbour(width, height, dxs, dys, x, y, i)
  {
    CellIndexInjective(width, x, y, x', y');
  }

  lemma StepOfEdge(width: nat, height: nat, dxs: seq<int>, dys: seq<int>, stepCost: (int, int) -> nat,
                   x: nat, y: nat, e: Edge)
    requires |dxs| <= |dys| && x < width && y < height
    requires IsGridEdge(width, height, dxs, dys, stepCost, e) && e.from == CellIndex(width, x, y)
    ensures exists i: nat :: Steps(width, height, dxs, dys, x, y, i) && e.to == Neighbour(width, height, dxs, dys, x, y, i)
  {
    var x': nat, y': nat, i: nat :| x' < width && y' < height && Steps(width, height, dxs, dys, x', y', i)
      && e == GridEdge(width, height, dxs, dys, stepCost, x', y', i);
    EdgeFromCell(width, height, dxs, dys, stepCost, x, y, x', y', i, e);
  }

  lemma SuccessorOfCell(g: Network, width: nat, height: nat, dxs: seq<int>, dys: seq<int>,
                        stepCost: (int, int) -> nat, x: nat, y: nat, c: nat, u: nat)
    requires |dxs| <= |dys| && x < width && y < height && c == CellIndex(width, x, y)
    requires forall e :: e in g.edges ==> IsGridEdge(width, height, dxs, dys, stepCost, e)
    ensures u in Below(g, c) ==>
      exists i: nat :: Steps(width, height, dxs, dys, x, y, i) && u == Neighbour(width, height, dxs, dys, x, y, i)
  {
    if u in Below(g, c) {
      var e :| e in g.edges && e.from == c && e.to == u;
      StepOfEdge(width, height, dxs, dys, stepCost, x, y, e);
    }
  }

  lemma CellOfStep(width: nat, height: nat, dxs: seq<int>, dys: seq<int>,
                   stepCost: (int, int) -> nat, x: nat, y: nat, u: nat)
    requires |dxs| <= |dys| && x < width && y < height
    ensures (exists i: nat :: Steps(width, height, dxs, dys, x, y, i) && u == Neighbour(width, height, dxs, dys, x, y, i))
      ==> u in Below(CreateGrid(width, height, dxs, dys, stepCost), CellIndex(width, x, y))
  {
    if exists i: nat :: Steps(width, height, dxs, dys, x, y, i) && u == Neighbour(width, height, dxs, dys, x, y, i) {
      var i: nat :| Steps(width, height, dxs, dys, x, y, i) && u == Neighbour(width, height, dxs, dys, x, y, i);
      StepIsSuccessor(width, height, dxs, dys, stepCost, x, y, i);
    }
  }

  /** The successors of a cell are exactly the cells its on-grid offsets reach. */
  lemma GridSuccessors(width: nat, height: nat, dxs: seq<int>, dys: seq<int>,
                       stepCost: (int, int) -> nat, x: nat, y: nat, u: nat)
    requires |dxs| <= |dys| && x < width && y < height
    ensures u in Below(CreateGrid(width, height, dxs, dys, stepCost), CellIndex(width, x, y))
        <==> exists i: nat :: Steps(width, height, dxs, dys, x, y, i) && u == Neighbour(width, height, dxs, dys, x, y, i)
  {
    SuccessorOfCell(CreateGrid(width, height, dxs, dys, stepCost), width, height, dxs, dys, stepCost, x, y, CellIndex(width, x, y), u);
    CellOfStep(width, height, dxs, dys, stepCost, x, y, u);
  }

  /** Each on-grid step by one of the four offsets reaches an orthogonal
      neighbour. */
  lemma FourStepOrthogonal(width: nat, height: nat, x: nat, y: nat, i: nat)
    requires x < width && y < height && Steps(width, height, FourDXs, FourDYs, x, y, i)
    ensures Orthogonal(width, height, x, y, Neighbour(width, height, FourDXs, FourDYs, x, y, i))
  {
    var u := Neighbour(width, height, FourDXs, FourDYs, x, y, i);
    if i == 0 {
      assert x > 0 && u == CellIndex(width, x - 1, y);
    } else if i == 1 {
      assert y > 0 && u == CellIndex(width, x, y - 1);
    } else if i == 2 {
      assert x + 1 < width && u == CellIndex(width, x + 1, y);
    } else {
      assert y + 1 < height && u == CellIndex(width, x, y + 1);
    }
  }

  /** Each orthogonal neighbour is reached by an on-grid step: offset 0 to
      the left, 1 up, 2 right, 3 down. */
  lemma OrthogonalFourStep(width: nat, height: nat, x: nat, y: nat, u: int) returns (i: nat)
    requires x < width && y < height && Orthogonal(width, height, x, y, u)
    ensures Steps(width, height, FourDXs, FourDYs, x, y, i) && u == Neighbour(width, height, FourDXs, FourDYs, x, y, i)
  {
    if x > 0 && u == CellIndex(width, x - 1, y) {
      i := 0;
    } else if y > 0 && u == CellIndex(width, x, y - 1) {
      i := 1;
    } else if x + 1 < width && u == CellIndex(width, x + 1, y) {
      i := 2;
    } else {
      i := 3;
    }
  }

  /** With the four orthogonal offsets, the on-grid steps from a cell reach
      exactly its on-grid orthogonal neighbours. */
  lemma FourSteps(width: nat, height: nat, x: nat, y: nat, u: int)
    requires x < width && y < height
    ensures (exists i: nat :: Steps(width, height, FourDXs, FourDYs, x, y, i) && u == Neighbour(width, height, FourDXs, FourDYs, x, y, i))
        <==> Orthogonal(width, height, x, y, u)
  {
    if exists i: nat :: Steps(width, height, FourDXs, FourDYs, x, y, i) && u == Neighbour(width, height, FourDXs, FourDYs, x, y, i) {
      var i: nat :| Steps(width, height, FourDXs, FourDYs, x, y, i) && u == Neighbour(width, height, FourDXs, FourDYs, x, y, i);
      FourStepOrthogonal(width, height, x, y, i);
    }
    if Orthogonal(width, height, x, y, u) {
      var i := OrthogonalFourStep(width, height, x, y, u);
    }
  }

  /** Every edge of cell (x, y) leaves that cell's node. */
  lemma CellEdgesFrom(width: nat, height: nat, dxs: seq<int>, dys: seq<int>,
                      stepCost: (int, int) -> nat, x: nat, y: nat, e: Edge)
    requires |dxs| <= |dys|
    requires e in CellEdges(width, height, dxs, dys, stepCost, x, y, 0)
    ensures e.from == CellIndex(width, x, y)
  {
    CellEdgesMembers(width, height, dxs, dys, stepCost, x, y, 0, e);
  }

  /** The out-edges of the node `c` of cell (x, y) among the edges of cell (x', y'):
      all of them when it is that cell, none otherwise. */
  lemma CellOut(width: nat, height: nat, dxs: seq<int>, dys: seq<int>, stepCost: (int, int) -> nat,
                x': nat, y': nat, x: nat, y: nat, c: nat)
    requires |dxs| <= |dys| && x' < width && x < width && c == CellIndex(width, x, y)
    ensures Select(CellEdges(width, height, dxs, dys, stepCost, x', y', 0), Source, c)
         == if x' == x && y' == y then CellEdges(width, height, dxs, dys, stepCost, x', y', 0) else []
  {
    var es := CellEdges(width, height, dxs, dys, stepCost, x', y', 0);
    forall e | e in es ensures e.from == CellIndex(width, x', y') {
      CellEdgesFrom(width, height, dxs, dys, stepCost, x', y', e);
    }
    if x' == x && y' == y {
      FilterAll(es, (e: Edge) => Endpoint(e, Source) == c);
    } else {
      forall e | e in es ensures e.from != c {
        if e.from == c {
          CellIndexInjective(width, x, y, x', y');
        }
      }
      FilterNone(es, (e: Edge) => Endpoint(e, Source) == c);
    }
  }

  /** Selecting from two parts of which at most one holds the wanted
      out-edges `own`. */
  lemma SelectOnePart(a: seq<Edge>, b: seq<Edge>, c: nat, own: seq<Edge>, inA: bool, inB: bool)
    requires !(inA && inB)
    requires Select(a, Source, c) == (if inA then own else [])
    requires Select(b, Source, c) == (if inB then own else [])
    ensures Select(a + b, Source, c) == if inA || inB then own else []
  {
    SelectAppend(a, b, Source, c);
    if inA {
      assert own + [] == own;
    } else if inB {
      assert [] + own == own;
    }
  }

  /** One cell more: the out-edges of `c` among cells (x', y0), (x', y0 + 1), ... */
  lemma ColumnOutStep(width: nat, height: nat, dxs: seq<int>, dys: seq<int>, stepCost: (int, int) -> nat,
                      x': nat, y0: nat, x: nat, y: nat, c: nat)
    requires |dxs| <= |dys| && x' < width && y0 < height && x < width && y < height && c == CellIndex(width, x, y)
    requires Select(ColumnEdges(width, height, dxs, dys, stepCost, x', y0 + 1), Source, c)
          == if x' == x && y0 + 1 <= y then CellEdges(width, height, dxs, dys, stepCost, x, y, 0) else []
    ensures Select(ColumnEdges(width, height, dxs, dys, stepCost, x', y0), Source, c)
         == if x' == x && y0 <= y then CellEdges(width, height, dxs, dys, stepCost, x, y, 0) else []
  {
    var cell := CellEdges(width, height, dxs, dys, stepCost, x', y0, 0);
    var rest := ColumnEdges(width, height, dxs, dys, stepCost, x', y0 + 1);
    assert ColumnEdges(width, height, dxs, dys, stepCost, x', y0) == cell + rest;
    CellOut(width, height, dxs, dys, stepCost, x', y0, x, y, c);
    SelectOnePart(cell, rest, c, CellEdges(width, height, dxs, dys, stepCost, x, y, 0),
                  x' == x && y0 == y, x' == x && y0 + 1 <= y);
  }

  lemma {:induction false} ColumnOut(width: nat, height: nat, dxs: seq<int>, dys: seq<int>, stepCost: (int, int) -> nat,
                                     x': nat, y0: nat, x: nat, y: nat, c: nat)
    requires |dxs| <= |dys| && x' < width && x < width && y < height && c == CellIndex(width, x, y)
    ensures Select(ColumnEdges(width, height, dxs, dys, stepCost, x', y0), Source, c)
         == if x' == x && y0 <= y then CellEdges(width, height, dxs, dys, stepCost, x, y, 0) else []
    decreases height - y0
  {
    if y0 < height {
      ColumnOut(width, height, dxs, dys, stepCost, x', y0 + 1, x, y, c);
      ColumnOutStep(width, height, dxs, dys, stepCost, x', y0, x, y, c);
    } else {
      assert ColumnEdges(width, height, dxs, dys, stepCost, x', y0) == [];
    }
  }

  /** One column more: the out-edges of `c` among columns x0, x0 + 1, ... */
  lemma GridEdgesOutStep(width: nat, height: nat, dxs: seq<int>, dys: seq<int>, stepCost: (int, int) -> nat,
                         x0: nat, x: nat, y: nat, c: nat)
    requires |dxs| <= |dys| && x0 < width && x < width && y < height && c == CellIndex(width, x, y)
    requires Select(GridEdges(width, height, dxs, dys, stepCost, x0 + 1), Source, c)
          == if x0 + 1 <= x then CellEdges(width, height, dxs, dys, stepCost, x, y, 0) else []
    ensures Select(GridEdges(width, height, dxs, dys, stepCost, x0), Source, c)
         == if x0 <= x then CellEdges(width, height, dxs, dys, stepCost, x, y, 0) else []
  {
    var col := ColumnEdges(width, height, dxs, dys, stepCost, x0, 0);
    var rest := GridEdges(width, height, dxs, dys, stepCost, x0 + 1);
    assert GridEdges(width, height, dxs, dys, stepCost, x0) == col + rest;
    ColumnOut(width, height, dxs, dys, stepCost, x0, 0, x, y, c);
    SelectOnePart(col, rest, c, CellEdges(width, height, dxs, dys, stepCost, x, y, 0), x0 == x, x0 + 1 <= x);
  }

  lemma {:induction false} GridEdgesOut(width: nat, height: nat, dxs: seq<int>, dys: seq<int>, stepCost: (int, int) -> nat,
                                        x0: nat, x: nat, y: nat, c: nat)
    requires |dxs| <= |dys| && x < width && y < height && c == CellIndex(width, x, y)
    ensures Select(GridEdges(width, height, dxs, dys, stepCost, x0), Source, c)
         == if x0 <= x then CellEdges(width, height, dxs, dys, stepCost, x, y, 0) else []
    decreases width - x0
  {
    if x0 < width {
      GridEdgesOut(width, height, dxs, dys, stepCost, x0 + 1, x, y, c);
      GridEdgesOutStep(width, height, dxs, dys, stepCost, x0, x, y, c);
    } else {
      assert GridEdges(width, height, dxs, dys, stepCost, x0) == [];
    }
  }

  /** The out-edges of cell (x, y) are exactly that cell's edges, one per
      offset that stays on the grid, in offset order. */
  lemma GridOut(width: nat, height: nat, dxs: seq<int>, dys: seq<int>, stepCost: (int, int) -> nat,
                x: nat, y: nat, c: nat)
    requires |dxs| <= |dys| && x < width && y < height && c == CellIndex(width, x, y)
    ensures Out(CreateGrid(width, height, dxs, dys, stepCost), c) == CellEdges(width, height, dxs, dys, stepCost, x, y, 0)
  {
    var g := CreateGrid(width, height, dxs, dys, stepCost);
    var es := GridEdges(width, height, dxs, dys, stepCost, 0);
    assert g.edges == es;
    GridEdgesOut(width, height, dxs, dys, stepCost, 0, x, y, c);
    calc {
      Out(g, c);
      Select(es, Source, c);
      CellEdges(width, height, dxs, dys, stepCost, x, y, 0);
    }
  }

  /** A grid with the four orthogonal offsets. */
  function FourGrid(width: nat, height: nat, stepCost: (int, int) -> nat): Network {
    CreateGrid(width, height, FourDXs, FourDYs, stepCost)
  }

  /** The successors of a cell of a four-neighbour grid are its on-grid
      orthogonal neighbours. */
  lemma FourSuccessors(width: nat, height: nat, stepCost: (int, int) -> nat, x: nat, y: nat, c: nat, u: nat)
    requires x < width && y < height && c == CellIndex(width, x, y)
    ensures u in Below(FourGrid(width, height, stepCost), c) <==> Orthogonal(width, height, x, y, u)
  {
    GridSuccessors(width, height, FourDXs, FourDYs, stepCost, x, y, u);
    FourSteps(width, height, x, y, u);
  }

  /** One more offset adds an edge to a cell exactly when it stays on the grid. */
  lemma CellNext(width: nat, height: nat, dxs: seq<int>, dys: seq<int>, stepCost: (int, int) -> nat,
                 x: nat, y: nat, i: nat)
    requires i < |dxs| <= |dys|
    ensures |CellEdges(width, height, dxs, dys, stepCost, x, y, i)|
         == (if Steps(width, height, dxs, dys, x, y, i) then 1 else 0) + |CellEdges(width, height, dxs, dys, stepCost, x, y, i + 1)|
  {
  }

  /** How many of the four orthogonal offsets stay on the grid from (x, y). */
  function FourCount(width: nat, height: nat, x: nat, y: nat): nat {
    (if Steps(width, height, FourDXs, FourDYs, x, y, 0) then 1 else 0)
    + (if Steps(width, height, FourDXs, FourDYs, x, y, 1) then 1 else 0)
    + (if Steps(width, height, FourDXs, FourDYs, x, y, 2) then 1 else 0)
    + (if Steps(width, height, FourDXs, FourDYs, x, y, 3) then 1 else 0)
  }

  /** A cell inside the grid has one on-grid orthogonal neighbour per side
      it does not lie on: left, top, right, bottom. */
  lemma FourCountSides(width: nat, height: nat, x: nat, y: nat)
    requires x < width && y < height
    ensures FourCount(width, height, x, y)
         == (if x > 0 then 1 else 0) + (if y > 0 then 1 else 0)
          + (if x + 1 < width then 1 else 0) + (if y + 1 < height then 1 else 0)
  {
    assert FourDXs[0] == -1 && FourDYs[0] == 0;
    assert FourDXs[1] == 0 && FourDYs[1] == -1;
    assert FourDXs[2] == 1 && FourDYs[2] == 0;
    assert FourDXs[3] == 0 && FourDYs[3] == 1;
  }

  lemma FourCellCount(width: nat, height: nat, stepCost: (int, int) -> nat, x: nat, y: nat)
    ensures |CellEdges(width, height, FourDXs, FourDYs, stepCost, x, y, 0)| == FourCount(width, height, x, y)
  {
    assert CellEdges(width, height, FourDXs, FourDYs, stepCost, x, y, 4) == [];
    CellNext(width, height, FourDXs, FourDYs, stepCost, x, y, 3);
    CellNext(width, height, FourDXs, FourDYs, stepCost, x, y, 2);
    CellNext(width, height, FourDXs, FourDYs, stepCost, x, y, 1);
    CellNext(width, height, FourDXs, FourDYs, stepCost, x, y, 0);
  }

  /** The out-degree of a cell of a four-neighbour grid is its number of
      on-grid offsets. */
  lemma FourDegree(width: nat, height: nat, stepCost: (int, int) -> nat, x: nat, y: nat, c: nat)
    requires x < width && y < height && c == CellIndex(width, x, y)
    ensures |Out(FourGrid(width, height, stepCost), c)| == FourCount(width, height, x, y)
  {
    FourCellCount(width, height, stepCost, x, y);
    GridOut(width, height, FourDXs, FourDYs, stepCost, x, y, c);
  }

  /** With unit steps, every out-edge of a four-neighbour grid costs 1. */
  lemma FourUnitCosts(width: nat, height: nat, stepCost: (int, int) -> nat, x: nat, y: nat, c: nat)
    requires UnitSteps(stepCost) && x < width && y < height && c == CellIndex(width, x, y)
    ensures forall e :: e in Out(FourGrid(width, height, stepCost), c) ==> e.cost == 1
  {
    GridOut(width, height, FourDXs, FourDYs, stepCost, x, y, c);
    forall e | e in CellEdges(width, height, FourDXs, FourDYs, stepCost, x, y, 0) ensures e.cost == 1 {
      CellEdgesMembers(width, height, FourDXs, FourDYs, stepCost, x, y, 0, e);
    }
  }

  /** The corner 0 of a four-neighbour grid at least 2 x 2 (`NetworkTest` uses
      3 x 3) has the successors 1 and `width`. */
  lemma GridCorner(width: nat, height: nat, stepCost: (int, int) -> nat, u: nat)
    requires width >= 2 && height >= 2
    ensures u in Below(FourGrid(width, height, stepCost), 0) <==> u == 1 || u == width
  {
    FourSuccessors(width, height, stepCost, 0, 0, 0, u);
  }

  /** The corner has two out-edges. */
  lemma GridCornerDegree(width: nat, height: nat, stepCost: (int, int) -> nat)
    requires width >= 2 && height >= 2
    ensures |Out(FourGrid(width, height, stepCost), 0)| == 2
  {
    FourDegree(width, height, stepCost, 0, 0, 0);
    FourCountSides(width, height, 0, 0);
    assert FourCount(width, height, 0, 0) == 2;
  }

  /** With unit steps, each out-edge of the corner costs 1. */
  lemma GridCornerCosts(width: nat, height: nat, stepCost: (int, int) -> nat)
    requires UnitSteps(stepCost) && width >= 2 && height >= 2
    ensures forall e :: e in Out(FourGrid(width, height, stepCost), 0) ==> e.cost == 1
  {
    FourUnitCosts(width, height, stepCost, 0, 0, 0);
  }

  /** The cell 1 on the top side of a four-neighbour grid at least 3 x 2 has
      the successors 0, 2 and `width + 1`. */
  lemma GridSide(width: nat, height: nat, stepCost: (int, int) -> nat, u: nat)
    requires width >= 3 && height >= 2
    ensures u in Below(FourGrid(width, height, stepCost), 1) <==> u == 0 || u == 2 || u == width + 1
  {
    FourSuccessors(width, height, stepCost, 1, 0, 1, u);
  }

  /** The side cell has three out-edges. */
  lemma GridSideDegree(width: nat, height: nat, stepCost: (int, int) -> nat)
    requires width >= 3 && height >= 2
    ensures |Out(FourGrid(width, height, stepCost), 1)| == 3
  {
    FourDegree(width, height, stepCost, 1, 0, 1);
    FourCountSides(width, height, 1, 0);
    assert FourCount(width, height, 1, 0) == 3;
  }

  /** With unit steps, each out-edge of the side cell costs 1. */
  lemma GridSideCosts(width: nat, height: nat, stepCost: (int, int) -> nat)
    requires UnitSteps(stepCost) && width >= 3 && height >= 2
    ensures forall e :: e in Out(FourGrid(width, height, stepCost), 1) ==> e.cost == 1
  {
    FourUnitCosts(width, height, stepCost, 1, 0, 1);
  }

  /** The cell (1, 1) of a four-neighbour grid at least 3 x 3, the centre 4
      of the 3 x 3 grid, has the successors 1, `width`, `width + 2` and
      `2 * width + 1`. */
  lemma GridCentre(width: nat, height: nat, stepCost: (int, int) -> nat, u: nat)
    requires width >= 3 && height >= 3
    ensures u in Below(FourGrid(width, height, stepCost), width + 1)
        <==> u == 1 || u == width || u == width + 2 || u == 2 * width + 1
  {
    var c := width + 1;
    assert c == CellIndex(width, 1, 1);
    FourSuccessors(width, height, stepCost, 1, 1, c, u);
  }

  /** The centre has four out-edges. */
  lemma GridCentreDegree(width: nat, height: nat, stepCost: (int, int) -> nat)
    requires width >= 3 && height >= 3
    ensures |Out(FourGrid(width, height, stepCost), width + 1)| == 4
  {
    var c := width + 1;
    assert c == CellIndex(width, 1, 1);
    FourDegree(width, height, stepCost, 1, 1, c);
    FourCountSides(width, height, 1, 1);
    assert FourCount(width, height, 1, 1) == 4;
  }

  /** With unit steps, each out-edge of the centre costs 1. */
  lemma GridCentreCosts(width: nat, height: nat, stepCost: (int, int) -> nat)
    requires UnitSteps(stepCost) && width >= 3 && height >= 3
    ensures forall e :: e in Out(FourGrid(width, height, stepCost), width + 1) ==> e.cost == 1
  {
    var c := width + 1;
    assert c == CellIndex(width, 1, 1);
    FourUnitCosts(width, height, stepCost, 1, 1, c);
  }
}
