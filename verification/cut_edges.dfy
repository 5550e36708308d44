/** The "rook_cut_edges" updater: the set of axis-aligned grid edges whose two
    endpoints lie in different districts, each reported once, oriented from the
    node with the smaller coordinate to its right or upper neighbour. Diagonal
    edges that a "queen adjacency" graph would add are never examined. */
module CutEdges {
  import opened Grid

  /** The right-hand neighbour (x + 1, y) and the upper neighbour (x, y + 1) */
  function Right(v: Node): Node { (v.0 + 1, v.1) }
  function Up(v: Node): Node { (v.0, v.1 + 1) }

  /** An undirected cut edge of the rook grid graph: rook-adjacent grid nodes in different districts */
  ghost predicate IsCutEdge(n: int, assign: Assignment, u: Node, v: Node)
    requires Total(n, assign)
  {
    InGrid(n, u) && InGrid(n, v) && RookAdjacent(u, v) && assign[u] != assign[v]
  }

  /** The oriented form in which an edge is collected: from a grid node to its right or upper
      neighbour, also in the grid, in a different district */
  ghost predicate RookCut(n: int, assign: Assignment, e: Edge)
    requires Total(n, assign)
  {
    InGrid(n, e.0) && (e.1 == Right(e.0) || e.1 == Up(e.0)) && InGrid(n, e.1)
    && assign[e.0] != assign[e.1]
  }

  function Min(a: int, b: int): int { if a < b then a else b }

  /** Collects the cut edges of the n-by-n rook grid under a total assignment */
  method RookCutEdges(n: nat, assign: Assignment) returns (cut: set<Edge>)
    requires Total(n, assign)
    ensures forall e :: e in cut <==> RookCut(n, assign, e)
    // soundness: a horizontal or vertical step inside the grid, across a district boundary
    ensures forall e :: e in cut ==>
      InGrid(n, e.0) && InGrid(n, e.1) && (e.1 == Right(e.0) || e.1 == Up(e.0))
      && assign[e.0] != assign[e.1]
    // completeness, in exactly one orientation
    ensures forall u, v :: IsCutEdge(n, assign, u, v) ==> ((u, v) in cut <==> (v, u) !in cut)
    // bound: at most the 2 n (n - 1) edges of the grid
    ensures |cut| <= 2 * n * (n - 1)
    // a plan with one district has no cut edges
    ensures (forall u, v :: InGrid(n, u) && InGrid(n, v) ==> assign[u] == assign[v]) ==> cut == {}
  {
    cut := {};
    ghost var examined := 0;
    var x := 0;
    while x < n
      invariant 0 <= x <= n
      invariant forall e :: e in cut <==> RookCut(n, assign, e) && e.0.0 < x
      invariant examined == EdgesBeforeColumn(n, x)
      invariant |cut| <= examined
    {
      var y := 0;
      while y < n
        invariant 0 <= y <= n
        invariant forall e :: e in cut <==> RookCut(n, assign, e) && VisitedBefore(e.0, x, y)
        invariant examined == EdgesBeforeColumn(n, x) + (if x < n - 1 then y else 0) + Min(y, n - 1)
        invariant |cut| <= examined
      {
        cut := AddCutsAt(n, assign, (x, y), cut);
        examined := examined + (if x < n - 1 then 1 else 0) + (if y < n - 1 then 1 else 0);
        y := y + 1;
      }
      x := x + 1;
    }
    EdgesBeforeColumnCount(n, n);
    forall u, v | IsCutEdge(n, assign, u, v)
      ensures (u, v) in cut <==> (v, u) !in cut
    {
      RookAdjacentOrientation(u, v);
    }
  }

  /** The body of the scan for one node v: adds the edge to its right neighbour and the edge
      to its upper neighbour, where those neighbours exist and lie in another district */
  method AddCutsAt(n: nat, assign: Assignment, v: Node, cut: set<Edge>) returns (cut': set<Edge>)
    requires Total(n, assign) && InGrid(n, v)
    ensures forall e :: e in cut' <==> e in cut || (RookCut(n, assign, e) && e.0 == v)
    ensures |cut'| <= |cut| + (if v.0 < n - 1 then 1 else 0) + (if v.1 < n - 1 then 1 else 0)
  {
    cut' := cut;
    if v.0 < n - 1 {
      var neighbor := (v.0 + 1, v.1);
      if assign[v] != assign[neighbor] {
        cut' := cut' + {(v, neighbor)};
      }
    }
    if v.1 < n - 1 {
      var neighbor := (v.0, v.1 + 1);
      if assign[v] != assign[neighbor] {
        cut' := cut' + {(v, neighbor)};
      }
    }
    forall e ensures e in cut' <==> e in cut || (RookCut(n, assign, e) && e.0 == v) {
      RookCutFrom(n, assign, v, e);
    }
  }

  /** The cut edges collected at node v are its right and upper edges that cross a boundary */
  lemma RookCutFrom(n: int, assign: Assignment, v: Node, e: Edge)
    requires Total(n, assign) && InGrid(n, v)
    ensures RookCut(n, assign, e) && e.0 == v <==>
      (v.0 < n - 1 && e == (v, Right(v)) && assign[v] != assign[Right(v)])
      || (v.1 < n - 1 && e == (v, Up(v)) && assign[v] != assign[Up(v)])
  {
  }

  /** The number of grid edges leaving columns 0 .. x-1 to the right or upwards: each column
      has n - 1 vertical edges, and every column but the last has n horizontal ones */
  ghost function EdgesBeforeColumn(n: nat, x: nat): int {
    if x == 0 then 0
    else EdgesBeforeColumn(n, x - 1) + (n - 1) + (if x - 1 < n - 1 then n else 0)
  }

  lemma {:induction false} EdgesBeforeColumnCount(n: nat, x: nat)
    requires x <= n
    ensures EdgesBeforeColumn(n, x) == x * (n - 1) + n * Min(x, n - 1)
    ensures x == n ==> EdgesBeforeColumn(n, x) == 2 * n * (n - 1)
  {
    if x > 0 {
      EdgesBeforeColumnCount(n, x - 1);
      assert x * (n - 1) == (x - 1) * (n - 1) + (n - 1);
      assert n * Min(x, n - 1) == n * Min(x - 1, n - 1) + (if x - 1 < n - 1 then n else 0);
    }
    if x == n {
      assert n * (n - 1) + n * (n - 1) == 2 * n * (n - 1);
    }
  }

  /** Two rook-adjacent nodes are one the right or upper neighbour of the other, never both ways */
  lemma RookAdjacentOrientation(u: Node, v: Node)
    requires RookAdjacent(u, v)
    ensures (v == Right(u) || v == Up(u)) <==> !(u == Right(v) || u == Up(v))
  {
  }

  /** The grid has one district (every node agrees with the corner (0, 0)) */
  ghost predicate OneDistrict(n: int, assign: Assignment)
    requires Total(n, assign)
  {
    forall v :: InGrid(n, v) ==> assign[v] == assign[(0, 0)]
  }

  lemma {:induction false} NoCutAlongColumn(n: int, assign: Assignment, x: int, y: int)
    requires Total(n, assign)
    requires forall e :: !RookCut(n, assign, e)
    requires 0 <= x < n && 0 <= y < n
    ensures assign[(x, y)] == assign[(x, 0)]
  {
    if y > 0 {
      NoCutAlongColumn(n, assign, x, y - 1);
      assert !RookCut(n, assign, ((x, y - 1), (x, y)));
    }
  }

  lemma {:induction false} NoCutAlongBottomRow(n: int, assign: Assignment, x: int)
    requires Total(n, assign)
    requires forall e :: !RookCut(n, assign, e)
    requires 0 <= x < n
    ensures assign[(x, 0)] == assign[(0, 0)]
  {
    if x > 0 {
      NoCutAlongBottomRow(n, assign, x - 1);
      assert !RookCut(n, assign, ((x - 1, 0), (x, 0)));
    }
  }

  /** The rook grid is connected, so the cut-edge set is empty exactly when the plan
      has a single district */
  lemma NoCutEdgesIffOneDistrict(n: nat, assign: Assignment, cut: set<Edge>)
    requires Total(n, assign)
    requires forall e :: e in cut <==> RookCut(n, assign, e)
    ensures cut == {} <==> OneDistrict(n, assign)
  {
    if cut == {} {
      forall v | InGrid(n, v) ensures assign[v] == assign[(0, 0)] {
        NoCutAlongColumn(n, assign, v.0, v.1);
        NoCutAlongBottomRow(n, assign, v.0);
      }
    }
  }
}
