/** The n-by-n square grid of population units: integer coordinates (x, y)
    with 0 <= x, y < n, district assignments over it, and sums of a
    per-node quantity over an axis-aligned window of it. */
module Grid {

  /** A grid node, (x, y) */
  type Node = (int, int)

  /** An oriented pair of nodes, (from, to) */
  type Edge = (Node, Node)

  /** A district plan: node -> district id */
  type Assignment = map<Node, int>

  predicate InGrid(n: int, v: Node) {
    0 <= v.0 < n && 0 <= v.1 < n
  }

  /** Nodes visited before (x, y) when the grid is walked column by column, left to right,
      each column bottom to top */
  predicate VisitedBefore(v: Node, x: int, y: int) {
    v.0 < x || (v.0 == x && v.1 < y)
  }

  /** The nodes of the n-by-n grid */
  function GridNodes(n: int): (nodes: set<Node>)
    ensures forall v :: v in nodes <==> InGrid(n, v)
  {
    var nodes := set x, y | 0 <= x < n && 0 <= y < n :: (x, y);
    assert forall v :: InGrid(n, v) ==> v in nodes by {
      forall v | InGrid(n, v) ensures v in nodes {
        assert v == (v.0, v.1);
      }
    }
    nodes
  }

  /** Every node of the n-by-n grid has a district */
  ghost predicate Total(n: int, assign: Assignment) {
    forall v :: InGrid(n, v) ==> v in assign
  }

  /** Rook (orthogonal) adjacency: the two nodes differ by one in exactly one coordinate */
  predicate RookAdjacent(u: Node, v: Node) {
    Abs(u.0 - v.0) + Abs(u.1 - v.1) == 1
  }

  function Abs(i: int): int {
    if i < 0 then -i else i
  }

  /** Sum of f over column x, rows 0 .. h-1 */
  function ColumnSum(f: Node -> int, x: int, h: nat): int {
    if h == 0 then 0 else ColumnSum(f, x, h - 1) + f((x, h - 1))
  }

  /** Sum of f over the window of columns 0 .. w-1 and rows 0 .. h-1 */
  function GridSum(f: Node -> int, w: nat, h: nat): int {
    if w == 0 then 0 else GridSum(f, w - 1, h) + ColumnSum(f, w - 1, h)
  }

  lemma {:induction false} ColumnSumAdd(f: Node -> int, g: Node -> int, s: Node -> int, x: int, h: nat)
    requires forall y :: 0 <= y < h ==> f((x, y)) + g((x, y)) == s((x, y))
    ensures ColumnSum(f, x, h) + ColumnSum(g, x, h) == ColumnSum(s, x, h)
  {
    if h > 0 {
      ColumnSumAdd(f, g, s, x, h - 1);
    }
  }

  /** Sums over the grid are additive: pointwise f + g == s gives sum f + sum g == sum s */
  lemma {:induction false} GridSumAdd(f: Node -> int, g: Node -> int, s: Node -> int, w: nat, h: nat)
    requires forall x, y :: 0 <= x < w && 0 <= y < h ==> f((x, y)) + g((x, y)) == s((x, y))
    ensures GridSum(f, w, h) + GridSum(g, w, h) == GridSum(s, w, h)
  {
    if w > 0 {
      GridSumAdd(f, g, s, w - 1, h);
      ColumnSumAdd(f, g, s, w - 1, h);
    }
  }

  /** Quantities that agree on every node of the window have the same sum */
  lemma {:induction false} GridSumCongruent(f: Node -> int, g: Node -> int, w: nat, h: nat)
    requires forall x, y :: 0 <= x < w && 0 <= y < h ==> f((x, y)) == g((x, y))
    ensures GridSum(f, w, h) == GridSum(g, w, h)
  {
    var zero: Node -> int := v => 0;
    GridSumAdd(f, zero, g, w, h);
    GridSumConst(zero, w, h, 0);
  }

  lemma {:induction false} ColumnSumConst(f: Node -> int, x: int, h: nat, c: int)
    requires forall y :: 0 <= y < h ==> f((x, y)) == c
    ensures ColumnSum(f, x, h) == h * c
  {
    if h > 0 {
      ColumnSumConst(f, x, h - 1, c);
    }
  }

  /** A quantity that is c at every node of a w-by-h window sums to w * h * c */
  lemma {:induction false} GridSumConst(f: Node -> int, w: nat, h: nat, c: int)
    requires forall x, y :: 0 <= x < w && 0 <= y < h ==> f((x, y)) == c
    ensures GridSum(f, w, h) == w * h * c
  {
    if w > 0 {
      GridSumConst(f, w - 1, h, c);
      ColumnSumConst(f, w - 1, h, c);
      calc {
        GridSum(f, w, h);
        (w - 1) * h * c + h * c;
        { assert (w - 1) * h * c == w * h * c - h * c; }
        w * h * c;
      }
    }
  }

  /** The number of columns below w that fall in [lo, hi) */
  function ColumnsIn(w: nat, lo: nat, hi: nat): (r: nat)
    requires lo <= hi
    ensures r <= w && r <= hi - lo
  {
    if w <= lo then 0 else if w <= hi then w - lo else hi - lo
  }

  /** The indicator of the columns [lo, hi) sums, over a w-by-h window, to h times the number
      of those columns inside the window */
  lemma {:induction false} GridSumColumnBlock(f: Node -> int, w: nat, h: nat, lo: nat, hi: nat)
    requires lo <= hi
    requires forall x, y :: 0 <= x < w && 0 <= y < h ==> f((x, y)) == (if lo <= x < hi then 1 else 0)
    ensures GridSum(f, w, h) == h * ColumnsIn(w, lo, hi)
  {
    if w > 0 {
      GridSumColumnBlock(f, w - 1, h, lo, hi);
      var c := if lo <= w - 1 < hi then 1 else 0;
      ColumnSumConst(f, w - 1, h, c);
      assert ColumnsIn(w, lo, hi) == ColumnsIn(w - 1, lo, hi) + c;
      assert h * ColumnsIn(w, lo, hi) == h * ColumnsIn(w - 1, lo, hi) + h * c;
    }
  }
}
