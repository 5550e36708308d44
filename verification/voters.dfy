/** Node attributes set before the chain starts: every node has population 1,
    and is a minority ("pink") or majority ("purple") voter according to the fixed
    10-by-10 configuration called Henry, read with row 9 - y and column x so that
    the first row of the matrix is the top row of the grid. */
module Voters {
  import opened Grid

  /** The Henry configuration: 0 marks a minority voter */
  const Henry: seq<seq<int>> := [
    [1,1,0,0,0,0,0,0,1,1], [1,1,1,1,1,1,1,1,1,0], [0,1,0,0,0,1,1,1,0,0],
    [1,0,0,1,1,0,0,0,1,1], [0,0,1,1,1,1,1,0,1,0], [0,1,1,1,0,1,1,1,1,0],
    [0,1,0,0,0,1,0,1,1,1], [0,1,0,1,1,1,1,1,1,0], [0,1,1,1,0,0,1,1,1,0],
    [1,1,1,0,1,1,1,1,0,0]]

  /** 1 when node v is a minority (pink) voter, 0 otherwise */
  function PinkAt(v: Node): int
    requires 0 <= v.0 < 10 && 0 <= v.1 < 10
  {
    if Henry[9 - v.1][v.0] == 0 then 1 else 0
  }

  /** The graph's per-node attributes */
  class VoterGraph {
    const n: nat
    var population: map<Node, int>
    var pink: map<Node, int>
    var purple: map<Node, int>

    /** Attributes belong to nodes of the n-by-n grid only */
    ghost predicate Valid()
      reads this
    {
      forall v :: (v in population || v in pink || v in purple) ==> InGrid(n, v)
    }

    /** Node v carries population 1 and exactly the voter colour Henry gives it */
    ghost predicate LabelledAt(v: Node)
      reads this
      requires InGrid(n, v) && n <= 10
    {
      v in population && v in pink && v in purple
      && population[v] == 1 && pink[v] == PinkAt(v) && purple[v] == 1 - pink[v]
    }

    /** The n-by-n grid graph, before any attribute is set */
    constructor (n: nat)
      ensures this.n == n && Valid()
      ensures population == map[] && pink == map[] && purple == map[]
    {
      this.n := n;
      population, pink, purple := map[], map[], map[];
    }

    /** One pass of the initialisation loop: node vertex gets population 1 and its voter colour */
    method LabelNode(vertex: Node)
      requires Valid() && InGrid(n, vertex) && n <= 10
      modifies this
      ensures Valid() && LabelledAt(vertex)
      ensures forall v :: InGrid(n, v) && old(LabelledAt(v)) ==> LabelledAt(v)
      // only the attributes of vertex change
      ensures population == old(population)[vertex := 1]
      ensures pink == old(pink)[vertex := PinkAt(vertex)]
      ensures purple == old(purple)[vertex := 1 - PinkAt(vertex)]
    {
      population := population[vertex := 1];
      if Henry[9 - vertex.1][vertex.0] == 0 {
        pink := pink[vertex := 1];
        purple := purple[vertex := 0];
      } else {
        pink := pink[vertex := 0];
        purple := purple[vertex := 1];
      }
    }

    /** The initialisation loop: every node gets population 1, pink 1 and purple 0 where Henry
        has a 0, and pink 0 and purple 1 elsewhere. Henry covers a grid of side at most 10. */
    method LabelVoters()
      requires Valid() && n <= 10
      modifies this
      ensures Valid()
      ensures forall v :: InGrid(n, v) ==> LabelledAt(v)
    {
      var x := 0;
      while x < n
        invariant 0 <= x <= n && Valid()
        invariant forall v :: InGrid(n, v) && v.0 < x ==> LabelledAt(v)
      {
        var y := 0;
        while y < n
          invariant 0 <= y <= n && Valid()
          invariant forall v :: InGrid(n, v) && VisitedBefore(v, x, y) ==> LabelledAt(v)
        {
          LabelNode((x, y));
          forall v | InGrid(n, v) && VisitedBefore(v, x, y + 1) ensures LabelledAt(v) {
            if v != (x, y) {
              assert VisitedBefore(v, x, y);
            }
          }
          y := y + 1;
        }
        x := x + 1;
      }
    }
  }

  /** The number of minority voters in rows 0 .. h-1 of column x */
  function PinkInColumn(x: int, h: nat): (count: int)
    requires 0 <= x < 10 && h <= 10
    ensures 0 <= count <= h
  {
    if h == 0 then 0 else PinkInColumn(x, h - 1) + (if Henry[9 - (h - 1)][x] == 0 then 1 else 0)
  }

  /** The number of minority voters in rows 0 .. h-1 of columns 0 .. w-1 */
  function PinkInColumns(w: nat, h: nat): (count: int)
    requires w <= 10 && h <= 10
    ensures 0 <= count
  {
    if w == 0 then 0 else PinkInColumns(w - 1, h) + PinkInColumn(w - 1, h)
  }

  /** Summed over a column, the pink attribute counts the column's minority voters */
  lemma {:induction false} PinkColumnSum(pink: map<Node, int>, x: int, h: nat)
    requires 0 <= x < 10 && h <= 10
    requires forall y :: 0 <= y < h ==> (x, y) in pink && pink[(x, y)] == PinkAt((x, y))
    ensures ColumnSum(v => if v in pink then pink[v] else 0, x, h) == PinkInColumn(x, h)
  {
    if h > 0 {
      PinkColumnSum(pink, x, h - 1);
    }
  }

  /** Summed over a w-by-h window, the pink attribute counts the window's minority voters */
  lemma {:induction false} PinkGridSum(pink: map<Node, int>, w: nat, h: nat)
    requires w <= 10 && h <= 10
    requires forall x, y :: 0 <= x < w && 0 <= y < h ==> (x, y) in pink && pink[(x, y)] == PinkAt((x, y))
    ensures GridSum(v => if v in pink then pink[v] else 0, w, h) == PinkInColumns(w, h)
  {
    if w > 0 {
      PinkGridSum(pink, w - 1, h);
      PinkColumnSum(pink, w - 1, h);
    }
  }

  /** Minority voters in the left half of the Henry configuration, column by column */
  lemma HenryLeftColumns()
    ensures PinkInColumn(0, 10) == 6 && PinkInColumn(1, 10) == 2 && PinkInColumn(2, 10) == 5
    ensures PinkInColumn(3, 10) == 4 && PinkInColumn(4, 10) == 5
  {
  }

  /** Minority voters in the right half of the Henry configuration, column by column */
  lemma HenryRightColumns()
    ensures PinkInColumn(5, 10) == 3 && PinkInColumn(6, 10) == 3 && PinkInColumn(7, 10) == 3
    ensures PinkInColumn(8, 10) == 2 && PinkInColumn(9, 10) == 7
  {
  }

  /** The Henry configuration has 40 minority voters, the minority fraction 0.4 of its 100 nodes */
  lemma HenryHasFortyPink()
    ensures PinkInColumns(10, 10) == 40
  {
    HenryLeftColumns();
    HenryRightColumns();
  }
}
