/** The initial "columns" plan: node (x, y) of the n-by-n grid goes to district
    x / (n / k), so district d is the block of n / k consecutive columns starting
    at column d * (n / k). The plan is built when k divides n. */
module ColumnPlan {
  import opened Grid

  lemma MulMonotone(a: int, b: int, c: int)
    requires a <= b && c >= 0
    ensures a * c <= b * c
  {
    assert b * c - a * c == (b - a) * c;
  }

  /** A column lies in one block only */
  lemma BlockUnique(x: int, width: int, d: int, e: int)
    requires width > 0
    requires d * width <= x < (d + 1) * width
    requires e * width <= x < (e + 1) * width
    ensures d == e
  {
    if d < e { MulMonotone(d + 1, e, width); }
    if e < d { MulMonotone(e + 1, d, width); }
  }

  lemma MulAssoc(a: int, b: int, c: int)
    ensures a * b * c == a * (b * c)
  {
  }

  /** x / width is the block [q * width, (q + 1) * width) holding x, and it lies below k when x does
      not reach k * width */
  lemma DivBlock(x: int, width: int, k: int)
    requires 0 <= x < k * width && width > 0
    ensures (x / width) * width <= x < (x / width + 1) * width
    ensures 0 <= x / width < k
  {
    var q, r := x / width, x % width;
    assert x == q * width + r && 0 <= r < width;
    assert (q + 1) * width == q * width + width;
    if q >= k {
      MulMonotone(k, q, width);
    }
    if q < 0 {
      MulMonotone(q + 1, 0, width);
    }
  }

  lemma WidthPositive(n: int, k: int)
    requires n > 0 && k > 0 && n % k == 0
    ensures n / k > 0 && (n / k) * k == n
  {
  }

  /** cddict: every grid node goes to the district of its column block */
  function Columns(n: nat, k: nat): (plan: Assignment)
    requires k > 0 && n % k == 0
    ensures forall v :: v in plan <==> InGrid(n, v)
    ensures forall v :: v in plan ==> 0 <= plan[v] < k
    ensures forall v :: v in plan ==> plan[v] * (n / k) <= v.0 < (plan[v] + 1) * (n / k)
  {
    var width := n / k;
    var plan := map v | v in GridNodes(n) :: (WidthPositive(n, k); v.0 / width);
    assert forall v :: v in plan ==> plan[v] * width <= v.0 < (plan[v] + 1) * width && 0 <= plan[v] < k by {
      forall v | v in plan ensures plan[v] * width <= v.0 < (plan[v] + 1) * width && 0 <= plan[v] < k {
        WidthPositive(n, k);
        DivBlock(v.0, width, k);
      }
    }
    plan
  }

  /** The district of v is the quotient of its column by the block width */
  lemma ColumnsDistrictOf(n: nat, k: nat, v: Node)
    requires k > 0 && n % k == 0 && InGrid(n, v)
    ensures n / k > 0 && Columns(n, k)[v] == v.0 / (n / k)
  {
    var plan := Columns(n, k);
    var width := n / k;
    WidthPositive(n, k);
    DivBlock(v.0, width, k);
    BlockUnique(v.0, width, plan[v], v.0 / width);
  }

  /** The districts a plan uses */
  function Districts(plan: Assignment): set<int> {
    plan.Values
  }

  /** The ids 0 .. k-1 */
  function IdRange(k: nat): (ids: set<int>)
    ensures forall d :: d in ids <==> 0 <= d < k
    ensures |ids| == k
  {
    if k == 0 then {} else IdRange(k - 1) + {k - 1}
  }

  /** On a nonempty grid the columns plan uses exactly the k districts 0 .. k-1 */
  lemma ColumnsUseKDistricts(n: nat, k: nat)
    requires k > 0 && n % k == 0 && n > 0
    ensures Districts(Columns(n, k)) == IdRange(k)
    ensures |Districts(Columns(n, k))| == k
  {
    var plan := Columns(n, k);
    var width := n / k;
    WidthPositive(n, k);
    forall d | 0 <= d < k ensures d in plan.Values {
      var x := d * width;
      MulMonotone(d + 1, k, width);
      assert 0 <= x < n by { MulMonotone(0, d, width); }
      var v := (x, 0);
      assert v in plan;
      DivBlock(x, width, k);
      assert (d + 1) * width == x + width;
      BlockUnique(x, width, plan[v], d);
      assert plan[v] in plan.Values;
    }
  }

  /** The number of grid nodes a plan puts in district d */
  function DistrictSize(n: nat, plan: Assignment, d: int): int {
    GridSum(v => if v in plan && plan[v] == d then 1 else 0, n, n)
  }

  /** Every district of the columns plan is a block of n / k full columns, n * n / k nodes */
  lemma {:induction false} ColumnsDistrictSize(n: nat, k: nat, d: int)
    requires k > 0 && n % k == 0 && 0 <= d < k
    ensures DistrictSize(n, Columns(n, k), d) == n * (n / k)
    ensures n * (n / k) * k == n * n
  {
    var plan := Columns(n, k);
    var width := n / k;
    if n == 0 {
      GridSumConst(v => if v in plan && plan[v] == d then 1 else 0, 0, 0, 0);
    } else {
      WidthPositive(n, k);
      var lo, hi := d * width, (d + 1) * width;
      MulMonotone(0, d, width);
      MulMonotone(d + 1, k, width);
      assert hi == lo + width;
      forall x, y | 0 <= x < n && 0 <= y < n
        ensures (if (x, y) in plan && plan[(x, y)] == d then 1 else 0) == (if lo <= x < hi then 1 else 0)
      {
        var e := plan[(x, y)];
        if lo <= x < hi {
          BlockUnique(x, width, e, d);
        }
      }
      GridSumColumnBlock(v => if v in plan && plan[v] == d then 1 else 0, n, n, lo, hi);
      MulAssoc(n, width, k);
    }
  }

  /** With as many districts as columns, every district is exactly one column of n nodes */
  lemma SquareGridColumns(n: nat)
    requires n > 0
    ensures forall x, y :: 0 <= x < n && 0 <= y < n ==> Columns(n, n)[(x, y)] == x
    ensures forall d :: 0 <= d < n ==> DistrictSize(n, Columns(n, n), d) == n
  {
    forall d | 0 <= d < n ensures DistrictSize(n, Columns(n, n), d) == n {
      ColumnsDistrictSize(n, n, d);
    }
  }
}
