/** Population per district and the ideal district population: the total
    population of the grid divided by the number of districts. The division is
    Python's true division, so the ideal population is a real number. */
module Population {
  import opened Grid
  import opened ColumnPlan

  /** Population of the n-by-n grid */
  function TotalPopulation(n: nat, pop: map<Node, int>): int {
    GridSum(v => if v in pop then pop[v] else 0, n, n)
  }

  /** Population of the grid nodes a plan puts in district d */
  function DistrictPopulation(n: nat, pop: map<Node, int>, plan: Assignment, d: int): int {
    GridSum(v => if v in pop && v in plan && plan[v] == d then pop[v] else 0, n, n)
  }

  /** The "population" tally of districts 0 .. k-1 */
  function PopulationTally(n: nat, pop: map<Node, int>, plan: Assignment, k: nat): (tally: seq<int>)
    ensures |tally| == k
    ensures forall d :: 0 <= d < k ==> tally[d] == DistrictPopulation(n, pop, plan, d)
  {
    seq(k, d requires 0 <= d < k => DistrictPopulation(n, pop, plan, d))
  }

  function Sum(s: seq<int>): int {
    if s == [] then 0 else Sum(s[..|s| - 1]) + s[|s| - 1]
  }

  /** ideal_population: the population every district would have if all were equal */
  function IdealPopulation(tally: seq<int>): (ideal: real)
    requires |tally| > 0
    ensures ideal * (|tally| as real) == Sum(tally) as real
  {
    (Sum(tally) as real) / (|tally| as real)
  }

  /** A tally whose districts all hold the same population c has ideal population c */
  lemma {:induction false} BalancedTallyIsIdeal(tally: seq<int>, c: int)
    requires |tally| > 0
    requires forall d :: 0 <= d < |tally| ==> tally[d] == c
    ensures IdealPopulation(tally) == c as real
  {
    SumConst(tally, c);
    assert (|tally| * c) as real == (|tally| as real) * (c as real);
  }

  lemma {:induction false} SumConst(s: seq<int>, c: int)
    requires forall i :: 0 <= i < |s| ==> s[i] == c
    ensures Sum(s) == |s| * c
  {
    if s != [] {
      SumConst(s[..|s| - 1], c);
    }
  }

  /** The population of the nodes whose district lies in [0, bound) */
  function LowDistrictPopulation(n: nat, pop: map<Node, int>, plan: Assignment, bound: int): int {
    GridSum(v => if v in pop && v in plan && 0 <= plan[v] < bound then pop[v] else 0, n, n)
  }

  lemma {:induction false} TallyPrefixSum(n: nat, pop: map<Node, int>, plan: Assignment, k: nat)
    ensures Sum(PopulationTally(n, pop, plan, k)) == LowDistrictPopulation(n, pop, plan, k)
  {
    if k == 0 {
      GridSumConst(v => if v in pop && v in plan && 0 <= plan[v] < 0 then pop[v] else 0, n, n, 0);
    } else {
      TallyPrefixSum(n, pop, plan, k - 1);
      assert PopulationTally(n, pop, plan, k)[..k - 1] == PopulationTally(n, pop, plan, k - 1);
      GridSumAdd(
        v => if v in pop && v in plan && 0 <= plan[v] < k - 1 then pop[v] else 0,
        v => if v in pop && v in plan && plan[v] == k - 1 then pop[v] else 0,
        v => if v in pop && v in plan && 0 <= plan[v] < k then pop[v] else 0,
        n, n);
    }
  }

  /** Every node is counted in exactly one district: when the plan sends each grid node to one of
      the districts 0 .. k-1, the district populations add up to the grid's population */
  lemma TalliesAddUpToTotal(n: nat, pop: map<Node, int>, plan: Assignment, k: nat)
    requires Total(n, plan)
    requires forall v :: InGrid(n, v) ==> 0 <= plan[v] < k
    ensures Sum(PopulationTally(n, pop, plan, k)) == TotalPopulation(n, pop)
  {
    TallyPrefixSum(n, pop, plan, k);
    GridSumCongruent(
      v => if v in pop && v in plan && 0 <= plan[v] < k then pop[v] else 0,
      v => if v in pop then pop[v] else 0,
      n, n);
  }

  /** Population 1 on every node */
  ghost predicate UnitPopulation(n: nat, pop: map<Node, int>) {
    forall v :: InGrid(n, v) ==> v in pop && pop[v] == 1
  }

  /** With unit populations the grid's population is its node count n * n, and a district's
      population is its node count */
  lemma UnitPopulationCounts(n: nat, pop: map<Node, int>, plan: Assignment, d: int)
    requires UnitPopulation(n, pop)
    ensures TotalPopulation(n, pop) == n * n
    ensures DistrictPopulation(n, pop, plan, d) == DistrictSize(n, plan, d)
  {
    GridSumConst(v => if v in pop then pop[v] else 0, n, n, 1);
    GridSumCongruent(
      v => if v in pop && v in plan && plan[v] == d then pop[v] else 0,
      v => if v in plan && plan[v] == d then 1 else 0,
      n, n);
  }

  /** Under the columns plan with unit populations the partition has k districts, and every
      district holds exactly the ideal population n * n / k, the nodes-per-district count */
  lemma ColumnsPlanIsBalanced(n: nat, k: nat, pop: map<Node, int>)
    requires k > 0 && n % k == 0 && n > 0
    requires UnitPopulation(n, pop)
    ensures |Districts(Columns(n, k))| == k
    ensures IdealPopulation(PopulationTally(n, pop, Columns(n, k), k)) == (n * n) as real / k as real
    ensures forall d :: 0 <= d < k ==>
      DistrictPopulation(n, pop, Columns(n, k), d) as real == IdealPopulation(PopulationTally(n, pop, Columns(n, k), k))
  {
    var plan := Columns(n, k);
    var tally := PopulationTally(n, pop, plan, k);
    var c := n * (n / k);
    ColumnsUseKDistricts(n, k);
    forall d | 0 <= d < k ensures tally[d] == c {
      UnitPopulationCounts(n, pop, plan, d);
      ColumnsDistrictSize(n, k, d);
    }
    BalancedTallyIsIdeal(tally, c);
    ColumnsDistrictSize(n, k, 0);
    ExactQuotient(c, k, n * n);
  }

  /** An integer quotient that leaves no remainder is also the real quotient */
  lemma ExactQuotient(c: int, k: int, total: int)
    requires k > 0 && c * k == total
    ensures c as real == total as real / k as real
  {
    assert (c * k) as real == (c as real) * (k as real);
  }
}
