/** The script's configuration and the initial state it builds before the chain
    runs: a 10-by-10 grid, 10 districts, every node of population 1, voters
    coloured by the Henry configuration, the columns plan as the root partition,
    and the ideal population handed to the proposal. */
module GridChain {
  import opened Grid
  import opened CutEdges
  import opened History
  import opened ColumnPlan
  import opened Voters
  import opened Population

  /** Side length of the grid */
  const N: nat := 10
  /** Number of districts */
  const K: nat := 10
  /** Number of nodes per district, n ** 2 / k */
  const M: real := (N * N) as real / K as real
  /** Minority fraction */
  const Rho: real := 0.4
  /** Number of minority voters, rho * n ** 2 */
  const L: real := Rho * (N * N) as real

  /** The configured nodes per district and minority voter count: m = 10 and l = 40 */
  lemma ConfiguredConstants()
    ensures M == 10.0 && L == 40.0
  {
  }

  /** Under the columns plan no vertical edge is cut, and a horizontal edge is cut exactly when
      it crosses from the last column of one block to the first column of the next */
  lemma ColumnsCutEdges(n: nat, k: nat, e: Edge)
    requires k > 0 && n % k == 0
    ensures RookCut(n, Columns(n, k), e) <==>
      InGrid(n, e.0) && e.1 == Right(e.0) && e.0.0 + 1 < n && (e.0.0 + 1) % (n / k) == 0
  {
    if InGrid(n, e.0) && InGrid(n, e.1) && (e.1 == Right(e.0) || e.1 == Up(e.0)) {
      ColumnsDistrictOf(n, k, e.0);
      ColumnsDistrictOf(n, k, e.1);
      if e.1 == Right(e.0) {
        NextColumnBlock(e.0.0, n / k);
      }
    }
  }

  /** Column x + 1 starts a new block exactly when x + 1 is a multiple of the block width */
  lemma NextColumnBlock(x: nat, width: nat)
    requires width > 0
    ensures (x + 1) / width != x / width <==> (x + 1) % width == 0
  {
    var q, r := x / width, x % width;
    if r + 1 < width {
      DivUnique(x + 1, width, q, r + 1);
    } else {
      DivUnique(x + 1, width, q + 1, 0);
    }
  }

  /** Quotient and remainder are determined by a == q * width + r with 0 <= r < width */
  lemma DivUnique(a: int, width: int, q: int, r: int)
    requires width > 0 && a == q * width + r && 0 <= r < width
    ensures a / width == q && a % width == r
  {
    var q', r' := a / width, a % width;
    assert (q - q') * width == r' - r;
    if q' < q { MulMonotone(1, q - q', width); }
    if q < q' { MulMonotone(1, q' - q, width); }
  }

  /** What the labelling loop leaves on a grid of side n <= 10: unit populations, so n * n
      people, and the minority voters of the Henry configuration's window of side n */
  lemma LabelledGridCounts(n: nat, pop: map<Node, int>, pink: map<Node, int>)
    requires n <= 10
    requires forall v :: InGrid(n, v) ==> v in pop && pop[v] == 1 && v in pink && pink[v] == PinkAt(v)
    ensures UnitPopulation(n, pop) && TotalPopulation(n, pop) == n * n
    ensures GridSum(v => if v in pink then pink[v] else 0, n, n) == PinkInColumns(n, n)
  {
    UnitPopulationCounts(n, pop, map[], 0);
    forall x, y | 0 <= x < n && 0 <= y < n ensures (x, y) in pink && pink[(x, y)] == PinkAt((x, y)) {
      assert InGrid(n, (x, y));
    }
    PinkGridSum(pink, n, n);
  }

  /** With one column per district every horizontal edge is cut and no vertical one */
  lemma SquareColumnsCut(n: nat, k: nat, cut: set<Edge>)
    requires n == k > 0
    requires forall e :: e in cut <==> RookCut(n, Columns(n, k), e)
    ensures forall e :: e in cut <==> InGrid(n, e.0) && e.1 == Right(e.0) && e.0.0 < n - 1
  {
    forall e ensures e in cut <==> InGrid(n, e.0) && e.1 == Right(e.0) && e.0.0 < n - 1 {
      ColumnsCutEdges(n, n, e);
    }
  }

  /** The script's set-up: build the grid, label every node, assign the columns plan, create the
      root partition and compute the ideal population and the root's rook cut edges */
  method BuildInitialState() returns (pop: map<Node, int>, pinkTotal: int, initial: Partition,
                                      ideal: real, cut: set<Edge>)
    ensures UnitPopulation(N, pop) && TotalPopulation(N, pop) == N * N
    ensures pinkTotal == 40 && pinkTotal as real == L
    ensures initial.parent == None && StepNum(initial) == 0
    ensures initial.assignment == Columns(N, K) && |Districts(initial.assignment)| == K
    ensures ideal == M == 10.0
    ensures forall d :: 0 <= d < K ==> DistrictPopulation(N, pop, Columns(N, K), d) as real == ideal
    ensures forall e :: e in cut <==> InGrid(N, e.0) && e.1 == Right(e.0) && e.0.0 < N - 1
  {
    var graph := new VoterGraph(N);
    graph.LabelVoters();
    pop := graph.population;
    var pink := graph.pink;
    pinkTotal := GridSum(v => if v in pink then pink[v] else 0, N, N);
    assert UnitPopulation(N, pop) && TotalPopulation(N, pop) == N * N && pinkTotal == 40 by {
      LabelledGridCounts(N, pop, pink);
      HenryHasFortyPink();
    }

    var plan := Columns(N, K);
    initial := Partition(plan, None);
    ideal := IdealPopulation(PopulationTally(N, pop, plan, K));
    ColumnsPlanIsBalanced(N, K, pop);

    cut := RookCutEdges(N, plan);
    SquareColumnsCut(N, K, cut);
    ConfiguredConstants();
  }
}
