# Minority representation on a grid: the set-up of a redistricting chain

This Dafny project models the set-up that `grid_chain_minority_rep.py` performs
before it runs its redistricting Markov chain:

- the n-by-n grid of population units;
- the labelling loop that gives every node population 1 and one voter colour,
  either minority ("pink") or majority ("purple"), read from a fixed 10-by-10
  configuration called Henry;
- the initial "columns" plan (`cddict`), which puts node (x, y) in district
  x / (n / k);
- the `step_num` updater, which counts the partitions before the current one
  in the chain;
- the `rook_cut_edges` updater, which collects every horizontal or vertical
  grid edge whose endpoints lie in different districts;
- the district population tally and the ideal population handed to the
  proposal.

Modules:

- `Grid`: nodes, assignments, and sums over a grid window.
- `CutEdges`: `rook_cut_edges`, a method whose nested x/y scan stands for the loop over
  `graph.nodes()`.
- `History`: partitions with parent links, and `step_num`.
- `ColumnPlan`: `cddict`.
- `Voters`: a `VoterGraph` class whose attribute maps the labelling loop fills
  in place.
- `Population`: tallies and the ideal population.
- `GridChain`: the script's constants and the initial state it builds.

## Model

| member | source | states |
|---|---|---|
| Grid.GridNodes | grid_chain_minority_rep.py:39 | the nodes of the n-by-n grid graph are exactly the pairs (x, y) with 0 <= x, y < n |
| CutEdges.RookCutEdges | grid_chain_minority_rep.py:131-143 | The result holds exactly the oriented pairs (v, right neighbour) and (v, upper neighbour) inside the grid whose districts differ (sound). Every undirected cut edge appears in exactly one orientation (complete). The set has at most 2n(n-1) elements. A plan with one district gives the empty set. |
| CutEdges.AddCutsAt | grid_chain_minority_rep.py:134-142 | one pass of the scan adds exactly the cut edges leaving v to the right or upwards, and at most one edge per neighbour that exists |
| CutEdges.RookCutFrom | grid_chain_minority_rep.py:135-142 | the cut edges starting at v are its right edge when v is not in the last column and its upper edge when v is not in the top row, each only when the districts differ |
| CutEdges.EdgesBeforeColumnCount | grid_chain_minority_rep.py:134-142 | columns 0..x-1 have x(n-1) vertical edges and n·min(x, n-1) horizontal ones; all n columns have 2n(n-1) edges in total |
| CutEdges.RookAdjacentOrientation | grid_chain_minority_rep.py:135-142 | a rook-adjacent pair is collected from exactly one of its two endpoints |
| CutEdges.NoCutAlongColumn | grid_chain_minority_rep.py:139-142 | with no cut edge, every node has the district of the bottom node of its column |
| CutEdges.NoCutAlongBottomRow | grid_chain_minority_rep.py:135-138 | with no cut edge, every bottom-row node has the district of the corner (0, 0) |
| CutEdges.NoCutEdgesIffOneDistrict | grid_chain_minority_rep.py:131-143 | the rook cut-edge set is empty exactly when the plan has a single district (both directions) |
| History.Ancestors | grid_chain_minority_rep.py:125-127 | the ancestor chain is empty exactly when the partition has no parent |
| History.StepNum | grid_chain_minority_rep.py:125-129 | step_num equals the number of partitions before p in its chain, and is 0 exactly when p has no parent |
| History.StepNumAlongChain | grid_chain_minority_rep.py:125-129 | the i-th ancestor has step_num one less per link, and the last ancestor is the parentless root |
| History.StepNumDescend | grid_chain_minority_rep.py:125-129 | each derivation adds exactly one to step_num, and the final partition carries the last step's assignment |
| History.ChainHistory | grid_chain_minority_rep.py:125-129 | a chain from a parentless plan after s steps has step_num s, and its ancestors hold the earlier assignments, newest first, ending with the initial plan |
| History.DescendSnoc | grid_chain_minority_rep.py:126 | one more step is one more parent link on top of the chain so far |
| ColumnPlan.DivBlock | grid_chain_minority_rep.py:93 | column x lies in block x / width, [q·width, (q+1)·width), and the block index is below k |
| ColumnPlan.BlockUnique | grid_chain_minority_rep.py:93 | a column lies in one block only |
| ColumnPlan.Columns | grid_chain_minority_rep.py:93 | the plan is defined on exactly the grid nodes, gives ids in 0..k-1, and puts every node in the block of n/k columns that holds its x coordinate |
| ColumnPlan.ColumnsDistrictOf | grid_chain_minority_rep.py:93 | the district of node (x, y) is x / (n / k) |
| ColumnPlan.IdRange | grid_chain_minority_rep.py:31 | the district ids 0..k-1 form a set of k elements |
| ColumnPlan.ColumnsUseKDistricts | grid_chain_minority_rep.py:93 | on a nonempty grid the columns plan uses exactly the districts 0..k-1, which are k districts |
| ColumnPlan.ColumnsDistrictSize | grid_chain_minority_rep.py:93 | every district of the columns plan holds n·(n/k) nodes, and k such districts cover the n² nodes |
| ColumnPlan.SquareGridColumns | grid_chain_minority_rep.py:93 | with n == k every district is one column: node (x, y) is in district x, and every district has n nodes |
| Voters.VoterGraph.constructor | grid_chain_minority_rep.py:39 | a fresh n-by-n grid graph carries no node attributes |
| Voters.VoterGraph.LabelNode | grid_chain_minority_rep.py:57-86 | one pass gives the node population 1, pink 1 and purple 0 where Henry has a 0, and pink 0 and purple 1 elsewhere; nodes labelled earlier keep their labels, and only vertex's entries of the three attribute maps change |
| Voters.VoterGraph.LabelVoters | grid_chain_minority_rep.py:55-86 | after the loop every grid node has population 1, a pink value that follows Henry[9-y][x], and purple == 1 - pink (exactly one colour); no attribute lies outside the grid |
| Voters.PinkInColumn | grid_chain_minority_rep.py:80-81 | the count of minority voters in a partial column lies between 0 and the column height |
| Voters.PinkColumnSum | grid_chain_minority_rep.py:81-86 | summed over a column, the pink attribute counts that column's minority voters in the Henry configuration |
| Voters.PinkGridSum | grid_chain_minority_rep.py:81-86 | summed over a window, the pink attribute counts the window's minority voters in the Henry configuration |
| Voters.HenryLeftColumns | grid_chain_minority_rep.py:80 | columns 0-4 of the Henry configuration hold 6, 2, 5, 4 and 5 minority voters |
| Voters.HenryRightColumns | grid_chain_minority_rep.py:80 | columns 5-9 of the Henry configuration hold 3, 3, 3, 2 and 7 minority voters |
| Voters.HenryHasFortyPink | grid_chain_minority_rep.py:33-34 | the Henry configuration has 40 minority voters, the l = rho·n² the script configures |
| Population.IdealPopulation | grid_chain_minority_rep.py:164 | the ideal population times the number of districts equals the total of the tally |
| Population.BalancedTallyIsIdeal | grid_chain_minority_rep.py:164 | when every district holds population c, the ideal population is c |
| Population.TallyPrefixSum | grid_chain_minority_rep.py:164 | the tally of districts 0..k-1 sums to the population of the nodes assigned to those districts |
| Population.TalliesAddUpToTotal | grid_chain_minority_rep.py:164 | when every node has a district in 0..k-1, the district populations add up to the grid's population |
| Population.UnitPopulationCounts | grid_chain_minority_rep.py:57 | with population 1 everywhere the grid holds n² people, and a district's population is its node count |
| Population.ColumnsPlanIsBalanced | grid_chain_minority_rep.py:160-164 | the columns plan has k districts, the ideal population is n²/k, and every district holds exactly the ideal population |
| GridChain.ConfiguredConstants | grid_chain_minority_rep.py:30-34 | with n = k = 10 and rho = 0.4 there are m = 10 nodes per district and l = 40 minority voters |
| GridChain.ColumnsCutEdges | grid_chain_minority_rep.py:131-143 | under the columns plan no vertical edge is cut, and a horizontal edge (x, y)-(x+1, y) is cut exactly when x + 1 < n starts a new block of n/k columns |
| GridChain.NextColumnBlock | grid_chain_minority_rep.py:93 | column x + 1 is in a different block from column x exactly when x + 1 is a multiple of the block width |
| GridChain.LabelledGridCounts | grid_chain_minority_rep.py:55-86 | after labelling, the grid holds n² people, and its pink attributes sum to the Henry configuration's minority count for that window |
| GridChain.SquareColumnsCut | grid_chain_minority_rep.py:131-143 | with n == k the rook cut edges are exactly the horizontal edges that leave columns 0..n-2 |
| GridChain.BuildInitialState | grid_chain_minority_rep.py:30-164 | The set-up gives 100 nodes of population 1 and 40 minority voters, which is l. The root partition has no parent and step_num 0, and its plan is the columns plan with K districts. The ideal population is m = 10, and every district holds exactly that. The rook cut edges are the horizontal edges leaving columns 0..8. |

## Left out

- The Markov chain itself is not modelled, because it runs inside the external library:
  - the ReCom proposal (`recom`);
  - `MarkovChain`;
  - `Validator`;
  - `within_percent_of_ideal_population`;
  - `always_accept`.
  The chain appears only through `History.Child` / `History.Descend`, which model a step as a new partition whose parent is the old one.
- Library updaters are not modelled: `cut_edges`, the `Election` "Pink-Purple" with its `wins`, `mean_median` and `efficiency_gap`. `Tally` appears only as its end result, `Population.PopulationTally`: the model computes it from scratch rather than incrementally.
- The accounting after the chain is left out: ties, the expected number of minority seats, the lists of statistics, printing and plotting. They depend on the library values above and on floating point.
- `nx.grid_graph` is modelled only by its node set, `Grid.GridNodes`. The rook edges are implicit in `CutEdges.RookCut`. The commented-out queen adjacency and the random and column-based voter assignments are dead code.
- ColumnPlan.Columns: the plan is defined only when k divides n. Then n / k is an exact integer and `int(x / (n / k))` equals the integer quotient x / (n / k). For other k the source divides in floating point, and that is not modelled.
- Population.IdealPopulation: computed in exact real arithmetic. Python's true division rounds to a float, which is not modelled.
- Voters.VoterGraph.LabelVoters: requires n <= 10. The Henry configuration is 10 by 10, and on a larger grid the source's indexing raises an error. The model does not reproduce that error path.
- Voters.VoterGraph.LabelVoters: visits the nodes column by column. In the source the order of `graph.nodes()` comes from networkx, but no step depends on it.
- CutEdges.RookCutEdges: scans column by column, the same as `LabelVoters`. The result is a set, so the order does not affect it.
- History.StepNum: the source tests `not parent`. A partition is also falsy when it has no districts, but that cannot happen over a nonempty grid. The model treats only a missing parent as the root.
- The lazy caching of updater values on a partition is not modelled; `parent["step_num"]` is modelled as a recursive call on the parent.
