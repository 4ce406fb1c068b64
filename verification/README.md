# ATria-rs core in Dafny

ATria ranks the nodes of a signed, weighted network by centrality ("Ablatio
Triadum"). The nodes are stored in a dense, row-major weight matrix. Each
round does four things:

- it relaxes a copy of the matrix inside blocks of 25 indices with a parity rule;
- it scores every node by its row sum minus 1;
- it records the score of the node of largest magnitude;
- it removes the triads around that node by writing the sentinel `f32::MAX`, then clears the sentinels on the diagonal.

A final step sorts the scores and the node names together by decreasing
magnitude and assigns ranks. The repository also contains two
single-source shortest-path routines over a dense matrix: a Rust one and a
C++ class template. Both are modelled, on the shared 4-vertex test graph
with negative weights.

The project has these modules:

- `Distances` (distances.dfy): a distance is a real number or infinity, with addition and comparison.
- `ShortestPaths` (shortest_paths.dfy): the shortest-path round loop as functions. They are parameterised by the edge test, which is the only place the Rust and the C++ versions differ. The file also holds the properties of the loop and the test fixture.
- `Dijkstras` (dijkstras.dfy): `dijkstras` and `min_distance` of src/dijkstras.rs, as loops proved against `ShortestPaths`.
- `DijkstraCxx` (dijkstra_cxx.dfy): the class `Dijkstra<float>` of src/dijkstra.cxx and its `main` without the printing.
- `AtriaGrid` (atria_grid.dfy): `vec_offset`, the blocks of 25 indices, `Vec::insert`, `fabsf` and `f32::MAX`.
- `AtriaRelax` (atria_relax.dfy): the modified Floyd-Warshall pass of `run`.
- `AtriaPayoff` (atria_payoff.dfy): the payoff vector and the selection of the best node.
- `AtriaRemoval` (atria_removal.dfy): triad removal and the diagonal sweep.
- `AtriaReport` (atria_report.dfy): the paired bubble sort and the rank column of `output`.
- `AtriaPlugin` (atria_plugin.dfy): the class `ATriaPlugin` with the fields `bacteria`, `origGraph` and `output`. Its `Run` and `Output` methods update those fields in place.

Each loop of the source is a method with a `for` loop. The method is proved
equal to a recursive function that describes the first k iterations, and the
properties the code promises are lemmas about those functions.

The ATria model follows the code as written, including details that differ
from what the surrounding comments and the commented-out
`modified_floyd_warshall` (src/lib.rs:50-70) suggest:

- Inside block `p` every offset is computed with row stride `p`. The commented-out version uses `size`.
- An improvement in the relaxation, each payoff and the recorded score use `Vec::insert`. It shifts the tail and lengthens the vector; it does not overwrite. The commented-out version assigns the cell.
- The score of a round is recorded before the test `max_pay == 0.0`, so the final round records one too.
- Triad removal compares `i / 2` and `j / 2` with `max_node` itself.
- In triad removal the block end uses the length of `orig_graph`, which shadows `size`.
- The removal's `j` loop runs over the same block as `i`, for every `j` in it.
- The sweep writes `0.0` into diagonal cells that hold `f32::MAX`.
- `output` writes only the first `size - 1` rows, with ranks `size` down to 2.
- The parallel partitions hold one mutex for their whole body, so they run one after the other. The model runs them in ascending order. Because of the inserts, the order matters, and the model claims no independence from it.
- The 4-vertex fixture with expected rows `[0,-1,-2,0]`, `[4,0,3,5]`, `[5,1,0,2]`, `[3,-1,2,0]` is the test of the shortest-path routines (src/dijkstras.rs:48-71, src/dijkstra.cxx:78-90). The model proves it for both of them.

## Model

| member | source | states |
|---|---|---|
| `ShortestPaths.MinIndexSelects` | src/dijkstras.rs:30-42 | The selection returns an unprocessed vertex of least distance, and the last one among ties because the test is `<=`. It returns 0 when every vertex is processed. |
| `ShortestPaths.RelaxBelowChanges` | src/dijkstras.rs:17-23 | Once `u` is processed, the inner loop changes a distance only by a strict decrease. The new value is `dist[u]` plus an edge weight that passes the edge test, and only an unprocessed vertex changes. Targets not yet visited are untouched. |
| `ShortestPaths.RoundMarksOne` | src/dijkstras.rs:13-15 | While some vertex is unprocessed, a round selects an unprocessed vertex and the processed count grows by exactly one. |
| `ShortestPaths.ProcessedCount` | src/dijkstras.rs:11-15 | After c rounds exactly c vertices are processed, so `size - 1` at the end. |
| `ShortestPaths.RoundPicksUnprocessed` | src/dijkstras.rs:11-15 | Every one of the `size - 1` rounds selects a vertex that was not processed yet. |
| `ShortestPaths.SourceStaysZero` | src/dijkstras.rs:9-23 | The source's distance stays 0 through every round. The source is processed from the first round on, because it is selected first. |
| `ShortestPaths.ShortestDistances` | src/dijkstras.rs:4-27 | The returned vector has one entry per vertex, and the source's entry is 0. |
| `ShortestPaths.GuardsAgree` | src/dijkstra.cxx:62-67 | On a graph with no zero-weight edge between distinct vertices, the C++ edge test and the Rust edge test produce the same state after every round. |
| `ShortestPaths.ZeroEdgeDisagreement` | src/dijkstra.cxx:63-65 | That hypothesis is needed. Across a zero-weight edge the Rust version relaxes and the C++ version does not, so the two results differ. |
| `ShortestPaths.FixtureFromSource` | src/dijkstras.rs:48-71 | On the test graph, the algorithm started at each source 0..3 computes exactly the expected row of the test. |
| `ShortestPaths.FixtureFromSourceNonzeroGuard` | src/dijkstra.cxx:78-90 | With the C++ edge test, the same graph gives the same expected rows. |
| `Dijkstras.MinDistance` | src/dijkstras.rs:30-42 | The loop with `min` starting at infinity and `index` at 0 returns the selection above. It returns the last unprocessed vertex of least distance, or 0 when none is left. |
| `Dijkstras.Dijkstras` | src/dijkstras.rs:4-27 | `dijkstras` returns the distances of `size - 1` rounds with the Rust edge test. The result has length `size` and is 0 at the source. |
| `Dijkstras.ProcessNext` | src/dijkstras.rs:13-23 | One pass of the counting loop selects, marks and relaxes, and yields exactly one round of the specification. |
| `Dijkstras.FixtureRows` | src/dijkstras.rs:64-70 | The test's loop over the four sources produces the expected matrix. |
| `DijkstraCxx.Dijkstra.constructor` | src/dijkstra.cxx:16-19 | The object stores the matrix and sets `size` to its number of rows. |
| `DijkstraCxx.Dijkstra.MinDistance` | src/dijkstra.cxx:28-42 | If an unprocessed vertex exists, the result is one and equals the Rust selection: the last unprocessed vertex of least distance. |
| `DijkstraCxx.Dijkstra.FromVertex` | src/dijkstra.cxx:45-72 | The `push_back` loops and `size - 1` rounds with the C++ edge test give the specified distances. The result has length `size` and is 0 at the source. |
| `DijkstraCxx.Dijkstra.ProcessNext` | src/dijkstra.cxx:58-68 | One pass of the counting loop yields exactly one round with the C++ edge test. |
| `DijkstraCxx.FixtureOutput` | src/dijkstra.cxx:85-90 | `main`'s loop over the sources produces the expected matrix of the Rust test. |
| `AtriaGrid.VecOffset` | src/lib.rs:46-48 | Cell (i, j) lies in the slot of row i: at or after `i * sz`, and, when `j < sz`, before `(i + 1) * sz`. |
| `AtriaGrid.VecOffsetInverse` | src/lib.rs:46-48 | For `i < n` and `j < sz`, `vec_offset(i, j, sz)` is below `n * sz`. Dividing it by `sz` gives back `i` with remainder `j`. |
| `AtriaGrid.VecOffsetInjective` | src/lib.rs:46-48 | Two in-range cells never share an offset. |
| `AtriaGrid.BlockShape` | src/lib.rs:203-208 | Every block is a range inside `0..size` of width at most 25. |
| `AtriaGrid.InBlockIff` | src/lib.rs:203-208 | An index lies in block p exactly when p is its quotient by 25, so the blocks are disjoint. |
| `AtriaGrid.BlocksCover` | src/lib.rs:183-208 | Every index below `size` lies in one of the `size / 25 + 1` blocks. |
| `AtriaGrid.LastBlockEmpty` | src/lib.rs:183-208 | When 25 divides `size`, the last block is empty. |
| `AtriaGrid.InsertShifts` | src/lib.rs:223 | After `insert(pos, v)`, v sits at pos and the prefix is unchanged. Every later element has moved up one place, and the vector is one longer. |
| `AtriaRelax.RelaxCellChanges` | src/lib.rs:213-224 | A step with `i == j` or `j == k` changes nothing. When a step fires, the vector grows by one and the product sits at offset `i * p + j`. The product is strictly larger than the old cell when `i + j` is even, and strictly smaller when it is odd. |
| `AtriaRelax.Relax` | src/lib.rs:197-229 | The pass over all blocks in ascending order computes the specified relaxation of the clone. |
| `AtriaRelax.RelaxBlock` | src/lib.rs:203-228 | The k and i loops of one block run the specified steps. |
| `AtriaRelax.RelaxRow` | src/lib.rs:212-226 | The j loop of one block runs the specified steps. |
| `AtriaRelax.RelaxStep` | src/lib.rs:213-225 | The loop body performs exactly one specified step. |
| `AtriaPayoff.PayoffsLayout` | src/lib.rs:231-240 | After i inserts, the vector holds the first i payoffs followed by `size` zeros. |
| `AtriaPayoff.ComputePayoffs` | src/lib.rs:231-240 | `output_pay` has length `2 * size`. For every node i below `size` it holds the sum of row i minus 1, and the remaining entries are 0. |
| `AtriaPayoff.SelectionIsMax` | src/lib.rs:242-247 | Starting from (0, -1) with a strict `>`, `max_pay` is the largest magnitude and `max_node` the lowest index attaining it. |
| `AtriaPayoff.SelectionZeroIff` | src/lib.rs:242-254 | The largest magnitude is 0 exactly when every payoff is 0. |
| `AtriaPayoff.SelectMax` | src/lib.rs:242-247 | The selection loop returns that `max_node` and `max_pay`. With no node it returns (0, -1). |
| `AtriaRemoval.RemoveTriadsMarks` | src/lib.rs:259-301 | Triad removal keeps the length of `orig_graph`. Every cell it changes now holds `f32::MAX`. |
| `AtriaRemoval.SweepClearsDiagonal` | src/lib.rs:304-308 | After the sweep no diagonal cell holds `f32::MAX`: those that did hold 0 and the others keep their value. Every cell off the diagonal is untouched. |
| `AtriaRemoval.RemoveRowLoop` | src/lib.rs:279-288 | The j loop marks the specified pairs. |
| `AtriaRemoval.RemoveAtStep` | src/lib.rs:274-299 | The body of the i loop runs the specified j loop and marks the edges to both rows of the selected node. |
| `AtriaReport.SortPermutes` | src/lib.rs:318-325 | The sort permutes the first n indices. Both the scores and the names end up as the original entries at those same indices. |
| `AtriaReport.SortOrders` | src/lib.rs:318-325 | After the sort the first n scores have non-increasing magnitude. |
| `AtriaReport.SortStable` | src/lib.rs:318-325 | Scores of equal magnitude keep their original relative order. |
| `AtriaReport.SortKeepsTail` | src/lib.rs:318-325 | Entries at index n and above are untouched in both vectors. |
| `AtriaReport.SortIdempotent` | src/lib.rs:318-325 | Sorting the sorted vectors again changes nothing. |
| `AtriaReport.ReportRanked` | src/lib.rs:333-348 | On sorted scores the `size - 1` rows have non-negative, non-increasing magnitudes. Their ranks fall strictly from `size` down to 2, and each magnitude is at least that of the unwritten last entry. |
| `AtriaPlugin.RoundRecords` | src/lib.rs:231-254 | A round inserts the chosen node's payoff at the chosen index. That magnitude is the largest and every earlier node's is strictly smaller. The round stops exactly when all payoffs are 0, and then leaves the graph as it was. |
| `AtriaPlugin.RoundRemoves` | src/lib.rs:256-308 | A round that goes on keeps the length of `orig_graph`. Afterwards no diagonal cell holds `f32::MAX` and each holds its old value or 0. Every other cell holds its old value or `f32::MAX`. |
| `AtriaPlugin.RunFromRecordsOnce` | src/lib.rs:187-309 | Every executed pass records exactly one score. If all remaining passes run, `output` grows by their number. If the loop stops, it grows by 1 up to that number. |
| `AtriaPlugin.RunEnds` | src/lib.rs:178-312 | `run` makes `size` passes or stops early after recording between 1 and `size` scores. The graph keeps its length. |
| `AtriaPlugin.ReportOfSort` | src/lib.rs:318-348 | The written rows are ordered by magnitude and rank. Each is the name and score magnitude of one original entry, taken from the same index. |
| `AtriaPlugin.ATriaPlugin.Size` | src/lib.rs:94-96 | `size()` is the number of node names; every operation of the class takes its bounds from it. |
| `AtriaPlugin.ATriaPlugin.constructor` | src/lib.rs:82-90 | `Default` leaves the names, the graph and the scores empty. |
| `AtriaPlugin.ATriaPlugin.Run` | src/lib.rs:178-312 | `run` leaves `orig_graph` and `output` as the specified round loop does and does not change the names. |
| `AtriaPlugin.ATriaPlugin.RunRound` | src/lib.rs:188-308 | One pass does the specified round: relax, score, select and record. It then stops, or removes triads and sweeps. |
| `AtriaPlugin.ATriaPlugin.TriadRemoval` | src/lib.rs:257-301 | The partition loop applies the specified removal, block by block, to `orig_graph` and nothing else. |
| `AtriaPlugin.ATriaPlugin.RemovePartition` | src/lib.rs:265-300 | The body for one partition has its block end taken against the length of `orig_graph` and runs the specified i loop. |
| `AtriaPlugin.ATriaPlugin.SweepDiagonal` | src/lib.rs:304-308 | The sweep loop leaves `orig_graph` as the specified sweep does. |
| `AtriaPlugin.ATriaPlugin.Output` | src/lib.rs:314-352 | `output` sorts the scores and the names with the specified paired sort and writes the magnitudes back into the first `size - 1` scores. It returns the rows (name, magnitude, `size - i`). |

## Left out

- `ATriaPlugin::input` (CSV reading, float parsing) is not modelled. It is I/O through a foreign library. `Run` takes the state that `input` establishes as its precondition.
- The output file, the header, the `write!` formatting of floats and the `min`/`max` variables in `output`, which are computed but never used, are left out. `Output` returns the rows instead of writing them.
- rayon's `into_par_iter`, `Arc<Mutex<…>>` and the logging macros are left out. The partitions are a sequential loop in ascending order.
- IEEE-754 single precision is not modelled: rounding, overflow of products involving `f32::MAX`, NaN from `0 * ∞`, non-associative sums and `-∞`. Weights and distances are unbounded reals, with one explicit infinity for distances. `f32::MAX` is its exact real value.
- `AtriaPlugin.ATriaPlugin.Run`: requires `|orig_graph| >= size * size` and `size <= |output| + 1`. Without them the source may panic on an index or on `insert`, though not on every such input. `input` establishes both (src/lib.rs:120-122): `|orig_graph| >= size * size` and `|output| == size`. Inputs outside them, on which `run` may still return normally, are not modelled.
- `AtriaPlugin.ATriaPlugin.Output`: requires `1 <= size <= |output|`. For an empty plugin the source panics on `size - 1`; a shorter score vector may panic on `output[j + 1]`. `input` followed by `run` establishes `|output| >= size`. Inputs outside these bounds, on which `output` may still return normally (for instance size 1 with no scores), are not modelled.
- `Dijkstras.Dijkstras`: requires the source to be a vertex. Indexing by an out-of-range source panics, and the empty graph underflows on `size - 1`.
- `DijkstraCxx.Dijkstra.MinDistance`: requires an unprocessed vertex among the first `size`. Otherwise `min_index` is read uninitialised, which is undefined behaviour the model does not represent. `FromVertex` proves that this holds in each of its rounds.
- `DijkstraCxx.Dijkstra.FromVertex`: requires `0 <= source < size`. C++ `int` width and the `size_t` to `int` conversion in the constructor are not modelled.
- The test `it_can_run` is not modelled. It uses an ATria matrix containing `f32::INFINITY` and asserts only that `run` does not fail.
- The tests under tests/ are not part of this model. All three use a type `ATria` with `input(&str)` and a 2-D `orig_graph`, which src/lib.rs does not have.
  - tests/matrix_test.rs is ignored; it compares loaded matrix cells with the weights parsed from a CSV file.
  - tests/bacteria_test.rs checks only that 126 labels are loaded.
  - tests/integration_test.rs compares the bytes of a written report with an expected file, which depends on float formatting.
- The bridge in src/ffi/mod.rs and atria_rs.hxx and the printing in the C++ `main` are not modelled.
- The commented-out `modified_floyd_warshall` is not modelled. Its parity rule is the `ParityImproves` predicate.
