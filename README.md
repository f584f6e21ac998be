# Single-linkage clustering of 2-D points: a Dafny model

The repository has two parts. A native routine `slink` (slink.cpp) clusters an array
of 2-D points. A PyQt front end (main.py) reads points from a CSV file, calls the
native routine, and draws a dendrogram from a condensed distance list of its own.
This project models the clustering logic of both parts and proves its properties.

- `labels.dfy` (module `Labels`): label vectors as partitions. It defines root
  labelling, merging one cluster into another (`Rename`), the dense renumbering in
  order of first appearance (`Renumber`), and their lemmas.
- `slink.dfy` (module `Slink`): `slink` as imperative Dafny over arrays. It
  initialises the labels, fills the `n` by `n` distance matrix (`array2`), runs the
  closest-pair merge loop and renumbers through the 10000-entry `old_to_new` table.
  The merge loop returns a ghost `history` of the label vectors it passed through.
  `MergeRun` specifies that run round by round.
- `gui.dfy` (module `Gui`): the `load_csv` row filter, `_calculate_distance_matrix`
  and the load step of the `SLinkGUI` class, whose `points` and `labels` fields the
  methods update.
- `scenarios.dfy` (module `Scenarios`): two worked runs on points on the x axis.

Distances are an abstract metric `d: (Point, Point) -> real`. Coordinates are reals.
The code evaluates the metric only on pairs `i < j`, as `d(points[i], points[j])`.
The matrix therefore holds that value at `(i, j)` and at `(j, i)`, and 0 on the
diagonal. No symmetry or non-negativity of `d` is assumed.

Despite its name, `slink` is not Sibson's pointer-representation algorithm: there
are no `pi`/`lambda` arrays. It runs a naive agglomerative loop over a full distance
matrix. There is no threshold or target-`k` cut policy. The loop stops once at most
two clusters remain (slink.cpp:46). It stops earlier only when no pair of points in
different clusters is closer than `DBL_MAX`. Non-finite coordinates are not
rejected, and no error is raised for any input. The two worked runs are on
(0,0), (1,0), (10,0), (11,0) and on (0,0), (1,0), (2,0).

The renumbering table has 10000 entries and is indexed by label
(slink.cpp:74-82). The labels are point indices, so `n_points <= 10000` keeps every
access in bounds. For a label of 10000 or more the C++ indexes out of bounds, which
is undefined behaviour. The model reports this case as `ok == false` and leaves the
labels unspecified.

## Model

| member | source | states |
|---|---|---|
| Labels.IdentityClusters | slink.cpp:27-29 | the initial labels `0..n-1` are root-labelled and form exactly `n` clusters |
| Labels.RenameMerges | slink.cpp:64-70 | renaming root `gone` to a distinct root `keep`: the result is still root-labelled and coarser, loses exactly the label `gone`, and has one cluster fewer |
| Labels.TwoClustersDiffer | slink.cpp:46-53 | a label vector with at least two clusters has a pair `i < j` with different labels, i.e. a candidate pair exists |
| Labels.RenumberSamePartition | slink.cpp:74-82 | renumbering keeps the length and the partition: `s[i] == s[j]` iff the renumbered labels are equal |
| Labels.RenumberValues | slink.cpp:74-82 | the renumbered labels of a vector with `c` clusters are exactly `0 .. c-1` |
| Labels.RenumberDense | slink.cpp:74-82 | renumbering keeps the cluster count; every prefix of the output uses exactly `0 .. k-1` (numbers given in order of first appearance); the first point gets 0 |
| Labels.RenumberSnoc | slink.cpp:76-82 | one renumbering step: a label seen before gets the number given at its first occurrence, a new label gets the next number (the count of labels seen so far) |
| Slink.InitLabels | slink.cpp:27-29 | the first `n` labels become `0..n-1`; the rest of the buffer is unchanged |
| Slink.BuildDistanceMatrix | slink.cpp:32-39 | a fresh `n` by `n` matrix with `d(points[i], points[j])` at `(i, j)` and `(j, i)` for `i < j`, symmetric, zero diagonal |
| Slink.FindClosestPair | slink.cpp:47-59 | returns `-1` iff no cross-cluster pair is below `DBL_MAX`; otherwise the labels of the pair `(i, j)`, `i < j`, with different labels, at minimum distance, strictly closer than every cross pair scanned before it (ties go to the first pair in row-major order) |
| Slink.RenameCluster | slink.cpp:64-68 | every label equal to `merge_b` becomes `merge_a`; every other entry is unchanged |
| Slink.MergeClusters | slink.cpp:42-71 | the loop performs a `MergeRun`: it starts from the singletons, each round starts with more than 2 clusters and merges the selected pair's clusters, and the loop ends at ≤ 2 clusters or when no candidate exists; the final vector is what the buffer holds |
| Slink.MergeStepEffect | slink.cpp:53-70 | one round keeps every label a root, makes the partition coarser and removes exactly one cluster, so `current_clusters` counts the distinct labels |
| Slink.FirstClosestUnique | slink.cpp:47-59 | the pair a round selects is unique |
| Slink.MergeStepDeterministic | slink.cpp:47-68 | a merge round is a function of the labels |
| Slink.StoppedHasNoStep | slink.cpp:46-61 | once no candidate remains, no round can merge |
| Slink.MergeRunInvariant | slink.cpp:43-70 | after `k` rounds the labels are root-labelled, so in `[0, n)`, with `n - k` clusters |
| Slink.MergeRunResult | slink.cpp:46-71 | the final labels are root-labelled with `n - rounds` clusters, at least `min(n, 2)`; every round only coarsens the partition; exactly `min(n, 2)` clusters when every distance is below `DBL_MAX` |
| Slink.MergeRunUnique | slink.cpp:46-71 | the merge phase is deterministic: two runs on the same input are identical |
| Slink.RelabelDense | slink.cpp:74-82 | `ok` iff every label fits the 10000-entry table; when `ok`, the labels become the dense renumbering of the old labels; the rest of the buffer is unchanged |
| Slink.Slink | slink.cpp:23-83 | `n <= 0`: nothing is written; otherwise the run is a `MergeRun`, `ok` iff every final label is below 10000 (always when `n <= 10000`), and when `ok` the labels are the dense renumbering of the merge result |
| Slink.SlinkLabels | slink.cpp:46-82 | the output labels induce the merge result's partition, are exactly `0..k-1` with point 0 labelled 0, and number at least `min(n, 2)`, exactly `min(n, 2)` when every distance is below `DBL_MAX` |
| Gui.ReadPoints | main.py:52-61 | the points are `ParsedPoints(rows)`: one per row with at least two fields whose first two fields parse, in file order |
| Gui.ParsedPointsAppend | main.py:55-61 | reading is row by row: the points of `a + b` are those of `a` followed by those of `b` |
| Gui.ParsedPointsSingle | main.py:56-61 | a single row yields its point when it is accepted, and nothing otherwise |
| Gui.ParsedPointsMembers | main.py:55-61 | a point is read iff some accepted row stands for it; no point is read iff no row is accepted |
| Gui.RowStartClosed | main.py:91-96 | the first entry of row `i` sits at `i*n - i*(i+1)/2` |
| Gui.RowStartTotal | main.py:88-97 | all rows together hold `n*(n-1)/2` entries |
| Gui.RowsLength | main.py:91-96 | the first `m` rows fill positions `0 .. RowStart(n, m)-1` |
| Gui.RowsEntry | main.py:91-96 | the pair `(i, j)`, `i < j`, sits at `CondensedIndex(n, i, j)`, which equals `i*n - i*(i+1)/2 + (j-i-1)`, and holds `d(points[i], points[j])` |
| Gui.RowsLayout | main.py:88-97 | the whole list has `n*(n-1)/2` entries, and the pair `(i, j)` sits at its condensed index with value `d(points[i], points[j])` |
| Gui.CondensedIndexOrder | main.py:91-92 | a pair earlier in row-major order sits at a smaller position, so different pairs never share a position |
| Gui.SLinkGui.constructor | main.py:41-42 | `points` and `labels` start empty |
| Gui.SLinkGui.CalculateDistanceMatrix | main.py:88-97 | the list is the rows in order; it has length `n*(n-1)/2` and is empty for `n <= 1`; the entry at `CondensedIndex(n, i, j)` is `d(points[i], points[j])`; that index is `i*n - i*(i+1)/2 + (j-i-1)` by `Gui.RowsEntry` |
| Gui.SLinkGui.LoadCsv | main.py:52-78 | `points` becomes the parsed points; with none, `labels` is unchanged and the native routine is not called; otherwise `labels` has one entry per point from a merge run, is the dense renumbering of its result when `n <= 10000`, and the condensed list is computed |
| Scenarios.TwoPairsRun | slink.cpp:46-82 | for (0,0), (1,0), (10,0), (11,0) the loop merges (0,1) and then (2,3), and the output labels are 0, 0, 1, 1 |
| Scenarios.ThreeInLineRun | slink.cpp:46-82 | for (0,0), (1,0), (2,0) one round merges (0,1), the first of two tied pairs, and the output labels are 0, 0, 1 |

## Left out

- `euclidean_distance` (slink.cpp:15-19) and `** 0.5` (main.py:95) are not modelled as double arithmetic. Both become the abstract metric `d`, so `sqrt`, rounding, NaN and infinity are out of scope. `DBL_MAX` is kept as its exact real value.
- Coordinates are reals, not doubles. `float()` (main.py:58) is an abstract partial parser: `None` stands for `ValueError`.
- Slink.Slink: when a final label is 10000 or more, the C++ indexes `old_to_new` out of bounds (undefined behaviour). The model returns `ok == false` in that case and says nothing about the labels.
- Slink.RelabelDense: on an out-of-range label it stops at that point with `ok == false`. Its contract then leaves the label contents unspecified, because the source's behaviour there is undefined.
- Gui.SLinkGui.LoadCsv: for more than 10000 points it guarantees only one label per point, for the same reason.
- `int` is unbounded in the model. Every label, table entry, `new_id` and loop counter stays within `[-1, n]`, so no 32-bit overflow can occur for any `n` that fits a C `int`.
- The conversion of `n` to `c_int` at main.py:74 is not modelled. ctypes does not check for overflow, so a list longer than `INT_MAX` would reach `slink` with a wrapped `n_points`. The model passes `n` unchanged.
- `next_cluster_id` (slink.cpp:42) is never used.
- The fourth, unnamed `int` parameter of `slink` (slink.cpp:23) is never passed (main.py:45, main.py:74).
- The ctypes/DLL loading, the `Point` interop struct (main.py:15-17, main.py:44-45) and slink_interface.py only marshal arrays. slink_interface.py is not part of this model.
- The array `(c_int * n)()` is modelled as a fresh zeroed `array<int>`.
- The file dialog, file opening and CSV tokenising are I/O; rows arrive as sequences of fields. The status text and `log(...)` of the empty-file branch (main.py:66-67) are presentation. `log` is not defined in main.py, so that branch raises `NameError`. This happens after `self.points` has been updated and before anything else, so the modelled state is the same. The exception is not caught: it escapes `load_csv`, the slot connected at main.py:32, and under PyQt5 without an excepthook it ends the application.
- For a single point the condensed list is empty, and `linkage([])` (main.py:79) raises. This happens after `self.labels` has been set, so again the modelled state is the same. The exception escapes the slot in the same way. Exceptions are not modelled.
- `linkage`, `dendrogram`, `show_scatter` and other plotting (main.py:79-123) are presentation. `LoadCsv` returns the condensed list it would pass to `linkage`.
