# DBSCAN label resolution and cluster extraction

This project models the stage of the ArborX DBSCAN Python bindings that runs
after the neighbour search. The input is the label array the neighbour search
leaves behind: a union-find forest over the point indices. The model covers
three steps:

1. **Label resolution** (`bindings/ArborX_DBSCAN.py`). `dbscan` fills the
   labels with the identity and lets the neighbour query union them. Then
   `finalize_labels` resolves every point to its root, with opportunistic
   path compression, and counts each root's population. `mark_noise` turns
   the label of every point alone in its cluster into -1.
2. **Exclusive prefix sum** (`bindings/dbscan.py`). One scan work unit
   threads a running total, either into a second buffer or in place.
3. **Cluster extraction** (`bindings/dbscan.py`). `sortAndFilterClusters`
   works in four steps:
   - It counts the points of every root.
   - It keeps the roots whose population reaches `cluster_min_size` and
     numbers them densely in ascending root order. The map from roots to
     numbers reuses the storage of the counts.
   - It turns the surviving sizes into CSR offsets, meaning compressed
     sparse row offsets: position `k` is where cluster `k` starts in one
     shared list.
   - It scatters each point's index into its cluster's slice of that list,
     using one write cursor per cluster.

The Kokkos kernels are modelled as follows:
- Every work unit (`iota`, `finalize_labels`, `mark_noise`,
  `exclusiveScanWorkunit`, `computeClusterSizes`,
  `computeClusterOffsetWithFilter`, `computeClusterIndices`) is a Dafny
  method for one index, over `array<int>`.
- Every `parallel_for` is a sequential loop over `0..n-1` that calls the work
  unit.
- Every `parallel_scan` is one left-to-right pass with `final_pass` true.
- `pk.View` objects that the code resizes are instances of the class
  `ClusterList.View`.
- `Parameters` is a class whose setters update its fields and return the
  same object.

Each parallel loop is proved against a specification function:
- `Roots`, `FinalLabels` and `NoiseMarked` in `label_forest.dfy`;
- `ExclusiveScan` in `prefix_sum.dfy`;
- `Histogram`, `SurvivingSizes`, `DenseMap`, `Offsets`, `ClusterIds` and the
  `IsClusterList` partition predicate in `seqs.dfy` and `cluster_list.dfy`.

Lemmas then state what those functions mean.

The Python `assert`s are error results, not preconditions:
- `dbscan` returns `Err(NonPositiveEps)` or `Err(CoreMinSizeBelowTwo)`.
- `exclusivePrefixSumTwoViews` and `sortAndFilterClusters` return `ok ==
  false` and change nothing.

Files:
- `seqs.dfy` (module `Seqs`): sums, counts and histograms over integer
  sequences.
- `prefix_sum.dfy` (module `PrefixSum`): `bindings/dbscan.py` lines 55-72.
- `cluster_list.dfy` (module `ClusterList`): `bindings/dbscan.py` lines
  75-141.
- `label_forest.dfy` (module `ArborxDbscan`): `bindings/ArborX_DBSCAN.py`.

The label array is a forest in which every parent is a non-negative index no
larger than its child (`IsForest`). An "acyclic forest" is not enough:
- The traversal in `finalize_labels` only follows parents while they
  strictly decrease, so it stops early under a parent with a higher index.
- In `[2, 0, 2]`, point 1 hangs under root 2 through point 0, yet it
  resolves to 0 (`UpwardParentNotResolved`).
- The neighbour query only ever links towards smaller indices, and the code
  depends on that. The model follows the code and requires it of the
  neighbour query's result.

## Model

| member | source | states |
|---|---|---|
| ArborxDbscan.Parameters.constructor | bindings/ArborX_DBSCAN.py:8-10 | the defaults are no timer printing and the `FDBSCAN_DenseBox` implementation |
| ArborxDbscan.Parameters.SetPrintTimers | bindings/ArborX_DBSCAN.py:12-14 | sets only the timer flag; the implementation is unchanged and the same object is returned |
| ArborxDbscan.Parameters.SetImplementation | bindings/ArborX_DBSCAN.py:16-18 | sets only the implementation; the timer flag is unchanged and the same object is returned |
| ArborxDbscan.IotaAt | bindings/ArborX_DBSCAN.py:20-22 | writes `value + i` at `i` and nothing else |
| ArborxDbscan.Iota | bindings/ArborX_DBSCAN.py:60 | after the loop every `v[i] == value + i`; with value 0 the labels are the identity forest |
| ArborxDbscan.Find | bindings/ArborX_DBSCAN.py:26-32 | the traversal terminates because `vstat` strictly decreases; it stops at a node `r <= v` with `labels[r] >= r`, which is a root (`labels[r] == r`) when parents never exceed their children |
| ArborxDbscan.FindFromParent | bindings/ArborX_DBSCAN.py:26-32 | on a forest, a point and its parent have the same root |
| ArborxDbscan.FinalizeLabelAt | bindings/ArborX_DBSCAN.py:24-37 | the loop reaches the root of the point's parent; `labels[i]` is rewritten only if the root differs; exactly that root's count goes up by one |
| ArborxDbscan.CompressPreservesFind | bindings/ArborX_DBSCAN.py:34-35 | compressing one point's pointer keeps a forest and changes no point's root |
| ArborxDbscan.CompressPreservesRoots | bindings/ArborX_DBSCAN.py:34-35 | one compression leaves the roots of all points unchanged |
| ArborxDbscan.CompressAllKeepsRoots | bindings/ArborX_DBSCAN.py:34-35 | compressing any sequence of points keeps a forest and every point's root |
| ArborxDbscan.CompressAllAt | bindings/ArborX_DBSCAN.py:34-35 | after compressing a sequence of points, a listed point holds its root and any other point still holds its original parent |
| ArborxDbscan.ProcessingOrderIrrelevant | bindings/ArborX_DBSCAN.py:72 | two processing orders of the same points give the same labels |
| ArborxDbscan.RootsOfCompressed | bindings/ArborX_DBSCAN.py:34-35 | on an already compressed forest the resolved labels equal the input, so the pass leaves the labels unchanged |
| ArborxDbscan.RootsIdempotent | bindings/ArborX_DBSCAN.py:26-35 | resolved labels form a compressed forest, and resolving them again changes nothing |
| ArborxDbscan.ResolveNext | bindings/ArborX_DBSCAN.py:72 | resolving point `i` extends the resolved prefix by one point and keeps every root |
| ArborxDbscan.FinalizeLabels | bindings/ArborX_DBSCAN.py:71-72 | every label becomes its root, and each root's count rises by the number of points whose label is now that root |
| ArborxDbscan.MarkNoiseAt | bindings/ArborX_DBSCAN.py:39-42 | label `i` becomes -1 exactly when its root's count is 1; nothing else changes, and the counts are not modified |
| ArborxDbscan.MarkNoise | bindings/ArborX_DBSCAN.py:73 | every label of a single-member cluster becomes -1, every other label is kept, and the counts are not modified |
| ArborxDbscan.ResolveClusters | bindings/ArborX_DBSCAN.py:71-73 | starting from zeroed counts, resolution then noise marking turn the forest into its final labels |
| ArborxDbscan.FinalLabelsMeaning | bindings/ArborX_DBSCAN.py:37 | a returned label is -1 exactly when the point's root has one point, and otherwise it is the point's root; the root populations sum to `n` |
| ArborxDbscan.NoQueryAllNoise | bindings/ArborX_DBSCAN.py:62-69 | without the neighbour query the labels stay the identity, every cluster has one point, and every returned label is -1 |
| ArborxDbscan.UpwardParentNotResolved | bindings/ArborX_DBSCAN.py:30-32 | the traversal does not reach the root of an acyclic label array whose parent pointers go upward (`[2, 0, 2]`) |
| ArborxDbscan.Dbscan | bindings/ArborX_DBSCAN.py:50-75 | rejects `eps <= 0`, then `core_min_size < 2`; otherwise returns a fresh array holding the final labels of the neighbour forest when the query runs (`FDBSCAN` with `core_min_size == 2`), and of the identity otherwise |
| PrefixSum.ExclusiveScanRecurrence | bindings/dbscan.py:56-60 | the scan starts at 0, each position adds the preceding element, and the last position plus the last element is the total |
| PrefixSum.ExclusiveScanExample | bindings/dbscan.py:63-68 | the scan of `[3, 1, 4, 1, 5]` is `[0, 3, 4, 8, 9]` and the total is 14 |
| PrefixSum.ExclusiveScanWorkunit | bindings/dbscan.py:55-60 | returns the accumulator advanced by the input read at `i`; on the final pass it writes the old accumulator at `i` and nothing else |
| PrefixSum.ExclusiveScanPass | bindings/dbscan.py:67-68 | the output is the exclusive scan of the input and the returned accumulator is the input's sum; a separate input buffer is left unchanged |
| PrefixSum.ExclusivePrefixSumTwoViews | bindings/dbscan.py:63-68 | succeeds exactly when the lengths are equal and then writes the exclusive scan; otherwise the output is unchanged |
| PrefixSum.ExclusivePrefixSum | bindings/dbscan.py:71-72 | scanning in place gives the exclusive scan of the old contents, the same result as a separate buffer |
| ClusterList.SurvivingSizes | bindings/dbscan.py:88-93 | the surviving sizes are at most as many as the roots, and each one reaches `cluster_min_size` |
| ClusterList.SurvivingSizesAppend | bindings/dbscan.py:125-128 | filtering a concatenation gives the concatenation of the filtered parts |
| ClusterList.SurvivingSizesAround | bindings/dbscan.py:125-128 | the survivors before root `r`, then `r` if it survives, then those after `r` make up all survivors |
| ClusterList.FilterStep | bindings/dbscan.py:88-96 | one more root adds its size to the survivors exactly when it reaches the minimum; its map entry is -1 or the number of survivors before it |
| ClusterList.DenseMapNumbering | bindings/dbscan.py:88-96 | a surviving root's number lies in `[0, num_clusters)`, and the survivor at that number has the root's size |
| ClusterList.DenseMapAscending | bindings/dbscan.py:88-96 | of two surviving roots, the lower one gets the lower number |
| ClusterList.DenseMapOnto | bindings/dbscan.py:88-96 | every cluster number below `num_clusters` belongs to some surviving root |
| ClusterList.ClusterIdsMeaning | bindings/dbscan.py:103-107 | a point has no cluster exactly when it is noise or its root has fewer than `cluster_min_size` points; two clustered points share a number exactly when they share a root; lower roots get lower numbers |
| ClusterList.MinSizeOneKeepsEveryCluster | bindings/dbscan.py:114-116 | with `cluster_min_size == 1` every non-noise point keeps a cluster |
| ClusterList.ClusterPopulations | bindings/dbscan.py:75-96 | the map takes values in `[-1, num_clusters)`, and cluster `k` holds exactly as many points as the `k`-th surviving size |
| ClusterList.OffsetsSteps | bindings/dbscan.py:130-131 | the offsets have one more entry than the sizes and start at 0; each step adds one size, and the last entry is the total |
| ClusterList.ScanGivesOffsets | bindings/dbscan.py:130-131 | the exclusive scan of the sizes followed by one extra entry is their offsets |
| ClusterList.StepsMonotone | bindings/dbscan.py:130-131 | offsets that never decrease from one entry to the next are ordered between any two entries |
| ClusterList.FindSlice | bindings/dbscan.py:137-141 | every slot of the index list lies in the slice of some cluster |
| ClusterList.ExtractionReady | bindings/dbscan.py:118-137 | the cluster numbers lie in `[-1, num_clusters)`; slice `k` of the offsets has room for exactly the points of cluster `k`; the index list's length is the last offset and is non-negative |
| ClusterList.SurvivorOffsets | bindings/dbscan.py:123-131 | the offsets have `num_clusters + 1` entries and start at 0; each step is the size of one surviving cluster and at least `cluster_min_size` |
| ClusterList.ClusteredPointCount | bindings/dbscan.py:209-210 | the number of listed points (the last offset) equals the number of points assigned to a surviving cluster |
| ClusterList.ThreePointSizes | bindings/dbscan.py:75-80 | the root counts of labels `[0, 0, 2]` are `[2, 0, 1]` |
| ClusterList.ThreePointExtraction | bindings/dbscan.py:111-141 | with minimum size 2, the sizes `[2, 0, 1]` give one survivor; the map is `[0, -1, -1]`, the cluster numbers are `[0, 0, -1]` and the offsets are `[0, 2]` |
| ClusterList.View.constructor | bindings/dbscan.py:119 | a new view of length `n` is zero-filled |
| ClusterList.View.Resize | bindings/dbscan.py:130 | after a resize the view has the new length, keeps its common prefix and has zeros beyond the old length |
| ClusterList.ComputeClusterSizesAt | bindings/dbscan.py:75-80 | a negative label changes nothing; otherwise only its root's count goes up by one |
| ClusterList.ComputeClusterSizes | bindings/dbscan.py:119-120 | every root's count rises by the number of points labelled with it; noise adds nothing |
| ClusterList.NewClusterSizes | bindings/dbscan.py:118-120 | a fresh count array equal to the histogram of the labels over the roots `[0, n)` |
| ClusterList.ComputeClusterOffsetWithFilter | bindings/dbscan.py:82-96 | a surviving root writes its size at the running count and the count into the map, and advances the count; a filtered root maps to -1; the size is read before the map is written |
| ClusterList.FilterAdvance | bindings/dbscan.py:125-128 | one work-unit call extends the filtering scan by one root, also when the map is the sizes array |
| ClusterList.FilterEnd | bindings/dbscan.py:125-128 | once every root is processed, the count is the number of survivors, the map is the dense numbering, and the survivors fill the front of the offsets |
| ClusterList.ComputeClusterOffsets | bindings/dbscan.py:122-128 | the scan returns the number of survivors, writes their sizes in root order at the front of the offsets, leaves the rest of the offsets untouched, and writes the dense numbering into the map, which may be the sizes array |
| ClusterList.ShrinkAndScan | bindings/dbscan.py:130-131 | shrinking to `num_clusters + 1` entries and scanning in place gives the offsets of the surviving sizes |
| ClusterList.BuildOffsets | bindings/dbscan.py:118-131 | the map (sharing the count array) is the dense numbering of the roots' populations, and the offset view holds the offsets of the surviving sizes |
| ClusterList.ComputeClusterIndicesAt | bindings/dbscan.py:98-109 | a noise point or a point of a filtered root changes nothing; otherwise the point is written at its cluster's cursor and only that cursor advances |
| ClusterList.ScatterStart | bindings/dbscan.py:134-135 | with the cursors copied from the offsets, no point is placed yet |
| ClusterList.CursorInSlice | bindings/dbscan.py:106-109 | the cursor of a clustered point's cluster lies inside that cluster's slice of the index list |
| ClusterList.CursorsStep | bindings/dbscan.py:108 | each cursor stays at its offset plus the points of its cluster seen so far, never past the next offset |
| ClusterList.ScatterSkip | bindings/dbscan.py:103-107 | an unclustered point leaves the list and the cursors as they were |
| ClusterList.SlotFree | bindings/dbscan.py:108-109 | the slot under a cursor is not yet taken by an earlier point |
| ClusterList.PlaceRecorded | bindings/dbscan.py:108-109 | after placing point `i`, every point placed so far is found in its own cluster's slice |
| ClusterList.PlaceFilled | bindings/dbscan.py:108-109 | after placing point `i`, every filled slot holds a distinct point of the slot's cluster |
| ClusterList.ScatterPlace | bindings/dbscan.py:106-109 | placing a clustered point at its cursor keeps the scatter invariant |
| ClusterList.ScatterPoint | bindings/dbscan.py:98-109 | one work-unit call extends the scatter invariant by one point |
| ClusterList.ScatterEnd | bindings/dbscan.py:138-141 | after the last point every cursor has reached the next offset, and the index list is a cluster list |
| ClusterList.ComputeClusterIndices | bindings/dbscan.py:138-141 | each cursor ends at the next cluster's offset; each list entry is a clustered point inside its cluster's slice; no point is listed twice; every clustered point is listed |
| ClusterList.ScatterIntoView | bindings/dbscan.py:133-141 | the index view gets the last offset as its length and then holds the cluster list for the given map |
| ClusterList.SortAndFilterClusters | bindings/dbscan.py:111-141 | rejects `cluster_min_size < 1` and leaves both views untouched; otherwise the offset view holds the offsets of the surviving sizes and the index view (its length the last offset) lists every point of a surviving cluster exactly once, inside that cluster's slice, with noise and filtered points nowhere |

## Left out

- `loadData` and `run` in `bindings/dbscan.py`: file I/O, argument parsing,
  printing and a floating-point percentage. Only the two counts that `run`
  reports are echoed, by `ClusterList.ClusteredPointCount` and the length
  clauses of `ClusterList.SortAndFilterClusters`.
- The BVH radius query, `CCSCorePoints` and `FDBSCANCallback`
  (`bindings/ArborX_DBSCAN.py` lines 63-69) are external C++. `Dbscan`
  takes the labels they leave behind as the parameter `neighbourForest`,
  required to be a forest whose parents never exceed their children. The
  primitives, the execution space and `PrimitivesWithRadius` are left out
  with the query; the number of points is the parameter `n`.
- bindings/ArborX_LinearBVH_pybind.cpp is not part of this model. It is
  binding glue with no logic of its own.
- src/details/ArborX_DetailsKokkosExtMathFunctions.hpp is not part of this
  model. It only selects a floating-point `isfinite`.
- Concurrency is left out: execution spaces, unified memory, atomics and the
  two-phase internals of `parallel_scan`.
  - Every parallel loop is a sequential loop in index order.
  - Every scan is one pass with `final_pass` true.
  - Order independence is proved for `finalize_labels`
    (`ProcessingOrderIrrelevant`).
  - For the counting and scattering kernels, order independence rests on
    atomic increments commuting, and the model does not state it.
- Dbscan: `eps` is a mathematical real, only compared with 0. IEEE floats
  and the query's use of the radius are not modelled.
- Dbscan: `print_timers` is stored by the builder but has no effect in the
  modelled code.
- ClusterList.View.Resize: always allocates a fresh zero-padded buffer.
  Whether Kokkos reuses storage, and any aliasing of views other than the
  count array shared with the map, are not modelled.
- ClusterList.SortAndFilterClusters: the Python default
  `cluster_min_size = 1` is not modelled. Dafny methods have no default
  arguments, so callers pass the value explicitly.
- Integers are unbounded. The source's integer width is not modelled, since
  no value exceeds the number of points.
