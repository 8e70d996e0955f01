# KD-tree, radius and nearest edges, edge union and sort

This project models the CPU-side spatial index of the gomlx `gnn` package and the
edge lists built with it.

- **The KD-tree** (`geometry/kdtree.go`). `NewKDTree` checks its arguments. It copies the
  caller's flat point buffer and starts `Order` as the identity. `buildNode` then builds
  each node recursively over a position range `[start, end)`:
  - it computes the tight bounding box of the range;
  - it picks the lowest-index axis of widest extent;
  - it sorts the range along that axis, moving the points and `Order` together through
    two temporary buffers;
  - it takes the value at the median position as the split value, and scans back over
    the positions that tie with it;
  - it builds the left child over the values below the split and the right child over
    the rest.

  A node stays a leaf in three cases: it is small enough, all of its points coincide,
  or the scan-back reaches the start of the range.
- **The radius query** (`geometry/radiusedges.go`). It descends a tree built over the
  source points, carrying a working list of target points.
  - At each node it drops the targets whose squared distance to the node's box exceeds
    radius².
  - At a leaf it compares every remaining target with every source point, and appends
    each pair within the radius, in the caller's numbering.
  - `RadiusEdgesConfig.Done` validates the two point tensors and packs the pairs into a
    `[2, numEdges]` Int32 tensor. Finding no pair is an error.
- **The nearest query** (`geometry/nearestedges.go`). It does a branch-and-bound descent
  over a tree built over the target points.
  - A running best match (`nearestBestMatch`) is updated in place, and only on a strict
    improvement.
  - The child on the point's side of the split is searched first. The other child is
    searched only when the splitting plane is closer than the best found so far.
  - `NearestEdgesConfig.Done` returns one edge per source point.
- **Edge post-processing** (`graph/unionedges.go`). `checkEdges` accepts only `[2, n]`
  Int32 tensors. `UnionEdges` merges several edge tensors into one holding each distinct
  edge once. `SortEdgesBySource` sorts one edge tensor in place by (source, target),
  using `Len`, `Less` and `Swap`.

How the model represents these:

- Points are rows (`seq<real>`). The tree keeps them in an `array<seq<real>>` and keeps
  `order` in an `array<int>`; construction rearranges both in place.
- Tree nodes are a datatype, `Leaf | Internal`.
- The growing edge lists of the radius query are threaded through as sequences.
- The nearest query's best match is an object whose fields the search updates.
- Flat caller buffers are converted once, with `Points.Rows`. Lemmas tie them back:
  `Points.RowsAt` and `Points.FlattenRows`.

Each imperative operation is proved against a specification function:

- the tree's structural invariant `NodeValid`, including median splits;
- the edges a radius search appends below a node, `NodeEdges`;
- the unpruned near-first traversal, `Visit`;
- the set of input edges, `EdgeSet`;
- the edge list of a flat buffer, `EdgeList`.

The lemmas beside them prove what these functions promise:

- the radius edges are exactly the pairs within the radius, and none is repeated;
- the pruned nearest search finds a true nearest point;
- the union is the set of input edges;
- the sort yields the unique sorted arrangement of the same edges.

Modules: `Tensors` (values, edges, tensors, errors), `Points` (rows and squared
distances), `KDTrees`, `RadiusEdges`, `NearestEdges` and `Graph`.

## Model

| member | source | states |
|---|---|---|
| Tensors.EdgeTensorOf | geometry/radiusedges.go:100-104 | Copying the source indices, then the target indices, into a [2, n] Int32 tensor gives an edge tensor whose edge k is (sources[k], targets[k]) |
| Tensors.ZipAppend | geometry/radiusedges.go:154-155 | Appending one entry to each index list appends exactly one edge to the pairs they hold |
| Points.Rows | geometry/kdtree.go:105 | A flat buffer holds len/dimension points, each of `dimension` coordinates; a trailing partial row is not a point |
| Points.RowsAt | geometry/radiusedges.go:129 | Row i is the flat slice [i*D, (i+1)*D) that the source indexes |
| Points.FlattenRows | geometry/kdtree.go:117 | For a buffer whose length is a multiple of the dimension, splitting into rows and laying them out again gives the buffer back |
| Points.Dist2 | geometry/radiusedges.go:168-175 | The squared distance is never negative |
| Points.L2Dist2 | geometry/radiusedges.go:168-175 | The accumulating loop computes the squared Euclidean distance Dist2 |
| Points.Dist2Symmetric | geometry/radiusedges.go:168-175 | l2Dist2(a, b) == l2Dist2(b, a); the two queries call it with the arguments in opposite orders |
| Points.BoxDist2LowerBound | geometry/radiusedges.go:181-202 | The squared distance from p to its clamp into a box is at most the squared distance from p to any point of the box |
| Points.BoxDist2AxisGap | geometry/radiusedges.go:185-195 | A gap wider than r on a single axis puts p more than r² from the whole box (the early exit is sound) |
| KDTrees.KDTreeNode.IsLeaf | geometry/kdtree.go:74-77 | A node is a leaf exactly when it has no children, only a box and a range |
| KDTrees.KDTree.NumPointsForNode | geometry/kdtree.go:69-72 | The node's range is [StartIdx, StartIdx + NumPointsForNode) |
| KDTrees.NodeSizes | geometry/kdtree.go:69-77 | On a built node, NumPointsForNode is at least 1. A node that is not IsLeaf holds more than minPointsPerLeaf points, split between two non-empty children with the left one at most half. A leaf over the limit has a flat box or ties at the median |
| KDTrees.ValidIsShaped | geometry/kdtree.go:41-66 | A valid node's box has the tree's dimension, its split axis is an axis, and its children split its range into two contiguous parts |
| KDTrees.Iota | geometry/kdtree.go:110-114 | The identity ordering: entry i is i |
| KDTrees.PermutationFacts | geometry/kdtree.go:31-35 | A permutation of [0, n) holds every value of [0, n) exactly once |
| KDTrees.ReorderKeepsPlacement | geometry/kdtree.go:184-200 | Reordering a range by a permutation keeps every row with its Order entry, keeps Order a permutation, keeps every row of the dimension, and only rearranges the range |
| KDTrees.CountUnderPermutation | geometry/kdtree.go:184-200 | Rearranging rows does not change how many of them lie below (or at or below) a value on an axis |
| KDTrees.SortedMedianCount | geometry/kdtree.go:203-207 | In a range sorted on the axis, more than half of the positions hold a value at or below the value at the median position start + n/2 |
| KDTrees.SortedPosition | geometry/kdtree.go:203-207 | In a sorted arrangement, position k holds v whenever fewer than k+1 rows are below v and more than k are at or below it |
| KDTrees.SplitCounts | geometry/kdtree.go:203-216 | In a valid internal node, exactly the left child's rows are below the split value, and more than half of the range is at or below it |
| KDTrees.SplitIsMedian | geometry/kdtree.go:80-81 | The split value of every valid internal node is its range's median on the split axis: any sorted arrangement of its rows holds the split value at position n/2 |
| KDTrees.TightBoxOfSlice | geometry/kdtree.go:140 | The box computed over the slice Points[start:end] is the tight box of positions [start, end) |
| KDTrees.TightBoxRearranged | geometry/kdtree.go:173-200 | Sorting a range keeps its tight box |
| KDTrees.NodeValidFrame | geometry/kdtree.go:223-232 | A node's validity depends only on the rows of its range, so building the right child keeps the left child valid |
| KDTrees.ValidSearchable | geometry/kdtree.go:207-216 | Every internal node of a valid tree has its left rows below the split value and its right rows at or above it |
| KDTrees.ChildBoxesSeparated | geometry/kdtree_test.go:91-94 | In an internal node, Left.Max[axis] < SplitValue == Right.Min[axis] |
| KDTrees.IdenticalPointsMakeLeaf | geometry/kdtree.go:165-169 | A range whose points are all the same point is a leaf |
| KDTrees.FlatAxisNeverSplit | geometry/kdtree.go:154-163 | An axis on which all points of a node agree is never its split axis |
| KDTrees.CalculateBoundingBox | geometry/kdtree.go:238-266 | Returns zero boxes for no points; otherwise each axis's min and max bound every point and are attained |
| KDTrees.WidenBox | geometry/kdtree.go:255-263 | One pass of the inner loop widens every axis's bounds to cover point i and keeps them attained |
| KDTrees.LargestRangeAxis | geometry/kdtree.go:154-163 | Returns the lowest-index axis of largest max - min, and that range |
| KDTrees.SortedIndices | geometry/kdtree.go:174-182 | The index list is a permutation of [0, n), ordered by the rows' value on the axis |
| KDTrees.InsertLast | geometry/kdtree.go:178-182 | One insertion step keeps the entries (as a multiset) and extends the sorted prefix by one |
| KDTrees.KDTree.constructor | geometry/kdtree.go:116-121 | The tree holds the copied points, the point count, the dimension and the order it is given |
| KDTrees.KDTree.SortRangeByAxis | geometry/kdtree.go:173-200 | The range ends up sorted on the axis; rows and Order entries move together; nothing outside the range changes |
| KDTrees.KDTree.ReorderRange | geometry/kdtree.go:184-200 | Position start+k receives the row and Order entry found at start+order[k]; nothing else changes |
| KDTrees.KDTree.GatherRange | geometry/kdtree.go:185-196 | tempPoints[k] and tempOrder[k] are the row and Order entry at start+order[k] |
| KDTrees.KDTree.CopyBack | geometry/kdtree.go:198-200 | The temporaries are copied over [start, start+n) and nothing else changes |
| KDTrees.KDTree.PartitionAtMedian | geometry/kdtree.go:173-216 | The range ends up sorted on the axis, and SplitValue is the value at the median position start + n/2, so more than half of the range is at or below it. After the scan-back the cut lies between start and the median position. Values left of the cut are < SplitValue, values right of it are >= SplitValue, and SplitValue is at the cut. When the cut reaches start, every position up to the median ties |
| KDTrees.KDTree.BuildRoot | geometry/kdtree.go:128 | The root built over all positions makes the tree Valid: every internal node splits at the median value of its range on its widest axis (SplitIsMedian) |
| KDTrees.KDTree.BuildNode | geometry/kdtree.go:136-151 | Returns a valid node over [start, end), so every internal node in it splits at the median value of its range (SplitIsMedian). Only that range of Points and Order is rearranged, and each row keeps its Order entry |
| KDTrees.KDTree.SplitNode | geometry/kdtree.go:153-233 | Past the leaf-size test: a leaf when the widest range is 0 or the scan-back reaches start, otherwise a valid internal node split at the median value on the widest axis |
| KDTrees.KDTree.BuildInternal | geometry/kdtree.go:223-233 | With both children built, the node recording the split is valid over the final rows; the median count of the split value survives the children's rearrangements |
| KDTrees.KDTree.BuildChildren | geometry/kdtree.go:225-232 | The left child is valid over [start, mid) and the right child over [mid, end); each half is only rearranged within itself |
| KDTrees.LeafNodeValid | geometry/kdtree.go:148-151 | A leaf with a tight box is valid when it is small enough, flat, or tied at the median |
| KDTrees.ZeroRangeIsFlat | geometry/kdtree.go:165-169 | A widest range of 0 means every axis has min == max |
| KDTrees.DegenerateLeaf | geometry/kdtree.go:214-221 | When the scan-back reaches start, every position up to the median holds the minimum on the split axis |
| KDTrees.InternalNodeValid | geometry/kdtree.go:203-233 | The split and the two valid children make a valid internal node over the final rows, with more than half of the range still at or below the split value |
| KDTrees.ChildrenRearranged | geometry/kdtree.go:225-232 | Building the left child and then the right child rearranges each half, and nothing outside [start, end) |
| KDTrees.NewKDTree | geometry/kdtree.go:80-131 | One error per failed check, in the Go code's order. Success exactly when all checks pass; the new tree is Valid (widest-axis median splits, SplitIsMedian), and its input rows lay out back to the caller's buffer |
| KDTrees.BuildTree | geometry/kdtree.go:105-130 | At least one point. The copied rows and the identity Order are built into a Valid tree over the caller's rows, split at medians |
| KDTrees.InitialStorage | geometry/kdtree.go:110-121 | The stored rows are the caller's rows in their order, and Order is the identity |
| KDTrees.ReconstructPoints | geometry/kdtree_test.go:154-166 | Writing each stored row back to position Order[i] rebuilds the caller's buffer exactly |
| RadiusEdges.BoxAcceptsExact | geometry/radiusedges.go:181-202 | For radius >= 0 and radius2 = radius², the box test accepts exactly the points within radius of the box; the early exits never change the answer |
| RadiusEdges.RadiusIntersectWithBoundingBox | geometry/radiusedges.go:181-202 | The loop answers: no axis is more than radius outside the box, and the clamp is within radius2 |
| RadiusEdges.FilterSource | geometry/radiusedges.go:125-134 | Every kept target is an input target that passes the box test, still paired with its own index |
| RadiusEdges.FilterKeeps | geometry/radiusedges.go:125-134 | Every input target that passes the box test is kept, with its own index |
| RadiusEdges.FilterAll | geometry/radiusedges.go:139-144 | When every target passes, the kept lists equal the input lists, so reusing the unfiltered lists changes nothing |
| RadiusEdges.FilterIndices | geometry/radiusedges.go:126-134 | The kept indices are input indices, and stay distinct when they were |
| RadiusEdges.FilterTargets | geometry/radiusedges.go:125-134 | The filtering loop keeps the passing targets in their original order, each with its index |
| RadiusEdges.NodeEdgesInternal | geometry/radiusedges.go:162-165 | Below a kept internal node, the edges are the left child's edges followed by the right child's |
| RadiusEdges.NodeEdgesLeaf | geometry/radiusedges.go:146-159 | Below a kept leaf, the edges are the brute-force pairs with the kept targets |
| RadiusEdges.RowEdgesSource | geometry/radiusedges.go:149-157 | Every edge of one source row joins it to a target within radius2 |
| RadiusEdges.RowEdgesComplete | geometry/radiusedges.go:149-157 | Every target within radius2 of the source row gives an edge |
| RadiusEdges.RowEdgesNoDuplicates | geometry/radiusedges.go:149-157 | One source row meets each distinct target index once |
| RadiusEdges.LeafEdgesSource | geometry/radiusedges.go:148-158 | Every leaf edge is (Order[i], idx[j]) for a position i of the leaf and a target j within radius2 |
| RadiusEdges.LeafEdgesComplete | geometry/radiusedges.go:148-158 | Every pair of a leaf position and a target within radius2 is reported |
| RadiusEdges.LeafEdgesNoDuplicates | geometry/radiusedges.go:148-158 | A leaf reports no pair twice when Order and the target indices are distinct |
| RadiusEdges.NodeEdgesSource | geometry/radiusedges.go:122-165 | Soundness: every edge below a node joins a position of its range and a target within radius2 |
| RadiusEdges.NodeEdgesComplete | geometry/radiusedges.go:122-165 | Completeness, for radius >= 0: every pair within radius2 of a position of a valid node's range is reported, because the node's box holds the point |
| RadiusEdges.NodeEdgesExact | geometry/radiusedges.go:122-165 | An edge is reported below a valid node if and only if it is a pair within radius2 |
| RadiusEdges.NodeEdgesNoDuplicates | geometry/radiusedges.go:122-165 | No pair is reported twice: leaf ranges are disjoint, and each leaf meets each kept target once |
| RadiusEdges.TreeEdgesExact | geometry/radiusedges.go:108-120 | From the root, with targets numbered 0, 1, ...: every edge is a pair within radius2 in the caller's numbering; for radius >= 0 every such pair is reported; no edge repeats |
| RadiusEdges.SearchRow | geometry/radiusedges.go:149-157 | The inner loop appends exactly the row's edges to both lists |
| RadiusEdges.SearchLeaf | geometry/radiusedges.go:147-159 | The double loop appends exactly the leaf's edges, source points outermost |
| RadiusEdges.RadiusEdgesRecursive | geometry/radiusedges.go:122-166 | The two lists stay the same length, and the edges they hold gain exactly the edges below the node, NodeEdges, appended after the earlier ones |
| RadiusEdges.SearchChildren | geometry/radiusedges.go:162-165 | Searching the left child and then the right child appends their edges in that order |
| RadiusEdges.RadiusSearch | geometry/radiusedges.go:113-119 | Over a valid tree, the lists have equal length; their pairs are within radius² of each other, all of them when radius >= 0, with no pair twice |
| RadiusEdges.RadiusEdgesImpl | geometry/radiusedges.go:108-120 | Tree errors are reported. On success the pairs are exactly the source/target pairs within radius (complete when radius >= 0), with no duplicates |
| RadiusEdges.RadiusEdgesDone | geometry/radiusedges.go:52-106 | Rank, dimension and dtype errors, in order. A negative radius is rejected (corrected, see Findings). NoEdgesFound exactly when no pair is within the radius. Otherwise an Int32 [2, n] tensor whose edges are exactly the pairs within the radius, once each |
| RadiusEdges.EdgesFoundIffPair | geometry/radiusedges.go:97-99 | A sound and complete edge list is empty exactly when no pair is within the radius |
| RadiusEdges.NegativeRadiusLosesPair | geometry/radiusedges.go:181-202 | As written, with radius -1 a pair at squared distance 0.25 <= (-1)² is lost, because the early exit compares a gap with the negative radius |
| RadiusEdges.NegativeRadiusExtraEdges | geometry/radiusedges.go:146-159 | As written, with radius -1 two pairs at squared distance 0.25 are reported, although no distance is below a negative radius |
| NearestEdges.ScanLeafMinimises | geometry/nearestedges.go:153-161 | After a leaf scan the best never got worse, bounds every point of the leaf, and is either unchanged or a point of the leaf with its own distance |
| NearestEdges.ScanLeafFirstWins | geometry/nearestedges.go:156-159 | With strict improvement, a replaced best is strictly closer than every earlier position, so ties go to the first visited |
| NearestEdges.VisitMinimises | geometry/nearestedges.go:147-184 | The unpruned near-first traversal bounds every point of the subtree, by a point of it unless nothing improved |
| NearestEdges.ScanLeafUnchanged | geometry/nearestedges.go:153-161 | A best already at most every leaf distance survives the scan |
| NearestEdges.VisitUnchanged | geometry/nearestedges.go:147-184 | A best already at most every distance of a subtree survives its traversal |
| NearestEdges.PlaneBound | geometry/nearestedges.go:176-181 | A point on the other side of the plane is at least (p[axis] - SplitValue)² away |
| NearestEdges.FarChildBound | geometry/nearestedges.go:176-181 | Every point of the far child is at least distToSplit2 away |
| NearestEdges.InternalVisit | geometry/nearestedges.go:164-183 | The children of a searchable node are searchable; the traversal is the near child then the far child |
| NearestEdges.PruneFarChild | geometry/nearestedges.go:178-183 | When best.dist2 <= distToSplit2, skipping the far child gives the same best as searching it |
| NearestEdges.NearestBestMatch.constructor | geometry/nearestedges.go:134-137 | The best match starts with the given index and bound |
| NearestEdges.ScanLeafInPlace | geometry/nearestedges.go:153-161 | The leaf loop leaves in `best` the result of ScanLeaf |
| NearestEdges.FindNearestRecursive | geometry/nearestedges.go:147-184 | The pruned search updates `best` in place to exactly the best of the unpruned near-first traversal |
| NearestEdges.FindNearest | geometry/nearestedges.go:133-140 | Starting from no bound and index -1, the Order entry of the best is the caller's index of a nearest target point |
| NearestEdges.NearestForEach | geometry/nearestedges.go:117-126 | One edge per source point: edgesSource[i] == i and edgesTarget[i] is a nearest target |
| NearestEdges.NearestEdgesImpl | geometry/nearestedges.go:110-129 | Tree errors are reported. On success, one edge per source point, i to a nearest target |
| NearestEdges.NearestEdgesDone | geometry/nearestedges.go:45-108 | Empty input, rank, dimension and dtype errors, in order; success exactly when all checks pass. Then an Int32 [2, numSourcePoints] tensor whose edge k joins source k to a nearest target |
| Graph.CheckEdges | graph/unionedges.go:12-20 | Only the shape error or the dtype error is returned; the dtype error only for a [2, n] shape |
| Graph.CheckEdgesExact | graph/unionedges.go:12-20 | A tensor passes exactly when it is an Int32 [2, n] tensor; the shape error exactly when the shape is not [2, n] |
| Graph.EdgeSetMembers | graph/unionedges.go:39-59 | The collected set holds an edge if and only if it occurs in some input that is not skipped |
| Graph.DistinctCount | graph/unionedges.go:66-76 | A duplicate-free list has as many edges as its set |
| Graph.CollectEdges | graph/unionedges.go:42-59 | Nil and empty inputs are skipped. The first rejected input's error is returned. Otherwise the set of all input edges |
| Graph.AddEdges | graph/unionedges.go:51-58 | The map gains exactly the edges of one input |
| Graph.EdgeSetTensor | graph/unionedges.go:61-77 | An empty set gives an Int32 [2, 0] tensor. Otherwise each distinct input edge appears exactly once, and no other edge |
| Graph.OutputTensor | graph/unionedges.go:65-76 | The output has one column per set element, holds each element once, and holds nothing else, in any enumeration order |
| Graph.PutEdge | graph/unionedges.go:71-74 | Writing source and target at column edgeIdx appends that edge to what the buffer holds |
| Graph.UnionEdges | graph/unionedges.go:28-78 | No inputs is an error. A rejected input gives the first rejection. Otherwise an edge tensor holding each distinct input edge exactly once, with width the number of distinct edges |
| Graph.Len | graph/unionedges.go:95 | Len is half the flat length, rounded down |
| Graph.EdgeList | graph/unionedges.go:95-104 | Edge k of the buffer is (flat[k], flat[Len + k]) |
| Graph.EdgeListOf | graph/unionedges.go:95-104 | For an edge tensor, the edges Len/Less/Swap see are the tensor's edges |
| Graph.EdgeBeforeTotal | graph/unionedges.go:96-104 | The (source, target) order is irreflexive, and of two different edges exactly one comes first |
| Graph.Less | graph/unionedges.go:96-104 | Less(i, j) is true exactly when edge i is before edge j by source, then by target |
| Graph.SwapEdges | graph/unionedges.go:105-109 | The four writes exchange edges i and j, both entries of each together, and nothing else |
| Graph.Swap | graph/unionedges.go:105-109 | In place: edges i and j are exchanged, and an odd trailing entry stays |
| Graph.SwapPermutes | graph/unionedges.go:105-109 | A swap keeps the multiset of edges |
| Graph.SortFlat | graph/unionedges.go:87-89 | The edges end up in non-decreasing (source, target) order, with the same multiset |
| Graph.InsertEdge | graph/unionedges.go:88 | One insertion extends the sorted prefix by one edge and keeps the multiset |
| Graph.SortEdgesBySource | graph/unionedges.go:82-91 | A rejected tensor is returned with its error and left unchanged. Otherwise the edges are sorted and are a permutation of the original ones |
| Graph.SortedUnique | graph/unionedges.go:82-91 | Two sorted arrangements of the same edges are equal, so the sorted result does not depend on the sort algorithm |

## Left out

- Floating point is modelled as real arithmetic: no rounding, NaN or infinity. Only the Float32/Float64 dtype tag is kept, as a value that must match.
- The `math.MaxFloat32` / `math.MaxFloat64` initial bound of the nearest search is `None`, a bound larger than any distance. The unused `maxValue` parameter therefore disappears from the nearest functions.
- The `float32(c.radius)` conversion of the Float32 path is not modelled; the radius is one real.
- The `int32` conversions of indices and counts are not modelled; all indices are unbounded integers. Wrap-around beyond 2^31 points is not captured.
- Points are stored one row per point (`array<seq<real>>`), not as one flat `[]T`. The `i*D` offset arithmetic is proved once, in `Points.RowsAt`, and not at each access. Row copies replace the block `copy` calls.
- The tensor plumbing (`ConstFlatData`, `MutableFlatData`, `FromShape`, `shapes.Make`, the dtype switch) is replaced by a `Tensor` value of dtype tag, shape and flat data. A nil tensor is `None`, and only in `UnionEdges`'s inputs.
- The `NearestEdgesConfig` / `RadiusEdgesConfig` builder objects are left out. Their `Done` methods take the tensors and the radius as arguments.
- `sort.Slice` in `buildNode` and `sort.Sort` in `SortEdgesBySource` are the library's unstable sorts. They are modelled by insertion sorts through the same comparison and swaps, and specified by sortedness plus permutation. `Graph.SortedUnique` shows that the sorted edge list does not depend on the algorithm. For the KD-tree, a different library order among equal values could give different but equally valid trees.
- The map iteration order of `UnionEdges` is unspecified. The model picks an arbitrary element with `:|`, and the contract holds for every order.
- A leaf created in the degenerate tie case keeps the `SplitAxis` and `SplitValue` the Go code wrote before giving up. The model's `Leaf` has no such fields; the queries never read them on a leaf.
- The `numPoints == 0` branch of `NewKDTree` cannot be reached after the argument checks; `KDTrees.BuildTree` asserts that.
- Likewise, the `target.Shape().Dimensions[0] == 0` check of the nearest `Done` is unreachable: an empty target has already failed the size check. The model has no separate branch for it.
- The `node == nil` guard of `findNearestRecursive` is not modelled: a built internal node always has both children (`KDTrees.NodeSizes`).
- `l2Dist` and `math.Sqrt` are used only by tests; the model works with squared distances.
- `String`, `stringifyNode` and the `fmt.Printf` debugging line of `NewKDTree` are output only.
- The consistency checks of both `Done` methods that the Go code's own messages call impossible are left out: edge lists of different lengths, and a wrong edge count for the nearest query. `RadiusEdges.RadiusSearch` and `NearestEdges.NearestForEach` prove the lengths equal.
- `layers/sparse.go` is not part of this model.
- The radius documentation says an edge is made when the distance is `< radius`, while the code tests `<= radius²`. The model follows the code.
- The `UnionEdges` documentation mentions sorting by source and target, but the code does not sort. The model follows the code, and sorting is `SortEdgesBySource`.
- Several loops are proved in helper methods of their own, which cite the same source lines as the operation they belong to:
  - `SearchRow`, `SearchChildren` and `RadiusSearch` in the radius query;
  - `NearestForEach` in the nearest query;
  - `GatherRange`, `CopyBack`, `SplitNode`, `BuildInternal`, `BuildChildren`, `BuildRoot`, `BuildTree`, `InitialStorage` and `WidenBox` in the KD-tree;
  - `CollectEdges`, `EdgeSetTensor`, `OutputTensor`, `PutEdge`, `AddEdges` and `InsertEdge` in the edge post-processing.
- RadiusEdges.RadiusEdgesImpl: completeness is stated only for radius >= 0. With a negative radius the search as written is not complete; see Findings.

## Findings

| source | as written | input that shows it | evidently intended | confidence | as-written member | corrected member |
|---|---|---|---|---|---|---|
| geometry/radiusedges.go:181-202 | No check rejects a negative radius. The leaf test compares against radius², which is positive, while the box test's early exit compares a gap with the radius itself | Radius -1, one source point (0, 0), target (0.5, 0): the squared distance 0.25 <= (-1)², yet the box test drops the target at the root leaf and no edge is reported. Radius -1, one-dimensional source points 0 and 1 in one leaf, target 0.5: both pairs are reported, although the documented rule is L2 < radius | A negative radius is rejected | not executed | RadiusEdges.NegativeRadiusLosesPair, RadiusEdges.NegativeRadiusExtraEdges | RadiusEdges.RadiusEdgesDone |
