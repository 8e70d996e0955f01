/** The nearest query: for every source point, the target point closest to it.

    A KD-tree is built over the target points. For each source point a
    branch-and-bound descent keeps a running best match (a storage position and
    its squared distance). At a leaf every point is compared with the best and
    replaces it only when strictly closer. At an internal node the child on the
    point's side of the split is searched first; the other child is searched
    only when the squared distance to the splitting plane is below the best
    squared distance found so far. */
module NearestEdges {
  import opened Tensors
  import opened Points
  import opened KDTrees

  // ---------------------------------------------------------------------------
  // The running best match and the unpruned traversal

  /** A best match: a storage position (-1 before any) and its squared
      distance; None stands for the initial bound, larger than any distance. */
  datatype Best = Best(index: int, dist2: Option<real>)

  /** A squared distance d is a strict improvement on the bound. */
  predicate Improves(d: real, bound: Option<real>) {
    bound.None? || d < bound.value
  }

  /** The best match after comparing stored row i with the point. */
  ghost function Consider(P: seq<seq<real>>, p: seq<real>, i: nat, b: Best): Best
    requires i < |P| && |P[i]| == |p|
  {
    var d := Dist2(p, P[i]);
    if Improves(d, b.dist2) then Best(i, Some(d)) else b
  }

  /** The best match after comparing the rows of [s, e) with the point, in increasing position order. */
  ghost function ScanLeaf(P: seq<seq<real>>, s: nat, e: nat, p: seq<real>, b: Best): Best
    requires s <= e <= |P| && RowsIn(P, s, e, |p|)
    decreases e - s
  {
    if e == s then b else Consider(P, p, e - 1, ScanLeaf(P, s, e - 1, p, b))
  }

  /** The best match after an unpruned traversal of the subtree: leaves in
      order, the child on the point's side of the split before the other one. */
  ghost function Visit(node: KDTreeNode, P: seq<seq<real>>, p: seq<real>, b: Best): Best
    requires Shaped(node, |P|, |p|) && RowsIn(P, 0, |P|, |p|)
    decreases node
  {
    match node
    case Leaf(_, _, s, e) => ScanLeaf(P, s, e, p, b)
    case Internal(_, _, _, _, axis, sv, left, right) =>
      if p[axis] < sv then Visit(right, P, p, Visit(left, P, p, b))
      else Visit(left, P, p, Visit(right, P, p, b))
  }

  // ---------------------------------------------------------------------------
  // What the traversal finds

  /** The bound of b' is at least as tight as the bound of b. */
  ghost predicate NoWorse(b': Best, b: Best) {
    b.dist2.Some? ==> b'.dist2.Some? && b'.dist2.value <= b.dist2.value
  }

  /** b' bounds every row of [s, e): its distance is at most theirs. */
  ghost predicate BoundsRange(b': Best, P: seq<seq<real>>, s: nat, e: nat, p: seq<real>)
    requires e <= |P|
  {
    forall i :: s <= i < e ==> |P[i]| == |p| && b'.dist2.Some? && b'.dist2.value <= Dist2(p, P[i])
  }

  /** b' is b unchanged, or a row of [s, e) with its own squared distance. */
  ghost predicate FromRangeOr(b': Best, b: Best, P: seq<seq<real>>, s: nat, e: nat, p: seq<real>)
    requires e <= |P| && RowsIn(P, s, e, |p|)
  {
    b' == b || (s <= b'.index < e && b'.dist2 == Some(Dist2(p, P[b'.index])))
  }

  lemma {:induction false} ScanLeafMinimises(P: seq<seq<real>>, s: nat, e: nat, p: seq<real>, b: Best)
    requires s <= e <= |P| && RowsIn(P, s, e, |p|)
    ensures NoWorse(ScanLeaf(P, s, e, p, b), b)
    ensures BoundsRange(ScanLeaf(P, s, e, p, b), P, s, e, p)
    ensures FromRangeOr(ScanLeaf(P, s, e, p, b), b, P, s, e, p)
    decreases e - s
  {
    if e > s {
      ScanLeafMinimises(P, s, e - 1, p, b);
    }
  }

  /** Ties go to the first: when a scan replaces the best match, the new match
      is strictly closer than every position before it in the scan. */
  lemma {:induction false} ScanLeafFirstWins(P: seq<seq<real>>, s: nat, e: nat, p: seq<real>, b: Best)
    requires s <= e <= |P| && RowsIn(P, s, e, |p|)
    ensures var r := ScanLeaf(P, s, e, p, b);
      r != b ==>
        && s <= r.index < e && r.dist2.Some?
        && forall k :: s <= k < r.index ==> r.dist2.value < Dist2(p, P[k])
    decreases e - s
  {
    if e > s {
      var r' := ScanLeaf(P, s, e - 1, p, b);
      ScanLeafFirstWins(P, s, e - 1, p, b);
      ScanLeafMinimises(P, s, e - 1, p, b);
      if ScanLeaf(P, s, e, p, b) != r' {
        forall k | s <= k < e - 1 ensures Dist2(p, P[e - 1]) < Dist2(p, P[k]) {
          assert r'.dist2.value <= Dist2(p, P[k]);
        }
      }
    }
  }

  /** The unpruned traversal ends with a bound no worse than where it started,
      at most the distance of every row of the subtree, and attained by one of
      them unless nothing improved on the start. */
  lemma {:induction false} VisitMinimises(node: KDTreeNode, P: seq<seq<real>>, p: seq<real>, b: Best)
    requires Shaped(node, |P|, |p|) && RowsIn(P, 0, |P|, |p|)
    ensures NoWorse(Visit(node, P, p, b), b)
    ensures BoundsRange(Visit(node, P, p, b), P, node.startIdx, node.endIdx, p)
    ensures FromRangeOr(Visit(node, P, p, b), b, P, node.startIdx, node.endIdx, p)
    decreases node
  {
    match node {
      case Leaf(_, _, s, e) =>
        ScanLeafMinimises(P, s, e, p, b);
      case Internal(_, _, _, _, axis, sv, left, right) =>
        var (first, second) := if p[axis] < sv then (left, right) else (right, left);
        var b1 := Visit(first, P, p, b);
        VisitMinimises(first, P, p, b);
        VisitMinimises(second, P, p, b1);
    }
  }

  // ---------------------------------------------------------------------------
  // Pruning

  /** A bound already at most the distance of every row of [s, e) survives a scan of them. */
  lemma {:induction false} ScanLeafUnchanged(P: seq<seq<real>>, s: nat, e: nat, p: seq<real>, b: Best)
    requires s <= e <= |P| && RowsIn(P, s, e, |p|)
    requires BoundsRange(b, P, s, e, p)
    ensures ScanLeaf(P, s, e, p, b) == b
    decreases e - s
  {
    if e > s {
      assert RowsIn(P, s, e - 1, |p|);
      assert BoundsRange(b, P, s, e - 1, p);
      ScanLeafUnchanged(P, s, e - 1, p, b);
    }
  }

  /** A bound already at most the distance of every row of a subtree survives its traversal. */
  lemma {:induction false} VisitUnchanged(node: KDTreeNode, P: seq<seq<real>>, p: seq<real>, b: Best)
    requires Shaped(node, |P|, |p|) && RowsIn(P, 0, |P|, |p|)
    requires BoundsRange(b, P, node.startIdx, node.endIdx, p)
    ensures Visit(node, P, p, b) == b
    decreases node
  {
    match node {
      case Leaf(_, _, s, e) =>
        ScanLeafUnchanged(P, s, e, p, b);
      case Internal(_, _, _, _, _, _, left, right) =>
        assert BoundsRange(b, P, left.startIdx, left.endIdx, p);
        assert BoundsRange(b, P, right.startIdx, right.endIdx, p);
        VisitUnchanged(left, P, p, b);
        VisitUnchanged(right, P, p, b);
    }
  }

  /** A row on the other side of the plane x[axis] = sv from p is at least
      (p[axis] - sv)² away from p. */
  lemma PlaneBound(p: seq<real>, q: seq<real>, axis: nat, sv: real)
    requires |p| == |q| && axis < |p|
    requires if p[axis] < sv then sv <= q[axis] else q[axis] < sv
    ensures Sq(p[axis] - sv) <= Dist2(p, q)
  {
    Dist2AxisBound(p, q, axis);
    if p[axis] < sv {
      SqMonotone(sv - p[axis], q[axis] - p[axis]);
      assert Sq(p[axis] - sv) == Sq(sv - p[axis]) && Sq(p[axis] - q[axis]) == Sq(q[axis] - p[axis]);
    } else {
      SqMonotone(p[axis] - sv, p[axis] - q[axis]);
    }
  }

  /** Every row on the far side of a split is at least as far from the point as
      the splitting plane: (p[axis] - splitValue)² is a lower bound. */
  lemma FarChildBound(node: KDTreeNode, P: seq<seq<real>>, p: seq<real>, i: nat)
    requires node.Internal? && Separated(node, P, |p|)
    requires if p[node.splitAxis] < node.splitValue
             then node.right.startIdx <= i < node.right.endIdx
             else node.left.startIdx <= i < node.left.endIdx
    ensures |P[i]| == |p| && Sq(p[node.splitAxis] - node.splitValue) <= Dist2(p, P[i])
  {
    var axis, sv := node.splitAxis, node.splitValue;
    assert |P[i]| == |p|;
    if p[axis] < sv {
      assert sv <= P[i][axis];
    } else {
      assert P[i][axis] < sv;
    }
    PlaneBound(p, P[i], axis, sv);
  }

  /** The near child of a split: the one on the point's side. */
  function NearChild(node: KDTreeNode, p: seq<real>): (near: KDTreeNode)
    requires node.Internal? && node.splitAxis < |p|
    ensures near == node.left || near == node.right
  {
    if p[node.splitAxis] < node.splitValue then node.left else node.right
  }

  /** The far child of a split: the one not on the point's side. */
  function FarChild(node: KDTreeNode, p: seq<real>): (far: KDTreeNode)
    requires node.Internal? && node.splitAxis < |p|
    ensures far == node.left || far == node.right
  {
    if p[node.splitAxis] < node.splitValue then node.right else node.left
  }

  /** The children of a valid internal node are valid, and the traversal of
      the node is the traversal of the near child followed by the far one. */
  lemma InternalVisit(node: KDTreeNode, P: seq<seq<real>>, dim: nat, p: seq<real>, b: Best)
    requires Searchable(node, P, dim) && Shaped(node, |P|, dim) && node.Internal?
    requires |p| == dim && RowsIn(P, 0, |P|, dim)
    ensures Searchable(node.left, P, dim) && Shaped(node.left, |P|, dim)
    ensures Searchable(node.right, P, dim) && Shaped(node.right, |P|, dim)
    ensures Visit(node, P, p, b) == Visit(FarChild(node, p), P, p, Visit(NearChild(node, p), P, p, b))
  {
  }

  /** When the best squared distance is already at most the squared distance
      to the splitting plane, searching the far child changes nothing. */
  lemma PruneFarChild(node: KDTreeNode, P: seq<seq<real>>, p: seq<real>, b: Best)
    requires Searchable(node, P, |p|) && Shaped(node, |P|, |p|) && node.Internal?
    requires RowsIn(P, 0, |P|, |p|)
    requires b.dist2.Some? && b.dist2.value <= Sq(p[node.splitAxis] - node.splitValue)
    ensures Visit(FarChild(node, p), P, p, b) == b
  {
    var far := FarChild(node, p);
    forall i | far.startIdx <= i < far.endIdx
      ensures |P[i]| == |p| && b.dist2.Some? && b.dist2.value <= Dist2(p, P[i])
    {
      FarChildBound(node, P, p, i);
    }
    VisitUnchanged(far, P, p, b);
  }

  // ---------------------------------------------------------------------------
  // The search

  /** nearestBestMatch: the running best, shared by all levels of one search. */
  class NearestBestMatch {
    var index: int
    var dist2: Option<real>

    constructor (index: int, dist2: Option<real>)
      ensures this.index == index && this.dist2 == dist2
    {
      this.index := index;
      this.dist2 := dist2;
    }

    function Value(): Best
      reads this
    {
      Best(index, dist2)
    }
  }

  /** The leaf part of findNearestRecursive: compares every stored point of
      [start, end) with the point in order and keeps a strictly closer one. */
  method ScanLeafInPlace(kd: KDTree, start: nat, end: nat, point: seq<real>, best: NearestBestMatch)
    requires kd.Stored() && |point| == kd.dimension && start <= end <= kd.numPoints
    modifies best
    ensures best.Value() == ScanLeaf(kd.points[..], start, end, point, old(best.Value()))
  {
    ghost var P := kd.points[..];
    for i := start to end
      invariant best.Value() == ScanLeaf(P, start, i, point, old(best.Value()))
    {
      var dist2 := L2Dist2(point, kd.points[i]);
      if best.dist2.None? || dist2 < best.dist2.value {
        best.dist2 := Some(dist2);
        best.index := i;
      }
    }
  }

  /** findNearestRecursive: updates `best` in place. The pruned search ends
      with exactly the best match of the unpruned near-first traversal. */
  method FindNearestRecursive(kd: KDTree, node: KDTreeNode, point: seq<real>, best: NearestBestMatch)
    requires kd.Stored() && |point| == kd.dimension
    requires Searchable(node, kd.points[..], kd.dimension) && Shaped(node, kd.numPoints, kd.dimension)
    modifies best
    ensures best.Value() == Visit(node, kd.points[..], point, old(best.Value()))
    decreases node
  {
    if node.IsLeaf() {
      ScanLeafInPlace(kd, node.startIdx, node.endIdx, point, best);
      return;
    }

    ghost var P := kd.points[..];
    InternalVisit(node, P, kd.dimension, point, old(best.Value()));
    var first, second;
    if point[node.splitAxis] < node.splitValue {
      first, second := node.left, node.right;
    } else {
      first, second := node.right, node.left;
    }
    assert first == NearChild(node, point) && second == FarChild(node, point);
    FindNearestRecursive(kd, first, point, best);

    var distToSplit := point[node.splitAxis] - node.splitValue;
    var distToSplit2 := Sq(distToSplit);
    if best.dist2.None? || distToSplit2 < best.dist2.value {
      FindNearestRecursive(kd, second, point, best);
    } else {
      assert |P| == kd.numPoints && RowsIn(P, 0, |P|, kd.dimension);
      PruneFarChild(node, P, point, best.Value());
    }
  }

  /** p's squared distance to row t of T is the least over all rows of T. */
  ghost predicate IsNearest(p: seq<real>, T: seq<seq<real>>, t: int)
    requires RowsIn(T, 0, |T|, |p|)
  {
    0 <= t < |T| && forall u :: 0 <= u < |T| ==> Dist2(p, T[t]) <= Dist2(p, T[u])
  }

  /** findNearest: searches the whole tree from an empty best match and returns
      the caller's index of the stored point found, which is a nearest one. */
  method FindNearest(kd: KDTree, point: seq<real>) returns (targetIdx: int)
    requires kd.Valid() && |point| == kd.dimension
    ensures IsNearest(point, kd.input, targetIdx)
  {
    ghost var P := kd.points[..];
    var best := new NearestBestMatch(-1, None);
    ValidIsShaped(kd.root, P, kd.dimension, kd.minPointsPerLeaf);
    ValidSearchable(kd.root, P, kd.dimension, kd.minPointsPerLeaf);
    FindNearestRecursive(kd, kd.root, point, best);
    VisitMinimises(kd.root, P, point, Best(-1, None));
    assert best.dist2.Some? && best.Value() != Best(-1, None) by {
      assert BoundsRange(best.Value(), P, 0, kd.numPoints, point);
      assert 0 <= 0 < kd.numPoints;
    }
    PermutationFacts(kd.order[..], kd.numPoints);
    targetIdx := kd.order[best.index];
    forall u | 0 <= u < |kd.input| ensures Dist2(point, kd.input[targetIdx]) <= Dist2(point, kd.input[u]) {
      assert u in kd.order[..];
      var k :| 0 <= k < kd.numPoints && kd.order[k] == u;
      assert P[k] == kd.input[u];
    }
  }

  /** nearestEdgesImpl: builds the tree over the target points (16 points per
      leaf) and fills one edge per source point, source index i to the caller's
      index of a nearest target. */
  method NearestEdgesImpl(source: seq<real>, target: seq<real>, dimension: int)
    returns (r: Result<(seq<int>, seq<int>), Error>)
    ensures |target| == 0 ==> r == Failure(KDTreeFailed(EmptyPointsData))
    ensures |target| > 0 && dimension <= 0 ==> r == Failure(KDTreeFailed(NonPositiveDimension))
    ensures |target| > 0 && dimension > 0 && |target| % dimension != 0 ==>
      r == Failure(KDTreeFailed(LengthNotMultipleOfDimension))
    ensures r.Success? <==> |target| > 0 && dimension > 0 && |target| % dimension == 0
    ensures r.Success? ==>
      var S, T := Rows(source, dimension), Rows(target, dimension);
      && |r.value.0| == |S| && |r.value.1| == |S|
      && forall i :: 0 <= i < |S| ==> r.value.0[i] == i && IsNearest(S[i], T, r.value.1[i])
  {
    var kdr := NewKDTree(target, dimension, 16);
    if kdr.Failure? {
      return Failure(KDTreeFailed(kdr.error));
    }
    var kd := kdr.value;
    var S := Rows(source, dimension);
    var edgesSource, edgesTarget := NearestForEach(kd, S);
    return Success((edgesSource, edgesTarget));
  }

  /** The query loop of nearestEdgesImpl: edge i joins source point i to a
      nearest target point. */
  method NearestForEach(kd: KDTree, S: seq<seq<real>>) returns (edgesSource: seq<int>, edgesTarget: seq<int>)
    requires kd.Valid() && forall i :: 0 <= i < |S| ==> |S[i]| == kd.dimension
    ensures |edgesSource| == |S| && |edgesTarget| == |S|
    ensures forall i :: 0 <= i < |S| ==> edgesSource[i] == i && IsNearest(S[i], kd.input, edgesTarget[i])
  {
    var numSourcePoints := |S|;
    var sources := new int[numSourcePoints];
    var targets := new int[numSourcePoints];
    for i := 0 to numSourcePoints
      modifies sources, targets
      invariant forall k :: 0 <= k < i ==> sources[k] == k
      invariant forall k :: 0 <= k < i ==> IsNearest(S[k], kd.input, targets[k])
    {
      var sourcePoint := S[i];
      var bestTargetIdx := FindNearest(kd, sourcePoint);
      sources[i] := i;
      targets[i] := bestTargetIdx;
    }
    edgesSource, edgesTarget := sources[..], targets[..];
  }

  /** NearestEdgesConfig.Done: validates the two point tensors and returns one
      edge per source point, [2, numSourcePoints] Int32, source i to a nearest
      target. */
  method NearestEdgesDone(source: Tensor<real>, target: Tensor<real>) returns (r: Result<Tensor<int>, Error>)
    requires WellFormed(source) && WellFormed(target)
    ensures |source.data| == 0 || |target.data| == 0 ==> r == Failure(EmptyInput)
    ensures |source.data| > 0 && |target.data| > 0 ==>
      && (|source.shape| != 2 || |target.shape| != 2 ==> r == Failure(RankNotTwo))
      && (|source.shape| == 2 && |target.shape| == 2 && source.shape[1] != target.shape[1] ==>
            r == Failure(DimensionMismatch))
      && (ShapesChecked(source, target) && (source.dtype != target.dtype || !IsFloat(source.dtype)) ==>
            r == Failure(DTypeMismatch))
    ensures r.Success? <==> |source.data| > 0 && |target.data| > 0 && ArgumentsChecked(source, target)
    ensures r.Success? ==>
      && source.shape[1] > 0
      && IsEdgeTensor(r.value) && WellFormed(r.value) && r.value.shape[1] == source.shape[0]
      && var S, T := Rows(source.data, source.shape[1]), Rows(target.data, source.shape[1]);
      && |S| == source.shape[0]
      && forall k :: 0 <= k < |S| ==>
           EdgesOf(r.value)[k].source == k && IsNearest(S[k], T, EdgesOf(r.value)[k].target)
  {
    if |source.data| == 0 || |target.data| == 0 {
      return Failure(EmptyInput);
    }
    if |source.shape| != 2 || |target.shape| != 2 {
      return Failure(RankNotTwo);
    }
    var dimension := source.shape[1];
    if dimension != target.shape[1] {
      return Failure(DimensionMismatch);
    }
    ShapeTwoSize(source.shape);
    ShapeTwoSize(target.shape);
    // Done's separate Go check for zero target points cannot fail: the
    // target tensor holds shape[0] * shape[1] > 0 elements.
    assert target.shape[0] != 0;
    if source.dtype != target.dtype || !IsFloat(source.dtype) {
      return Failure(DTypeMismatch);
    }
    var res := NearestEdgesImpl(source.data, target.data, dimension);
    DivExact(source.shape[0], dimension);
    DivExact(target.shape[0], dimension);
    // The tree over a non-empty target always builds, and one edge is made per
    // source point: the remaining error checks of the Go code cannot fail.
    assert res.Success?;
    var (edgesSource, edgesTarget) := res.value;
    assert |edgesSource| == |edgesTarget| == source.shape[0];
    var edges := Tensor(Int32, [2, |edgesSource|], edgesSource + edgesTarget);
    EdgeTensorOf(edgesSource, edgesTarget);
    return Success(edges);
  }
}
