/** The radius query: every (source, target) pair of points whose distance is at
    most a radius.

    A KD-tree is built over the source points. The search descends it from the
    root with a working list of target points and their original indices. At
    each node the targets whose squared distance to the node's bounding box
    exceeds radius² are dropped; at a leaf every remaining target is compared
    with every source point of the leaf, and matching pairs are appended to the
    two growing edge lists as (caller's source index, caller's target index). */
module RadiusEdges {
  import opened Tensors
  import opened Points
  import opened KDTrees

  // ---------------------------------------------------------------------------
  // The point-to-box test

  /** The per-axis early exit of the box test: on axis a alone, p lies more
      than r outside the box [min, max]. */
  ghost predicate AxisTooFar(p: seq<real>, min: seq<real>, max: seq<real>, a: nat, r: real)
    requires a < |p| && a < |min| && a < |max|
  {
    if p[a] < min[a] then min[a] - p[a] > r
    else p[a] > max[a] && p[a] - max[a] > r
  }

  /** What the box test answers for p: no axis takes the early exit, and the
      squared distance from p to its clamp into the box is at most r2. */
  ghost predicate BoxAccepts(p: seq<real>, min: seq<real>, max: seq<real>, r: real, r2: real)
    requires |p| == |min| == |max|
  {
    && (forall a :: 0 <= a < |p| ==> !AxisTooFar(p, min, max, a, r))
    && BoxDist2(p, min, max) <= r2
  }

  /** For a radius r >= 0 with r2 = r * r, the early exits never change the
      answer: the test accepts exactly the points within r of the box. */
  lemma BoxAcceptsExact(p: seq<real>, min: seq<real>, max: seq<real>, r: real, r2: real)
    requires |p| == |min| == |max| && 0.0 <= r && r2 == r * r
    ensures BoxAccepts(p, min, max, r, r2) <==> BoxDist2(p, min, max) <= r2
  {
    forall a | 0 <= a < |p| && AxisTooFar(p, min, max, a, r)
      ensures BoxDist2(p, min, max) > r2
    {
      BoxDist2AxisGap(p, min, max, a, r);
    }
  }

  /** radiusIntersectWithBoundingBox: builds the clamp of `point` into the box
      axis by axis, leaving early when one axis is already too far. */
  method RadiusIntersectWithBoundingBox(point: seq<real>, boundaryMax: seq<real>, boundaryMin: seq<real>,
                                        dimension: nat, radius: real, radius2: real) returns (r: bool)
    requires |point| == dimension && |boundaryMin| == dimension && |boundaryMax| == dimension
    ensures r == BoxAccepts(point, boundaryMin, boundaryMax, radius, radius2)
  {
    var closestPoint := new real[dimension];
    for axis := 0 to dimension
      invariant forall a :: 0 <= a < axis ==> !AxisTooFar(point, boundaryMin, boundaryMax, a, radius)
      invariant forall a :: 0 <= a < axis ==> closestPoint[a] == Clamp(point, boundaryMin, boundaryMax)[a]
    {
      var pAxis := point[axis];
      if pAxis < boundaryMin[axis] {
        if boundaryMin[axis] - pAxis > radius {
          assert AxisTooFar(point, boundaryMin, boundaryMax, axis, radius);
          return false;
        }
        closestPoint[axis] := boundaryMin[axis];
      } else if pAxis > boundaryMax[axis] {
        if pAxis - boundaryMax[axis] > radius {
          assert AxisTooFar(point, boundaryMin, boundaryMax, axis, radius);
          return false;
        }
        closestPoint[axis] := boundaryMax[axis];
      } else {
        closestPoint[axis] := pAxis;
      }
    }
    assert closestPoint[..] == Clamp(point, boundaryMin, boundaryMax);
    var dist2 := L2Dist2(point, closestPoint[..]);
    return dist2 <= radius2;
  }

  // ---------------------------------------------------------------------------
  // Filtering the targets at a node

  /** The targets of (T, idx) the box test keeps, in their original order, each
      still paired with its original index. */
  ghost function Filter(T: seq<seq<real>>, idx: seq<int>, min: seq<real>, max: seq<real>, r: real, r2: real)
    : (f: (seq<seq<real>>, seq<int>))
    requires |T| == |idx| && |min| == |max| && RowsIn(T, 0, |T|, |min|)
    ensures |f.0| == |f.1| <= |T| && RowsIn(f.0, 0, |f.0|, |min|)
    decreases |T|
  {
    if |T| == 0 then ([], [])
    else
      var n := |T| - 1;
      var f := Filter(T[..n], idx[..n], min, max, r, r2);
      if BoxAccepts(T[n], min, max, r, r2) then (f.0 + [T[n]], f.1 + [idx[n]]) else f
  }

  /** Every kept target is an input target, with its own index, that passes the test. */
  lemma {:induction false} FilterSource(T: seq<seq<real>>, idx: seq<int>, min: seq<real>, max: seq<real>,
                                        r: real, r2: real, k: nat) returns (j: nat)
    requires |T| == |idx| && |min| == |max| && RowsIn(T, 0, |T|, |min|)
    requires k < |Filter(T, idx, min, max, r, r2).0|
    ensures j < |T| && BoxAccepts(T[j], min, max, r, r2)
    ensures Filter(T, idx, min, max, r, r2).0[k] == T[j] && Filter(T, idx, min, max, r, r2).1[k] == idx[j]
    decreases |T|
  {
    var n := |T| - 1;
    var f := Filter(T[..n], idx[..n], min, max, r, r2);
    if k < |f.0| {
      j := FilterSource(T[..n], idx[..n], min, max, r, r2, k);
    } else {
      j := n;
    }
  }

  /** Every input target that passes the test is kept, with its own index. */
  lemma {:induction false} FilterKeeps(T: seq<seq<real>>, idx: seq<int>, min: seq<real>, max: seq<real>,
                                       r: real, r2: real, j: nat) returns (k: nat)
    requires |T| == |idx| && |min| == |max| && RowsIn(T, 0, |T|, |min|)
    requires j < |T| && BoxAccepts(T[j], min, max, r, r2)
    ensures k < |Filter(T, idx, min, max, r, r2).0|
    ensures Filter(T, idx, min, max, r, r2).0[k] == T[j] && Filter(T, idx, min, max, r, r2).1[k] == idx[j]
    decreases |T|
  {
    var n := |T| - 1;
    var f := Filter(T[..n], idx[..n], min, max, r, r2);
    if j == n {
      k := |f.0|;
    } else {
      k := FilterKeeps(T[..n], idx[..n], min, max, r, r2, j);
    }
  }

  /** When the test keeps every target, the kept list is the input itself, so
      the Go code's choice to go on with the unfiltered lists changes nothing. */
  lemma {:induction false} FilterAll(T: seq<seq<real>>, idx: seq<int>, min: seq<real>, max: seq<real>, r: real, r2: real)
    requires |T| == |idx| && |min| == |max| && RowsIn(T, 0, |T|, |min|)
    requires |Filter(T, idx, min, max, r, r2).1| == |idx|
    ensures Filter(T, idx, min, max, r, r2) == (T, idx)
    decreases |T|
  {
    if |T| > 0 {
      var n := |T| - 1;
      FilterAll(T[..n], idx[..n], min, max, r, r2);
      assert T == T[..n] + [T[n]] && idx == idx[..n] + [idx[n]];
    }
  }

  /** The kept indices are input indices; distinct input indices stay distinct. */
  lemma {:induction false} FilterIndices(T: seq<seq<real>>, idx: seq<int>, min: seq<real>, max: seq<real>, r: real, r2: real)
    requires |T| == |idx| && |min| == |max| && RowsIn(T, 0, |T|, |min|)
    ensures forall v :: v in Filter(T, idx, min, max, r, r2).1 ==> v in idx
    ensures NoDuplicates(idx) ==> NoDuplicates(Filter(T, idx, min, max, r, r2).1)
    decreases |T|
  {
    if |T| > 0 {
      var n := |T| - 1;
      var f := Filter(T[..n], idx[..n], min, max, r, r2);
      FilterIndices(T[..n], idx[..n], min, max, r, r2);
      assert idx == idx[..n] + [idx[n]];
      if NoDuplicates(idx) && BoxAccepts(T[n], min, max, r, r2) {
        forall v | v in f.1 ensures v != idx[n] {
          var p :| 0 <= p < n && idx[..n][p] == v;
        }
        NoDuplicatesAppend(f.1, idx[n]);
      }
    }
  }

  /** Two duplicate-free sequences with no element in common concatenate to a duplicate-free one. */
  lemma NoDuplicatesConcat<T>(a: seq<T>, b: seq<T>)
    requires NoDuplicates(a) && NoDuplicates(b)
    requires forall x, y :: x in a && y in b ==> x != y
    ensures NoDuplicates(a + b)
  {
    forall i, j | 0 <= i < j < |a + b| ensures (a + b)[i] != (a + b)[j] {
      if j >= |a| && i < |a| {
        assert (a + b)[i] in a && (a + b)[j] in b;
      }
    }
  }

  // ---------------------------------------------------------------------------
  // The edges the search reports

  /** The edges one source point p, whose caller's index is o, makes with the
      targets (T, idx): the inner loop of a leaf. */
  ghost function RowEdges(p: seq<real>, o: int, T: seq<seq<real>>, idx: seq<int>, r2: real): seq<Edge>
    requires |T| == |idx| && RowsIn(T, 0, |T|, |p|)
    decreases |T|
  {
    if |T| == 0 then []
    else
      var n := |T| - 1;
      RowEdges(p, o, T[..n], idx[..n], r2) + (if Dist2(p, T[n]) <= r2 then [Edge(o, idx[n])] else [])
  }

  /** The edges the source positions [s, e) make with the targets (T, idx): a
      leaf's double loop, source points outermost. */
  ghost function LeafEdges(P: seq<seq<real>>, O: seq<int>, s: nat, e: nat, T: seq<seq<real>>, idx: seq<int>,
                           dim: nat, r2: real): seq<Edge>
    requires s <= e <= |P| == |O| && RowsIn(P, s, e, dim)
    requires |T| == |idx| && RowsIn(T, 0, |T|, dim)
    decreases e - s
  {
    if e == s then []
    else LeafEdges(P, O, s, e - 1, T, idx, dim, r2) + RowEdges(P[e - 1], O[e - 1], T, idx, r2)
  }

  /** The edges the search below `node` appends, for stored rows P with order O,
      targets (T, idx), radius r and squared radius r2. */
  ghost function NodeEdges(node: KDTreeNode, P: seq<seq<real>>, O: seq<int>, T: seq<seq<real>>, idx: seq<int>,
                           dim: nat, r: real, r2: real): seq<Edge>
    requires Shaped(node, |P|, dim) && |O| == |P| && RowsIn(P, 0, |P|, dim)
    requires |T| == |idx| && RowsIn(T, 0, |T|, dim)
    decreases node
  {
    var f := Filter(T, idx, node.min, node.max, r, r2);
    if |f.0| == 0 then []
    else match node
      case Leaf(_, _, s, e) => LeafEdges(P, O, s, e, f.0, f.1, dim, r2)
      case Internal(_, _, _, _, _, _, left, right) =>
        NodeEdges(left, P, O, f.0, f.1, dim, r, r2) + NodeEdges(right, P, O, f.0, f.1, dim, r, r2)
  }

  /** NodeEdges of an internal node whose box keeps the targets (T', idx'):
      the edges of the left child and then those of the right one. */
  lemma NodeEdgesInternal(node: KDTreeNode, P: seq<seq<real>>, O: seq<int>, T: seq<seq<real>>, idx: seq<int>,
                          dim: nat, r: real, r2: real, T': seq<seq<real>>, idx': seq<int>)
    requires Shaped(node, |P|, dim) && |O| == |P| && RowsIn(P, 0, |P|, dim)
    requires |T| == |idx| && RowsIn(T, 0, |T|, dim)
    requires node.Internal? && (T', idx') == Filter(T, idx, node.min, node.max, r, r2) && |T'| > 0
    ensures Shaped(node.left, |P|, dim) && Shaped(node.right, |P|, dim)
    ensures |T'| == |idx'| && RowsIn(T', 0, |T'|, dim)
    ensures NodeEdges(node, P, O, T, idx, dim, r, r2) ==
      NodeEdges(node.left, P, O, T', idx', dim, r, r2) + NodeEdges(node.right, P, O, T', idx', dim, r, r2)
  {
  }

  /** NodeEdges of a leaf whose box keeps the targets (T', idx'): the leaf's edges to them. */
  lemma NodeEdgesLeaf(node: KDTreeNode, P: seq<seq<real>>, O: seq<int>, T: seq<seq<real>>, idx: seq<int>,
                      dim: nat, r: real, r2: real, T': seq<seq<real>>, idx': seq<int>)
    requires Shaped(node, |P|, dim) && |O| == |P| && RowsIn(P, 0, |P|, dim)
    requires |T| == |idx| && RowsIn(T, 0, |T|, dim)
    requires node.Leaf? && (T', idx') == Filter(T, idx, node.min, node.max, r, r2) && |T'| > 0
    ensures |T'| == |idx'| && RowsIn(T', 0, |T'|, dim)
    ensures NodeEdges(node, P, O, T, idx, dim, r, r2) == LeafEdges(P, O, node.startIdx, node.endIdx, T', idx', dim, r2)
  {
  }

  /** Source position i of [s, e) and target entry j are within squared
      distance r2, and name the caller's pair (a, b). */
  ghost predicate Matches(P: seq<seq<real>>, O: seq<int>, s: nat, e: nat, T: seq<seq<real>>, idx: seq<int>,
                          dim: nat, r2: real, a: int, b: int)
    requires e <= |P| == |O| && RowsIn(P, s, e, dim)
    requires |T| == |idx| && RowsIn(T, 0, |T|, dim)
  {
    exists i, j :: s <= i < e && 0 <= j < |T| && O[i] == a && idx[j] == b && Dist2(P[i], T[j]) <= r2
  }

  // Row and leaf edges

  lemma {:induction false} RowEdgesSource(p: seq<real>, o: int, T: seq<seq<real>>, idx: seq<int>, r2: real, x: Edge)
    returns (j: nat)
    requires |T| == |idx| && RowsIn(T, 0, |T|, |p|)
    requires x in RowEdges(p, o, T, idx, r2)
    ensures j < |T| && x == Edge(o, idx[j]) && Dist2(p, T[j]) <= r2
    decreases |T|
  {
    var n := |T| - 1;
    if x in RowEdges(p, o, T[..n], idx[..n], r2) {
      j := RowEdgesSource(p, o, T[..n], idx[..n], r2, x);
    } else {
      j := n;
    }
  }

  lemma {:induction false} RowEdgesComplete(p: seq<real>, o: int, T: seq<seq<real>>, idx: seq<int>, r2: real, j: nat)
    requires |T| == |idx| && RowsIn(T, 0, |T|, |p|)
    requires j < |T| && Dist2(p, T[j]) <= r2
    ensures Edge(o, idx[j]) in RowEdges(p, o, T, idx, r2)
    decreases |T|
  {
    var n := |T| - 1;
    if j < n {
      RowEdgesComplete(p, o, T[..n], idx[..n], r2, j);
    }
  }

  lemma {:induction false} RowEdgesNoDuplicates(p: seq<real>, o: int, T: seq<seq<real>>, idx: seq<int>, r2: real)
    requires |T| == |idx| && RowsIn(T, 0, |T|, |p|) && NoDuplicates(idx)
    ensures NoDuplicates(RowEdges(p, o, T, idx, r2))
    decreases |T|
  {
    if |T| > 0 {
      var n := |T| - 1;
      var prev := RowEdges(p, o, T[..n], idx[..n], r2);
      RowEdgesNoDuplicates(p, o, T[..n], idx[..n], r2);
      if Dist2(p, T[n]) <= r2 {
        forall x | x in prev ensures x != Edge(o, idx[n]) {
          var j := RowEdgesSource(p, o, T[..n], idx[..n], r2, x);
          assert idx[..n][j] == idx[j];
        }
        NoDuplicatesAppend(prev, Edge(o, idx[n]));
      } else {
        assert RowEdges(p, o, T, idx, r2) == prev;
      }
    }
  }

  lemma {:induction false} LeafEdgesSource(P: seq<seq<real>>, O: seq<int>, s: nat, e: nat, T: seq<seq<real>>,
                                           idx: seq<int>, dim: nat, r2: real, x: Edge) returns (i: nat, j: nat)
    requires s <= e <= |P| == |O| && RowsIn(P, 0, |P|, dim)
    requires |T| == |idx| && RowsIn(T, 0, |T|, dim)
    requires x in LeafEdges(P, O, s, e, T, idx, dim, r2)
    ensures s <= i < e && j < |T| && x == Edge(O[i], idx[j]) && Dist2(P[i], T[j]) <= r2
    decreases e - s
  {
    if e == s {
      assert false;
    }
    var m := e - 1;
    var prev := LeafEdges(P, O, s, m, T, idx, dim, r2);
    var last := RowEdges(P[m], O[m], T, idx, r2);
    assert LeafEdges(P, O, s, e, T, idx, dim, r2) == prev + last;
    if x in prev {
      assert s <= m <= |P|;
      i, j := LeafEdgesSource(P, O, s, m, T, idx, dim, r2, x);
    } else {
      assert x in last;
      i := m;
      assert |P[i]| == dim;
      j := RowEdgesSource(P[i], O[i], T, idx, r2, x);
    }
  }

  lemma {:induction false} LeafEdgesComplete(P: seq<seq<real>>, O: seq<int>, s: nat, e: nat, T: seq<seq<real>>,
                                             idx: seq<int>, dim: nat, r2: real, i: nat, j: nat)
    requires s <= e <= |P| == |O| && RowsIn(P, 0, |P|, dim)
    requires |T| == |idx| && RowsIn(T, 0, |T|, dim)
    requires s <= i < e && j < |T| && Dist2(P[i], T[j]) <= r2
    ensures Edge(O[i], idx[j]) in LeafEdges(P, O, s, e, T, idx, dim, r2)
    decreases e - s
  {
    var prev := LeafEdges(P, O, s, e - 1, T, idx, dim, r2);
    var last := RowEdges(P[e - 1], O[e - 1], T, idx, r2);
    assert LeafEdges(P, O, s, e, T, idx, dim, r2) == prev + last;
    if i < e - 1 {
      LeafEdgesComplete(P, O, s, e - 1, T, idx, dim, r2, i, j);
      assert Edge(O[i], idx[j]) in prev;
    } else {
      RowEdgesComplete(P[i], O[i], T, idx, r2, j);
      assert Edge(O[i], idx[j]) in last;
    }
  }

  lemma {:induction false} LeafEdgesNoDuplicates(P: seq<seq<real>>, O: seq<int>, s: nat, e: nat, T: seq<seq<real>>,
                                                 idx: seq<int>, dim: nat, r2: real)
    requires s <= e <= |P| == |O| && RowsIn(P, 0, |P|, dim)
    requires |T| == |idx| && RowsIn(T, 0, |T|, dim)
    requires NoDuplicates(O) && NoDuplicates(idx)
    ensures NoDuplicates(LeafEdges(P, O, s, e, T, idx, dim, r2))
    decreases e - s
  {
    if e > s {
      var prev := LeafEdges(P, O, s, e - 1, T, idx, dim, r2);
      var last := RowEdges(P[e - 1], O[e - 1], T, idx, r2);
      LeafEdgesNoDuplicates(P, O, s, e - 1, T, idx, dim, r2);
      RowEdgesNoDuplicates(P[e - 1], O[e - 1], T, idx, r2);
      forall x, y | x in prev && y in last ensures x != y {
        var i, _ := LeafEdgesSource(P, O, s, e - 1, T, idx, dim, r2, x);
        var _ := RowEdgesSource(P[e - 1], O[e - 1], T, idx, r2, y);
      }
      NoDuplicatesConcat(prev, last);
    }
  }

  // Node edges

  /** Soundness: every edge reported below a node joins a source position of
      the node's range and a target entry, and the two are within r2. */
  lemma {:induction false} NodeEdgesSource(node: KDTreeNode, P: seq<seq<real>>, O: seq<int>, T: seq<seq<real>>,
                                           idx: seq<int>, dim: nat, r: real, r2: real, x: Edge) returns (i: nat, j: nat)
    requires Shaped(node, |P|, dim) && |O| == |P| && RowsIn(P, 0, |P|, dim)
    requires |T| == |idx| && RowsIn(T, 0, |T|, dim)
    requires x in NodeEdges(node, P, O, T, idx, dim, r, r2)
    ensures node.startIdx <= i < node.endIdx && j < |T|
    ensures x == Edge(O[i], idx[j]) && Dist2(P[i], T[j]) <= r2
    decreases node
  {
    var f := Filter(T, idx, node.min, node.max, r, r2);
    var k: nat;
    match node {
      case Leaf(_, _, s, e) =>
        i, k := LeafEdgesSource(P, O, s, e, f.0, f.1, dim, r2, x);
      case Internal(_, _, _, _, _, _, left, right) =>
        if x in NodeEdges(left, P, O, f.0, f.1, dim, r, r2) {
          i, k := NodeEdgesSource(left, P, O, f.0, f.1, dim, r, r2, x);
        } else {
          i, k := NodeEdgesSource(right, P, O, f.0, f.1, dim, r, r2, x);
        }
    }
    j := FilterSource(T, idx, node.min, node.max, r, r2, k);
  }

  /** Completeness: for a radius r >= 0, every pair of a source position in a
      valid node's range and a target entry within r2 is reported below it. The
      node's box holds the source point, so the pruning test keeps the target. */
  lemma {:induction false} NodeEdgesComplete(node: KDTreeNode, P: seq<seq<real>>, O: seq<int>, T: seq<seq<real>>,
                                             idx: seq<int>, dim: nat, minLeaf: int, r: real, r2: real, i: nat, j: nat)
    requires NodeValid(node, P, dim, minLeaf)
    requires Shaped(node, |P|, dim) && |O| == |P| && RowsIn(P, 0, |P|, dim)
    requires |T| == |idx| && RowsIn(T, 0, |T|, dim)
    requires 0.0 <= r && r2 == r * r
    requires node.startIdx <= i < node.endIdx && j < |T| && Dist2(P[i], T[j]) <= r2
    ensures Edge(O[i], idx[j]) in NodeEdges(node, P, O, T, idx, dim, r, r2)
    decreases node
  {
    TightBoxInBox(node.min, node.max, P, node.startIdx, node.endIdx, dim, i);
    BoxDist2LowerBound(T[j], node.min, node.max, P[i]);
    Dist2Symmetric(T[j], P[i]);
    BoxAcceptsExact(T[j], node.min, node.max, r, r2);
    var f := Filter(T, idx, node.min, node.max, r, r2);
    var k := FilterKeeps(T, idx, node.min, node.max, r, r2, j);
    match node {
      case Leaf(_, _, s, e) =>
        LeafEdgesComplete(P, O, s, e, f.0, f.1, dim, r2, i, k);
      case Internal(_, _, _, _, _, _, left, right) =>
        if i < left.endIdx {
          NodeEdgesComplete(left, P, O, f.0, f.1, dim, minLeaf, r, r2, i, k);
        } else {
          NodeEdgesComplete(right, P, O, f.0, f.1, dim, minLeaf, r, r2, i, k);
        }
    }
  }

  /** The reported edges are exactly the matching pairs of the node's range. */
  lemma NodeEdgesExact(node: KDTreeNode, P: seq<seq<real>>, O: seq<int>, T: seq<seq<real>>, idx: seq<int>,
                       dim: nat, minLeaf: int, r: real, r2: real, a: int, b: int)
    requires NodeValid(node, P, dim, minLeaf)
    requires Shaped(node, |P|, dim) && |O| == |P| && RowsIn(P, 0, |P|, dim)
    requires |T| == |idx| && RowsIn(T, 0, |T|, dim)
    requires 0.0 <= r && r2 == r * r
    ensures Edge(a, b) in NodeEdges(node, P, O, T, idx, dim, r, r2) <==>
            Matches(P, O, node.startIdx, node.endIdx, T, idx, dim, r2, a, b)
  {
    if Edge(a, b) in NodeEdges(node, P, O, T, idx, dim, r, r2) {
      var i, j := NodeEdgesSource(node, P, O, T, idx, dim, r, r2, Edge(a, b));
    }
    if Matches(P, O, node.startIdx, node.endIdx, T, idx, dim, r2, a, b) {
      var i, j :| node.startIdx <= i < node.endIdx && 0 <= j < |T| && O[i] == a && idx[j] == b
                  && Dist2(P[i], T[j]) <= r2;
      NodeEdgesComplete(node, P, O, T, idx, dim, minLeaf, r, r2, i, j);
    }
  }

  /** No pair is reported twice: leaf ranges are disjoint, the order holds each
      caller's index once, and each leaf meets each remaining target once. */
  lemma {:induction false} NodeEdgesNoDuplicates(node: KDTreeNode, P: seq<seq<real>>, O: seq<int>, T: seq<seq<real>>,
                                                 idx: seq<int>, dim: nat, r: real, r2: real)
    requires Shaped(node, |P|, dim) && |O| == |P| && RowsIn(P, 0, |P|, dim)
    requires |T| == |idx| && RowsIn(T, 0, |T|, dim)
    requires NoDuplicates(O) && NoDuplicates(idx)
    ensures NoDuplicates(NodeEdges(node, P, O, T, idx, dim, r, r2))
    decreases node
  {
    var f := Filter(T, idx, node.min, node.max, r, r2);
    FilterIndices(T, idx, node.min, node.max, r, r2);
    if |f.0| > 0 {
      match node {
        case Leaf(_, _, s, e) =>
          LeafEdgesNoDuplicates(P, O, s, e, f.0, f.1, dim, r2);
        case Internal(_, _, _, _, _, _, left, right) =>
          var le := NodeEdges(left, P, O, f.0, f.1, dim, r, r2);
          var re := NodeEdges(right, P, O, f.0, f.1, dim, r, r2);
          NodeEdgesNoDuplicates(left, P, O, f.0, f.1, dim, r, r2);
          NodeEdgesNoDuplicates(right, P, O, f.0, f.1, dim, r, r2);
          forall x, y | x in le && y in re ensures x != y {
            var i, _ := NodeEdgesSource(left, P, O, f.0, f.1, dim, r, r2, x);
            var i', _ := NodeEdgesSource(right, P, O, f.0, f.1, dim, r, r2, y);
            assert O[i] != O[i'];
          }
          NoDuplicatesConcat(le, re);
      }
    }
  }

  // ---------------------------------------------------------------------------
  // The whole query

  /** Caller's source point a and target point b lie within squared distance r2. */
  ghost predicate WithinRadius(S: seq<seq<real>>, T: seq<seq<real>>, r2: real, a: int, b: int) {
    0 <= a < |S| && 0 <= b < |T| && |S[a]| == |T[b]| && Dist2(S[a], T[b]) <= r2
  }

  /** Searching a whole tree from its root, with every target under its own
      index: each reported edge is a pair within the radius, each pair within a
      radius r >= 0 is reported, and none is reported twice. */
  lemma TreeEdgesExact(P: seq<seq<real>>, O: seq<int>, input: seq<seq<real>>, root: KDTreeNode, dim: nat,
                       minLeaf: int, T: seq<seq<real>>, r: real, r2: real)
    requires Placed(P, O, input) && IsPermutation(O, |P|) && |input| == |P|
    requires RowsIn(P, 0, |P|, dim) && RowsIn(T, 0, |T|, dim)
    requires NodeValid(root, P, dim, minLeaf) && root.startIdx == 0 && root.endIdx == |P|
    requires r2 == r * r
    ensures Shaped(root, |P|, dim)
    ensures forall a, b :: Edge(a, b) in NodeEdges(root, P, O, T, Iota(|T|), dim, r, r2) ==>
              WithinRadius(input, T, r2, a, b)
    ensures 0.0 <= r ==> forall a, b :: WithinRadius(input, T, r2, a, b) ==>
              Edge(a, b) in NodeEdges(root, P, O, T, Iota(|T|), dim, r, r2)
    ensures NoDuplicates(NodeEdges(root, P, O, T, Iota(|T|), dim, r, r2))
  {
    ValidIsShaped(root, P, dim, minLeaf);
    var idx := Iota(|T|);
    var E := NodeEdges(root, P, O, T, idx, dim, r, r2);
    PermutationFacts(O, |P|);
    forall a, b | Edge(a, b) in E ensures WithinRadius(input, T, r2, a, b) {
      var i, j := NodeEdgesSource(root, P, O, T, idx, dim, r, r2, Edge(a, b));
    }
    if 0.0 <= r {
      forall a, b | WithinRadius(input, T, r2, a, b) ensures Edge(a, b) in E {
        assert a in O;
        var i :| 0 <= i < |O| && O[i] == a;
        NodeEdgesComplete(root, P, O, T, idx, dim, minLeaf, r, r2, i, b);
      }
    }
    NodeEdgesNoDuplicates(root, P, O, T, idx, dim, r, r2);
  }

  /** The filtering loop of radiusEdgesRecursiveImpl: keeps the targets the
      box test accepts, in order, with their indices. */
  method FilterTargets(target: seq<seq<real>>, targetIndices: seq<int>, boundaryMin: seq<real>, boundaryMax: seq<real>,
                       dimension: nat, radius: real, radius2: real)
    returns (remainingTarget: seq<seq<real>>, remainingTargetIndices: seq<int>)
    requires |target| == |targetIndices| && RowsIn(target, 0, |target|, dimension)
    requires |boundaryMin| == dimension && |boundaryMax| == dimension
    ensures (remainingTarget, remainingTargetIndices) ==
      Filter(target, targetIndices, boundaryMin, boundaryMax, radius, radius2)
  {
    remainingTarget, remainingTargetIndices := [], [];
    for targetPointIdx := 0 to |targetIndices|
      invariant (remainingTarget, remainingTargetIndices) ==
        Filter(target[..targetPointIdx], targetIndices[..targetPointIdx], boundaryMin, boundaryMax, radius, radius2)
    {
      var point := target[targetPointIdx];
      assert target[..targetPointIdx + 1][..targetPointIdx] == target[..targetPointIdx];
      assert targetIndices[..targetPointIdx + 1][..targetPointIdx] == targetIndices[..targetPointIdx];
      var inside := RadiusIntersectWithBoundingBox(point, boundaryMax, boundaryMin, dimension, radius, radius2);
      if inside {
        remainingTarget := remainingTarget + [point];
        remainingTargetIndices := remainingTargetIndices + [targetIndices[targetPointIdx]];
      }
    }
    assert target[..|target|] == target && targetIndices[..|targetIndices|] == targetIndices;
  }

  /** The brute-force double loop at a leaf over source positions [start, end):
      appends each pair within radius2, in the caller's numbering. */
  method SearchLeaf(kd: KDTree, start: nat, end: nat, T: seq<seq<real>>, I: seq<int>, dimension: nat, radius2: real,
                    edgesSource: seq<int>, edgesTarget: seq<int>) returns (es: seq<int>, et: seq<int>)
    requires kd.Stored() && dimension == kd.dimension && start <= end <= kd.numPoints
    requires |T| == |I| && RowsIn(T, 0, |T|, dimension)
    requires |edgesSource| == |edgesTarget|
    ensures |es| == |et|
    ensures Zip(es, et) == Zip(edgesSource, edgesTarget) +
      LeafEdges(kd.points[..], kd.order[..], start, end, T, I, dimension, radius2)
  {
    ghost var P, O := kd.points[..], kd.order[..];
    ghost var Z0 := Zip(edgesSource, edgesTarget);
    es, et := edgesSource, edgesTarget;
    for sourcePointIdx := start to end
      invariant |es| == |et|
      invariant Zip(es, et) == Z0 + LeafEdges(P, O, start, sourcePointIdx, T, I, dimension, radius2)
    {
      ghost var L := LeafEdges(P, O, start, sourcePointIdx, T, I, dimension, radius2);
      ghost var R := RowEdges(P[sourcePointIdx], O[sourcePointIdx], T, I, radius2);
      assert LeafEdges(P, O, start, sourcePointIdx + 1, T, I, dimension, radius2) == L + R;
      es, et := SearchRow(kd.points[sourcePointIdx], kd.order[sourcePointIdx], T, I, radius2, es, et);
      assert Zip(es, et) == (Z0 + L) + R;
      assert (Z0 + L) + R == Z0 + (L + R);
    }
  }

  /** The inner loop of a leaf: the stored row p, with caller's index o, against
      every remaining target, appending the pairs within the squared radius. */
  method SearchRow(p: seq<real>, o: int, T: seq<seq<real>>, I: seq<int>, radius2: real,
                   edgesSource: seq<int>, edgesTarget: seq<int>) returns (es: seq<int>, et: seq<int>)
    requires |T| == |I| && RowsIn(T, 0, |T|, |p|)
    requires |edgesSource| == |edgesTarget|
    ensures |es| == |et|
    ensures Zip(es, et) == Zip(edgesSource, edgesTarget) + RowEdges(p, o, T, I, radius2)
  {
    ghost var Z0 := Zip(edgesSource, edgesTarget);
    es, et := edgesSource, edgesTarget;
    for targetPointIdx := 0 to |I|
      invariant |es| == |et|
      invariant Zip(es, et) == Z0 + RowEdges(p, o, T[..targetPointIdx], I[..targetPointIdx], radius2)
    {
      assert T[..targetPointIdx + 1][..targetPointIdx] == T[..targetPointIdx];
      assert I[..targetPointIdx + 1][..targetPointIdx] == I[..targetPointIdx];
      var dist2 := L2Dist2(p, T[targetPointIdx]);
      if dist2 <= radius2 {
        ZipAppend(es, et, o, I[targetPointIdx]);
        es := es + [o];
        et := et + [I[targetPointIdx]];
      }
    }
    assert T[..|I|] == T && I[..|I|] == I;
  }

  /** radiusEdgesRecursiveImpl: filters the targets against the node's box,
      stops when none is left, brute-forces a leaf and otherwise searches the
      left child and then the right one. The edge lists only grow, by appending
      exactly the node's edges. */
  method RadiusEdgesRecursive(kd: KDTree, node: KDTreeNode, target: seq<seq<real>>, targetIndices: seq<int>,
                              dimension: nat, radius: real, radius2: real,
                              edgesSource: seq<int>, edgesTarget: seq<int>) returns (es: seq<int>, et: seq<int>)
    requires kd.Stored() && dimension == kd.dimension && Shaped(node, kd.numPoints, dimension)
    requires |target| == |targetIndices| && RowsIn(target, 0, |target|, dimension)
    requires |edgesSource| == |edgesTarget|
    ensures |es| == |et|
    ensures Zip(es, et) == Zip(edgesSource, edgesTarget) +
      NodeEdges(node, kd.points[..], kd.order[..], target, targetIndices, dimension, radius, radius2)
    decreases node, 1
  {
    ghost var P, O := kd.points[..], kd.order[..];
    var remainingTarget, remainingTargetIndices :=
      FilterTargets(target, targetIndices, node.min, node.max, dimension, radius, radius2);
    if |remainingTarget| == 0 {
      assert NodeEdges(node, P, O, target, targetIndices, dimension, radius, radius2) == [];
      return edgesSource, edgesTarget;
    }
    var T, I := target, targetIndices;
    if |remainingTargetIndices| != |targetIndices| {
      T, I := remainingTarget, remainingTargetIndices;
    } else {
      FilterAll(target, targetIndices, node.min, node.max, radius, radius2);
    }

    if node.IsLeaf() {
      NodeEdgesLeaf(node, P, O, target, targetIndices, dimension, radius, radius2, T, I);
      es, et := SearchLeaf(kd, node.startIdx, node.endIdx, T, I, dimension, radius2, edgesSource, edgesTarget);
      return;
    }

    NodeEdgesInternal(node, P, O, target, targetIndices, dimension, radius, radius2, T, I);
    es, et := SearchChildren(kd, node, T, I, dimension, radius, radius2, edgesSource, edgesTarget);
  }

  /** The internal-node case of radiusEdgesRecursiveImpl: the left child's
      edges and then the right child's, with the targets the node kept. */
  method SearchChildren(kd: KDTree, node: KDTreeNode, T: seq<seq<real>>, I: seq<int>,
                        dimension: nat, radius: real, radius2: real,
                        edgesSource: seq<int>, edgesTarget: seq<int>) returns (es: seq<int>, et: seq<int>)
    requires kd.Stored() && dimension == kd.dimension && node.Internal?
    requires Shaped(node.left, kd.numPoints, dimension) && Shaped(node.right, kd.numPoints, dimension)
    requires |T| == |I| && RowsIn(T, 0, |T|, dimension)
    requires |edgesSource| == |edgesTarget|
    ensures |es| == |et|
    ensures Zip(es, et) == Zip(edgesSource, edgesTarget) +
      (NodeEdges(node.left, kd.points[..], kd.order[..], T, I, dimension, radius, radius2) +
       NodeEdges(node.right, kd.points[..], kd.order[..], T, I, dimension, radius, radius2))
    decreases node, 0
  {
    es, et := RadiusEdgesRecursive(kd, node.left, T, I, dimension, radius, radius2, edgesSource, edgesTarget);
    es, et := RadiusEdgesRecursive(kd, node.right, T, I, dimension, radius, radius2, es, et);
  }

  /** radiusEdgesImpl: builds the tree over the source points (16 points per
      leaf), numbers the targets 0, 1, ... and searches from the root. The
      result pairs are in the caller's numbering. */
  method RadiusEdgesImpl(source: seq<real>, target: seq<real>, dimension: int, radius: real)
    returns (r: Result<(seq<int>, seq<int>), Error>)
    ensures |source| == 0 ==> r == Failure(KDTreeFailed(EmptyPointsData))
    ensures |source| > 0 && dimension <= 0 ==> r == Failure(KDTreeFailed(NonPositiveDimension))
    ensures |source| > 0 && dimension > 0 && |source| % dimension != 0 ==>
      r == Failure(KDTreeFailed(LengthNotMultipleOfDimension))
    ensures r.Success? <==> |source| > 0 && dimension > 0 && |source| % dimension == 0
    ensures r.Success? ==> |r.value.0| == |r.value.1|
    ensures r.Success? ==>
      var S, T := Rows(source, dimension), Rows(target, dimension);
      var E := Zip(r.value.0, r.value.1);
      && (forall a, b :: Edge(a, b) in E ==> WithinRadius(S, T, radius * radius, a, b))
      && (0.0 <= radius ==> forall a, b :: WithinRadius(S, T, radius * radius, a, b) ==> Edge(a, b) in E)
      && NoDuplicates(E)
  {
    var kdr := NewKDTree(source, dimension, 16);
    if kdr.Failure? {
      return Failure(KDTreeFailed(kdr.error));
    }
    var kd := kdr.value;
    var T := Rows(target, dimension);
    var es, et := RadiusSearch(kd, T, radius);
    return Success((es, et));
  }

  /** The query of radiusEdgesImpl over a built tree: numbers the targets
      0, 1, ... and searches from the root. */
  method RadiusSearch(kd: KDTree, T: seq<seq<real>>, radius: real) returns (es: seq<int>, et: seq<int>)
    requires kd.Valid() && RowsIn(T, 0, |T|, kd.dimension)
    ensures |es| == |et|
    ensures var E := Zip(es, et);
      && (forall a, b :: Edge(a, b) in E ==> WithinRadius(kd.input, T, radius * radius, a, b))
      && (0.0 <= radius ==> forall a, b :: WithinRadius(kd.input, T, radius * radius, a, b) ==> Edge(a, b) in E)
      && NoDuplicates(E)
  {
    ghost var P, O := kd.points[..], kd.order[..];
    TreeEdgesExact(P, O, kd.input, kd.root, kd.dimension, kd.minPointsPerLeaf, T, radius, radius * radius);
    var targetIndices := new int[|T|];
    for i := 0 to |T|
      modifies targetIndices
      invariant forall k :: 0 <= k < i ==> targetIndices[k] == k
    {
      targetIndices[i] := i;
    }
    assert targetIndices[..] == Iota(|T|);
    es, et := RadiusEdgesRecursive(kd, kd.root, T, targetIndices[..], kd.dimension, radius, radius * radius, [], []);
    assert Zip([], []) == [];
  }

  /** Every pair of a source row and a target row, as the edges a complete and
      sound search reports, is empty exactly when no pair is within r2. */
  ghost predicate NoPairWithin(S: seq<seq<real>>, T: seq<seq<real>>, r2: real) {
    forall a, b :: !WithinRadius(S, T, r2, a, b)
  }

  /** RadiusEdgesConfig.Done with the radius checked: validates the two point
      tensors, runs the query and returns the edges as a [2, numEdges] Int32
      tensor, or an error when no pair is within the radius. A negative radius
      is rejected (the Go code accepts it; see the negative-radius lemmas below). */
  method RadiusEdgesDone(source: Tensor<real>, target: Tensor<real>, radius: real) returns (r: Result<Tensor<int>, Error>)
    requires WellFormed(source) && WellFormed(target)
    ensures |source.shape| != 2 || |target.shape| != 2 ==> r == Failure(RankNotTwo)
    ensures |source.shape| == 2 && |target.shape| == 2 && source.shape[1] != target.shape[1] ==>
      r == Failure(DimensionMismatch)
    ensures ShapesChecked(source, target) && (source.dtype != target.dtype || !IsFloat(source.dtype)) ==>
      r == Failure(DTypeMismatch)
    ensures ArgumentsChecked(source, target) && radius < 0.0 ==> r == Failure(NegativeRadius)
    ensures ArgumentsChecked(source, target) && 0.0 <= radius && (source.shape[0] == 0 || source.shape[1] == 0) ==>
      r == Failure(KDTreeFailed(EmptyPointsData))
    ensures ArgumentsChecked(source, target) && 0.0 <= radius && source.shape[0] > 0 && source.shape[1] > 0 ==>
      var S, T := Rows(source.data, source.shape[1]), Rows(target.data, source.shape[1]);
      && |S| == source.shape[0] && |T| == target.shape[0]
      && (r == Failure(NoEdgesFound) <==> NoPairWithin(S, T, radius * radius))
      && (r.Success? <==> !NoPairWithin(S, T, radius * radius))
    ensures r.Success? ==>
      && ArgumentsChecked(source, target) && source.shape[1] > 0
      && IsEdgeTensor(r.value) && WellFormed(r.value) && r.value.shape[1] >= 1
      && var S, T := Rows(source.data, source.shape[1]), Rows(target.data, source.shape[1]);
      && (forall a, b :: Edge(a, b) in EdgesOf(r.value) <==> WithinRadius(S, T, radius * radius, a, b))
      && NoDuplicates(EdgesOf(r.value))
  {
    if |source.shape| != 2 || |target.shape| != 2 {
      return Failure(RankNotTwo);
    }
    var dimension := source.shape[1];
    if dimension != target.shape[1] {
      return Failure(DimensionMismatch);
    }
    if source.dtype != target.dtype || !IsFloat(source.dtype) {
      return Failure(DTypeMismatch);
    }
    if radius < 0.0 {
      return Failure(NegativeRadius);
    }
    ShapeTwoSize(source.shape);
    ShapeTwoSize(target.shape);
    var res := RadiusEdgesImpl(source.data, target.data, dimension, radius);
    if res.Failure? {
      if dimension > 0 {
        DivExact(source.shape[0], dimension);
      }
      return Failure(res.error);
    }
    var (edgesSource, edgesTarget) := res.value;
    var numEdges := |edgesSource|;
    // The two lists always have the same length: the Go code's check for a
    // mismatch cannot fail.
    assert |edgesTarget| == numEdges;
    DivExact(source.shape[0], dimension);
    DivExact(target.shape[0], dimension);
    ghost var S, T := Rows(source.data, dimension), Rows(target.data, dimension);
    EdgesFoundIffPair(S, T, radius * radius, Zip(edgesSource, edgesTarget));
    if numEdges == 0 {
      return Failure(NoEdgesFound);
    }
    var edges := Tensor(Int32, [2, numEdges], edgesSource + edgesTarget);
    EdgeTensorOf(edgesSource, edgesTarget);
    return Success(edges);
  }

  /** A sound and complete edge list is empty exactly when no pair is within r2. */
  lemma EdgesFoundIffPair(S: seq<seq<real>>, T: seq<seq<real>>, r2: real, E: seq<Edge>)
    requires forall a, b :: Edge(a, b) in E ==> WithinRadius(S, T, r2, a, b)
    requires forall a, b :: WithinRadius(S, T, r2, a, b) ==> Edge(a, b) in E
    ensures |E| == 0 <==> NoPairWithin(S, T, r2)
  {
    if |E| > 0 {
      assert Edge(E[0].source, E[0].target) in E;
    }
  }

  // ---------------------------------------------------------------------------
  // Negative radius

  /** With a negative radius the Go search loses pairs its own leaf test
      accepts: the leaf test compares against radius * radius, which is
      positive, but the box test's per-axis early exit compares a gap with the
      negative radius itself. One source point (0, 0) forms a single leaf; the
      target (0.5, 0) is at squared distance 0.25 <= (-1)², yet the search
      below the root reports nothing. */
  lemma NegativeRadiusLosesPair()
    ensures var P, T := [[0.0, 0.0]], [[0.5, 0.0]];
      var root := Leaf([0.0, 0.0], [0.0, 0.0], 0, 1);
      && NodeValid(root, P, 2, 16)
      && Dist2(P[0], T[0]) <= (-1.0) * (-1.0)
      && NodeEdges(root, P, [0], T, [0], 2, -1.0, (-1.0) * (-1.0)) == []
  {
    var P, T := [[0.0, 0.0]], [[0.5, 0.0]];
    var root := Leaf([0.0, 0.0], [0.0, 0.0], 0, 1);
    assert AxisBox(P, 0, 1, 0, 0.0, 0.0) && AxisBox(P, 0, 1, 1, 0.0, 0.0);
    assert AxisTooFar(T[0], root.min, root.max, 0, -1.0);
    assert T[..0] == [];
  }

  /** With a negative radius the Go search also reports pairs that no negative
      radius can admit: a target inside a leaf's box passes the box test, and
      the leaf test compares squared distances with (-1)² = 1. Source points
      0 and 1 on a line form one leaf; the target 0.5 lies at squared distance
      0.25 from each, a positive distance, yet both pairs are reported. */
  lemma NegativeRadiusExtraEdges()
    ensures var P, T := [[0.0], [1.0]], [[0.5]];
      var root := Leaf([0.0], [1.0], 0, 2);
      && NodeValid(root, P, 1, 16)
      && Dist2(P[0], T[0]) == 0.25 && Dist2(P[1], T[0]) == 0.25
      && NodeEdges(root, P, [0, 1], T, [0], 1, -1.0, (-1.0) * (-1.0)) == [Edge(0, 0), Edge(1, 0)]
  {
    var P, T := [[0.0], [1.0]], [[0.5]];
    var root := Leaf([0.0], [1.0], 0, 2);
    assert AxisBox(P, 0, 2, 0, 0.0, 1.0) by {
      assert P[0][0] == 0.0 && P[1][0] == 1.0;
    }
    assert Filter(T, [0], root.min, root.max, -1.0, 1.0) == (T, [0]) by {
      assert !AxisTooFar(T[0], root.min, root.max, 0, -1.0);
      assert Clamp(T[0], root.min, root.max) == T[0];
      assert T[..0] == [] && [0][..0] == [];
      assert [] + [T[0]] == T && [] + [0] == [0];
    }
    assert LeafEdges(P, [0, 1], 0, 2, T, [0], 1, 1.0) == [Edge(0, 0), Edge(1, 0)] by {
      assert T[..0] == [] && [0][..0] == [];
      assert LeafEdges(P, [0, 1], 0, 1, T, [0], 1, 1.0) == [Edge(0, 0)];
    }
  }
}
