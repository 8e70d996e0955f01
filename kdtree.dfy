/** The KD-tree: a static spatial index over a point set.

    The tree owns a private copy of the caller's points, stored one row per
    point in `points`, and a permutation `order` mapping each storage position
    back to the caller's point index. Construction recursively splits the
    position range [start, end) of a node: it sorts the range along the axis of
    widest extent, both arrays together, and cuts it at the first position that
    carries the median value, so that the left child holds the values below the
    split value and the right child the others. */
module KDTrees {
  import opened Tensors
  import opened Points

  // ---------------------------------------------------------------------------
  // Nodes

  /** A node covers the storage positions [startIdx, endIdx) and carries the
      bounding box [min, max] of their points. An internal node splits on
      `splitAxis` at `splitValue`; a leaf has no children. */
  datatype KDTreeNode =
    | Leaf(min: seq<real>, max: seq<real>, startIdx: nat, endIdx: nat)
    | Internal(min: seq<real>, max: seq<real>, startIdx: nat, endIdx: nat,
               splitAxis: nat, splitValue: real, left: KDTreeNode, right: KDTreeNode)
  {
    /** IsLeaf: a node without children, holding only its box and its range. */
    predicate IsLeaf(): (leaf: bool)
      ensures leaf <==> this == Leaf(min, max, startIdx, endIdx)
    {
      Leaf?
    }
  }

  // ---------------------------------------------------------------------------
  // Ranges of rows

  /** Every row at a position of [s, e) has `dim` coordinates. */
  ghost predicate RowsIn(P: seq<seq<real>>, s: nat, e: nat, dim: nat) {
    forall i :: s <= i < e && i < |P| ==> |P[i]| == dim
  }

  /** Axis d of every row in [s, e) lies in [lo, hi], and both bounds are attained. */
  ghost predicate AxisBox(P: seq<seq<real>>, s: nat, e: nat, d: nat, lo: real, hi: real)
    requires e <= |P| && forall i :: s <= i < e ==> d < |P[i]|
  {
    && (forall i :: s <= i < e ==> lo <= P[i][d] <= hi)
    && (exists i :: s <= i < e && P[i][d] == lo)
    && (exists i :: s <= i < e && P[i][d] == hi)
  }

  /** [min, max] is the tight bounding box of the rows in [s, e): it contains
      them all and each bound is attained by one of them. */
  ghost predicate TightBox(min: seq<real>, max: seq<real>, P: seq<seq<real>>, s: nat, e: nat, dim: nat) {
    && |min| == dim && |max| == dim
    && s <= e <= |P|
    && RowsIn(P, s, e, dim)
    && forall d :: 0 <= d < dim ==> AxisBox(P, s, e, d, min[d], max[d])
  }

  /** The rows of A in [s, e) are those of B in [s, e), possibly rearranged. */
  ghost predicate SameRange<T>(A: seq<T>, B: seq<T>, s: nat, e: nat)
    requires s <= e <= |A| && e <= |B|
  {
    multiset(A[s..e]) == multiset(B[s..e])
  }

  /** Positions of A and B outside [s, e) hold the same values. */
  ghost predicate SameOutside<T>(A: seq<T>, B: seq<T>, s: nat, e: nat) {
    |A| == |B| && forall i :: 0 <= i < |A| && (i < s || e <= i) ==> A[i] == B[i]
  }

  /** The identity ordering of n positions. */
  function Iota(n: nat): (r: seq<int>)
    ensures |r| == n && forall i :: 0 <= i < n ==> r[i] == i
  {
    seq(n, i requires 0 <= i < n => i)
  }

  /** o is a permutation of [0, n). */
  ghost predicate IsPermutation(o: seq<int>, n: nat) {
    |o| == n && multiset(o) == multiset(Iota(n))
  }

  /** Each stored row is the caller's row that `order` names for its position. */
  ghost predicate Placed(P: seq<seq<real>>, O: seq<int>, input: seq<seq<real>>) {
    |P| == |O| && forall i :: 0 <= i < |O| ==> 0 <= O[i] < |input| && P[i] == input[O[i]]
  }

  // ---------------------------------------------------------------------------
  // Split axis

  function Extent(min: seq<real>, max: seq<real>, axis: nat): real
    requires axis < |min| && axis < |max|
  {
    max[axis] - min[axis]
  }

  /** axis is the lowest-index axis of largest extent of the box [min, max]. */
  ghost predicate IsFirstWidestAxis(min: seq<real>, max: seq<real>, axis: nat) {
    && |min| == |max| && axis < |min|
    && (forall a :: 0 <= a < |min| ==> Extent(min, max, a) <= Extent(min, max, axis))
    && (forall a :: 0 <= a < axis ==> Extent(min, max, a) < Extent(min, max, axis))
  }

  /** The degenerate leaf: on the widest axis, every position from s up to the
      median position holds the minimum value, so no cut leaves a left child. */
  ghost predicate TiesAtMedian(min: seq<real>, max: seq<real>, P: seq<seq<real>>, s: nat, e: nat)
    requires s < e <= |P| && |min| == |max| && RowsIn(P, s, e, |min|)
  {
    exists axis: nat :: IsFirstWidestAxis(min, max, axis) &&
      forall i :: s <= i <= s + (e - s) / 2 ==> P[i][axis] == min[axis]
  }

  /** The structural invariant of a node built over the rows P with dimension dim.
      An internal node splits its range on the first widest axis at the median
      value: its left child holds the rows below the split value, at most half
      of them, and more than half of the rows are at or below it (SplitIsMedian). */
  ghost predicate NodeValid(node: KDTreeNode, P: seq<seq<real>>, dim: nat, minLeaf: int)
    decreases node
  {
    && node.startIdx < node.endIdx <= |P|
    && TightBox(node.min, node.max, P, node.startIdx, node.endIdx, dim)
    && match node
       case Leaf(min, max, s, e) =>
         || e - s <= minLeaf
         || (forall d :: 0 <= d < dim ==> min[d] == max[d])
         || TiesAtMedian(min, max, P, s, e)
       case Internal(min, max, s, e, axis, sv, left, right) =>
         && e - s > minLeaf
         && IsFirstWidestAxis(min, max, axis) && Extent(min, max, axis) > 0.0
         && left.startIdx == s && left.endIdx == right.startIdx && right.endIdx == e
         && s < left.endIdx <= s + (e - s) / 2
         && (forall i :: s <= i < left.endIdx ==> P[i][axis] < sv)
         && (forall i :: right.startIdx <= i < e ==> sv <= P[i][axis])
         && (exists i :: right.startIdx <= i < e && P[i][axis] == sv)
         && CountUnder(P[s..e], axis, sv, false) > (e - s) / 2
         && NodeValid(left, P, dim, minLeaf)
         && NodeValid(right, P, dim, minLeaf)
  }

  /** Node ranges and boxes fit positions [0, n) and dimension dim, the split
      axis is an axis, and the children of an internal node split its range in
      two: the shape the two queries rely on to walk a tree. */
  ghost predicate Shaped(node: KDTreeNode, n: nat, dim: nat)
    decreases node
  {
    && node.startIdx <= node.endIdx <= n
    && |node.min| == dim && |node.max| == dim
    && (node.Internal? ==>
          && node.splitAxis < dim
          && node.left.startIdx == node.startIdx && node.left.endIdx == node.right.startIdx
          && node.right.endIdx == node.endIdx
          && Shaped(node.left, n, dim) && Shaped(node.right, n, dim))
  }

  lemma {:induction false} ValidIsShaped(node: KDTreeNode, P: seq<seq<real>>, dim: nat, minLeaf: int)
    requires NodeValid(node, P, dim, minLeaf)
    ensures Shaped(node, |P|, dim)
    decreases node
  {
    if node.Internal? {
      ValidIsShaped(node.left, P, dim, minLeaf);
      ValidIsShaped(node.right, P, dim, minLeaf);
    }
  }

  // ---------------------------------------------------------------------------
  // Permutations and rearranged ranges

  /** Every index in idx is a position of a sequence of length n. */
  ghost predicate IndicesBelow(idx: seq<int>, n: int) {
    forall v :: v in idx ==> 0 <= v < n
  }

  /** The elements of Y at the positions idx, in that order. */
  ghost function Pick<T>(Y: seq<T>, idx: seq<int>): (r: seq<T>)
    requires IndicesBelow(idx, |Y|)
    ensures |r| == |idx| && forall k :: 0 <= k < |idx| ==> 0 <= idx[k] < |Y| && r[k] == Y[idx[k]]
  {
    assert forall k :: 0 <= k < |idx| ==> idx[k] in idx;
    seq(|idx|, k requires 0 <= k < |idx| => Y[idx[k]])
  }

  lemma PickConcat<T>(Y: seq<T>, a: seq<int>, b: seq<int>)
    requires IndicesBelow(a, |Y|)
    requires IndicesBelow(b, |Y|)
    ensures multiset(Pick(Y, a + b)) == multiset(Pick(Y, a)) + multiset(Pick(Y, b))
  {
    assert Pick(Y, a + b) == Pick(Y, a) + Pick(Y, b);
  }

  lemma IndicesBelowConcat(a: seq<int>, b: seq<int>, n: int)
    requires IndicesBelow(a, n) && IndicesBelow(b, n)
    ensures IndicesBelow(a + b, n)
  {
  }

  /** The indices before and after position p are in range too. */
  lemma IndicesBelowAround(idx: seq<int>, p: nat, n: int)
    requires IndicesBelow(idx, n) && p < |idx|
    ensures IndicesBelow(idx[..p], n) && IndicesBelow(idx[p + 1..], n)
    ensures IndicesBelow(idx[..p] + idx[p + 1..], n)
  {
    var head := idx[..p];
    forall v | v in head ensures 0 <= v < n {
      var k :| 0 <= k < p && head[k] == v;
      assert idx[k] in idx;
    }
    var tail := idx[p + 1..];
    forall v | v in tail ensures 0 <= v < n {
      var k :| 0 <= k < |tail| && tail[k] == v;
      assert idx[p + 1 + k] in idx;
    }
  }

  /** Removing one occurrence of x from two sequences with the same elements
      leaves two sequences with the same elements. */
  lemma RemoveOne<T>(a: seq<T>, pre: seq<T>, post: seq<T>, x: T)
    requires multiset(a + [x]) == multiset(pre + [x] + post)
    ensures multiset(a) == multiset(pre + post)
  {
    assert multiset(a + [x]) == multiset(a) + multiset{x};
    assert multiset(pre + [x] + post) == multiset(pre + post) + multiset{x} by {
      assert pre + [x] + post == pre + ([x] + post);
    }
    assert multiset(a) == multiset(a + [x]) - multiset{x};
  }

  /** Picking by two index lists with the same elements picks the same elements. */
  lemma {:induction false} PickMultiset<T>(Y: seq<T>, idx1: seq<int>, idx2: seq<int>)
    requires IndicesBelow(idx1, |Y|)
    requires IndicesBelow(idx2, |Y|)
    requires multiset(idx1) == multiset(idx2)
    ensures multiset(Pick(Y, idx1)) == multiset(Pick(Y, idx2))
    decreases |idx1|
  {
    if |idx1| == 0 {
      assert |multiset(idx2)| == 0;
    } else {
      var m := |idx1| - 1;
      var x := idx1[m];
      var init := idx1[..m];
      assert idx1 == init + [x];
      assert x in multiset(idx2) by {
        assert x in multiset(idx1);
      }
      var p :| 0 <= p < |idx2| && idx2[p] == x;
      var pre, post := idx2[..p], idx2[p + 1..];
      assert idx2 == pre + [x] + post;
      IndicesBelowAround(idx1, m, |Y|);
      IndicesBelowAround(idx2, p, |Y|);
      assert multiset(init + [x]) == multiset(pre + [x] + post);
      RemoveOne(init, pre, post, x);
      PickMultiset(Y, init, pre + post);
      assert IndicesBelow([x], |Y|) by {
        assert idx1[m] in idx1;
      }
      PickConcat(Y, init, [x]);
      IndicesBelowConcat(pre, [x], |Y|);
      PickConcat(Y, pre + [x], post);
      PickConcat(Y, pre, [x]);
      PickConcat(Y, pre, post);
    }
  }

  /** Picking all elements of Y through a permutation rearranges Y. */
  lemma PickPermutation<T>(Y: seq<T>, perm: seq<int>)
    requires IsPermutation(perm, |Y|)
    ensures forall k :: 0 <= k < |perm| ==> 0 <= perm[k] < |Y|
    ensures multiset(Pick(Y, perm)) == multiset(Y)
  {
    PermutationFacts(perm, |Y|);
    PickMultiset(Y, perm, Iota(|Y|));
    assert Pick(Y, Iota(|Y|)) == Y;
  }

  /** A permutation of [0, n) takes each value of [0, n) exactly once. */
  lemma PermutationFacts(o: seq<int>, n: nat)
    requires IsPermutation(o, n)
    ensures forall i :: 0 <= i < n ==> 0 <= o[i] < n
    ensures forall i, j :: 0 <= i < j < n ==> o[i] != o[j]
    ensures forall v :: 0 <= v < n ==> v in o
  {
    var I := Iota(n);
    forall i | 0 <= i < n ensures 0 <= o[i] < n {
      assert o[i] in multiset(I);
    }
    forall v | 0 <= v < n ensures v in o {
      assert I[v] == v;
      assert v in multiset(I);
    }
    forall i, j | 0 <= i < j < n ensures o[i] != o[j] {
      PermutationDistinct(o, n, i, j);
    }
  }

  lemma PermutationDistinct(o: seq<int>, n: nat, i: nat, j: nat)
    requires IsPermutation(o, n) && i < j < n
    ensures o[i] != o[j]
  {
    if o[i] == o[j] {
      var v := o[j];
      assert o[..j][i] == v;
      assert v in multiset(o[..j]);
      assert o == o[..j] + [v] + o[j + 1..];
      assert multiset(o)[v] == multiset(o[..j])[v] + 1 + multiset(o[j + 1..])[v];
      IotaCount(n, v);
    }
  }

  /** Each value of [0, n) occurs once in the identity ordering; others never. */
  lemma IotaCount(n: nat, v: int)
    ensures multiset(Iota(n))[v] == if 0 <= v < n then 1 else 0
  {
    var I := Iota(n);
    if 0 <= v < n {
      assert I == I[..v] + [v] + I[v + 1..];
      assert v !in I[..v] && v !in I[v + 1..];
      assert multiset(I)[v] == multiset(I[..v])[v] + 1 + multiset(I[v + 1..])[v];
    } else {
      assert v !in I;
    }
  }

  /** The identity is a permutation. */
  lemma IotaIsPermutation(n: nat)
    ensures IsPermutation(Iota(n), n)
  {
  }

  /** A range holding two parts that are each rearranged is rearranged. */
  lemma SameRangeJoin<T>(A: seq<T>, B: seq<T>, s: nat, m: nat, e: nat)
    requires s <= m <= e <= |A| && e <= |B|
    requires SameRange(A, B, s, m) && SameRange(A, B, m, e)
    ensures SameRange(A, B, s, e)
  {
    assert A[s..e] == A[s..m] + A[m..e];
    assert B[s..e] == B[s..m] + B[m..e];
  }

  /** In a rearranged range, every row of A comes from some position of B. */
  lemma SameRangeSource<T>(A: seq<T>, B: seq<T>, s: nat, e: nat, i: nat) returns (j: nat)
    requires s <= e <= |A| && e <= |B| && SameRange(A, B, s, e) && s <= i < e
    ensures s <= j < e && B[j] == A[i]
  {
    assert A[s..e][i - s] == A[i];
    assert A[i] in multiset(B[s..e]);
    var k :| 0 <= k < e - s && B[s..e][k] == A[i];
    j := s + k;
  }

  /** A rearrangement confined to [s, e) keeps a permutation a permutation. */
  lemma SameRangePermutation(O: seq<int>, O': seq<int>, s: nat, e: nat)
    requires s <= e <= |O| && SameOutside(O', O, s, e) && SameRange(O', O, s, e)
    ensures multiset(O') == multiset(O)
  {
    assert O == O[..s] + O[s..e] + O[e..];
    assert O' == O'[..s] + O'[s..e] + O'[e..];
    assert O'[..s] == O[..s] && O'[e..] == O[e..];
  }

  // ---------------------------------------------------------------------------
  // Counting rows by their value on one axis

  /** Row r has the axis, and its value there is below v (strictly, or at most v). */
  predicate Under(r: seq<real>, axis: nat, v: real, strict: bool) {
    axis < |r| && (if strict then r[axis] < v else r[axis] <= v)
  }

  /** The number of rows of Q whose value on the axis is below v. */
  ghost function CountUnder(Q: seq<seq<real>>, axis: nat, v: real, strict: bool): (c: nat)
    ensures c <= |Q|
    decreases |Q|
  {
    if |Q| == 0 then 0
    else CountUnder(Q[..|Q| - 1], axis, v, strict) + (if Under(Q[|Q| - 1], axis, v, strict) then 1 else 0)
  }

  lemma {:induction false} CountUnderConcat(A: seq<seq<real>>, B: seq<seq<real>>, axis: nat, v: real, strict: bool)
    ensures CountUnder(A + B, axis, v, strict) == CountUnder(A, axis, v, strict) + CountUnder(B, axis, v, strict)
    decreases |B|
  {
    if |B| == 0 {
      assert A + B == A;
    } else {
      var n := |B| - 1;
      assert (A + B)[..|A + B| - 1] == A + B[..n];
      assert (A + B)[|A + B| - 1] == B[n];
      CountUnderConcat(A, B[..n], axis, v, strict);
    }
  }

  /** Rows that are all below v are all counted. */
  lemma {:induction false} CountUnderAll(Q: seq<seq<real>>, axis: nat, v: real, strict: bool)
    requires forall i :: 0 <= i < |Q| ==> Under(Q[i], axis, v, strict)
    ensures CountUnder(Q, axis, v, strict) == |Q|
    decreases |Q|
  {
    if |Q| > 0 {
      CountUnderAll(Q[..|Q| - 1], axis, v, strict);
    }
  }

  /** Rows none of which is below v are not counted. */
  lemma {:induction false} CountUnderNone(Q: seq<seq<real>>, axis: nat, v: real, strict: bool)
    requires forall i :: 0 <= i < |Q| ==> !Under(Q[i], axis, v, strict)
    ensures CountUnder(Q, axis, v, strict) == 0
    decreases |Q|
  {
    if |Q| > 0 {
      CountUnderNone(Q[..|Q| - 1], axis, v, strict);
    }
  }

  /** The count depends only on which rows there are, not on their order. */
  lemma {:induction false} CountUnderPermutation(A: seq<seq<real>>, B: seq<seq<real>>, axis: nat, v: real, strict: bool)
    requires multiset(A) == multiset(B)
    ensures CountUnder(A, axis, v, strict) == CountUnder(B, axis, v, strict)
    decreases |A|
  {
    if |A| == 0 {
      assert |multiset(B)| == 0;
    } else {
      var m := |A| - 1;
      var x := A[m];
      var init := A[..m];
      assert A == init + [x];
      assert x in multiset(B) by {
        assert x in multiset(A);
      }
      var p :| 0 <= p < |B| && B[p] == x;
      var pre, post := B[..p], B[p + 1..];
      assert B == pre + [x] + post;
      RemoveOne(init, pre, post, x);
      CountUnderPermutation(init, pre + post, axis, v, strict);
      CountUnderConcat(init, [x], axis, v, strict);
      CountUnderConcat(pre + [x], post, axis, v, strict);
      CountUnderConcat(pre, [x], axis, v, strict);
      CountUnderConcat(pre, post, axis, v, strict);
    }
  }

  /** A range sorted on the axis holds more than half of its rows at or below
      the value at its median position. */
  lemma SortedMedianCount(P: seq<seq<real>>, s: nat, e: nat, axis: nat, dim: nat)
    requires s < e <= |P| && axis < dim && RowsIn(P, s, e, dim)
    requires forall i, j :: s <= i < j < e ==> P[i][axis] <= P[j][axis]
    ensures CountUnder(P[s..e], axis, P[s + (e - s) / 2][axis], false) > (e - s) / 2
  {
    var k := (e - s) / 2;
    var v := P[s + k][axis];
    var Q := P[s..e];
    var L := Q[..k + 1];
    assert Q == L + Q[k + 1..];
    CountUnderConcat(L, Q[k + 1..], axis, v, false);
    forall i | 0 <= i < |L| ensures Under(L[i], axis, v, false) {
      assert L[i] == P[s + i];
    }
    CountUnderAll(L, axis, v, false);
  }

  /** Rows of R sorted on the axis. */
  ghost predicate SortedOn(R: seq<seq<real>>, axis: nat) {
    forall i, j :: 0 <= i < j < |R| ==> axis < |R[i]| && axis < |R[j]| && R[i][axis] <= R[j][axis]
  }

  /** In rows sorted on the axis, at most k of them below v and more than k of
      them at or below v put v at position k. */
  lemma SortedPosition(R: seq<seq<real>>, axis: nat, v: real, k: nat)
    requires SortedOn(R, axis) && k < |R| && (|R| > 1 || axis < |R[0]|)
    requires CountUnder(R, axis, v, true) <= k < CountUnder(R, axis, v, false)
    ensures axis < |R[k]| && R[k][axis] == v
  {
    assert axis < |R[k]| by {
      if |R| > 1 {
        if k == 0 { assert axis < |R[0]| && axis < |R[1]|; } else { assert axis < |R[0]| && axis < |R[k]|; }
      }
    }
    if R[k][axis] > v {
      SortedAbove(R, axis, v, k);
    } else if R[k][axis] < v {
      SortedBelow(R, axis, v, k);
    }
  }

  /** A row above v at position k of sorted rows leaves at most k rows at or
      below v. */
  lemma SortedAbove(R: seq<seq<real>>, axis: nat, v: real, k: nat)
    requires SortedOn(R, axis) && k < |R| && axis < |R[k]| && R[k][axis] > v
    ensures CountUnder(R, axis, v, false) <= k
  {
    var H := R[k..];
    assert R == R[..k] + H;
    CountUnderConcat(R[..k], H, axis, v, false);
    forall i | 0 <= i < |H| ensures !Under(H[i], axis, v, false) {
      assert H[i] == R[k + i];
    }
    CountUnderNone(H, axis, v, false);
  }

  /** A row below v at position k of sorted rows puts more than k rows below v. */
  lemma SortedBelow(R: seq<seq<real>>, axis: nat, v: real, k: nat)
    requires SortedOn(R, axis) && k < |R| && axis < |R[k]| && R[k][axis] < v
    ensures CountUnder(R, axis, v, true) > k
  {
    var L := R[..k + 1];
    assert R == L + R[k + 1..];
    CountUnderConcat(L, R[k + 1..], axis, v, true);
    forall i | 0 <= i < |L| ensures Under(L[i], axis, v, true) {
      assert L[i] == R[i];
    }
    CountUnderAll(L, axis, v, true);
  }

  /** The rows of an internal node below its split value are exactly those of
      its left child, and more than half of them are at or below it. */
  lemma SplitCounts(node: KDTreeNode, P: seq<seq<real>>, dim: nat, minLeaf: int)
    requires NodeValid(node, P, dim, minLeaf) && node.Internal?
    ensures CountUnder(P[node.startIdx..node.endIdx], node.splitAxis, node.splitValue, true)
      == node.left.endIdx - node.startIdx
    ensures CountUnder(P[node.startIdx..node.endIdx], node.splitAxis, node.splitValue, false)
      > (node.endIdx - node.startIdx) / 2
  {
    ValidIsShaped(node, P, dim, minLeaf);
    assert TightBox(node.min, node.max, P, node.startIdx, node.endIdx, dim);
    SidesCount(P, node.startIdx, node.left.endIdx, node.endIdx, node.splitAxis, node.splitValue, dim);
  }

  /** Rows [s, mid) below sv and rows [mid, e) at or above it: exactly mid - s
      rows of the range are below sv. */
  lemma SidesCount(P: seq<seq<real>>, s: nat, mid: nat, e: nat, axis: nat, sv: real, dim: nat)
    requires s <= mid <= e <= |P| && axis < dim && RowsIn(P, s, e, dim)
    requires forall i :: s <= i < mid ==> P[i][axis] < sv
    requires forall i :: mid <= i < e ==> sv <= P[i][axis]
    ensures CountUnder(P[s..e], axis, sv, true) == mid - s
  {
    var L, H := P[s..mid], P[mid..e];
    assert P[s..e] == L + H;
    CountUnderConcat(L, H, axis, sv, true);
    forall i | 0 <= i < |L| ensures Under(L[i], axis, sv, true) {
      assert L[i] == P[s + i];
    }
    CountUnderAll(L, axis, sv, true);
    forall i | 0 <= i < |H| ensures !Under(H[i], axis, sv, true) {
      assert H[i] == P[mid + i];
    }
    CountUnderNone(H, axis, sv, true);
  }

  /** The split value of an internal node is the median value of its range:
      however the node's rows are sorted on the split axis, the row at the
      median position holds the split value. */
  lemma SplitIsMedian(node: KDTreeNode, P: seq<seq<real>>, dim: nat, minLeaf: int, R: seq<seq<real>>)
    requires NodeValid(node, P, dim, minLeaf) && node.Internal?
    requires multiset(R) == multiset(P[node.startIdx..node.endIdx]) && SortedOn(R, node.splitAxis)
    ensures |R| == node.endIdx - node.startIdx
    ensures node.splitAxis < |R[(node.endIdx - node.startIdx) / 2]|
    ensures R[(node.endIdx - node.startIdx) / 2][node.splitAxis] == node.splitValue
  {
    var s, e, axis, sv := node.startIdx, node.endIdx, node.splitAxis, node.splitValue;
    var Q := P[s..e];
    assert |R| == e - s by {
      assert |multiset(R)| == |multiset(Q)|;
    }
    SplitCounts(node, P, dim, minLeaf);
    CountUnderPermutation(R, Q, axis, sv, true);
    CountUnderPermutation(R, Q, axis, sv, false);
    assert NodeValid(node.right, P, dim, minLeaf);
    SortedPosition(R, axis, sv, (e - s) / 2);
  }

  // ---------------------------------------------------------------------------
  // Boxes of ranges

  lemma TightBoxOrdered(min: seq<real>, max: seq<real>, P: seq<seq<real>>, s: nat, e: nat, dim: nat)
    requires TightBox(min, max, P, s, e, dim) && s < e
    ensures forall d :: 0 <= d < dim ==> min[d] <= max[d]
  {
    forall d | 0 <= d < dim ensures min[d] <= max[d] {
      assert AxisBox(P, s, e, d, min[d], max[d]);
      assert min[d] <= P[s][d] <= max[d];
    }
  }

  lemma TightBoxInBox(min: seq<real>, max: seq<real>, P: seq<seq<real>>, s: nat, e: nat, dim: nat, i: nat)
    requires TightBox(min, max, P, s, e, dim) && s <= i < e
    ensures InBox(P[i], min, max)
  {
    forall d | 0 <= d < dim ensures min[d] <= P[i][d] <= max[d] {
      assert AxisBox(P, s, e, d, min[d], max[d]);
    }
  }

  /** A box computed over the slice P[s..e] is the box of the range [s, e) of P. */
  lemma TightBoxOfSlice(min: seq<real>, max: seq<real>, P: seq<seq<real>>, s: nat, e: nat, dim: nat)
    requires s <= e <= |P| && TightBox(min, max, P[s..e], 0, e - s, dim)
    ensures TightBox(min, max, P, s, e, dim)
  {
    var Q := P[s..e];
    forall i | s <= i < e ensures |P[i]| == dim {
      assert P[i] == Q[i - s];
    }
    forall d | 0 <= d < dim ensures AxisBox(P, s, e, d, min[d], max[d]) {
      assert AxisBox(Q, 0, e - s, d, min[d], max[d]);
      forall i | s <= i < e ensures min[d] <= P[i][d] <= max[d] {
        assert P[i] == Q[i - s];
      }
      var k :| 0 <= k < e - s && Q[k][d] == min[d];
      assert P[s + k] == Q[k];
      var k' :| 0 <= k' < e - s && Q[k'][d] == max[d];
      assert P[s + k'] == Q[k'];
    }
  }

  /** Rearranging the rows of a range keeps its tight box. */
  lemma TightBoxRearranged(min: seq<real>, max: seq<real>, P: seq<seq<real>>, Q: seq<seq<real>>, s: nat, e: nat, dim: nat)
    requires TightBox(min, max, P, s, e, dim) && |Q| == |P| && SameRange(Q, P, s, e)
    ensures TightBox(min, max, Q, s, e, dim)
  {
    forall i | s <= i < e ensures |Q[i]| == dim {
      var j := SameRangeSource(Q, P, s, e, i);
    }
    forall d | 0 <= d < dim ensures AxisBox(Q, s, e, d, min[d], max[d]) {
      assert AxisBox(P, s, e, d, min[d], max[d]);
      forall i | s <= i < e ensures min[d] <= Q[i][d] <= max[d] {
        var j := SameRangeSource(Q, P, s, e, i);
      }
      var j :| s <= j < e && P[j][d] == min[d];
      var i := SameRangeSource(P, Q, s, e, j);
      var j' :| s <= j' < e && P[j'][d] == max[d];
      var i' := SameRangeSource(P, Q, s, e, j');
    }
  }

  /** Rows agreeing on a range have the same tight box there. */
  lemma TightBoxFrame(min: seq<real>, max: seq<real>, P: seq<seq<real>>, Q: seq<seq<real>>, s: nat, e: nat, dim: nat)
    requires TightBox(min, max, P, s, e, dim) && |Q| == |P|
    requires forall i :: s <= i < e ==> Q[i] == P[i]
    ensures TightBox(min, max, Q, s, e, dim)
  {
    forall d | 0 <= d < dim ensures AxisBox(Q, s, e, d, min[d], max[d]) {
      assert AxisBox(P, s, e, d, min[d], max[d]);
      var j :| s <= j < e && P[j][d] == min[d];
      assert Q[j][d] == min[d];
      var j' :| s <= j' < e && P[j'][d] == max[d];
      assert Q[j'][d] == max[d];
    }
  }

  /** The leaf alternatives of NodeValid depend only on the leaf's own rows. */
  lemma LeafFrame(node: KDTreeNode, P: seq<seq<real>>, Q: seq<seq<real>>, dim: nat, minLeaf: int)
    requires node.Leaf? && NodeValid(node, P, dim, minLeaf) && |Q| == |P|
    requires forall i :: node.startIdx <= i < node.endIdx ==> Q[i] == P[i]
    ensures NodeValid(node, Q, dim, minLeaf)
  {
    var min, max, s, e := node.min, node.max, node.startIdx, node.endIdx;
    TightBoxFrame(min, max, P, Q, s, e, dim);
    if e - s > minLeaf && !(forall d :: 0 <= d < dim ==> min[d] == max[d]) {
      TiesFrame(min, max, P, Q, s, e);
    }
  }

  /** Ties at the median depend only on the rows of the range. */
  lemma TiesFrame(min: seq<real>, max: seq<real>, P: seq<seq<real>>, Q: seq<seq<real>>, s: nat, e: nat)
    requires s < e <= |P| == |Q| && |min| == |max| && RowsIn(P, s, e, |min|)
    requires forall i :: s <= i < e ==> Q[i] == P[i]
    requires TiesAtMedian(min, max, P, s, e)
    ensures RowsIn(Q, s, e, |min|) && TiesAtMedian(min, max, Q, s, e)
  {
    var axis: nat :| IsFirstWidestAxis(min, max, axis) &&
      forall i :: s <= i <= s + (e - s) / 2 ==> P[i][axis] == min[axis];
    forall i | s <= i < e ensures |Q[i]| == |min| {
      assert |P[i]| == |min| && Q[i] == P[i];
    }
    forall i | s <= i <= s + (e - s) / 2 ensures Q[i][axis] == min[axis] {
      assert Q[i] == P[i];
    }
  }

  /** An internal node whose children stay valid over new rows that agree on
      its range stays valid. */
  lemma InternalFrame(node: KDTreeNode, P: seq<seq<real>>, Q: seq<seq<real>>, dim: nat, minLeaf: int)
    requires node.Internal? && NodeValid(node, P, dim, minLeaf) && |Q| == |P|
    requires forall i :: node.startIdx <= i < node.endIdx ==> Q[i] == P[i]
    requires NodeValid(node.left, Q, dim, minLeaf) && NodeValid(node.right, Q, dim, minLeaf)
    ensures NodeValid(node, Q, dim, minLeaf)
  {
    var s, e, axis, sv, left, right := node.startIdx, node.endIdx, node.splitAxis, node.splitValue, node.left, node.right;
    TightBoxFrame(node.min, node.max, P, Q, s, e, dim);
    SidesFrame(P, Q, s, left.endIdx, e, axis, sv, dim);
    assert Q[s..e] == P[s..e];
  }

  /** Rows that agree on [s, e) lie on the same sides of a split at m. */
  lemma SidesFrame(P: seq<seq<real>>, Q: seq<seq<real>>, s: nat, m: nat, e: nat, axis: nat, sv: real, dim: nat)
    requires s <= m <= e <= |P| == |Q| && axis < dim && RowsIn(P, s, e, dim)
    requires forall i :: s <= i < e ==> Q[i] == P[i]
    requires forall i :: s <= i < m ==> P[i][axis] < sv
    requires forall i :: m <= i < e ==> sv <= P[i][axis]
    requires exists i :: m <= i < e && P[i][axis] == sv
    ensures forall i :: s <= i < m ==> axis < |Q[i]| && Q[i][axis] < sv
    ensures forall i :: m <= i < e ==> axis < |Q[i]| && sv <= Q[i][axis]
    ensures exists i :: m <= i < e && axis < |Q[i]| && Q[i][axis] == sv
  {
    forall i | s <= i < m ensures axis < |Q[i]| && Q[i][axis] < sv {
      assert |P[i]| == dim && Q[i] == P[i];
    }
    forall i | m <= i < e ensures axis < |Q[i]| && sv <= Q[i][axis] {
      assert |P[i]| == dim && Q[i] == P[i];
    }
    var k :| m <= k < e && P[k][axis] == sv;
    assert Q[k] == P[k];
  }

  /** The validity of a node depends only on the rows of its own range. */
  lemma {:induction false} NodeValidFrame(node: KDTreeNode, P: seq<seq<real>>, Q: seq<seq<real>>, dim: nat, minLeaf: int)
    requires NodeValid(node, P, dim, minLeaf) && |Q| == |P|
    requires forall i :: node.startIdx <= i < node.endIdx ==> Q[i] == P[i]
    ensures NodeValid(node, Q, dim, minLeaf)
    decreases node
  {
    if node.Leaf? {
      LeafFrame(node, P, Q, dim, minLeaf);
    } else {
      assert NodeValid(node.left, P, dim, minLeaf) && NodeValid(node.right, P, dim, minLeaf);
      NodeValidFrame(node.left, P, Q, dim, minLeaf);
      NodeValidFrame(node.right, P, Q, dim, minLeaf);
      InternalFrame(node, P, Q, dim, minLeaf);
    }
  }

  /** Rearranging the rows of a range keeps every row on the same side of a split value. */
  lemma SideRearranged(P: seq<seq<real>>, Q: seq<seq<real>>, s: nat, e: nat, axis: nat, sv: real, below: bool)
    requires s <= e <= |P| && e <= |Q| && SameRange(Q, P, s, e)
    requires forall i :: s <= i < e ==> axis < |P[i]| && (if below then P[i][axis] < sv else sv <= P[i][axis])
    ensures forall i :: s <= i < e ==> axis < |Q[i]| && (if below then Q[i][axis] < sv else sv <= Q[i][axis])
  {
    forall i | s <= i < e ensures axis < |Q[i]| && (if below then Q[i][axis] < sv else sv <= Q[i][axis]) {
      var j := SameRangeSource(Q, P, s, e, i);
    }
  }

  // ---------------------------------------------------------------------------
  // Consequences of the node invariant

  /** The split of an internal node, flattened: the split axis is an axis, the
      rows of the node have the dimension, the left child's rows lie below the
      split value and the right child's rows at or above it. */
  ghost predicate Separated(node: KDTreeNode, P: seq<seq<real>>, dim: nat)
    requires node.Internal?
  {
    && node.splitAxis < dim
    && node.startIdx == node.left.startIdx <= node.left.endIdx == node.right.startIdx <= node.right.endIdx
    && node.right.endIdx == node.endIdx <= |P|
    && RowsIn(P, node.startIdx, node.endIdx, dim)
    && (forall i :: node.left.startIdx <= i < node.left.endIdx ==> P[i][node.splitAxis] < node.splitValue)
    && (forall i :: node.right.startIdx <= i < node.right.endIdx ==> node.splitValue <= P[i][node.splitAxis])
  }

  lemma ValidSeparated(node: KDTreeNode, P: seq<seq<real>>, dim: nat, minLeaf: int)
    requires NodeValid(node, P, dim, minLeaf) && node.Internal?
    ensures Separated(node, P, dim)
  {
    assert TightBox(node.min, node.max, P, node.startIdx, node.endIdx, dim);
    assert IsFirstWidestAxis(node.min, node.max, node.splitAxis);
  }

  /** Every internal node of the subtree is Separated: what a search that
      prunes by the splitting planes relies on. */
  ghost predicate Searchable(node: KDTreeNode, P: seq<seq<real>>, dim: nat)
    decreases node
  {
    node.Internal? ==> Separated(node, P, dim) && Searchable(node.left, P, dim) && Searchable(node.right, P, dim)
  }

  lemma {:induction false} ValidSearchable(node: KDTreeNode, P: seq<seq<real>>, dim: nat, minLeaf: int)
    requires NodeValid(node, P, dim, minLeaf)
    ensures Searchable(node, P, dim)
    decreases node
  {
    if node.Internal? {
      ValidSeparated(node, P, dim, minLeaf);
      ValidSearchable(node.left, P, dim, minLeaf);
      ValidSearchable(node.right, P, dim, minLeaf);
    }
  }

  /** Children's boxes do not overlap on the split axis: the left box ends below
      the split value and the right box starts exactly at it. */
  lemma ChildBoxesSeparated(node: KDTreeNode, P: seq<seq<real>>, dim: nat, minLeaf: int)
    requires NodeValid(node, P, dim, minLeaf) && node.Internal?
    ensures node.splitAxis < |node.left.max| && node.splitAxis < |node.right.min|
    ensures node.left.max[node.splitAxis] < node.splitValue == node.right.min[node.splitAxis]
  {
    var axis, sv, left, right := node.splitAxis, node.splitValue, node.left, node.right;
    assert NodeValid(left, P, dim, minLeaf) && NodeValid(right, P, dim, minLeaf);
    assert AxisBox(P, left.startIdx, left.endIdx, axis, left.min[axis], left.max[axis]);
    assert AxisBox(P, right.startIdx, right.endIdx, axis, right.min[axis], right.max[axis]);
    var i :| left.startIdx <= i < left.endIdx && P[i][axis] == left.max[axis];
    var j :| right.startIdx <= j < right.endIdx && P[j][axis] == right.min[axis];
    var k :| right.startIdx <= k < right.endIdx && P[k][axis] == sv;
  }

  /** What IsLeaf and NumPointsForNode report on a built node: every node holds
      a point; an internal node holds more than minLeaf points, split between
      two non-empty children with the left one at most half; a leaf holding
      more than minLeaf points has a flat box or ties at the median. */
  lemma NodeSizes(node: KDTreeNode, P: seq<seq<real>>, dim: nat, minLeaf: int)
    requires NodeValid(node, P, dim, minLeaf)
    ensures KDTree.NumPointsForNode(node) >= 1
    ensures !node.IsLeaf() ==>
      && KDTree.NumPointsForNode(node) > minLeaf
      && KDTree.NumPointsForNode(node) == KDTree.NumPointsForNode(node.left) + KDTree.NumPointsForNode(node.right)
      && 1 <= KDTree.NumPointsForNode(node.left) <= KDTree.NumPointsForNode(node) / 2
      && KDTree.NumPointsForNode(node.right) >= 1
    ensures node.IsLeaf() && KDTree.NumPointsForNode(node) > minLeaf ==>
      || (forall d :: 0 <= d < dim ==> node.min[d] == node.max[d])
      || TiesAtMedian(node.min, node.max, P, node.startIdx, node.endIdx)
  {
    if node.Internal? {
      assert NodeValid(node.right, P, dim, minLeaf);
    }
  }

  /** A range whose points are all the same point is never split. */
  lemma IdenticalPointsMakeLeaf(node: KDTreeNode, P: seq<seq<real>>, dim: nat, minLeaf: int)
    requires NodeValid(node, P, dim, minLeaf)
    requires forall i :: node.startIdx <= i < node.endIdx ==> P[i] == P[node.startIdx]
    ensures node.Leaf?
  {
  }

  /** An axis on which all points of the range agree is never the split axis. */
  lemma FlatAxisNeverSplit(node: KDTreeNode, P: seq<seq<real>>, dim: nat, minLeaf: int, a: nat, c: real)
    requires NodeValid(node, P, dim, minLeaf) && a < dim
    requires forall i :: node.startIdx <= i < node.endIdx ==> P[i][a] == c
    ensures node.Internal? ==> node.splitAxis != a
  {
    if node.Internal? {
      assert AxisBox(P, node.startIdx, node.endIdx, a, node.min[a], node.max[a]);
    }
  }

  // ---------------------------------------------------------------------------
  // Construction helpers

  /** Extending a scanned prefix by one row widens the per-axis bounds to cover it. */
  lemma AxisBoxStep(P: seq<seq<real>>, i: nat, d: nat, lo: real, hi: real)
    requires i < |P| && forall k :: 0 <= k <= i ==> d < |P[k]|
    requires AxisBox(P, 0, i, d, lo, hi)
    ensures AxisBox(P, 0, i + 1, d, if P[i][d] < lo then P[i][d] else lo, if P[i][d] > hi then P[i][d] else hi)
  {
    var j :| 0 <= j < i && P[j][d] == lo;
    var j' :| 0 <= j' < i && P[j'][d] == hi;
  }

  /** calculateBoundingBox: the per-axis minimum and maximum of a block of points
      (all zero when the block is empty). */
  method CalculateBoundingBox(pointsData: seq<seq<real>>, dimension: nat) returns (minCoords: seq<real>, maxCoords: seq<real>)
    requires RowsIn(pointsData, 0, |pointsData|, dimension)
    ensures |minCoords| == dimension && |maxCoords| == dimension
    ensures |pointsData| == 0 ==> forall d :: 0 <= d < dimension ==> minCoords[d] == 0.0 && maxCoords[d] == 0.0
    ensures |pointsData| > 0 ==> TightBox(minCoords, maxCoords, pointsData, 0, |pointsData|, dimension)
  {
    var mins := new real[dimension](_ => 0.0);
    var maxs := new real[dimension](_ => 0.0);
    var numPoints := |pointsData|;
    if numPoints == 0 {
      return mins[..], maxs[..];
    }
    for d := 0 to dimension
      invariant forall a :: 0 <= a < d ==> AxisBox(pointsData, 0, 1, a, mins[a], maxs[a])
    {
      mins[d] := pointsData[0][d];
      maxs[d] := pointsData[0][d];
      assert AxisBox(pointsData, 0, 1, d, mins[d], maxs[d]);
    }
    for i := 1 to numPoints
      invariant forall a :: 0 <= a < dimension ==> AxisBox(pointsData, 0, i, a, mins[a], maxs[a])
    {
      WidenBox(pointsData, dimension, i, mins, maxs);
    }
    minCoords, maxCoords := mins[..], maxs[..];
  }

  /** The inner loop of calculateBoundingBox: widens every axis's bounds to
      cover row i. */
  method WidenBox(pointsData: seq<seq<real>>, dimension: nat, i: nat, mins: array<real>, maxs: array<real>)
    requires i < |pointsData| && RowsIn(pointsData, 0, |pointsData|, dimension)
    requires mins.Length == dimension && maxs.Length == dimension && mins != maxs
    requires forall a :: 0 <= a < dimension ==> AxisBox(pointsData, 0, i, a, mins[a], maxs[a])
    modifies mins, maxs
    ensures forall a :: 0 <= a < dimension ==> AxisBox(pointsData, 0, i + 1, a, mins[a], maxs[a])
  {
    for d := 0 to dimension
      invariant forall a :: 0 <= a < d ==> AxisBox(pointsData, 0, i + 1, a, mins[a], maxs[a])
      invariant forall a :: d <= a < dimension ==> AxisBox(pointsData, 0, i, a, mins[a], maxs[a])
    {
      var pointVal := pointsData[i][d];
      AxisBoxStep(pointsData, i, d, mins[d], maxs[d]);
      if pointVal < mins[d] {
        mins[d] := pointVal;
      }
      if pointVal > maxs[d] {
        maxs[d] := pointVal;
      }
    }
  }

  /** The max-range loop of buildNode: the lowest-index axis of largest extent. */
  method LargestRangeAxis(minCoords: seq<real>, maxCoords: seq<real>) returns (splitAxis: int, maxRange: real)
    requires |minCoords| == |maxCoords| >= 1
    requires forall a :: 0 <= a < |minCoords| ==> minCoords[a] <= maxCoords[a]
    ensures 0 <= splitAxis < |minCoords|
    ensures IsFirstWidestAxis(minCoords, maxCoords, splitAxis)
    ensures maxRange == Extent(minCoords, maxCoords, splitAxis) >= 0.0
  {
    splitAxis := -1;
    maxRange := -1.0;
    for axis := 0 to |minCoords|
      invariant axis == 0 ==> splitAxis == -1 && maxRange == -1.0
      invariant axis > 0 ==> 0 <= splitAxis < axis && maxRange == Extent(minCoords, maxCoords, splitAxis)
      invariant forall a :: 0 <= a < axis ==> Extent(minCoords, maxCoords, a) <= maxRange
      invariant forall a :: 0 <= a < splitAxis ==> Extent(minCoords, maxCoords, a) < maxRange
    {
      var currentRange := maxCoords[axis] - minCoords[axis];
      if currentRange > maxRange {
        maxRange := currentRange;
        splitAxis := axis;
      }
    }
  }

  /** Every entry of order names a row that has the axis. */
  ghost predicate Keyed(rows: seq<seq<real>>, axis: nat, order: seq<int>) {
    forall k :: 0 <= k < |order| ==> 0 <= order[k] < |rows| && axis < |rows[order[k]]|
  }

  /** One exchange of the insertion loop keeps the entries, their bounds and
      the mid-insertion shape, with the moving element one place lower. */
  lemma ExchangeStep(rows: seq<seq<real>>, axis: nat, O: seq<int>, O': seq<int>, i: nat, j: nat)
    requires 0 < j <= i < |O| && Keyed(rows, axis, O)
    requires Inserting(rows, axis, O, i, j)
    requires rows[O[j]][axis] < rows[O[j - 1]][axis]
    requires O' == O[j := O[j - 1]][j - 1 := O[j]]
    ensures Keyed(rows, axis, O') && multiset(O') == multiset(O)
    ensures Inserting(rows, axis, O', i, j - 1)
  {
    InsertingStep(rows, axis, O, i, j);
  }

  /** The positions order[0..i) are sorted by their rows' value on `axis`. */
  ghost predicate SortedPrefix(rows: seq<seq<real>>, axis: nat, order: seq<int>, i: nat)
    requires Keyed(rows, axis, order)
  {
    forall a, b :: 0 <= a < b < i && b < |order| ==> rows[order[a]][axis] <= rows[order[b]][axis]
  }

  /** Mid-insertion: order[0..i] is sorted except for the element being moved,
      now at j, which is smaller than everything after it. */
  ghost predicate Inserting(rows: seq<seq<real>>, axis: nat, order: seq<int>, i: nat, j: nat)
    requires j <= i < |order|
    requires Keyed(rows, axis, order)
  {
    && (forall a, b :: 0 <= a < b <= i && a != j && b != j ==> rows[order[a]][axis] <= rows[order[b]][axis])
    && (forall b :: j < b <= i ==> rows[order[j]][axis] < rows[order[b]][axis])
  }

  lemma InsertingStep(rows: seq<seq<real>>, axis: nat, order: seq<int>, i: nat, j: nat)
    requires 0 < j <= i < |order|
    requires Keyed(rows, axis, order)
    requires Inserting(rows, axis, order, i, j)
    requires rows[order[j]][axis] < rows[order[j - 1]][axis]
    ensures Inserting(rows, axis, order[j := order[j - 1]][j - 1 := order[j]], i, j - 1)
  {
  }

  lemma InsertingDone(rows: seq<seq<real>>, axis: nat, order: seq<int>, i: nat, j: nat)
    requires j <= i < |order|
    requires Keyed(rows, axis, order)
    requires Inserting(rows, axis, order, i, j)
    requires j == 0 || rows[order[j - 1]][axis] <= rows[order[j]][axis]
    ensures SortedPrefix(rows, axis, order, i + 1)
  {
  }

  /** sort.Slice over the identity index list: the positions of `rows`,
      ordered by their value on `axis`. The Go code calls the library's
      unstable sort; any ordering permutation is acceptable, and this one is
      found by insertion sort with the Go code's comparison. */
  method SortedIndices(rows: seq<seq<real>>, axis: nat) returns (perm: seq<int>)
    requires forall j :: 0 <= j < |rows| ==> axis < |rows[j]|
    ensures IsPermutation(perm, |rows|)
    ensures forall k :: 0 <= k < |perm| ==> 0 <= perm[k] < |rows|
    ensures forall a, b :: 0 <= a < b < |perm| ==> rows[perm[a]][axis] <= rows[perm[b]][axis]
  {
    var n := |rows|;
    var order := new int[n](i => i);
    assert order[..] == Iota(n);
    var i := 1;
    while i < n
      invariant 1 <= i
      invariant forall k :: 0 <= k < n ==> 0 <= order[k] < n
      invariant multiset(order[..]) == multiset(Iota(n))
      invariant SortedPrefix(rows, axis, order[..], i)
    {
      InsertLast(rows, axis, order, i);
      i := i + 1;
    }
    perm := order[..];
  }

  /** One insertion step: moves order[i] down past the larger keys before it. */
  method InsertLast(rows: seq<seq<real>>, axis: nat, order: array<int>, i: nat)
    requires i < order.Length == |rows|
    requires forall j :: 0 <= j < |rows| ==> axis < |rows[j]|
    requires forall k :: 0 <= k < order.Length ==> 0 <= order[k] < |rows|
    requires SortedPrefix(rows, axis, order[..], i)
    modifies order
    ensures forall k :: 0 <= k < order.Length ==> 0 <= order[k] < |rows|
    ensures multiset(order[..]) == old(multiset(order[..]))
    ensures SortedPrefix(rows, axis, order[..], i + 1)
  {
    var j := i;
    while j > 0 && rows[order[j]][axis] < rows[order[j - 1]][axis]
      invariant 0 <= j <= i
      invariant Keyed(rows, axis, order[..])
      invariant multiset(order[..]) == old(multiset(order[..]))
      invariant Inserting(rows, axis, order[..], i, j)
    {
      ghost var O := order[..];
      order[j], order[j - 1] := order[j - 1], order[j];
      ExchangeStep(rows, axis, O, order[..], i, j);
      j := j - 1;
    }
    InsertingDone(rows, axis, order[..], i, j);
  }

  /** Reordering a range by a permutation keeps every row with its order entry,
      keeps order a permutation, and only rearranges the range. */
  lemma ReorderKeepsPlacement(P: seq<seq<real>>, O: seq<int>, P': seq<seq<real>>, O': seq<int>,
                              input: seq<seq<real>>, start: nat, perm: seq<int>, dim: nat)
    requires Placed(P, O, input) && IsPermutation(O, |O|) && RowsIn(input, 0, |input|, dim)
    requires IsPermutation(perm, |perm|) && start + |perm| <= |O|
    requires |P'| == |P| && |O'| == |O|
    requires forall k :: 0 <= k < |perm| ==>
      (0 <= perm[k] < |perm| && P'[start + k] == P[start + perm[k]] && O'[start + k] == O[start + perm[k]])
    requires SameOutside(P', P, start, start + |perm|) && SameOutside(O', O, start, start + |perm|)
    ensures Placed(P', O', input) && IsPermutation(O', |O'|) && RowsIn(P', 0, |P'|, dim)
    ensures SameRange(P', P, start, start + |perm|) && SameRange(O', O, start, start + |perm|)
  {
    var e := start + |perm|;
    forall i | start <= i < e ensures 0 <= O'[i] < |input| && P'[i] == input[O'[i]] {
      assert O'[start + (i - start)] == O[start + perm[i - start]];
      assert P'[start + (i - start)] == P[start + perm[i - start]];
    }
    PickPermutation(P[start..e], perm);
    assert P'[start..e] == Pick(P[start..e], perm);
    PickPermutation(O[start..e], perm);
    assert O'[start..e] == Pick(O[start..e], perm);
    SameRangePermutation(O, O', start, e);
  }

  // ---------------------------------------------------------------------------
  // The tree

  class KDTree {
    /** One row per stored point; rearranged in place during construction. */
    var points: array<seq<real>>
    var numPoints: nat
    var dimension: nat
    /** order[i] is the caller's index of the point stored at position i. */
    var order: array<int>
    var root: KDTreeNode
    /** The caller's points, one row each, as given to NewKDTree. */
    ghost const input: seq<seq<real>>
    /** The leaf-size argument the tree was built with. */
    ghost const minPointsPerLeaf: int

    constructor (pts: array<seq<real>>, n: nat, dim: nat, ord: array<int>, ghost rows: seq<seq<real>>, ghost minLeaf: int)
      ensures points == pts && numPoints == n && dimension == dim && order == ord
      ensures input == rows && minPointsPerLeaf == minLeaf
      ensures root == Leaf([], [], 0, 0)
    {
      points := pts;
      numPoints := n;
      dimension := dim;
      order := ord;
      input := rows;
      minPointsPerLeaf := minLeaf;
      root := Leaf([], [], 0, 0);
    }

    /** Storage and order agree with the caller's points: the invariant kept
        throughout construction. */
    ghost predicate Inv()
      reads this, points, order
    {
      && dimension >= 1
      && points.Length == numPoints && order.Length == numPoints
      && |input| == numPoints
      && RowsIn(input, 0, numPoints, dimension)
      && RowsIn(points[..], 0, numPoints, dimension)
      && Placed(points[..], order[..], input)
      && IsPermutation(order[..], numPoints)
    }

    /** The part of the invariant a query reads (implied by Inv): one row of
        the dimension and one order entry per stored point. */
    ghost predicate Stored()
      reads this, points, order
    {
      && points.Length == numPoints && order.Length == numPoints
      && RowsIn(points[..], 0, numPoints, dimension)
    }

    /** A built tree: the invariant, and a valid root covering every position. */
    ghost predicate Valid()
      reads this, points, order
    {
      && Inv()
      && numPoints >= 1
      && root.startIdx == 0 && root.endIdx == numPoints
      && NodeValid(root, points[..], dimension, minPointsPerLeaf)
    }

    /** NumPointsForNode: the number of positions a node covers; its range is
        [startIdx, startIdx + NumPointsForNode). */
    static function NumPointsForNode(node: KDTreeNode): (n: int)
      ensures node.startIdx + n == node.endIdx
    {
      node.endIdx - node.startIdx
    }

    /** Sorts [start, end) along one axis, moving rows and order entries together
        (the sort.Slice call and the copies through tempPoints/tempOrder). */
    method SortRangeByAxis(start: nat, end: nat, axis: nat)
      requires Inv() && start < end <= numPoints && axis < dimension
      modifies points, order
      ensures Inv()
      ensures SameOutside(points[..], old(points[..]), start, end)
      ensures SameOutside(order[..], old(order[..]), start, end)
      ensures SameRange(points[..], old(points[..]), start, end)
      ensures SameRange(order[..], old(order[..]), start, end)
      ensures forall i, j :: start <= i < j < end ==> points[i][axis] <= points[j][axis]
    {
      var rows := points[start..end];
      assert forall j :: 0 <= j < |rows| ==> rows[j] == points[start + j];
      var perm := SortedIndices(rows, axis);
      PermutationFacts(perm, |perm|);
      ghost var P, O := points[..], order[..];
      ReorderRange(start, perm);
      ReorderKeepsPlacement(P, O, points[..], order[..], input, start, perm, dimension);
      forall i, j | start <= i < j < end ensures points[i][axis] <= points[j][axis] {
        assert points[start + (i - start)] == rows[perm[i - start]];
        assert points[start + (j - start)] == rows[perm[j - start]];
      }
    }

    /** The copy loops of buildNode: position start+k receives the row and order
        entry found at start+perm[k]; everything else stays. */
    method ReorderRange(start: nat, perm: seq<int>)
      requires forall k :: 0 <= k < |perm| ==> 0 <= perm[k] < |perm|
      requires start + |perm| <= points.Length && start + |perm| <= order.Length
      modifies points, order
      ensures forall k :: 0 <= k < |perm| ==>
        points[start + k] == old(points[start + perm[k]]) && order[start + k] == old(order[start + perm[k]])
      ensures SameOutside(points[..], old(points[..]), start, start + |perm|)
      ensures SameOutside(order[..], old(order[..]), start, start + |perm|)
    {
      var tempPoints, tempOrder := GatherRange(start, perm);
      CopyBack(start, tempPoints, tempOrder);
    }

    /** The first copy loop of buildNode: tempPoints[k] and tempOrder[k] take
        the row and order entry at start+perm[k]. */
    method GatherRange(start: nat, perm: seq<int>) returns (tempPoints: array<seq<real>>, tempOrder: array<int>)
      requires forall k :: 0 <= k < |perm| ==> 0 <= perm[k] < |perm|
      requires start + |perm| <= points.Length && start + |perm| <= order.Length
      ensures fresh(tempPoints) && fresh(tempOrder)
      ensures tempPoints.Length == |perm| && tempOrder.Length == |perm|
      ensures forall k :: 0 <= k < |perm| ==>
        tempPoints[k] == points[start + perm[k]] && tempOrder[k] == order[start + perm[k]]
    {
      var numPointsInNode := |perm|;
      tempPoints := new seq<real>[numPointsInNode];
      tempOrder := new int[numPointsInNode];
      for dstIdx := 0 to numPointsInNode
        invariant forall k :: 0 <= k < dstIdx ==>
          tempPoints[k] == points[start + perm[k]] && tempOrder[k] == order[start + perm[k]]
      {
        var srcPointIdx := perm[dstIdx] + start;
        tempPoints[dstIdx] := points[srcPointIdx];
        tempOrder[dstIdx] := order[srcPointIdx];
      }
    }

    /** The second copy loop of buildNode: writes the temporaries back over
        [start, start + n). */
    method CopyBack(start: nat, tempPoints: array<seq<real>>, tempOrder: array<int>)
      requires tempPoints != points && tempOrder != order && tempPoints.Length == tempOrder.Length
      requires start + tempPoints.Length <= points.Length && start + tempPoints.Length <= order.Length
      modifies points, order
      ensures forall k :: 0 <= k < tempPoints.Length ==>
        points[start + k] == tempPoints[k] && order[start + k] == tempOrder[k]
      ensures SameOutside(points[..], old(points[..]), start, start + tempPoints.Length)
      ensures SameOutside(order[..], old(order[..]), start, start + tempPoints.Length)
    {
      ghost var P, O := points[..], order[..];
      for k := 0 to tempPoints.Length
        invariant forall k' :: 0 <= k' < k ==> points[start + k'] == tempPoints[k'] && order[start + k'] == tempOrder[k']
        invariant forall i :: 0 <= i < points.Length && !(start <= i < start + k) ==> points[i] == P[i]
        invariant forall i :: 0 <= i < order.Length && !(start <= i < start + k) ==> order[i] == O[i]
      {
        points[start + k] := tempPoints[k];
        order[start + k] := tempOrder[k];
      }
    }

    /** The split of buildNode: sorts [start, end) along `axis`, takes the value
        at the median position, and moves the cut back over the positions that
        tie with it, so that every value left of the cut is below the split
        value and every value right of it is not. */
    method PartitionAtMedian(start: nat, end: nat, axis: nat) returns (medianPointIdx: nat, splitValue: real)
      requires Inv() && start < end <= numPoints && axis < dimension
      modifies points, order
      ensures Inv()
      ensures SameOutside(points[..], old(points[..]), start, end)
      ensures SameOutside(order[..], old(order[..]), start, end)
      ensures SameRange(points[..], old(points[..]), start, end)
      ensures SameRange(order[..], old(order[..]), start, end)
      ensures forall i, j :: start <= i < j < end ==> points[i][axis] <= points[j][axis]
      ensures splitValue == points[start + (end - start) / 2][axis]
      ensures CountUnder(points[start..end], axis, splitValue, false) > (end - start) / 2
      ensures start <= medianPointIdx <= start + (end - start) / 2
      ensures forall i :: start <= i < medianPointIdx ==> points[i][axis] < splitValue
      ensures forall i :: medianPointIdx <= i < end ==> splitValue <= points[i][axis]
      ensures points[medianPointIdx][axis] == splitValue
      ensures medianPointIdx == start ==>
        forall i :: start <= i <= start + (end - start) / 2 ==> points[i][axis] == splitValue
    {
      SortRangeByAxis(start, end, axis);
      medianPointIdx := start + (end - start) / 2;
      ghost var median := medianPointIdx;
      splitValue := points[medianPointIdx][axis];
      while medianPointIdx > start && points[medianPointIdx - 1][axis] >= splitValue
        invariant start <= medianPointIdx <= median
        invariant forall i :: medianPointIdx <= i <= median ==> points[i][axis] == splitValue
      {
        medianPointIdx := medianPointIdx - 1;
      }
      assert CountUnder(points[start..end], axis, splitValue, false) > (end - start) / 2 by {
        SortedMedianCount(points[..], start, end, axis, dimension);
        assert points[..][start..end] == points[start..end];
      }
    }

    /** The root of NewKDTree: buildNode over every stored position. */
    method BuildRoot(minLeaf: int)
      requires Inv() && numPoints >= 1 && minLeaf == minPointsPerLeaf
      modifies this, points, order
      ensures Valid()
      ensures points == old(points) && order == old(order)
      ensures numPoints == old(numPoints) && dimension == old(dimension)
    {
      var node := BuildNode(0, numPoints, minLeaf);
      root := node;
    }

    /** buildNode: builds the subtree over [start, end), rearranging only that
        range of points and order. */
    method BuildNode(start: nat, end: nat, minPointsPerLeaf: int) returns (node: KDTreeNode)
      requires Inv() && start < end <= numPoints
      modifies points, order
      ensures Inv()
      ensures SameOutside(points[..], old(points[..]), start, end)
      ensures SameOutside(order[..], old(order[..]), start, end)
      ensures SameRange(points[..], old(points[..]), start, end)
      ensures SameRange(order[..], old(order[..]), start, end)
      ensures node.startIdx == start && node.endIdx == end
      ensures NodeValid(node, points[..], dimension, minPointsPerLeaf)
      decreases end - start, 3
    {
      ghost var P0 := points[..];
      var numPointsInNode := end - start;
      var minCoords, maxCoords := CalculateBoundingBox(points[start..end], dimension);
      TightBoxOfSlice(minCoords, maxCoords, P0, start, end, dimension);
      node := Leaf(minCoords, maxCoords, start, end);

      if numPointsInNode <= minPointsPerLeaf {
        LeafNodeValid(minCoords, maxCoords, P0, start, end, dimension, minPointsPerLeaf);
      } else {
        node := SplitNode(start, end, minCoords, maxCoords, minPointsPerLeaf);
      }
    }

    /** buildNode past the leaf-size test: picks the widest axis, partitions at
        the median and builds both children, unless the range is a single
        point or the ties at the median leave no left child. */
    method SplitNode(start: nat, end: nat, minCoords: seq<real>, maxCoords: seq<real>, minPointsPerLeaf: int)
        returns (node: KDTreeNode)
      requires Inv() && start < end <= numPoints && end - start > minPointsPerLeaf
      requires TightBox(minCoords, maxCoords, points[..], start, end, dimension)
      modifies points, order
      ensures Inv()
      ensures SameOutside(points[..], old(points[..]), start, end)
      ensures SameOutside(order[..], old(order[..]), start, end)
      ensures SameRange(points[..], old(points[..]), start, end)
      ensures SameRange(order[..], old(order[..]), start, end)
      ensures node.startIdx == start && node.endIdx == end
      ensures NodeValid(node, points[..], dimension, minPointsPerLeaf)
      decreases end - start, 2
    {
      ghost var P0 := points[..];
      TightBoxOrdered(minCoords, maxCoords, P0, start, end, dimension);
      node := Leaf(minCoords, maxCoords, start, end);
      var splitAxis, maxRange := LargestRangeAxis(minCoords, maxCoords);
      if maxRange == 0.0 {
        // All points of the range coincide: no split is possible.
        ZeroRangeIsFlat(minCoords, maxCoords, splitAxis);
        LeafNodeValid(minCoords, maxCoords, P0, start, end, dimension, minPointsPerLeaf);
        return;
      }

      var medianPointIdx, splitValue := PartitionAtMedian(start, end, splitAxis);
      ghost var P1 := points[..];
      TightBoxRearranged(minCoords, maxCoords, P0, P1, start, end, dimension);
      if medianPointIdx == start {
        // Too many ties at the median: the node stays a leaf.
        DegenerateLeaf(minCoords, maxCoords, P1, start, end, splitAxis, dimension);
        LeafNodeValid(minCoords, maxCoords, P1, start, end, dimension, minPointsPerLeaf);
        return;
      }
      ghost var O1 := order[..];
      node := BuildInternal(start, medianPointIdx, end, minCoords, maxCoords, splitAxis, splitValue, minPointsPerLeaf);
      SameRangeTrans(P0, P1, points[..], start, end);
      SameRangeTrans(old(order[..]), O1, order[..], start, end);
    }

    /** The internal-node case of buildNode: both children are built, over
        [start, mid) and [mid, end), and the node records the split. */
    method BuildInternal(start: nat, mid: nat, end: nat, minCoords: seq<real>, maxCoords: seq<real>,
                         splitAxis: nat, splitValue: real, minPointsPerLeaf: int) returns (node: KDTreeNode)
      requires Inv() && start < mid < end <= numPoints
      requires end - start > minPointsPerLeaf && mid <= start + (end - start) / 2
      requires TightBox(minCoords, maxCoords, points[..], start, end, dimension)
      requires IsFirstWidestAxis(minCoords, maxCoords, splitAxis) && Extent(minCoords, maxCoords, splitAxis) > 0.0
      requires forall i :: start <= i < mid ==> points[i][splitAxis] < splitValue
      requires forall i :: mid <= i < end ==> splitValue <= points[i][splitAxis]
      requires points[mid][splitAxis] == splitValue
      requires CountUnder(points[start..end], splitAxis, splitValue, false) > (end - start) / 2
      modifies points, order
      ensures Inv()
      ensures SameOutside(points[..], old(points[..]), start, end)
      ensures SameOutside(order[..], old(order[..]), start, end)
      ensures SameRange(points[..], old(points[..]), start, end)
      ensures SameRange(order[..], old(order[..]), start, end)
      ensures node.startIdx == start && node.endIdx == end
      ensures NodeValid(node, points[..], dimension, minPointsPerLeaf)
      decreases end - start, 1
    {
      ghost var P1 := points[..];
      assert P1[start..end] == points[start..end];
      var left, right := BuildChildren(start, mid, end, minPointsPerLeaf);
      node := Internal(minCoords, maxCoords, start, end, splitAxis, splitValue, left, right);
      InternalNodeValid(node, P1, points[..], dimension, minPointsPerLeaf);
    }

    /** The two recursive calls of buildNode: the left child over [start, mid),
        then the right child over [mid, end); each rearranges only its half. */
    method BuildChildren(start: nat, mid: nat, end: nat, minPointsPerLeaf: int) returns (left: KDTreeNode, right: KDTreeNode)
      requires Inv() && start < mid < end <= numPoints
      modifies points, order
      ensures Inv()
      ensures SameOutside(points[..], old(points[..]), start, end)
      ensures SameOutside(order[..], old(order[..]), start, end)
      ensures SameRange(points[..], old(points[..]), start, mid) && SameRange(points[..], old(points[..]), mid, end)
      ensures SameRange(points[..], old(points[..]), start, end)
      ensures SameRange(order[..], old(order[..]), start, end)
      ensures left.startIdx == start && left.endIdx == mid && right.startIdx == mid && right.endIdx == end
      ensures NodeValid(left, points[..], dimension, minPointsPerLeaf)
      ensures NodeValid(right, points[..], dimension, minPointsPerLeaf)
      decreases end - start, 0
    {
      ghost var P1, O1 := points[..], order[..];
      left := BuildNode(start, mid, minPointsPerLeaf);
      ghost var P2, O2 := points[..], order[..];
      right := BuildNode(mid, end, minPointsPerLeaf);
      ghost var P3, O3 := points[..], order[..];
      NodeValidFrame(left, P2, P3, dimension, minPointsPerLeaf);
      ChildrenRearranged(P1, P2, P3, start, mid, end);
      ChildrenRearranged(O1, O2, O3, start, mid, end);
    }
  }

  /** A leaf is valid when its box is tight and one of the three reasons not
      to split holds. */
  lemma LeafNodeValid(min: seq<real>, max: seq<real>, P: seq<seq<real>>, s: nat, e: nat, dim: nat, minLeaf: int)
    requires s < e && TightBox(min, max, P, s, e, dim)
    requires || e - s <= minLeaf
             || (forall d :: 0 <= d < dim ==> min[d] == max[d])
             || TiesAtMedian(min, max, P, s, e)
    ensures NodeValid(Leaf(min, max, s, e), P, dim, minLeaf)
  {
  }

  /** Rearranging a range twice, and nothing outside it, rearranges it once. */
  lemma SameRangeTrans<T>(A1: seq<T>, A2: seq<T>, A3: seq<T>, s: nat, e: nat)
    requires |A1| == |A2| == |A3| && s <= e <= |A1|
    requires SameRange(A2, A1, s, e) && SameOutside(A2, A1, s, e)
    requires SameRange(A3, A2, s, e) && SameOutside(A3, A2, s, e)
    ensures SameRange(A3, A1, s, e) && SameOutside(A3, A1, s, e)
  {
  }

  /** A widest extent of zero means the box is a single point. */
  lemma ZeroRangeIsFlat(min: seq<real>, max: seq<real>, axis: nat)
    requires IsFirstWidestAxis(min, max, axis) && Extent(min, max, axis) == 0.0
    requires forall d :: 0 <= d < |min| ==> min[d] <= max[d]
    ensures forall d :: 0 <= d < |min| ==> min[d] == max[d]
  {
    forall d | 0 <= d < |min| ensures min[d] == max[d] {
      assert Extent(min, max, d) <= 0.0;
    }
  }

  /** The degenerate case of buildNode: the scan back over ties reached start. */
  lemma DegenerateLeaf(min: seq<real>, max: seq<real>, P: seq<seq<real>>, s: nat, e: nat, axis: nat, dim: nat)
    requires TightBox(min, max, P, s, e, dim) && s < e && IsFirstWidestAxis(min, max, axis)
    requires forall i, j :: s <= i < j < e ==> P[i][axis] <= P[j][axis]
    requires forall i :: s <= i <= s + (e - s) / 2 ==> P[i][axis] == P[s][axis]
    ensures TiesAtMedian(min, max, P, s, e)
  {
    assert AxisBox(P, s, e, axis, min[axis], max[axis]);
    var j :| s <= j < e && P[j][axis] == min[axis];
    assert P[s][axis] == min[axis] by {
      if s < j { assert P[s][axis] <= P[j][axis]; }
    }
  }

  /** The internal case of buildNode: after the split (rows P1) and building
      both children (rows P3), the node is valid over P3. */
  lemma InternalNodeValid(node: KDTreeNode, P1: seq<seq<real>>, P3: seq<seq<real>>, dim: nat, minLeaf: int)
    requires node.Internal?
    requires |P1| == |P3|
    requires node.left.startIdx == node.startIdx && node.left.endIdx == node.right.startIdx
    requires node.right.endIdx == node.endIdx
    requires node.startIdx < node.right.startIdx < node.endIdx <= |P1|
    requires node.right.startIdx <= node.startIdx + (node.endIdx - node.startIdx) / 2
    requires node.endIdx - node.startIdx > minLeaf
    requires TightBox(node.min, node.max, P1, node.startIdx, node.endIdx, dim)
    requires IsFirstWidestAxis(node.min, node.max, node.splitAxis)
    requires Extent(node.min, node.max, node.splitAxis) > 0.0
    requires forall i :: node.startIdx <= i < node.right.startIdx ==> P1[i][node.splitAxis] < node.splitValue
    requires forall i :: node.right.startIdx <= i < node.endIdx ==> node.splitValue <= P1[i][node.splitAxis]
    requires P1[node.right.startIdx][node.splitAxis] == node.splitValue
    requires CountUnder(P1[node.startIdx..node.endIdx], node.splitAxis, node.splitValue, false) > (node.endIdx - node.startIdx) / 2
    requires SameRange(P3, P1, node.startIdx, node.right.startIdx)
    requires SameRange(P3, P1, node.right.startIdx, node.endIdx)
    requires NodeValid(node.left, P3, dim, minLeaf)
    requires NodeValid(node.right, P3, dim, minLeaf)
    ensures NodeValid(node, P3, dim, minLeaf)
  {
    var s, e, m, axis, sv := node.startIdx, node.endIdx, node.left.endIdx, node.splitAxis, node.splitValue;
    SameRangeJoin(P3, P1, s, m, e);
    TightBoxRearranged(node.min, node.max, P1, P3, s, e, dim);
    SideRearranged(P1, P3, s, m, axis, sv, true);
    SideRearranged(P1, P3, m, e, axis, sv, false);
    var k := SameRangeSource(P1, P3, m, e, m);
    assert P3[k][axis] == sv;
    CountUnderPermutation(P3[s..e], P1[s..e], axis, sv, false);
  }

  /** Building the left child (A1 to A2) and then the right child (A2 to A3)
      rearranges each half and nothing outside. */
  lemma ChildrenRearranged<T>(A1: seq<T>, A2: seq<T>, A3: seq<T>, s: nat, m: nat, e: nat)
    requires |A1| == |A2| == |A3| && s <= m <= e <= |A1|
    requires SameRange(A2, A1, s, m) && SameOutside(A2, A1, s, m)
    requires SameRange(A3, A2, m, e) && SameOutside(A3, A2, m, e)
    ensures SameRange(A3, A1, s, m) && SameRange(A3, A1, m, e) && SameRange(A3, A1, s, e)
    ensures SameOutside(A3, A1, s, e)
  {
    assert A3[s..m] == A2[s..m];
    assert A2[m..e] == A1[m..e];
    SameRangeJoin(A3, A1, s, m, e);
  }

  // ---------------------------------------------------------------------------
  // Construction and reconstruction

  /** NewKDTree: validates the arguments in the order the Go code checks them, copies the
      caller's flat buffer, and builds the tree over all of its points. */
  method NewKDTree(pointsData: seq<real>, dimension: int, minPointsPerLeaf: int) returns (r: Result<KDTree, Error>)
    ensures |pointsData| == 0 ==> r == Failure(EmptyPointsData)
    ensures |pointsData| > 0 && dimension <= 0 ==> r == Failure(NonPositiveDimension)
    ensures |pointsData| > 0 && dimension > 0 && |pointsData| % dimension != 0 ==>
      r == Failure(LengthNotMultipleOfDimension)
    ensures |pointsData| > 0 && dimension > 0 && |pointsData| % dimension == 0 && minPointsPerLeaf < 1 ==>
      r == Failure(MinPointsPerLeafBelowOne)
    ensures r.Success? <==>
      |pointsData| > 0 && dimension > 0 && |pointsData| % dimension == 0 && minPointsPerLeaf >= 1
    ensures r.Success? ==>
      && fresh(r.value) && fresh(r.value.points) && fresh(r.value.order)
      && r.value.Valid()
      && r.value.dimension == dimension
      && r.value.numPoints == |pointsData| / dimension
      && r.value.minPointsPerLeaf == minPointsPerLeaf
      && r.value.input == Rows(pointsData, dimension)
      && Flatten(r.value.input) == pointsData
  {
    if |pointsData| == 0 {
      return Failure(EmptyPointsData);
    }
    if dimension <= 0 {
      return Failure(NonPositiveDimension);
    }
    if |pointsData| % dimension != 0 {
      return Failure(LengthNotMultipleOfDimension);
    }
    if minPointsPerLeaf < 1 {
      return Failure(MinPointsPerLeafBelowOne);
    }
    var tree := BuildTree(pointsData, dimension, minPointsPerLeaf);
    return Success(tree);
  }

  /** The part of NewKDTree after its argument checks: fills the identity
      order, copies the rows and builds the root over all of them. */
  method BuildTree(pointsData: seq<real>, dimension: int, minPointsPerLeaf: int) returns (tree: KDTree)
    requires |pointsData| > 0 && dimension > 0 && |pointsData| % dimension == 0 && minPointsPerLeaf >= 1
    ensures fresh(tree) && fresh(tree.points) && fresh(tree.order)
    ensures tree.Valid()
    ensures tree.dimension == dimension && tree.numPoints == |pointsData| / dimension
    ensures tree.minPointsPerLeaf == minPointsPerLeaf
    ensures tree.input == Rows(pointsData, dimension) && Flatten(tree.input) == pointsData
  {
    var numPoints := |pointsData| / dimension;
    // NewKDTree's separate Go branch for zero points cannot be taken here: the
    // buffer is non-empty and a multiple of the dimension.
    assert numPoints >= 1;
    var points, order := InitialStorage(pointsData, dimension);
    tree := new KDTree(points, numPoints, dimension, order, points[..], minPointsPerLeaf);
    IotaIsPermutation(numPoints);
    tree.BuildRoot(minPointsPerLeaf);
    FlattenRows(pointsData, dimension);
  }

  /** The allocation and the order-filling loop of NewKDTree: one stored row
      per point, in the caller's order, and the identity ordering. */
  method InitialStorage(pointsData: seq<real>, dimension: nat) returns (points: array<seq<real>>, order: array<int>)
    requires dimension > 0
    ensures fresh(points) && fresh(order)
    ensures points[..] == Rows(pointsData, dimension) && order[..] == Iota(|pointsData| / dimension)
  {
    var numPoints := |pointsData| / dimension;
    order := new int[numPoints];
    for i := 0 to numPoints
      invariant forall k :: 0 <= k < i ==> order[k] == k
    {
      order[i] := i;
    }
    var rows := Rows(pointsData, dimension);
    points := new seq<real>[numPoints](i requires 0 <= i < numPoints => rows[i]);
  }

  /** The caller's points recovered from a built tree: the stored row at
      position i goes back to the caller's index order[i]. */
  method ReconstructPoints(kd: KDTree) returns (result: seq<real>)
    requires kd.Inv()
    ensures result == Flatten(kd.input)
  {
    var n := kd.numPoints;
    PermutationFacts(kd.order[..], n);
    var rows := new seq<real>[n];
    for i := 0 to n
      invariant forall k :: 0 <= k < i ==> rows[kd.order[k]] == kd.points[k]
    {
      rows[kd.order[i]] := kd.points[i];
    }
    forall j | 0 <= j < n ensures rows[j] == kd.input[j] {
      assert j in kd.order[..];
      var k :| 0 <= k < n && kd.order[k] == j;
    }
    assert rows[..] == kd.input;
    result := Flatten(rows[..]);
  }
}
