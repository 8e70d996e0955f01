/** Edge-list post-processing: the union of several [2, numEdges] Int32 edge
    tensors without duplicates, and the in-place sort of one edge tensor by
    (source, target).

    An edge tensor keeps its sources in the first row and its targets in the
    second, so in the flat buffer of a [2, n] tensor edge k is the pair
    (flat[k], flat[n + k]). Sorting moves both entries of an edge together. */
module Graph {
  import opened Tensors

  // ---------------------------------------------------------------------------
  // checkEdges

  /** checkEdges: the shape must be [2, numEdges] (checked first), then the
      dtype must be Int32. */
  function CheckEdges(t: Tensor<int>): (r: Option<Error>)
    ensures r.Some? ==> r.value == InvalidEdgesShape || r.value == InvalidEdgesDType
    ensures r == Some(InvalidEdgesDType) ==> |t.shape| == 2 && t.shape[0] == 2
  {
    if |t.shape| != 2 || t.shape[0] != 2 then Some(InvalidEdgesShape)
    else if t.dtype != Int32 then Some(InvalidEdgesDType)
    else None
  }

  /** A well-formed tensor passes checkEdges exactly when it is an edge
      tensor, and a rejected one is rejected for its shape exactly when it is
      not [2, numEdges]. */
  lemma CheckEdgesExact(t: Tensor<int>)
    requires WellFormed(t)
    ensures CheckEdges(t).None? <==> IsEdgeTensor(t)
    ensures CheckEdges(t) == Some(InvalidEdgesShape) <==> !(|t.shape| == 2 && t.shape[0] == 2)
  {
    if |t.shape| == 2 {
      ShapeTwoSize(t.shape);
    }
  }

  // ---------------------------------------------------------------------------
  // UnionEdges: specification

  /** UnionEdges skips a missing input and an input with no elements, before
      checking it. */
  predicate Skipped(t: Option<Tensor<int>>) {
    t.None? || Size(t.value.shape) == 0
  }

  /** Every input UnionEdges looks at passes checkEdges. */
  ghost predicate AllChecked(inputs: seq<Option<Tensor<int>>>) {
    forall k :: 0 <= k < |inputs| && !Skipped(inputs[k]) ==> CheckEdges(inputs[k].value).None?
  }

  /** err is the rejection of the first input that UnionEdges looks at and
      checkEdges rejects. */
  ghost predicate FirstRejection(inputs: seq<Option<Tensor<int>>>, err: Error) {
    exists k :: 0 <= k < |inputs| && !Skipped(inputs[k]) && CheckEdges(inputs[k].value) == Some(err)
      && AllChecked(inputs[..k])
  }

  /** The set of edges a list holds. */
  ghost function Members(s: seq<Edge>): set<Edge> {
    set e | e in s
  }

  /** The edges one input contributes: those of a checked, non-empty edge tensor. */
  ghost function Contribution(t: Option<Tensor<int>>): set<Edge> {
    if !Skipped(t) && IsEdgeTensor(t.value) then Members(EdgesOf(t.value)) else {}
  }

  /** The distinct edges of a list of inputs, input by input. */
  ghost function EdgeSet(inputs: seq<Option<Tensor<int>>>): set<Edge>
    decreases |inputs|
  {
    if |inputs| == 0 then {}
    else EdgeSet(inputs[..|inputs| - 1]) + Contribution(inputs[|inputs| - 1])
  }

  /** e is an edge of some input UnionEdges looks at. */
  ghost predicate InSomeInput(inputs: seq<Option<Tensor<int>>>, e: Edge) {
    exists k :: 0 <= k < |inputs| && !Skipped(inputs[k]) && IsEdgeTensor(inputs[k].value)
      && e in EdgesOf(inputs[k].value)
  }

  /** The union holds exactly the edges that occur in some input. */
  lemma {:induction false} EdgeSetMembers(inputs: seq<Option<Tensor<int>>>, e: Edge)
    ensures e in EdgeSet(inputs) <==> InSomeInput(inputs, e)
    decreases |inputs|
  {
    if |inputs| > 0 {
      var m := |inputs| - 1;
      var front := inputs[..m];
      EdgeSetMembers(front, e);
      if e in EdgeSet(inputs) {
        if e in EdgeSet(front) {
          var k :| 0 <= k < |front| && !Skipped(front[k]) && IsEdgeTensor(front[k].value)
            && e in EdgesOf(front[k].value);
          assert front[k] == inputs[k];
        } else {
          assert e in Contribution(inputs[m]);
        }
      }
      if InSomeInput(inputs, e) {
        var k :| 0 <= k < |inputs| && !Skipped(inputs[k]) && IsEdgeTensor(inputs[k].value)
          && e in EdgesOf(inputs[k].value);
        if k < m {
          assert front[k] == inputs[k];
          assert InSomeInput(front, e);
        } else {
          assert e in Contribution(inputs[m]);
        }
      }
    }
  }

  /** A list with no repeated edge has as many edges as its set of members. */
  lemma {:induction false} DistinctCount(s: seq<Edge>)
    requires NoDuplicates(s)
    ensures |Members(s)| == |s|
    decreases |s|
  {
    if |s| > 0 {
      var front := s[..|s| - 1];
      assert NoDuplicates(front);
      DistinctCount(front);
      assert s == front + [s[|s| - 1]];
      assert s[|s| - 1] !in front;
      assert Members(s) == Members(front) + {s[|s| - 1]};
    }
  }

  // ---------------------------------------------------------------------------
  // UnionEdges

  /** UnionEdges: combines the edges of every non-empty input into one
      [2, numUniqueEdges] Int32 tensor holding each distinct edge once, in no
      particular order. No inputs at all, or an input that checkEdges rejects,
      is an error. */
  method UnionEdges(inputEdges: seq<Option<Tensor<int>>>) returns (r: Result<Tensor<int>, Error>)
    requires forall k :: 0 <= k < |inputEdges| && inputEdges[k].Some? ==> WellFormed(inputEdges[k].value)
    ensures |inputEdges| == 0 ==> r == Failure(NoInputEdges)
    ensures |inputEdges| > 0 && r.Failure? ==> FirstRejection(inputEdges, r.error)
    ensures r.Success? <==> |inputEdges| > 0 && AllChecked(inputEdges)
    ensures r.Success? ==>
      && IsEdgeTensor(r.value) && WellFormed(r.value)
      && NoDuplicates(EdgesOf(r.value))
      && r.value.shape[1] == |EdgeSet(inputEdges)|
      && forall e :: e in EdgesOf(r.value) <==> InSomeInput(inputEdges, e)
  {
    if |inputEdges| == 0 {
      return Failure(NoInputEdges);
    }
    var collected := CollectEdges(inputEdges);
    if collected.Failure? {
      return Failure(collected.error);
    }
    var outputTensor := EdgeSetTensor(inputEdges, collected.value);
    return Success(outputTensor);
  }

  /** The loop of UnionEdges: checks each input that is present and not empty,
      stopping at the first rejection, and gathers the edges into a set. */
  method CollectEdges(inputEdges: seq<Option<Tensor<int>>>) returns (r: Result<set<Edge>, Error>)
    requires forall k :: 0 <= k < |inputEdges| && inputEdges[k].Some? ==> WellFormed(inputEdges[k].value)
    ensures r.Failure? ==> FirstRejection(inputEdges, r.error)
    ensures r.Success? <==> AllChecked(inputEdges)
    ensures r.Success? ==> r.value == EdgeSet(inputEdges)
  {
    var uniqueEdges: set<Edge> := {};
    for k := 0 to |inputEdges|
      invariant uniqueEdges == EdgeSet(inputEdges[..k])
      invariant AllChecked(inputEdges[..k])
    {
      assert inputEdges[..k + 1][..k] == inputEdges[..k];
      var edgesT := inputEdges[k];
      if edgesT.None? || Size(edgesT.value.shape) == 0 {
        continue;
      }
      var err := CheckEdges(edgesT.value);
      if err.Some? {
        assert !Skipped(inputEdges[k]) && CheckEdges(inputEdges[k].value) == Some(err.value);
        return Failure(err.value);
      }
      CheckEdgesExact(edgesT.value);
      uniqueEdges := AddEdges(uniqueEdges, edgesT.value);
    }
    assert inputEdges[..|inputEdges|] == inputEdges;
    return Success(uniqueEdges);
  }

  /** The output of UnionEdges: an Int32 [2, 0] tensor when no edge was found,
      otherwise the edges of the set laid out as a [2, N] tensor. */
  method EdgeSetTensor(inputEdges: seq<Option<Tensor<int>>>, uniqueEdges: set<Edge>) returns (t: Tensor<int>)
    requires uniqueEdges == EdgeSet(inputEdges)
    ensures IsEdgeTensor(t) && WellFormed(t)
    ensures NoDuplicates(EdgesOf(t))
    ensures t.shape[1] == |EdgeSet(inputEdges)|
    ensures forall e :: e in EdgesOf(t) <==> InSomeInput(inputEdges, e)
  {
    if |uniqueEdges| == 0 {
      EdgeTensorSize(0);
      t := Tensor(Int32, [2, 0], []);
    } else {
      t := OutputTensor(uniqueEdges);
      DistinctCount(EdgesOf(t));
    }
    forall e ensures e in EdgesOf(t) <==> InSomeInput(inputEdges, e) {
      EdgeSetMembers(inputEdges, e);
    }
  }

  /** The first |written| edges of a [2, n] flat buffer are the edges of written. */
  ghost predicate LaidOut(written: seq<Edge>, flat: seq<int>, n: nat) {
    && |written| <= n && |flat| == 2 * n
    && forall j :: 0 <= j < |written| ==> written[j] == Edge(flat[j], flat[j + n])
  }

  /** Writing the next edge's source and target extends what the buffer holds by that edge. */
  lemma LaidOutStep(written: seq<Edge>, flat: seq<int>, flat': seq<int>, n: nat, e: Edge)
    requires LaidOut(written, flat, n) && |written| < n
    requires flat' == flat[|written| := e.source][|written| + n := e.target]
    ensures LaidOut(written + [e], flat', n)
  {
  }

  /** A full buffer is the data of the [2, n] edge tensor holding exactly the written edges. */
  lemma LaidOutTensor(written: seq<Edge>, flat: seq<int>)
    requires LaidOut(written, flat, |written|)
    ensures var t := Tensor(Int32, [2, |written|], flat);
      IsEdgeTensor(t) && WellFormed(t) && EdgesOf(t) == written
  {
    var n := |written|;
    EdgeTensorSize(n);
    var t := Tensor(Int32, [2, n], flat);
    forall k | 0 <= k < n ensures EdgesOf(t)[k] == written[k] {
      assert flat[n..][k] == flat[k + n];
    }
  }

  /** Part way through enumerating a set: the edges written so far, each once,
      and the edges remaining split the set between them. */
  ghost predicate Enumerating(all: set<Edge>, remaining: set<Edge>, written: seq<Edge>) {
    && remaining !! Members(written) && remaining + Members(written) == all
    && NoDuplicates(written) && |written| + |remaining| == |all|
  }

  /** Moving one remaining edge to the end of the written ones keeps the split. */
  lemma EnumeratingStep(all: set<Edge>, remaining: set<Edge>, written: seq<Edge>, e: Edge)
    requires Enumerating(all, remaining, written) && e in remaining
    ensures Enumerating(all, remaining - {e}, written + [e])
  {
    assert e !in written;
    assert Members(written + [e]) == Members(written) + {e};
    NoDuplicatesAppend(written, e);
  }

  /** The output part of UnionEdges: writes every edge of the set once, the
      sources in the first row and the targets in the second, advancing an
      edge counter, in whatever order the set is enumerated. */
  method OutputTensor(uniqueEdges: set<Edge>) returns (t: Tensor<int>)
    ensures IsEdgeTensor(t) && WellFormed(t) && t.shape[1] == |uniqueEdges|
    ensures NoDuplicates(EdgesOf(t)) && Members(EdgesOf(t)) == uniqueEdges
  {
    var numUniqueEdges := |uniqueEdges|;
    var flat := new int[2 * numUniqueEdges];
    var remaining := uniqueEdges;
    var edgeIdx := 0;
    ghost var written: seq<Edge> := [];
    while remaining != {}
      invariant edgeIdx == |written| && Enumerating(uniqueEdges, remaining, written)
      invariant LaidOut(written, flat[..], numUniqueEdges)
      decreases |remaining|
    {
      var e :| e in remaining;
      EnumeratingStep(uniqueEdges, remaining, written, e);
      PutEdge(flat, edgeIdx, numUniqueEdges, e, written);
      edgeIdx := edgeIdx + 1;
      remaining := remaining - {e};
      written := written + [e];
    }
    LaidOutTensor(written, flat[..]);
    t := Tensor(Int32, [2, numUniqueEdges], flat[..]);
  }

  /** One step of the output loop: the edge's source goes to the first row and
      its target to the second, at column edgeIdx. */
  method PutEdge(flat: array<int>, edgeIdx: nat, n: nat, e: Edge, ghost written: seq<Edge>)
    requires edgeIdx == |written| < n && LaidOut(written, flat[..], n)
    modifies flat
    ensures LaidOut(written + [e], flat[..], n)
  {
    ghost var before := flat[..];
    flat[edgeIdx] := e.source;
    flat[edgeIdx + n] := e.target;
    LaidOutStep(written, before, flat[..], n, e);
  }

  /** The inner loop of UnionEdges: inserts every edge of one checked input. */
  method AddEdges(uniqueEdges: set<Edge>, t: Tensor<int>) returns (u: set<Edge>)
    requires IsEdgeTensor(t)
    ensures u == uniqueEdges + Members(EdgesOf(t))
  {
    var numEdges := t.shape[1];
    var sourceNodes, targetNodes := t.data[..numEdges], t.data[numEdges..];
    u := uniqueEdges;
    for i := 0 to numEdges
      invariant u == uniqueEdges + Members(EdgesOf(t)[..i])
    {
      assert EdgesOf(t)[..i + 1] == EdgesOf(t)[..i] + [Edge(sourceNodes[i], targetNodes[i])];
      u := u + {Edge(sourceNodes[i], targetNodes[i])};
    }
    assert EdgesOf(t)[..numEdges] == EdgesOf(t);
  }

  // ---------------------------------------------------------------------------
  // edgesSortableBySource: the flat buffer as a list of edges

  /** Len: the number of edges, half the flat length. */
  function Len(flat: seq<int>): (n: nat)
    ensures 2 * n <= |flat| <= 2 * n + 1
  {
    |flat| / 2
  }

  /** The edges of a flat buffer, edge k being (flat[k], flat[Len + k]). */
  function EdgeList(flat: seq<int>): (E: seq<Edge>)
    ensures |E| == Len(flat)
    ensures forall k :: 0 <= k < |E| ==> E[k] == Edge(flat[k], flat[Len(flat) + k])
  {
    seq(Len(flat), k requires 0 <= k < Len(flat) => Edge(flat[k], flat[Len(flat) + k]))
  }

  /** The flat buffer of an edge tensor lists exactly the tensor's edges. */
  lemma EdgeListOf(t: Tensor<int>)
    requires IsEdgeTensor(t)
    ensures EdgeList(t.data) == EdgesOf(t)
  {
    assert |EdgeList(t.data)| == |EdgesOf(t)|;
  }

  /** Strict lexicographic order on edges: by source, then by target. */
  predicate EdgeBefore(a: Edge, b: Edge) {
    a.source < b.source || (a.source == b.source && a.target < b.target)
  }

  /** Edges in non-decreasing (source, target) order. */
  ghost predicate SortedBySource(E: seq<Edge>) {
    forall a, b :: 0 <= a < b < |E| ==> !EdgeBefore(E[b], E[a])
  }

  /** EdgeBefore is a strict total order: of two different edges exactly one comes first. */
  lemma EdgeBeforeTotal(a: Edge, b: Edge)
    ensures !EdgeBefore(a, a)
    ensures a != b ==> (EdgeBefore(a, b) <==> !EdgeBefore(b, a))
  {
  }

  /** Less: edge i sorts before edge j. */
  function Less(flat: seq<int>, i: int, j: int): (r: bool)
    requires 0 <= i < Len(flat) && 0 <= j < Len(flat)
    ensures r <==> EdgeBefore(EdgeList(flat)[i], EdgeList(flat)[j])
  {
    if flat[i] != flat[j] then flat[i] < flat[j]
    else
      var numEdges := Len(flat);
      flat[i + numEdges] < flat[j + numEdges]
  }

  /** E with the elements at positions i and j exchanged. */
  function Exchange(E: seq<Edge>, i: nat, j: nat): (E': seq<Edge>)
    requires i < |E| && j < |E|
    ensures |E'| == |E| && E'[i] == E[j] && E'[j] == E[i]
    ensures forall k :: 0 <= k < |E| && k != i && k != j ==> E'[k] == E[k]
  {
    E[i := E[j]][j := E[i]]
  }

  /** The four writes of Swap exchange edges i and j of the buffer and
      nothing else. */
  lemma SwapEdges(F: seq<int>, G: seq<int>, i: nat, j: nat)
    requires i < Len(F) && j < Len(F)
    requires G == F[i := F[j]][j := F[i]][i + Len(F) := F[j + Len(F)]][j + Len(F) := F[i + Len(F)]]
    ensures EdgeList(G) == Exchange(EdgeList(F), i, j)
    ensures |F| % 2 == 1 ==> G[|F| - 1] == F[|F| - 1]
  {
    var E := Exchange(EdgeList(F), i, j);
    forall k | 0 <= k < Len(F) ensures EdgeList(G)[k] == E[k] {
    }
  }

  /** Swap: exchanges edges i and j, the source entries and the target entries
      together; an odd trailing element stays where it is. */
  method Swap(flat: array<int>, i: int, j: int)
    requires 0 <= i < Len(flat[..]) && 0 <= j < Len(flat[..])
    modifies flat
    ensures EdgeList(flat[..]) == Exchange(old(EdgeList(flat[..])), i, j)
    ensures flat.Length % 2 == 1 ==> flat[flat.Length - 1] == old(flat[flat.Length - 1])
  {
    ghost var F := flat[..];
    var numEdges := Len(flat[..]);
    flat[i], flat[j] := flat[j], flat[i];
    flat[i + numEdges], flat[j + numEdges] := flat[j + numEdges], flat[i + numEdges];
    SwapEdges(F, flat[..], i, j);
  }

  /** Exchanging two elements keeps the multiset. */
  lemma SwapPermutes(E: seq<Edge>, i: nat, j: nat)
    requires i < |E| && j < |E|
    ensures multiset(Exchange(E, i, j)) == multiset(E)
  {
  }

  // ---------------------------------------------------------------------------
  // SortEdgesBySource

  /** Insertion of edge j into the sorted edges [0, i]: every pair of
      positions up to i is in order, except pairs ending at the hole j. */
  ghost predicate SortedAroundHole(E: seq<Edge>, i: nat, j: nat) {
    && j <= i < |E|
    && forall a, b :: 0 <= a < b <= i && b != j ==> !EdgeBefore(E[b], E[a])
  }

  lemma InsertStart(E: seq<Edge>, i: nat)
    requires i < |E| && SortedBySource(E[..i])
    ensures SortedAroundHole(E, i, i)
  {
    forall a, b | 0 <= a < b < i ensures !EdgeBefore(E[b], E[a]) {
      assert E[..i][a] == E[a] && E[..i][b] == E[b];
    }
  }

  /** Swapping the edge at the hole with an edge after it that it sorts before
      moves the hole one position down. */
  lemma InsertStep(E: seq<Edge>, i: nat, j: nat)
    requires SortedAroundHole(E, i, j) && 0 < j && EdgeBefore(E[j], E[j - 1])
    ensures SortedAroundHole(Exchange(E, j, j - 1), i, j - 1)
  {
  }

  /** Once the edge at the hole does not sort before its predecessor, [0, i] is sorted. */
  lemma InsertDone(E: seq<Edge>, i: nat, j: nat)
    requires SortedAroundHole(E, i, j) && (j == 0 || !EdgeBefore(E[j], E[j - 1]))
    ensures SortedBySource(E[..i + 1])
  {
    forall a, b | 0 <= a < b <= i ensures !EdgeBefore(E[b], E[a]) {
      if b == j && a < j - 1 {
        assert !EdgeBefore(E[j - 1], E[a]);
      }
    }
  }

  /** The sorting step: edges reordered by (source, target) using only Less
      and Swap. */
  method SortFlat(flat: array<int>)
    modifies flat
    ensures SortedBySource(EdgeList(flat[..]))
    ensures multiset(EdgeList(flat[..])) == multiset(old(EdgeList(flat[..])))
  {
    var n := Len(flat[..]);
    for i := 0 to n
      invariant n == Len(flat[..])
      invariant SortedBySource(EdgeList(flat[..])[..i])
      invariant multiset(EdgeList(flat[..])) == multiset(old(EdgeList(flat[..])))
    {
      InsertEdge(flat, i);
    }
    assert EdgeList(flat[..])[..n] == EdgeList(flat[..]);
  }

  /** One insertion: moves edge i down past the edges before it that it sorts
      before. */
  method InsertEdge(flat: array<int>, i: nat)
    requires i < Len(flat[..]) && SortedBySource(EdgeList(flat[..])[..i])
    modifies flat
    ensures Len(flat[..]) == old(Len(flat[..]))
    ensures SortedBySource(EdgeList(flat[..])[..i + 1])
    ensures multiset(EdgeList(flat[..])) == multiset(old(EdgeList(flat[..])))
  {
    InsertStart(EdgeList(flat[..]), i);
    var j := i;
    while j > 0 && Less(flat[..], j, j - 1)
      invariant Len(flat[..]) == old(Len(flat[..]))
      invariant SortedAroundHole(EdgeList(flat[..]), i, j)
      invariant multiset(EdgeList(flat[..])) == multiset(old(EdgeList(flat[..])))
    {
      ghost var E := EdgeList(flat[..]);
      InsertStep(E, i, j);
      SwapPermutes(E, j, j - 1);
      Swap(flat, j, j - 1);
      j := j - 1;
    }
    InsertDone(EdgeList(flat[..]), i, j);
  }

  /** SortEdgesBySource: checks the tensor, then sorts its edges in place by
      (source, target). A rejected tensor is left as it was. */
  method SortEdgesBySource(dtype: DType, shape: seq<nat>, flat: array<int>) returns (err: Option<Error>)
    requires flat.Length == Size(shape)
    modifies flat
    ensures err == CheckEdges(Tensor(dtype, shape, old(flat[..])))
    ensures err.Some? ==> flat[..] == old(flat[..])
    ensures err.None? ==>
      && IsEdgeTensor(Tensor(dtype, shape, flat[..]))
      && SortedBySource(EdgesOf(Tensor(dtype, shape, flat[..])))
      && multiset(EdgesOf(Tensor(dtype, shape, flat[..]))) == multiset(old(EdgesOf(Tensor(dtype, shape, flat[..]))))
  {
    err := CheckEdges(Tensor(dtype, shape, flat[..]));
    if err.Some? {
      return;
    }
    CheckEdgesExact(Tensor(dtype, shape, flat[..]));
    EdgeListOf(Tensor(dtype, shape, flat[..]));
    SortFlat(flat);
    EdgeListOf(Tensor(dtype, shape, flat[..]));
  }

  // ---------------------------------------------------------------------------
  // What sorting determines

  /** Two sorted lists of the same non-empty multiset of edges start with the same edge. */
  lemma SortedHeadsEqual(A: seq<Edge>, B: seq<Edge>)
    requires SortedBySource(A) && SortedBySource(B) && multiset(A) == multiset(B)
    requires |A| > 0 && |B| > 0
    ensures A[0] == B[0]
  {
    assert A[0] in multiset(B) && B[0] in multiset(A);
    var k :| 0 <= k < |B| && B[k] == A[0];
    var m :| 0 <= m < |A| && A[m] == B[0];
    assert !EdgeBefore(A[m], A[0]) by { if m > 0 { } }
    assert !EdgeBefore(B[k], B[0]) by { if k > 0 { } }
    EdgeBeforeTotal(A[0], B[0]);
  }

  /** Two sorted lists of the same edges are the same list: the result of
      SortEdgesBySource does not depend on the order the edges came in. */
  lemma {:induction false} SortedUnique(A: seq<Edge>, B: seq<Edge>)
    requires SortedBySource(A) && SortedBySource(B) && multiset(A) == multiset(B)
    ensures A == B
    decreases |A|
  {
    assert |A| == |multiset(A)| == |multiset(B)| == |B|;
    if |A| > 0 {
      SortedHeadsEqual(A, B);
      assert A == [A[0]] + A[1..] && B == [B[0]] + B[1..];
      assert multiset(A) == multiset{A[0]} + multiset(A[1..]);
      assert multiset(B) == multiset{A[0]} + multiset(B[1..]);
      forall x ensures multiset(A[1..])[x] == multiset(B[1..])[x] {
        assert multiset(A)[x] == multiset(B)[x];
      }
      assert multiset(A[1..]) == multiset(B[1..]);
      assert SortedBySource(A[1..]) && SortedBySource(B[1..]);
      SortedUnique(A[1..], B[1..]);
    }
  }
}
