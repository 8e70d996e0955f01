/** Value types shared by the spatial index, the two edge queries and the edge
    post-processing: optional values and results, the tensor container the
    public entry points receive and return, edges, and the error kinds. */
module Tensors {

  datatype Option<+T> = None | Some(value: T)

  datatype Result<+T, +E> = Success(value: T) | Failure(error: E)

  /** Element type tag of a tensor. Only the two float types are accepted as
      point coordinates; edge lists are Int32. */
  datatype DType = Float32 | Float64 | Int32 | Int64 | Bool

  predicate IsFloat(dtype: DType) {
    dtype == Float32 || dtype == Float64
  }

  /** A tensor: a dtype tag, a shape and its elements flattened in row-major order.
      Coordinates are modelled as reals and edge indices as ints, whatever the tag says. */
  datatype Tensor<T> = Tensor(dtype: DType, shape: seq<nat>, data: seq<T>)

  /** Number of elements of a tensor with the given shape. */
  function Size(shape: seq<nat>): nat {
    if |shape| == 0 then 1 else shape[0] * Size(shape[1..])
  }

  /** The container's own invariant: the flat data holds exactly Size(shape) elements. */
  ghost predicate WellFormed<T>(t: Tensor<T>) {
    |t.data| == Size(t.shape)
  }

  /** One edge, from a source point index to a target point index. */
  datatype Edge = Edge(source: int, target: int)

  /** The edges held by two parallel index lists, edge k joining sources[k] to targets[k]. */
  function Zip(sources: seq<int>, targets: seq<int>): seq<Edge>
    requires |sources| == |targets|
  {
    seq(|sources|, k requires 0 <= k < |sources| => Edge(sources[k], targets[k]))
  }

  lemma ZipAppend(sources: seq<int>, targets: seq<int>, s: int, t: int)
    requires |sources| == |targets|
    ensures Zip(sources + [s], targets + [t]) == Zip(sources, targets) + [Edge(s, t)]
  {
    assert |Zip(sources + [s], targets + [t])| == |Zip(sources, targets) + [Edge(s, t)]|;
  }

  /** An edge tensor: Int32, shaped [2, numEdges], the sources in the first row
      and the targets in the second. */
  ghost predicate IsEdgeTensor(t: Tensor<int>) {
    t.dtype == Int32 && |t.shape| == 2 && t.shape[0] == 2 && |t.data| == 2 * t.shape[1]
  }

  /** The edges an edge tensor holds, edge k joining data[k] to data[numEdges + k]. */
  function EdgesOf(t: Tensor<int>): seq<Edge>
    requires |t.shape| == 2 && |t.data| == 2 * t.shape[1]
  {
    Zip(t.data[..t.shape[1]], t.data[t.shape[1]..])
  }

  /** An edge tensor's shape accounts for exactly its elements. */
  lemma EdgeTensorSize(n: nat)
    ensures Size([2, n]) == 2 * n
  {
    assert [2, n][1..] == [n] && [n][1..] == [];
    assert Size([n]) == n * Size([]);
  }

  /** The [2, numEdges] tensor laid out from two equal-length index lists holds their edges. */
  lemma EdgeTensorOf(sources: seq<int>, targets: seq<int>)
    requires |sources| == |targets|
    ensures var t := Tensor(Int32, [2, |sources|], sources + targets);
      IsEdgeTensor(t) && WellFormed(t) && EdgesOf(t) == Zip(sources, targets)
  {
    var n := |sources|;
    EdgeTensorSize(n);
    assert (sources + targets)[..n] == sources;
    assert (sources + targets)[n..] == targets;
  }

  /** Both point tensors are rank 2 with the same point dimension. */
  ghost predicate ShapesChecked<T>(source: Tensor<T>, target: Tensor<T>) {
    |source.shape| == 2 && |target.shape| == 2 && source.shape[1] == target.shape[1]
  }

  /** Ranks, dimensions and dtypes of the two point tensors pass Done's checks. */
  ghost predicate ArgumentsChecked<T>(source: Tensor<T>, target: Tensor<T>) {
    ShapesChecked(source, target) && source.dtype == target.dtype && IsFloat(source.dtype)
  }

  /** A rank-2 shape [n, d] holds n * d elements. */
  lemma ShapeTwoSize(shape: seq<nat>)
    requires |shape| == 2
    ensures Size(shape) == shape[0] * shape[1]
  {
    assert Size(shape[1..]) == shape[1] * Size(shape[1..][1..]);
    assert shape[1..][1..] == [];
  }

  /** A sequence in which no element occurs twice. */
  ghost predicate NoDuplicates<T>(s: seq<T>) {
    forall i, j :: 0 <= i < j < |s| ==> s[i] != s[j]
  }

  lemma NoDuplicatesAppend<T>(s: seq<T>, x: T)
    requires NoDuplicates(s) && x !in s
    ensures NoDuplicates(s + [x])
  {
  }

  /** Every error the modelled operations report. The source reports them as
      formatted strings; each distinct message is one constructor here. */
  datatype Error =
    // NewKDTree
    | EmptyPointsData
    | NonPositiveDimension
    | LengthNotMultipleOfDimension
    | MinPointsPerLeafBelowOne
    // RadiusEdgesConfig.Done and NearestEdgesConfig.Done
    | RankNotTwo
    | DimensionMismatch
    | DTypeMismatch            // also used when both dtypes agree but are not a float type
    | KDTreeFailed(cause: Error)
    | NoEdgesFound
    | NegativeRadius
    | EmptyInput
    // UnionEdges, SortEdgesBySource
    | NoInputEdges
    | InvalidEdgesShape
    | InvalidEdgesDType
}
