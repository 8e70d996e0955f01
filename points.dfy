/** Point sets and distances.

    Callers hand point sets over as flat row-major buffers: point i of a set of
    dimension D occupies flat[i*D .. (i+1)*D). Inside the model a point set is
    the sequence of those rows (`Rows`), and distances are squared Euclidean
    distances over reals. */
module Points {

  /** Squares are all the distance computations need. */
  function Sq(x: real): real {
    x * x
  }

  lemma SqNonNegative(x: real)
    ensures Sq(x) >= 0.0
  {
    if x < 0.0 { assert Sq(x) == (-x) * (-x); }
  }

  lemma SqMonotone(x: real, y: real)
    requires 0.0 <= x <= y
    ensures Sq(x) <= Sq(y)
  {
    assert x * x <= x * y;
    assert x * y <= y * y;
  }

  lemma SqStrictMonotone(x: real, y: real)
    requires 0.0 <= x < y
    ensures Sq(x) < Sq(y)
  {
    MulPositive(y - x, y + x);
    assert (y - x) * (y + x) == y * y - x * x;
  }

  lemma MulPositive(a: real, b: real)
    requires a > 0.0 && b > 0.0
    ensures a * b > 0.0
  {
  }

  // ---------------------------------------------------------------------------
  // Flat buffers and rows

  /** Euclidean division facts Z3 does not find on its own. */
  lemma DivUnique(x: int, d: int, q: int, r: int)
    requires d > 0 && 0 <= r < d && x == q * d + r
    ensures x / d == q && x % d == r
  {
    var q0, r0 := x / d, x % d;
    var k := q - q0;
    assert k * d == r0 - r;
    if k >= 1 {
      assert false;
    } else if k <= -1 {
      assert false;
    }
  }

  lemma DivStep(x: int, d: int)
    requires d > 0 && x >= d
    ensures (x - d) / d == x / d - 1 && (x - d) % d == x % d
  {
    DivUnique(x - d, d, x / d - 1, x % d);
  }

  lemma DivExact(a: nat, b: nat)
    requires b > 0
    ensures (a * b) / b == a && (a * b) % b == 0
  {
    DivUnique(a * b, b, a, 0);
  }

  /** The points of a flat row-major buffer of dimension `dim`; a trailing
      partial row is not a point (as `len(flat) / dim` in the source). */
  function Rows(flat: seq<real>, dim: nat): (rows: seq<seq<real>>)
    requires dim > 0
    ensures |rows| == |flat| / dim
    ensures forall i :: 0 <= i < |rows| ==> |rows[i]| == dim
    decreases |flat|
  {
    if |flat| < dim then
      assert |flat| / dim == 0 by { DivUnique(|flat|, dim, 0, |flat|); }
      []
    else
      DivStep(|flat|, dim);
      [flat[..dim]] + Rows(flat[dim..], dim)
  }

  /** The flat row-major buffer of a sequence of rows. */
  function Flatten(rows: seq<seq<real>>): seq<real> {
    if |rows| == 0 then [] else rows[0] + Flatten(rows[1..])
  }

  /** Splitting a buffer whose length is a multiple of the dimension into rows
      and laying them out again gives back the buffer. */
  lemma {:induction false} FlattenRows(flat: seq<real>, dim: nat)
    requires dim > 0 && |flat| % dim == 0
    ensures Flatten(Rows(flat, dim)) == flat
    decreases |flat|
  {
    if |flat| < dim {
      DivUnique(|flat|, dim, 0, |flat|);
    } else {
      DivStep(|flat|, dim);
      FlattenRows(flat[dim..], dim);
      assert Rows(flat, dim)[1..] == Rows(flat[dim..], dim);
      assert flat == flat[..dim] + flat[dim..];
    }
  }

  /** Row i of a flat buffer is the slice flat[i*dim .. (i+1)*dim) the source indexes. */
  lemma {:induction false} RowsAt(flat: seq<real>, dim: nat, i: nat)
    requires dim > 0 && i < |flat| / dim
    ensures (i + 1) * dim <= |flat|
    ensures Rows(flat, dim)[i] == flat[i * dim .. (i + 1) * dim]
    decreases i
  {
    if |flat| < dim {
      DivUnique(|flat|, dim, 0, |flat|);
    } else {
      DivStep(|flat|, dim);
      if i > 0 {
        var rest := flat[dim..];
        RowsAt(rest, dim, i - 1);
        var lo, hi := (i - 1) * dim, i * dim;
        assert lo + dim == hi && hi + dim == (i + 1) * dim;
        assert Rows(flat, dim)[i] == Rows(rest, dim)[i - 1];
        assert rest[lo..hi] == flat[lo + dim .. hi + dim];
      }
    }
  }

  // ---------------------------------------------------------------------------
  // Squared distances

  /** Squared Euclidean distance between two points of the same dimension,
      summed axis by axis in increasing axis order. */
  function Dist2(a: seq<real>, b: seq<real>): (r: real)
    requires |a| == |b|
    ensures r >= 0.0
    decreases |a|
  {
    if |a| == 0 then 0.0
    else
      var k := |a| - 1;
      SqNonNegative(a[k] - b[k]);
      Dist2(a[..k], b[..k]) + Sq(a[k] - b[k])
  }

  /** l2Dist2: the squared distance accumulated in a loop. */
  method L2Dist2(a: seq<real>, b: seq<real>) returns (sum: real)
    requires |a| == |b|
    ensures sum == Dist2(a, b)
  {
    sum := 0.0;
    for i := 0 to |a|
      invariant sum == Dist2(a[..i], b[..i])
    {
      var diff := a[i] - b[i];
      assert a[..i + 1][..i] == a[..i] && b[..i + 1][..i] == b[..i];
      sum := sum + diff * diff;
    }
    assert a[..|a|] == a && b[..|b|] == b;
  }

  lemma {:induction false} Dist2Symmetric(a: seq<real>, b: seq<real>)
    requires |a| == |b|
    ensures Dist2(a, b) == Dist2(b, a)
    decreases |a|
  {
    if |a| > 0 {
      var k := |a| - 1;
      Dist2Symmetric(a[..k], b[..k]);
      assert Sq(a[k] - b[k]) == Sq(b[k] - a[k]);
    }
  }

  /** One axis alone never contributes more than the whole squared distance. */
  lemma {:induction false} Dist2AxisBound(a: seq<real>, b: seq<real>, axis: nat)
    requires |a| == |b| && axis < |a|
    ensures Sq(a[axis] - b[axis]) <= Dist2(a, b)
    decreases |a|
  {
    var k := |a| - 1;
    if axis < k {
      Dist2AxisBound(a[..k], b[..k], axis);
      SqNonNegative(a[k] - b[k]);
    }
  }

  /** If every axis of c is at most as far from p as the same axis of q, so is c as a whole. */
  lemma {:induction false} Dist2Monotone(p: seq<real>, c: seq<real>, q: seq<real>)
    requires |p| == |c| == |q|
    requires forall k :: 0 <= k < |p| ==> Sq(p[k] - c[k]) <= Sq(p[k] - q[k])
    ensures Dist2(p, c) <= Dist2(p, q)
    decreases |p|
  {
    if |p| > 0 {
      var k := |p| - 1;
      Dist2Monotone(p[..k], c[..k], q[..k]);
    }
  }

  // ---------------------------------------------------------------------------
  // Axis-aligned boxes

  /** q lies in the box [min, max] on every axis. */
  ghost predicate InBox(q: seq<real>, min: seq<real>, max: seq<real>) {
    |q| == |min| == |max| && forall d :: 0 <= d < |q| ==> min[d] <= q[d] <= max[d]
  }

  /** The point of the box [min, max] closest to p: p clamped axis by axis. */
  function Clamp(p: seq<real>, min: seq<real>, max: seq<real>): seq<real>
    requires |p| == |min| == |max|
  {
    seq(|p|, d requires 0 <= d < |p| =>
      if p[d] < min[d] then min[d] else if p[d] > max[d] then max[d] else p[d])
  }

  /** Squared distance from p to the box [min, max]. */
  function BoxDist2(p: seq<real>, min: seq<real>, max: seq<real>): real
    requires |p| == |min| == |max|
  {
    Dist2(p, Clamp(p, min, max))
  }

  /** The box distance is a lower bound: no point of the box is closer to p. */
  lemma BoxDist2LowerBound(p: seq<real>, min: seq<real>, max: seq<real>, q: seq<real>)
    requires |p| == |min| == |max| && InBox(q, min, max)
    ensures BoxDist2(p, min, max) <= Dist2(p, q)
  {
    var c := Clamp(p, min, max);
    forall k | 0 <= k < |p|
      ensures Sq(p[k] - c[k]) <= Sq(p[k] - q[k])
    {
      if p[k] < min[k] {
        SqMonotone(min[k] - p[k], q[k] - p[k]);
        assert Sq(p[k] - c[k]) == Sq(min[k] - p[k]) && Sq(p[k] - q[k]) == Sq(q[k] - p[k]);
      } else if p[k] > max[k] {
        SqMonotone(p[k] - max[k], p[k] - q[k]);
      } else {
        SqNonNegative(p[k] - q[k]);
      }
    }
    Dist2Monotone(p, c, q);
  }

  /** A gap larger than r on a single axis puts p farther than r from the whole box. */
  lemma BoxDist2AxisGap(p: seq<real>, min: seq<real>, max: seq<real>, axis: nat, r: real)
    requires |p| == |min| == |max| && axis < |p| && 0.0 <= r
    requires || (p[axis] < min[axis] && min[axis] - p[axis] > r)
             || (min[axis] <= p[axis] && p[axis] - max[axis] > r)
    ensures BoxDist2(p, min, max) > Sq(r)
  {
    var c := Clamp(p, min, max);
    Dist2AxisBound(p, c, axis);
    if p[axis] < min[axis] {
      SqStrictMonotone(r, min[axis] - p[axis]);
      assert Sq(p[axis] - c[axis]) == Sq(min[axis] - p[axis]);
    } else {
      SqStrictMonotone(r, p[axis] - max[axis]);
    }
  }
}
