/** The integer part of the vector operations: componentwise minimum,
    maximum and clamping, the dot product, the cross product and the squared
    magnitude. A vector of dimension `n` is a sequence of `n` integers; the
    scalar is an unbounded integer. */
module VectorMath {
  import opened Base

  //---------------------------------------------------------------------------
  // Reference definitions
  //---------------------------------------------------------------------------

  /** `arc::math::clamp` on one scalar: `x` moved into `[lower, upper]`. */
  function ClampScalar(x: int, lower: int, upper: int): int
  {
    if x < lower then lower else if upper < x then upper else x
  }

  /** The sum of `a[i] * b[i]` over the first `n` components. */
  function PartialDot(a: seq<int>, b: seq<int>, n: nat): int
    requires n <= |a| && n <= |b|
  {
    if n == 0 then 0 else PartialDot(a, b, n - 1) + a[n - 1] * b[n - 1]
  }

  /** The dot product: the sum of `a[i] * b[i]` over every component. */
  function DotProduct(a: seq<int>, b: seq<int>): int
    requires |a| == |b|
  {
    PartialDot(a, b, |a|)
  }

  //---------------------------------------------------------------------------
  // The operations
  //---------------------------------------------------------------------------

  /** `min`: each component the smaller of the two. */
  method Minimum(a: seq<int>, b: seq<int>) returns (r: seq<int>)
    requires |a| == |b|
    ensures |r| == |a|
    ensures forall i :: 0 <= i < |r| ==> r[i] <= a[i] && r[i] <= b[i] && (r[i] == a[i] || r[i] == b[i])
  {
    var v := new int[|a|];
    for i := 0 to |a|
      invariant forall k :: 0 <= k < i ==> v[k] == Min(a[k], b[k])
    {
      v[i] := Min(a[i], b[i]);
    }
    r := v[..];
  }

  /** `max`: each component the larger of the two. */
  method Maximum(a: seq<int>, b: seq<int>) returns (r: seq<int>)
    requires |a| == |b|
    ensures |r| == |a|
    ensures forall i :: 0 <= i < |r| ==> a[i] <= r[i] && b[i] <= r[i] && (r[i] == a[i] || r[i] == b[i])
  {
    var v := new int[|a|];
    for i := 0 to |a|
      invariant forall k :: 0 <= k < i ==> v[k] == Max(a[k], b[k])
    {
      v[i] := Max(a[i], b[i]);
    }
    r := v[..];
  }

  /** `clamp` with scalar thresholds: with `lower <= upper` every component
      lands in `[lower, upper]`, components already there are kept, and the
      others move to the nearer threshold. */
  method Clamp(v: seq<int>, lower: int, upper: int) returns (r: seq<int>)
    ensures |r| == |v|
    ensures lower <= upper ==> forall i :: 0 <= i < |r| ==> lower <= r[i] <= upper
    ensures forall i :: 0 <= i < |r| && lower <= v[i] <= upper ==> r[i] == v[i]
    ensures forall i :: 0 <= i < |r| && v[i] < lower ==> r[i] == lower
    ensures forall i :: 0 <= i < |r| && lower <= v[i] && upper < v[i] ==> r[i] == upper
  {
    var w := new int[|v|];
    for i := 0 to |v|
      invariant forall k :: 0 <= k < i ==> w[k] == ClampScalar(v[k], lower, upper)
    {
      w[i] := ClampScalar(v[i], lower, upper);
    }
    r := w[..];
  }

  /** `clamp` with vector thresholds: the same, component by component. */
  method ClampEach(v: seq<int>, lower: seq<int>, upper: seq<int>) returns (r: seq<int>)
    requires |lower| == |v| && |upper| == |v|
    ensures |r| == |v|
    ensures forall i :: 0 <= i < |r| && lower[i] <= upper[i] ==> lower[i] <= r[i] <= upper[i]
    ensures forall i :: 0 <= i < |r| && lower[i] <= v[i] <= upper[i] ==> r[i] == v[i]
    ensures forall i :: 0 <= i < |r| && v[i] < lower[i] ==> r[i] == lower[i]
    ensures forall i :: 0 <= i < |r| && lower[i] <= v[i] && upper[i] < v[i] ==> r[i] == upper[i]
  {
    var w := new int[|v|];
    for i := 0 to |v|
      invariant forall k :: 0 <= k < i ==> w[k] == ClampScalar(v[k], lower[k], upper[k])
    {
      w[i] := ClampScalar(v[i], lower[i], upper[i]);
    }
    r := w[..];
  }

  /** `dot`: the products of the components accumulated in order. */
  method Dot(a: seq<int>, b: seq<int>) returns (r: int)
    requires |a| == |b|
    ensures r == DotProduct(a, b)
  {
    r := 0;
    for i := 0 to |a|
      invariant r == PartialDot(a, b, i)
    {
      r := r + a[i] * b[i];
    }
  }

  /** `dot_vector`: the dot product copied into every component. */
  method DotVector(a: seq<int>, b: seq<int>) returns (r: seq<int>)
    requires |a| == |b|
    ensures |r| == |a|
    ensures forall i :: 0 <= i < |r| ==> r[i] == DotProduct(a, b)
  {
    var d := 0;
    for i := 0 to |a|
      invariant d == PartialDot(a, b, i)
    {
      d := d + a[i] * b[i];
    }
    r := seq(|a|, _ => d);
  }

  /** `cross`, defined for dimension 3 only: a vector orthogonal to both
      arguments. */
  function Cross(a: seq<int>, b: seq<int>): (r: seq<int>)
    requires |a| == 3 && |b| == 3
    ensures |r| == 3
    ensures DotProduct(a, r) == 0 && DotProduct(b, r) == 0
  {
    var r := [a[1] * b[2] - b[1] * a[2], a[2] * b[0] - b[2] * a[0], a[0] * b[1] - b[0] * a[1]];
    DotThree(a, r);
    DotThree(b, r);
    Orthogonal(a[0], a[1], a[2], b[0], b[1], b[2]);
    r
  }

  /** `magnitude2`: the dot product of the vector with itself, which is never
      negative and is zero only for the zero vector. */
  method Magnitude2(v: seq<int>) returns (r: int)
    ensures r == DotProduct(v, v)
    ensures r >= 0 && (r == 0 <==> forall i :: 0 <= i < |v| ==> v[i] == 0)
  {
    r := Dot(v, v);
    SquaresZero(v, |v|);
  }

  //---------------------------------------------------------------------------
  // Lemmas
  //---------------------------------------------------------------------------

  /** A dot product of dimension 3 written out. */
  lemma DotThree(a: seq<int>, b: seq<int>)
    requires |a| == 3 && |b| == 3
    ensures DotProduct(a, b) == a[0] * b[0] + a[1] * b[1] + a[2] * b[2]
  {
    assert PartialDot(a, b, 1) == a[0] * b[0];
    assert PartialDot(a, b, 2) == a[0] * b[0] + a[1] * b[1];
  }

  /** The cross product formula is orthogonal to both of its arguments. */
  lemma Orthogonal(a0: int, a1: int, a2: int, b0: int, b1: int, b2: int)
    ensures a0 * (a1 * b2 - b1 * a2) + a1 * (a2 * b0 - b2 * a0) + a2 * (a0 * b1 - b0 * a1) == 0
    ensures b0 * (a1 * b2 - b1 * a2) + b1 * (a2 * b0 - b2 * a0) + b2 * (a0 * b1 - b0 * a1) == 0
  {
    calc {
      a0 * (a1 * b2 - b1 * a2) + a1 * (a2 * b0 - b2 * a0) + a2 * (a0 * b1 - b0 * a1);
      a0 * a1 * b2 - a0 * b1 * a2 + a1 * a2 * b0 - a1 * b2 * a0 + a2 * a0 * b1 - a2 * b0 * a1;
    }
    calc {
      b0 * (a1 * b2 - b1 * a2) + b1 * (a2 * b0 - b2 * a0) + b2 * (a0 * b1 - b0 * a1);
      b0 * a1 * b2 - b0 * b1 * a2 + b1 * a2 * b0 - b1 * b2 * a0 + b2 * a0 * b1 - b2 * b0 * a1;
    }
  }

  /** A sum of squares is never negative, and is zero exactly when every
      term is. */
  lemma {:induction false} SquaresZero(v: seq<int>, n: nat)
    requires n <= |v|
    ensures PartialDot(v, v, n) >= 0
    ensures PartialDot(v, v, n) == 0 <==> forall i :: 0 <= i < n ==> v[i] == 0
  {
    if n > 0 {
      SquaresZero(v, n - 1);
      var x := v[n - 1];
      assert x * x >= 0;
      assert x != 0 ==> x * x > 0;
    }
  }

  /** The dot product does not depend on the order of its arguments. */
  lemma {:induction false} DotSymmetric(a: seq<int>, b: seq<int>, n: nat)
    requires n <= |a| && n <= |b|
    ensures PartialDot(a, b, n) == PartialDot(b, a, n)
  {
    if n > 0 {
      DotSymmetric(a, b, n - 1);
      assert a[n - 1] * b[n - 1] == b[n - 1] * a[n - 1];
    }
  }

  /** The dot product is linear in its first argument: the product with a
      componentwise sum is the sum of the products. */
  lemma {:induction false} DotAdditive(a: seq<int>, c: seq<int>, b: seq<int>, n: nat)
    requires |a| == |c| && n <= |a| && n <= |b|
    ensures PartialDot(seq(|a|, i requires 0 <= i < |a| => a[i] + c[i]), b, n)
         == PartialDot(a, b, n) + PartialDot(c, b, n)
  {
    if n > 0 {
      DotAdditive(a, c, b, n - 1);
      var s := seq(|a|, i requires 0 <= i < |a| => a[i] + c[i]);
      assert s[n - 1] * b[n - 1] == a[n - 1] * b[n - 1] + c[n - 1] * b[n - 1];
    }
  }

  /** The cross product changes sign when its arguments are swapped, so the
      cross product of a vector with itself is zero. */
  lemma CrossAnticommutative(a: seq<int>, b: seq<int>)
    requires |a| == 3 && |b| == 3
    ensures forall i :: 0 <= i < 3 ==> Cross(b, a)[i] == -Cross(a, b)[i]
    ensures Cross(a, a) == [0, 0, 0]
  {
  }

  /** Minimum and maximum split each pair of components between them. */
  lemma MinMaxSum(a: seq<int>, b: seq<int>, lo: seq<int>, hi: seq<int>)
    requires |a| == |b| && |lo| == |a| && |hi| == |a|
    requires forall i :: 0 <= i < |a| ==> lo[i] <= a[i] && lo[i] <= b[i] && (lo[i] == a[i] || lo[i] == b[i])
    requires forall i :: 0 <= i < |a| ==> a[i] <= hi[i] && b[i] <= hi[i] && (hi[i] == a[i] || hi[i] == b[i])
    ensures forall i :: 0 <= i < |a| ==> lo[i] + hi[i] == a[i] + b[i] && lo[i] <= hi[i]
  {
  }

  /** Clamping twice changes nothing more. */
  lemma ClampIdempotent(x: int, lower: int, upper: int)
    requires lower <= upper
    ensures ClampScalar(ClampScalar(x, lower, upper), lower, upper) == ClampScalar(x, lower, upper)
  {
  }
}
