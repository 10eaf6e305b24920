/** Vector norms: the Euclidean `norm` of a `StaticVec` (src/static_mat.rs),
    and the `norm` of src/linalg/mod.rs, which folds the entries with `+`
    and so returns their sum. */
module Norm {
  import R = Roots
  import SM = StaticMat

  /** The fold `acc + x.powi(2)` from zero, front to back. */
  function SumSquares(v: seq<real>): real
    decreases |v|
  {
    if |v| == 0 then 0.0 else SumSquares(v[..|v| - 1]) + R.Square(v[|v| - 1])
  }

  /** The sum of squares is nonnegative, and zero only for the zero
      vector. */
  lemma {:induction false} SumSquaresZero(v: seq<real>)
    ensures 0.0 <= SumSquares(v)
    ensures SumSquares(v) == 0.0 <==> forall k :: 0 <= k < |v| ==> v[k] == 0.0
    decreases |v|
  {
    if |v| > 0 {
      var n := |v| - 1;
      assert forall k :: 0 <= k < n ==> v[..n][k] == v[k];
      SumSquaresZero(v[..n]);
    }
  }

  /** `StaticVec::norm`: the root of the sum of squares. It is zero only
      for the zero vector, and its square is the sum of squares. */
  function Euclidean(v: seq<real>, sqrt: real -> real): (r: real)
    requires R.IsSqrt(sqrt)
    ensures 0.0 <= r && r * r == SumSquares(v)
    ensures r == 0.0 <==> forall k :: 0 <= k < |v| ==> v[k] == 0.0
  {
    var s := SumSquares(v);
    SumSquaresZero(v);
    R.SqrtZero(sqrt, s);
    sqrt(s)
  }

  function ScaleVec(c: real, v: seq<real>): (w: seq<real>)
    ensures |w| == |v| && forall k :: 0 <= k < |v| ==> w[k] == c * v[k]
  {
    seq(|v|, k requires 0 <= k < |v| => c * v[k])
  }

  /** Scaling the entries by c scales the sum of squares by k = c². */
  lemma SumSquaresScale(c: real, k: real, v: seq<real>)
    requires k == c * c
    ensures SumSquares(ScaleVec(c, v)) == k * SumSquares(v)
  {
    ScaledSum(c, k, v, ScaleVec(c, v));
  }

  /** The same for any w with w[i] = c·v[i], by induction on the length. */
  lemma {:induction false} ScaledSum(c: real, k: real, v: seq<real>, w: seq<real>)
    requires k == c * c && |w| == |v|
    requires forall i :: 0 <= i < |v| ==> w[i] == c * v[i]
    ensures SumSquares(w) == R.Product(k, SumSquares(v))
    decreases |v|
  {
    if |v| > 0 {
      var n := |v| - 1;
      assert forall i :: 0 <= i < n ==> w[..n][i] == c * v[..n][i];
      ScaledSum(c, k, v[..n], w[..n]);
      SumSquaresLast(w, n, SumSquares(w[..n]), w[n]);
      SumSquaresLast(v, n, SumSquares(v[..n]), v[n]);
      ScaleStep(c, k, SumSquares(v[..n]), SumSquares(w[..n]), v[n], w[n], SumSquares(v), SumSquares(w));
    }
  }

  lemma SumSquaresLast(w: seq<real>, n: nat, a: real, x: real)
    requires |w| == n + 1 && a == SumSquares(w[..n]) && x == w[n]
    ensures SumSquares(w) == a + R.Square(x)
  {
  }

  lemma ScaleStep(c: real, k: real, a: real, b: real, x: real, y: real, s: real, t: real)
    requires k == c * c && s == a + R.Square(x)
    requires b == R.Product(k, a) && y == c * x && t == b + R.Square(y)
    ensures t == R.Product(k, s)
  {
    assert R.Square(c * x) == (c * x) * (c * x);
    assert (c * x) * (c * x) == k * (x * x);
  }

  /** The norm is absolutely homogeneous: ‖c·v‖ = |c|·‖v‖. */
  lemma EuclideanScale(c: real, v: seq<real>, sqrt: real -> real)
    requires R.IsSqrt(sqrt)
    ensures Euclidean(ScaleVec(c, v), sqrt) == (if c < 0.0 then -c else c) * Euclidean(v, sqrt)
  {
    SumSquaresZero(v);
    SumSquaresScale(c, c * c, v);
    RootScale(sqrt, c, SumSquares(v), SumSquares(ScaleVec(c, v)));
  }

  /** √(c²·s) = |c|·√s. */
  lemma RootScale(sqrt: real -> real, c: real, s: real, t: real)
    requires R.IsSqrt(sqrt) && 0.0 <= s && t == c * c * s
    ensures sqrt(t) == (if c < 0.0 then -c else c) * sqrt(s)
  {
    var a := if c < 0.0 then -c else c;
    var r := sqrt(s);
    assert 0.0 <= r && r * r == s;
    assert a * a == c * c;
    assert (a * r) * (a * r) == (a * a) * (r * r);
    assert (a * a) * (r * r) == t;
    var ar := a * r;
    assert 0.0 <= ar && t == ar * ar;
    R.SqrtOfSquare(sqrt, ar);
  }

  /** ‖[3, 4]‖ = 5. */
  lemma EuclideanExample(sqrt: real -> real)
    requires R.IsSqrt(sqrt)
    ensures Euclidean([3.0, 4.0], sqrt) == 5.0
  {
    assert [3.0, 4.0][..1] == [3.0];
    assert SumSquares([3.0, 4.0]) == 25.0;
    R.SqrtOfSquare(sqrt, 5.0);
  }

  /** The `norm` of src/linalg/mod.rs as written: it adds the entries
      without squaring them or taking a root. It gives 7 on [3, 4], where
      the Euclidean norm is 5, and 0 on the nonzero vector [1, −1]. */
  lemma NormSumsEntries(sqrt: real -> real)
    requires R.IsSqrt(sqrt)
    ensures SM.Sum([3.0, 4.0]) == 7.0 && Euclidean([3.0, 4.0], sqrt) == 5.0
    ensures SM.Sum([1.0, -1.0]) == 0.0 && Euclidean([1.0, -1.0], sqrt) != 0.0
  {
    assert [3.0, 4.0][..1] == [3.0] && [1.0, -1.0][..1] == [1.0];
    EuclideanExample(sqrt);
  }
}
