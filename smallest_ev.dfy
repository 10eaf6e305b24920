/** `smallest_ev` of src/linalg.rs: the smallest eigenvalue of a symmetric
    matrix and an eigenvector for it. A 1×1 matrix is its own eigenvalue
    with eigenvector [1]; a 2×2 matrix [[a, b], [b, c]] uses the closed
    form of the roots of its characteristic polynomial; a larger matrix
    runs the Jacobi eigenvalue algorithm with 200 sweeps at most and takes
    the first eigenvalue and the first column of the eigenvectors. */
module SmallestEv {
  import M = Matrix
  import SM = StaticMat
  import R = Roots
  import J = Jacobi
  import W = Wrappers
  import N = Norm

  /* The 2×2 closed form. */

  /** The smaller root of (λ − a)(λ − c) = b²:
      (a + c − √((a − c)² + 4b²))/2. */
  function SmallerRoot(a: real, b: real, c: real, sqrt: real -> real): real {
    (a + c - sqrt(R.Square(a - c) + b * b * 4.0)) * 0.5
  }

  /** It is a root of the characteristic polynomial of [[a, b], [b, c]],
      and the smaller one: the other root is a + c − λ. */
  lemma SmallerRootIsEigenvalue(a: real, b: real, c: real, sqrt: real -> real)
    requires R.IsSqrt(sqrt)
    ensures var l := SmallerRoot(a, b, c, sqrt);
            (l - a) * (l - c) == b * b && l <= a + c - l
  {
    var e := a - c;
    var d := R.Square(e) + b * b * 4.0;
    assert R.Square(b) == b * b;
    var r := sqrt(d);
    assert 0.0 <= r && r * r == d;
    var l := (a + c - r) * 0.5;
    assert l - a == (-e - r) * 0.5 && l - c == (e - r) * 0.5;
    RootProduct(e, r, b * b, d);
  }

  lemma RootProduct(e: real, r: real, bb: real, d: real)
    requires d == R.Square(e) + bb * 4.0 && r * r == d
    ensures ((-e - r) * 0.5) * ((e - r) * 0.5) == bb
  {
    assert ((-e - r) * 0.5) * ((e - r) * 0.5) == (r * r - e * e) * 0.25;
  }

  /** With b = 0 the root is min(a, c): the root of (a − c)² is |a − c|. */
  lemma SmallerRootDiagonal(a: real, c: real, sqrt: real -> real)
    requires R.IsSqrt(sqrt)
    ensures SmallerRoot(a, 0.0, c, sqrt) == if a <= c then a else c
  {
    var e := if a <= c then c - a else a - c;
    assert R.Square(a - c) + 0.0 * 0.0 * 4.0 == e * e;
    R.SqrtOfSquare(sqrt, e);
  }

  /** The 2×2 branch as written: u = [b, λ − a]/‖[b, λ − a]‖. When b = 0 and
      a <= c the vector [b, λ − a] is zero and the division gives NaN in
      every entry, modelled as None. */
  function Pair2AsWritten(a: real, b: real, c: real, sqrt: real -> real): W.Option<(real, seq<real>)>
    requires R.IsSqrt(sqrt)
  {
    var l := SmallerRoot(a, b, c, sqrt);
    var norm := N.Euclidean([b, l - a], sqrt);
    if norm == 0.0 then W.None else W.Some((l, [b / norm, (l - a) / norm]))
  }

  /** The division by zero happens exactly for a diagonal matrix whose
      smaller entry comes first. */
  lemma Pair2AsWrittenNaN(a: real, b: real, c: real, sqrt: real -> real)
    requires R.IsSqrt(sqrt)
    ensures Pair2AsWritten(a, b, c, sqrt).None? <==> b == 0.0 && a <= c
  {
    var l := SmallerRoot(a, b, c, sqrt);
    var v := [b, l - a];
    assert v[0] == b && v[1] == l - a;
    if b == 0.0 {
      SmallerRootDiagonal(a, c, sqrt);
    }
  }

  /** Σ x² over [x, y]. */
  lemma SumSquaresPair(x: real, y: real)
    ensures N.SumSquares([x, y]) == x * x + y * y
  {
    assert [x, y][..1] == [x] && [x][..0] == [];
    assert N.SumSquares([x]) == R.Square(x);
    assert R.Square(x) == x * x && R.Square(y) == y * y;
  }

  /** [[1, 0], [0, 2]] has eigenvalue 1 with eigenvector [1, 0], but the
      closed form as written divides zero by zero. */
  lemma Pair2AsWrittenDiagonalInput(sqrt: real -> real)
    requires R.IsSqrt(sqrt)
    ensures Pair2AsWritten(1.0, 0.0, 2.0, sqrt) == W.None
  {
    Pair2AsWrittenNaN(1.0, 0.0, 2.0, sqrt);
  }

  /** The 2×2 branch with the zero vector replaced by [1, 0], the
      eigenvector of the first diagonal entry; elsewhere it is the closed
      form as written. */
  function Pair2(a: real, b: real, c: real, sqrt: real -> real): (r: (real, seq<real>))
    requires R.IsSqrt(sqrt)
    ensures Pair2AsWritten(a, b, c, sqrt).Some? ==> r == Pair2AsWritten(a, b, c, sqrt).value
  {
    match Pair2AsWritten(a, b, c, sqrt)
    case Some(p) => p
    case None => (SmallerRoot(a, b, c, sqrt), [1.0, 0.0])
  }

  /** (λ, u) is an eigenpair of [[a, b], [b, c]] with |u| = 1. */
  predicate Eigenpair2(a: real, b: real, c: real, l: real, u: seq<real>) {
    |u| == 2 && a * u[0] + b * u[1] == l * u[0] && b * u[0] + c * u[1] == l * u[1]
    && u[0] * u[0] + u[1] * u[1] == 1.0
  }

  /** The corrected 2×2 branch returns a unit eigenvector of the smaller
      eigenvalue, on every input. */
  lemma Pair2IsEigenpair(a: real, b: real, c: real, sqrt: real -> real)
    requires R.IsSqrt(sqrt)
    ensures Eigenpair2(a, b, c, Pair2(a, b, c, sqrt).0, Pair2(a, b, c, sqrt).1)
    ensures Pair2(a, b, c, sqrt).0 <= a + c - Pair2(a, b, c, sqrt).0
  {
    SmallerRootIsEigenvalue(a, b, c, sqrt);
    if Pair2AsWritten(a, b, c, sqrt).Some? {
      ClosedFormIsEigenpair(a, b, c, sqrt);
    } else {
      Pair2AsWrittenNaN(a, b, c, sqrt);
      SmallerRootDiagonal(a, c, sqrt);
    }
  }

  lemma ClosedFormIsEigenpair(a: real, b: real, c: real, sqrt: real -> real)
    requires R.IsSqrt(sqrt) && Pair2AsWritten(a, b, c, sqrt).Some?
    ensures Eigenpair2(a, b, c, Pair2AsWritten(a, b, c, sqrt).value.0, Pair2AsWritten(a, b, c, sqrt).value.1)
  {
    var l := SmallerRoot(a, b, c, sqrt);
    SmallerRootIsEigenvalue(a, b, c, sqrt);
    SumSquaresPair(b, l - a);
    var norm := N.Euclidean([b, l - a], sqrt);
    Normalised(a, b, c, l, norm, b * b + (l - a) * (l - a));
  }

  /** Dividing [b, λ − a] by its length gives a unit eigenvector. */
  lemma Normalised(a: real, b: real, c: real, l: real, norm: real, s: real)
    requires (l - a) * (l - c) == b * b && s == b * b + (l - a) * (l - a)
    requires norm != 0.0 && norm * norm == s
    ensures Eigenpair2(a, b, c, l, [b / norm, (l - a) / norm])
  {
    var x, y := b / norm, (l - a) / norm;
    assert x * norm == b && y * norm == l - a;
    FirstRow(a, b, l, norm, x, y);
    SecondRow(a, b, c, l, norm, x, y);
    UnitLength(norm, s, x, y, b, l - a);
  }

  lemma Cancel(p: real, q: real, norm: real)
    requires norm != 0.0 && p * norm == q * norm
    ensures p == q
  {
    assert (p - q) * norm == 0.0;
  }

  lemma FirstRow(a: real, b: real, l: real, norm: real, x: real, y: real)
    requires norm != 0.0 && x * norm == b && y * norm == l - a
    ensures a * x + b * y == l * x
  {
    assert (a * x + b * y) * norm == a * (x * norm) + b * (y * norm);
    assert (l * x) * norm == l * (x * norm);
    Cancel(a * x + b * y, l * x, norm);
  }

  lemma SecondRow(a: real, b: real, c: real, l: real, norm: real, x: real, y: real)
    requires (l - a) * (l - c) == b * b
    requires norm != 0.0 && x * norm == b && y * norm == l - a
    ensures b * x + c * y == l * y
  {
    assert (b * x + c * y) * norm == b * (x * norm) + c * (y * norm);
    assert b * (x * norm) + c * (y * norm) == b * b + c * (l - a);
    assert b * b + c * (l - a) == l * (l - a);
    assert (l * y) * norm == l * (y * norm);
    Cancel(b * x + c * y, l * y, norm);
  }

  lemma UnitLength(norm: real, s: real, x: real, y: real, p: real, q: real)
    requires norm != 0.0 && norm * norm == s && s == p * p + q * q
    requires x * norm == p && y * norm == q
    ensures x * x + y * y == 1.0
  {
    var n2 := norm * norm;
    assert (x * x) * n2 == p * p by {
      assert (x * x) * n2 == (x * norm) * (x * norm);
    }
    assert (y * y) * n2 == q * q by {
      assert (y * y) * n2 == (y * norm) * (y * norm);
    }
    assert n2 != 0.0 by {
      assert n2 == R.Square(norm);
    }
    AddScaled(x * x, y * y, p * p, q * q, n2, s);
    Factor(x * x, y * y, n2, s);
    SumToOne(x * x, y * y, n2, s);
  }

  lemma AddScaled(a: real, b: real, p: real, q: real, n: real, m: real)
    requires a * n == p && b * n == q && p + q == m
    ensures a * n + b * n == m
  {
  }

  lemma Factor(a: real, b: real, n: real, m: real)
    requires a * n + b * n == m
    ensures (a + b) * n == m
  {
  }

  lemma SumToOne(a: real, b: real, n: real, m: real)
    requires (a + b) * n == m && m == n && n != 0.0
    ensures a + b == 1.0
  {
    assert (a + b - 1.0) * n == 0.0;
  }

  /* smallest_ev. */

  /** A fresh copy of the matrix: `smallest_ev` takes its argument by
      value. */
  method CopyMatrix(a: array2<real>) returns (b: array2<real>)
    ensures fresh(b) && b.Length0 == a.Length0 && b.Length1 == a.Length1 && SM.Rows(b) == SM.Rows(a)
  {
    b := new real[a.Length0, a.Length1]((i, j) reads a requires 0 <= i < a.Length0 && 0 <= j < a.Length1 => a[i, j]);
    assert forall i, j :: 0 <= i < a.Length0 && 0 <= j < a.Length1 ==> b[i, j] == a[i, j];
    M.SameEntries(SM.Rows(b), SM.Rows(a), a.Length0, a.Length1);
  }

  /** The 1×1 and corrected 2×2 answers are unit eigenvectors of the
      smaller eigenvalue of the upper triangle's symmetric matrix; the
      Jacobi answer is the first of the eigenvalues the Jacobi algorithm
      returns, which come out ascending with the trace as their sum. */
  method SmallestEv(a: array2<real>, sqrt: real -> real) returns (l: real, u: seq<real>, ghost evs: seq<real>)
    requires a.Length0 == a.Length1 >= 1 && R.IsSqrt(sqrt)
    ensures |u| == a.Length0
    ensures a.Length0 == 1 ==> l == a[0, 0] && u == [1.0]
    ensures a.Length0 == 2 ==> Eigenpair2(a[0, 0], a[0, 1], a[1, 1], l, u) && l <= a[0, 0] + a[1, 1] - l
    ensures a.Length0 == 2 && Pair2AsWritten(a[0, 0], a[0, 1], a[1, 1], sqrt).Some? ==>
              (l, u) == Pair2AsWritten(a[0, 0], a[0, 1], a[1, 1], sqrt).value
    ensures 3 <= a.Length0 ==>
              |evs| == a.Length0 && l == evs[0] && J.SortedUpTo(evs, |evs|)
              && (forall k :: 0 <= k < |evs| ==> l <= evs[k])
              && SM.Sum(evs) == J.Trace(SM.Rows(a), a.Length0)
  {
    var n := a.Length0;
    evs := [];
    if n == 1 {
      l, u := a[0, 0], [1.0];
    } else if n == 2 {
      var p := Pair2(a[0, 0], a[0, 1], a[1, 1], sqrt);
      Pair2IsEigenpair(a[0, 0], a[0, 1], a[1, 1], sqrt);
      l, u := p.0, p.1;
    } else {
      l, u, evs := JacobiSmallest(a, sqrt);
    }
  }

  /** The branch for n ≥ 3: the first eigenvalue and eigenvector column of
      the Jacobi algorithm run on a copy, with at most 200 sweeps. */
  method JacobiSmallest(a: array2<real>, sqrt: real -> real) returns (l: real, u: seq<real>, ghost evs: seq<real>)
    requires a.Length0 == a.Length1 >= 3 && R.IsSqrt(sqrt)
    ensures |u| == a.Length0 && |evs| == a.Length0 && l == evs[0] && J.SortedUpTo(evs, |evs|)
    ensures forall k :: 0 <= k < |evs| ==> l <= evs[k]
    ensures SM.Sum(evs) == J.Trace(SM.Rows(a), a.Length0)
  {
    var n := a.Length0;
    var b := CopyMatrix(a);
    var d, v, sweeps, perm := J.JacobiEigenvalue(b, 200, sqrt);
    l, u, evs := d[0], M.Col(SM.Rows(v), n, n, 0), d[..];
  }
}
