/** Dense real matrices stored as a sequence of rows. This is the value that a
    present `Derivative` holds, and the storage of `StaticMat`. Dimensions are
    passed explicitly where the source carries them in the type. */
module Matrix {
  type Mat = seq<seq<real>>

  predicate Shaped(m: Mat, r: nat, c: nat) {
    |m| == r && forall i :: 0 <= i < r ==> |m[i]| == c
  }

  function Zeros(r: nat, c: nat): (z: Mat)
    ensures Shaped(z, r, c)
    ensures forall i, j :: 0 <= i < r && 0 <= j < c ==> z[i][j] == 0.0
  {
    seq(r, _ => seq(c, _ => 0.0))
  }

  /** The matrix with a single 1 at column-major linear index `k`, i.e. at row
      `k % r` and column `k / r`, as nalgebra's linear indexing places it. */
  function Unit(r: nat, c: nat, k: nat): (u: Mat)
    requires k < r * c
    ensures Shaped(u, r, c)
    ensures 0 <= k % r < r && 0 <= k / r < c && u[k % r][k / r] == 1.0
    ensures forall i, j :: 0 <= i < r && 0 <= j < c && (i != k % r || j != k / r) ==> u[i][j] == 0.0
  {
    QuotientBound(r, c, k);
    seq(r, i => seq(c, j => if i == k % r && j == k / r then 1.0 else 0.0))
  }

  lemma QuotientBound(r: nat, c: nat, k: nat)
    requires k < r * c
    ensures 0 < r && k / r < c
  {
    assert r > 0;
    var q := k / r;
    assert r * q <= k;
    if q >= c {
      MulMono(r, c, q);
    }
  }

  lemma MulMono(r: nat, c: nat, q: nat)
    requires c <= q
    ensures r * c <= r * q
  {
  }

  function Add(a: Mat, b: Mat, r: nat, c: nat): (s: Mat)
    requires Shaped(a, r, c) && Shaped(b, r, c)
    ensures Shaped(s, r, c)
    ensures forall i, j :: 0 <= i < r && 0 <= j < c ==> s[i][j] == a[i][j] + b[i][j]
  {
    seq(r, i requires 0 <= i < r => seq(c, j requires 0 <= j < c => a[i][j] + b[i][j]))
  }

  function Sub(a: Mat, b: Mat, r: nat, c: nat): (s: Mat)
    requires Shaped(a, r, c) && Shaped(b, r, c)
    ensures Shaped(s, r, c)
    ensures forall i, j :: 0 <= i < r && 0 <= j < c ==> s[i][j] == a[i][j] - b[i][j]
  {
    seq(r, i requires 0 <= i < r => seq(c, j requires 0 <= j < c => a[i][j] - b[i][j]))
  }

  function Neg(a: Mat, r: nat, c: nat): (s: Mat)
    requires Shaped(a, r, c)
    ensures Shaped(s, r, c)
    ensures forall i, j :: 0 <= i < r && 0 <= j < c ==> s[i][j] == -a[i][j]
  {
    seq(r, i requires 0 <= i < r => seq(c, j requires 0 <= j < c => -a[i][j]))
  }

  function Scale(a: Mat, k: real, r: nat, c: nat): (s: Mat)
    requires Shaped(a, r, c)
    ensures Shaped(s, r, c)
    ensures forall i, j :: 0 <= i < r && 0 <= j < c ==> s[i][j] == a[i][j] * k
  {
    seq(r, i requires 0 <= i < r => seq(c, j requires 0 <= j < c => a[i][j] * k))
  }

  function DivBy(a: Mat, k: real, r: nat, c: nat): (s: Mat)
    requires Shaped(a, r, c) && k != 0.0
    ensures Shaped(s, r, c)
    ensures forall i, j :: 0 <= i < r && 0 <= j < c ==> s[i][j] == a[i][j] / k
  {
    seq(r, i requires 0 <= i < r => seq(c, j requires 0 <= j < c => a[i][j] / k))
  }

  /** The sum of the products of corresponding entries, accumulated from the
      front as the source's loops do. */
  function Dot(u: seq<real>, v: seq<real>): real
    requires |u| == |v|
    decreases |u|
  {
    if |u| == 0 then 0.0 else Dot(u[..|u| - 1], v[..|v| - 1]) + u[|u| - 1] * v[|v| - 1]
  }

  function Col(m: Mat, r: nat, c: nat, k: nat): (v: seq<real>)
    requires Shaped(m, r, c) && k < c
    ensures |v| == r && forall i :: 0 <= i < r ==> v[i] == m[i][k]
  {
    seq(r, i requires 0 <= i < r => m[i][k])
  }

  /** The product of an r x n and an n x c matrix. */
  function MatMul(a: Mat, b: Mat, r: nat, n: nat, c: nat): (p: Mat)
    requires Shaped(a, r, n) && Shaped(b, n, c)
    ensures Shaped(p, r, c)
    ensures forall i, k :: 0 <= i < r && 0 <= k < c ==> p[i][k] == Dot(a[i], Col(b, n, c, k))
  {
    seq(r, i requires 0 <= i < r => seq(c, k requires 0 <= k < c => Dot(a[i], Col(b, n, c, k))))
  }

  function Transpose(a: Mat, r: nat, c: nat): (t: Mat)
    requires Shaped(a, r, c)
    ensures Shaped(t, c, r)
    ensures forall j, i :: 0 <= j < c && 0 <= i < r ==> t[j][i] == a[i][j]
  {
    seq(c, j requires 0 <= j < c => Col(a, r, c, j))
  }

  /** aᵀ·b for an r x m matrix a and an r x c matrix b. */
  function TrMul(a: Mat, b: Mat, r: nat, m: nat, c: nat): (p: Mat)
    requires Shaped(a, r, m) && Shaped(b, r, c)
    ensures Shaped(p, m, c)
  {
    MatMul(Transpose(a, r, m), b, m, r, c)
  }

  lemma {:induction false} DotZeroLeft(u: seq<real>, v: seq<real>)
    requires |u| == |v| && forall i :: 0 <= i < |u| ==> u[i] == 0.0
    ensures Dot(u, v) == 0.0
  {
    if |u| > 0 {
      DotZeroLeft(u[..|u| - 1], v[..|v| - 1]);
    }
  }

  lemma {:induction false} DotZeroRight(u: seq<real>, v: seq<real>)
    requires |u| == |v| && forall i :: 0 <= i < |v| ==> v[i] == 0.0
    ensures Dot(u, v) == 0.0
  {
    if |u| > 0 {
      DotZeroRight(u[..|u| - 1], v[..|v| - 1]);
    }
  }

  lemma DotOne(u: seq<real>, v: seq<real>)
    requires |u| == 1 && |v| == 1
    ensures Dot(u, v) == u[0] * v[0]
  {
    assert u[..0] == [];
  }

  lemma MatMulZeros(a: Mat, b: Mat, r: nat, n: nat, c: nat)
    requires Shaped(a, r, n) && Shaped(b, n, c)
    requires a == Zeros(r, n) || b == Zeros(n, c)
    ensures MatMul(a, b, r, n, c) == Zeros(r, c)
  {
    var p := MatMul(a, b, r, n, c);
    forall i, k | 0 <= i < r && 0 <= k < c ensures p[i][k] == 0.0 {
      if a == Zeros(r, n) {
        DotZeroLeft(a[i], Col(b, n, c, k));
      } else {
        DotZeroRight(a[i], Col(b, n, c, k));
      }
    }
    SameEntries(p, Zeros(r, c), r, c);
  }

  lemma TrMulZeros(a: Mat, b: Mat, r: nat, m: nat, c: nat)
    requires Shaped(a, r, m) && Shaped(b, r, c)
    requires a == Zeros(r, m) || b == Zeros(r, c)
    ensures TrMul(a, b, r, m, c) == Zeros(m, c)
  {
    if a == Zeros(r, m) {
      SameEntries(Transpose(a, r, m), Zeros(m, r), m, r);
    }
    MatMulZeros(Transpose(a, r, m), b, m, r, c);
  }

  /** Matrices of one shape are equal when their entries are. */
  lemma SameEntries(a: Mat, b: Mat, r: nat, c: nat)
    requires Shaped(a, r, c) && Shaped(b, r, c)
    requires forall i, j :: 0 <= i < r && 0 <= j < c ==> a[i][j] == b[i][j]
    ensures a == b
  {
    forall i | 0 <= i < r ensures a[i] == b[i] {
      assert |a[i]| == |b[i]| == c;
    }
  }

  /** The (i, k) entry of an outer product of a column and a row. */
  lemma MatMulOuter(a: Mat, b: Mat, r: nat, c: nat, i: nat, k: nat)
    requires Shaped(a, r, 1) && Shaped(b, 1, c) && i < r && k < c
    ensures MatMul(a, b, r, 1, c)[i][k] == a[i][0] * b[0][k]
  {
    DotOne(a[i], Col(b, 1, c, k));
  }

  /** The (i, k) entry of aᵀ·b when a and b have a single row. */
  lemma TrMulRows(a: Mat, b: Mat, m: nat, c: nat, i: nat, k: nat)
    requires Shaped(a, 1, m) && Shaped(b, 1, c) && i < m && k < c
    ensures TrMul(a, b, 1, m, c)[i][k] == a[0][i] * b[0][k]
  {
    var t := Transpose(a, 1, m);
    DotOne(t[i], Col(b, 1, c, k));
  }
}
