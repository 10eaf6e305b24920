/** The plane rotation of the Jacobi eigenvalue algorithm in src/linalg.rs:
    how the source computes t, c, s and tau from a_pq and d[q] − d[p], the
    update formulas it applies to a pair of entries, and what they preserve
    (inner products of rotated pairs, and the 2×2 block they diagonalise). */
module JacobiRotation {
  import M = Matrix
  import SM = StaticMat
  import LU = LUDecomposition
  import R = Roots
  import LA = LinAlg

  /* The rotation in the (p, q) plane. */

  /** The two updates the source writes with tau = s / (1 + c). */
  function RotLow(g: real, h: real, s: real, tau: real): real {
    g - s * (h + g * tau)
  }

  function RotHigh(g: real, h: real, s: real, tau: real): real {
    h + s * (g - h * tau)
  }

  datatype Rotation = Rotation(t: real, c: real, s: real, tau: real)

  /** A rotation by an angle with tangent t: cosine c > 0, sine s = t·c,
      c² + s² = 1 and tau = s / (1 + c). */
  ghost predicate IsRotation(r: Rotation) {
    0.0 < r.c && r.c * r.c + r.s * r.s == 1.0 && r.s == r.t * r.c && r.tau * (r.c + 1.0) == r.s
  }

  /** θ = h / (2·a_pq) with h = d[q] − d[p]. */
  function Theta(apq: real, h: real): (theta: real)
    requires apq != 0.0
    ensures 2.0 * theta * apq == h
  {
    h * 0.5 / apq
  }

  /** t = sign(θ) / (|θ| + √(θ² + 1)): the root of t² + 2θt − 1 = 0 of
      smaller magnitude. */
  function Tangent(theta: real, sqrt: real -> real): (t: real)
    requires R.IsSqrt(sqrt)
    ensures t * t + 2.0 * theta * t - 1.0 == 0.0
  {
    var root := sqrt(theta * theta + 1.0);
    R.SqrtAtLeastOne(sqrt, theta * theta + 1.0);
    var t0 := 1.0 / (LU.Abs(theta) + root);
    QuadraticRoot(LU.Abs(theta), root, t0);
    if theta < 0.0 then -t0 else t0
  }

  /** 1 / (θ + √(θ² + 1)) = √(θ² + 1) − θ for θ >= 0. */
  lemma QuadraticRoot(theta: real, root: real, t: real)
    requires 0.0 <= theta && 1.0 <= root && root * root == theta * theta + 1.0
    requires t == 1.0 / (theta + root)
    ensures t * t + 2.0 * theta * t - 1.0 == 0.0
  {
    assert (root - theta) * (theta + root) == 1.0;
    assert t * (theta + root) == 1.0;
    assert (t - (root - theta)) * (theta + root) == 0.0;
    ZeroFactor(t - (root - theta), theta + root);
  }

  lemma ZeroFactor(x: real, y: real)
    requires x * y == 0.0 && y > 0.0
    ensures x == 0.0
  {
  }

  /** c = 1 / √(t² + 1): c > 0 and c²·(1 + t²) = 1. */
  function Cosine(t: real, sqrt: real -> real): (c: real)
    requires R.IsSqrt(sqrt)
    ensures 0.0 < c && c * c * (1.0 + t * t) == 1.0
  {
    var root := sqrt(t * t + 1.0);
    R.SqrtAtLeastOne(sqrt, t * t + 1.0);
    CosineFromRoot(t, root);
    1.0 / root
  }

  lemma CosineFromRoot(t: real, root: real)
    requires 1.0 <= root && root * root == t * t + 1.0
    ensures 0.0 < 1.0 / root && (1.0 / root) * (1.0 / root) * (1.0 + t * t) == 1.0
  {
    var c := 1.0 / root;
    assert c * root == 1.0;
    assert (c * c) * (t * t + 1.0) == (c * root) * (c * root);
  }

  /** The rotation that annihilates a_pq, from θ = h / (2·a_pq): s = t·c and
      tau = s / (c + 1). The source's other formula for t, a_pq / h, is
      taken only when 10·|a_pq| + |h| == |h|, which over the reals means
      a_pq == 0 and cannot happen for a pair that is rotated. */
  function MakeRotation(apq: real, h: real, sqrt: real -> real): (r: Rotation)
    requires R.IsSqrt(sqrt) && apq != 0.0
    ensures IsRotation(r)
    ensures r.t * r.t + 2.0 * Theta(apq, h) * r.t - 1.0 == 0.0
  {
    FromTangent(Tangent(Theta(apq, h), sqrt), sqrt)
  }

  /** The rotation with tangent t. */
  function FromTangent(t: real, sqrt: real -> real): (r: Rotation)
    requires R.IsSqrt(sqrt)
    ensures IsRotation(r) && r.t == t
  {
    var c := Cosine(t, sqrt);
    RotationFromCosine(t, c);
    Rotation(t, c, t * c, t * c / (c + 1.0))
  }

  lemma RotationFromCosine(t: real, c: real)
    requires 0.0 < c && c * c * (1.0 + t * t) == 1.0
    ensures IsRotation(Rotation(t, c, t * c, t * c / (c + 1.0)))
  {
    assert c * c + (t * c) * (t * c) == 1.0;
  }

  /** The source's updates are the rotation c·g − s·h, s·g + c·h. */
  lemma Givens(g: real, h: real, r: Rotation)
    requires IsRotation(r)
    ensures RotLow(g, h, r.s, r.tau) == r.c * g - r.s * h
    ensures RotHigh(g, h, r.s, r.tau) == r.s * g + r.c * h
  {
    var c, s, tau := r.c, r.s, r.tau;
    assert (s * tau - (1.0 - c)) * (c + 1.0) == 0.0;
    ZeroFactor(s * tau - (1.0 - c), c + 1.0);
  }

  /** Rotating two pairs by the same rotation keeps their inner product, so
      in particular the squared length g² + h². */
  lemma RotationKeepsInner(g1: real, h1: real, g2: real, h2: real, r: Rotation)
    requires IsRotation(r)
    ensures RotLow(g1, h1, r.s, r.tau) * RotLow(g2, h2, r.s, r.tau)
          + RotHigh(g1, h1, r.s, r.tau) * RotHigh(g2, h2, r.s, r.tau) == g1 * g2 + h1 * h2
  {
    Givens(g1, h1, r);
    Givens(g2, h2, r);
    var c, s := r.c, r.s;
    calc {
      (c * g1 - s * h1) * (c * g2 - s * h2) + (s * g1 + c * h1) * (s * g2 + c * h2);
      (c * c + s * s) * (g1 * g2) + (c * c + s * s) * (h1 * h2);
      g1 * g2 + h1 * h2;
    }
  }

  /** The 2×2 block [[a_pp, a_pq], [a_pq, a_qq]] after the rotation: its
      off-diagonal entry is zero, and its diagonal entries are
      a_pp − t·a_pq and a_qq + t·a_pq, the source's updates of d[p] and
      d[q]. */
  lemma BlockRotation(app: real, aqq: real, apq: real, r: Rotation)
    requires apq != 0.0 && IsRotation(r)
    requires r.t * r.t + 2.0 * Theta(apq, aqq - app) * r.t - 1.0 == 0.0
    ensures (r.c * r.c - r.s * r.s) * apq + r.c * r.s * (app - aqq) == 0.0
    ensures r.c * r.c * app - 2.0 * r.c * r.s * apq + r.s * r.s * aqq == app - r.t * apq
    ensures r.s * r.s * app + 2.0 * r.c * r.s * apq + r.c * r.c * aqq == aqq + r.t * apq
  {
    BlockAlgebra(app, aqq, apq, Theta(apq, aqq - app), r.t, r.c);
  }

  lemma BlockAlgebra(app: real, aqq: real, apq: real, theta: real, t: real, c: real)
    requires aqq - app == 2.0 * theta * apq && t * t + 2.0 * theta * t - 1.0 == 0.0
    requires c * c * (1.0 + t * t) == 1.0
    ensures (c * c - (t * c) * (t * c)) * apq + c * (t * c) * (app - aqq) == 0.0
    ensures c * c * app - 2.0 * c * (t * c) * apq + (t * c) * (t * c) * aqq == app - t * apq
    ensures (t * c) * (t * c) * app + 2.0 * c * (t * c) * apq + c * c * aqq == aqq + t * apq
  {
    var q := t * t + 2.0 * theta * t - 1.0;
    assert (c * c - (t * c) * (t * c)) * apq + c * (t * c) * (app - aqq) == -(c * c * apq) * q;
    assert c * c * app - 2.0 * c * (t * c) * apq + (t * c) * (t * c) * aqq - (app - t * apq) == c * c * apq * t * q;
    assert (t * c) * (t * c) * app + 2.0 * c * (t * c) * apq + c * c * aqq - (aqq + t * apq) == -(c * c * apq * t * q);
  }

  /* Sums and inner products under point updates. */

  lemma {:induction false} SumUpdate(s: seq<real>, i: nat, x: real)
    requires i < |s|
    ensures SM.Sum(s[i := x]) == SM.Sum(s) - s[i] + x
    decreases |s|
  {
    var n := |s| - 1;
    if i == n {
      assert s[i := x][..n] == s[..n];
    } else {
      assert s[i := x][..n] == s[..n][i := x];
      SumUpdate(s[..n], i, x);
    }
  }

  /** Σ_{m < hi} u[m]·w[m] after entry p < hi of both rows, up and wp, is
      replaced by x and y. */
  lemma {:induction false} SumPoint(u: seq<real>, w: seq<real>, hi: nat, p: nat, up: real, wp: real, x: real, y: real)
    requires p < hi <= |u| == |w| && u[p] == up && w[p] == wp
    ensures LA.Sum(u[p := x], w[p := y], 0, hi) == LA.Sum(u, w, 0, hi) + (x * y - up * wp)
    decreases hi
  {
    var k := hi - 1;
    if k == p {
      LA.SumFrame(u[p := x], w[p := y], u, w, 0, k);
    } else {
      SumPoint(u, w, k, p, up, wp, x, y);
    }
    LA.SumLast(u[p := x], w[p := y], 0, hi, u[p := x][k], w[p := y][k]);
    LA.SumLast(u, w, 0, hi, u[k], w[k]);
  }

  /** A row of the eigenvector matrix with its entries p and q rotated. */
  function RotateRow(u: seq<real>, p: nat, q: nat, s: real, tau: real): (u': seq<real>)
    requires p < q < |u|
    ensures |u'| == |u| && u'[p] == RotLow(u[p], u[q], s, tau) && u'[q] == RotHigh(u[p], u[q], s, tau)
    ensures forall k :: 0 <= k < |u| && k != p && k != q ==> u'[k] == u[k]
  {
    u[p := RotLow(u[p], u[q], s, tau)][q := RotHigh(u[p], u[q], s, tau)]
  }

  /** Rotating the same two entries of two rows keeps their inner product. */
  lemma RotateRowKeepsInner(u: seq<real>, w: seq<real>, n: nat, p: nat, q: nat, r: Rotation)
    requires p < q < n && |u| == n && |w| == n && IsRotation(r)
    ensures LA.Sum(RotateRow(u, p, q, r.s, r.tau), RotateRow(w, p, q, r.s, r.tau), 0, n) == LA.Sum(u, w, 0, n)
  {
    var lu, hu := RotLow(u[p], u[q], r.s, r.tau), RotHigh(u[p], u[q], r.s, r.tau);
    var lw, hw := RotLow(w[p], w[q], r.s, r.tau), RotHigh(w[p], w[q], r.s, r.tau);
    RotationKeepsInner(u[p], u[q], w[p], w[q], r);
    TwoPoints(u, w, n, p, q, lu, lw, hu, hw);
  }

  /** Replacing entries p and q of two rows by values with the same
      u[p]·w[p] + u[q]·w[q] keeps the inner product. */
  lemma TwoPoints(u: seq<real>, w: seq<real>, n: nat, p: nat, q: nat, x1: real, y1: real, x2: real, y2: real)
    requires p < q < n && |u| == n && |w| == n
    requires x1 * y1 + x2 * y2 == u[p] * w[p] + u[q] * w[q]
    ensures LA.Sum(u[p := x1][q := x2], w[p := y1][q := y2], 0, n) == LA.Sum(u, w, 0, n)
  {
    SumPoint(u, w, n, p, u[p], w[p], x1, y1);
    SumPoint(u[p := x1], w[p := y1], n, q, u[q], w[q], x2, y2);
  }

  /** A row with its entries i and j exchanged. */
  function SwapEntries(u: seq<real>, i: nat, j: nat): (u': seq<real>)
    requires i < |u| && j < |u|
    ensures |u'| == |u| && u'[i] == u[j] && u'[j] == u[i]
    ensures forall k :: 0 <= k < |u| && k != i && k != j ==> u'[k] == u[k]
  {
    u[i := u[j]][j := u[i]]
  }

  /** Exchanging the same two entries of two rows keeps their inner product. */
  lemma SwapKeepsInner(u: seq<real>, w: seq<real>, n: nat, i: nat, j: nat)
    requires i < j < n && |u| == n && |w| == n
    ensures LA.Sum(SwapEntries(u, i, j), SwapEntries(w, i, j), 0, n) == LA.Sum(u, w, 0, n)
  {
    TwoPoints(u, w, n, i, j, u[j], w[j], u[i], w[i]);
  }

  /** ... and the sum of the row's entries. */
  lemma SwapKeepsSum(u: seq<real>, i: nat, j: nat)
    requires i < |u| && j < |u|
    ensures SM.Sum(SwapEntries(u, i, j)) == SM.Sum(u)
  {
    SumUpdate(u, i, u[j]);
    SumUpdate(u[i := u[j]], j, u[i]);
  }
}
