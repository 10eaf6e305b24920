/** `jacobi_eigenvalue` of src/linalg.rs over real
    entries. The symmetric matrix being diagonalised is kept as the strict
    upper triangle of `a` and a running diagonal `d`; each sweep visits every
    pair p < q, rotates in the (p, q) plane the pairs whose entry is at least
    the threshold, and rotates columns p and q of the eigenvector matrix `v`.
    The diagonal and the lower triangle of `a` are never written. After the
    sweeps, a selection sort puts `d` in ascending order, exchanging the
    columns of `v` in step. */
module Jacobi {
  import M = Matrix
  import SM = StaticMat
  import LU = LUDecomposition
  import R = Roots
  import LA = LinAlg
  import JR = JacobiRotation

  /* The symmetric matrix read from the upper triangle. */

  /** Entry (i, k) of the symmetric matrix whose upper triangle is that of a. */
  function Up(a: M.Mat, n: nat, i: nat, k: nat): real
    requires M.Shaped(a, n, n) && i < n && k < n
  {
    if i <= k then a[i][k] else a[k][i]
  }

  /** Every entry above the diagonal is zero. */
  ghost predicate UpperZero(a: M.Mat, n: nat)
    requires M.Shaped(a, n, n)
  {
    forall i, k :: 0 <= i < k < n ==> a[i][k] == 0.0
  }

  /** The diagonal and the lower triangle of b are those of a. */
  ghost predicate SameLower(a: M.Mat, b: M.Mat, n: nat)
    requires M.Shaped(a, n, n) && M.Shaped(b, n, n)
  {
    forall i, k :: 0 <= k <= i < n ==> b[i][k] == a[i][k]
  }

  function Diagonal(a: M.Mat, n: nat): (d: seq<real>)
    requires M.Shaped(a, n, n)
    ensures |d| == n && forall i :: 0 <= i < n ==> d[i] == a[i][i]
  {
    seq(n, i requires 0 <= i < n => a[i][i])
  }

  /** The trace, Σ a[i][i]. */
  function Trace(a: M.Mat, n: nat): real
    requires M.Shaped(a, n, n)
  {
    SM.Sum(Diagonal(a, n))
  }

  /* The threshold: the root of the sum of squares above the diagonal,
     divided by n. */

  /** Σ_{i < hi} a[i][k]², the squares of column k down to row hi. */
  function ColumnSquares(a: M.Mat, n: nat, k: nat, hi: nat): real
    requires M.Shaped(a, n, n) && k < n && hi <= n
    decreases hi
  {
    if hi == 0 then 0.0 else ColumnSquares(a, n, k, hi - 1) + R.Square(a[hi - 1][k])
  }

  /** Σ_{j < hi} Σ_{i < j} a[i][j]², the squares above the diagonal of the
      first hi columns. */
  function OffSquares(a: M.Mat, n: nat, hi: nat): real
    requires M.Shaped(a, n, n) && hi <= n
    decreases hi
  {
    if hi == 0 then 0.0 else OffSquares(a, n, hi - 1) + ColumnSquares(a, n, hi - 1, hi - 1)
  }

  lemma {:induction false} ColumnSquaresZero(a: M.Mat, n: nat, k: nat, hi: nat)
    requires M.Shaped(a, n, n) && k < n && hi <= n
    ensures 0.0 <= ColumnSquares(a, n, k, hi)
    ensures ColumnSquares(a, n, k, hi) == 0.0 <==> forall i :: 0 <= i < hi ==> a[i][k] == 0.0
    decreases hi
  {
    if hi > 0 {
      ColumnSquaresZero(a, n, k, hi - 1);
    }
  }

  /** The sum of squares is nonnegative, and zero exactly when every entry
      above the diagonal of the first hi columns is. */
  lemma {:induction false} OffSquaresZero(a: M.Mat, n: nat, hi: nat)
    requires M.Shaped(a, n, n) && hi <= n
    ensures 0.0 <= OffSquares(a, n, hi)
    ensures OffSquares(a, n, hi) == 0.0 <==> forall i, k :: 0 <= i < k < hi ==> a[i][k] == 0.0
    decreases hi
  {
    if hi > 0 {
      OffSquaresZero(a, n, hi - 1);
      ColumnSquaresZero(a, n, hi - 1, hi - 1);
    }
  }

  /** The two loops that sum a[i][j]² over i < j, then the root divided by n. */
  method Threshold(a: array2<real>, sqrt: real -> real) returns (thresh: real)
    requires a.Length0 == a.Length1 >= 1
    ensures thresh == sqrt(OffSquares(SM.Rows(a), a.Length0, a.Length0)) / a.Length0 as real
  {
    var n := a.Length0;
    ghost var A := SM.Rows(a);
    var sum := 0.0;
    for j := 0 to n
      invariant sum == OffSquares(A, n, j)
    {
      for i := 0 to j
        invariant sum == OffSquares(A, n, j) + ColumnSquares(A, n, j, i)
      {
        sum := sum + R.Square(a[i, j]);
      }
    }
    thresh := sqrt(sum) / n as real;
  }

  /** The threshold is zero exactly when the matrix is diagonal, and
      positive otherwise. */
  lemma ThresholdZero(a: M.Mat, n: nat, sqrt: real -> real)
    requires M.Shaped(a, n, n) && n >= 1 && R.IsSqrt(sqrt)
    ensures 0.0 <= sqrt(OffSquares(a, n, n)) / n as real
    ensures sqrt(OffSquares(a, n, n)) / n as real == 0.0 <==> UpperZero(a, n)
  {
    OffSquaresZero(a, n, n);
    R.SqrtZero(sqrt, OffSquares(a, n, n));
  }

  /* One rotation of the upper triangle. */

  /** Entry (i, k) after the rotation in the (p, q) plane: a[p][q] becomes
      zero; above the diagonal, the entry in row or column p that pairs
      with row j becomes RotLow of the symmetric entries (j, p) and (j, q),
      and the one in row or column q RotHigh of them; everything else is
      kept. */
  function RotatedEntry(a: M.Mat, n: nat, p: nat, q: nat, s: real, tau: real, i: nat, k: nat): real
    requires M.Shaped(a, n, n) && p < q < n && i < n && k < n
  {
    if k <= i then a[i][k]
    else if i == p && k == q then 0.0
    else if i == p || k == p then
      var j := if i == p then k else i;
      JR.RotLow(Up(a, n, j, p), Up(a, n, j, q), s, tau)
    else if i == q || k == q then
      var j := if i == q then k else i;
      JR.RotHigh(Up(a, n, j, p), Up(a, n, j, q), s, tau)
    else a[i][k]
  }

  function Rotated(a: M.Mat, n: nat, p: nat, q: nat, s: real, tau: real): (b: M.Mat)
    requires M.Shaped(a, n, n) && p < q < n
    ensures M.Shaped(b, n, n)
    ensures forall i, k :: 0 <= i < n && 0 <= k < n ==> b[i][k] == RotatedEntry(a, n, p, q, s, tau, i, k)
  {
    seq(n, i requires 0 <= i < n => seq(n, k requires 0 <= k < n => RotatedEntry(a, n, p, q, s, tau, i, k)))
  }

  /** Read as a symmetric matrix, the rotation zeroes entry (p, q), rotates
      the pair ((j, p), (j, q)) of every other row j, keeps every entry off
      rows and columns p and q, and writes nothing on or below the
      diagonal. */
  lemma RotatedSymmetric(a: M.Mat, n: nat, p: nat, q: nat, s: real, tau: real)
    requires M.Shaped(a, n, n) && p < q < n
    ensures var b := Rotated(a, n, p, q, s, tau);
            && SameLower(a, b, n)
            && b[p][q] == 0.0
            && (forall j :: 0 <= j < n && j != p && j != q ==>
                  Up(b, n, j, p) == JR.RotLow(Up(a, n, j, p), Up(a, n, j, q), s, tau)
                  && Up(b, n, j, q) == JR.RotHigh(Up(a, n, j, p), Up(a, n, j, q), s, tau))
            && (forall i, k :: 0 <= i < n && 0 <= k < n && i != p && i != q && k != p && k != q ==>
                  Up(b, n, i, k) == Up(a, n, i, k))
  {
  }

  /** Rotating keeps (j, p)² + (j, q)² for every other row j. */
  lemma RotatedKeepsPairSquares(a: M.Mat, n: nat, p: nat, q: nat, r: JR.Rotation, j: nat)
    requires M.Shaped(a, n, n) && p < q < n && JR.IsRotation(r) && j < n && j != p && j != q
    ensures var b := Rotated(a, n, p, q, r.s, r.tau);
            Up(b, n, j, p) * Up(b, n, j, p) + Up(b, n, j, q) * Up(b, n, j, q)
            == Up(a, n, j, p) * Up(a, n, j, p) + Up(a, n, j, q) * Up(a, n, j, q)
  {
    RotatedSymmetric(a, n, p, q, r.s, r.tau);
    JR.RotationKeepsInner(Up(a, n, j, p), Up(a, n, j, q), Up(a, n, j, p), Up(a, n, j, q), r);
  }

  /** The three loops of the rotation, after a[p][q] is set to zero: rows
      j < p, then p < j < q, then j > q. No loop reads an entry an earlier
      one wrote, so together they compute Rotated. */
  method RotateUpper(a: array2<real>, p: nat, q: nat, s: real, tau: real)
    requires a.Length0 == a.Length1 && p < q < a.Length0
    modifies a
    ensures SM.Rows(a) == Rotated(old(SM.Rows(a)), a.Length0, p, q, s, tau)
  {
    var n := a.Length0;
    ghost var A := SM.Rows(a);
    ghost var B := Rotated(A, n, p, q, s, tau);
    a[p, q] := 0.0;
    RotateAbove(a, p, q, s, tau, A, B);
    RotateBetween(a, p, q, s, tau, A, B);
    RotateRight(a, p, q, s, tau, A, B);
    M.SameEntries(SM.Rows(a), B, n, n);
  }

  /** The loop over the rows j < p: it rotates the pair (j, p), (j, q). */
  method RotateAbove(a: array2<real>, p: nat, q: nat, s: real, tau: real, ghost A: M.Mat, ghost B: M.Mat)
    requires a.Length0 == a.Length1 && p < q < a.Length0
    requires M.Shaped(A, a.Length0, a.Length0) && B == Rotated(A, a.Length0, p, q, s, tau)
    requires forall i, k :: 0 <= i < a.Length0 && 0 <= k < a.Length0 ==>
               a[i, k] == if i == p && k == q then B[i][k] else A[i][k]
    modifies a
    ensures forall i, k :: 0 <= i < a.Length0 && 0 <= k < a.Length0 ==>
              a[i, k] == if (i == p && k == q) || (i < p && (k == p || k == q)) then B[i][k] else A[i][k]
  {
    var n := a.Length0;
    for j := 0 to p
      invariant forall i, k :: 0 <= i < n && 0 <= k < n ==>
                  a[i, k] == if (i == p && k == q) || (i < j && (k == p || k == q)) then B[i][k] else A[i][k]
    {
      var g, h := a[j, p], a[j, q];
      a[j, p] := JR.RotLow(g, h, s, tau);
      a[j, q] := JR.RotHigh(g, h, s, tau);
    }
  }

  /** The loop over p < j < q: it rotates the pair (p, j), (j, q). */
  method RotateBetween(a: array2<real>, p: nat, q: nat, s: real, tau: real, ghost A: M.Mat, ghost B: M.Mat)
    requires a.Length0 == a.Length1 && p < q < a.Length0
    requires M.Shaped(A, a.Length0, a.Length0) && B == Rotated(A, a.Length0, p, q, s, tau)
    requires forall i, k :: 0 <= i < a.Length0 && 0 <= k < a.Length0 ==>
               a[i, k] == if (i == p && k == q) || (i < p && (k == p || k == q)) then B[i][k] else A[i][k]
    modifies a
    ensures forall i, k :: 0 <= i < a.Length0 && 0 <= k < a.Length0 ==>
              a[i, k] == if (i == p && k == q) || (i < p && (k == p || k == q))
                            || (i == p && p < k < q) || (p < i < q && k == q) then B[i][k] else A[i][k]
  {
    var n := a.Length0;
    for j := p + 1 to q
      invariant forall i, k :: 0 <= i < n && 0 <= k < n ==>
                  a[i, k] == if (i == p && k == q) || (i < p && (k == p || k == q))
                                || (i == p && p < k < j) || (p < i < j && k == q) then B[i][k] else A[i][k]
    {
      var g, h := a[p, j], a[j, q];
      a[p, j] := JR.RotLow(g, h, s, tau);
      a[j, q] := JR.RotHigh(g, h, s, tau);
    }
  }

  /** The loop over the columns j > q: it rotates the pair (p, j), (q, j). */
  method RotateRight(a: array2<real>, p: nat, q: nat, s: real, tau: real, ghost A: M.Mat, ghost B: M.Mat)
    requires a.Length0 == a.Length1 && p < q < a.Length0
    requires M.Shaped(A, a.Length0, a.Length0) && B == Rotated(A, a.Length0, p, q, s, tau)
    requires forall i, k :: 0 <= i < a.Length0 && 0 <= k < a.Length0 ==>
               a[i, k] == if (i == p && k == q) || (i < p && (k == p || k == q))
                             || (i == p && p < k < q) || (p < i < q && k == q) then B[i][k] else A[i][k]
    modifies a
    ensures forall i, k :: 0 <= i < a.Length0 && 0 <= k < a.Length0 ==>
              a[i, k] == if k <= i then A[i][k] else B[i][k]
  {
    var n := a.Length0;
    for j := q + 1 to n
      invariant forall i, k :: 0 <= i < n && 0 <= k < n ==>
                  a[i, k] == if (i == p && k == q) || (i < p && (k == p || k == q))
                                || (i == p && p < k < q) || (p < i < q && k == q)
                                || ((i == p || i == q) && q < k < j) then B[i][k] else A[i][k]
    {
      var g, h := a[p, j], a[q, j];
      a[p, j] := JR.RotLow(g, h, s, tau);
      a[q, j] := JR.RotHigh(g, h, s, tau);
    }
  }

  /* The eigenvector matrix. */

  /** Every row of v with its entries p and q rotated: columns p and q of v
      rotated. */
  function RotatedRows(v: M.Mat, n: nat, p: nat, q: nat, s: real, tau: real): (v': M.Mat)
    requires M.Shaped(v, n, n) && p < q < n
    ensures M.Shaped(v', n, n) && forall j :: 0 <= j < n ==> v'[j] == JR.RotateRow(v[j], p, q, s, tau)
  {
    seq(n, j requires 0 <= j < n => JR.RotateRow(v[j], p, q, s, tau))
  }

  /** The rows of v are orthonormal: v·vᵀ = I. */
  ghost predicate Orthonormal(v: M.Mat, n: nat)
    requires M.Shaped(v, n, n)
  {
    forall i, j :: 0 <= i < n && 0 <= j < n ==> LA.Sum(v[i], v[j], 0, n) == if i == j then 1.0 else 0.0
  }

  lemma IdentityOrthonormal(n: nat)
    ensures Orthonormal(SM.Identity(n), n)
  {
    var e := SM.Identity(n);
    forall i, j | 0 <= i < n && 0 <= j < n
      ensures LA.Sum(e[i], e[j], 0, n) == if i == j then 1.0 else 0.0
    {
      assert e[i] == seq(n, k => if k == i then 1.0 else 0.0);
      SM.DotUnitLeft(e[j], i);
      LA.SumIsDot(e[i], e[j]);
    }
  }

  /** A rotation keeps the rows orthonormal. */
  lemma RotationKeepsOrthonormal(v: M.Mat, n: nat, p: nat, q: nat, r: JR.Rotation)
    requires M.Shaped(v, n, n) && p < q < n && JR.IsRotation(r) && Orthonormal(v, n)
    ensures Orthonormal(RotatedRows(v, n, p, q, r.s, r.tau), n)
  {
    var v' := RotatedRows(v, n, p, q, r.s, r.tau);
    forall i, j | 0 <= i < n && 0 <= j < n
      ensures LA.Sum(v'[i], v'[j], 0, n) == if i == j then 1.0 else 0.0
    {
      JR.RotateRowKeepsInner(v[i], v[j], n, p, q, r);
    }
  }

  /** The last loop of the rotation: every row j of v. */
  method RotateColumns(v: array2<real>, p: nat, q: nat, s: real, tau: real)
    requires v.Length0 == v.Length1 && p < q < v.Length0
    modifies v
    ensures SM.Rows(v) == RotatedRows(old(SM.Rows(v)), v.Length0, p, q, s, tau)
  {
    var n := v.Length0;
    ghost var V := SM.Rows(v);
    ghost var W := RotatedRows(V, n, p, q, s, tau);
    for j := 0 to n
      invariant forall i, k :: 0 <= i < n && 0 <= k < n ==> v[i, k] == if i < j then W[i][k] else V[i][k]
    {
      var g, h := v[j, p], v[j, q];
      v[j, p] := JR.RotLow(g, h, s, tau);
      v[j, q] := JR.RotHigh(g, h, s, tau);
    }
    M.SameEntries(SM.Rows(v), W, n, n);
  }

  /* The state the sweeps keep. */

  /** What the sweeps keep of the input A0: its diagonal and lower triangle
      untouched in a, the rows of v orthonormal, Σ d equal to the trace of
      A0, and d = bw + zw entry by entry. */
  ghost predicate Inv(A0: M.Mat, A: M.Mat, V: M.Mat, d: seq<real>, bw: seq<real>, zw: seq<real>, n: nat) {
    && M.Shaped(A0, n, n) && M.Shaped(A, n, n) && M.Shaped(V, n, n)
    && |d| == n && |bw| == n && |zw| == n
    && SameLower(A0, A, n)
    && Orthonormal(V, n)
    && SM.Sum(d) == Trace(A0, n)
    && (forall k :: 0 <= k < n ==> d[k] == bw[k] + zw[k])
  }

  /** One rotation keeps the invariant: d[p] and d[q] move by ∓h, and
      zw with them. */
  lemma RotationKeepsInv(A0: M.Mat, A: M.Mat, V: M.Mat, d: seq<real>, bw: seq<real>, zw: seq<real>,
                         A': M.Mat, V': M.Mat, d': seq<real>, zw': seq<real>,
                         n: nat, p: nat, q: nat, r: JR.Rotation, h: real)
    requires Inv(A0, A, V, d, bw, zw, n) && p < q < n && JR.IsRotation(r)
    requires A' == Rotated(A, n, p, q, r.s, r.tau) && V' == RotatedRows(V, n, p, q, r.s, r.tau)
    requires d' == d[p := d[p] - h][q := d[q] + h] && zw' == zw[p := zw[p] - h][q := zw[q] + h]
    ensures Inv(A0, A', V', d', bw, zw', n)
  {
    RotatedSymmetric(A, n, p, q, r.s, r.tau);
    RotationKeepsOrthonormal(V, n, p, q, r);
    JR.SumUpdate(d, p, d[p] - h);
    JR.SumUpdate(d[p := d[p] - h], q, d[q] + h);
  }

  /** h = t·a[p][q], what d[p] loses and d[q] gains in a rotation. */
  function Shift(r: JR.Rotation, apq: real): real {
    r.t * apq
  }

  /** x[p] −= h and x[q] += h, the updates of d and zw. */
  method ShiftPair(x: array<real>, p: nat, q: nat, h: real)
    requires p < q < x.Length
    modifies x
    ensures x[..] == old(x[..])[p := old(x[..])[p] - h][q := old(x[..])[q] + h]
  {
    x[p] := x[p] - h;
    x[q] := x[q] + h;
  }

  /** The rotation branch for a rotation r: d, zw, the upper triangle of
      a and the columns p and q of v, with h = t·a[p][q]. */
  /** The new a, v, d and zw after the rotation r of the pair (p, q) with
      the diagonal shift h. */
  ghost predicate RotationStep(A: M.Mat, V: M.Mat, d: seq<real>, zw: seq<real>,
                               A': M.Mat, V': M.Mat, d': seq<real>, zw': seq<real>,
                               n: nat, p: nat, q: nat, r: JR.Rotation, h: real)
    requires M.Shaped(A, n, n) && M.Shaped(V, n, n) && |d| == |zw| == n && p < q < n
  {
    && A' == Rotated(A, n, p, q, r.s, r.tau)
    && V' == RotatedRows(V, n, p, q, r.s, r.tau)
    && d' == d[p := d[p] - h][q := d[q] + h]
    && zw' == zw[p := zw[p] - h][q := zw[q] + h]
  }

  method Rotate(a: array2<real>, v: array2<real>, d: array<real>, zw: array<real>, p: nat, q: nat, r: JR.Rotation,
                ghost bw: seq<real>, ghost A0: M.Mat)
    returns (h: real)
    requires a.Length0 == a.Length1 == v.Length0 == v.Length1 == d.Length == zw.Length
    requires a != v && d != zw && p < q < a.Length0 && JR.IsRotation(r)
    requires Inv(A0, SM.Rows(a), SM.Rows(v), d[..], bw, zw[..], a.Length0)
    modifies a, v, d, zw
    ensures Inv(A0, SM.Rows(a), SM.Rows(v), d[..], bw, zw[..], a.Length0)
    ensures h == Shift(r, old(a[p, q]))
    ensures RotationStep(old(SM.Rows(a)), old(SM.Rows(v)), old(d[..]), old(zw[..]),
                         SM.Rows(a), SM.Rows(v), d[..], zw[..], a.Length0, p, q, r, h)
  {
    h := Shift(r, a[p, q]);
    ShiftPair(zw, p, q, h);
    ShiftPair(d, p, q, h);
    RotateUpper(a, p, q, r.s, r.tau);
    RotateColumns(v, p, q, r.s, r.tau);
    RotationKeepsInv(A0, old(SM.Rows(a)), old(SM.Rows(v)), old(d[..]), bw, old(zw[..]),
                     SM.Rows(a), SM.Rows(v), d[..], zw[..], a.Length0, p, q, r, h);
  }

  /** The body of the loop over the pairs p < q: absorb a negligible a[p][q]
      after the fourth sweep, or rotate when |a[p][q]| reaches the
      threshold, or leave everything as it is. Over the reals a negligible
      entry is zero, so absorbing it changes nothing. */
  method Visit(a: array2<real>, v: array2<real>, d: array<real>, zw: array<real>, p: nat, q: nat,
               itNum: nat, thresh: real, sqrt: real -> real, ghost bw: seq<real>, ghost A0: M.Mat)
    returns (ghost r: JR.Rotation, ghost h: real)
    requires a.Length0 == a.Length1 == v.Length0 == v.Length1 == d.Length == zw.Length
    requires a != v && d != zw && p < q < a.Length0 && 0.0 < thresh && R.IsSqrt(sqrt)
    requires Inv(A0, SM.Rows(a), SM.Rows(v), d[..], bw, zw[..], a.Length0)
    modifies a, v, d, zw
    ensures Inv(A0, SM.Rows(a), SM.Rows(v), d[..], bw, zw[..], a.Length0)
    ensures thresh <= LU.Abs(old(a[p, q])) ==>
              && r == JR.MakeRotation(old(a[p, q]), old(d[q]) - old(d[p]), sqrt)
              && h == Shift(r, old(a[p, q]))
              && RotationStep(old(SM.Rows(a)), old(SM.Rows(v)), old(d[..]), old(zw[..]),
                              SM.Rows(a), SM.Rows(v), d[..], zw[..], a.Length0, p, q, r, h)
    ensures LU.Abs(old(a[p, q])) < thresh ==> SM.Rows(a) == old(SM.Rows(a)) && unchanged(v, d, zw)
  {
    r, h := JR.Rotation(0.0, 1.0, 0.0, 0.0), 0.0;
    var n := a.Length0;
    ghost var A := SM.Rows(a);
    var apq := a[p, q];
    var gapq := LU.Abs(apq) * 10.0;
    var termp := gapq + LU.Abs(d[p]);
    var termq := gapq + LU.Abs(d[q]);
    if 4 < itNum && termp == LU.Abs(d[p]) && termq == LU.Abs(d[q]) {
      a[p, q] := 0.0;
      M.SameEntries(SM.Rows(a), A, n, n);
    } else if thresh <= LU.Abs(apq) {
      var diff := d[q] - d[p];
      var term := LU.Abs(diff) + gapq;
      if term == LU.Abs(diff) {
        // only for a[p][q] == 0, which the threshold excludes
        assert false;
      }
      var rot := JR.MakeRotation(apq, diff, sqrt);
      var shift := Rotate(a, v, d, zw, p, q, rot, bw, A0);
      r, h := rot, shift;
    }
  }

  /** One sweep: every pair p < q in order. */
  method Sweep(a: array2<real>, v: array2<real>, d: array<real>, zw: array<real>,
               itNum: nat, thresh: real, sqrt: real -> real, ghost bw: seq<real>, ghost A0: M.Mat)
    requires a.Length0 == a.Length1 == v.Length0 == v.Length1 == d.Length == zw.Length
    requires a != v && d != zw && 0.0 < thresh && R.IsSqrt(sqrt)
    requires Inv(A0, SM.Rows(a), SM.Rows(v), d[..], bw, zw[..], a.Length0)
    modifies a, v, d, zw
    ensures Inv(A0, SM.Rows(a), SM.Rows(v), d[..], bw, zw[..], a.Length0)
  {
    var n := a.Length0;
    for p := 0 to n
      invariant Inv(A0, SM.Rows(a), SM.Rows(v), d[..], bw, zw[..], n)
    {
      for q := p + 1 to n
        invariant Inv(A0, SM.Rows(a), SM.Rows(v), d[..], bw, zw[..], n)
      {
        ghost var r, h := Visit(a, v, d, zw, p, q, itNum, thresh, sqrt, bw, A0);
      }
    }
  }

  /** The end of a sweep: bw += zw, d = bw, zw = 0. Since d = bw + zw
      throughout, d itself does not change. */
  method Flush(d: array<real>, bw: array<real>, zw: array<real>, ghost A0: M.Mat, ghost A: M.Mat, ghost V: M.Mat)
    requires d.Length == bw.Length == zw.Length && d != bw && d != zw && bw != zw
    requires Inv(A0, A, V, d[..], bw[..], zw[..], d.Length)
    modifies d, bw, zw
    ensures forall k :: 0 <= k < bw.Length ==> bw[k] == old(bw[k]) + old(zw[k])
    ensures d[..] == bw[..] && forall k :: 0 <= k < zw.Length ==> zw[k] == 0.0
    ensures d[..] == old(d[..])
    ensures Inv(A0, A, V, d[..], bw[..], zw[..], d.Length)
  {
    var n := d.Length;
    for k := 0 to n
      invariant forall i :: 0 <= i < n ==> bw[i] == if i < k then old(bw[i]) + old(zw[i]) else old(bw[i])
      invariant d[..] == old(d[..]) && zw[..] == old(zw[..])
    {
      bw[k] := bw[k] + zw[k];
    }
    for k := 0 to n
      invariant forall i :: 0 <= i < n ==> d[i] == if i < k then bw[i] else old(d[i])
      invariant forall i :: 0 <= i < n ==> bw[i] == old(bw[i]) + old(zw[i])
      invariant zw[..] == old(zw[..])
    {
      d[k] := bw[k];
    }
    for k := 0 to n
      invariant forall i :: 0 <= i < n ==> zw[i] == if i < k then 0.0 else old(zw[i])
      invariant forall i :: 0 <= i < n ==> bw[i] == old(bw[i]) + old(zw[i]) && d[i] == bw[i]
    {
      zw[k] := 0.0;
    }
    assert d[..] == bw[..];
    assert d[..] == old(d[..]);
  }

  /* The final selection sort. */

  /** Columns i and j of v exchanged: entries i and j of every row. */
  function SwappedColumns(v: M.Mat, n: nat, i: nat, j: nat): (v': M.Mat)
    requires M.Shaped(v, n, n) && i < n && j < n
    ensures M.Shaped(v', n, n) && forall l :: 0 <= l < n ==> v'[l] == JR.SwapEntries(v[l], i, j)
  {
    seq(n, l requires 0 <= l < n => JR.SwapEntries(v[l], i, j))
  }

  /** Exchanging two columns keeps the rows orthonormal. */
  lemma SwapKeepsOrthonormal(v: M.Mat, n: nat, i: nat, j: nat)
    requires M.Shaped(v, n, n) && i < j < n && Orthonormal(v, n)
    ensures Orthonormal(SwappedColumns(v, n, i, j), n)
  {
    var v' := SwappedColumns(v, n, i, j);
    forall k, l | 0 <= k < n && 0 <= l < n
      ensures LA.Sum(v'[k], v'[l], 0, n) == if k == l then 1.0 else 0.0
    {
      JR.SwapKeepsInner(v[k], v[l], n, i, j);
    }
  }

  /** The loop `v.swap((l, m), (l, k))` over every row l. */
  method SwapColumns(v: array2<real>, k: nat, m: nat)
    requires v.Length0 == v.Length1 && k < v.Length0 && m < v.Length0
    modifies v
    ensures SM.Rows(v) == SwappedColumns(old(SM.Rows(v)), v.Length0, k, m)
  {
    var n := v.Length0;
    ghost var V := SM.Rows(v);
    ghost var W := SwappedColumns(V, n, k, m);
    for l := 0 to n
      invariant forall i, j :: 0 <= i < n && 0 <= j < n ==> v[i, j] == if i < l then W[i][j] else V[i][j]
    {
      v[l, m], v[l, k] := v[l, k], v[l, m];
    }
    M.SameEntries(SM.Rows(v), W, n, n);
  }

  /** d and the columns of v are those of D and V taken in the order perm. */
  ghost predicate Tracks(D: seq<real>, V: M.Mat, d: seq<real>, v: M.Mat, perm: seq<nat>, n: nat) {
    && |D| == n && |d| == n && M.Shaped(V, n, n) && M.Shaped(v, n, n) && LU.IsPermutation(perm, n)
    && (forall i :: 0 <= i < n ==> d[i] == D[perm[i]])
    && (forall j, i :: 0 <= j < n && 0 <= i < n ==> v[j][i] == V[j][perm[i]])
  }

  /** Exchanging entries k and m of d, columns k and m of v and entries k
      and m of perm keeps the correspondence, the sum of d and the
      orthonormal rows of v. */
  lemma SwapTracks(D: seq<real>, V: M.Mat, d: seq<real>, v: M.Mat, perm: seq<nat>, n: nat, k: nat, m: nat)
    requires Tracks(D, V, d, v, perm, n) && k < m < n
    ensures Tracks(D, V, JR.SwapEntries(d, k, m), SwappedColumns(v, n, k, m), LU.Swap(perm, k, m), n)
    ensures SM.Sum(JR.SwapEntries(d, k, m)) == SM.Sum(d)
    ensures Orthonormal(v, n) ==> Orthonormal(SwappedColumns(v, n, k, m), n)
  {
    LU.SwapPermutes(perm, n, k, m);
    JR.SwapKeepsSum(d, k, m);
    if Orthonormal(v, n) {
      SwapKeepsOrthonormal(v, n, k, m);
    }
  }

  /** The first k entries of d are in place: each is at most every later
      entry. */
  predicate SortedUpTo(d: seq<real>, k: nat) {
    forall i, j :: 0 <= i < k && i < j < |d| ==> d[i] <= d[j]
  }

  /** Moving a smallest entry of d[k..] to position k puts one more entry
      in place. */
  lemma SelectKeepsSorted(d: seq<real>, k: nat, m: nat)
    requires SortedUpTo(d, k) && k <= m < |d|
    requires forall i :: k <= i < |d| ==> d[m] <= d[i]
    ensures SortedUpTo(JR.SwapEntries(d, k, m), k + 1)
    ensures m == k ==> SortedUpTo(d, k + 1)
  {
    var d' := JR.SwapEntries(d, k, m);
    forall i, j | 0 <= i < k + 1 && i < j < |d| ensures d'[i] <= d'[j] {
      if i < k {
        assert d'[j] == d[if j == k then m else if j == m then k else j];
      }
    }
  }

  /** The inner loop: the first position of the smallest entry of d[k..]. */
  method SmallestFrom(d: array<real>, k: nat) returns (m: nat)
    requires k < d.Length
    ensures k <= m < d.Length
    ensures forall i :: k <= i < d.Length ==> d[m] <= d[i]
    ensures forall i :: k <= i < m ==> d[m] < d[i]
  {
    m := k;
    for l := k + 1 to d.Length
      invariant k <= m < l
      invariant forall i :: k <= i < l ==> d[m] <= d[i]
      invariant forall i :: k <= i < m ==> d[m] < d[i]
    {
      if d[l] < d[m] {
        m := l;
      }
    }
  }

  /** `d.swap_rows(m, k)` and the column exchange in v. */
  method SwapPair(d: array<real>, v: array2<real>, k: nat, m: nat)
    requires d.Length == v.Length0 == v.Length1 && k < m < d.Length
    modifies d, v
    ensures d[..] == JR.SwapEntries(old(d[..]), k, m)
    ensures SM.Rows(v) == SwappedColumns(old(SM.Rows(v)), d.Length, k, m)
  {
    d[m], d[k] := d[k], d[m];
    SwapColumns(v, k, m);
  }

  /** d sorted ascending by selection of the smallest remaining entry,
      with the columns of v exchanged in step. The result is a permutation
      of the input: entry k of d and column k of v come from position
      perm[k]. */
  method SortEigenpairs(d: array<real>, v: array2<real>) returns (ghost perm: seq<nat>)
    requires d.Length == v.Length0 == v.Length1 >= 1
    modifies d, v
    ensures SortedUpTo(d[..], d.Length)
    ensures Tracks(old(d[..]), old(SM.Rows(v)), d[..], SM.Rows(v), perm, d.Length)
    ensures SM.Sum(d[..]) == SM.Sum(old(d[..]))
    ensures Orthonormal(old(SM.Rows(v)), d.Length) ==> Orthonormal(SM.Rows(v), d.Length)
  {
    var n := d.Length;
    ghost var D, V := d[..], SM.Rows(v);
    perm := LU.Iota(n);
    forall k | 0 <= k < n ensures k in perm {
      assert perm[k] == k;
    }
    for k := 0 to n - 1
      invariant Sorting(D, V, d[..], SM.Rows(v), perm, n, k)
    {
      perm := SelectStep(d, v, k, D, V, perm);
    }
  }

  /** What the selection sort keeps after k steps: the correspondence with
      the input, the first k entries in place, the sum, and orthonormal
      rows. */
  ghost predicate Sorting(D: seq<real>, V: M.Mat, d: seq<real>, v: M.Mat, perm: seq<nat>, n: nat, k: nat) {
    && Tracks(D, V, d, v, perm, n)
    && SortedUpTo(d, k)
    && SM.Sum(d) == SM.Sum(D)
    && (Orthonormal(V, n) ==> Orthonormal(v, n))
  }

  /** One step of the selection sort: the smallest entry of d[k..] and its
      column of v are moved to position k. */
  method SelectStep(d: array<real>, v: array2<real>, k: nat, ghost D: seq<real>, ghost V: M.Mat, ghost perm: seq<nat>)
    returns (ghost perm': seq<nat>)
    requires d.Length == v.Length0 == v.Length1 && k < d.Length
    requires Sorting(D, V, d[..], SM.Rows(v), perm, d.Length, k)
    modifies d, v
    ensures Sorting(D, V, d[..], SM.Rows(v), perm', d.Length, k + 1)
  {
    var n := d.Length;
    var m := SmallestFrom(d, k);
    ghost var d0, v0 := d[..], SM.Rows(v);
    SelectKeepsSorted(d0, k, m);
    perm' := perm;
    if m != k {
      SwapTracks(D, V, d0, v0, perm, n, k, m);
      SwapPair(d, v, k, m);
      perm' := LU.Swap(perm, k, m);
    }
  }

  /* jacobi_eigenvalue. */

  /** v = I, d = the diagonal of a, bw = d, zw = 0. */
  method Start(a: array2<real>) returns (d: array<real>, bw: array<real>, zw: array<real>, v: array2<real>)
    requires a.Length0 == a.Length1
    ensures fresh(d) && fresh(bw) && fresh(zw) && fresh(v)
    ensures d != bw && d != zw && bw != zw
    ensures d.Length == bw.Length == zw.Length == v.Length0 == v.Length1 == a.Length0
    ensures d[..] == Diagonal(SM.Rows(a), a.Length0) && SM.Rows(v) == SM.Identity(a.Length0)
    ensures Inv(SM.Rows(a), SM.Rows(a), SM.Rows(v), d[..], bw[..], zw[..], a.Length0)
  {
    var n := a.Length0;
    v := NewIdentity(n);
    d := DiagonalOf(a);
    bw := CopyOf(d);
    zw := new real[n](_ => 0.0);
    StartInv(SM.Rows(a), SM.Rows(v), d[..], bw[..], zw[..], n);
  }

  /** The n×n identity as a fresh array. */
  method NewIdentity(n: nat) returns (v: array2<real>)
    ensures fresh(v) && v.Length0 == v.Length1 == n && SM.Rows(v) == SM.Identity(n)
  {
    v := new real[n, n]((i, j) => if i == j then 1.0 else 0.0);
    M.SameEntries(SM.Rows(v), SM.Identity(n), n, n);
  }

  /** The diagonal of a as a fresh array. */
  method DiagonalOf(a: array2<real>) returns (d: array<real>)
    requires a.Length0 == a.Length1
    ensures fresh(d) && d[..] == Diagonal(SM.Rows(a), a.Length0)
  {
    var n := a.Length0;
    d := new real[n];
    for i := 0 to n
      invariant forall k :: 0 <= k < i ==> d[k] == a[k, k]
    {
      d[i] := a[i, i];
    }
  }

  /** A fresh copy of x. */
  method CopyOf(x: array<real>) returns (y: array<real>)
    ensures fresh(y) && y[..] == x[..]
  {
    y := new real[x.Length];
    for i := 0 to x.Length
      invariant forall k :: 0 <= k < i ==> y[k] == x[k]
    {
      y[i] := x[i];
    }
  }

  /** The starting state satisfies the invariant. */
  lemma StartInv(A0: M.Mat, V: M.Mat, d: seq<real>, bw: seq<real>, zw: seq<real>, n: nat)
    requires M.Shaped(A0, n, n) && V == SM.Identity(n) && d == Diagonal(A0, n) && bw == d
    requires |zw| == n && forall k :: 0 <= k < n ==> zw[k] == 0.0
    ensures Inv(A0, A0, V, d, bw, zw, n)
  {
    IdentityOrthonormal(n);
  }

  /** The loop over it_num: the threshold, then a sweep and the flush
      unless the threshold is zero. */
  method Iterate(a: array2<real>, v: array2<real>, d: array<real>, bw: array<real>, zw: array<real>,
                 maxIter: nat, sqrt: real -> real, ghost A0: M.Mat)
    returns (ghost sweeps: nat)
    requires a.Length0 == a.Length1 == v.Length0 == v.Length1 == d.Length == bw.Length == zw.Length >= 1
    requires a != v && d != bw && d != zw && bw != zw && R.IsSqrt(sqrt)
    requires Inv(A0, SM.Rows(a), SM.Rows(v), d[..], bw[..], zw[..], a.Length0)
    modifies a, v, d, bw, zw
    ensures Inv(A0, SM.Rows(a), SM.Rows(v), d[..], bw[..], zw[..], a.Length0)
    ensures sweeps <= maxIter && (sweeps < maxIter ==> UpperZero(SM.Rows(a), a.Length0))
    ensures UpperZero(old(SM.Rows(a)), a.Length0) ==> sweeps == 0
    ensures sweeps == 0 ==> SM.Rows(a) == old(SM.Rows(a)) && unchanged(v, d, bw, zw)
  {
    var n := a.Length0;
    sweeps := 0;
    for itNum := 0 to maxIter
      invariant sweeps == itNum
      invariant Inv(A0, SM.Rows(a), SM.Rows(v), d[..], bw[..], zw[..], n)
      invariant sweeps == 0 ==> SM.Rows(a) == old(SM.Rows(a)) && unchanged(v, d, bw, zw)
      invariant UpperZero(old(SM.Rows(a)), n) ==> sweeps == 0
    {
      var thresh := Threshold(a, sqrt);
      ThresholdZero(SM.Rows(a), n, sqrt);
      if thresh == 0.0 {
        break;
      }
      Sweep(a, v, d, zw, itNum, thresh, sqrt, bw[..], A0);
      Flush(d, bw, zw, A0, SM.Rows(a), SM.Rows(v));
      sweeps := sweeps + 1;
    }
  }

  /** At most maxIter sweeps, stopping as soon as the threshold is zero,
      then the sort. The eigenvalues come out ascending with their sum the
      trace of the input, the rows of v stay orthonormal, the diagonal and
      lower triangle of a are never written, and stopping before maxIter
      sweeps means the upper triangle is zero. Without any sweep (a
      diagonal input, or maxIter = 0) the result is the diagonal, sorted,
      with v the matching permutation of the identity. */
  method JacobiEigenvalue(a: array2<real>, maxIter: nat, sqrt: real -> real)
    returns (d: array<real>, v: array2<real>, ghost sweeps: nat, ghost perm: seq<nat>)
    requires a.Length0 == a.Length1 >= 1 && R.IsSqrt(sqrt)
    modifies a
    ensures fresh(d) && fresh(v) && d.Length == a.Length0 && v.Length0 == v.Length1 == a.Length0
    ensures sweeps <= maxIter && (sweeps < maxIter ==> UpperZero(SM.Rows(a), a.Length0))
    ensures UpperZero(old(SM.Rows(a)), a.Length0) ==> sweeps == 0
    ensures SameLower(old(SM.Rows(a)), SM.Rows(a), a.Length0)
    ensures SortedUpTo(d[..], d.Length)
    ensures SM.Sum(d[..]) == Trace(old(SM.Rows(a)), a.Length0)
    ensures Orthonormal(SM.Rows(v), a.Length0)
    ensures sweeps == 0 ==>
              Tracks(Diagonal(old(SM.Rows(a)), a.Length0), SM.Identity(a.Length0), d[..], SM.Rows(v), perm, a.Length0)
  {
    ghost var A0 := SM.Rows(a);
    var bw, zw;
    d, bw, zw, v := Start(a);
    ghost var D0, V0 := d[..], SM.Rows(v);
    sweeps := Iterate(a, v, d, bw, zw, maxIter, sqrt, A0);
    ghost var A1, D1 := SM.Rows(a), d[..];
    assert SameLower(A0, A1, a.Length0) && SM.Sum(D1) == Trace(A0, a.Length0);
    assert sweeps == 0 ==> D1 == D0 && SM.Rows(v) == V0;
    perm := SortEigenpairs(d, v);
    assert SM.Rows(a) == A1;
  }
}
