/** The array code of `LU` in src/linalg.rs and its two copies in
    src/linalg/lu.rs and src/linalg/mod.rs: `new` decomposes the matrix in
    place, `solve` and `inverse` substitute forward and back, and
    `determinant` multiplies the diagonal. The loops of `new` are proved
    against the specification functions of the LUDecomposition module; the
    substitutions are proved to solve the triangular systems, and with the
    decomposition's invariant, A·x = b. */
module LinAlg {
  import M = Matrix
  import W = Wrappers
  import SM = StaticMat
  import LU = LUDecomposition

  /** The search loop of step i: max_a starts at zero and imax at row i, and
      a row is taken when its |a[k][i]| is strictly larger. The result is
      the first row with the largest magnitude. */
  method FindPivot(a: array2<real>, i: nat) returns (imax: nat, maxA: real)
    requires a.Length0 == a.Length1 && i < a.Length0
    ensures imax == LU.PivotRow(SM.Rows(a), a.Length0, i)
    ensures maxA == LU.Magnitude(SM.Rows(a), a.Length0, imax, i)
  {
    var n := a.Length0;
    ghost var A := SM.Rows(a);
    maxA := 0.0;
    imax := i;
    for k := i to n
      invariant (k == i && imax == i && maxA == 0.0)
             || (i < k && LU.FirstLargest(A, n, i, k, imax) && maxA == LU.Magnitude(A, n, imax, i))
    {
      var absA := LU.Abs(a[k, i]);
      assert absA == LU.Magnitude(A, n, k, i);
      if k > i {
        LU.FirstLargestNext(A, n, i, k, imax);
      }
      if absA > maxA {
        maxA := absA;
        imax := k;
      }
    }
    LU.FirstLargestUnique(A, n, i, n, imax, LU.PivotRow(A, n, i));
  }

  /** The exchange loop: entries (i, j) and (imax, j) trade places for every
      column j. */
  method ExchangeRows(a: array2<real>, i: nat, imax: nat)
    requires a.Length0 == a.Length1 && i < a.Length0 && imax < a.Length0
    modifies a
    ensures SM.Rows(a) == LU.SwapRows(old(SM.Rows(a)), i, imax)
  {
    var n := a.Length0;
    ghost var A := SM.Rows(a);
    ghost var B := LU.SwapRows(A, i, imax);
    for j := 0 to n
      invariant forall r, c :: 0 <= r < n && 0 <= c < n ==> a[r, c] == (if c < j then B[r][c] else A[r][c])
    {
      var ptr := a[i, j];
      a[i, j] := a[imax, j];
      a[imax, j] := ptr;
    }
    M.SameEntries(SM.Rows(a), B, n, n);
  }

  /** The work on row j below the pivot: the multiplier a[j][i] / a[i][i]
      goes into column i, then row j loses multiplier times the pivot row to
      the right of it. Rows i and j are still those of A. */
  method EliminateRow(a: array2<real>, i: nat, j: nat, ghost A: M.Mat)
    requires a.Length0 == a.Length1 && i < j < a.Length0 && M.Shaped(A, a.Length0, a.Length0) && A[i][i] != 0.0
    requires forall c :: 0 <= c < a.Length0 ==> a[i, c] == A[i][c] && a[j, c] == A[j][c]
    modifies a
    ensures forall r, c :: 0 <= r < a.Length0 && 0 <= c < a.Length0
              ==> a[r, c] == (if r == j && i <= c then LU.Eliminate(A, a.Length0, i)[j][c] else old(a[r, c]))
  {
    var n := a.Length0;
    ghost var B := LU.Eliminate(A, n, i);
    LU.EliminateAt(A, n, i, j, i);
    a[j, i] := a[j, i] / a[i, i];
    for k := i + 1 to n
      invariant forall r, c :: 0 <= r < n && 0 <= c < n
                  ==> a[r, c] == (if r == j && i <= c < k then B[j][c] else old(a[r, c]))
    {
      LU.EliminateAt(A, n, i, j, k);
      a[j, k] := a[j, k] - a[j, i] * a[i, k];
    }
  }

  /** The elimination loops of step i, row by row below the pivot. */
  method EliminateColumn(a: array2<real>, i: nat)
    requires a.Length0 == a.Length1 && i < a.Length0 && a[i, i] != 0.0
    modifies a
    ensures SM.Rows(a) == LU.Eliminate(old(SM.Rows(a)), a.Length0, i)
  {
    var n := a.Length0;
    ghost var A := SM.Rows(a);
    ghost var B := LU.Eliminate(A, n, i);
    LU.EliminateKeepsRows(A, n, i);
    for j := i + 1 to n
      invariant forall r, c :: 0 <= r < n && 0 <= c < n ==> a[r, c] == (if r < j then B[r][c] else A[r][c])
    {
      EliminateRow(a, i, j, A);
      forall c | 0 <= c < i ensures B[j][c] == A[j][c] {
        LU.EliminateAt(A, n, i, j, c);
      }
    }
    M.SameEntries(SM.Rows(a), B, n, n);
  }

  /** One pass of the loop of `LU::new`: search, fail on a too small
      pivot, exchange rows i and imax of a and of p (counting the exchange),
      eliminate below the pivot. */
  method DecomposeStep(a: array2<real>, p: seq<nat>, pCount: nat, i: nat, s: LU.Singular)
    returns (ok: bool, p': seq<nat>, pCount': nat)
    requires a.Length0 == a.Length1 && |p| == a.Length0 && i < a.Length0
    modifies a
    ensures ok <==> LU.Step(LU.LU(old(SM.Rows(a)), p, pCount), a.Length0, i, s).Ok?
    ensures ok ==> LU.Step(LU.LU(old(SM.Rows(a)), p, pCount), a.Length0, i, s) == W.Ok(LU.LU(SM.Rows(a), p', pCount'))
  {
    var n := a.Length0;
    ghost var lu := LU.LU(SM.Rows(a), p, pCount);
    p', pCount' := p, pCount;
    var imax, maxA := FindPivot(a, i);
    if LU.TooSmall(maxA, s) {
      return false, p', pCount';
    }
    if imax != i {
      p' := p'[i := p'[imax]][imax := p'[i]];
      ExchangeRows(a, i, imax);
      pCount' := pCount' + 1;
    }
    ghost var e := LU.Exchanged(lu, n, i, imax);
    assert SM.Rows(a) == e.a && p' == e.p && pCount' == e.pCount;
    LU.UsablePivot(e.a[i][i], s);
    EliminateColumn(a, i);
    ok := true;
  }

  /** `LU::new`: p starts as the identity and p_count at n, and the loop
      makes the steps of Run. On success the packed factors are the final
      matrix and satisfy the invariant (p a permutation, usable pivots,
      L·U = P·A); on failure some step i was reached with the invariant and
      no usable entry in column i. */
  method New(a: array2<real>, s: LU.Singular) returns (r: W.Result<LU.LU, LU.LinAlgError>)
    requires a.Length0 == a.Length1
    modifies a
    ensures r == LU.Run(old(SM.Rows(a)), a.Length0, a.Length0, s)
    ensures r.Ok? ==> r.value.a == SM.Rows(a) && LU.Partial(r.value, old(SM.Rows(a)), a.Length0, a.Length0, s)
    ensures r.Err? ==> exists i: nat, lu: LU.LU :: i < a.Length0 && LU.Partial(lu, old(SM.Rows(a)), a.Length0, i, s)
                                                  && LU.ColumnSmall(lu.a, a.Length0, i, s)
  {
    var n := a.Length0;
    ghost var a0 := SM.Rows(a);
    var p := LU.Iota(n);
    var pCount: nat := n;
    LU.StartPartial(a0, n, s);
    for i := 0 to n
      invariant LU.Run(a0, n, i, s) == W.Ok(LU.LU(SM.Rows(a), p, pCount))
      invariant LU.Partial(LU.LU(SM.Rows(a), p, pCount), a0, n, i, s)
    {
      ghost var lu := LU.LU(SM.Rows(a), p, pCount);
      var ok;
      ok, p, pCount := DecomposeStep(a, p, pCount, i, s);
      assert LU.Run(a0, n, i + 1, s) == LU.Step(lu, n, i, s);
      if !ok {
        LU.StepFailsIff(lu, n, i, s);
        LU.RunStaysErr(a0, n, i + 1, n, s);
        return W.Err(LU.LinAlgError);
      }
      LU.StepKeepsPartial(lu, a0, n, i, s);
    }
    r := W.Ok(LU.LU(SM.Rows(a), p, pCount));
  }

  /* Sums of products over a range of columns. */

  /** Σ_{lo <= k < hi} u[k]·v[k], accumulated from the front. */
  function Sum(u: seq<real>, v: seq<real>, lo: nat, hi: nat): real
    requires lo <= hi <= |u| && hi <= |v|
    decreases hi - lo
  {
    if lo == hi then 0.0 else Sum(u, v, lo, hi - 1) + u[hi - 1] * v[hi - 1]
  }

  /** The last term of a nonempty sum, given under names of its own. */
  lemma SumLast(u: seq<real>, v: seq<real>, lo: nat, hi: nat, uLast: real, vLast: real)
    requires lo < hi <= |u| && hi <= |v| && u[hi - 1] == uLast && v[hi - 1] == vLast
    ensures Sum(u, v, lo, hi) == Sum(u, v, lo, hi - 1) + uLast * vLast
  {
  }

  lemma {:induction false} SumSplit(u: seq<real>, v: seq<real>, lo: nat, mid: nat, hi: nat)
    requires lo <= mid <= hi <= |u| && hi <= |v|
    ensures Sum(u, v, lo, hi) == Sum(u, v, lo, mid) + Sum(u, v, mid, hi)
    decreases hi - mid
  {
    if hi > mid {
      SumSplit(u, v, lo, mid, hi - 1);
    }
  }

  /** A sum reads only the entries in its range. */
  lemma {:induction false} SumFrame(u: seq<real>, v: seq<real>, u': seq<real>, v': seq<real>, lo: nat, hi: nat)
    requires lo <= hi <= |u| && hi <= |v| && hi <= |u'| && hi <= |v'|
    requires forall k :: lo <= k < hi ==> u[k] == u'[k] && v[k] == v'[k]
    ensures Sum(u, v, lo, hi) == Sum(u', v', lo, hi)
    decreases hi - lo
  {
    if hi > lo {
      SumFrame(u, v, u', v', lo, hi - 1);
    }
  }

  lemma {:induction false} SumZero(u: seq<real>, v: seq<real>, lo: nat, hi: nat)
    requires lo <= hi <= |u| && hi <= |v|
    requires forall k :: lo <= k < hi ==> u[k] == 0.0
    ensures Sum(u, v, lo, hi) == 0.0
    decreases hi - lo
  {
    if hi > lo {
      SumZero(u, v, lo, hi - 1);
    }
  }

  lemma {:induction false} SumIsPartial(u: seq<real>, v: seq<real>, m: nat)
    requires |u| == |v| && m <= |u|
    ensures Sum(u, v, 0, m) == SM.Partial(u, v, m)
  {
    if m > 0 {
      SumIsPartial(u, v, m - 1);
      SM.PartialStep(u, v, m - 1);
    }
  }

  /** The full sum is the dot product. */
  lemma SumIsDot(u: seq<real>, v: seq<real>)
    requires |u| == |v|
    ensures Sum(u, v, 0, |u|) == M.Dot(u, v)
  {
    SumIsPartial(u, v, |u|);
    SM.PartialFull(u, v);
  }

  /** z = v + t·w on [lo, hi). */
  predicate Combined(z: seq<real>, v: seq<real>, w: seq<real>, t: real, lo: nat, hi: nat)
    requires hi <= |v| && hi <= |w| && hi <= |z|
  {
    forall k :: lo <= k < hi ==> z[k] == v[k] + t * w[k]
  }

  /** Σ l·(v + t·w) = Σ l·v + t·Σ l·w. */
  lemma {:induction false} SumLinear(l: seq<real>, v: seq<real>, w: seq<real>, z: seq<real>, t: real, lo: nat, hi: nat)
    requires lo <= hi <= |l| && hi <= |v| && hi <= |w| && hi <= |z|
    requires Combined(z, v, w, t, lo, hi)
    ensures Sum(l, z, lo, hi) == Sum(l, v, lo, hi) + Sum(l, w, lo, hi) * t
    decreases hi - lo
  {
    if hi > lo {
      SumLinear(l, v, w, z, t, lo, hi - 1);
      var k := hi - 1;
      assert l[k] * z[k] == l[k] * v[k] + t * (l[k] * w[k]);
      assert Sum(l, w, lo, hi) * t == Sum(l, w, lo, hi - 1) * t + t * (l[k] * w[k]);
    }
  }

  /** The first hi columns of b applied to x: entry k is Σ_{c < hi} b[k][c]·x[c]. */
  function Apply(b: M.Mat, x: seq<real>, n: nat, hi: nat): (y: seq<real>)
    requires M.Shaped(b, n, n) && |x| == n && hi <= n
    ensures |y| == n && forall k :: 0 <= k < n ==> y[k] == Sum(b[k], x, 0, hi)
  {
    seq(n, k requires 0 <= k < n => Sum(b[k], x, 0, hi))
  }

  /** (l·b)·x = l·(b·x) over the first hi columns, where row = l·b: the
      two orders of the double sum agree. */
  lemma {:induction false} SwapSums(l: seq<real>, row: seq<real>, b: M.Mat, x: seq<real>, n: nat, hi: nat)
    requires |l| == n && |row| == n && M.Shaped(b, n, n) && |x| == n && hi <= n
    requires forall c :: 0 <= c < n ==> row[c] == Sum(l, M.Col(b, n, n, c), 0, n)
    ensures Sum(row, x, 0, hi) == Sum(l, Apply(b, x, n, hi), 0, n)
  {
    if hi == 0 {
      SumZero(Apply(b, x, n, 0), l, 0, n);
      SumCommutes(l, Apply(b, x, n, 0), 0, n);
    } else {
      SwapSums(l, row, b, x, n, hi - 1);
      var before, col, after, t := Apply(b, x, n, hi - 1), M.Col(b, n, n, hi - 1), Apply(b, x, n, hi), x[hi - 1];
      ApplyStep(b, x, n, hi);
      SumLinear(l, before, col, after, t, 0, n);
      SumLast(row, x, 0, hi, Sum(l, col, 0, n), t);
    }
  }

  /** One more column in Apply adds x[hi-1] times that column. */
  lemma ApplyStep(b: M.Mat, x: seq<real>, n: nat, hi: nat)
    requires M.Shaped(b, n, n) && |x| == n && 0 < hi <= n
    ensures Combined(Apply(b, x, n, hi), Apply(b, x, n, hi - 1), M.Col(b, n, n, hi - 1), x[hi - 1], 0, n)
  {
    forall k | 0 <= k < n
      ensures Apply(b, x, n, hi)[k] == Apply(b, x, n, hi - 1)[k] + x[hi - 1] * M.Col(b, n, n, hi - 1)[k]
    {
      assert Sum(b[k], x, 0, hi) == Sum(b[k], x, 0, hi - 1) + b[k][hi - 1] * x[hi - 1];
    }
  }

  lemma {:induction false} SumCommutes(u: seq<real>, v: seq<real>, lo: nat, hi: nat)
    requires lo <= hi <= |u| && hi <= |v|
    ensures Sum(u, v, lo, hi) == Sum(v, u, lo, hi)
    decreases hi - lo
  {
    if hi > lo {
      SumCommutes(u, v, lo, hi - 1);
    }
  }

  /* `solve`: forward substitution with L (unit diagonal, below the diagonal
     of a) on the permuted right-hand side, then back substitution with U
     (the diagonal and above). */

  /** Rows 0..m-1 of L·y = P·b: y[r] = b[p[r]] − Σ_{k<r} a[r][k]·y[k]. */
  predicate ForwardSolved(a: M.Mat, n: nat, p: seq<nat>, b: seq<real>, y: seq<real>, m: nat)
    requires M.Shaped(a, n, n) && LU.IsPermutation(p, n) && |b| == n && |y| == n && m <= n
  {
    forall r :: 0 <= r < m ==> y[r] == b[p[r]] - Sum(a[r], y, 0, r)
  }

  /** Rows m..n-1 of U·x = y: x[r] = (y[r] − Σ_{k>r} a[r][k]·x[k]) / a[r][r]. */
  predicate BackSolved(a: M.Mat, n: nat, y: seq<real>, x: seq<real>, m: nat)
    requires M.Shaped(a, n, n) && |y| == n && |x| == n && m <= n
    requires forall r :: 0 <= r < n ==> a[r][r] != 0.0
  {
    forall r :: m <= r < n ==> x[r] == (y[r] - Sum(a[r], x, r + 1, n)) / a[r][r]
  }

  /** Rows already solved keep their equation when a later entry changes. */
  lemma ForwardFrame(a: M.Mat, n: nat, p: seq<nat>, b: seq<real>, y: seq<real>, y': seq<real>, m: nat)
    requires M.Shaped(a, n, n) && LU.IsPermutation(p, n) && |b| == n && |y| == n && |y'| == n && m <= n
    requires ForwardSolved(a, n, p, b, y, m) && y[..m] == y'[..m]
    ensures ForwardSolved(a, n, p, b, y', m)
  {
    forall r | 0 <= r < m
      ensures y'[r] == b[p[r]] - Sum(a[r], y', 0, r)
    {
      assert y[r] == y[..m][r];
      forall k | 0 <= k < r ensures y[k] == y'[k] {
        assert y[k] == y[..m][k];
      }
      SumFrame(a[r], y, a[r], y', 0, r);
    }
  }

  lemma BackFrame(a: M.Mat, n: nat, y: seq<real>, x: seq<real>, x': seq<real>, m: nat)
    requires M.Shaped(a, n, n) && |y| == n && |x| == n && |x'| == n && m <= n
    requires forall r :: 0 <= r < n ==> a[r][r] != 0.0
    requires BackSolved(a, n, y, x, m) && x[m..] == x'[m..]
    ensures BackSolved(a, n, y, x', m)
  {
    forall r | m <= r < n
      ensures x'[r] == (y[r] - Sum(a[r], x', r + 1, n)) / a[r][r]
    {
      assert x[r] == x[m..][r - m];
      forall k | r + 1 <= k < n ensures x[k] == x'[k] {
        assert x[k] == x[m..][k - m];
      }
      SumFrame(a[r], x, a[r], x', r + 1, n);
    }
  }

  /** The inner loop of both passes: x[i] −= a[i][k]·x[k] for lo <= k < hi,
      a range that leaves out i itself. */
  method SubtractRow(a: M.Mat, n: nat, x: array<real>, i: nat, lo: nat, hi: nat)
    requires M.Shaped(a, n, n) && x.Length == n && i < n && lo <= hi <= n && (i < lo || hi <= i)
    modifies x
    ensures x[..] == old(x[..])[i := old(x[i]) - Sum(a[i], old(x[..]), lo, hi)]
  {
    ghost var pre := x[..];
    for k := lo to hi
      invariant x[..] == pre[i := pre[i] - Sum(a[i], pre, lo, k)]
    {
      assert x[k] == pre[k] && x[i] == pre[i] - Sum(a[i], pre, lo, k);
      SumLast(a[i], pre, lo, k + 1, a[i][k], x[k]);
      x[i] := x[i] - a[i][k] * x[k];
      assert x[i] == pre[i] - Sum(a[i], pre, lo, k + 1);
    }
  }

  /** The forward pass on x: x[i] = b[p[i]], then x[i] −= a[i][k]·x[k] for
      k < i. */
  method ForwardSubstitute(a: M.Mat, n: nat, p: seq<nat>, b: seq<real>, x: array<real>)
    requires M.Shaped(a, n, n) && LU.IsPermutation(p, n) && |b| == n && x.Length == n
    modifies x
    ensures ForwardSolved(a, n, p, b, x[..], n)
  {
    for i := 0 to n
      invariant ForwardSolved(a, n, p, b, x[..], i)
    {
      ghost var before := x[..];
      x[i] := b[p[i]];
      ghost var pre := x[..];
      SubtractRow(a, n, x, i, 0, i);
      assert x[..i] == before[..i];
      ForwardFrame(a, n, p, b, before, x[..], i);
      SumFrame(a[i], pre, a[i], x[..], 0, i);
    }
  }

  /** The backward pass on x, from the last row up: x[i] −= a[i][k]·x[k] for
      k > i, then x[i] /= a[i][i]. */
  method BackSubstitute(a: M.Mat, n: nat, x: array<real>, ghost y: seq<real>)
    requires M.Shaped(a, n, n) && x.Length == n && x[..] == y
    requires forall r :: 0 <= r < n ==> a[r][r] != 0.0
    modifies x
    ensures BackSolved(a, n, y, x[..], 0)
  {
    var i := n;
    while i > 0
      invariant 0 <= i <= n && x[..i] == y[..i] && BackSolved(a, n, y, x[..], i)
    {
      i := i - 1;
      ghost var pre := x[..];
      assert x[i] == y[i] by { assert x[i] == pre[..i + 1][i]; }
      SubtractRow(a, n, x, i, i + 1, n);
      x[i] := x[i] / a[i][i];
      assert x[i + 1..] == pre[i + 1..];
      BackFrame(a, n, y, pre, x[..], i + 1);
      SumFrame(a[i], pre, a[i], x[..], i + 1, n);
      assert x[..i] == y[..i] by { assert x[..i] == pre[..i]; }
    }
  }

  /** Row r of L·y: the entries below the diagonal of a, then 1. */
  lemma LowerRow(a: M.Mat, n: nat, y: seq<real>, r: nat)
    requires M.Shaped(a, n, n) && |y| == n && r < n
    ensures Sum(LU.Lower(a, n)[r], y, 0, n) == Sum(a[r], y, 0, r) + y[r]
  {
    var l := LU.Lower(a, n)[r];
    SumSplit(l, y, 0, r + 1, n);
    SumZero(l, y, r + 1, n);
    SumFrame(l, y, a[r], y, 0, r);
    SumLast(l, y, 0, r + 1, 1.0, y[r]);
  }

  /** Row r of U·x: the diagonal entry, then the entries right of it. */
  lemma UpperRow(a: M.Mat, n: nat, x: seq<real>, r: nat)
    requires M.Shaped(a, n, n) && |x| == n && r < n
    ensures Sum(LU.Upper(a, n)[r], x, 0, n) == RowValue(a[r][r], x[r], Sum(a[r], x, r + 1, n))
  {
    SumSplit(LU.Upper(a, n)[r], x, 0, r + 1, n);
    UpperHead(a, n, x, r);
    UpperTail(a, n, x, r);
  }

  /** d·x + s: a row of U·x with diagonal entry d, unknown x and the sum s
      of the terms right of the diagonal. */
  function RowValue(d: real, x: real, s: real): real {
    d * x + s
  }

  /** Up to the diagonal, row r of U·x is the diagonal term alone. */
  lemma UpperHead(a: M.Mat, n: nat, x: seq<real>, r: nat)
    requires M.Shaped(a, n, n) && |x| == n && r < n
    ensures Sum(LU.Upper(a, n)[r], x, 0, r + 1) == a[r][r] * x[r]
  {
    var u := LU.Upper(a, n)[r];
    SumSplit(u, x, 0, r, r + 1);
    SumZero(u, x, 0, r);
  }

  /** Right of the diagonal, row r of U is row r of a. */
  lemma UpperTail(a: M.Mat, n: nat, x: seq<real>, r: nat)
    requires M.Shaped(a, n, n) && |x| == n && r < n
    ensures Sum(LU.Upper(a, n)[r], x, r + 1, n) == Sum(a[r], x, r + 1, n)
  {
    SumFrame(LU.Upper(a, n)[r], x, a[r], x, r + 1, n);
  }

  /** d·x + s = y when x = (y − s) / d. */
  lemma SolveRow(d: real, x: real, y: real, s: real)
    requires d != 0.0 && x == (y - s) / d
    ensures RowValue(d, x, s) == y
  {
    assert d * ((y - s) / d) == y - s;
  }

  /** A row solved by back substitution holds in U·x = y. */
  lemma BackRow(a: M.Mat, n: nat, y: seq<real>, x: seq<real>, r: nat)
    requires M.Shaped(a, n, n) && |y| == n && |x| == n && r < n && a[r][r] != 0.0
    requires x[r] == (y[r] - Sum(a[r], x, r + 1, n)) / a[r][r]
    ensures Sum(LU.Upper(a, n)[r], x, 0, n) == y[r]
  {
    UpperRow(a, n, x, r);
    SolveRow(a[r][r], x[r], y[r], Sum(a[r], x, r + 1, n));
  }

  /** Back substitution solves U·x = y. */
  lemma UpperSolved(a: M.Mat, n: nat, y: seq<real>, x: seq<real>)
    requires M.Shaped(a, n, n) && |y| == n && |x| == n
    requires forall r :: 0 <= r < n ==> a[r][r] != 0.0
    requires BackSolved(a, n, y, x, 0)
    ensures Apply(LU.Upper(a, n), x, n, n) == y
  {
    forall r | 0 <= r < n
      ensures Apply(LU.Upper(a, n), x, n, n)[r] == y[r]
    {
      BackRow(a, n, y, x, r);
    }
  }

  /** Row r of P·A·x = P·b, from P·A = L·U, U·x = y and L·y = P·b. */
  lemma RowSolved(a: M.Mat, p: seq<nat>, a0: M.Mat, n: nat, b: seq<real>, y: seq<real>, x: seq<real>, r: nat)
    requires M.Shaped(a0, n, n) && M.Shaped(a, n, n) && LU.IsPermutation(p, n)
    requires |b| == n && |y| == n && |x| == n && r < n
    requires M.MatMul(LU.Lower(a, n), LU.Upper(a, n), n, n, n) == LU.Permuted(a0, p, n)
    requires ForwardSolved(a, n, p, b, y, n)
    requires Apply(LU.Upper(a, n), x, n, n) == y
    ensures M.Dot(a0[p[r]], x) == b[p[r]]
  {
    var l := LU.Lower(a, n);
    var u := LU.Upper(a, n);
    var row := a0[p[r]];
    assert row == M.MatMul(l, u, n, n, n)[r];
    forall c | 0 <= c < n
      ensures row[c] == Sum(l[r], M.Col(u, n, n, c), 0, n)
    {
      SumIsDot(l[r], M.Col(u, n, n, c));
    }
    SwapSums(l[r], row, u, x, n, n);
    LowerRow(a, n, y, r);
    SumIsDot(row, x);
    assert Sum(row, x, 0, n) == Sum(l[r], y, 0, n);
  }

  /** The solution of both triangular systems solves A·x = b. */
  lemma Solution(lu: LU.LU, a0: M.Mat, n: nat, s: LU.Singular, b: seq<real>, y: seq<real>, x: seq<real>)
    requires M.Shaped(a0, n, n) && LU.Partial(lu, a0, n, n, s) && |b| == n && |y| == n && |x| == n
    requires forall r :: 0 <= r < n ==> lu.a[r][r] != 0.0
    requires ForwardSolved(lu.a, n, lu.p, b, y, n) && BackSolved(lu.a, n, y, x, 0)
    ensures forall q :: 0 <= q < n ==> M.Dot(a0[q], x) == b[q]
  {
    LU.Factors(lu, a0, n, s);
    UpperSolved(lu.a, n, y, x);
    forall q | 0 <= q < n
      ensures M.Dot(a0[q], x) == b[q]
    {
      assert q in lu.p;
      var r :| 0 <= r < n && lu.p[r] == q;
      RowSolved(lu.a, lu.p, a0, n, b, y, x, r);
    }
  }

  /** `solve`: x with A·x = b, for the matrix A the decomposition was made
      from. */
  method Solve(lu: LU.LU, n: nat, b: seq<real>, ghost a0: M.Mat, ghost s: LU.Singular) returns (x: seq<real>)
    requires M.Shaped(a0, n, n) && LU.Partial(lu, a0, n, n, s) && |b| == n
    ensures |x| == n && forall q :: 0 <= q < n ==> M.Dot(a0[q], x) == b[q]
  {
    LU.Factors(lu, a0, n, s);
    var xs := new real[n](_ => 0.0);
    ForwardSubstitute(lu.a, n, lu.p, b, xs);
    ghost var y := xs[..];
    BackSubstitute(lu.a, n, xs, y);
    x := xs[..];
    Solution(lu, a0, n, s, b, y, x);
  }

  /** The unit vector e_j: the right-hand side whose permuted entries are
      `if p[i] == j { 1 } else { 0 }` in `inverse`. */
  function UnitVector(n: nat, j: nat): (e: seq<real>)
    requires j < n
    ensures |e| == n && e[j] == 1.0 && forall i :: 0 <= i < n && i != j ==> e[i] == 0.0
  {
    seq(n, i => if i == j then 1.0 else 0.0)
  }

  /** `inverse`: column j of the result is filled by the two substitution
      passes of `solve` started from e_j, so A times the result is the
      identity. */
  method Inverse(lu: LU.LU, n: nat, ghost a0: M.Mat, ghost s: LU.Singular) returns (ia: array2<real>)
    requires M.Shaped(a0, n, n) && LU.Partial(lu, a0, n, n, s)
    ensures fresh(ia) && ia.Length0 == n && ia.Length1 == n
    ensures forall q, j :: 0 <= q < n && 0 <= j < n ==>
      M.Dot(a0[q], M.Col(SM.Rows(ia), n, n, j)) == (if q == j then 1.0 else 0.0)
  {
    ia := new real[n, n]((_, _) => 0.0);
    ghost var cols: seq<seq<real>> := [];
    for j := 0 to n
      invariant |cols| == j
      invariant forall c :: 0 <= c < j ==> |cols[c]| == n && forall i :: 0 <= i < n ==> ia[i, c] == cols[c][i]
      invariant forall c, q :: 0 <= c < j && 0 <= q < n ==> M.Dot(a0[q], cols[c]) == (if q == c then 1.0 else 0.0)
    {
      var x := Solve(lu, n, UnitVector(n, j), a0, s);
      for i := 0 to n
        invariant forall c :: 0 <= c < j ==> forall i :: 0 <= i < n ==> ia[i, c] == cols[c][i]
        invariant forall k :: 0 <= k < i ==> ia[k, j] == x[k]
      {
        ia[i, j] := x[i];
      }
      cols := cols + [x];
    }
    forall q, j | 0 <= q < n && 0 <= j < n
      ensures M.Dot(a0[q], M.Col(SM.Rows(ia), n, n, j)) == (if q == j then 1.0 else 0.0)
    {
      assert M.Col(SM.Rows(ia), n, n, j) == cols[j];
    }
  }

  /* `determinant`: the product of the diagonal, negated after an odd number
     of row exchanges. */

  /** a[0][0]·…·a[m-1][m-1], multiplied from the left as the iterator's
      `product` does. */
  function DiagProduct(a: M.Mat, n: nat, m: nat): (d: real)
    requires M.Shaped(a, n, n) && m <= n
    ensures d == 0.0 <==> exists i :: 0 <= i < m && a[i][i] == 0.0
  {
    if m == 0 then 1.0 else DiagProduct(a, n, m - 1) * a[m - 1][m - 1]
  }

  /** p_count starts at n, so p_count − n (an unsigned subtraction) is the
      number of exchanges. */
  function Determinant(lu: LU.LU, n: nat): (d: real)
    requires M.Shaped(lu.a, n, n) && n <= lu.pCount
    ensures d == 0.0 <==> exists i :: 0 <= i < n && lu.a[i][i] == 0.0
  {
    var det := DiagProduct(lu.a, n, n);
    if (lu.pCount - n) % 2 == 0 then det else -det
  }

  /** A decomposition that `new` returns has a nonzero determinant: a
      singular matrix is reported as an error instead. */
  lemma DeterminantNonzero(lu: LU.LU, a0: M.Mat, n: nat, s: LU.Singular)
    requires M.Shaped(a0, n, n) && LU.Partial(lu, a0, n, n, s)
    ensures Determinant(lu, n) != 0.0
  {
    LU.Factors(lu, a0, n, s);
  }

  /* The `solve` tests on A = [[4, 3], [6, 3]] and b = [10, 12]. */

  lemma Dot2(u: seq<real>, v: seq<real>)
    requires |u| == 2 && |v| == 2
    ensures M.Dot(u, v) == u[0] * v[0] + u[1] * v[1]
  {
    assert M.Dot(u, v) == M.Dot(u[..1], v[..1]) + u[1] * v[1];
    assert u[..1][..0] == [] && v[..1][..0] == [];
    assert M.Dot(u[..1], v[..1]) == M.Dot([], []) + u[0] * v[0];
  }

  /** The determinant of the decomposition RunTest computes is −6: the
      diagonal 6·1, negated for the one exchange. */
  lemma DeterminantTest(lu: LU.LU)
    requires lu == LU.LU([[6.0, 3.0], [2.0 / 3.0, 1.0]], [1, 0], 3)
    ensures Determinant(lu, 2) == -6.0
  {
    assert DiagProduct(lu.a, 2, 2) == 6.0;
  }

  /** Any x that `solve` can return for this system is [1, 2]. */
  lemma SolveTest(a0: M.Mat, b: seq<real>, x: seq<real>)
    requires a0 == [[4.0, 3.0], [6.0, 3.0]] && b == [10.0, 12.0] && |x| == 2
    requires forall q :: 0 <= q < 2 ==> M.Dot(a0[q], x) == b[q]
    ensures x == [1.0, 2.0]
  {
    assert M.Dot(a0[0], x) == b[0] && M.Dot(a0[1], x) == b[1];
    Dot2(a0[0], x);
    Dot2(a0[1], x);
  }

  /** Any matrix that `inverse` can return here, times the determinant −6,
      is [[3, −3], [−6, 4]]. */
  lemma InverseTest(a0: M.Mat, ia: M.Mat)
    requires a0 == [[4.0, 3.0], [6.0, 3.0]] && M.Shaped(ia, 2, 2)
    requires forall q, j :: 0 <= q < 2 && 0 <= j < 2 ==>
      M.Dot(a0[q], M.Col(ia, 2, 2, j)) == (if q == j then 1.0 else 0.0)
    ensures M.Scale(ia, -6.0, 2, 2) == [[3.0, -3.0], [-6.0, 4.0]]
  {
    forall j | 0 <= j < 2
      ensures ia[0][j] * -6.0 == (if j == 0 then 3.0 else -3.0)
      ensures ia[1][j] * -6.0 == (if j == 0 then -6.0 else 4.0)
    {
      var col := M.Col(ia, 2, 2, j);
      assert M.Dot(a0[0], col) == (if j == 0 then 1.0 else 0.0);
      assert M.Dot(a0[1], col) == (if j == 0 then 0.0 else 1.0);
      Dot2(a0[0], col);
      Dot2(a0[1], col);
    }
    var r := M.Scale(ia, -6.0, 2, 2);
    assert r[0] == [3.0, -3.0] && r[1] == [-6.0, 4.0];
  }
}
