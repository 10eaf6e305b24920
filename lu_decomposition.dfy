/** The LU decomposition with partial pivoting of src/linalg.rs,
    src/linalg/mod.rs and src/linalg/lu.rs, as functions on the matrix of
    entries (their real parts: the pivot search compares `abs().re()`).
    Step i picks the row with the strictly largest |a[k][i]|, k >= i,
    exchanges it with row i, stores the multipliers below the diagonal and
    updates the trailing block. The three copies differ only in the test
    that declares the matrix singular. The lemmas prove that p stays a
    permutation, that every pivot passes that test, that the decomposition
    fails exactly when a column has no usable pivot, and that the unit
    lower and the upper triangle multiply back to the row-permuted input. */
module LUDecomposition {
  import M = Matrix
  import W = Wrappers
  import SM = StaticMat

  /** `max_a.is_zero()` in src/linalg.rs; `max_a < 1e-10` in the other two. */
  datatype Singular = ExactZero | BelowTolerance

  const Tolerance: real := 0.0000000001

  predicate TooSmall(maxA: real, s: Singular) {
    match s
    case ExactZero => maxA == 0.0
    case BelowTolerance => maxA < Tolerance
  }

  function Abs(x: real): (r: real)
    ensures r >= 0.0 && (r == x || r == -x)
  {
    if x < 0.0 then -x else x
  }

  /** A largest candidate that passes the test is not zero. */
  lemma UsablePivot(x: real, s: Singular)
    requires !TooSmall(Abs(x), s)
    ensures x != 0.0
  {
  }

  /** "The matrix appears to be singular." */
  datatype LinAlgError = LinAlgError

  /** The `LU` struct: both factors packed in one matrix, the row
      permutation p and the counter p_count, which starts at n. */
  datatype LU = LU(a: M.Mat, p: seq<nat>, pCount: nat)

  /** Row k is the first of rows i..m-1 with the largest |a[k][i]|: the
      search loop, which starts from max_a = 0 at row i and takes a row
      only when it is strictly larger, holds this after looking at rows
      i..m-1. */
  predicate FirstLargest(a: M.Mat, n: nat, i: nat, m: nat, k: nat)
    requires M.Shaped(a, n, n) && i < n && m <= n
  {
    i <= k < m
    && (forall q :: i <= q < m ==> Magnitude(a, n, q, i) <= Magnitude(a, n, k, i))
    && (forall q :: i <= q < k ==> Magnitude(a, n, q, i) < Magnitude(a, n, k, i))
  }

  /** |a[q][i]|, the `abs().re()` the search compares. */
  function Magnitude(a: M.Mat, n: nat, q: nat, i: nat): (r: real)
    requires M.Shaped(a, n, n) && q < n && i < n
    ensures r >= 0.0
  {
    Abs(a[q][i])
  }

  /** One more row looked at. */
  lemma FirstLargestNext(a: M.Mat, n: nat, i: nat, m: nat, k: nat)
    requires M.Shaped(a, n, n) && i < n && m < n && FirstLargest(a, n, i, m, k)
    ensures FirstLargest(a, n, i, m + 1, if Magnitude(a, n, m, i) > Magnitude(a, n, k, i) then m else k)
  {
  }

  lemma {:induction false} FirstLargestExists(a: M.Mat, n: nat, i: nat, m: nat)
    requires M.Shaped(a, n, n) && i < m <= n
    ensures exists k :: FirstLargest(a, n, i, m, k)
  {
    if m == i + 1 {
      assert FirstLargest(a, n, i, m, i);
    } else {
      FirstLargestExists(a, n, i, m - 1);
      var k :| FirstLargest(a, n, i, m - 1, k);
      FirstLargestNext(a, n, i, m - 1, k);
    }
  }

  /** There is only one first largest row. */
  lemma FirstLargestUnique(a: M.Mat, n: nat, i: nat, m: nat, k1: nat, k2: nat)
    requires M.Shaped(a, n, n) && i < n && m <= n
    requires FirstLargest(a, n, i, m, k1) && FirstLargest(a, n, i, m, k2)
    ensures k1 == k2
  {
    assert Magnitude(a, n, k1, i) <= Magnitude(a, n, k2, i) <= Magnitude(a, n, k1, i);
  }

  /** The pivot row imax of column i: the first row k >= i with the largest
      |a[k][i]|. max_a is |a[imax][i]|. */
  ghost function PivotRow(a: M.Mat, n: nat, i: nat): (k: nat)
    requires M.Shaped(a, n, n) && i < n
    ensures FirstLargest(a, n, i, n, k)
  {
    FirstLargestExists(a, n, i, n);
    var k :| FirstLargest(a, n, i, n, k); k
  }

  function SwapRows(a: M.Mat, i: nat, j: nat): (b: M.Mat)
    requires i < |a| && j < |a|
    ensures |b| == |a| && b[i] == a[j] && b[j] == a[i]
    ensures forall r :: 0 <= r < |a| && r != i && r != j ==> b[r] == a[r]
  {
    a[i := a[j]][j := a[i]]
  }

  function Swap(p: seq<nat>, i: nat, j: nat): (q: seq<nat>)
    requires i < |p| && j < |p|
    ensures |q| == |p| && q[i] == p[j] && q[j] == p[i]
    ensures forall r :: 0 <= r < |p| && r != i && r != j ==> q[r] == p[r]
  {
    p[i := p[j]][j := p[i]]
  }

  /** Rows i and imax exchanged in the matrix and in p, and p_count
      incremented, when imax differs from i. */
  function Exchanged(lu: LU, n: nat, i: nat, imax: nat): (e: LU)
    requires M.Shaped(lu.a, n, n) && |lu.p| == n && i < n && imax < n
    ensures M.Shaped(e.a, n, n) && |e.p| == n
  {
    if imax != i then LU(SwapRows(lu.a, i, imax), Swap(lu.p, i, imax), lu.pCount + 1) else lu
  }

  /** The multiplier a[r][i] / a[i][i] stored below the diagonal. */
  function Multiplier(a: M.Mat, n: nat, r: nat, i: nat): real
    requires M.Shaped(a, n, n) && r < n && i < n && a[i][i] != 0.0
  {
    a[r][i] / a[i][i]
  }

  /** The elimination of column i: rows below i get the multiplier in
      column i and lose its multiple of row i to the right of it. */
  function Eliminate(a: M.Mat, n: nat, i: nat): (b: M.Mat)
    requires M.Shaped(a, n, n) && i < n && a[i][i] != 0.0
    ensures M.Shaped(b, n, n)
  {
    seq(n, r requires 0 <= r < n =>
      if r <= i then a[r] else
        seq(n, c requires 0 <= c < n =>
          if c < i then a[r][c] else if c == i then Multiplier(a, n, r, i)
          else a[r][c] - Multiplier(a, n, r, i) * a[i][c]))
  }

  /** Rows down to the pivot row are kept; below it, columns left of i are
      kept, column i holds the multiplier and the rest lose its multiple of
      the pivot row. */
  lemma EliminateAt(a: M.Mat, n: nat, i: nat, r: nat, c: nat)
    requires M.Shaped(a, n, n) && i < n && a[i][i] != 0.0 && r < n && c < n
    ensures Eliminate(a, n, i)[r][c]
         == (if r <= i || c < i then a[r][c] else if c == i then Multiplier(a, n, r, i)
             else a[r][c] - Multiplier(a, n, r, i) * a[i][c])
  {
  }

  lemma EliminateKeepsRows(a: M.Mat, n: nat, i: nat)
    requires M.Shaped(a, n, n) && i < n && a[i][i] != 0.0
    ensures forall r :: 0 <= r <= i ==> Eliminate(a, n, i)[r] == a[r]
  {
  }

  /** Step i: search, fail on a too small pivot, exchange, eliminate. */
  ghost function Step(lu: LU, n: nat, i: nat, s: Singular): (r: W.Result<LU, LinAlgError>)
    requires M.Shaped(lu.a, n, n) && |lu.p| == n && i < n
    ensures r.Ok? ==> M.Shaped(r.value.a, n, n) && |r.value.p| == n
  {
    var imax := PivotRow(lu.a, n, i);
    if TooSmall(Magnitude(lu.a, n, imax, i), s) then W.Err(LinAlgError)
    else
      var e := Exchanged(lu, n, i, imax);
      UsablePivot(e.a[i][i], s);
      W.Ok(e.(a := Eliminate(e.a, n, i)))
  }

  function Iota(n: nat): (p: seq<nat>)
    ensures |p| == n && forall k :: 0 <= k < n ==> p[k] == k
  {
    seq(n, k => k)
  }

  /* p stays a permutation and p_count counts the exchanges. */

  /** p takes each of 0..n-1 exactly once. */
  predicate IsPermutation(p: seq<nat>, n: nat) {
    |p| == n && (forall k :: 0 <= k < n ==> p[k] < n) && (forall j, k :: 0 <= j < k < n ==> p[j] != p[k])
    && (forall k :: 0 <= k < n ==> k in p)
  }

  lemma SwapPermutes(p: seq<nat>, n: nat, i: nat, j: nat)
    requires IsPermutation(p, n) && i < n && j < n
    ensures IsPermutation(Swap(p, i, j), n)
  {
    var q := Swap(p, i, j);
    forall a, b | 0 <= a < b < n ensures q[a] != q[b] {
      var a', b' := if a == i then j else if a == j then i else a, if b == i then j else if b == j then i else b;
      assert q[a] == p[a'] && q[b] == p[b'] && a' != b';
    }
    forall k | 0 <= k < n ensures k in q {
      assert k in p;
      var r :| 0 <= r < |p| && p[r] == k;
      var r' := if r == i then j else if r == j then i else r;
      assert q[r'] == k;
    }
  }

  lemma StepPermutes(lu: LU, n: nat, i: nat, s: Singular)
    requires M.Shaped(lu.a, n, n) && IsPermutation(lu.p, n) && i < n && Step(lu, n, i, s).Ok?
    ensures IsPermutation(Step(lu, n, i, s).value.p, n)
    ensures lu.pCount <= Step(lu, n, i, s).value.pCount <= lu.pCount + 1
  {
    var imax := PivotRow(lu.a, n, i);
    if imax != i {
      SwapPermutes(lu.p, n, i, imax);
    }
  }

  /* Rows above the current step are final, and every pivot passes the test. */

  lemma StepKeepsRows(lu: LU, n: nat, i: nat, s: Singular)
    requires M.Shaped(lu.a, n, n) && |lu.p| == n && i < n && Step(lu, n, i, s).Ok?
    ensures forall r :: 0 <= r < i ==> Step(lu, n, i, s).value.a[r] == lu.a[r]
    ensures !TooSmall(Abs(Step(lu, n, i, s).value.a[i][i]), s)
  {
    var e := Exchanged(lu, n, i, PivotRow(lu.a, n, i));
    UsablePivot(e.a[i][i], s);
    EliminateKeepsRows(e.a, n, i);
  }

  predicate Pivoted(a: M.Mat, n: nat, k: nat, s: Singular)
    requires M.Shaped(a, n, n) && k <= n
  {
    forall r :: 0 <= r < k ==> !TooSmall(Abs(a[r][r]), s)
  }

  /* The decomposition fails exactly when, at some step, no entry of the
     active column is usable. */

  predicate ColumnSmall(a: M.Mat, n: nat, i: nat, s: Singular)
    requires M.Shaped(a, n, n) && i < n
  {
    match s
    case ExactZero => forall q :: i <= q < n ==> a[q][i] == 0.0
    case BelowTolerance => forall q :: i <= q < n ==> Abs(a[q][i]) < Tolerance
  }

  lemma TooSmallIffColumnSmall(a: M.Mat, n: nat, i: nat, s: Singular)
    requires M.Shaped(a, n, n) && i < n
    ensures TooSmall(Magnitude(a, n, PivotRow(a, n, i), i), s) <==> ColumnSmall(a, n, i, s)
  {
    var imax := PivotRow(a, n, i);
    if TooSmall(Magnitude(a, n, imax, i), s) {
      forall q | i <= q < n ensures TooSmall(Abs(a[q][i]), s) {
        assert Magnitude(a, n, q, i) <= Magnitude(a, n, imax, i);
      }
    }
  }

  /* The factors multiply back to the permuted input. After i steps, entry
     (r, c) of the permuted input is the sum over the finished columns k <
     min(i, r, c + 1) of multiplier times pivot row, plus the entry itself
     where it lies on or right of the diagonal of a finished row, or in the
     trailing block. */

  /** Σ_{k < m} a[r][k]·a[k][c]. */
  function Prod(a: M.Mat, n: nat, r: nat, c: nat, m: nat): real
    requires M.Shaped(a, n, n) && r < n && c < n && m <= n
  {
    if m == 0 then 0.0 else Prod(a, n, r, c, m - 1) + a[r][m - 1] * a[m - 1][c]
  }

  function Min(x: nat, y: nat): nat {
    if x < y then x else y
  }

  function Rebuilt(a: M.Mat, n: nat, i: nat, r: nat, c: nat): real
    requires M.Shaped(a, n, n) && i <= n && r < n && c < n
  {
    Prod(a, n, r, c, Min(Min(i, r), c + 1)) + (if c >= Min(r, i) then a[r][c] else 0.0)
  }

  predicate Reconstructs(lu: LU, a0: M.Mat, n: nat, i: nat)
    requires M.Shaped(lu.a, n, n) && M.Shaped(a0, n, n) && IsPermutation(lu.p, n) && i <= n
  {
    forall r, c :: 0 <= r < n && 0 <= c < n ==> Rebuilt(lu.a, n, i, r, c) == a0[lu.p[r]][c]
  }

  lemma {:induction false} ProdFrame(a: M.Mat, b: M.Mat, n: nat, r1: nat, r2: nat, c: nat, m: nat)
    requires M.Shaped(a, n, n) && M.Shaped(b, n, n) && r1 < n && r2 < n && c < n && m <= n
    requires forall k :: 0 <= k < m ==> a[r1][k] == b[r2][k] && a[k][c] == b[k][c]
    ensures Prod(a, n, r1, c, m) == Prod(b, n, r2, c, m)
  {
    if m > 0 {
      ProdFrame(a, b, n, r1, r2, c, m - 1);
    }
  }

  /** Exchanging two rows at or below step i permutes the rebuilt rows as
      it permutes p. */
  lemma ExchangeEntry(lu: LU, n: nat, i: nat, j: nat, r: nat, c: nat)
    requires M.Shaped(lu.a, n, n) && |lu.p| == n && i <= j < n && r < n && c < n
    ensures Rebuilt(Exchanged(lu, n, i, j).a, n, i, r, c)
         == Rebuilt(lu.a, n, i, if r == i then j else if r == j then i else r, c)
    ensures Exchanged(lu, n, i, j).p[r] == lu.p[if r == i then j else if r == j then i else r]
  {
    var e := Exchanged(lu, n, i, j);
    var r' := if r == i then j else if r == j then i else r;
    var m := Min(Min(i, r), c + 1);
    assert m == Min(Min(i, r'), c + 1) && Min(r, i) == Min(r', i);
    ProdFrame(e.a, lu.a, n, r, r', c, m);
  }

  lemma ExchangeKeeps(lu: LU, a0: M.Mat, n: nat, i: nat, j: nat)
    requires M.Shaped(lu.a, n, n) && M.Shaped(a0, n, n) && IsPermutation(lu.p, n) && i <= j < n
    requires Reconstructs(lu, a0, n, i)
    ensures IsPermutation(Exchanged(lu, n, i, j).p, n) && Reconstructs(Exchanged(lu, n, i, j), a0, n, i)
  {
    if j != i {
      SwapPermutes(lu.p, n, i, j);
    }
    var e := Exchanged(lu, n, i, j);
    forall r, c | 0 <= r < n && 0 <= c < n ensures Rebuilt(e.a, n, i, r, c) == a0[e.p[r]][c] {
      ExchangeEntry(lu, n, i, j, r, c);
    }
  }

  /** Elimination moves one column from the trailing block into the
      finished part without changing any rebuilt entry. */
  lemma EliminateEntry(a: M.Mat, n: nat, i: nat, r: nat, c: nat)
    requires M.Shaped(a, n, n) && i < n && a[i][i] != 0.0 && r < n && c < n
    ensures Rebuilt(Eliminate(a, n, i), n, i + 1, r, c) == Rebuilt(a, n, i, r, c)
  {
    if r <= i {
      EliminateFinishedRow(a, n, i, r, c);
    } else if c < i {
      forall k | 0 <= k < c + 1 ensures Eliminate(a, n, i)[r][k] == a[r][k] && Eliminate(a, n, i)[k][c] == a[k][c] {
        EliminateAt(a, n, i, r, k);
        EliminateAt(a, n, i, k, c);
      }
      ProdFrame(Eliminate(a, n, i), a, n, r, r, c, c + 1);
    } else {
      EliminateActive(a, n, i, r, c);
    }
  }

  lemma EliminateFinishedRow(a: M.Mat, n: nat, i: nat, r: nat, c: nat)
    requires M.Shaped(a, n, n) && i < n && a[i][i] != 0.0 && r <= i && c < n
    ensures Rebuilt(Eliminate(a, n, i), n, i + 1, r, c) == Rebuilt(a, n, i, r, c)
  {
    assert Min(Min(i + 1, r), c + 1) == Min(Min(i, r), c + 1) && Min(r, i + 1) == Min(r, i);
    EliminateKeepsRows(a, n, i);
    forall k | 0 <= k < Min(Min(i, r), c + 1) ensures Eliminate(a, n, i)[k][c] == a[k][c] {
      EliminateAt(a, n, i, k, c);
    }
    ProdFrame(Eliminate(a, n, i), a, n, r, r, c, Min(Min(i, r), c + 1));
  }

  /** Row r below the pivot, column c at or right of it: the term
      multiplier·a[i][c] moves from the trailing entry into the sum. */
  lemma EliminateActive(a: M.Mat, n: nat, i: nat, r: nat, c: nat)
    requires M.Shaped(a, n, n) && i < n && a[i][i] != 0.0 && i < r < n && i <= c < n
    ensures Rebuilt(Eliminate(a, n, i), n, i + 1, r, c) == Rebuilt(a, n, i, r, c)
  {
    var b := Eliminate(a, n, i);
    var t := Multiplier(a, n, r, i);
    EliminatePrefix(a, n, i, r, c);
    EliminateAt(a, n, i, r, i);
    EliminateAt(a, n, i, i, c);
    EliminateAt(a, n, i, r, c);
    RebuiltActive(a, n, i, r, c);
    RebuiltNext(b, n, i, r, c);
    if c == i {
      PivotCancels(a, n, r, i);
    }
  }

  /** Below row i and from column i on, the first i terms plus the entry. */
  lemma RebuiltActive(a: M.Mat, n: nat, i: nat, r: nat, c: nat)
    requires M.Shaped(a, n, n) && i < r < n && i <= c < n
    ensures Rebuilt(a, n, i, r, c) == Prod(a, n, r, c, i) + a[r][c]
  {
    assert Min(Min(i, r), c + 1) == i && Min(r, i) == i;
  }

  /** One more step: the term of index i joins the product, and the entry
      stays only right of column i. */
  lemma RebuiltNext(b: M.Mat, n: nat, i: nat, r: nat, c: nat)
    requires M.Shaped(b, n, n) && i < r < n && i <= c < n
    ensures Rebuilt(b, n, i + 1, r, c)
         == Prod(b, n, r, c, i) + b[r][i] * b[i][c] + (if c > i then b[r][c] else 0.0)
  {
    assert Min(Min(i + 1, r), c + 1) == i + 1 && Min(r, i + 1) == i + 1;
  }

  /** Elimination leaves the first i terms of the product of row r and
      column c alone. */
  lemma EliminatePrefix(a: M.Mat, n: nat, i: nat, r: nat, c: nat)
    requires M.Shaped(a, n, n) && i < n && a[i][i] != 0.0 && r < n && c < n
    ensures Prod(Eliminate(a, n, i), n, r, c, i) == Prod(a, n, r, c, i)
  {
    var b := Eliminate(a, n, i);
    forall k | 0 <= k < i ensures b[r][k] == a[r][k] && b[k][c] == a[k][c] {
      EliminateAt(a, n, i, r, k);
      EliminateAt(a, n, i, k, c);
    }
    ProdFrame(b, a, n, r, r, c, i);
  }

  /** The multiplier times the pivot is the entry it eliminates. */
  lemma PivotCancels(a: M.Mat, n: nat, r: nat, i: nat)
    requires M.Shaped(a, n, n) && r < n && i < n && a[i][i] != 0.0
    ensures Multiplier(a, n, r, i) * a[i][i] == a[r][i]
  {
  }

  lemma EliminateKeeps(lu: LU, a0: M.Mat, n: nat, i: nat)
    requires M.Shaped(lu.a, n, n) && M.Shaped(a0, n, n) && IsPermutation(lu.p, n) && i < n && lu.a[i][i] != 0.0
    requires Reconstructs(lu, a0, n, i)
    ensures Reconstructs(lu.(a := Eliminate(lu.a, n, i)), a0, n, i + 1)
  {
    forall r, c | 0 <= r < n && 0 <= c < n
      ensures Rebuilt(Eliminate(lu.a, n, i), n, i + 1, r, c) == a0[lu.p[r]][c]
    {
      EliminateEntry(lu.a, n, i, r, c);
    }
  }

  /** The unit lower triangle L (multipliers below a diagonal of ones) and
      the upper triangle U of the packed matrix. */
  function Lower(a: M.Mat, n: nat): (l: M.Mat)
    requires M.Shaped(a, n, n)
    ensures M.Shaped(l, n, n)
  {
    seq(n, r requires 0 <= r < n => seq(n, k requires 0 <= k < n => if k < r then a[r][k] else if k == r then 1.0 else 0.0))
  }

  function Upper(a: M.Mat, n: nat): (u: M.Mat)
    requires M.Shaped(a, n, n)
    ensures M.Shaped(u, n, n)
  {
    seq(n, k requires 0 <= k < n => seq(n, c requires 0 <= c < n => if k <= c then a[k][c] else 0.0))
  }

  /** The first m terms of (L·U)[r][c]. */
  lemma {:induction false} LowerUpperPartial(a: M.Mat, n: nat, r: nat, c: nat, m: nat)
    requires M.Shaped(a, n, n) && r < n && c < n && m <= n
    ensures SM.Partial(Lower(a, n)[r], M.Col(Upper(a, n), n, n, c), m)
         == Prod(a, n, r, c, Min(Min(m, r), c + 1)) + (if r < m && c >= r then a[r][c] else 0.0)
  {
    if m > 0 {
      LowerUpperPartial(a, n, r, c, m - 1);
      SM.PartialStep(Lower(a, n)[r], M.Col(Upper(a, n), n, n, c), m - 1);
    }
  }

  function Permuted(a0: M.Mat, p: seq<nat>, n: nat): (b: M.Mat)
    requires M.Shaped(a0, n, n) && IsPermutation(p, n)
    ensures M.Shaped(b, n, n)
  {
    seq(n, r requires 0 <= r < n => a0[p[r]])
  }

  /* The invariant of the decomposition loop. */

  /** After i steps from a0: p is a permutation, p_count lies between n and
      n + i, the first i pivots pass the test and the packed factors rebuild
      the permuted input. */
  predicate Partial(lu: LU, a0: M.Mat, n: nat, i: nat, s: Singular)
    requires M.Shaped(a0, n, n) && i <= n
  {
    M.Shaped(lu.a, n, n) && IsPermutation(lu.p, n) && n <= lu.pCount <= n + i
    && Pivoted(lu.a, n, i, s) && Reconstructs(lu, a0, n, i)
  }

  /** The start: a0 itself, p the identity and p_count = n. */
  lemma StartPartial(a0: M.Mat, n: nat, s: Singular)
    requires M.Shaped(a0, n, n)
    ensures Partial(LU(a0, Iota(n), n), a0, n, 0, s)
  {
    forall k | 0 <= k < n ensures k in Iota(n) {
      assert Iota(n)[k] == k;
    }
    forall r, c | 0 <= r < n && 0 <= c < n ensures Rebuilt(a0, n, 0, r, c) == a0[Iota(n)[r]][c] {
    }
  }

  /** A step that succeeds keeps the invariant, one column further. */
  lemma StepKeepsPartial(lu: LU, a0: M.Mat, n: nat, i: nat, s: Singular)
    requires M.Shaped(a0, n, n) && i < n && Partial(lu, a0, n, i, s) && Step(lu, n, i, s).Ok?
    ensures Partial(Step(lu, n, i, s).value, a0, n, i + 1, s)
  {
    StepPermutes(lu, n, i, s);
    StepKeepsRows(lu, n, i, s);
    var imax := PivotRow(lu.a, n, i);
    ExchangeKeeps(lu, a0, n, i, imax);
    var e := Exchanged(lu, n, i, imax);
    UsablePivot(e.a[i][i], s);
    EliminateKeeps(e, a0, n, i);
  }

  /** A step fails exactly when no entry of the active column is usable. */
  lemma StepFailsIff(lu: LU, n: nat, i: nat, s: Singular)
    requires M.Shaped(lu.a, n, n) && |lu.p| == n && i < n
    ensures Step(lu, n, i, s).Err? <==> ColumnSmall(lu.a, n, i, s)
  {
    TooSmallIffColumnSmall(lu.a, n, i, s);
  }

  /** The first i steps from a0, p the identity and p_count = n; the first
      step that fails ends the decomposition with its error. */
  ghost function Run(a0: M.Mat, n: nat, i: nat, s: Singular): (r: W.Result<LU, LinAlgError>)
    requires M.Shaped(a0, n, n) && i <= n
    ensures r.Ok? ==> M.Shaped(r.value.a, n, n) && |r.value.p| == n
  {
    if i == 0 then W.Ok(LU(a0, Iota(n), n))
    else match Run(a0, n, i - 1, s)
      case Err(e) => W.Err(e)
      case Ok(lu) => Step(lu, n, i - 1, s)
  }

  /** A run of i steps that succeeds is step i − 1 applied to the run of
      i − 1 steps, which succeeded too. */
  lemma RunStep(a0: M.Mat, n: nat, i: nat, s: Singular)
    requires M.Shaped(a0, n, n) && 0 < i <= n && Run(a0, n, i, s).Ok?
    ensures Run(a0, n, i - 1, s).Ok?
    ensures Run(a0, n, i, s) == Step(Run(a0, n, i - 1, s).value, n, i - 1, s)
  {
  }

  /** Once a step has failed, the later ones keep the error. */
  lemma {:induction false} RunStaysErr(a0: M.Mat, n: nat, i: nat, m: nat, s: Singular)
    requires M.Shaped(a0, n, n) && i <= m <= n && Run(a0, n, i, s).Err?
    ensures Run(a0, n, m, s) == W.Err(LinAlgError)
    decreases m - i
  {
    if m > i {
      RunStaysErr(a0, n, i, m - 1, s);
    } else {
      assert Run(a0, n, m, s).error.LinAlgError?;
    }
  }

  /** After all n steps: no zero on the diagonal, so `solve`, `inverse` and
      `determinant` never divide by zero, and L·U = P·A, the input with its
      rows in the order p. */
  lemma Factors(lu: LU, a0: M.Mat, n: nat, s: Singular)
    requires M.Shaped(a0, n, n) && Partial(lu, a0, n, n, s)
    ensures forall r :: 0 <= r < n ==> lu.a[r][r] != 0.0
    ensures M.MatMul(Lower(lu.a, n), Upper(lu.a, n), n, n, n) == Permuted(a0, lu.p, n)
  {
    forall r | 0 <= r < n ensures lu.a[r][r] != 0.0 {
      UsablePivot(lu.a[r][r], s);
    }
    var prod := M.MatMul(Lower(lu.a, n), Upper(lu.a, n), n, n, n);
    forall r, c | 0 <= r < n && 0 <= c < n ensures prod[r][c] == Permuted(a0, lu.p, n)[r][c] {
      LowerUpperPartial(lu.a, n, r, c, n);
      SM.PartialFull(Lower(lu.a, n)[r], M.Col(Upper(lu.a, n), n, n, c));
      assert Rebuilt(lu.a, n, n, r, c) == a0[lu.p[r]][c];
    }
    M.SameEntries(prod, Permuted(a0, lu.p, n), n, n);
  }

  /** The decomposition of the matrix of the `solve` tests, [[4, 3], [6, 3]]:
      step 0 takes row 1 (|6| > |4|) as the pivot, exchanges, and stores the
      multiplier 4/6 below it, leaving 3 − (2/3)·3 = 1; step 1 has nothing
      left to do. */
  lemma RunTest(a0: M.Mat, s: Singular)
    requires a0 == [[4.0, 3.0], [6.0, 3.0]]
    ensures Run(a0, 2, 2, s) == W.Ok(LU([[6.0, 3.0], [2.0 / 3.0, 1.0]], [1, 0], 3))
  {
    var lu0 := LU(a0, Iota(2), 2);
    assert Iota(2) == [0, 1];
    assert FirstLargest(a0, 2, 0, 2, 1);
    FirstLargestUnique(a0, 2, 0, 2, 1, PivotRow(a0, 2, 0));
    var e0 := Exchanged(lu0, 2, 0, 1);
    assert e0 == LU([[6.0, 3.0], [4.0, 3.0]], [1, 0], 3);
    var a1 := Eliminate(e0.a, 2, 0);
    assert Multiplier(e0.a, 2, 1, 0) == 2.0 / 3.0;
    assert a1[0] == [6.0, 3.0];
    assert a1[1][0] == 2.0 / 3.0 && a1[1][1] == 3.0 - 2.0 / 3.0 * 3.0 == 1.0;
    assert a1[1] == [2.0 / 3.0, 1.0];
    assert a1 == [[6.0, 3.0], [2.0 / 3.0, 1.0]];
    assert Run(a0, 2, 1, s) == W.Ok(LU(a1, [1, 0], 3));
    assert FirstLargest(a1, 2, 1, 2, 1);
    FirstLargestUnique(a1, 2, 1, 2, 1, PivotRow(a1, 2, 1));
    assert Eliminate(a1, 2, 1) == a1;
  }
}
