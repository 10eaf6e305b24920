/** The determinant as the cofactor expansion along the first column: an
    independent definition against which `determinant` of src/linalg.rs is
    proved. Exchanging two rows negates it, a row minus a multiple of
    another row keeps it, and an upper triangular matrix has the product of
    its diagonal. The elimination of the LU decomposition does exactly
    those row operations, so the diagonal product of the packed matrix,
    negated after an odd number of exchanges, is the determinant of the
    input. */
module Cofactor {
  import M = Matrix
  import LU = LUDecomposition
  import SM = StaticMat
  import LA = LinAlg
  import W = Wrappers

  /** The matrix without row r and without its first column. */
  function Minor(a: M.Mat, n: nat, r: nat): (b: M.Mat)
    requires M.Shaped(a, n, n) && r < n
    ensures M.Shaped(b, n - 1, n - 1)
  {
    seq(n - 1, k requires 0 <= k < n - 1 => a[if k < r then k else k + 1][1..])
  }

  /** Σ_r (−1)^r·a[r][0]·det(minor r); the empty matrix has determinant 1. */
  function Det(a: M.Mat, n: nat): real
    requires M.Shaped(a, n, n)
    decreases n, n + 1
  {
    if n == 0 then 1.0 else Expansion(a, n, n)
  }

  /** The first m terms of the expansion of a nonempty matrix. */
  function Expansion(a: M.Mat, n: nat, m: nat): real
    requires M.Shaped(a, n, n) && 0 < n && m <= n
    decreases n, m
  {
    if m == 0 then 0.0 else Expansion(a, n, m - 1) + Term(a, n, m - 1)
  }

  /** (−1)^r·a[r][0]·det(minor r). */
  function Term(a: M.Mat, n: nat, r: nat): real
    requires M.Shaped(a, n, n) && r < n
    decreases n, 0
  {
    Weighted(r, a[r][0], Det(Minor(a, n, r), n - 1))
  }

  /** (−1)^r·x·d, the term of row r with leading entry x and minor determinant d. */
  function Weighted(r: nat, x: real, d: real): real {
    if r % 2 == 0 then x * d else -(x * d)
  }

  /** The 2×2 case is a·d − c·b. */
  lemma Det2(a: M.Mat)
    requires M.Shaped(a, 2, 2)
    ensures Det(a, 2) == a[0][0] * a[1][1] - a[1][0] * a[0][1]
  {
    var m0, m1 := Minor(a, 2, 0), Minor(a, 2, 1);
    assert Det(m0, 1) == Term(m0, 1, 0) == m0[0][0] * 1.0;
    assert Det(m1, 1) == Term(m1, 1, 0) == m1[0][0] * 1.0;
  }

  /* Sums of terms. */

  /** x + t·y: the determinant is linear in each row in this sense. */
  function Lin(x: real, t: real, y: real): real {
    x + t * y
  }

  /** Partial sums that combine, plus terms that combine, combine. */
  lemma LinSum(ec: real, ea: real, eb: real, pc: real, pa: real, pb: real, tc: real, ta: real, tb: real, t: real)
    requires ec == pc + tc && ea == pa + ta && eb == pb + tb
    requires pc == Lin(pa, t, pb) && tc == Lin(ta, t, tb)
    ensures ec == Lin(ea, t, eb)
  {
  }

  /** Terms that combine give partial expansions that combine. */
  lemma {:induction false} ExpansionCombination(c: M.Mat, a: M.Mat, b: M.Mat, n: nat, m: nat, t: real)
    requires M.Shaped(c, n, n) && M.Shaped(a, n, n) && M.Shaped(b, n, n) && 0 < n && m <= n
    requires forall r :: 0 <= r < m ==> Term(c, n, r) == Lin(Term(a, n, r), t, Term(b, n, r))
    ensures Expansion(c, n, m) == Lin(Expansion(a, n, m), t, Expansion(b, n, m))
  {
    if m > 0 {
      ExpansionCombination(c, a, b, n, m - 1, t);
      LinSum(Expansion(c, n, m), Expansion(a, n, m), Expansion(b, n, m),
             Expansion(c, n, m - 1), Expansion(a, n, m - 1), Expansion(b, n, m - 1),
             Term(c, n, m - 1), Term(a, n, m - 1), Term(b, n, m - 1), t);
    }
  }

  /** Every term negated, except that terms k and k + 1 also trade places:
      a partial expansion that does not split the pair is negated. */
  lemma {:induction false} ExpansionNegated(a: M.Mat, b: M.Mat, n: nat, m: nat, k: nat)
    requires M.Shaped(a, n, n) && M.Shaped(b, n, n) && k + 1 < n && m <= n && (m <= k || k + 2 <= m)
    requires forall r :: 0 <= r < m && r != k && r != k + 1 ==> Term(b, n, r) == -Term(a, n, r)
    requires Term(b, n, k) == -Term(a, n, k + 1) && Term(b, n, k + 1) == -Term(a, n, k)
    ensures Expansion(b, n, m) == -Expansion(a, n, m)
  {
    if m == k + 2 {
      ExpansionNegated(a, b, n, k, k);
      assert Expansion(b, n, k + 2) == Expansion(b, n, k) + Term(b, n, k) + Term(b, n, k + 1);
      assert Expansion(a, n, k + 2) == Expansion(a, n, k) + Term(a, n, k) + Term(a, n, k + 1);
    } else if m > 0 {
      ExpansionNegated(a, b, n, m - 1, k);
    }
  }

  /** Only the first term is left. */
  lemma {:induction false} ExpansionFirst(a: M.Mat, n: nat, m: nat)
    requires M.Shaped(a, n, n) && 0 < m <= n
    requires forall r :: 0 < r < m ==> Term(a, n, r) == 0.0
    ensures Expansion(a, n, m) == Term(a, n, 0)
  {
    if m > 1 {
      ExpansionFirst(a, n, m - 1);
    }
  }

  /* Linearity in one row. */

  /** c agrees with a and with b outside row k, and row k of c is row k of a
      plus t times row k of b. */
  predicate RowCombination(c: M.Mat, a: M.Mat, b: M.Mat, n: nat, k: nat, t: real)
    requires M.Shaped(c, n, n) && M.Shaped(a, n, n) && M.Shaped(b, n, n) && k < n
  {
    (forall r :: 0 <= r < n && r != k ==> c[r] == a[r] && b[r] == a[r])
    && forall j :: 0 <= j < n ==> c[k][j] == Lin(a[k][j], t, b[k][j])
  }

  lemma MinorSame(a: M.Mat, b: M.Mat, n: nat, r: nat)
    requires M.Shaped(a, n, n) && M.Shaped(b, n, n) && r < n
    requires forall q :: 0 <= q < n && q != r ==> a[q] == b[q]
    ensures Minor(a, n, r) == Minor(b, n, r)
  {
  }

  /** Deleting another row and the first column keeps the combination. */
  lemma MinorCombination(c: M.Mat, a: M.Mat, b: M.Mat, n: nat, k: nat, t: real, r: nat)
    requires M.Shaped(c, n, n) && M.Shaped(a, n, n) && M.Shaped(b, n, n) && k < n && r < n && r != k
    requires RowCombination(c, a, b, n, k, t)
    ensures RowCombination(Minor(c, n, r), Minor(a, n, r), Minor(b, n, r), n - 1, if k < r then k else k - 1, t)
  {
  }

  /** A term is linear in its leading entry. */
  lemma WeightedLeading(r: nat, xc: real, xa: real, xb: real, t: real, d: real)
    requires xc == Lin(xa, t, xb)
    ensures Weighted(r, xc, d) == Lin(Weighted(r, xa, d), t, Weighted(r, xb, d))
  {
    assert xc * d == xa * d + t * (xb * d);
  }

  /** A term is linear in its minor determinant. */
  lemma WeightedLinear(r: nat, x: real, dc: real, da: real, db: real, t: real)
    requires dc == Lin(da, t, db)
    ensures Weighted(r, x, dc) == Lin(Weighted(r, x, da), t, Weighted(r, x, db))
  {
    assert x * dc == x * da + t * (x * db);
  }

  /** The determinant is linear in each row. */
  lemma {:induction false} DetLinear(c: M.Mat, a: M.Mat, b: M.Mat, n: nat, k: nat, t: real)
    requires M.Shaped(c, n, n) && M.Shaped(a, n, n) && M.Shaped(b, n, n) && k < n
    requires RowCombination(c, a, b, n, k, t)
    ensures Det(c, n) == Lin(Det(a, n), t, Det(b, n))
    decreases n, 1
  {
    forall r | 0 <= r < n ensures Term(c, n, r) == Lin(Term(a, n, r), t, Term(b, n, r)) {
      TermCombination(c, a, b, n, k, t, r);
    }
    ExpansionCombination(c, a, b, n, n, t);
  }

  /** Term r of the expansion is linear in row k too. */
  lemma {:induction false} TermCombination(c: M.Mat, a: M.Mat, b: M.Mat, n: nat, k: nat, t: real, r: nat)
    requires M.Shaped(c, n, n) && M.Shaped(a, n, n) && M.Shaped(b, n, n) && k < n && r < n
    requires RowCombination(c, a, b, n, k, t)
    ensures Term(c, n, r) == Lin(Term(a, n, r), t, Term(b, n, r))
    decreases n, 0
  {
    if r == k {
      OwnTermCombination(c, a, b, n, k, t);
    } else {
      MinorCombination(c, a, b, n, k, t, r);
      DetLinear(Minor(c, n, r), Minor(a, n, r), Minor(b, n, r), n - 1, if k < r then k else k - 1, t);
      assert c[r] == a[r] && b[r] == a[r];
      OtherTermCombination(c, a, b, n, t, r);
    }
  }

  lemma TermIs(a: M.Mat, n: nat, r: nat)
    requires M.Shaped(a, n, n) && r < n
    ensures Term(a, n, r) == Weighted(r, a[r][0], Det(Minor(a, n, r), n - 1))
  {
  }

  /** The term of row k itself: the minors agree and the leading entry combines. */
  lemma OwnTermCombination(c: M.Mat, a: M.Mat, b: M.Mat, n: nat, k: nat, t: real)
    requires M.Shaped(c, n, n) && M.Shaped(a, n, n) && M.Shaped(b, n, n) && k < n
    requires RowCombination(c, a, b, n, k, t)
    ensures Term(c, n, k) == Lin(Term(a, n, k), t, Term(b, n, k))
  {
    MinorSame(c, a, n, k);
    MinorSame(b, a, n, k);
    TermIs(c, n, k);
    TermIs(a, n, k);
    TermIs(b, n, k);
    WeightedLeading(k, c[k][0], a[k][0], b[k][0], t, Det(Minor(a, n, k), n - 1));
  }

  /** Another term: the leading entries agree and the minors combine. */
  lemma OtherTermCombination(c: M.Mat, a: M.Mat, b: M.Mat, n: nat, t: real, r: nat)
    requires M.Shaped(c, n, n) && M.Shaped(a, n, n) && M.Shaped(b, n, n) && r < n
    requires c[r][0] == a[r][0] && b[r][0] == a[r][0]
    requires Det(Minor(c, n, r), n - 1) == Lin(Det(Minor(a, n, r), n - 1), t, Det(Minor(b, n, r), n - 1))
    ensures Term(c, n, r) == Lin(Term(a, n, r), t, Term(b, n, r))
  {
    TermIs(c, n, r);
    TermIs(a, n, r);
    TermIs(b, n, r);
    WeightedLinear(r, a[r][0], Det(Minor(c, n, r), n - 1), Det(Minor(a, n, r), n - 1), Det(Minor(b, n, r), n - 1), t);
  }

  /* Row exchanges. */

  lemma SwapShaped(a: M.Mat, n: nat, i: nat, j: nat)
    requires M.Shaped(a, n, n) && i < n && j < n
    ensures M.Shaped(LU.SwapRows(a, i, j), n, n)
  {
  }

  /** Exchanging rows k and k + 1 exchanges two rows of every other minor. */
  lemma MinorSwap(a: M.Mat, n: nat, k: nat, r: nat)
    requires M.Shaped(a, n, n) && k + 1 < n && r < n && r != k && r != k + 1
    ensures Minor(LU.SwapRows(a, k, k + 1), n, r)
            == LU.SwapRows(Minor(a, n, r), if r < k then k - 1 else k, if r < k then k else k + 1)
  {
  }

  /** The minors of rows k and k + 1 trade places. */
  lemma MinorSwapOwn(a: M.Mat, n: nat, k: nat)
    requires M.Shaped(a, n, n) && k + 1 < n
    ensures Minor(LU.SwapRows(a, k, k + 1), n, k) == Minor(a, n, k + 1)
            && Minor(LU.SwapRows(a, k, k + 1), n, k + 1) == Minor(a, n, k)
  {
  }

  /** Moving a term one row down flips its sign. */
  lemma WeightedNext(r: nat, x: real, d: real)
    ensures Weighted(r + 1, x, d) == -Weighted(r, x, d)
  {
  }

  /** The terms of rows k and k + 1 trade places with their signs flipped. */
  lemma TermsExchanged(a: M.Mat, n: nat, k: nat)
    requires M.Shaped(a, n, n) && k + 1 < n
    ensures Term(LU.SwapRows(a, k, k + 1), n, k) == -Term(a, n, k + 1)
    ensures Term(LU.SwapRows(a, k, k + 1), n, k + 1) == -Term(a, n, k)
  {
    var b := LU.SwapRows(a, k, k + 1);
    MinorSwapOwn(a, n, k);
    WeightedNext(k, a[k + 1][0], Det(Minor(a, n, k + 1), n - 1));
    WeightedNext(k, a[k][0], Det(Minor(a, n, k), n - 1));
  }

  /** Exchanging two neighbouring rows negates the determinant. */
  lemma {:induction false} DetAdjacentSwap(a: M.Mat, n: nat, k: nat)
    requires M.Shaped(a, n, n) && k + 1 < n
    ensures Det(LU.SwapRows(a, k, k + 1), n) == -Det(a, n)
    decreases n, 1
  {
    var b := LU.SwapRows(a, k, k + 1);
    forall r | 0 <= r < n && r != k && r != k + 1 ensures Term(b, n, r) == -Term(a, n, r) {
      TermSwap(a, n, k, r);
    }
    TermsExchanged(a, n, k);
    ExpansionNegated(a, b, n, n, k);
  }

  /** Every other term of the expansion is negated. */
  lemma {:induction false} TermSwap(a: M.Mat, n: nat, k: nat, r: nat)
    requires M.Shaped(a, n, n) && k + 1 < n && r < n && r != k && r != k + 1
    ensures Term(LU.SwapRows(a, k, k + 1), n, r) == -Term(a, n, r)
    decreases n, 0
  {
    MinorSwap(a, n, k, r);
    DetAdjacentSwap(Minor(a, n, r), n - 1, if r < k then k - 1 else k);
  }

  /** Exchanging any two rows negates the determinant: an odd number of
      neighbour exchanges carries row i down to j and row j up to i. */
  lemma {:induction false} DetSwap(a: M.Mat, n: nat, i: nat, j: nat)
    requires M.Shaped(a, n, n) && i < j < n
    ensures Det(LU.SwapRows(a, i, j), n) == -Det(a, n)
    decreases j - i
  {
    SwapShaped(a, n, i, j);
    if j == i + 1 {
      DetAdjacentSwap(a, n, i);
    } else {
      DetAdjacentSwap(a, n, i);
      var b := LU.SwapRows(a, i, i + 1);
      SwapShaped(a, n, i, i + 1);
      DetSwap(b, n, i + 1, j);
      var c := LU.SwapRows(b, i + 1, j);
      SwapShaped(b, n, i + 1, j);
      DetAdjacentSwap(c, n, i);
      assert LU.SwapRows(c, i, i + 1) == LU.SwapRows(a, i, j);
    }
  }

  /** Two equal rows make the determinant zero. */
  lemma DetEqualRows(a: M.Mat, n: nat, i: nat, j: nat)
    requires M.Shaped(a, n, n) && i < j < n && a[i] == a[j]
    ensures Det(a, n) == 0.0
  {
    if j == i + 1 {
      DetAdjacentSwap(a, n, i);
      assert LU.SwapRows(a, i, i + 1) == a;
    } else {
      DetSwap(a, n, i + 1, j);
      var b := LU.SwapRows(a, i + 1, j);
      SwapShaped(a, n, i + 1, j);
      DetAdjacentSwap(b, n, i);
      assert LU.SwapRows(b, i, i + 1) == b;
    }
  }

  /* Row operations. */

  /** Row r minus m times row i. */
  function RowMinus(a: M.Mat, n: nat, r: nat, i: nat, m: real): (row: seq<real>)
    requires M.Shaped(a, n, n) && r < n && i < n
    ensures |row| == n
  {
    seq(n, j requires 0 <= j < n => a[r][j] - m * a[i][j])
  }

  lemma LinZero(x: real, t: real, y: real)
    requires y == 0.0
    ensures Lin(x, t, y) == x
  {
  }

  /** Subtracting a multiple of one row from another keeps the determinant. */
  lemma DetRowOperation(a: M.Mat, n: nat, r: nat, i: nat, m: real)
    requires M.Shaped(a, n, n) && r < n && i < n && r != i
    ensures M.Shaped(a[r := RowMinus(a, n, r, i, m)], n, n)
    ensures Det(a[r := RowMinus(a, n, r, i, m)], n) == Det(a, n)
  {
    var c, b := a[r := RowMinus(a, n, r, i, m)], a[r := a[i]];
    DetLinear(c, a, b, n, r, -m);
    if i < r {
      DetEqualRows(b, n, i, r);
    } else {
      DetEqualRows(b, n, r, i);
    }
    LinZero(Det(a, n), -m, Det(b, n));
  }

  /** Rows after the first j taken from c, the rest from a. */
  function Partway(a: M.Mat, c: M.Mat, n: nat, j: nat): (b: M.Mat)
    requires M.Shaped(a, n, n) && M.Shaped(c, n, n) && j <= n
    ensures M.Shaped(b, n, n)
  {
    seq(n, r requires 0 <= r < n => if r < j then c[r] else a[r])
  }

  /** c is a with ms[r] times row i subtracted from every row r below i. */
  predicate BelowEliminated(a: M.Mat, c: M.Mat, n: nat, i: nat, ms: seq<real>)
    requires M.Shaped(a, n, n) && M.Shaped(c, n, n) && i < n && |ms| == n
  {
    (forall r :: 0 <= r <= i ==> c[r] == a[r])
    && forall r :: i < r < n ==> c[r] == RowMinus(a, n, r, i, ms[r])
  }

  /** Eliminating below row i keeps the determinant, one row at a time. */
  lemma {:induction false} DetBelowEliminated(a: M.Mat, c: M.Mat, n: nat, i: nat, ms: seq<real>, j: nat)
    requires M.Shaped(a, n, n) && M.Shaped(c, n, n) && i < n && |ms| == n && j <= n
    requires BelowEliminated(a, c, n, i, ms)
    ensures Det(Partway(a, c, n, j), n) == Det(a, n)
  {
    if j == 0 {
      assert Partway(a, c, n, 0) == a;
    } else {
      DetBelowEliminated(a, c, n, i, ms, j - 1);
      var b := Partway(a, c, n, j - 1);
      if j - 1 <= i {
        assert Partway(a, c, n, j) == b;
      } else {
        assert b[i] == a[i] && b[j - 1] == a[j - 1];
        assert RowMinus(b, n, j - 1, i, ms[j - 1]) == RowMinus(a, n, j - 1, i, ms[j - 1]);
        DetRowOperation(b, n, j - 1, i, ms[j - 1]);
        assert Partway(a, c, n, j) == b[j - 1 := RowMinus(b, n, j - 1, i, ms[j - 1])];
      }
    }
  }

  lemma DetEliminated(a: M.Mat, c: M.Mat, n: nat, i: nat, ms: seq<real>)
    requires M.Shaped(a, n, n) && M.Shaped(c, n, n) && i < n && |ms| == n
    requires BelowEliminated(a, c, n, i, ms)
    ensures Det(c, n) == Det(a, n)
  {
    DetBelowEliminated(a, c, n, i, ms, n);
    assert Partway(a, c, n, n) == c;
  }

  /* Triangular matrices. */

  predicate UpperTriangular(a: M.Mat, n: nat)
    requires M.Shaped(a, n, n)
  {
    forall r, c :: 0 <= c < r < n ==> a[r][c] == 0.0
  }

  lemma DiagStep(x: real, p: real, y: real)
    ensures x * p * y == x * (p * y)
  {
  }

  /** The diagonal product of a, past its first entry, is the diagonal
      product of the minor of row 0. */
  lemma {:induction false} DiagProductShift(a: M.Mat, n: nat, m: nat)
    requires M.Shaped(a, n, n) && m < n
    ensures LA.DiagProduct(a, n, m + 1) == a[0][0] * LA.DiagProduct(Minor(a, n, 0), n - 1, m)
  {
    if m > 0 {
      DiagProductShift(a, n, m - 1);
      DiagStep(a[0][0], LA.DiagProduct(Minor(a, n, 0), n - 1, m - 1), a[m][m]);
    }
  }

  /** The diagonal product of a is its first entry times the diagonal
      product of the minor of row 0, written as the term of row 0. */
  lemma DiagFirst(a: M.Mat, n: nat, m: nat)
    requires M.Shaped(a, n, n) && m + 1 == n
    ensures LA.DiagProduct(a, n, n) == Weighted(0, a[0][0], LA.DiagProduct(Minor(a, n, 0), m, m))
  {
    DiagProductShift(a, n, m);
  }

  /** Below the first row the leading entries, and so the terms, of an
      upper triangular matrix are zero. */
  lemma UpperTerms(a: M.Mat, n: nat)
    requires M.Shaped(a, n, n) && UpperTriangular(a, n)
    ensures forall r :: 0 < r < n ==> Term(a, n, r) == 0.0
  {
    forall r | 0 < r < n ensures Term(a, n, r) == 0.0 {
      assert a[r][0] == 0.0;
    }
  }

  /** The minor of row 0 of an upper triangular matrix is upper triangular. */
  lemma UpperMinor(a: M.Mat, n: nat)
    requires M.Shaped(a, n, n) && UpperTriangular(a, n) && 0 < n
    ensures UpperTriangular(Minor(a, n, 0), n - 1)
  {
  }

  /** An upper triangular matrix has the product of its diagonal. */
  lemma {:induction false} DetUpper(a: M.Mat, n: nat)
    requires M.Shaped(a, n, n) && UpperTriangular(a, n)
    ensures Det(a, n) == LA.DiagProduct(a, n, n)
    decreases n
  {
    if n > 0 {
      UpperTerms(a, n);
      ExpansionFirst(a, n, n);
      UpperMinor(a, n);
      DetUpper(Minor(a, n, 0), n - 1);
      TermIs(a, n, 0);
      DiagFirst(a, n, n - 1);
    }
  }

  /* The elimination as row operations. */

  /** The matrix the elimination has reached after i steps: the packed
      matrix with the multipliers stored left of column i read as the zeros
      they eliminated. */
  function Working(a: M.Mat, n: nat, i: nat): (w: M.Mat)
    requires M.Shaped(a, n, n) && i <= n
    ensures M.Shaped(w, n, n)
  {
    seq(n, r requires 0 <= r < n => seq(n, c requires 0 <= c < n => if c < i && c < r then 0.0 else a[r][c]))
  }

  /** The exchange of step i exchanges the same rows of the working matrix. */
  lemma WorkingExchange(a: M.Mat, n: nat, i: nat, j: nat)
    requires M.Shaped(a, n, n) && i < j < n
    ensures Working(LU.SwapRows(a, i, j), n, i) == LU.SwapRows(Working(a, n, i), i, j)
  {
    var x, y := Working(LU.SwapRows(a, i, j), n, i), LU.SwapRows(Working(a, n, i), i, j);
    forall r | 0 <= r < n ensures x[r] == y[r] {
      assert forall c :: 0 <= c < n ==> x[r][c] == y[r][c];
    }
  }

  /** The elimination of step i subtracts, from every row below i of the
      working matrix, its multiplier times row i. */
  lemma WorkingEliminate(a: M.Mat, n: nat, i: nat)
    requires M.Shaped(a, n, n) && i < n && a[i][i] != 0.0
    ensures BelowEliminated(Working(a, n, i), Working(LU.Eliminate(a, n, i), n, i + 1), n, i,
                            seq(n, r requires 0 <= r < n => LU.Multiplier(a, n, r, i)))
  {
    var w, e := Working(a, n, i), Working(LU.Eliminate(a, n, i), n, i + 1);
    var ms := seq(n, r requires 0 <= r < n => LU.Multiplier(a, n, r, i));
    forall r | 0 <= r <= i ensures e[r] == w[r] {
      forall c | 0 <= c < n ensures e[r][c] == w[r][c] {
        LU.EliminateAt(a, n, i, r, c);
      }
    }
    forall r | i < r < n ensures e[r] == RowMinus(w, n, r, i, ms[r]) {
      forall c | 0 <= c < n ensures e[r][c] == RowMinus(w, n, r, i, ms[r])[c] {
        WorkingEliminateAt(a, n, i, r, c);
      }
    }
  }

  /** Below row i, the eliminated working matrix holds row r minus its
      multiplier times row i: left of column i both are zero, and in
      column i the multiplier cancels the entry. */
  lemma WorkingEliminateAt(a: M.Mat, n: nat, i: nat, r: nat, c: nat)
    requires M.Shaped(a, n, n) && i < r < n && c < n && a[i][i] != 0.0
    ensures Working(LU.Eliminate(a, n, i), n, i + 1)[r][c]
         == RowMinus(Working(a, n, i), n, r, i, LU.Multiplier(a, n, r, i))[c]
  {
    LU.EliminateAt(a, n, i, r, c);
    if c == i {
      LU.PivotCancels(a, n, r, i);
    }
  }

  /** x, negated when k is odd. */
  function Signed(k: nat, x: real): real {
    if k % 2 == 0 then x else -x
  }

  /** The invariant of the decomposition for the determinant: p_count has
      not fallen below n, and the working matrix after i steps has the
      determinant d, negated once per exchange that p_count − n counts. */
  predicate DetInvariant(lu: LU.LU, n: nat, i: nat, d: real)
    requires M.Shaped(lu.a, n, n) && i <= n
  {
    n <= lu.pCount && Det(Working(lu.a, n, i), n) == Signed(lu.pCount - n, d)
  }

  /** A step that succeeds keeps the invariant: its exchange negates the
      determinant of the working matrix and adds one to p_count, and its
      elimination keeps that determinant. */
  lemma StepDet(lu: LU.LU, n: nat, next: nat, s: LU.Singular, d: real)
    requires M.Shaped(lu.a, n, n) && |lu.p| == n && 0 < next <= n && LU.Step(lu, n, next - 1, s).Ok?
    requires DetInvariant(lu, n, next - 1, d)
    ensures DetInvariant(LU.Step(lu, n, next - 1, s).value, n, next, d)
  {
    var i := next - 1;
    var imax := LU.PivotRow(lu.a, n, i);
    var e := LU.Exchanged(lu, n, i, imax);
    LU.UsablePivot(e.a[i][i], s);
    assert LU.Step(lu, n, i, s).value == e.(a := LU.Eliminate(e.a, n, i));
    ExchangeDet(lu, n, i, imax, d);
    EliminateDet(e, n, i, d);
  }

  /** The exchange of step i negates the determinant of the working matrix
      and adds one to p_count, or changes nothing when the pivot is row i. */
  lemma ExchangeDet(lu: LU.LU, n: nat, i: nat, imax: nat, d: real)
    requires M.Shaped(lu.a, n, n) && |lu.p| == n && i <= imax < n
    requires DetInvariant(lu, n, i, d)
    ensures DetInvariant(LU.Exchanged(lu, n, i, imax), n, i, d)
  {
    if imax != i {
      WorkingExchange(lu.a, n, i, imax);
      DetSwap(Working(lu.a, n, i), n, i, imax);
    }
  }

  /** The elimination of step i keeps the determinant of the working
      matrix and p_count. */
  lemma EliminateDet(e: LU.LU, n: nat, i: nat, d: real)
    requires M.Shaped(e.a, n, n) && i < n && e.a[i][i] != 0.0
    requires DetInvariant(e, n, i, d)
    ensures DetInvariant(e.(a := LU.Eliminate(e.a, n, i)), n, i + 1, d)
  {
    WorkingEliminate(e.a, n, i);
    DetEliminated(Working(e.a, n, i), Working(LU.Eliminate(e.a, n, i), n, i + 1), n, i,
                  seq(n, r requires 0 <= r < n => LU.Multiplier(e.a, n, r, i)));
  }

  /** Before the first step the working matrix is the input. */
  lemma StartDet(a0: M.Mat, n: nat, p: seq<nat>)
    requires M.Shaped(a0, n, n)
    ensures DetInvariant(LU.LU(a0, p, n), n, 0, Det(a0, n))
  {
    forall r | 0 <= r < n ensures Working(a0, n, 0)[r] == a0[r] {
      assert forall c :: 0 <= c < n ==> Working(a0, n, 0)[r][c] == a0[r][c];
    }
    assert Working(a0, n, 0) == a0;
  }

  /** After i steps from a0 the invariant holds with the determinant of a0. */
  lemma {:induction false} RunDet(a0: M.Mat, n: nat, i: nat, s: LU.Singular)
    requires M.Shaped(a0, n, n) && i <= n && LU.Run(a0, n, i, s).Ok?
    ensures DetInvariant(LU.Run(a0, n, i, s).value, n, i, Det(a0, n))
  {
    if i == 0 {
      assert LU.Run(a0, n, 0, s) == W.Ok(LU.LU(a0, LU.Iota(n), n));
      StartDet(a0, n, LU.Iota(n));
    } else {
      LU.RunStep(a0, n, i, s);
      forall k | k == i - 1 && LU.Run(a0, n, k, s).Ok?
        ensures DetInvariant(LU.Run(a0, n, k, s).value, n, k, Det(a0, n))
      {
        RunDet(a0, n, k, s);
      }
      RunStepDet(a0, n, i, s);
    }
  }

  /** Step i − 1 of a run from a0 keeps the invariant. */
  lemma RunStepDet(a0: M.Mat, n: nat, i: nat, s: LU.Singular)
    requires M.Shaped(a0, n, n) && 0 < i <= n && LU.Run(a0, n, i, s).Ok? && LU.Run(a0, n, i - 1, s).Ok?
    requires DetInvariant(LU.Run(a0, n, i - 1, s).value, n, i - 1, Det(a0, n))
    ensures DetInvariant(LU.Run(a0, n, i, s).value, n, i, Det(a0, n))
  {
    assert LU.Run(a0, n, i, s) == LU.Step(LU.Run(a0, n, i - 1, s).value, n, i - 1, s);
    StepDet(LU.Run(a0, n, i - 1, s).value, n, i, s, Det(a0, n));
  }

  /** The working matrix after the last step is the upper factor: it is
      triangular and keeps the diagonal of the packed matrix. */
  lemma {:induction false} WorkingDiag(a: M.Mat, n: nat, m: nat)
    requires M.Shaped(a, n, n) && m <= n
    ensures LA.DiagProduct(Working(a, n, n), n, m) == LA.DiagProduct(a, n, m)
  {
    if m > 0 {
      WorkingDiag(a, n, m - 1);
    }
  }

  /** Once all n steps keep the invariant, `determinant` is d. */
  lemma Finished(lu: LU.LU, n: nat, d: real)
    requires M.Shaped(lu.a, n, n) && DetInvariant(lu, n, n, d)
    ensures LA.Determinant(lu, n) == d
  {
    DetUpper(Working(lu.a, n, n), n);
    WorkingDiag(lu.a, n, n);
  }

  /** `determinant` of every decomposition that `new` returns is the
      determinant of the input matrix: the diagonal product of U is det(U),
      and p_count − n is the parity of the row permutation. */
  lemma DeterminantIsDet(a0: M.Mat, n: nat, s: LU.Singular)
    requires M.Shaped(a0, n, n) && LU.Run(a0, n, n, s).Ok?
    ensures n <= LU.Run(a0, n, n, s).value.pCount
    ensures LA.Determinant(LU.Run(a0, n, n, s).value, n) == Det(a0, n)
  {
    RunDet(a0, n, n, s);
    Finished(LU.Run(a0, n, n, s).value, n, Det(a0, n));
  }

  /** The `determinant` test: [[4, 3], [6, 3]] has determinant 4·3 − 6·3 = −6,
      and so has the decomposition of it. */
  lemma DeterminantTest(a0: M.Mat, s: LU.Singular)
    requires a0 == [[4.0, 3.0], [6.0, 3.0]]
    ensures Det(a0, 2) == -6.0
    ensures LU.Run(a0, 2, 2, s).Ok? && 2 <= LU.Run(a0, 2, 2, s).value.pCount
            && LA.Determinant(LU.Run(a0, 2, 2, s).value, 2) == -6.0
  {
    Det2(a0);
    LU.RunTest(a0, s);
    DeterminantIsDet(a0, 2, s);
  }
}
