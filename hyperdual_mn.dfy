/** The `HyperDualMN` of src/hyperdual_mn.rs: a real part, a row eps1 of M
    first derivatives along x, a row eps2 of N first derivatives along y and
    the M×N matrix eps1eps2 of mixed second derivatives, all of fixed size.
    Entry (i, j) of the number is the scalar hyper-dual number (re,
    eps1[i], eps2[j], eps1eps2[i][j]); the rules below are proved to be the
    hyper-dual rules entry by entry. */
module HyperDualMN {
  import M = Matrix
  import D = Derivatives
  import Dual
  import HD = HyperDual
  import E = Entries

  datatype HyperDualMN = HyperDualMN(re: real, eps1: M.Mat, eps2: M.Mat, eps1eps2: M.Mat)

  predicate Valid(x: HyperDualMN, m: nat, n: nat) {
    M.Shaped(x.eps1, 1, m) && M.Shaped(x.eps2, 1, n) && M.Shaped(x.eps1eps2, m, n)
  }

  /** `new`: the number from its four parts. */
  function New(re: real, eps1: M.Mat, eps2: M.Mat, eps1eps2: M.Mat): (x: HyperDualMN)
    ensures x.re == re && x.eps1 == eps1 && x.eps2 == eps2 && x.eps1eps2 == eps1eps2
  {
    HyperDualMN(re, eps1, eps2, eps1eps2)
  }

  /** `from_re`: every derivative part is zero. */
  function FromRe(re: real, m: nat, n: nat): (x: HyperDualMN)
    ensures Valid(x, m, n) && x.re == re
    ensures forall i, j :: 0 <= i < m && 0 <= j < n ==> Entry(x, m, n, i, j) == HD.HyperDual(re, 0.0, 0.0, 0.0)
  {
    New(re, M.Zeros(1, m), M.Zeros(1, n), M.Zeros(m, n))
  }

  /** Entry (i, j): the hyper-dual number with eps1 along x_i and eps2 along y_j. */
  function Entry(x: HyperDualMN, m: nat, n: nat, i: nat, j: nat): (h: HD.HyperDual)
    requires Valid(x, m, n) && i < m && j < n
  {
    HD.HyperDual(x.re, x.eps1[0][i], x.eps2[0][j], x.eps1eps2[i][j])
  }

  /** eps1[i] = 1 on an owned copy, the other parts kept. */
  function Seed1(x: HyperDualMN, m: nat, n: nat, i: nat): (y: HyperDualMN)
    requires Valid(x, m, n) && i < m
    ensures Valid(y, m, n) && y.re == x.re && y.eps2 == x.eps2 && y.eps1eps2 == x.eps1eps2
    ensures y.eps1[0][i] == 1.0 && forall k :: 0 <= k < m && k != i ==> y.eps1[0][k] == x.eps1[0][k]
  {
    x.(eps1 := [x.eps1[0][i := 1.0]])
  }

  /** eps2[j] = 1 on an owned copy, the other parts kept. */
  function Seed2(x: HyperDualMN, m: nat, n: nat, j: nat): (y: HyperDualMN)
    requires Valid(x, m, n) && j < n
    ensures Valid(y, m, n) && y.re == x.re && y.eps1 == x.eps1 && y.eps1eps2 == x.eps1eps2
    ensures y.eps2[0][j] == 1.0 && forall k :: 0 <= k < n && k != j ==> y.eps2[0][k] == x.eps2[0][k]
  {
    x.(eps2 := [x.eps2[0][j := 1.0]])
  }

  /** `derive1` of a number with M = 1 and `derive2` of one with N = 1:
      the single first derivative is set to one. */
  function Derive1(x: HyperDualMN, n: nat): (y: HyperDualMN)
    requires Valid(x, 1, n)
    ensures Valid(y, 1, n) && y.eps1 == [[1.0]]
    ensures y.re == x.re && y.eps2 == x.eps2 && y.eps1eps2 == x.eps1eps2
  {
    var y := Seed1(x, 1, n, 0);
    assert y.eps1[0] == [1.0];
    y
  }

  function Derive2(x: HyperDualMN, m: nat): (y: HyperDualMN)
    requires Valid(x, m, 1)
    ensures Valid(y, m, 1) && y.eps2 == [[1.0]]
    ensures y.re == x.re && y.eps1 == x.eps1 && y.eps1eps2 == x.eps1eps2
  {
    var y := Seed2(x, m, 1, 0);
    assert y.eps2[0] == [1.0];
    y
  }

  /** The vector `derive1` of `StaticVec<HyperDualMN, M>`: entry i gets
      eps1[i] = 1. */
  method DeriveVec1(xs: array<HyperDualMN>, n: nat)
    requires forall i :: 0 <= i < xs.Length ==> Valid(xs[i], xs.Length, n)
    modifies xs
    ensures forall i :: 0 <= i < xs.Length ==> Valid(old(xs[i]), xs.Length, n) && xs[i] == Seed1(old(xs[i]), xs.Length, n, i)
  {
    for i := 0 to xs.Length
      invariant forall k :: 0 <= k < i ==> xs[k] == Seed1(old(xs[k]), xs.Length, n, k)
      invariant forall k :: i <= k < xs.Length ==> xs[k] == old(xs[k])
    {
      xs[i] := xs[i].(eps1 := [xs[i].eps1[0][i := 1.0]]);
    }
  }

  /** The vector `derive2` of `StaticVec<HyperDualMN, N>`: entry j gets
      eps2[j] = 1. */
  method DeriveVec2(xs: array<HyperDualMN>, m: nat)
    requires forall j :: 0 <= j < xs.Length ==> Valid(xs[j], m, xs.Length)
    modifies xs
    ensures forall j :: 0 <= j < xs.Length ==> Valid(old(xs[j]), m, xs.Length) && xs[j] == Seed2(old(xs[j]), m, xs.Length, j)
  {
    for j := 0 to xs.Length
      invariant forall k :: 0 <= k < j ==> xs[k] == Seed2(old(xs[k]), m, xs.Length, k)
      invariant forall k :: j <= k < xs.Length ==> xs[k] == old(xs[k])
    {
      xs[j] := xs[j].(eps2 := [xs[j].eps2[0][j := 1.0]]);
    }
  }

  /** Seeding constants: x_k seeded by `derive1` varies along direction k of
      eps1 only, and y_k seeded by `derive2` along direction k of eps2 only. */
  lemma SeededEntries(c: real, m: nat, n: nat, k: nat, i: nat, j: nat)
    requires i < m && j < n
    ensures k < m ==> Entry(Seed1(FromRe(c, m, n), m, n, k), m, n, i, j) == HD.HyperDual(c, if i == k then 1.0 else 0.0, 0.0, 0.0)
    ensures k < n ==> Entry(Seed2(FromRe(c, m, n), m, n, k), m, n, i, j) == HD.HyperDual(c, 0.0, if j == k then 1.0 else 0.0, 0.0)
  {
  }

  /** The chain rule: (f0, eps1·f1, eps2·f1, eps1eps2·f1 + eps1ᵀ·eps2·f2). */
  function ChainRule(x: HyperDualMN, m: nat, n: nat, f0: real, f1: real, f2: real): (y: HyperDualMN)
    requires Valid(x, m, n)
    ensures Valid(y, m, n)
  {
    New(f0, M.Scale(x.eps1, f1, 1, m), M.Scale(x.eps2, f1, 1, n),
        M.Add(M.Scale(x.eps1eps2, f1, m, n), M.Scale(M.TrMul(x.eps1, x.eps2, 1, m, n), f2, m, n), m, n))
  }

  /** eps1eps2'·a + eps1ᵀ·eps2' + eps1'ᵀ·eps2: the terms the product and the
      quotient share. */
  function Cross(x: HyperDualMN, y: HyperDualMN, m: nat, n: nat): (c: M.Mat)
    requires Valid(x, m, n) && Valid(y, m, n)
    ensures M.Shaped(c, m, n)
  {
    M.Add(M.Add(M.Scale(y.eps1eps2, x.re, m, n), M.TrMul(x.eps1, y.eps2, 1, m, n), m, n),
          M.TrMul(y.eps1, x.eps2, 1, m, n), m, n)
  }

  /** The product rule. */
  function Mul(x: HyperDualMN, y: HyperDualMN, m: nat, n: nat): (z: HyperDualMN)
    requires Valid(x, m, n) && Valid(y, m, n)
    ensures Valid(z, m, n)
  {
    New(Dual.Times(x.re, y.re),
        M.Add(M.Scale(y.eps1, x.re, 1, m), M.Scale(x.eps1, y.re, 1, m), 1, m),
        M.Add(M.Scale(y.eps2, x.re, 1, n), M.Scale(x.eps2, y.re, 1, n), 1, n),
        M.Add(Cross(x, y, m, n), M.Scale(x.eps1eps2, y.re, m, n), m, n))
  }

  /** The quotient rule with inv = 1/b and inv2 = inv²; a zero divisor gives
      infinities in floating point and is excluded. */
  function Div(x: HyperDualMN, y: HyperDualMN, m: nat, n: nat): (z: HyperDualMN)
    requires Valid(x, m, n) && Valid(y, m, n) && y.re != 0.0
    ensures Valid(z, m, n)
  {
    var inv := E.Inverse(y.re);
    var inv2 := E.Square(inv);
    New(Dual.Ratio(x.re, y.re),
        M.Scale(M.Sub(M.Scale(x.eps1, y.re, 1, m), M.Scale(y.eps1, x.re, 1, m), 1, m), inv2, 1, m),
        M.Scale(M.Sub(M.Scale(x.eps2, y.re, 1, n), M.Scale(y.eps2, x.re, 1, n), 1, n), inv2, 1, n),
        M.Add(M.Sub(M.Scale(x.eps1eps2, inv, m, n), M.Scale(Cross(x, y, m, n), inv2, m, n), m, n),
              M.Scale(M.TrMul(y.eps1, y.eps2, 1, m, n), E.OuterWeight(x.re, inv), m, n), m, n))
  }

  /** `powi` through the shared coefficient table and its special cases. */
  function PowI(x: HyperDualMN, m: nat, n: nat, k: int): (y: HyperDualMN)
    requires Valid(x, m, n) && (k >= 0 || x.re != 0.0)
    ensures Valid(y, m, n)
  {
    match D.PowI(x.re, k)
    case UseOne => FromRe(1.0, m, n)
    case UseSelf => x
    case UseSquare => Mul(x, x, m, n)
    case UseChain(c) => ChainRule(x, m, n, c.f0, c.f1, c.f2)
  }

  /* Entry (i, j) of the matrix expressions of the rules, in the scalar
     hyper-dual formulas. */

  lemma ProductEntry(a: M.Mat, a0: real, b: M.Mat, b0: real, r: nat, c: nat, i: nat, j: nat)
    requires M.Shaped(a, r, c) && M.Shaped(b, r, c) && i < r && j < c
    ensures M.Add(M.Scale(b, a0, r, c), M.Scale(a, b0, r, c), r, c)[i][j] == Dual.ProductRule(a0, a[i][j], b0, b[i][j])
  {
  }

  lemma QuotientEntry(a: M.Mat, a0: real, b: M.Mat, b0: real, r: nat, c: nat, i: nat, j: nat)
    requires M.Shaped(a, r, c) && M.Shaped(b, r, c) && b0 != 0.0 && i < r && j < c
    ensures M.Scale(M.Sub(M.Scale(a, b0, r, c), M.Scale(b, a0, r, c), r, c), E.Square(E.Inverse(b0)), r, c)[i][j]
         == Dual.QuotientRule(a0, a[i][j], b0, b[i][j])
  {
    var s := M.Sub(M.Scale(a, b0, r, c), M.Scale(b, a0, r, c), r, c);
    assert s[i][j] == a[i][j] * b0 - b[i][j] * a0;
    E.QuotientRuleGrouping(a0, a[i][j], b0, b[i][j]);
  }

  /** An entry of eps1ᵀ·eps2 is the product of the two rows' entries. */
  lemma OuterEntry(a: M.Mat, b: M.Mat, m: nat, n: nat, i: nat, j: nat)
    requires M.Shaped(a, 1, m) && M.Shaped(b, 1, n) && i < m && j < n
    ensures M.TrMul(a, b, 1, m, n)[i][j] == E.Outer(a[0][i], b[0][j])
  {
    M.TrMulRows(a, b, m, n, i, j);
  }

  lemma ChainMixedEntry(h: M.Mat, o: M.Mat, f1: real, f2: real, e1: real, e2: real, r: nat, c: nat, i: nat, j: nat)
    requires M.Shaped(h, r, c) && M.Shaped(o, r, c) && i < r && j < c
    requires o[i][j] == E.Outer(e1, e2)
    ensures M.Add(M.Scale(h, f1, r, c), M.Scale(o, f2, r, c), r, c)[i][j] == HD.ChainMixed(e1, e2, h[i][j], f1, f2)
  {
  }

  lemma CrossEntry(x: HyperDualMN, y: HyperDualMN, m: nat, n: nat, i: nat, j: nat)
    requires Valid(x, m, n) && Valid(y, m, n) && i < m && j < n
    ensures Cross(x, y, m, n)[i][j]
         == E.CrossPart(y.eps1eps2[i][j], x.re, x.eps1[0][i], x.eps2[0][j], y.eps1[0][i], y.eps2[0][j])
  {
    OuterEntry(x.eps1, y.eps2, m, n, i, j);
    OuterEntry(y.eps1, x.eps2, m, n, i, j);
    var s := M.Add(M.Scale(y.eps1eps2, x.re, m, n), M.TrMul(x.eps1, y.eps2, 1, m, n), m, n);
    assert s[i][j] == y.eps1eps2[i][j] * x.re + E.Outer(x.eps1[0][i], y.eps2[0][j]);
  }

  /** Every entry of the chain rule, product and quotient is the hyper-dual
      chain rule, product and quotient of the entries. */
  lemma EntryChainRule(x: HyperDualMN, m: nat, n: nat, f0: real, f1: real, f2: real, i: nat, j: nat)
    requires Valid(x, m, n) && i < m && j < n
    ensures Entry(ChainRule(x, m, n, f0, f1, f2), m, n, i, j) == HD.ChainRule(Entry(x, m, n, i, j), f0, f1, f2)
  {
    var e, q := Entry(ChainRule(x, m, n, f0, f1, f2), m, n, i, j), HD.ChainRule(Entry(x, m, n, i, j), f0, f1, f2);
    assert e.eps1eps2 == q.eps1eps2 by {
      OuterEntry(x.eps1, x.eps2, m, n, i, j);
      ChainMixedEntry(x.eps1eps2, M.TrMul(x.eps1, x.eps2, 1, m, n), f1, f2, x.eps1[0][i], x.eps2[0][j], m, n, i, j);
    }
  }

  lemma EntryMul(x: HyperDualMN, y: HyperDualMN, m: nat, n: nat, i: nat, j: nat)
    requires Valid(x, m, n) && Valid(y, m, n) && i < m && j < n
    ensures Entry(Mul(x, y, m, n), m, n, i, j) == HD.Mul(Entry(x, m, n, i, j), Entry(y, m, n, i, j))
  {
    var e, q := Entry(Mul(x, y, m, n), m, n, i, j), HD.Mul(Entry(x, m, n, i, j), Entry(y, m, n, i, j));
    assert e.eps1 == q.eps1 by {
      ProductEntry(x.eps1, x.re, y.eps1, y.re, 1, m, 0, i);
    }
    assert e.eps2 == q.eps2 by {
      ProductEntry(x.eps2, x.re, y.eps2, y.re, 1, n, 0, j);
    }
    assert e.eps1eps2 == q.eps1eps2 by {
      CrossEntry(x, y, m, n, i, j);
    }
  }

  lemma EntryDiv(x: HyperDualMN, y: HyperDualMN, m: nat, n: nat, i: nat, j: nat)
    requires Valid(x, m, n) && Valid(y, m, n) && y.re != 0.0 && i < m && j < n
    ensures Entry(Div(x, y, m, n), m, n, i, j) == HD.Div(Entry(x, m, n, i, j), Entry(y, m, n, i, j))
  {
    var e, q := Entry(Div(x, y, m, n), m, n, i, j), HD.Div(Entry(x, m, n, i, j), Entry(y, m, n, i, j));
    assert e.eps1 == q.eps1 by {
      QuotientEntry(x.eps1, x.re, y.eps1, y.re, 1, m, 0, i);
    }
    assert e.eps2 == q.eps2 by {
      QuotientEntry(x.eps2, x.re, y.eps2, y.re, 1, n, 0, j);
    }
    assert e.eps1eps2 == q.eps1eps2 by {
      DivMixedEntry(x, y, m, n, i, j);
    }
  }

  lemma CombinationEntry(h: M.Mat, k: real, g: M.Mat, l: real, o: M.Mat, w: real, r: nat, c: nat, i: nat, j: nat)
    requires M.Shaped(h, r, c) && M.Shaped(g, r, c) && M.Shaped(o, r, c) && i < r && j < c
    ensures M.Add(M.Sub(M.Scale(h, k, r, c), M.Scale(g, l, r, c), r, c), M.Scale(o, w, r, c), r, c)[i][j]
         == E.Combination(h[i][j], k, g[i][j], l, o[i][j], w)
  {
    var d := M.Sub(M.Scale(h, k, r, c), M.Scale(g, l, r, c), r, c);
    assert d[i][j] == h[i][j] * k - g[i][j] * l;
  }

  lemma DivMixedEntry(x: HyperDualMN, y: HyperDualMN, m: nat, n: nat, i: nat, j: nat)
    requires Valid(x, m, n) && Valid(y, m, n) && y.re != 0.0 && i < m && j < n
    ensures Div(x, y, m, n).eps1eps2[i][j]
         == HD.DivMixed(x.re, x.eps1[0][i], x.eps2[0][j], x.eps1eps2[i][j], y.re, y.eps1[0][i], y.eps2[0][j], y.eps1eps2[i][j])
  {
    var inv := E.Inverse(y.re);
    var inv2 := E.Square(inv);
    var w := E.OuterWeight(x.re, inv);
    var h, g, o := x.eps1eps2, Cross(x, y, m, n), M.TrMul(y.eps1, y.eps2, 1, m, n);
    CrossEntry(x, y, m, n, i, j);
    OuterEntry(y.eps1, y.eps2, m, n, i, j);
    CombinationEntry(h, inv, g, inv2, o, w, m, n, i, j);
    E.DivMixedTerms(x.re, x.eps1[0][i], x.eps2[0][j], h[i][j], y.re, y.eps1[0][i], y.eps2[0][j], y.eps1eps2[i][j],
                    g[i][j], o[i][j]);
  }

  /** Entrywise, division undoes multiplication. */
  lemma MulDivInverse(x: HyperDualMN, y: HyperDualMN, m: nat, n: nat, i: nat, j: nat)
    requires Valid(x, m, n) && Valid(y, m, n) && y.re != 0.0 && i < m && j < n
    ensures Entry(Mul(Div(x, y, m, n), y, m, n), m, n, i, j) == Entry(x, m, n, i, j)
  {
    EntryDiv(x, y, m, n, i, j);
    EntryMul(Div(x, y, m, n), y, m, n, i, j);
    HD.MulDivInverse(Entry(x, m, n, i, j), Entry(y, m, n, i, j));
  }

  /** `powi` entry by entry is the hyper-dual `powi`. */
  lemma EntryPowI(x: HyperDualMN, m: nat, n: nat, k: int, i: nat, j: nat)
    requires Valid(x, m, n) && (k >= 0 || x.re != 0.0) && i < m && j < n
    ensures Entry(PowI(x, m, n, k), m, n, i, j) == HD.PowI(Entry(x, m, n, i, j), k)
  {
    match D.PowI(x.re, k)
    case UseOne =>
    case UseSelf =>
    case UseSquare =>
      EntryMul(x, x, m, n, i, j);
    case UseChain(c) =>
      EntryChainRule(x, m, n, c.f0, c.f1, c.f2, i, j);
  }
}
