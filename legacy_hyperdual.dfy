/** The scalar hyper-dual number of src/hyperdual.rs, an older copy of
    `HyperDual`. Its sum, difference, product and quotient are the formulas
    of HyperDual; this module holds what the older file does differently: a
    closed-form reciprocal that panics on a zero real part, `powi` through
    re^(n-2), the operators with a plain real on either side, and
    `Zero`/`One` that look at every part. */
module LegacyHyperDual {
  import W = Wrappers
  import D = Derivatives
  import Dual
  import HD = HyperDual

  function Zero(): HD.HyperDual {
    HD.HyperDual(0.0, 0.0, 0.0, 0.0)
  }

  predicate IsZero(x: HD.HyperDual) {
    x.re == 0.0 && x.eps1 == 0.0 && x.eps2 == 0.0 && x.eps1eps2 == 0.0
  }

  predicate IsOne(x: HD.HyperDual) {
    x.re == 1.0 && x.eps1 == 0.0 && x.eps2 == 0.0 && x.eps1eps2 == 0.0
  }

  /** `is_zero` and `is_one` hold of exactly zero and one. */
  lemma ZeroOne(x: HD.HyperDual)
    ensures IsZero(x) <==> x == Zero()
    ensures IsOne(x) <==> x == HD.One()
  {
  }

  /** `recip`: the panic on a zero real part is the absent result; otherwise
      (r, -eps1·r², -eps2·r², (2·eps1·eps2·r - eps1eps2)·r²) with r = 1/re. */
  function Recip(x: HD.HyperDual): (y: W.Option<HD.HyperDual>)
    ensures y.None? <==> x.re == 0.0
  {
    if x.re == 0.0 then W.None
    else
      var r := 1.0 / x.re;
      var r2 := r * r;
      W.Some(HD.HyperDual(r, -x.eps1 * r2, -x.eps2 * r2, (2.0 * x.eps1 * x.eps2 * r - x.eps1eps2) * r2))
  }

  /** The closed form is the chain rule with the table's reciprocal
      coefficients, and so the inverse under the product. */
  lemma RecipAgrees(x: HD.HyperDual)
    requires x.re != 0.0
    ensures Recip(x).Some? && Recip(x).value == HD.Recip(x)
    ensures HD.Mul(x, Recip(x).value) == HD.One()
  {
    var r := 1.0 / x.re;
    var c := D.Recip(x.re);
    assert c.f0 == r && c.f1 == -r * r && c.f2 == -r * r * r * -2.0;
    RecipSlots(x.eps1, x.eps2, x.eps1eps2, r, c.f1, c.f2);
    HD.RecipInverse(x);
  }

  lemma RecipSlots(e1: real, e2: real, e12: real, r: real, f1: real, f2: real)
    requires f1 == -r * r && f2 == -r * r * r * -2.0
    ensures -e1 * (r * r) == HD.ChainFirst(e1, f1)
    ensures (2.0 * e1 * e2 * r - e12) * (r * r) == HD.ChainMixed(e1, e2, e12, f1, f2)
  {
  }

  /** The reciprocal doc example: 1/x at (1.2, 1, 1, 0). */
  lemma RecipDoc()
    ensures Recip(HD.HyperDual(1.2, 1.0, 1.0, 0.0))
         == W.Some(HD.HyperDual(5.0 / 6.0, -25.0 / 36.0, -25.0 / 36.0, 125.0 / 108.0))
  {
  }

  /** A plain real on the right: `+` and `-` move only the real part, `*`
      and `/` scale every part. */
  function AddReal(x: HD.HyperDual, r: real): HD.HyperDual {
    x.(re := x.re + r)
  }

  function SubReal(x: HD.HyperDual, r: real): HD.HyperDual {
    x.(re := x.re - r)
  }

  function DivReal(x: HD.HyperDual, r: real): HD.HyperDual
    requires r != 0.0
  {
    HD.Scale(x, 1.0 / r)
  }

  /** A plain real on the left: r - x negates the derivative parts and
      r / x multiplies r by the reciprocal, absent when that panics. */
  function RealAdd(r: real, x: HD.HyperDual): HD.HyperDual {
    HD.HyperDual(r + x.re, x.eps1, x.eps2, x.eps1eps2)
  }

  function RealSub(r: real, x: HD.HyperDual): HD.HyperDual {
    HD.HyperDual(r - x.re, 0.0 - x.eps1, 0.0 - x.eps2, 0.0 - x.eps1eps2)
  }

  function RealMul(r: real, x: HD.HyperDual): HD.HyperDual {
    HD.HyperDual(r * x.re, r * x.eps1, r * x.eps2, r * x.eps1eps2)
  }

  function RealDiv(r: real, x: HD.HyperDual): (q: W.Option<HD.HyperDual>)
    ensures q.None? <==> x.re == 0.0
  {
    match Recip(x)
    case None => W.None
    case Some(y) => W.Some(RealMul(r, y))
  }

  /** Every mixed operation is the hyper-dual operation with the real
      embedded as a constant. */
  lemma MixedOperands(x: HD.HyperDual, r: real)
    ensures AddReal(x, r) == HD.Add(x, HD.FromRe(r)) && SubReal(x, r) == HD.Sub(x, HD.FromRe(r))
    ensures RealAdd(r, x) == HD.Add(HD.FromRe(r), x) && RealSub(r, x) == HD.Sub(HD.FromRe(r), x)
    ensures RealMul(r, x) == HD.Mul(HD.FromRe(r), x)
  {
  }

  lemma MixedQuotients(x: HD.HyperDual, r: real)
    ensures r != 0.0 ==> DivReal(x, r) == HD.Div(x, HD.FromRe(r))
    ensures x.re != 0.0 ==> RealDiv(r, x).Some? && RealDiv(r, x).value == HD.Div(HD.FromRe(r), x)
  {
    if r != 0.0 {
      DivRealAgrees(x, r);
    }
    if x.re != 0.0 {
      RecipAgrees(x);
      MixedOperands(Recip(x).value, r);
      HD.DivIsMulRecip(HD.FromRe(r), x);
    }
  }

  lemma DivRealAgrees(x: HD.HyperDual, r: real)
    requires r != 0.0
    ensures DivReal(x, r) == HD.Div(x, HD.FromRe(r))
  {
    var y := HD.FromRe(r);
    assert y.re == r && y.eps1 == 0.0 && y.eps2 == 0.0 && y.eps1eps2 == 0.0;
    DivRealSlots(x.re, x.eps1, x.eps2, x.eps1eps2, r);
    assert HD.Div(x, y) == HD.HyperDual(Dual.Ratio(x.re, r), Dual.QuotientRule(x.re, x.eps1, r, 0.0),
      Dual.QuotientRule(x.re, x.eps2, r, 0.0), HD.DivMixed(x.re, x.eps1, x.eps2, x.eps1eps2, r, 0.0, 0.0, 0.0));
  }

  lemma DivRealSlots(a0: real, a1: real, a2: real, a12: real, r: real)
    requires r != 0.0
    ensures a0 * (1.0 / r) == Dual.Ratio(a0, r)
    ensures a1 * (1.0 / r) == Dual.QuotientRule(a0, a1, r, 0.0)
    ensures a2 * (1.0 / r) == Dual.QuotientRule(a0, a2, r, 0.0)
    ensures a12 * (1.0 / r) == HD.DivMixed(a0, a1, a2, a12, r, 0.0, 0.0, 0.0)
  {
    var inv := 1.0 / r;
    assert r * inv == 1.0;
    assert a1 * r * inv * inv == a1 * inv;
    assert a2 * r * inv * inv == a2 * inv;
  }

  /** `powi(n)` as written: pow = re^(n-2), value pow·re², first parts
      eps·n·pow·re, mixed part (eps1eps2·re + eps1·eps2·(n-1))·n·pow.
      re^(n-2) needs a non-zero real part unless n >= 2. */
  function PowI(x: HD.HyperDual, n: int): HD.HyperDual
    requires n >= 2 || x.re != 0.0
  {
    PowFrom(x, n as real, D.PowInt(x.re, n - 2))
  }

  /** The slots of `powi` from e = n and pow = re^(n-2). */
  function PowFrom(x: HD.HyperDual, e: real, pow: real): HD.HyperDual {
    var dx := e * pow * x.re;
    HD.HyperDual(pow * x.re * x.re, x.eps1 * dx, x.eps2 * dx,
                 (x.eps1eps2 * x.re + x.eps1 * x.eps2 * (e - 1.0)) * e * pow)
  }

  /** It is the chain rule with y ↦ y^n and its first two derivatives ... */
  lemma PowIIsChainRule(x: HD.HyperDual, n: int)
    requires n >= 2 || x.re != 0.0
    ensures PowI(x, n) == HD.ChainRule(x, D.PowInt(x.re, n), (n as real) * D.PowInt(x.re, n - 1),
                                       (n as real) * ((n as real) - 1.0) * D.PowInt(x.re, n - 2))
  {
    var a, e := x.re, n as real;
    var p2, p1, p0 := D.PowInt(a, n - 2), D.PowInt(a, n - 1), D.PowInt(a, n);
    D.PowIntStep(a, n - 2, n - 1);
    D.PowIntStep(a, n - 1, n);
    PowForm(x, e, p2, p1, p0);
  }

  lemma PowForm(x: HD.HyperDual, e: real, p2: real, p1: real, p0: real)
    requires p2 * x.re == p1 && p1 * x.re == p0
    ensures PowFrom(x, e, p2) == HD.ChainRule(x, p0, e * p1, e * (e - 1.0) * p2)
  {
    PowSlots(p2, p1, p0, x.re, e, x.eps1, x.eps2, x.eps1eps2);
  }

  lemma PowSlots(p2: real, p1: real, p0: real, a: real, e: real, e1: real, e2: real, e12: real)
    requires p2 * a == p1 && p1 * a == p0
    ensures p2 * a * a == p0
    ensures e1 * (e * p2 * a) == HD.ChainFirst(e1, e * p1)
    ensures e2 * (e * p2 * a) == HD.ChainFirst(e2, e * p1)
    ensures (e12 * a + e1 * e2 * (e - 1.0)) * e * p2 == HD.ChainMixed(e1, e2, e12, e * p1, e * (e - 1.0) * p2)
  {
  }

  /** ... and agrees with HyperDual's `powi` wherever both are defined. */
  lemma PowIAgrees(x: HD.HyperDual, n: int)
    requires n >= 2 || x.re != 0.0
    ensures PowI(x, n) == HD.PowI(x, n)
  {
    if n == 0 {
      PowIIsChainRule(x, n);
      PowIZero(x);
    } else if n == 1 {
      PowIIsChainRule(x, n);
      PowIOne(x);
    } else if n == 2 {
      PowIIsChainRule(x, n);
      PowISquare(x);
    } else {
      PowIAgreesChain(x, n);
    }
  }

  lemma PowIAgreesChain(x: HD.HyperDual, n: int)
    requires x.re != 0.0 || n >= 3
    requires n != 0 && n != 1 && n != 2
    ensures PowI(x, n) == HD.PowI(x, n)
  {
    PowIChainCoeffs(x, n);
    PowIIsChainRule(x, n);
  }

  /** HyperDual's `powi` beyond the square is the chain rule with x^n,
      n·x^(n-1) and n(n-1)·x^(n-2). */
  lemma PowIChainCoeffs(x: HD.HyperDual, n: int)
    requires x.re != 0.0 || n >= 3
    requires n != 0 && n != 1 && n != 2
    ensures HD.PowI(x, n) == HD.ChainRule(x, D.PowInt(x.re, n), (n as real) * D.PowInt(x.re, n - 1),
                                          (n as real) * ((n as real) - 1.0) * D.PowInt(x.re, n - 2))
  {
    var f0, f1, f2 := D.PowInt(x.re, n), (n as real) * D.PowInt(x.re, n - 1),
                      (n as real) * ((n as real) - 1.0) * D.PowInt(x.re, n - 2);
    var c := D.PowIChain(x.re, n, f0, f1, f2);
    PowIIsApply(x, n);
    ApplyIsChainRule(x, c, f0, f1, f2);
  }

  lemma PowIIsApply(x: HD.HyperDual, n: int)
    requires x.re != 0.0 || n >= 3
    requires n != 0 && n != 1 && n != 2
    ensures D.PowI(x.re, n).UseChain? && HD.PowI(x, n) == HD.Apply(x, D.PowI(x.re, n).c)
  {
  }

  lemma ApplyIsChainRule(x: HD.HyperDual, c: D.Coeffs, f0: real, f1: real, f2: real)
    requires c.f0 == f0 && c.f1 == f1 && c.f2 == f2
    ensures HD.Apply(x, c) == HD.ChainRule(x, f0, f1, f2)
  {
  }

  lemma PowIZero(x: HD.HyperDual)
    requires x.re != 0.0
    ensures HD.ChainRule(x, D.PowInt(x.re, 0), 0.0 * D.PowInt(x.re, -1), 0.0 * (0.0 - 1.0) * D.PowInt(x.re, -2))
         == HD.One()
  {
    assert D.PowInt(x.re, 0) == 1.0;
  }

  lemma PowIOne(x: HD.HyperDual)
    requires x.re != 0.0
    ensures HD.ChainRule(x, D.PowInt(x.re, 1), 1.0 * D.PowInt(x.re, 0), 1.0 * (1.0 - 1.0) * D.PowInt(x.re, -1 + 0))
         == x
  {
    assert D.PowInt(x.re, 0) == 1.0;
    D.PowIntStep(x.re, 0, 1);
    HD.ChainRuleIdentity(x, 0.0);
  }

  lemma PowISquare(x: HD.HyperDual)
    ensures HD.ChainRule(x, D.PowInt(x.re, 2), 2.0 * D.PowInt(x.re, 1), 2.0 * (2.0 - 1.0) * D.PowInt(x.re, 0))
         == HD.Mul(x, x)
  {
    var a := x.re;
    assert D.PowInt(a, 0) == 1.0;
    D.PowIntStep(a, 0, 1);
    D.PowIntStep(a, 1, 2);
    D.PowISquare(a);
    HD.ChainRuleIdentity(x, 0.0);
    HD.ChainRuleMul(x, D.Identity(a), D.Identity(a));
  }

  /** powi(4) at (1.2, 1, 1, 0) is (2.0736, 6.912, 6.912, 17.28). */
  lemma PowIDoc()
    ensures PowI(HD.HyperDual(1.2, 1.0, 1.0, 0.0), 4) == HD.HyperDual(2.0736, 6.912, 6.912, 17.28)
  {
    assert D.PowInt(1.2, 2) == 1.44;
  }
}
