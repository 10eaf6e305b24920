/** The scalar dual number of src/dual.rs, an older copy of `Dual`. Its
    product and quotient are the formulas of Dual; this module holds what
    the older file does differently: a reciprocal that panics on a zero real
    part, `powi` through re^(n-1), the operators with a plain real on either
    side, and `Zero`/`One` that look at both parts. */
module LegacyDual {
  import W = Wrappers
  import D = Derivatives
  import Dual

  /** `From<T>`: the derivative part is zero. */
  function From(re: real): (x: Dual.Dual)
    ensures x == Dual.FromRe(re)
  {
    Dual.Dual(re, 0.0)
  }

  function Zero(): Dual.Dual {
    Dual.Dual(0.0, 0.0)
  }

  function One(): Dual.Dual {
    Dual.Dual(1.0, 0.0)
  }

  /** `is_zero` and `is_one` look at both parts. */
  predicate IsZero(x: Dual.Dual) {
    x.re == 0.0 && x.eps == 0.0
  }

  predicate IsOne(x: Dual.Dual) {
    x.re == 1.0 && x.eps == 0.0
  }

  lemma ZeroOne(x: Dual.Dual)
    ensures IsZero(x) <==> x == Zero()
    ensures IsOne(x) <==> x == One()
    ensures One() == Dual.One()
  {
  }

  /** `recip`: the panic on a zero real part is the absent result;
      otherwise (1/re, -eps/re²). */
  function Recip(x: Dual.Dual): (r: W.Option<Dual.Dual>)
    ensures r.None? <==> x.re == 0.0
  {
    if x.re == 0.0 then W.None
    else
      var rec := 1.0 / x.re;
      W.Some(Dual.Dual(rec, -x.eps * rec * rec))
  }

  /** The closed form is the chain rule with the table's reciprocal
      coefficients, so it is the inverse under the product. */
  lemma RecipAgrees(x: Dual.Dual)
    requires x.re != 0.0
    ensures Recip(x).Some? && Recip(x).value == Dual.Recip(x)
    ensures Dual.Mul(x, Recip(x).value) == Dual.One()
  {
    var rec := 1.0 / x.re;
    var c := D.Recip(x.re);
    assert c.f0 == rec && c.f1 == -rec * rec;
    assert -x.eps * rec * rec == x.eps * c.f1;
    assert Dual.Recip(x) == Dual.Dual(c.f0, x.eps * c.f1);
    Dual.RecipInverse(x);
  }

  function Add(x: Dual.Dual, y: Dual.Dual): Dual.Dual {
    Dual.Dual(x.re + y.re, x.eps + y.eps)
  }

  function Sub(x: Dual.Dual, y: Dual.Dual): Dual.Dual {
    Dual.Dual(x.re - y.re, x.eps - y.eps)
  }

  /** Subtraction undoes addition, and the product distributes over the sum. */
  lemma AddSub(x: Dual.Dual, y: Dual.Dual, z: Dual.Dual)
    ensures Sub(Add(x, y), y) == x
    ensures Add(Sub(x, y), y) == x
    ensures Dual.Mul(x, Add(y, z)) == Add(Dual.Mul(x, y), Dual.Mul(x, z))
  {
    DistributeSlots(x.re, x.eps, y.re, y.eps, z.re, z.eps);
  }

  lemma DistributeSlots(a: real, da: real, b: real, db: real, c: real, dc: real)
    ensures Dual.Times(a, b + c) == Dual.Times(a, b) + Dual.Times(a, c)
    ensures Dual.ProductRule(a, da, b + c, db + dc) == Dual.ProductRule(a, da, b, db) + Dual.ProductRule(a, da, c, dc)
  {
  }

  /** A plain real on the right: `+` and `-` move only the real part, `*`
      and `/` scale both parts. */
  function AddReal(x: Dual.Dual, r: real): Dual.Dual {
    Dual.Dual(x.re + r, x.eps)
  }

  function SubReal(x: Dual.Dual, r: real): Dual.Dual {
    Dual.Dual(x.re - r, x.eps)
  }

  function MulReal(x: Dual.Dual, r: real): Dual.Dual {
    Dual.Dual(x.re * r, x.eps * r)
  }

  function DivReal(x: Dual.Dual, r: real): Dual.Dual
    requires r != 0.0
  {
    var inv := 1.0 / r;
    Dual.Dual(x.re * inv, x.eps * inv)
  }

  /** A plain real on the left: r - x negates the derivative part, and r / x
      multiplies r by the reciprocal, absent when that panics. */
  function RealAdd(r: real, x: Dual.Dual): Dual.Dual {
    Dual.Dual(r + x.re, x.eps)
  }

  function RealSub(r: real, x: Dual.Dual): Dual.Dual {
    Dual.Dual(r - x.re, 0.0 - x.eps)
  }

  function RealMul(r: real, x: Dual.Dual): Dual.Dual {
    Dual.Dual(r * x.re, r * x.eps)
  }

  function RealDiv(r: real, x: Dual.Dual): (q: W.Option<Dual.Dual>)
    ensures q.None? <==> x.re == 0.0
  {
    match Recip(x)
    case None => W.None
    case Some(rec) => W.Some(RealMul(r, rec))
  }

  /** Every mixed operation is the dual-number operation with the real
      embedded as a constant. */
  lemma MixedOperands(x: Dual.Dual, r: real)
    ensures AddReal(x, r) == Add(x, From(r)) && SubReal(x, r) == Sub(x, From(r))
    ensures RealAdd(r, x) == Add(From(r), x) && RealSub(r, x) == Sub(From(r), x)
    ensures MulReal(x, r) == Dual.Mul(x, From(r)) && RealMul(r, x) == Dual.Mul(From(r), x)
    ensures r != 0.0 ==> DivReal(x, r) == Dual.Div(x, From(r))
    ensures x.re != 0.0 ==> RealDiv(r, x) == W.Some(Dual.Div(From(r), x))
  {
    if x.re != 0.0 {
      RecipAgrees(x);
      Dual.DivIsMulRecip(From(r), x);
    }
  }

  /** `powi(n)` as written: pow = re^(n-1), value pow·re, derivative n·pow;
      re^(n-1) needs a non-zero real part unless n >= 1. */
  function PowI(x: Dual.Dual, n: int): Dual.Dual
    requires n >= 1 || x.re != 0.0
  {
    var pow := D.PowInt(x.re, n - 1);
    Dual.Dual(pow * x.re, x.eps * ((n as real) * pow))
  }

  /** It is the chain rule with y ↦ y^n ... */
  lemma PowIIsChainRule(x: Dual.Dual, n: int)
    requires n >= 1 || x.re != 0.0
    ensures PowI(x, n) == Dual.ChainRule(x, D.PowInt(x.re, n), (n as real) * D.PowInt(x.re, n - 1))
  {
    D.PowIntStep(x.re, n - 1, n);
  }

  /** ... and agrees with Dual's `powi` wherever both are defined. */
  lemma PowIAgrees(x: Dual.Dual, n: int)
    requires n >= 1 || x.re != 0.0
    ensures PowI(x, n) == Dual.PowI(x, n)
  {
    var a := x.re;
    if n == 0 {
      assert D.PowInt(a, -1) * a == 1.0 by {
        D.PowIntStep(a, -1, 0);
      }
    } else if n == 1 {
      assert D.PowInt(a, 0) == 1.0;
    } else if n == 2 {
      assert D.PowInt(a, 1) == a by {
        D.PowIntStep(a, 0, 1);
      }
    } else {
      PowIAgreesChain(x, n);
    }
  }

  lemma PowIAgreesChain(x: Dual.Dual, n: int)
    requires x.re != 0.0 || n >= 3
    requires n != 0 && n != 1 && n != 2
    ensures PowI(x, n) == Dual.PowI(x, n)
  {
    D.PowILeading(x.re, n);
    D.PowISlope(x.re, n);
    PowIIsChainRule(x, n);
  }

  /** powi(4) at (1.2, 1) is (2.0736, 6.912). */
  lemma PowIDoc()
    ensures PowI(Dual.Dual(1.2, 1.0), 4) == Dual.Dual(2.0736, 6.912)
  {
    assert D.PowInt(1.2, 3) == 1.728;
  }
}
