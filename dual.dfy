/** The first-order dual number of src/datatypes/dual.rs: a real part and one
    derivative part, x = re + eps·ε with ε² = 0. */
module Dual {
  import W = Wrappers
  import D = Derivatives

  datatype Dual = Dual(re: real, eps: real)

  /** Derivative order added by this type (`NDERIV`, with a real inner type). */
  const NDeriv: nat := 1

  function New(re: real, eps: real): (x: Dual)
    ensures x.re == re && x.eps == eps
  {
    Dual(re, eps)
  }

  /** A constant: no derivative. */
  function FromRe(re: real): (x: Dual)
    ensures x.re == re && x.eps == 0.0
  {
    New(re, 0.0)
  }

  /** Seed the derivative direction: the real part is kept, eps becomes 1. */
  function Derivative(x: Dual): (y: Dual)
    ensures y.re == x.re && y.eps == 1.0
  {
    x.(eps := 1.0)
  }

  function One(): Dual {
    FromRe(1.0)
  }

  function Neg(x: Dual): Dual {
    Dual(-x.re, -x.eps)
  }

  function ChainRule(x: Dual, f0: real, f1: real): Dual {
    Dual(f0, x.eps * f1)
  }

  /** The product rule: the derivative part of a·b from the values a, b and
      the derivative parts da, db. Every number type of the library builds
      its first-order parts with it. */
  function ProductRule(a: real, da: real, b: real, db: real): real {
    da * b + db * a
  }

  /** The quotient rule: the derivative part of a/b, with inv = 1/b. */
  function QuotientRule(a: real, da: real, b: real, db: real): real
    requires b != 0.0
  {
    var inv := 1.0 / b;
    (da * b - db * a) * inv * inv
  }

  /** The real parts of a product and of a quotient; the quotient multiplies
      by the reciprocal of the divisor, as the library does. */
  function Times(a: real, b: real): real {
    a * b
  }

  function Ratio(a: real, b: real): real
    requires b != 0.0
  {
    a * (1.0 / b)
  }

  function Mul(x: Dual, y: Dual): Dual {
    Dual(Times(x.re, y.re), ProductRule(x.re, x.eps, y.re, y.eps))
  }

  function Div(x: Dual, y: Dual): Dual
    requires y.re != 0.0
  {
    Dual(Ratio(x.re, y.re), QuotientRule(x.re, x.eps, y.re, y.eps))
  }

  /** `recip` through the shared coefficient table. */
  function Recip(x: Dual): Dual
    requires x.re != 0.0
  {
    var c := D.Recip(x.re);
    ChainRule(x, c.f0, c.f1)
  }

  /** `powi` through the shared coefficient table and its special cases. */
  function PowI(x: Dual, n: int): Dual
    requires n >= 0 || x.re != 0.0
  {
    match D.PowI(x.re, n)
    case UseOne => One()
    case UseSelf => x
    case UseSquare => Mul(x, x)
    case UseChain(c) => ChainRule(x, c.f0, c.f1)
  }

  /** The quotient rule inverts the product rule. */
  lemma MulDivInverse(x: Dual, y: Dual)
    requires y.re != 0.0
    ensures Mul(Div(x, y), y) == x
  {
    var inv := 1.0 / y.re;
    QuotientInverse(x.re, x.eps, y.re, y.eps, inv, x.re * inv, QuotientRule(x.re, x.eps, y.re, y.eps));
  }

  lemma QuotientInverse(a: real, da: real, b: real, db: real, inv: real, q: real, dq: real)
    requires b != 0.0 && inv == 1.0 / b && q == a * inv && dq == (da * b - db * a) * inv * inv
    ensures q * b == a && ProductRule(q, dq, b, db) == da
  {
    assert inv * b == 1.0;
    assert q * b == a * (inv * b);
    assert dq * b + db * q == (da * b - db * a) * inv * (inv * b) + db * a * inv;
  }

  /** The product is associative. */
  lemma MulAssociates(x: Dual, y: Dual, z: Dual)
    ensures Mul(Mul(x, y), z) == Mul(x, Mul(y, z))
  {
    ProductRuleAssociates(x.re, x.eps, y.re, y.eps, z.re, z.eps);
  }

  lemma ProductRuleAssociates(a: real, da: real, b: real, db: real, c: real, dc: real)
    ensures ProductRule(a * b, ProductRule(a, da, b, db), c, dc) == ProductRule(a, da, b * c, ProductRule(b, db, c, dc))
    ensures (a * b) * c == a * (b * c)
  {
  }

  /** The product rule applied to two functions of the same number is the
      chain rule applied to their product (Leibniz's rule). */
  lemma ChainRuleMul(x: Dual, f: D.Coeffs, g: D.Coeffs)
    ensures Mul(ChainRule(x, f.f0, f.f1), ChainRule(x, g.f0, g.f1))
         == ChainRule(x, D.Product(f, g).f0, D.Product(f, g).f1)
  {
  }

  /** A number is the chain rule applied to the identity function. */
  lemma ChainRuleIdentity(x: Dual)
    ensures ChainRule(x, D.Identity(x.re).f0, D.Identity(x.re).f1) == x
  {
  }

  /** A number times its reciprocal is one. */
  lemma RecipInverse(y: Dual)
    requires y.re != 0.0
    ensures Mul(y, Recip(y)) == One()
  {
    ChainRuleIdentity(y);
    ChainRuleMul(y, D.Identity(y.re), D.Recip(y.re));
    D.RecipProduct(y.re);
  }

  /** The quotient rule agrees with multiplying by the reciprocal. */
  lemma DivIsMulRecip(x: Dual, y: Dual)
    requires y.re != 0.0
    ensures Div(x, y) == Mul(x, Recip(y))
  {
    var inv := 1.0 / y.re;
    assert inv * y.re == 1.0;
    QuotientSlot(x.re, x.eps, y.re, y.eps, inv, D.Recip(y.re).f0, D.Recip(y.re).f1);
  }

  lemma QuotientSlot(a: real, da: real, b: real, db: real, inv: real, r0: real, r1: real)
    requires b != 0.0 && inv == 1.0 / b && inv * b == 1.0 && r0 == inv && r1 == -r0 * inv
    ensures QuotientRule(a, da, b, db) == ProductRule(a, da, r0, db * r1)
  {
    assert da * b * inv * inv == da * inv * (inv * b);
  }

  /** `powi(n + 1)` is `powi(n)` times the number, so the coefficient table
      and the product rule compute the same powers. */
  lemma PowIStep(x: Dual, n: int)
    requires n >= 0 || x.re != 0.0
    ensures PowI(x, n + 1) == Mul(PowI(x, n), x)
  {
    var a := x.re;
    ChainRuleIdentity(x);
    if n == 2 {
      D.PowISquare(a);
      D.PowICube(a);
      ChainRuleMul(x, D.Identity(a), D.Identity(a));
      ChainRuleMul(x, D.Square(a), D.Identity(a));
    } else if n >= 3 || n <= -2 {
      D.PowIChainStep(a, n);
      ChainRuleMul(x, D.PowI(a, n).c, D.Identity(a));
    } else if n == -1 {
      D.PowIReciprocalStep(a);
      ChainRuleMul(x, D.PowI(a, n).c, D.Identity(a));
    }
  }

  /** from_re(5).derivative().powi(2) = 25 + 10ε. */
  lemma PowIDoc()
    ensures PowI(Derivative(FromRe(5.0)), 2) == Dual(25.0, 10.0)
  {
  }

  /** `==`: only the real parts are compared. */
  predicate Eq(x: Dual, y: Dual) {
    x.re == y.re
  }

  /** `partial_cmp`: the order of the real parts. */
  function PartialCmp(x: Dual, y: Dual): (o: W.Ordering)
    ensures o == W.Equal <==> Eq(x, y)
    ensures o == W.Less <==> x.re < y.re
    ensures o == W.Greater <==> y.re < x.re
  {
    if x.re < y.re then W.Less else if x.re == y.re then W.Equal else W.Greater
  }

  /** Comparisons ignore the derivative parts: replacing them never changes
      the outcome. */
  lemma ComparisonIgnoresEps(x: Dual, y: Dual, e: real, f: real)
    ensures Eq(x, y) == Eq(x.(eps := e), y.(eps := f))
    ensures PartialCmp(x, y) == PartialCmp(x.(eps := e), y.(eps := f))
  {
  }

  /** `max`: the other operand only if it is greater by real part; ties keep
      self; the whole operand is returned. */
  function Max(x: Dual, y: Dual): (z: Dual)
    ensures z == x || z == y
    ensures z.re >= x.re && z.re >= y.re
    ensures y.re <= x.re ==> z == x
  {
    if PartialCmp(y, x) == W.Greater then y else x
  }

  function Min(x: Dual, y: Dual): (z: Dual)
    ensures z == x || z == y
    ensures z.re <= x.re && z.re <= y.re
    ensures x.re <= y.re ==> z == x
  {
    if PartialCmp(y, x) == W.Less then y else x
  }

  function Clamp(x: Dual, lo: Dual, hi: Dual): (z: Dual)
    ensures z == x || z == lo || z == hi
    ensures lo.re <= hi.re ==> lo.re <= z.re <= hi.re
    ensures lo.re <= x.re <= hi.re ==> z == x
  {
    if PartialCmp(x, lo) == W.Less then lo
    else if PartialCmp(x, hi) == W.Greater then hi
    else x
  }

  /** `abs` by the sign of the real part (+0 counts as positive). */
  function Abs(x: Dual): (z: Dual)
    ensures z.re >= 0.0 && (z == x || z == Neg(x))
  {
    if x.re >= 0.0 then x else Neg(x)
  }

  /** `copysign`: |self| if sign's real part is positive, else -|self|. */
  function Copysign(x: Dual, sign: Dual): (z: Dual)
    ensures z.re == x.re || z.re == -x.re
    ensures sign.re >= 0.0 ==> z.re >= 0.0
    ensures sign.re < 0.0 ==> z.re <= 0.0
    ensures z == Abs(x) || z == Neg(Abs(x))
  {
    if sign.re >= 0.0 then Abs(x) else Neg(Abs(x))
  }

  /** `try_sqrt` with s = √re supplied: a result only for a positive real part. */
  function TrySqrt(x: Dual, s: real): (r: W.Option<Dual>)
    ensures r.Some? <==> x.re > 0.0
    ensures r.Some? ==> r.value.re == s
  {
    if PartialCmp(x, FromRe(0.0)) == W.Greater then
      var c := D.Sqrt(x.re, s);
      W.Some(ChainRule(x, c.f0, c.f1))
    else W.None
  }

  /** The square root's square is the number again. */
  lemma TrySqrtSquares(x: Dual, s: real)
    requires x.re > 0.0 && s * s == x.re
    ensures TrySqrt(x, s).Some? && Mul(TrySqrt(x, s).value, TrySqrt(x, s).value) == x
  {
    var c := D.Sqrt(x.re, s);
    assert c.f1 * x.re == 0.5 * s;
    var r := TrySqrt(x, s).value;
    assert r.eps == x.eps * c.f1;
    assert r.eps * s + r.eps * s == x.eps * (2.0 * c.f1 * s);
    assert 2.0 * c.f1 * s * x.re == s * s;
  }

  /** `atan2(self, other)`: the arctangent of the quotient, with its real
      part replaced by the two-argument arctangent a2 of the real parts
      (a = atan of the quotient's real part is supplied, as every
      transcendental value is). The derivative part is the partial
      derivative formula of atan2: (x'·y - y'·x)/(x² + y²). */
  function Atan2(x: Dual, y: Dual, a: real, a2: real): (z: Dual)
    requires y.re != 0.0
    ensures z.re == a2
    ensures z.eps * (x.re * x.re + y.re * y.re) == x.eps * y.re - y.eps * x.re
  {
    var q := Div(x, y);
    var c := D.Atan(q.re, a);
    Atan2Slope(x.re, x.eps, y.re, y.eps, q.re, q.eps, c.f1);
    Dual(a2, ChainRule(q, c.f0, c.f1).eps)
  }

  lemma Atan2Slope(a: real, da: real, b: real, db: real, q: real, dq: real, f1: real)
    requires b != 0.0 && q == Ratio(a, b) && dq == QuotientRule(a, da, b, db)
    requires (1.0 + q * q) * f1 == 1.0
    ensures dq * f1 * (a * a + b * b) == da * b - db * a
  {
    var inv := 1.0 / b;
    assert b * inv == 1.0;
    assert q == a * inv;
    assert a * a + b * b == b * b * (1.0 + q * q) by {
      assert b * b * (q * q) == (b * inv) * (b * inv) * (a * a);
    }
    assert dq * b * b == da * b - db * a by {
      assert dq * b * b == (da * b - db * a) * (inv * b) * (inv * b);
    }
    calc {
      dq * f1 * (a * a + b * b);
      dq * f1 * (b * b * (1.0 + q * q));
      (dq * b * b) * ((1.0 + q * q) * f1);
      da * b - db * a;
    }
  }
}
