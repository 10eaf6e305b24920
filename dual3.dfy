/** The third-order dual number of src/datatypes/dual3.rs: a real part and
    the first three derivative parts of a function along one direction.
    Read as a table (re, v1, v2, v3), a Dual3 is exactly the coefficient
    table of Derivatives: the chain rule is composition with the applied
    function's table and the product is Leibniz's rule, so every identity
    on tables carries over. */
module Dual3 {
  import W = Wrappers
  import D = Derivatives

  datatype Dual3 = Dual3(re: real, v1: real, v2: real, v3: real)

  function New(re: real, v1: real, v2: real, v3: real): (x: Dual3)
    ensures x.re == re && x.v1 == v1 && x.v2 == v2 && x.v3 == v3
  {
    Dual3(re, v1, v2, v3)
  }

  /** A constant: every derivative part is zero. */
  function FromRe(re: real): (x: Dual3)
    ensures x.re == re && x.v1 == 0.0 && x.v2 == 0.0 && x.v3 == 0.0
  {
    New(re, 0.0, 0.0, 0.0)
  }

  /** Seed the direction: v1 becomes one, the other parts are kept. */
  function Derivative(x: Dual3): (y: Dual3)
    ensures y.re == x.re && y.v1 == 1.0 && y.v2 == x.v2 && y.v3 == x.v3
  {
    x.(v1 := 1.0)
  }

  function One(): Dual3 {
    FromRe(1.0)
  }

  /** The number read as a coefficient table. */
  function Table(x: Dual3): D.Coeffs {
    D.Coeffs(x.re, x.v1, x.v2, x.v3)
  }

  /** The chain rule with f0..f3 the applied function and its first three
      derivatives at the real part. */
  function ChainRule(x: Dual3, f0: real, f1: real, f2: real, f3: real): Dual3 {
    Dual3(f0, D.Compose1(f1, x.v1), D.Compose2(f1, f2, x.v1, x.v2), D.Compose3(f1, f2, f3, x.v1, x.v2, x.v3))
  }

  function Apply(x: Dual3, c: D.Coeffs): Dual3 {
    ChainRule(x, c.f0, c.f1, c.f2, c.f3)
  }

  /** The product: v2 gains 2·v1·v1', v3 gains 3·(v2·v1' + v1·v2'). */
  function Mul(x: Dual3, y: Dual3): Dual3 {
    Dual3(D.Product0(x.re, y.re), D.Product1(x.re, x.v1, y.re, y.v1),
          D.Product2(x.re, x.v1, x.v2, y.re, y.v1, y.v2),
          MulV3(x.re, x.v1, x.v2, x.v3, y.re, y.v1, y.v2, y.v3))
  }

  /** The third part of the product, grouped as the source groups it. */
  function MulV3(a0: real, a1: real, a2: real, a3: real, b0: real, b1: real, b2: real, b3: real): (r: real)
    ensures r == D.Product3(a0, a1, a2, a3, b0, b1, b2, b3)
  {
    a3 * b0 + 3.0 * (a2 * b1 + a1 * b2) + a0 * b3
  }

  /** `recip` through the shared coefficient table. */
  function Recip(x: Dual3): Dual3
    requires x.re != 0.0
  {
    Apply(x, D.Recip(x.re))
  }

  /** Division multiplies by the divisor's reciprocal, whose coefficients
      1/x, -1/x², 2/x³, -6/x⁴ are computed inline by the same recurrence. */
  function Div(x: Dual3, y: Dual3): Dual3
    requires y.re != 0.0
  {
    Mul(x, Recip(y))
  }

  function PowI(x: Dual3, n: int): Dual3
    requires n >= 0 || x.re != 0.0
  {
    match D.PowI(x.re, n)
    case UseOne => One()
    case UseSelf => x
    case UseSquare => Mul(x, x)
    case UseChain(c) => Apply(x, c)
  }

  /** The table view is faithful: a number is determined by its table. */
  lemma TableInjective(x: Dual3, y: Dual3)
    requires Table(x) == Table(y)
    ensures x == y
  {
  }

  /** The chain rule is Faà di Bruno's composition of the applied table
      with the number's own table. */
  lemma TableApply(x: Dual3, c: D.Coeffs)
    ensures Table(Apply(x, c)) == D.Compose(c, Table(x))
  {
  }

  /** The product is Leibniz's rule on the tables. */
  lemma TableMul(x: Dual3, y: Dual3)
    ensures Table(Mul(x, y)) == D.Product(Table(x), Table(y))
  {
  }

  /** Applying f and g and multiplying equals applying f·g. */
  lemma ChainRuleMul(x: Dual3, f: D.Coeffs, g: D.Coeffs)
    ensures Mul(Apply(x, f), Apply(x, g)) == Apply(x, D.Product(f, g))
  {
    TableMul(Apply(x, f), Apply(x, g));
    TableApply(x, f);
    TableApply(x, g);
    TableApply(x, D.Product(f, g));
    D.ProductCompose(f, g, Table(x));
    TableInjective(Mul(Apply(x, f), Apply(x, g)), Apply(x, D.Product(f, g)));
  }

  /** Applying g, then f, equals applying f∘g. */
  lemma ChainRuleCompose(x: Dual3, f: D.Coeffs, g: D.Coeffs)
    ensures Apply(Apply(x, g), f) == Apply(x, D.Compose(f, g))
  {
    TableApply(Apply(x, g), f);
    TableApply(x, g);
    TableApply(x, D.Compose(f, g));
    D.ComposeAssociates(f, g, Table(x));
    TableInjective(Apply(Apply(x, g), f), Apply(x, D.Compose(f, g)));
  }

  /** Applying the identity gives the number back; a constant gives a constant. */
  lemma ChainRuleIdentity(x: Dual3, c: real)
    ensures Apply(x, D.Identity(x.re)) == x
    ensures Apply(x, D.Const(c)) == FromRe(c)
  {
  }

  /** Multiplication is commutative and associative with unit one. */
  lemma MulCommutes(x: Dual3, y: Dual3)
    ensures Mul(x, y) == Mul(y, x)
  {
    TableMul(x, y);
    TableMul(y, x);
    D.ProductCommutes(Table(x), Table(y));
    TableInjective(Mul(x, y), Mul(y, x));
  }

  lemma MulAssociates(x: Dual3, y: Dual3, z: Dual3)
    ensures Mul(Mul(x, y), z) == Mul(x, Mul(y, z))
  {
    TableMul(x, y);
    TableMul(Mul(x, y), z);
    TableMul(y, z);
    TableMul(x, Mul(y, z));
    D.ProductAssociates(Table(x), Table(y), Table(z));
    TableInjective(Mul(Mul(x, y), z), Mul(x, Mul(y, z)));
  }

  lemma MulOne(x: Dual3)
    ensures Mul(x, One()) == x
  {
    TableMul(x, One());
    D.ProductOne(Table(x));
    TableInjective(Mul(x, One()), x);
  }

  /** A number times its reciprocal is one. */
  lemma RecipInverse(y: Dual3)
    requires y.re != 0.0
    ensures Mul(y, Recip(y)) == One()
  {
    ChainRuleIdentity(y, 1.0);
    ChainRuleMul(y, D.Identity(y.re), D.Recip(y.re));
    D.RecipProduct(y.re);
  }

  /** Division inverts multiplication. */
  lemma MulDivInverse(x: Dual3, y: Dual3)
    requires y.re != 0.0
    ensures Mul(Div(x, y), y) == x
  {
    MulAssociates(x, Recip(y), y);
    MulCommutes(Recip(y), y);
    RecipInverse(y);
    MulOne(x);
  }

  /** `powi(n + 1)` is `powi(n)` times the number. */
  lemma PowIStep(x: Dual3, n: int)
    requires n >= 0 || x.re != 0.0
    ensures PowI(x, n + 1) == Mul(PowI(x, n), x)
  {
    var a := x.re;
    ChainRuleIdentity(x, 1.0);
    if n == 0 {
      MulCommutes(One(), x);
      MulOne(x);
    } else if n == 2 {
      D.PowISquare(a);
      D.PowICube(a);
      ChainRuleMul(x, D.Identity(a), D.Identity(a));
      ChainRuleMul(x, D.Square(a), D.Identity(a));
    } else if n >= 3 || n <= -2 {
      D.PowIChainStep(a, n);
      ChainRuleMul(x, D.PowI(a, n).c, D.Identity(a));
    } else if n == -1 {
      D.PowIReciprocalStep(a);
      ChainRuleMul(x, D.PowI(a, n).c, D.Identity(a));
    }
  }

  /** from_re(5).derivative().powi(3) = (125, 75, 30, 6). */
  lemma PowIDoc()
    ensures PowI(Derivative(FromRe(5.0)), 3) == Dual3(125.0, 75.0, 30.0, 6.0)
  {
    assert D.PowInt(5.0, 0) == 1.0;
  }

  /** `==` against another number or a plain real: only the real parts. */
  predicate Eq(x: Dual3, y: Dual3) {
    x.re == y.re
  }

  predicate EqRe(x: Dual3, r: real) {
    x.re == r
  }

  /** `partial_cmp` against another number or a plain real: the order of the
      real parts. */
  function PartialCmp(x: Dual3, y: Dual3): (o: W.Ordering)
    ensures o == W.Equal <==> Eq(x, y)
    ensures o == W.Less <==> x.re < y.re
    ensures o == W.Greater <==> y.re < x.re
  {
    PartialCmpRe(x, y.re)
  }

  function PartialCmpRe(x: Dual3, r: real): (o: W.Ordering)
    ensures o == W.Equal <==> EqRe(x, r)
    ensures o == W.Less <==> x.re < r
    ensures o == W.Greater <==> r < x.re
  {
    if x.re < r then W.Less else if x.re == r then W.Equal else W.Greater
  }

  /** Comparisons never look at the derivative parts. */
  lemma ComparisonIgnoresDerivatives(x: Dual3, y: Dual3, x': Dual3, y': Dual3)
    requires x'.re == x.re && y'.re == y.re
    ensures Eq(x, y) == Eq(x', y') && PartialCmp(x, y) == PartialCmp(x', y')
  {
  }
}
