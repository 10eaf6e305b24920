/** The hyper-dual number of src/datatypes/hyperdual.rs:
    x = re + eps1·ε1 + eps2·ε2 + eps1eps2·ε1ε2 with ε1² = ε2² = 0, carrying two
    first partial derivatives and the mixed second one. */
module HyperDual {
  import D = Derivatives
  import Dual

  datatype HyperDual = HyperDual(re: real, eps1: real, eps2: real, eps1eps2: real)

  function New(re: real, eps1: real, eps2: real, eps1eps2: real): (x: HyperDual)
    ensures x.re == re && x.eps1 == eps1 && x.eps2 == eps2 && x.eps1eps2 == eps1eps2
  {
    HyperDual(re, eps1, eps2, eps1eps2)
  }

  function FromRe(re: real): (x: HyperDual)
    ensures x.re == re && x.eps1 == 0.0 && x.eps2 == 0.0 && x.eps1eps2 == 0.0
  {
    HyperDual(re, 0.0, 0.0, 0.0)
  }

  /** Seed the first direction: only eps1 changes, to 1. */
  function Derivative1(x: HyperDual): (y: HyperDual)
    ensures y == HyperDual(x.re, 1.0, x.eps2, x.eps1eps2)
  {
    x.(eps1 := 1.0)
  }

  /** Seed the second direction: only eps2 changes, to 1. */
  function Derivative2(x: HyperDual): (y: HyperDual)
    ensures y == HyperDual(x.re, x.eps1, 1.0, x.eps1eps2)
  {
    x.(eps2 := 1.0)
  }

  function One(): HyperDual {
    FromRe(1.0)
  }

  /** The chain rule with f0 = f(re), f1 = f'(re), f2 = f''(re). */
  function ChainRule(x: HyperDual, f0: real, f1: real, f2: real): HyperDual {
    HyperDual(f0, ChainFirst(x.eps1, f1), ChainFirst(x.eps2, f1), ChainMixed(x.eps1, x.eps2, x.eps1eps2, f1, f2))
  }

  function ChainFirst(e: real, f1: real): real {
    e * f1
  }

  /** The mixed part of f(x): f'·eps1eps2 + f''·eps1·eps2. Like the other
      mixed-part formulas below, it takes the parts as reals. */
  function ChainMixed(e1: real, e2: real, e12: real, f1: real, f2: real): real {
    e12 * f1 + e1 * e2 * f2
  }

  /** The chain rule with the table's coefficients (f3 is dropped). */
  function Apply(x: HyperDual, c: D.Coeffs): HyperDual {
    ChainRule(x, c.f0, c.f1, c.f2)
  }

  /** The product rule: each first-order part is the dual number's; the
      mixed part collects the four cross terms. */
  function Mul(x: HyperDual, y: HyperDual): HyperDual {
    HyperDual(Dual.Times(x.re, y.re),
        Dual.ProductRule(x.re, x.eps1, y.re, y.eps1),
        Dual.ProductRule(x.re, x.eps2, y.re, y.eps2),
        MulMixed(x.re, x.eps1, x.eps2, x.eps1eps2, y.re, y.eps1, y.eps2, y.eps1eps2))
  }

  function MulMixed(a0: real, a1: real, a2: real, a12: real, b0: real, b1: real, b2: real, b12: real): real {
    b12 * a0 + a1 * b2 + b1 * a2 + a12 * b0
  }

  /** The quotient rule, with inv = 1/y.re and inv2 = inv². */
  function Div(x: HyperDual, y: HyperDual): HyperDual
    requires y.re != 0.0
  {
    HyperDual(Dual.Ratio(x.re, y.re),
        Dual.QuotientRule(x.re, x.eps1, y.re, y.eps1),
        Dual.QuotientRule(x.re, x.eps2, y.re, y.eps2),
        DivMixed(x.re, x.eps1, x.eps2, x.eps1eps2, y.re, y.eps1, y.eps2, y.eps1eps2))
  }

  function DivMixed(a0: real, a1: real, a2: real, a12: real, b0: real, b1: real, b2: real, b12: real): real
    requires b0 != 0.0
  {
    var inv := 1.0 / b0;
    var inv2 := inv * inv;
    a12 * inv - (b12 * a0 + a1 * b2 + b1 * a2) * inv2 + b1 * b2 * (2.0 * a0 * inv2 * inv)
  }

  function Recip(x: HyperDual): HyperDual
    requires x.re != 0.0
  {
    Apply(x, D.Recip(x.re))
  }

  function PowI(x: HyperDual, n: int): HyperDual
    requires n >= 0 || x.re != 0.0
  {
    match D.PowI(x.re, n)
    case UseOne => One()
    case UseSelf => x
    case UseSquare => Mul(x, x)
    case UseChain(c) => Apply(x, c)
  }

  /** The two first-order parts, each a dual number. */
  function Part1(x: HyperDual): Dual.Dual {
    Dual.Dual(x.re, x.eps1)
  }

  function Part2(x: HyperDual): Dual.Dual {
    Dual.Dual(x.re, x.eps2)
  }

  /** Each first-order part of a product, quotient or chain rule is the
      dual number's product, quotient or chain rule of the parts. */
  lemma PartsMul(x: HyperDual, y: HyperDual)
    ensures Part1(Mul(x, y)) == Dual.Mul(Part1(x), Part1(y))
    ensures Part2(Mul(x, y)) == Dual.Mul(Part2(x), Part2(y))
  {
  }

  lemma PartsDiv(x: HyperDual, y: HyperDual)
    requires y.re != 0.0
    ensures Part1(Div(x, y)) == Dual.Div(Part1(x), Part1(y))
    ensures Part2(Div(x, y)) == Dual.Div(Part2(x), Part2(y))
  {
  }

  lemma PartsChainRule(x: HyperDual, f0: real, f1: real, f2: real)
    ensures Part1(ChainRule(x, f0, f1, f2)) == Dual.ChainRule(Part1(x), f0, f1)
    ensures Part2(ChainRule(x, f0, f1, f2)) == Dual.ChainRule(Part2(x), f0, f1)
  {
  }

  lemma PartsRecip(y: HyperDual)
    requires y.re != 0.0
    ensures Part1(Recip(y)) == Dual.Recip(Part1(y))
    ensures Part2(Recip(y)) == Dual.Recip(Part2(y))
  {
    var r := D.Recip(y.re);
    PartsChainRule(y, r.f0, r.f1, r.f2);
  }

  /** The product rule is Leibniz's rule on the coefficient table: applying
      f and g and multiplying equals applying f·g. */
  lemma ChainRuleMul(x: HyperDual, f: D.Coeffs, g: D.Coeffs)
    ensures Mul(Apply(x, f), Apply(x, g)) == Apply(x, D.Product(f, g))
  {
    PartsMul(Apply(x, f), Apply(x, g));
    PartsChainRule(x, f.f0, f.f1, f.f2);
    PartsChainRule(x, g.f0, g.f1, g.f2);
    PartsChainRule(x, D.Product(f, g).f0, D.Product(f, g).f1, D.Product(f, g).f2);
    Dual.ChainRuleMul(Part1(x), f, g);
    Dual.ChainRuleMul(Part2(x), f, g);
    LeibnizMixed(x.eps1, x.eps2, x.eps1eps2, f.f0, f.f1, f.f2, g.f0, g.f1, g.f2);
  }

  lemma LeibnizMixed(e1: real, e2: real, e12: real, f0: real, f1: real, f2: real, g0: real, g1: real, g2: real)
    ensures MulMixed(f0, ChainFirst(e1, f1), ChainFirst(e2, f1), ChainMixed(e1, e2, e12, f1, f2),
                     g0, ChainFirst(e1, g1), ChainFirst(e2, g1), ChainMixed(e1, e2, e12, g1, g2))
         == ChainMixed(e1, e2, e12, D.Product1(f0, f1, g0, g1), D.Product2(f0, f1, f2, g0, g1, g2))
  {
    MixedLeibniz(e1, e2, e12, f0, f1, f2, g0, g1, g2);
  }

  lemma MixedLeibniz(e1: real, e2: real, e12: real, f0: real, f1: real, f2: real, g0: real, g1: real, g2: real)
    ensures MulMixed(f0, e1 * f1, e2 * f1, ChainMixed(e1, e2, e12, f1, f2), g0, e1 * g1, e2 * g1, ChainMixed(e1, e2, e12, g1, g2))
         == ChainMixed(e1, e2, e12, D.Product1(f0, f1, g0, g1), D.Product2(f0, f1, f2, g0, g1, g2))
  {
  }

  /** The chain rule is compatible with composition: applying g, then f,
      equals applying f∘g (Faà di Bruno's formula). */
  lemma ChainRuleCompose(x: HyperDual, f: D.Coeffs, g: D.Coeffs)
    ensures Apply(Apply(x, g), f) == Apply(x, D.Compose(f, g))
  {
    FaaDiBrunoMixed(x.eps1, x.eps2, x.eps1eps2, f.f1, f.f2, g.f1, g.f2);
  }

  lemma FaaDiBrunoMixed(e1: real, e2: real, e12: real, f1: real, f2: real, g1: real, g2: real)
    ensures ChainMixed(ChainFirst(e1, g1), ChainFirst(e2, g1), ChainMixed(e1, e2, e12, g1, g2), f1, f2)
         == ChainMixed(e1, e2, e12, D.Compose1(f1, g1), D.Compose2(f1, f2, g1, g2))
    ensures ChainFirst(ChainFirst(e1, g1), f1) == ChainFirst(e1, D.Compose1(f1, g1))
    ensures ChainFirst(ChainFirst(e2, g1), f1) == ChainFirst(e2, D.Compose1(f1, g1))
  {
  }

  /** Applying the identity and the constant functions. */
  lemma ChainRuleIdentity(x: HyperDual, c: real)
    ensures Apply(x, D.Identity(x.re)) == x
    ensures Apply(x, D.Const(c)) == FromRe(c)
  {
  }

  /** A number times its reciprocal is one. */
  lemma RecipInverse(y: HyperDual)
    requires y.re != 0.0
    ensures Mul(y, Recip(y)) == One()
  {
    ChainRuleIdentity(y, 1.0);
    ChainRuleMul(y, D.Identity(y.re), D.Recip(y.re));
    D.RecipProduct(y.re);
  }

  /** The quotient rule agrees with multiplying by the reciprocal. */
  lemma DivIsMulRecip(x: HyperDual, y: HyperDual)
    requires y.re != 0.0
    ensures Div(x, y) == Mul(x, Recip(y))
  {
    var r := D.Recip(y.re);
    QuotientSlots(x.re, x.eps1, x.eps2, x.eps1eps2, y.re, y.eps1, y.eps2, y.eps1eps2, r.f0, r.f1, r.f2);
  }

  lemma QuotientSlots(a0: real, a1: real, a2: real, a12: real, b0: real, b1: real, b2: real, b12: real,
                      c0: real, c1: real, c2: real)
    requires b0 != 0.0
    requires c0 == 1.0 / b0 && c1 == -c0 * (1.0 / b0) && c2 == c1 * (1.0 / b0) * -2.0
    ensures a0 * (1.0 / b0) == a0 * c0
    ensures Dual.QuotientRule(a0, a1, b0, b1) == Dual.ProductRule(a0, a1, c0, ChainFirst(b1, c1))
    ensures Dual.QuotientRule(a0, a2, b0, b2) == Dual.ProductRule(a0, a2, c0, ChainFirst(b2, c1))
    ensures DivMixed(a0, a1, a2, a12, b0, b1, b2, b12)
         == MulMixed(a0, a1, a2, a12, c0, ChainFirst(b1, c1), ChainFirst(b2, c1), ChainMixed(b1, b2, b12, c1, c2))
  {
    var inv := 1.0 / b0;
    assert inv * b0 == 1.0;
    Dual.QuotientSlot(a0, a1, b0, b1, inv, c0, c1);
    Dual.QuotientSlot(a0, a2, b0, b2, inv, c0, c1);
    MixedQuotient(a0, a1, a2, a12, b1, b2, b12, inv, c0, c1, c2);
  }

  lemma MixedQuotient(a0: real, a1: real, a2: real, a12: real, b1: real, b2: real, b12: real,
                      inv: real, c0: real, c1: real, c2: real)
    requires c0 == inv && c1 == -c0 * inv && c2 == c1 * inv * -2.0
    ensures a12 * inv - (b12 * a0 + a1 * b2 + b1 * a2) * (inv * inv) + b1 * b2 * (2.0 * a0 * (inv * inv) * inv)
         == (b12 * c1 + b1 * b2 * c2) * a0 + a1 * (b2 * c1) + (b1 * c1) * a2 + a12 * c0
  {
  }

  /** Componentwise addition, as every number type defines it. */
  function Add(x: HyperDual, y: HyperDual): (z: HyperDual)
    ensures z.re == x.re + y.re && z.eps1 == x.eps1 + y.eps1 && z.eps2 == x.eps2 + y.eps2
    ensures z.eps1eps2 == x.eps1eps2 + y.eps1eps2
  {
    HyperDual(x.re + y.re, x.eps1 + y.eps1, x.eps2 + y.eps2, x.eps1eps2 + y.eps1eps2)
  }

  lemma AddAssociates(x: HyperDual, y: HyperDual, z: HyperDual)
    ensures Add(Add(x, y), z) == Add(x, Add(y, z))
  {
  }

  function Neg(x: HyperDual): HyperDual {
    HyperDual(-x.re, -x.eps1, -x.eps2, -x.eps1eps2)
  }

  function Sub(x: HyperDual, y: HyperDual): HyperDual {
    HyperDual(x.re - y.re, x.eps1 - y.eps1, x.eps2 - y.eps2, x.eps1eps2 - y.eps1eps2)
  }

  /** Every part scaled by a plain real. */
  function Scale(x: HyperDual, k: real): HyperDual {
    HyperDual(x.re * k, x.eps1 * k, x.eps2 * k, x.eps1eps2 * k)
  }

  /** Subtraction undoes addition and is addition of the negation; scaling
      is the product with the embedded real. */
  lemma AddSub(x: HyperDual, y: HyperDual, k: real)
    ensures Sub(Add(x, y), y) == x && Add(Sub(x, y), y) == x
    ensures Sub(x, y) == Add(x, Neg(y))
    ensures Scale(x, k) == Mul(x, FromRe(k))
  {
  }

  /** The chain rule is linear in the coefficients. */
  lemma ChainRuleAdd(x: HyperDual, a0: real, a1: real, a2: real, b0: real, b1: real, b2: real)
    ensures Add(ChainRule(x, a0, a1, a2), ChainRule(x, b0, b1, b2)) == ChainRule(x, a0 + b0, a1 + b1, a2 + b2)
  {
    ChainAddSlots(x.eps1, x.eps2, x.eps1eps2, a1, a2, b1, b2);
  }

  lemma ChainAddSlots(e1: real, e2: real, e12: real, a1: real, a2: real, b1: real, b2: real)
    ensures ChainFirst(e1, a1) + ChainFirst(e1, b1) == ChainFirst(e1, a1 + b1)
    ensures ChainFirst(e2, a1) + ChainFirst(e2, b1) == ChainFirst(e2, a1 + b1)
    ensures ChainMixed(e1, e2, e12, a1, a2) + ChainMixed(e1, e2, e12, b1, b2) == ChainMixed(e1, e2, e12, a1 + b1, a2 + b2)
  {
  }

  /** Multiplication distributes over addition. */
  lemma MulAddLeft(x: HyperDual, y: HyperDual, z: HyperDual)
    ensures Mul(x, Add(y, z)) == Add(Mul(x, y), Mul(x, z))
  {
    MulAddSlots(x.re, x.eps1, x.eps2, x.eps1eps2, y.re, y.eps1, y.eps2, y.eps1eps2, z.re, z.eps1, z.eps2, z.eps1eps2);
  }

  lemma MulAddSlots(a0: real, a1: real, a2: real, a12: real, b0: real, b1: real, b2: real, b12: real,
                    c0: real, c1: real, c2: real, c12: real)
    ensures Dual.Times(a0, b0 + c0) == Dual.Times(a0, b0) + Dual.Times(a0, c0)
    ensures Dual.ProductRule(a0, a1, b0 + c0, b1 + c1) == Dual.ProductRule(a0, a1, b0, b1) + Dual.ProductRule(a0, a1, c0, c1)
    ensures Dual.ProductRule(a0, a2, b0 + c0, b2 + c2) == Dual.ProductRule(a0, a2, b0, b2) + Dual.ProductRule(a0, a2, c0, c2)
    ensures MulMixed(a0, a1, a2, a12, b0 + c0, b1 + c1, b2 + c2, b12 + c12)
         == MulMixed(a0, a1, a2, a12, b0, b1, b2, b12) + MulMixed(a0, a1, a2, a12, c0, c1, c2, c12)
  {
  }

  lemma MulAddRight(x: HyperDual, y: HyperDual, z: HyperDual)
    ensures Mul(Add(x, y), z) == Add(Mul(x, z), Mul(y, z))
  {
    MulCommutes(Add(x, y), z);
    MulAddLeft(z, x, y);
    MulCommutes(z, x);
    MulCommutes(z, y);
  }

  /** Leibniz's rule one order up: with f' and g' the shifted tables,
      f·g' + f'·g is (f·g)'. Together with the chain rule this is what a
      third direction of differentiation needs. */
  lemma ChainRuleMulShift(x: HyperDual, f: D.Coeffs, g: D.Coeffs)
    ensures Add(Mul(Apply(x, f), Apply(x, D.Shift(g))), Mul(Apply(x, D.Shift(f)), Apply(x, g)))
         == Apply(x, D.Shift(D.Product(f, g)))
  {
    var p, q := D.Product(f, D.Shift(g)), D.Product(D.Shift(f), g);
    ChainRuleMul(x, f, D.Shift(g));
    ChainRuleMul(x, D.Shift(f), g);
    ChainRuleAdd(x, p.f0, p.f1, p.f2, q.f0, q.f1, q.f2);
    D.ShiftProduct(f, g);
  }

  /** Multiplication is commutative and associative with unit one. */
  lemma MulCommutes(x: HyperDual, y: HyperDual)
    ensures Mul(x, y) == Mul(y, x)
  {
  }

  lemma MulAssociates(x: HyperDual, y: HyperDual, z: HyperDual)
    ensures Mul(Mul(x, y), z) == Mul(x, Mul(y, z))
  {
    PartsMul(x, y);
    PartsMul(Mul(x, y), z);
    PartsMul(y, z);
    PartsMul(x, Mul(y, z));
    Dual.MulAssociates(Part1(x), Part1(y), Part1(z));
    Dual.MulAssociates(Part2(x), Part2(y), Part2(z));
    MixedAssociates(x.re, x.eps1, x.eps2, x.eps1eps2, y.re, y.eps1, y.eps2, y.eps1eps2,
                    z.re, z.eps1, z.eps2, z.eps1eps2);
  }

  /** Both sides of the mixed part of (x·y)·z = x·(y·z) expand to the same
      sum of eight monomials. */
  lemma MixedAssociates(a0: real, a1: real, a2: real, a12: real, b0: real, b1: real, b2: real, b12: real,
                        c0: real, c1: real, c2: real, c12: real)
    ensures MulMixed(a0 * b0, Dual.ProductRule(a0, a1, b0, b1), Dual.ProductRule(a0, a2, b0, b2),
                     MulMixed(a0, a1, a2, a12, b0, b1, b2, b12), c0, c1, c2, c12)
         == MulMixed(a0, a1, a2, a12, b0 * c0, Dual.ProductRule(b0, b1, c0, c1), Dual.ProductRule(b0, b2, c0, c2),
                     MulMixed(b0, b1, b2, b12, c0, c1, c2, c12))
  {
    MixedAssociatesLeft(a0, a1, a2, a12, b0, b1, b2, b12, c0, c1, c2, c12);
    MixedAssociatesRight(a0, a1, a2, a12, b0, b1, b2, b12, c0, c1, c2, c12);
  }

  lemma MixedAssociatesLeft(a0: real, a1: real, a2: real, a12: real, b0: real, b1: real, b2: real, b12: real,
                            c0: real, c1: real, c2: real, c12: real)
    ensures MulMixed(a0 * b0, Dual.ProductRule(a0, a1, b0, b1), Dual.ProductRule(a0, a2, b0, b2),
                     MulMixed(a0, a1, a2, a12, b0, b1, b2, b12), c0, c1, c2, c12)
         == a12 * b0 * c0 + a0 * b12 * c0 + a0 * b0 * c12
          + a1 * b2 * c0 + a2 * b1 * c0 + a1 * b0 * c2 + a2 * b0 * c1 + a0 * b1 * c2 + a0 * b2 * c1
  {
  }

  lemma MixedAssociatesRight(a0: real, a1: real, a2: real, a12: real, b0: real, b1: real, b2: real, b12: real,
                             c0: real, c1: real, c2: real, c12: real)
    ensures MulMixed(a0, a1, a2, a12, b0 * c0, Dual.ProductRule(b0, b1, c0, c1), Dual.ProductRule(b0, b2, c0, c2),
                     MulMixed(b0, b1, b2, b12, c0, c1, c2, c12))
         == a12 * b0 * c0 + a0 * b12 * c0 + a0 * b0 * c12
          + a1 * b2 * c0 + a2 * b1 * c0 + a1 * b0 * c2 + a2 * b0 * c1 + a0 * b1 * c2 + a0 * b2 * c1
  {
  }

  lemma MulOne(x: HyperDual)
    ensures Mul(x, One()) == x
  {
  }

  /** The quotient rule inverts the product rule. */
  lemma MulDivInverse(x: HyperDual, y: HyperDual)
    requires y.re != 0.0
    ensures Mul(Div(x, y), y) == x
  {
    DivIsMulRecip(x, y);
    MulAssociates(x, Recip(y), y);
    MulCommutes(Recip(y), y);
    RecipInverse(y);
    MulOne(x);
  }

  /** `powi(n + 1)` is `powi(n)` times the number. */
  lemma PowIStep(x: HyperDual, n: int)
    requires n >= 0 || x.re != 0.0
    ensures PowI(x, n + 1) == Mul(PowI(x, n), x)
  {
    var a := x.re;
    if n == 0 {
      MulCommutes(One(), x);
      MulOne(x);
    } else if n == 2 {
      D.PowISquare(a);
      D.PowICube(a);
      ChainRuleIdentity(x, 0.0);
      ChainRuleMul(x, D.Identity(a), D.Identity(a));
      ChainRuleMul(x, D.Square(a), D.Identity(a));
    } else if n >= 3 || n <= -2 {
      D.PowIChainStep(a, n);
      ChainRuleIdentity(x, 0.0);
      ChainRuleMul(x, D.PowI(a, n).c, D.Identity(a));
    } else if n == -1 {
      D.PowIReciprocalStep(a);
      ChainRuleIdentity(x, 0.0);
      ChainRuleMul(x, D.PowI(a, n).c, D.Identity(a));
    }
  }

  /** x^4 at (1.2, 1, 1, 0) is (2.0736, 6.912, 6.912, 17.28). */
  lemma PowIDoc()
    ensures PowI(New(1.2, 1.0, 1.0, 0.0), 4) == New(2.0736, 6.912, 6.912, 17.28)
  {
    var c := D.PowI(1.2, 4).c;
    assert D.PowInt(1.2, 1) == 1.2;
    assert D.PowInt(1.2, 2) == 1.44;
    assert D.PowInt(1.2, 3) == 1.728;
    assert D.PowInt(1.2, 4) == 2.0736;
  }

  /** 1/x at (1.2, 1, 1, 0) is (5/6, -25/36, -25/36, 125/108). */
  lemma RecipDoc()
    ensures Recip(New(1.2, 1.0, 1.0, 0.0)) == New(5.0 / 6.0, -25.0 / 36.0, -25.0 / 36.0, 125.0 / 108.0)
  {
  }
}
