/** The scalar second-order number `HD2` of src/hd2.rs: a real part and the
    first two derivative parts along one direction. It is the third-order
    Dual3 number with the third part dropped: every rule of HD2 is the
    corresponding rule of Dual3 read up to second order, which is how its
    properties are proved here. */
module HD2 {
  import D = Derivatives
  import Dual3

  datatype HD2 = HD2(re: real, v1: real, v2: real)

  function New(re: real, v1: real, v2: real): (x: HD2)
    ensures x.re == re && x.v1 == v1 && x.v2 == v2
  {
    HD2(re, v1, v2)
  }

  /** A constant: both derivative parts are zero. */
  function FromRe(re: real): (x: HD2)
    ensures x.re == re && x.v1 == 0.0 && x.v2 == 0.0
  {
    New(re, 0.0, 0.0)
  }

  /** `derive`: the first derivative part becomes one, the rest is kept. */
  function Derive(x: HD2): (y: HD2)
    ensures y.re == x.re && y.v1 == 1.0 && y.v2 == x.v2
  {
    x.(v1 := 1.0)
  }

  function One(): HD2 {
    FromRe(1.0)
  }

  /** The number with its third part dropped, and a second-order number
      read as a third-order one with a zero third part. */
  function Lo(x: Dual3.Dual3): (y: HD2)
    ensures y.re == x.re && y.v1 == x.v1 && y.v2 == x.v2
  {
    HD2(x.re, x.v1, x.v2)
  }

  function Up(x: HD2): (y: Dual3.Dual3)
    ensures Lo(y) == x && y.v3 == 0.0
  {
    Dual3.Dual3(x.re, x.v1, x.v2, 0.0)
  }

  /** The chain rule: (f0, f1·v1, f2·v1² + f1·v2). */
  function ChainRule(x: HD2, f0: real, f1: real, f2: real): HD2 {
    HD2(f0, D.Compose1(f1, x.v1), D.Compose2(f1, f2, x.v1, x.v2))
  }

  function Apply(x: HD2, c: D.Coeffs): HD2 {
    ChainRule(x, c.f0, c.f1, c.f2)
  }

  /** The product: v2 = v2·b + 2·v1·v1' + a·v2'. */
  function Mul(x: HD2, y: HD2): HD2 {
    HD2(D.Product0(x.re, y.re), D.Product1(x.re, x.v1, y.re, y.v1), D.Product2(x.re, x.v1, x.v2, y.re, y.v1, y.v2))
  }

  /** Division multiplies by the divisor under the chain rule with the
      reciprocal's coefficients 1/x, -1/x², 2/x³. */
  function Div(x: HD2, y: HD2): HD2
    requires y.re != 0.0
  {
    Mul(x, Apply(y, D.Recip(y.re)))
  }

  /** `powi` through the shared coefficient table and its special cases,
      truncated to second order. */
  function PowI(x: HD2, n: int): HD2
    requires n >= 0 || x.re != 0.0
  {
    match D.PowI(x.re, n)
    case UseOne => One()
    case UseSelf => x
    case UseSquare => Mul(x, x)
    case UseChain(c) => Apply(x, c)
  }

  /** Dropping the third part commutes with every rule: the chain rule, the
      product and the quotient of HD2 are those of Dual3 read to second
      order, and the third parts of the operands never matter. */
  lemma LoChainRule(x: Dual3.Dual3, c: D.Coeffs)
    ensures Lo(Dual3.Apply(x, c)) == Apply(Lo(x), c)
  {
  }

  lemma LoMul(x: Dual3.Dual3, y: Dual3.Dual3)
    ensures Lo(Dual3.Mul(x, y)) == Mul(Lo(x), Lo(y))
  {
  }

  lemma LoDiv(x: Dual3.Dual3, y: Dual3.Dual3)
    requires y.re != 0.0
    ensures Lo(Dual3.Div(x, y)) == Div(Lo(x), Lo(y))
  {
    LoChainRule(y, D.Recip(y.re));
    LoMul(x, Dual3.Recip(y));
  }

  lemma LoPowI(x: Dual3.Dual3, n: int)
    requires n >= 0 || x.re != 0.0
    ensures Lo(Dual3.PowI(x, n)) == PowI(Lo(x), n)
  {
    match D.PowI(x.re, n)
    case UseOne =>
    case UseSelf =>
    case UseSquare => LoMul(x, x);
    case UseChain(c) => LoChainRule(x, c);
  }

  /** Division inverts multiplication. */
  lemma MulDivInverse(x: HD2, y: HD2)
    requires y.re != 0.0
    ensures Mul(Div(x, y), y) == x
  {
    Dual3.MulDivInverse(Up(x), Up(y));
    LoDiv(Up(x), Up(y));
    LoMul(Dual3.Div(Up(x), Up(y)), Up(y));
  }

  /** Applying g and then f is applying f∘g. */
  lemma ChainRuleCompose(x: HD2, f: D.Coeffs, g: D.Coeffs)
    ensures Apply(Apply(x, g), f) == Apply(x, D.Compose(f, g))
  {
    Dual3.ChainRuleCompose(Up(x), f, g);
    LoChainRule(Up(x), g);
    LoChainRule(Dual3.Apply(Up(x), g), f);
    LoChainRule(Up(x), D.Compose(f, g));
  }

  /** from_re(5).derive().powi(3) = (125, 75, 30). */
  lemma PowIDoc()
    ensures PowI(Derive(FromRe(5.0)), 3) == HD2(125.0, 75.0, 30.0)
  {
    Dual3.PowIDoc();
    LoPowI(Dual3.Derivative(Dual3.FromRe(5.0)), 3);
  }
}
