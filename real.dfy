/** The zeroth-order number of src/datatypes/real.rs: a real part and no
    derivative part, so that generic code can be run without derivatives. */
module Real {
  import D = Derivatives

  datatype Real = Real(re: real)

  function New(re: real): (x: Real)
    ensures x.re == re
  {
    Real(re)
  }

  function FromRe(re: real): (x: Real)
    ensures x == New(re)
  {
    New(re)
  }

  /** The chain rule keeps only the function's value. */
  function ChainRule(x: Real, f0: real): (y: Real)
    ensures y.re == f0
  {
    New(f0)
  }

  function Apply(x: Real, c: D.Coeffs): Real {
    ChainRule(x, c.f0)
  }

  function Mul(x: Real, y: Real): Real {
    New(x.re * y.re)
  }

  /** Division multiplies by the reciprocal of the divisor's real part. */
  function Div(x: Real, y: Real): Real
    requires y.re != 0.0
  {
    var inv := 1.0 / y.re;
    New(x.re * inv)
  }

  /** A zeroth-order number is the value part of a table: the chain rule
      follows composition and the product follows Leibniz's rule. */
  lemma ChainRuleCompose(x: Real, f: D.Coeffs, g: D.Coeffs)
    ensures Apply(Apply(x, g), f) == Apply(x, D.Compose(f, g))
  {
  }

  lemma ChainRuleMul(x: Real, f: D.Coeffs, g: D.Coeffs)
    ensures Mul(Apply(x, f), Apply(x, g)) == Apply(x, D.Product(f, g))
  {
  }

  /** Division inverts multiplication. */
  lemma MulDivInverse(x: Real, y: Real)
    requires y.re != 0.0
    ensures Mul(Div(x, y), y) == x
  {
    var inv := 1.0 / y.re;
    assert inv * y.re == 1.0;
    assert x.re * inv * y.re == x.re * (inv * y.re);
  }
}
