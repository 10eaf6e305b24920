/** The `HyperDual2` number of src/hyperdual2.rs. It has the eight slots of
    the hyper-hyper-dual number, the same seeding and the same product, but
    its chain rule leaves the f1·ε1ε2ε3 term out of the third-order slot.
    The type, seeding and product are shared with HyperHyperDual; this
    module holds the chain rule and the division as written and what they
    get wrong. */
module HyperDual2 {
  import D = Derivatives
  import HHD = HyperHyperDual

  type HyperDual2 = HHD.HyperHyperDual

  /** The chain rule as written: the third-order slot keeps only the f2 and
      f3 terms. It differs from the full rule in exactly that slot, by
      f1·ε1ε2ε3. */
  function ChainRule(x: HyperDual2, f0: real, f1: real, f2: real, f3: real): (y: HyperDual2)
    ensures y.(eps1eps2eps3 := 0.0) == HHD.ChainRule(x, f0, f1, f2, f3).(eps1eps2eps3 := 0.0)
    ensures y.eps1eps2eps3 + f1 * x.eps1eps2eps3 == HHD.ChainRule(x, f0, f1, f2, f3).eps1eps2eps3
  {
    var full := HHD.ChainRule(x, f0, f1, f2, f3);
    full.(eps1eps2eps3 := ChainTriple(x.eps1, x.eps2, x.eps3, x.eps1eps2, x.eps1eps3, x.eps2eps3, f2, f3))
  }

  function ChainTriple(e1: real, e2: real, e3: real, e12: real, e13: real, e23: real, f2: real, f3: real): real {
    f2 * (e1 * e23 + e2 * e13 + e3 * e12) + f3 * e1 * e2 * e3
  }

  function Apply(x: HyperDual2, c: D.Coeffs): HyperDual2 {
    ChainRule(x, c.f0, c.f1, c.f2, c.f3)
  }

  /** Division as written: the product with the divisor's reciprocal built
      by the chain rule above. */
  function Div(x: HyperDual2, y: HyperDual2): HyperDual2
    requires y.re != 0.0
  {
    HHD.Mul(x, Apply(y, D.Recip(y.re)))
  }

  /** The chain rule as written agrees with the full rule exactly when the
      third-order slot of the argument is zero or f1 is; so applying the
      identity function returns the argument only when that slot is zero. */
  lemma ChainRuleDefect(x: HyperDual2, f: D.Coeffs)
    ensures Apply(x, f) == HHD.Apply(x, f) <==> f.f1 * x.eps1eps2eps3 == 0.0
    ensures Apply(x, D.Identity(x.re)) == x <==> x.eps1eps2eps3 == 0.0
  {
    HHD.ChainRuleIdentity(x, 0.0);
  }

  /** The divisor's third-order slot never reaches the quotient. */
  lemma DivIgnoresTriple(x: HyperDual2, y: HyperDual2, t: real)
    requires y.re != 0.0
    ensures Div(x, y) == Div(x, y.(eps1eps2eps3 := t))
  {
  }

  /** For y = 1 + t·ε1ε2ε3 the reciprocal as written is one, and so is
      1 / y: no slot of the chain rule as written reads t. */
  lemma QuotientOfTriple(y: HyperDual2, t: real)
    requires y == HHD.One().(eps1eps2eps3 := t)
    ensures Div(HHD.One(), y) == HHD.One()
  {
    var c := D.Recip(1.0);
    assert c.f0 == 1.0;
    assert Apply(y, c) == HHD.One();
    HHD.MulOne(HHD.One());
  }

  /** For y = 1 + t·ε1ε2ε3 with t nonzero the quotient 1 / y times y is
      y, not one. With the full chain rule the product is one
      (HyperHyperDual.MulDivInverse). */
  lemma DivCounterexample(y: HyperDual2, t: real)
    requires y == HHD.One().(eps1eps2eps3 := t) && t != 0.0
    ensures HHD.Mul(Div(HHD.One(), y), y) == y
    ensures HHD.Mul(Div(HHD.One(), y), y) != HHD.One()
  {
    var q := Div(HHD.One(), y);
    QuotientOfTriple(y, t);
    assert q == HHD.One();
    OneTimes(y);
    assert y.eps1eps2eps3 != HHD.One().eps1eps2eps3;
  }

  /** One is a unit on the left as well. */
  lemma OneTimes(y: HyperDual2)
    ensures HHD.Mul(HHD.One(), y) == y
  {
    HHD.MulCommutes(HHD.One(), y);
    HHD.MulOne(y);
  }
}
