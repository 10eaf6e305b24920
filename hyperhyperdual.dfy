/** The hyper-hyper-dual number of src/datatypes/hyperhyperdual.rs (and of
    its older copy src/hyperhyperdual.rs): three independent directions
    ε1, ε2, ε3 with εk² = 0 and all their products, eight slots in all. It
    carries three first, three second and one third partial derivative.

    A number splits into two hyper-dual numbers, x = Lo(x) + Hi(x)·ε3, with
    Lo the (re, ε1, ε2, ε1ε2) part and Hi the ε3 part. The rules are stated
    slot by slot as the library writes them and then shown to act on the
    two halves by the hyper-dual rules, which carries the algebra of the
    hyper-dual number up one direction. */
module HyperHyperDual {
  import D = Derivatives
  import Dual
  import HD = HyperDual

  datatype HyperHyperDual = HyperHyperDual(re: real, eps1: real, eps2: real, eps3: real,
                                           eps1eps2: real, eps1eps3: real, eps2eps3: real, eps1eps2eps3: real)

  function FromRe(re: real): (x: HyperHyperDual)
    ensures x.re == re
    ensures x.eps1 == x.eps2 == x.eps3 == x.eps1eps2 == x.eps1eps3 == x.eps2eps3 == x.eps1eps2eps3 == 0.0
  {
    HyperHyperDual(re, 0.0, 0.0, 0.0, 0.0, 0.0, 0.0, 0.0)
  }

  function One(): HyperHyperDual {
    FromRe(1.0)
  }

  /** `derivative1/2/3` (`derive1/2/3` in the older copy): set one
      first-order slot to 1 and keep every other slot. */
  function Derivative1(x: HyperHyperDual): (y: HyperHyperDual)
    ensures y == x.(eps1 := 1.0)
  {
    x.(eps1 := 1.0)
  }

  function Derivative2(x: HyperHyperDual): (y: HyperHyperDual)
    ensures y == x.(eps2 := 1.0)
  {
    x.(eps2 := 1.0)
  }

  function Derivative3(x: HyperHyperDual): (y: HyperHyperDual)
    ensures y == x.(eps3 := 1.0)
  {
    x.(eps3 := 1.0)
  }

  /** The two hyper-dual halves and their inverse. */
  function Lo(x: HyperHyperDual): HD.HyperDual {
    HD.HyperDual(x.re, x.eps1, x.eps2, x.eps1eps2)
  }

  function Hi(x: HyperHyperDual): HD.HyperDual {
    HD.HyperDual(x.eps3, x.eps1eps3, x.eps2eps3, x.eps1eps2eps3)
  }

  function Join(lo: HD.HyperDual, hi: HD.HyperDual): (x: HyperHyperDual)
    ensures Lo(x) == lo && Hi(x) == hi
  {
    HyperHyperDual(lo.re, lo.eps1, lo.eps2, hi.re, lo.eps1eps2, hi.eps1, hi.eps2, hi.eps1eps2)
  }

  /** A number is determined by its halves. */
  lemma Halves(x: HyperHyperDual, y: HyperHyperDual)
    ensures x == y <==> Lo(x) == Lo(y) && Hi(x) == Hi(y)
    ensures Join(Lo(x), Hi(x)) == x
  {
  }

  /** The chain rule with f0..f3 the value and first three derivatives of f
      at re. The third-order slot collects f1·ε123, f2 times the three
      products of a first- and a second-order slot, and f3·ε1·ε2·ε3. */
  function ChainRule(x: HyperHyperDual, f0: real, f1: real, f2: real, f3: real): HyperHyperDual {
    HyperHyperDual(f0, HD.ChainFirst(x.eps1, f1), HD.ChainFirst(x.eps2, f1), HD.ChainFirst(x.eps3, f1),
                   HD.ChainMixed(x.eps1, x.eps2, x.eps1eps2, f1, f2),
                   HD.ChainMixed(x.eps1, x.eps3, x.eps1eps3, f1, f2),
                   HD.ChainMixed(x.eps2, x.eps3, x.eps2eps3, f1, f2),
                   ChainTriple(x.eps1, x.eps2, x.eps3, x.eps1eps2, x.eps1eps3, x.eps2eps3, x.eps1eps2eps3, f1, f2, f3))
  }

  function ChainTriple(e1: real, e2: real, e3: real, e12: real, e13: real, e23: real, e123: real,
                       f1: real, f2: real, f3: real): real {
    f1 * e123 + f2 * (e1 * e23 + e2 * e13 + e3 * e12) + f3 * e1 * e2 * e3
  }

  function Apply(x: HyperHyperDual, c: D.Coeffs): HyperHyperDual {
    ChainRule(x, c.f0, c.f1, c.f2, c.f3)
  }

  /** The product: every slot is Leibniz's rule over the subsets of its
      directions; the third-order slot has all eight terms. */
  function Mul(x: HyperHyperDual, y: HyperHyperDual): HyperHyperDual {
    HyperHyperDual(Dual.Times(x.re, y.re),
                   Dual.ProductRule(x.re, x.eps1, y.re, y.eps1),
                   Dual.ProductRule(x.re, x.eps2, y.re, y.eps2),
                   Dual.ProductRule(x.re, x.eps3, y.re, y.eps3),
                   HD.MulMixed(x.re, x.eps1, x.eps2, x.eps1eps2, y.re, y.eps1, y.eps2, y.eps1eps2),
                   HD.MulMixed(x.re, x.eps1, x.eps3, x.eps1eps3, y.re, y.eps1, y.eps3, y.eps1eps3),
                   HD.MulMixed(x.re, x.eps2, x.eps3, x.eps2eps3, y.re, y.eps2, y.eps3, y.eps2eps3),
                   MulTriple(x, y))
  }

  function MulTriple(x: HyperHyperDual, y: HyperHyperDual): real {
    x.eps1eps2eps3 * y.re + x.eps1 * y.eps2eps3 + x.eps2 * y.eps1eps3 + x.eps3 * y.eps1eps2
    + x.eps2eps3 * y.eps1 + x.eps1eps3 * y.eps2 + x.eps1eps2 * y.eps3 + x.re * y.eps1eps2eps3
  }

  /** `recip` with the table's reciprocal coefficients, and division as the
      product with the divisor's reciprocal. */
  function Recip(x: HyperHyperDual): HyperHyperDual
    requires x.re != 0.0
  {
    Apply(x, D.Recip(x.re))
  }

  function Div(x: HyperHyperDual, y: HyperHyperDual): HyperHyperDual
    requires y.re != 0.0
  {
    Mul(x, Recip(y))
  }

  function PowI(x: HyperHyperDual, n: int): HyperHyperDual
    requires n >= 0 || x.re != 0.0
  {
    match D.PowI(x.re, n)
    case UseOne => One()
    case UseSelf => x
    case UseSquare => Mul(x, x)
    case UseChain(c) => Apply(x, c)
  }

  /** The product on the halves: Lo is the hyper-dual product of the low
      halves, Hi is Lo(x)·Hi(y) + Hi(x)·Lo(y). */
  lemma HalvesMul(x: HyperHyperDual, y: HyperHyperDual)
    ensures Lo(Mul(x, y)) == HD.Mul(Lo(x), Lo(y))
    ensures Hi(Mul(x, y)) == HD.Add(HD.Mul(Lo(x), Hi(y)), HD.Mul(Hi(x), Lo(y)))
  {
    MulTripleSplit(x.re, x.eps1, x.eps2, x.eps3, x.eps1eps2, x.eps1eps3, x.eps2eps3, x.eps1eps2eps3,
                   y.re, y.eps1, y.eps2, y.eps3, y.eps1eps2, y.eps1eps3, y.eps2eps3, y.eps1eps2eps3);
  }

  lemma MulTripleSplit(a0: real, a1: real, a2: real, a3: real, a12: real, a13: real, a23: real, a123: real,
                       b0: real, b1: real, b2: real, b3: real, b12: real, b13: real, b23: real, b123: real)
    ensures MulTriple(HyperHyperDual(a0, a1, a2, a3, a12, a13, a23, a123), HyperHyperDual(b0, b1, b2, b3, b12, b13, b23, b123))
         == HD.MulMixed(a0, a1, a2, a12, b3, b13, b23, b123) + HD.MulMixed(a3, a13, a23, a123, b0, b1, b2, b12)
    ensures Dual.ProductRule(a0, a3, b0, b3) == Dual.Times(a0, b3) + Dual.Times(a3, b0)
    ensures HD.MulMixed(a0, a1, a3, a13, b0, b1, b3, b13)
         == Dual.ProductRule(a0, a1, b3, b13) + Dual.ProductRule(a3, a13, b0, b1)
    ensures HD.MulMixed(a0, a2, a3, a23, b0, b2, b3, b23)
         == Dual.ProductRule(a0, a2, b3, b23) + Dual.ProductRule(a3, a23, b0, b2)
  {
  }

  /** The chain rule on the halves: f(L + H·ε3) = f(L) + f'(L)·H·ε3, where
      f'(L) is the hyper-dual chain rule with the shifted coefficients. */
  lemma HalvesChainRule(x: HyperHyperDual, f0: real, f1: real, f2: real, f3: real)
    ensures Lo(ChainRule(x, f0, f1, f2, f3)) == HD.ChainRule(Lo(x), f0, f1, f2)
    ensures Hi(ChainRule(x, f0, f1, f2, f3)) == HD.Mul(HD.ChainRule(Lo(x), f1, f2, f3), Hi(x))
  {
    ChainTripleSplit(x.eps1, x.eps2, x.eps3, x.eps1eps2, x.eps1eps3, x.eps2eps3, x.eps1eps2eps3, f1, f2, f3);
  }

  lemma ChainTripleSplit(e1: real, e2: real, e3: real, e12: real, e13: real, e23: real, e123: real,
                         f1: real, f2: real, f3: real)
    ensures HD.ChainFirst(e3, f1) == Dual.Times(f1, e3)
    ensures HD.ChainMixed(e1, e3, e13, f1, f2) == Dual.ProductRule(f1, HD.ChainFirst(e1, f2), e3, e13)
    ensures HD.ChainMixed(e2, e3, e23, f1, f2) == Dual.ProductRule(f1, HD.ChainFirst(e2, f2), e3, e23)
    ensures ChainTriple(e1, e2, e3, e12, e13, e23, e123, f1, f2, f3)
         == HD.MulMixed(f1, HD.ChainFirst(e1, f2), HD.ChainFirst(e2, f2), HD.ChainMixed(e1, e2, e12, f2, f3),
                        e3, e13, e23, e123)
  {
  }

  lemma HalvesApply(x: HyperHyperDual, f: D.Coeffs)
    ensures Lo(Apply(x, f)) == HD.Apply(Lo(x), f)
    ensures Hi(Apply(x, f)) == HD.Mul(HD.Apply(Lo(x), D.Shift(f)), Hi(x))
  {
    HalvesChainRule(x, f.f0, f.f1, f.f2, f.f3);
  }

  /** The product rule is Leibniz's rule on the coefficient table, now to
      third order: applying f and g and multiplying equals applying f·g. */
  lemma ChainRuleMul(x: HyperHyperDual, f: D.Coeffs, g: D.Coeffs)
    ensures Mul(Apply(x, f), Apply(x, g)) == Apply(x, D.Product(f, g))
  {
    var l, h := Lo(x), Hi(x);
    var fl, gl := HD.Apply(l, f), HD.Apply(l, g);
    var fs, gs := HD.Apply(l, D.Shift(f)), HD.Apply(l, D.Shift(g));
    HalvesApply(x, f);
    HalvesApply(x, g);
    HalvesApply(x, D.Product(f, g));
    HalvesMul(Apply(x, f), Apply(x, g));
    HD.ChainRuleMul(l, f, g);
    // Hi: fl·(gs·h) + (fs·h)·gl = (fl·gs + fs·gl)·h = (f·g)'(l)·h.
    HD.ChainRuleMulShift(l, f, g);
    HD.MulAddRight(HD.Mul(fl, gs), HD.Mul(fs, gl), h);
    HD.MulAssociates(fl, gs, h);
    HD.MulAssociates(fs, gl, h);
    HD.MulAssociates(fs, h, gl);
    HD.MulCommutes(gl, h);
    Halves(Mul(Apply(x, f), Apply(x, g)), Apply(x, D.Product(f, g)));
  }

  /** Applying the identity and the constant functions. */
  lemma ChainRuleIdentity(x: HyperHyperDual, c: real)
    ensures Apply(x, D.Identity(x.re)) == x
    ensures Apply(x, D.Const(c)) == FromRe(c)
  {
  }

  /** Multiplication is commutative and associative with unit one. */
  lemma MulCommutes(x: HyperHyperDual, y: HyperHyperDual)
    ensures Mul(x, y) == Mul(y, x)
  {
  }

  lemma MulOne(x: HyperHyperDual)
    ensures Mul(x, One()) == x
  {
  }

  lemma MulAssociates(x: HyperHyperDual, y: HyperHyperDual, z: HyperHyperDual)
    ensures Mul(Mul(x, y), z) == Mul(x, Mul(y, z))
  {
    var lx, hx, ly, hy, lz, hz := Lo(x), Hi(x), Lo(y), Hi(y), Lo(z), Hi(z);
    HalvesMul(x, y);
    HalvesMul(Mul(x, y), z);
    HalvesMul(y, z);
    HalvesMul(x, Mul(y, z));
    HD.MulAssociates(lx, ly, lz);
    // Hi of (x·y)·z: (lx·ly)·hz + (lx·hy + hx·ly)·lz.
    HD.MulAddRight(HD.Mul(lx, hy), HD.Mul(hx, ly), lz);
    // Hi of x·(y·z): lx·(ly·hz + hy·lz) + hx·(ly·lz).
    HD.MulAddLeft(lx, HD.Mul(ly, hz), HD.Mul(hy, lz));
    HD.MulAssociates(lx, ly, hz);
    HD.MulAssociates(lx, hy, lz);
    HD.MulAssociates(hx, ly, lz);
    HD.AddAssociates(HD.Mul(lx, HD.Mul(ly, hz)), HD.Mul(lx, HD.Mul(hy, lz)), HD.Mul(hx, HD.Mul(ly, lz)));
    Halves(Mul(Mul(x, y), z), Mul(x, Mul(y, z)));
  }

  /** A number times its reciprocal is one. */
  lemma RecipInverse(y: HyperHyperDual)
    requires y.re != 0.0
    ensures Mul(y, Recip(y)) == One()
  {
    ChainRuleIdentity(y, 1.0);
    ChainRuleMul(y, D.Identity(y.re), D.Recip(y.re));
    D.RecipProduct(y.re);
  }

  /** Division undoes multiplication. */
  lemma MulDivInverse(x: HyperHyperDual, y: HyperHyperDual)
    requires y.re != 0.0
    ensures Mul(Div(x, y), y) == x
  {
    MulAssociates(x, Recip(y), y);
    MulCommutes(Recip(y), y);
    RecipInverse(y);
    MulOne(x);
  }

  /** Each pair of directions is a hyper-dual number, and the rules act on
      it by the hyper-dual rules. */
  function Pair13(x: HyperHyperDual): HD.HyperDual {
    HD.HyperDual(x.re, x.eps1, x.eps3, x.eps1eps3)
  }

  function Pair23(x: HyperHyperDual): HD.HyperDual {
    HD.HyperDual(x.re, x.eps2, x.eps3, x.eps2eps3)
  }

  lemma PairsMul(x: HyperHyperDual, y: HyperHyperDual)
    ensures Lo(Mul(x, y)) == HD.Mul(Lo(x), Lo(y))
    ensures Pair13(Mul(x, y)) == HD.Mul(Pair13(x), Pair13(y))
    ensures Pair23(Mul(x, y)) == HD.Mul(Pair23(x), Pair23(y))
  {
  }

  lemma PairsChainRule(x: HyperHyperDual, f0: real, f1: real, f2: real, f3: real)
    ensures Lo(ChainRule(x, f0, f1, f2, f3)) == HD.ChainRule(Lo(x), f0, f1, f2)
    ensures Pair13(ChainRule(x, f0, f1, f2, f3)) == HD.ChainRule(Pair13(x), f0, f1, f2)
    ensures Pair23(ChainRule(x, f0, f1, f2, f3)) == HD.ChainRule(Pair23(x), f0, f1, f2)
  {
  }

  /** The `powi` tests at re 0 with ε1 = ε2 = ε3 = 1: the square has every
      second-order slot 2 and no third-order part; the cube has only the
      third-order slot, 6. */
  lemma PowITests(x: HyperHyperDual)
    requires x == HyperHyperDual(0.0, 1.0, 1.0, 1.0, 0.0, 0.0, 0.0, 0.0)
    ensures PowI(x, 2) == HyperHyperDual(0.0, 0.0, 0.0, 0.0, 2.0, 2.0, 2.0, 0.0)
    ensures PowI(x, 3) == HyperHyperDual(0.0, 0.0, 0.0, 0.0, 0.0, 0.0, 0.0, 6.0)
  {
    assert D.PowInt(0.0, 0) == 1.0;
  }

  /** The derived `==` is structural over all eight slots. */
  predicate Eq(x: HyperHyperDual, y: HyperHyperDual) {
    x == y
  }
}
