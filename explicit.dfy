/** The drivers of src/explicit.rs: each seeds its arguments with unit
    derivative parts, evaluates the function once (or, for dynamically
    sized vectors, once per direction) and reads the derivatives off the
    result. The function is a parameter; its result is a `Result`, which
    covers both a plain value (always `Ok`) and the fallible `try_*`
    variants of the older files, whose errors are passed on unchanged. */
module Explicit {
  import W = Wrappers
  import M = Matrix
  import Der = Derivative
  import D = Derivatives
  import Dual
  import HD = HyperDual
  import HHD = HyperHyperDual
  import Dual3
  import DV = DualVec
  import V = Dual2Vec

  // ---------------------------------------------------------------------
  // Scalar drivers
  // ---------------------------------------------------------------------

  /** x seeded as the variable: derivative part 1. */
  function FirstSeed(x: real): (d: Dual.Dual)
    ensures d == Dual.Dual(x, 1.0)
  {
    Dual.Derivative(Dual.FromRe(x))
  }

  /** `first_derivative`: (value, first derivative) of g at x. */
  function FirstDerivative<E>(g: Dual.Dual -> W.Result<Dual.Dual, E>, x: real): (r: W.Result<(real, real), E>)
    ensures r.Err? <==> g(FirstSeed(x)).Err?
    ensures r.Err? ==> r.error == g(FirstSeed(x)).error
  {
    match g(FirstSeed(x))
    case Err(e) => W.Err(e)
    case Ok(d) => W.Ok((d.re, d.eps))
  }

  /** For a function given by its derivative table at x (the chain rule),
      the driver returns the table's value and slope; for the product of
      two such functions it returns the product rule. */
  lemma FirstDerivativeChainRule<E>(g: Dual.Dual -> W.Result<Dual.Dual, E>, x: real, f: D.Coeffs, h: D.Coeffs)
    ensures g(FirstSeed(x)) == W.Ok(Dual.ChainRule(FirstSeed(x), f.f0, f.f1)) ==>
              FirstDerivative(g, x) == W.Ok((f.f0, f.f1))
    ensures g(FirstSeed(x)) == W.Ok(Dual.Mul(Dual.ChainRule(FirstSeed(x), f.f0, f.f1), Dual.ChainRule(FirstSeed(x), h.f0, h.f1))) ==>
              FirstDerivative(g, x) == W.Ok((f.f0 * h.f0, f.f1 * h.f0 + f.f0 * h.f1))
  {
    var s := FirstSeed(x);
    Dual.ChainRuleMul(s, f, h);
    assert Dual.ChainRule(s, f.f0, f.f1) == Dual.Dual(f.f0, f.f1);
    var p := D.Product(f, h);
    assert p.f0 == f.f0 * h.f0 && p.f1 == f.f1 * h.f0 + f.f0 * h.f1;
    assert Dual.ChainRule(s, p.f0, p.f1) == Dual.Dual(p.f0, p.f1);
  }

  /** The example: x² at 5 gives (25, 10). */
  lemma FirstDerivativeDoc()
    ensures FirstDerivative<()>(d => W.Ok(Dual.PowI(d, 2)), 5.0) == W.Ok((25.0, 10.0))
  {
    Dual.PowIDoc();
  }

  /** x seeded as the variable of a second-order number with one variable:
      first derivative part [1], second part absent. */
  function SecondSeed(x: real): (d: V.Dual2Vec)
    ensures V.Valid(d, 1) && d == V.Derivative(V.FromRe(x), 1, 0)
  {
    assert M.Unit(1, 1, 0)[0] == [1.0];
    assert M.Unit(1, 1, 0) == [[1.0]];
    assert Der.DerivativeGeneric(1, 1, 0) == Der.Identity1();
    V.FromRe(x).(v1 := Der.Identity1())
  }

  /** `second_derivative`: (value, first, second derivative), each read
      from the 1 x 1 parts, an absent part reading as zero. */
  function SecondDerivative<E>(g: V.Dual2Vec -> W.Result<V.Dual2Vec, E>, x: real): (r: W.Result<(real, real, real), E>)
    requires forall a :: g(a).Ok? ==> V.Valid(g(a).value, 1)
    ensures r.Err? <==> g(SecondSeed(x)).Err?
    ensures r.Err? ==> r.error == g(SecondSeed(x)).error
    ensures r.Ok? ==> HD.HyperDual(r.value.0, r.value.1, r.value.1, r.value.2) == V.Entry(g(SecondSeed(x)).value, 1, 0, 0)
  {
    if g(SecondSeed(x)).Err? then W.Err(g(SecondSeed(x)).error)
    else
      assert V.Valid(g(SecondSeed(x)).value, 1);
      W.Ok((g(SecondSeed(x)).value.re, Der.Unwrap(g(SecondSeed(x)).value.v1), Der.Unwrap(g(SecondSeed(x)).value.v2)))
  }

  /** The seed's only entry is the hyper-dual number x + ε1 + ε2. */
  lemma SecondSeedEntry(x: real)
    ensures V.Entry(SecondSeed(x), 1, 0, 0) == HD.HyperDual(x, 1.0, 1.0, 0.0)
  {
    V.SeededEntry(SecondSeed(x), x, 1, 0, 0, 0);
  }

  /** For a function given by its table at x the driver returns the value
      and the first two derivatives of the table. */
  lemma SecondDerivativeChainRule<E>(g: V.Dual2Vec -> W.Result<V.Dual2Vec, E>, x: real, f: D.Coeffs)
    requires forall a :: g(a).Ok? ==> V.Valid(g(a).value, 1)
    requires g(SecondSeed(x)) == W.Ok(V.ChainRule(SecondSeed(x), 1, f.f0, f.f1, f.f2))
    ensures SecondDerivative(g, x) == W.Ok((f.f0, f.f1, f.f2))
  {
    SecondSeedEntry(x);
    V.EntryChainRule(SecondSeed(x), 1, f.f0, f.f1, f.f2, 0, 0);
    SeededChainRule(x, f);
  }

  lemma SeededChainRule(x: real, f: D.Coeffs)
    ensures HD.ChainRule(HD.HyperDual(x, 1.0, 1.0, 0.0), f.f0, f.f1, f.f2) == HD.HyperDual(f.f0, f.f1, f.f1, f.f2)
  {
  }

  /** The example: x·x at 5 gives (25, 10, 2). */
  lemma SecondDerivativeDoc(x: real)
    requires x == 5.0
    ensures SecondDerivative<()>(Square, x) == W.Ok((25.0, 10.0, 2.0))
  {
    var s := SecondSeed(x);
    SecondSeedEntry(x);
    V.EntryMul(s, s, 1, 0, 0);
    SquareOfSeed(x);
  }

  /** d·d for a number with one variable; no result for a malformed one. */
  function Square(d: V.Dual2Vec): (r: W.Result<V.Dual2Vec, ()>)
    ensures r.Ok? <==> V.Valid(d, 1)
    ensures r.Ok? ==> V.Valid(r.value, 1)
  {
    if V.Valid(d, 1) then W.Ok(V.Mul(d, d, 1)) else W.Err(())
  }

  lemma SquareOfSeed(x: real)
    requires x == 5.0
    ensures HD.Mul(HD.HyperDual(x, 1.0, 1.0, 0.0), HD.HyperDual(x, 1.0, 1.0, 0.0)) == HD.HyperDual(25.0, 10.0, 10.0, 2.0)
  {
  }

  /** `second_partial_derivative`: x carries ε1 only, y carries ε2 only;
      the result is (value, ∂x, ∂y, ∂x∂y). */
  function SecondPartialDerivative<E>(g: (HD.HyperDual, HD.HyperDual) -> W.Result<HD.HyperDual, E>, x: real, y: real)
    : (r: W.Result<HD.HyperDual, E>)
    ensures r == g(HD.HyperDual(x, 1.0, 0.0, 0.0), HD.HyperDual(y, 0.0, 1.0, 0.0))
  {
    g(HD.Derivative1(HD.FromRe(x)), HD.Derivative2(HD.FromRe(y)))
  }

  /** The seeds keep the variables apart: a function of x alone has no
      y-derivative and no mixed derivative, and the product x·y has the
      derivatives (y, x, 1). */
  lemma SecondPartialSeparates<E>(g: (HD.HyperDual, HD.HyperDual) -> W.Result<HD.HyperDual, E>, x: real, y: real, f: D.Coeffs)
    ensures (forall a, b :: g(a, b) == W.Ok(HD.ChainRule(a, f.f0, f.f1, f.f2))) ==>
              SecondPartialDerivative(g, x, y) == W.Ok(HD.HyperDual(f.f0, f.f1, 0.0, 0.0))
    ensures (forall a, b :: g(a, b) == W.Ok(HD.Mul(a, b))) ==>
              SecondPartialDerivative(g, x, y) == W.Ok(HD.HyperDual(x * y, y, x, 1.0))
  {
    var a, b := HD.HyperDual(x, 1.0, 0.0, 0.0), HD.HyperDual(y, 0.0, 1.0, 0.0);
    assert HD.ChainRule(a, f.f0, f.f1, f.f2) == HD.HyperDual(f.f0, f.f1, 0.0, 0.0);
    assert HD.Mul(a, b) == HD.HyperDual(x * y, y, x, 1.0);
  }

  /** `third_derivative`: (value, first, second, third derivative). */
  function ThirdDerivative<E>(g: Dual3.Dual3 -> W.Result<Dual3.Dual3, E>, x: real): (r: W.Result<D.Coeffs, E>)
    ensures r.Err? <==> g(Dual3.Dual3(x, 1.0, 0.0, 0.0)).Err?
    ensures r.Err? ==> r.error == g(Dual3.Dual3(x, 1.0, 0.0, 0.0)).error
    ensures r.Ok? ==> Dual3.Table(g(Dual3.Dual3(x, 1.0, 0.0, 0.0)).value) == r.value
  {
    match g(Dual3.Derivative(Dual3.FromRe(x)))
    case Err(e) => W.Err(e)
    case Ok(d) => W.Ok(D.Coeffs(d.re, d.v1, d.v2, d.v3))
  }

  /** Faà di Bruno through the driver: for f applied after h (both given by
      their tables) the driver returns the table of the composition. */
  lemma ThirdDerivativeCompose<E>(g: Dual3.Dual3 -> W.Result<Dual3.Dual3, E>, x: real, f: D.Coeffs, h: D.Coeffs)
    requires forall d :: g(d) == W.Ok(Dual3.Apply(Dual3.Apply(d, h), f))
    ensures ThirdDerivative(g, x) == W.Ok(D.Compose(f, h))
  {
    var s := Dual3.Dual3(x, 1.0, 0.0, 0.0);
    Dual3.ChainRuleCompose(s, f, h);
    Dual3.TableApply(s, D.Compose(f, h));
    assert Dual3.Table(s) == D.Identity(x);
    D.ComposeIdentity(D.Compose(f, h), x);
  }

  /** The example: x³ at 5 gives (125, 75, 30, 6). */
  lemma ThirdDerivativeDoc()
    ensures ThirdDerivative<()>(d => W.Ok(Dual3.PowI(d, 3)), 5.0) == W.Ok(D.Coeffs(125.0, 75.0, 30.0, 6.0))
  {
    Dual3.PowIDoc();
  }

  /** `third_partial_derivative`: x, y and z carry ε1, ε2 and ε3; the
      result holds the value and all seven partial derivatives. */
  function ThirdPartialDerivative<E>(g: (HHD.HyperHyperDual, HHD.HyperHyperDual, HHD.HyperHyperDual) -> W.Result<HHD.HyperHyperDual, E>,
                                     x: real, y: real, z: real): (r: W.Result<HHD.HyperHyperDual, E>)
    ensures r == g(HHD.HyperHyperDual(x, 1.0, 0.0, 0.0, 0.0, 0.0, 0.0, 0.0),
                   HHD.HyperHyperDual(y, 0.0, 1.0, 0.0, 0.0, 0.0, 0.0, 0.0),
                   HHD.HyperHyperDual(z, 0.0, 0.0, 1.0, 0.0, 0.0, 0.0, 0.0))
  {
    g(HHD.Derivative1(HHD.FromRe(x)), HHD.Derivative2(HHD.FromRe(y)), HHD.Derivative3(HHD.FromRe(z)))
  }

  /** The product x·y·z has the partial derivatives (yz, xz, xy, z, y, x, 1). */
  lemma ThirdPartialProduct<E>(g: (HHD.HyperHyperDual, HHD.HyperHyperDual, HHD.HyperHyperDual) -> W.Result<HHD.HyperHyperDual, E>,
                               x: real, y: real, z: real)
    requires forall a, b, c :: g(a, b, c) == W.Ok(HHD.Mul(HHD.Mul(a, b), c))
    ensures ThirdPartialDerivative(g, x, y, z) == W.Ok(HHD.HyperHyperDual(x * y * z, y * z, x * z, x * y, z, y, x, 1.0))
  {
    var a := HHD.HyperHyperDual(x, 1.0, 0.0, 0.0, 0.0, 0.0, 0.0, 0.0);
    var b := HHD.HyperHyperDual(y, 0.0, 1.0, 0.0, 0.0, 0.0, 0.0, 0.0);
    var c := HHD.HyperHyperDual(z, 0.0, 0.0, 1.0, 0.0, 0.0, 0.0, 0.0);
    SeedProductXY(a, b, x, y);
    SeedProductXYZ(HHD.Mul(a, b), c, x, y, z);
  }

  lemma SeedProductXY(a: HHD.HyperHyperDual, b: HHD.HyperHyperDual, x: real, y: real)
    requires a == HHD.HyperHyperDual(x, 1.0, 0.0, 0.0, 0.0, 0.0, 0.0, 0.0)
    requires b == HHD.HyperHyperDual(y, 0.0, 1.0, 0.0, 0.0, 0.0, 0.0, 0.0)
    ensures HHD.Mul(a, b) == HHD.HyperHyperDual(x * y, y, x, 0.0, 1.0, 0.0, 0.0, 0.0)
  {
  }

  lemma SeedProductXYZ(p: HHD.HyperHyperDual, c: HHD.HyperHyperDual, x: real, y: real, z: real)
    requires p == HHD.HyperHyperDual(x * y, y, x, 0.0, 1.0, 0.0, 0.0, 0.0)
    requires c == HHD.HyperHyperDual(z, 0.0, 0.0, 1.0, 0.0, 0.0, 0.0, 0.0)
    ensures HHD.Mul(p, c) == HHD.HyperHyperDual(x * y * z, y * z, x * z, x * y, z, y, x, 1.0)
  {
  }

  // ---------------------------------------------------------------------
  // Drivers over vectors of statically known length
  // ---------------------------------------------------------------------

  /** x_k carries the unit column e_k of the n directions. */
  function GradientSeeds(x: seq<real>): (s: seq<DV.DualVec>)
    ensures |s| == |x| && forall k :: 0 <= k < |x| ==> DV.Valid(s[k], |x|)
  {
    seq(|x|, k requires 0 <= k < |x| => DV.New(x[k], Der.DerivativeGeneric(|x|, 1, k)))
  }

  /** Direction i sees x_k as the variable exactly when i = k. */
  lemma GradientSeedComponent(x: seq<real>, k: nat, i: nat)
    requires k < |x| && i < |x|
    ensures DV.Component(GradientSeeds(x)[k], |x|, i) == Dual.Dual(x[k], V.Unit(i, k))
  {
    assert k % |x| == k && k / |x| == 0;
  }

  /** The seeding loop of `gradient` and `jacobian`: each element starts as
      a constant, then the k-th one gets the unit derivative e_k. */
  method SeedGradient(x: seq<real>) returns (xs: seq<DV.DualVec>)
    ensures xs == GradientSeeds(x)
  {
    xs := seq(|x|, k requires 0 <= k < |x| => DV.FromRe(x[k]));
    var i := 0;
    while i < |xs|
      invariant 0 <= i <= |xs| == |x|
      invariant forall k :: 0 <= k < i ==> xs[k] == GradientSeeds(x)[k]
      invariant forall k :: i <= k < |xs| ==> xs[k] == DV.FromRe(x[k])
    {
      xs := xs[i := xs[i].(eps := Der.DerivativeGeneric(|x|, 1, i))];
      i := i + 1;
    }
  }

  /** The value and the n directional derivatives of a result, an absent
      derivative reading as zero. */
  function GradientOf(res: DV.DualVec, n: nat): (r: (real, seq<real>))
    requires DV.Valid(res, n)
    ensures |r.1| == n
    ensures forall i :: 0 <= i < n ==> DV.Component(res, n, i) == Dual.Dual(r.0, r.1[i])
  {
    (res.re, seq(n, i requires 0 <= i < n => Der.UnwrapGeneric(res.eps, n, 1)[i][0]))
  }

  /** `gradient`: g is evaluated once on the seeded vector. */
  method Gradient<E>(g: seq<DV.DualVec> -> W.Result<DV.DualVec, E>, x: seq<real>) returns (r: W.Result<(real, seq<real>), E>)
    requires forall a :: g(a).Ok? ==> DV.Valid(g(a).value, |a|)
    ensures g(GradientSeeds(x)).Err? ==> r == W.Err(g(GradientSeeds(x)).error)
    ensures g(GradientSeeds(x)).Ok? ==> r == W.Ok(GradientOf(g(GradientSeeds(x)).value, |x|))
  {
    var xs := SeedGradient(x);
    var v := g(xs);
    match v
    case Err(e) => r := W.Err(e);
    case Ok(res) => r := W.Ok(GradientOf(res, |x|));
  }

  /** The gradient of x_k alone is e_k. */
  lemma GradientOfVariable(x: seq<real>, k: nat, i: nat)
    requires k < |x| && i < |x|
    ensures GradientOf(GradientSeeds(x)[k], |x|).0 == x[k]
    ensures GradientOf(GradientSeeds(x)[k], |x|).1[i] == V.Unit(i, k)
  {
    GradientSeedComponent(x, k, i);
  }

  /** The gradient of x_k·x_l has x_l in place k and x_k in place l (2·x_k
      in place k when k = l). */
  lemma GradientOfProduct(x: seq<real>, k: nat, l: nat, i: nat, p: DV.DualVec)
    requires k < |x| && l < |x| && i < |x|
    requires p == DV.Mul(GradientSeeds(x)[k], GradientSeeds(x)[l], |x|)
    ensures DV.Valid(p, |x|) && GradientOf(p, |x|).0 == x[k] * x[l]
    ensures GradientOf(p, |x|).1[i] == (if i == k then x[l] else 0.0) + (if i == l then x[k] else 0.0)
  {
    ProductComponent(x, k, l, i, p);
    ReadGradient(p, |x|, i, x[k] * x[l], (if i == k then x[l] else 0.0) + (if i == l then x[k] else 0.0));
  }

  lemma ProductComponent(x: seq<real>, k: nat, l: nat, i: nat, p: DV.DualVec)
    requires k < |x| && l < |x| && i < |x|
    requires p == DV.Mul(GradientSeeds(x)[k], GradientSeeds(x)[l], |x|)
    ensures DV.Valid(p, |x|)
    ensures DV.Component(p, |x|, i)
         == Dual.Dual(x[k] * x[l], (if i == k then x[l] else 0.0) + (if i == l then x[k] else 0.0))
  {
    GradientSeedComponent(x, k, i);
    GradientSeedComponent(x, l, i);
    DV.ComponentMul(GradientSeeds(x)[k], GradientSeeds(x)[l], |x|, i);
    UnitProduct(x[k], x[l], i, k, l);
  }

  lemma ReadGradient(p: DV.DualVec, n: nat, i: nat, v: real, d: real)
    requires DV.Valid(p, n) && i < n && DV.Component(p, n, i) == Dual.Dual(v, d)
    ensures GradientOf(p, n).0 == v && GradientOf(p, n).1[i] == d
  {
  }

  lemma UnitProduct(a: real, b: real, i: nat, k: nat, l: nat)
    ensures Dual.Mul(Dual.Dual(a, V.Unit(i, k)), Dual.Dual(b, V.Unit(i, l)))
         == Dual.Dual(a * b, (if i == k then b else 0.0) + (if i == l then a else 0.0))
  {
  }

  /** The values and the Jacobian of a vector of results: row i holds the
      derivatives of output i. */
  function JacobianOf(res: seq<DV.DualVec>, n: nat): (r: (seq<real>, M.Mat))
    requires forall i :: 0 <= i < |res| ==> DV.Valid(res[i], n)
    ensures |r.0| == |res| && M.Shaped(r.1, |res|, n)
    ensures forall i, j :: 0 <= i < |res| && 0 <= j < n ==> DV.Component(res[i], n, j) == Dual.Dual(r.0[i], r.1[i][j])
  {
    (seq(|res|, i requires 0 <= i < |res| => res[i].re),
     seq(|res|, i requires 0 <= i < |res| => GradientOf(res[i], n).1))
  }

  /** `jacobian`: g is evaluated once on the seeded vector. */
  method Jacobian<E>(g: seq<DV.DualVec> -> W.Result<seq<DV.DualVec>, E>, x: seq<real>) returns (r: W.Result<(seq<real>, M.Mat), E>)
    requires forall a, i :: g(a).Ok? && 0 <= i < |g(a).value| ==> DV.Valid(g(a).value[i], |a|)
    ensures g(GradientSeeds(x)).Err? ==> r == W.Err(g(GradientSeeds(x)).error)
    ensures g(GradientSeeds(x)).Ok? ==> r == W.Ok(JacobianOf(g(GradientSeeds(x)).value, |x|))
  {
    var xs := SeedGradient(x);
    var v := g(xs);
    match v
    case Err(e) => r := W.Err(e);
    case Ok(res) => r := W.Ok(JacobianOf(res, |x|));
  }

  /** Row i of the Jacobian is the gradient of output i. */
  lemma JacobianRows(res: seq<DV.DualVec>, n: nat, i: nat)
    requires forall k :: 0 <= k < |res| ==> DV.Valid(res[k], n)
    requires i < |res|
    ensures JacobianOf(res, n).0[i] == GradientOf(res[i], n).0
    ensures JacobianOf(res, n).1[i] == GradientOf(res[i], n).1
  {
    var r := JacobianOf(res, n);
    var q := GradientOf(res[i], n);
    forall j | 0 <= j < n
      ensures r.1[i][j] == q.1[j]
    {
      assert DV.Component(res[i], n, j) == Dual.Dual(r.0[i], r.1[i][j]);
    }
  }

  /** x_k carries the unit row e_k as its gradient part. */
  function HessianSeeds(x: seq<real>): (s: seq<V.Dual2Vec>)
    ensures |s| == |x| && forall k :: 0 <= k < |x| ==> V.Valid(s[k], |x|) && s[k] == V.Derivative(V.FromRe(x[k]), |x|, k)
  {
    seq(|x|, k requires 0 <= k < |x| => V.Derivative(V.FromRe(x[k]), |x|, k))
  }

  /** The seeding loop of `hessian`. */
  method SeedHessian(x: seq<real>) returns (xs: seq<V.Dual2Vec>)
    ensures xs == HessianSeeds(x)
  {
    xs := seq(|x|, k requires 0 <= k < |x| => V.FromRe(x[k]));
    var i := 0;
    while i < |xs|
      invariant 0 <= i <= |xs| == |x|
      invariant forall k :: 0 <= k < i ==> xs[k] == HessianSeeds(x)[k]
      invariant forall k :: i <= k < |xs| ==> xs[k] == V.FromRe(x[k])
    {
      xs := xs[i := xs[i].(v1 := Der.DerivativeGeneric(1, |x|, i))];
      i := i + 1;
    }
  }

  /** The value, the gradient (the transposed row) and the Hessian of a
      result, absent parts reading as zero. */
  function HessianOf(res: V.Dual2Vec, n: nat): (r: (real, seq<real>, M.Mat))
    requires V.Valid(res, n)
    ensures |r.1| == n && M.Shaped(r.2, n, n)
    ensures forall i, j :: 0 <= i < n && 0 <= j < n ==> V.Entry(res, n, i, j) == HD.HyperDual(r.0, r.1[i], r.1[j], r.2[i][j])
  {
    (res.re, V.Gradient(res, n), V.Hessian(res, n))
  }

  /** `hessian`: g is evaluated once on the seeded vector. */
  method Hessian<E>(g: seq<V.Dual2Vec> -> W.Result<V.Dual2Vec, E>, x: seq<real>) returns (r: W.Result<(real, seq<real>, M.Mat), E>)
    requires forall a :: g(a).Ok? ==> V.Valid(g(a).value, |a|)
    ensures g(HessianSeeds(x)).Err? ==> r == W.Err(g(HessianSeeds(x)).error)
    ensures g(HessianSeeds(x)).Ok? ==> r == W.Ok(HessianOf(g(HessianSeeds(x)).value, |x|))
  {
    var xs := SeedHessian(x);
    var v := g(xs);
    match v
    case Err(e) => r := W.Err(e);
    case Ok(res) => r := W.Ok(HessianOf(res, |x|));
  }

  /** The Hessian of x_k·x_l is 1 at (k, l) and at (l, k) (2 on the
      diagonal when k = l) and zero elsewhere. */
  lemma HessianOfProduct(x: seq<real>, k: nat, l: nat, i: nat, j: nat)
    requires k < |x| && l < |x| && i < |x| && j < |x|
    ensures HessianOf(V.Mul(HessianSeeds(x)[k], HessianSeeds(x)[l], |x|), |x|).2[i][j]
         == V.Unit(i, k) * V.Unit(j, l) + V.Unit(i, l) * V.Unit(j, k)
  {
    var n := |x|;
    var a, b := HessianSeeds(x)[k], HessianSeeds(x)[l];
    V.SeededEntry(a, x[k], n, k, i, j);
    V.SeededEntry(b, x[l], n, l, i, j);
    V.EntryMul(a, b, n, i, j);
    SeedsMixed(x[k], x[l], V.Unit(i, k), V.Unit(j, k), V.Unit(i, l), V.Unit(j, l));
  }

  lemma SeedsMixed(a: real, b: real, ui: real, uj: real, wi: real, wj: real)
    ensures HD.Mul(HD.HyperDual(a, ui, uj, 0.0), HD.HyperDual(b, wi, wj, 0.0)).eps1eps2 == ui * wj + wi * uj
  {
  }

  /** The seeds of `third_partial_derivative_vec`: every element a
      constant, then ε1 on x_i, ε2 on x_j and ε3 on x_k; one element may
      receive several seeds. */
  function TripleSeeds(x: seq<real>, i: nat, j: nat, k: nat): (s: seq<HHD.HyperHyperDual>)
    ensures |s| == |x|
  {
    seq(|x|, l requires 0 <= l < |x| => HHD.HyperHyperDual(x[l], V.Unit(l, i), V.Unit(l, j), V.Unit(l, k), 0.0, 0.0, 0.0, 0.0))
  }

  /** `third_partial_derivative_vec`; an index past the end panics in the
      source and is excluded here. */
  method ThirdPartialDerivativeVec<E>(g: seq<HHD.HyperHyperDual> -> W.Result<HHD.HyperHyperDual, E>,
                                      x: seq<real>, i: nat, j: nat, k: nat) returns (r: W.Result<HHD.HyperHyperDual, E>)
    requires i < |x| && j < |x| && k < |x|
    ensures r == g(TripleSeeds(x, i, j, k))
  {
    var xs := seq(|x|, l requires 0 <= l < |x| => HHD.FromRe(x[l]));
    xs := xs[i := xs[i].(eps1 := 1.0)];
    xs := xs[j := xs[j].(eps2 := 1.0)];
    xs := xs[k := xs[k].(eps3 := 1.0)];
    assert forall l :: 0 <= l < |x| ==> xs[l] == TripleSeeds(x, i, j, k)[l];
    assert xs == TripleSeeds(x, i, j, k);
    r := g(xs);
  }

  /** With three different indices, the seeds are those of
      `third_partial_derivative`, so a function of x_i, x_j and x_k gets
      the same result from both drivers. */
  lemma ThirdPartialVecAgrees<E>(gv: seq<HHD.HyperHyperDual> -> W.Result<HHD.HyperHyperDual, E>,
                                 g3: (HHD.HyperHyperDual, HHD.HyperHyperDual, HHD.HyperHyperDual) -> W.Result<HHD.HyperHyperDual, E>,
                                 x: seq<real>, i: nat, j: nat, k: nat)
    requires i < |x| && j < |x| && k < |x| && i != j && i != k && j != k
    requires forall s :: |s| == |x| ==> gv(s) == g3(s[i], s[j], s[k])
    ensures gv(TripleSeeds(x, i, j, k)) == ThirdPartialDerivative(g3, x[i], x[j], x[k])
  {
    var s := TripleSeeds(x, i, j, k);
    assert s[i] == HHD.Derivative1(HHD.FromRe(x[i]));
    assert s[j] == HHD.Derivative2(HHD.FromRe(x[j]));
    assert s[k] == HHD.Derivative3(HHD.FromRe(x[k]));
  }

  /** The example: x0³·x1² at (1, 2) with i = j = 0 and k = 1 gives
      (4, 12, 12, 4, 24, 12, 12, 24). */
  lemma ThirdPartialVecDoc(a: HHD.HyperHyperDual, b: HHD.HyperHyperDual)
    requires a == TripleSeeds([1.0, 2.0], 0, 0, 1)[0] && b == TripleSeeds([1.0, 2.0], 0, 0, 1)[1]
    ensures HHD.Mul(HHD.PowI(a, 3), HHD.PowI(b, 2))
         == HHD.HyperHyperDual(4.0, 12.0, 12.0, 4.0, 24.0, 12.0, 12.0, 24.0)
  {
    assert a == HHD.HyperHyperDual(1.0, 1.0, 1.0, 0.0, 0.0, 0.0, 0.0, 0.0);
    assert b == HHD.HyperHyperDual(2.0, 0.0, 0.0, 1.0, 0.0, 0.0, 0.0, 0.0);
    CubeOfSeed(a);
    SquareOfThird(b);
    DocProduct(HHD.PowI(a, 3), HHD.PowI(b, 2));
  }

  lemma CubeOfSeed(a: HHD.HyperHyperDual)
    requires a == HHD.HyperHyperDual(1.0, 1.0, 1.0, 0.0, 0.0, 0.0, 0.0, 0.0)
    ensures HHD.PowI(a, 3) == HHD.HyperHyperDual(1.0, 3.0, 3.0, 0.0, 6.0, 0.0, 0.0, 0.0)
  {
    D.PowILeading(1.0, 3);
    D.PowISlope(1.0, 3);
    D.PowICurvature(1.0, 3);
  }

  lemma SquareOfThird(b: HHD.HyperHyperDual)
    requires b == HHD.HyperHyperDual(2.0, 0.0, 0.0, 1.0, 0.0, 0.0, 0.0, 0.0)
    ensures HHD.PowI(b, 2) == HHD.HyperHyperDual(4.0, 0.0, 0.0, 4.0, 0.0, 0.0, 0.0, 0.0)
  {
  }

  lemma DocProduct(p: HHD.HyperHyperDual, q: HHD.HyperHyperDual)
    requires p == HHD.HyperHyperDual(1.0, 3.0, 3.0, 0.0, 6.0, 0.0, 0.0, 0.0)
    requires q == HHD.HyperHyperDual(4.0, 0.0, 0.0, 4.0, 0.0, 0.0, 0.0, 0.0)
    ensures HHD.Mul(p, q) == HHD.HyperHyperDual(4.0, 12.0, 12.0, 4.0, 24.0, 12.0, 12.0, 24.0)
  {
  }

  // ---------------------------------------------------------------------
  // Drivers over dynamically sized vectors: one evaluation per direction
  // ---------------------------------------------------------------------

  /** The arguments of evaluation i of the dynamic gradient: x_l with
      derivative part 1 exactly for l = i. */
  function DirectionSeeds(x: seq<real>, i: nat): (s: seq<Dual.Dual>)
    ensures |s| == |x|
  {
    seq(|x|, l requires 0 <= l < |x| => Dual.Dual(x[l], V.Unit(l, i)))
  }

  /** The dynamic `gradient`: g runs once per direction; entry i of the
      gradient is the derivative of run i and the value is that of the last
      run, zero when there are no variables. */
  method DynGradient(g: seq<Dual.Dual> -> Dual.Dual, x: seq<real>) returns (re: real, grad: seq<real>)
    ensures |grad| == |x|
    ensures forall i :: 0 <= i < |x| ==> grad[i] == g(DirectionSeeds(x, i)).eps
    ensures re == if |x| == 0 then 0.0 else g(DirectionSeeds(x, |x| - 1)).re
  {
    re := 0.0;
    grad := [];
    var i := 0;
    while i < |x|
      invariant 0 <= i <= |x| && |grad| == i
      invariant forall l :: 0 <= l < i ==> grad[l] == g(DirectionSeeds(x, l)).eps
      invariant re == if i == 0 then 0.0 else g(DirectionSeeds(x, i - 1)).re
    {
      var xs := seq(|x|, l requires 0 <= l < |x| => Dual.FromRe(x[l]));
      xs := xs[i := xs[i].(eps := 1.0)];
      assert forall l :: 0 <= l < |x| ==> xs[l] == DirectionSeeds(x, i)[l];
      assert xs == DirectionSeeds(x, i);
      var res := g(xs);
      re := res.re;
      grad := grad + [res.eps];
      i := i + 1;
    }
  }

  /** The arguments of run i are direction i of the static seeds, so a
      function that acts direction by direction gets the same gradient
      from both drivers. */
  lemma DynGradientAgrees(gs: seq<DV.DualVec> -> DV.DualVec, gd: seq<Dual.Dual> -> Dual.Dual, x: seq<real>, i: nat)
    requires forall a :: DV.Valid(gs(a), |a|)
    requires forall k :: 0 <= k < |x| ==> DV.Component(gs(GradientSeeds(x)), |x|, k) == gd(DirectionSeeds(x, k))
    requires i < |x|
    ensures forall l :: 0 <= l < |x| ==> DirectionSeeds(x, i)[l] == DV.Component(GradientSeeds(x)[l], |x|, i)
    ensures GradientOf(gs(GradientSeeds(x)), |x|).1[i] == gd(DirectionSeeds(x, i)).eps
    ensures GradientOf(gs(GradientSeeds(x)), |x|).0 == gd(DirectionSeeds(x, |x| - 1)).re
  {
    forall l | 0 <= l < |x|
      ensures DirectionSeeds(x, i)[l] == DV.Component(GradientSeeds(x)[l], |x|, i)
    {
      GradientSeedComponent(x, l, i);
    }
    var r := GradientOf(gs(GradientSeeds(x)), |x|);
    assert DV.Component(gs(GradientSeeds(x)), |x|, i) == Dual.Dual(r.0, r.1[i]);
    assert DV.Component(gs(GradientSeeds(x)), |x|, |x| - 1) == Dual.Dual(r.0, r.1[|x| - 1]);
  }

  /** The arguments of run (i, j) of the dynamic Hessian: x_l with ε1 = 1
      exactly for l = i and ε2 = 1 exactly for l = j. */
  function PairSeeds(x: seq<real>, i: nat, j: nat): (s: seq<HD.HyperDual>)
    ensures |s| == |x|
  {
    seq(|x|, l requires 0 <= l < |x| => HD.HyperDual(x[l], V.Unit(l, i), V.Unit(l, j), 0.0))
  }

  /** Gradient entry a once the runs of column c are done: the last write
      to it was ε1 of run (a, c), or ε2 of run (n-1, c) when a = c. */
  function AfterColumn(g: seq<HD.HyperDual> -> HD.HyperDual, x: seq<real>, c: nat, a: nat): real
    requires |x| > 0
  {
    if a == c then g(PairSeeds(x, |x| - 1, c)).eps2 else g(PairSeeds(x, a, c)).eps1
  }

  /** Gradient entry a once the runs of column j are done for rows below i. */
  function InColumn(g: seq<HD.HyperDual> -> HD.HyperDual, x: seq<real>, j: nat, i: nat, a: nat): real
    requires |x| > 0 && i <= |x| && j < |x|
  {
    if a == j && i > 0 then g(PairSeeds(x, i - 1, j)).eps2
    else if a < i && a != j then g(PairSeeds(x, a, j)).eps1
    else if j == 0 then 0.0 else AfterColumn(g, x, j - 1, a)
  }

  /** The dynamic `hessian`: the matrix is filled column by column, one run
      of g per entry (i, j); each run also overwrites gradient entries i and
      j and the value, so the results are those of the last runs. */
  method DynHessian(g: seq<HD.HyperDual> -> HD.HyperDual, x: seq<real>) returns (re: real, grad: seq<real>, h: M.Mat)
    ensures M.Shaped(h, |x|, |x|) && |grad| == |x|
    ensures forall a, b :: 0 <= a < |x| && 0 <= b < |x| ==> h[a][b] == g(PairSeeds(x, a, b)).eps1eps2
    ensures forall a :: 0 <= a < |x| - 1 ==> grad[a] == g(PairSeeds(x, a, |x| - 1)).eps1
    ensures |x| > 0 ==> grad[|x| - 1] == g(PairSeeds(x, |x| - 1, |x| - 1)).eps2
    ensures re == if |x| == 0 then 0.0 else g(PairSeeds(x, |x| - 1, |x| - 1)).re
  {
    var n := |x|;
    re := 0.0;
    grad := seq(n, _ => 0.0);
    h := M.Zeros(n, n);
    var j := 0;
    while j < n
      invariant 0 <= j <= n && |grad| == n && M.Shaped(h, n, n)
      invariant forall a, b :: 0 <= a < n && 0 <= b < j ==> h[a][b] == g(PairSeeds(x, a, b)).eps1eps2
      invariant forall a :: 0 <= a < n ==> grad[a] == if j == 0 then 0.0 else AfterColumn(g, x, j - 1, a)
      invariant re == if j == 0 then 0.0 else g(PairSeeds(x, n - 1, j - 1)).re
    {
      var i := 0;
      while i < n
        invariant 0 <= i <= n && |grad| == n && M.Shaped(h, n, n)
        invariant forall a, b :: 0 <= a < n && 0 <= b < n && (b < j || (b == j && a < i)) ==>
                    h[a][b] == g(PairSeeds(x, a, b)).eps1eps2
        invariant forall a :: 0 <= a < n ==> grad[a] == InColumn(g, x, j, i, a)
        invariant re == if i > 0 then g(PairSeeds(x, i - 1, j)).re
                         else if j == 0 then 0.0 else g(PairSeeds(x, n - 1, j - 1)).re
      {
        var xs := PairSeed(x, i, j);
        var res := g(xs);
        re := res.re;
        grad := grad[i := res.eps1];
        grad := grad[j := res.eps2];
        h := h[i := h[i][j := res.eps1eps2]];
        i := i + 1;
      }
      j := j + 1;
    }
  }

  /** The seeding of one run: constants, then ε1 on x_i and ε2 on x_j. */
  method PairSeed(x: seq<real>, i: nat, j: nat) returns (xs: seq<HD.HyperDual>)
    requires i < |x| && j < |x|
    ensures xs == PairSeeds(x, i, j)
  {
    xs := seq(|x|, l requires 0 <= l < |x| => HD.FromRe(x[l]));
    xs := xs[i := xs[i].(eps1 := 1.0)];
    xs := xs[j := xs[j].(eps2 := 1.0)];
    assert forall l :: 0 <= l < |x| ==> xs[l] == PairSeeds(x, i, j)[l];
    assert xs == PairSeeds(x, i, j);
  }

  /** The arguments of run (i, j) are the (i, j) entries of the static
      seeds, so a function that acts entry by entry gets the same Hessian
      from both drivers. */
  lemma DynHessianAgrees(gs: seq<V.Dual2Vec> -> V.Dual2Vec, gd: seq<HD.HyperDual> -> HD.HyperDual, x: seq<real>, i: nat, j: nat)
    requires forall a :: V.Valid(gs(a), |a|)
    requires forall a, b :: 0 <= a < |x| && 0 <= b < |x| ==> V.Entry(gs(HessianSeeds(x)), |x|, a, b) == gd(PairSeeds(x, a, b))
    requires i < |x| && j < |x|
    ensures forall l :: 0 <= l < |x| ==> PairSeeds(x, i, j)[l] == V.Entry(HessianSeeds(x)[l], |x|, i, j)
    ensures HessianOf(gs(HessianSeeds(x)), |x|).2[i][j] == gd(PairSeeds(x, i, j)).eps1eps2
    ensures HessianOf(gs(HessianSeeds(x)), |x|).1[i] == gd(PairSeeds(x, i, j)).eps1
    ensures HessianOf(gs(HessianSeeds(x)), |x|).0 == gd(PairSeeds(x, i, j)).re
  {
    forall l | 0 <= l < |x|
      ensures PairSeeds(x, i, j)[l] == V.Entry(HessianSeeds(x)[l], |x|, i, j)
    {
      V.SeededEntry(HessianSeeds(x)[l], x[l], |x|, l, i, j);
    }
    var r := HessianOf(gs(HessianSeeds(x)), |x|);
    assert V.Entry(gs(HessianSeeds(x)), |x|, i, j) == HD.HyperDual(r.0, r.1[i], r.1[j], r.2[i][j]);
  }

  /** The arguments of run i of the dynamic partial Hessian: ε1 on x_i. */
  function RowSeeds(x: seq<real>, i: nat): (s: seq<HD.HyperDual>)
    ensures |s| == |x|
  {
    seq(|x|, l requires 0 <= l < |x| => HD.HyperDual(x[l], V.Unit(l, i), 0.0, 0.0))
  }

  /** The dynamic `partial_hessian` with a scalar y seeded by ε2 once: one
      run per x_i; the value and the y-derivative are those of the last
      run, zero when x is empty. */
  method DynPartialHessian(g: (seq<HD.HyperDual>, HD.HyperDual) -> HD.HyperDual, x: seq<real>, y: real)
    returns (re: real, gradX: seq<real>, gradY: real, h: seq<real>)
    ensures |gradX| == |x| && |h| == |x|
    ensures forall i :: 0 <= i < |x| ==> gradX[i] == g(RowSeeds(x, i), HD.HyperDual(y, 0.0, 1.0, 0.0)).eps1
    ensures forall i :: 0 <= i < |x| ==> h[i] == g(RowSeeds(x, i), HD.HyperDual(y, 0.0, 1.0, 0.0)).eps1eps2
    ensures re == if |x| == 0 then 0.0 else g(RowSeeds(x, |x| - 1), HD.HyperDual(y, 0.0, 1.0, 0.0)).re
    ensures gradY == if |x| == 0 then 0.0 else g(RowSeeds(x, |x| - 1), HD.HyperDual(y, 0.0, 1.0, 0.0)).eps2
  {
    var ys := HD.Derivative2(HD.FromRe(y));
    re, gradY := 0.0, 0.0;
    gradX, h := [], [];
    var i := 0;
    while i < |x|
      invariant 0 <= i <= |x| && |gradX| == i && |h| == i
      invariant forall l :: 0 <= l < i ==> gradX[l] == g(RowSeeds(x, l), ys).eps1 && h[l] == g(RowSeeds(x, l), ys).eps1eps2
      invariant re == if i == 0 then 0.0 else g(RowSeeds(x, i - 1), ys).re
      invariant gradY == if i == 0 then 0.0 else g(RowSeeds(x, i - 1), ys).eps2
    {
      var xs := seq(|x|, l requires 0 <= l < |x| => HD.FromRe(x[l]));
      xs := xs[i := xs[i].(eps1 := 1.0)];
      assert forall l :: 0 <= l < |x| ==> xs[l] == RowSeeds(x, i)[l];
      assert xs == RowSeeds(x, i);
      var res := g(xs, ys);
      re, gradY := res.re, res.eps2;
      gradX, h := gradX + [res.eps1], h + [res.eps1eps2];
      i := i + 1;
    }
  }
}
