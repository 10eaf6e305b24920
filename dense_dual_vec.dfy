/** The `DualVec` of src/dual_size.rs: a real part and a derivative vector
    that is always present (a dense n-vector, never absent as in the
    newer `DualVec`). Direction i of the number is the scalar dual number
    (re, eps[i]); every rule acts on the directions one at a time, so the
    two representations agree direction by direction. */
module DenseDualVec {
  import W = Wrappers
  import Der = Derivative
  import Dual
  import DV = DualVec
  import V = Dual2Vec
  import Explicit

  datatype DualVec = DualVec(re: real, eps: seq<real>)

  /** Direction i as a scalar dual number. */
  function Component(x: DualVec, i: nat): (d: Dual.Dual)
    requires i < |x.eps|
    ensures d.re == x.re && d.eps == x.eps[i]
  {
    Dual.Dual(x.re, x.eps[i])
  }

  /** `zero()` and `one()` of `OneZero`: the dimension of eps is kept and
      every entry is zero. */
  function ZeroLike(x: DualVec): (z: DualVec)
    ensures z.re == 0.0 && |z.eps| == |x.eps|
    ensures forall i :: 0 <= i < |x.eps| ==> Component(z, i) == Dual.Dual(0.0, 0.0)
  {
    DualVec(0.0, seq(|x.eps|, _ => 0.0))
  }

  function OneLike(x: DualVec): (o: DualVec)
    ensures o.re == 1.0 && |o.eps| == |x.eps|
    ensures forall i :: 0 <= i < |x.eps| ==> Component(o, i) == Dual.One()
  {
    DualVec(1.0, seq(|x.eps|, _ => 0.0))
  }

  /** `new_scalar`: a one-direction number. */
  function NewScalar(re: real, eps: real): (x: DualVec)
    ensures |x.eps| == 1 && Component(x, 0) == Dual.Dual(re, eps)
  {
    DualVec(re, [eps])
  }

  /** `derivative(x)`: the scalar variable x, derivative part [1]. */
  function Derivative(x: real): (d: DualVec)
    ensures |d.eps| == 1 && Component(d, 0) == Explicit.FirstSeed(x)
  {
    NewScalar(x, 1.0)
  }

  /** The chain rule scales eps by f1. */
  function ChainRule(x: DualVec, f0: real, f1: real): (y: DualVec)
    ensures |y.eps| == |x.eps|
    ensures forall i :: 0 <= i < |x.eps| ==> Component(y, i) == Dual.ChainRule(Component(x, i), f0, f1)
  {
    DualVec(f0, seq(|x.eps|, i requires 0 <= i < |x.eps| => x.eps[i] * f1))
  }

  /** The product rule: eps·b + eps'·a. */
  function Mul(x: DualVec, y: DualVec): (z: DualVec)
    requires |x.eps| == |y.eps|
    ensures |z.eps| == |x.eps|
    ensures forall i :: 0 <= i < |x.eps| ==> Component(z, i) == Dual.Mul(Component(x, i), Component(y, i))
  {
    DualVec(Dual.Times(x.re, y.re),
            seq(|x.eps|, i requires 0 <= i < |x.eps| => Dual.ProductRule(x.re, x.eps[i], y.re, y.eps[i])))
  }

  /** The quotient rule: (eps·b − eps'·a)/b²; a zero divisor gives
      infinities in floating point and is excluded here. */
  function Div(x: DualVec, y: DualVec): (z: DualVec)
    requires |x.eps| == |y.eps| && y.re != 0.0
    ensures |z.eps| == |x.eps|
    ensures forall i :: 0 <= i < |x.eps| ==> Component(z, i) == Dual.Div(Component(x, i), Component(y, i))
  {
    DualVec(Dual.Ratio(x.re, y.re),
            seq(|x.eps|, i requires 0 <= i < |x.eps| => Dual.QuotientRule(x.re, x.eps[i], y.re, y.eps[i])))
  }

  /** The quotient undoes the product, direction by direction. */
  lemma MulDivInverse(x: DualVec, y: DualVec)
    requires |x.eps| == |y.eps| && y.re != 0.0
    ensures Div(Mul(x, y), y) == x
  {
    var q := Div(Mul(x, y), y);
    forall i | 0 <= i < |x.eps|
      ensures q.eps[i] == x.eps[i]
    {
      Dual.MulDivInverse(Component(x, i), Component(y, i));
      assert Component(q, i) == Component(x, i);
    }
    Dual.MulDivInverse(Dual.Dual(x.re, 0.0), Dual.Dual(y.re, 0.0));
  }

  /** The number as the newer sparse `DualVec` with a present column. */
  function ToSparse(x: DualVec): (s: DV.DualVec)
    ensures DV.Valid(s, |x.eps|)
    ensures forall i :: 0 <= i < |x.eps| ==> DV.Component(s, |x.eps|, i) == Component(x, i)
  {
    DV.New(x.re, Der.Some(seq(|x.eps|, i requires 0 <= i < |x.eps| => [x.eps[i]])))
  }

  /** `try_first_derivative`: the seed is `derivative(x)`; the result is
      (re, eps[0]), and an error of g is passed on. */
  function TryFirstDerivative<E>(g: DualVec -> W.Result<DualVec, E>, x: real): (r: W.Result<(real, real), E>)
    requires forall a :: g(a).Ok? ==> |g(a).value.eps| == |a.eps|
    ensures r.Err? <==> g(Derivative(x)).Err?
    ensures r.Err? ==> r.error == g(Derivative(x)).error
    ensures r.Ok? ==> Component(g(Derivative(x)).value, 0) == Dual.Dual(r.value.0, r.value.1)
  {
    if g(Derivative(x)).Err? then W.Err(g(Derivative(x)).error)
    else
      assert |g(Derivative(x)).value.eps| == 1;
      W.Ok((g(Derivative(x)).value.re, g(Derivative(x)).value.eps[0]))
  }

  /** It agrees with the newer `first_derivative` for a function that acts
      on the single direction. */
  lemma TryFirstDerivativeAgrees<E>(g: DualVec -> W.Result<DualVec, E>, gd: Dual.Dual -> W.Result<Dual.Dual, E>, x: real)
    requires forall a :: g(a).Ok? ==> |g(a).value.eps| == |a.eps|
    requires g(Derivative(x)).Err? <==> gd(Explicit.FirstSeed(x)).Err?
    requires g(Derivative(x)).Err? ==> g(Derivative(x)).error == gd(Explicit.FirstSeed(x)).error
    requires g(Derivative(x)).Ok? ==> Component(g(Derivative(x)).value, 0) == gd(Explicit.FirstSeed(x)).value
    ensures TryFirstDerivative(g, x) == Explicit.FirstDerivative(gd, x)
  {
  }

  /** x_k with the unit vector e_k as its derivative. */
  function Seeds(x: seq<real>): (s: seq<DualVec>)
    ensures |s| == |x|
    ensures forall k :: 0 <= k < |x| ==> |s[k].eps| == |x|
  {
    seq(|x|, k requires 0 <= k < |x| => DualVec(x[k], seq(|x|, l requires 0 <= l < |x| => V.Unit(l, k))))
  }

  /** The seeds are those of the newer `gradient`, direction by direction. */
  lemma SeedsAgree(x: seq<real>, k: nat, i: nat)
    requires k < |x| && i < |x|
    ensures Component(Seeds(x)[k], i) == DV.Component(Explicit.GradientSeeds(x)[k], |x|, i)
  {
    Explicit.GradientSeedComponent(x, k, i);
  }

  /** The seeding in `try_gradient` and `try_jacobian`: for each position
      a zero vector whose entry k is then set to one. */
  method Seed(x: seq<real>) returns (xs: seq<DualVec>)
    ensures xs == Seeds(x)
  {
    xs := [];
    var k := 0;
    while k < |x|
      invariant 0 <= k <= |x| && |xs| == k
      invariant forall l :: 0 <= l < k ==> xs[l] == Seeds(x)[l]
    {
      var eps := seq(|x|, _ => 0.0);
      eps := eps[k := 1.0];
      assert eps == seq(|x|, l requires 0 <= l < |x| => V.Unit(l, k));
      xs := xs + [DualVec(x[k], eps)];
      k := k + 1;
    }
  }

  /** `try_gradient`: g is evaluated once on the seeds; the gradient is the
      result's eps. */
  method TryGradient<E>(g: seq<DualVec> -> W.Result<DualVec, E>, x: seq<real>) returns (r: W.Result<(real, seq<real>), E>)
    requires forall a :: g(a).Ok? ==> |g(a).value.eps| == |a|
    ensures g(Seeds(x)).Err? ==> r == W.Err(g(Seeds(x)).error)
    ensures g(Seeds(x)).Ok? ==> r.Ok? && |r.value.1| == |x|
    ensures g(Seeds(x)).Ok? ==> forall i :: 0 <= i < |x| ==> Component(g(Seeds(x)).value, i) == Dual.Dual(r.value.0, r.value.1[i])
  {
    var xs := Seed(x);
    var v := g(xs);
    match v
    case Err(e) => r := W.Err(e);
    case Ok(res) => r := W.Ok((res.re, res.eps));
  }

  /** `try_jacobian`: the values of the outputs and, as rows, their eps. */
  method TryJacobian<E>(g: seq<DualVec> -> W.Result<seq<DualVec>, E>, x: seq<real>) returns (r: W.Result<(seq<real>, seq<seq<real>>), E>)
    requires forall a, i :: g(a).Ok? && 0 <= i < |g(a).value| ==> |g(a).value[i].eps| == |a|
    ensures g(Seeds(x)).Err? ==> r == W.Err(g(Seeds(x)).error)
    ensures g(Seeds(x)).Ok? ==> r.Ok? && |r.value.0| == |r.value.1| == |g(Seeds(x)).value|
    ensures g(Seeds(x)).Ok? ==> forall i, j :: 0 <= i < |r.value.1| && 0 <= j < |x| ==>
              |r.value.1[i]| == |x| && Component(g(Seeds(x)).value[i], j) == Dual.Dual(r.value.0[i], r.value.1[i][j])
  {
    var xs := Seed(x);
    var v := g(xs);
    match v
    case Err(e) => r := W.Err(e);
    case Ok(res) =>
      r := W.Ok((seq(|res|, i requires 0 <= i < |res| => res[i].re), seq(|res|, i requires 0 <= i < |res| => res[i].eps)));
  }
}
