/** The first-order dual number with a vector of derivative parts of
    src/datatypes/dual_vec.rs: a real part and an optional n x 1 column eps,
    absent meaning zero. Component i is a Dual number along direction i, and
    every rule acts on the components one at a time. */
module DualVec {
  import W = Wrappers
  import M = Matrix
  import Der = Derivative
  import D = Derivatives
  import Dual

  datatype DualVec = DualVec(re: real, eps: Der.Derivative)

  /** eps holds n directions when present. */
  predicate Valid(x: DualVec, n: nat) {
    Der.Fits(x.eps, n, 1)
  }

  function New(re: real, eps: Der.Derivative): (x: DualVec)
    ensures x.re == re && x.eps == eps
  {
    DualVec(re, eps)
  }

  /** A constant: the derivative is absent. */
  function FromRe(re: real): (x: DualVec)
    ensures x.re == re && x.eps.value.None?
  {
    New(re, Der.None())
  }

  function One(): DualVec {
    FromRe(1.0)
  }

  /** Direction i of the number, as a first-order dual number; an absent eps
      reads as zero. */
  function Component(x: DualVec, n: nat, i: nat): (d: Dual.Dual)
    requires Valid(x, n) && i < n
    ensures d.re == x.re
    ensures x.eps.value.None? ==> d.eps == 0.0
    ensures x.eps.value.Some? ==> d.eps == x.eps.value.value[i][0]
  {
    Dual.Dual(x.re, Der.UnwrapGeneric(x.eps, n, 1)[i][0])
  }

  /** Negation: the real part and every direction change sign. */
  function Neg(x: DualVec, n: nat): (y: DualVec)
    requires Valid(x, n)
    ensures Valid(y, n) && y.re == -x.re && (y.eps.value.None? <==> x.eps.value.None?)
    ensures forall i :: 0 <= i < n ==> Component(y, n, i).eps == -Component(x, n, i).eps
  {
    New(-x.re, Der.Neg(x.eps, n, 1))
  }

  /** The chain rule scales eps by f1; an absent eps stays absent. */
  function ChainRule(x: DualVec, n: nat, f0: real, f1: real): (y: DualVec)
    requires Valid(x, n)
    ensures Valid(y, n) && (y.eps.value.None? <==> x.eps.value.None?)
  {
    New(f0, Der.Scale(x.eps, f1, n, 1))
  }

  /** The product rule: eps = eps·b + eps'·a. */
  function Mul(x: DualVec, y: DualVec, n: nat): (z: DualVec)
    requires Valid(x, n) && Valid(y, n)
    ensures Valid(z, n) && (z.eps.value.None? <==> x.eps.value.None? && y.eps.value.None?)
  {
    New(x.re * y.re, Der.Add(Der.Scale(x.eps, y.re, n, 1), Der.Scale(y.eps, x.re, n, 1), n, 1))
  }

  /** The quotient rule: eps = (eps·b - eps'·a)·inv·inv with inv = 1/b. */
  function Div(x: DualVec, y: DualVec, n: nat): (z: DualVec)
    requires Valid(x, n) && Valid(y, n) && y.re != 0.0
    ensures Valid(z, n) && (z.eps.value.None? <==> x.eps.value.None? && y.eps.value.None?)
  {
    var inv := 1.0 / y.re;
    var d := Der.Sub(Der.Scale(x.eps, y.re, n, 1), Der.Scale(y.eps, x.re, n, 1), n, 1);
    New(x.re * inv, Der.Scale(Der.Scale(d, inv, n, 1), inv, n, 1))
  }

  /** Every component of the chain rule, product and quotient is the dual
      number's chain rule, product and quotient of the components. */
  lemma ComponentChainRule(x: DualVec, n: nat, f0: real, f1: real, i: nat)
    requires Valid(x, n) && i < n
    ensures Component(ChainRule(x, n, f0, f1), n, i) == Dual.ChainRule(Component(x, n, i), f0, f1)
  {
  }

  lemma ComponentMul(x: DualVec, y: DualVec, n: nat, i: nat)
    requires Valid(x, n) && Valid(y, n) && i < n
    ensures Component(Mul(x, y, n), n, i) == Dual.Mul(Component(x, n, i), Component(y, n, i))
  {
  }

  lemma ComponentDiv(x: DualVec, y: DualVec, n: nat, i: nat)
    requires Valid(x, n) && Valid(y, n) && y.re != 0.0 && i < n
    ensures Component(Div(x, y, n), n, i) == Dual.Div(Component(x, n, i), Component(y, n, i))
  {
    var a, da, b, db := x.re, Component(x, n, i).eps, y.re, Component(y, n, i).eps;
    var inv := 1.0 / b;
    assert Component(Div(x, y, n), n, i).eps == (da * b - db * a) * inv * inv;
  }

  /** Componentwise, division undoes multiplication. */
  lemma MulDivInverse(x: DualVec, y: DualVec, n: nat, i: nat)
    requires Valid(x, n) && Valid(y, n) && y.re != 0.0 && i < n
    ensures Component(Mul(Div(x, y, n), y, n), n, i) == Component(x, n, i)
  {
    ComponentDiv(x, y, n, i);
    ComponentMul(Div(x, y, n), y, n, i);
    Dual.MulDivInverse(Component(x, n, i), Component(y, n, i));
  }

  /** `powi` through the shared coefficient table and its special cases. */
  function PowI(x: DualVec, n: nat, k: int): (y: DualVec)
    requires Valid(x, n) && (k >= 0 || x.re != 0.0)
    ensures Valid(y, n)
  {
    match D.PowI(x.re, k)
    case UseOne => One()
    case UseSelf => x
    case UseSquare => Mul(x, x, n)
    case UseChain(c) => ChainRule(x, n, c.f0, c.f1)
  }

  lemma ComponentPowI(x: DualVec, n: nat, k: int, i: nat)
    requires Valid(x, n) && (k >= 0 || x.re != 0.0) && i < n
    ensures Component(PowI(x, n, k), n, i) == Dual.PowI(Component(x, n, i), k)
  {
    if k == 2 {
      ComponentMul(x, x, n, i);
    }
  }

  /** powi(0) of (0, [1, 1]) is one, whose eps reads as [0, 0]. */
  lemma PowIZeroTest()
    ensures Valid(New(0.0, Der.Some([[1.0], [1.0]])), 2)
    ensures PowI(New(0.0, Der.Some([[1.0], [1.0]])), 2, 0).re == 1.0
    ensures Component(PowI(New(0.0, Der.Some([[1.0], [1.0]])), 2, 0), 2, 0).eps == 0.0
    ensures Component(PowI(New(0.0, Der.Some([[1.0], [1.0]])), 2, 0), 2, 1).eps == 0.0
  {
  }

  /** `==` and `partial_cmp` look at the real parts only. */
  predicate Eq(x: DualVec, y: DualVec) {
    x.re == y.re
  }

  function PartialCmp(x: DualVec, y: DualVec): (o: W.Ordering)
    ensures o == W.Equal <==> Eq(x, y)
    ensures o == W.Less <==> x.re < y.re
    ensures o == W.Greater <==> y.re < x.re
  {
    if x.re < y.re then W.Less else if x.re == y.re then W.Equal else W.Greater
  }

  /** `abs`: the number itself when its real part is positive, else its negation. */
  function Abs(x: DualVec, n: nat): (z: DualVec)
    requires Valid(x, n)
    ensures Valid(z, n) && z.re >= 0.0 && (z == x || z == Neg(x, n))
  {
    if x.re >= 0.0 then x else Neg(x, n)
  }

  /** `copysign`: |self| when the sign's real part is positive, else -|self|. */
  function Copysign(x: DualVec, sign: DualVec, n: nat): (z: DualVec)
    requires Valid(x, n)
    ensures Valid(z, n)
    ensures sign.re >= 0.0 ==> z == Abs(x, n) && z.re >= 0.0
    ensures sign.re < 0.0 ==> z == Neg(Abs(x, n), n) && z.re <= 0.0
  {
    if sign.re >= 0.0 then Abs(x, n) else Neg(Abs(x, n), n)
  }

  /** `max`, `min` and `clamp` choose a whole operand by comparing real parts;
      ties keep self. */
  function Max(x: DualVec, y: DualVec): (z: DualVec)
    ensures z == x || z == y
    ensures z.re >= x.re && z.re >= y.re
    ensures y.re <= x.re ==> z == x
  {
    if PartialCmp(y, x) == W.Greater then y else x
  }

  function Min(x: DualVec, y: DualVec): (z: DualVec)
    ensures z == x || z == y
    ensures z.re <= x.re && z.re <= y.re
    ensures x.re <= y.re ==> z == x
  {
    if PartialCmp(y, x) == W.Less then y else x
  }

  function Clamp(x: DualVec, lo: DualVec, hi: DualVec): (z: DualVec)
    ensures z == x || z == lo || z == hi
    ensures lo.re <= hi.re ==> lo.re <= z.re <= hi.re
    ensures lo.re <= x.re <= hi.re ==> z == x
  {
    if PartialCmp(x, lo) == W.Less then lo
    else if PartialCmp(x, hi) == W.Greater then hi
    else x
  }
}
