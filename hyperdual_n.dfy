/** The `HyperDualN` of src/hyperdual_n.rs: a real part, a gradient row of
    N first derivatives and the N×N Hessian, for second derivatives of a
    function of one vector. It is the HyperDualMN whose two directions are
    the same vector (eps1 = eps2 = gradient, eps1eps2 = Hessian), and its
    rules are proved to be that number's rules. */
module HyperDualN {
  import M = Matrix
  import D = Derivatives
  import Dual
  import HD = HyperDual
  import E = Entries
  import MN = HyperDualMN

  datatype HyperDualN = HyperDualN(re: real, gradient: M.Mat, hessian: M.Mat)

  predicate Valid(x: HyperDualN, n: nat) {
    M.Shaped(x.gradient, 1, n) && M.Shaped(x.hessian, n, n)
  }

  /** `new`: the number from its three parts. */
  function New(re: real, gradient: M.Mat, hessian: M.Mat): (x: HyperDualN)
    ensures x.re == re && x.gradient == gradient && x.hessian == hessian
  {
    HyperDualN(re, gradient, hessian)
  }

  /** The same number as a HyperDualMN with both directions the gradient. */
  function ToMN(x: HyperDualN): (y: MN.HyperDualMN)
    ensures y.re == x.re && y.eps1 == x.gradient && y.eps2 == x.gradient && y.eps1eps2 == x.hessian
  {
    MN.New(x.re, x.gradient, x.gradient, x.hessian)
  }

  /** Entry (i, j): the hyper-dual number (re, gradient[i], gradient[j],
      hessian[i][j]). */
  function Entry(x: HyperDualN, n: nat, i: nat, j: nat): (h: HD.HyperDual)
    requires Valid(x, n) && i < n && j < n
    ensures h == MN.Entry(ToMN(x), n, n, i, j)
  {
    HD.HyperDual(x.re, x.gradient[0][i], x.gradient[0][j], x.hessian[i][j])
  }

  /** `from_re`: gradient and Hessian zero. */
  function FromRe(re: real, n: nat): (x: HyperDualN)
    ensures Valid(x, n) && ToMN(x) == MN.FromRe(re, n, n)
  {
    New(re, M.Zeros(1, n), M.Zeros(n, n))
  }

  /** `derive(i)`: gradient[i] = 1 on an owned copy; an index past N panics. */
  function Derive(x: HyperDualN, n: nat, i: nat): (y: HyperDualN)
    requires Valid(x, n) && i < n
    ensures Valid(y, n) && y.re == x.re && y.hessian == x.hessian
    ensures y.gradient[0][i] == 1.0 && forall k :: 0 <= k < n && k != i ==> y.gradient[0][k] == x.gradient[0][k]
  {
    x.(gradient := [x.gradient[0][i := 1.0]])
  }

  /** The vector `derive` of `StaticVec<HyperDualN, N>`: entry i gets
      gradient[i] = 1. */
  method DeriveVec(xs: array<HyperDualN>)
    requires forall i :: 0 <= i < xs.Length ==> Valid(xs[i], xs.Length)
    modifies xs
    ensures forall i :: 0 <= i < xs.Length ==> Valid(old(xs[i]), xs.Length) && xs[i] == Derive(old(xs[i]), xs.Length, i)
  {
    for i := 0 to xs.Length
      invariant forall k :: 0 <= k < i ==> xs[k] == Derive(old(xs[k]), xs.Length, k)
      invariant forall k :: i <= k < xs.Length ==> xs[k] == old(xs[k])
    {
      xs[i] := xs[i].(gradient := [xs[i].gradient[0][i := 1.0]]);
    }
  }

  /** The chain rule: (f0, gradient·f1, hessian·f1 + gradientᵀ·gradient·f2). */
  function ChainRule(x: HyperDualN, n: nat, f0: real, f1: real, f2: real): (y: HyperDualN)
    requires Valid(x, n)
    ensures Valid(y, n)
  {
    New(f0, M.Scale(x.gradient, f1, 1, n),
        M.Add(M.Scale(x.hessian, f1, n, n), M.Scale(M.TrMul(x.gradient, x.gradient, 1, n, n), f2, n, n), n, n))
  }

  /** hessian'·a + gradientᵀ·gradient' + gradient'ᵀ·gradient. */
  function Cross(x: HyperDualN, y: HyperDualN, n: nat): (c: M.Mat)
    requires Valid(x, n) && Valid(y, n)
    ensures M.Shaped(c, n, n)
  {
    M.Add(M.Add(M.Scale(y.hessian, x.re, n, n), M.TrMul(x.gradient, y.gradient, 1, n, n), n, n),
          M.TrMul(y.gradient, x.gradient, 1, n, n), n, n)
  }

  /** The product rule. */
  function Mul(x: HyperDualN, y: HyperDualN, n: nat): (z: HyperDualN)
    requires Valid(x, n) && Valid(y, n)
    ensures Valid(z, n)
  {
    New(Dual.Times(x.re, y.re),
        M.Add(M.Scale(y.gradient, x.re, 1, n), M.Scale(x.gradient, y.re, 1, n), 1, n),
        M.Add(Cross(x, y, n), M.Scale(x.hessian, y.re, n, n), n, n))
  }

  /** The quotient rule with inv = 1/b and inv2 = inv²; a zero divisor is
      excluded. */
  function Div(x: HyperDualN, y: HyperDualN, n: nat): (z: HyperDualN)
    requires Valid(x, n) && Valid(y, n) && y.re != 0.0
    ensures Valid(z, n)
  {
    var inv := E.Inverse(y.re);
    var inv2 := E.Square(inv);
    New(Dual.Ratio(x.re, y.re),
        M.Scale(M.Sub(M.Scale(x.gradient, y.re, 1, n), M.Scale(y.gradient, x.re, 1, n), 1, n), inv2, 1, n),
        M.Add(M.Sub(M.Scale(x.hessian, inv, n, n), M.Scale(Cross(x, y, n), inv2, n, n), n, n),
              M.Scale(M.TrMul(y.gradient, y.gradient, 1, n, n), E.OuterWeight(x.re, inv), n, n), n, n))
  }

  /** `powi` through the shared coefficient table and its special cases. */
  function PowI(x: HyperDualN, n: nat, k: int): (y: HyperDualN)
    requires Valid(x, n) && (k >= 0 || x.re != 0.0)
    ensures Valid(y, n)
  {
    match D.PowI(x.re, k)
    case UseOne => FromRe(1.0, n)
    case UseSelf => x
    case UseSquare => Mul(x, x, n)
    case UseChain(c) => ChainRule(x, n, c.f0, c.f1, c.f2)
  }

  /** Each rule commutes with the view as a HyperDualMN. */
  lemma ToMNChainRule(x: HyperDualN, n: nat, f0: real, f1: real, f2: real)
    requires Valid(x, n)
    ensures MN.Valid(ToMN(x), n, n)
    ensures ToMN(ChainRule(x, n, f0, f1, f2)) == MN.ChainRule(ToMN(x), n, n, f0, f1, f2)
  {
  }

  lemma ToMNMul(x: HyperDualN, y: HyperDualN, n: nat)
    requires Valid(x, n) && Valid(y, n)
    ensures MN.Valid(ToMN(x), n, n) && MN.Valid(ToMN(y), n, n)
    ensures ToMN(Mul(x, y, n)) == MN.Mul(ToMN(x), ToMN(y), n, n)
  {
  }

  lemma ToMNDiv(x: HyperDualN, y: HyperDualN, n: nat)
    requires Valid(x, n) && Valid(y, n) && y.re != 0.0
    ensures MN.Valid(ToMN(x), n, n) && MN.Valid(ToMN(y), n, n)
    ensures ToMN(Div(x, y, n)) == MN.Div(ToMN(x), ToMN(y), n, n)
  {
  }

  lemma ToMNPowI(x: HyperDualN, n: nat, k: int)
    requires Valid(x, n) && (k >= 0 || x.re != 0.0)
    ensures MN.Valid(ToMN(x), n, n)
    ensures ToMN(PowI(x, n, k)) == MN.PowI(ToMN(x), n, n, k)
  {
    match D.PowI(x.re, k)
    case UseOne =>
    case UseSelf =>
    case UseSquare =>
      ToMNMul(x, x, n);
    case UseChain(c) =>
      ToMNChainRule(x, n, c.f0, c.f1, c.f2);
  }

  /** Every entry of the product, quotient and `powi` is the hyper-dual
      product, quotient and `powi` of the entries. */
  lemma EntryMul(x: HyperDualN, y: HyperDualN, n: nat, i: nat, j: nat)
    requires Valid(x, n) && Valid(y, n) && i < n && j < n
    ensures Entry(Mul(x, y, n), n, i, j) == HD.Mul(Entry(x, n, i, j), Entry(y, n, i, j))
  {
    ToMNMul(x, y, n);
    MN.EntryMul(ToMN(x), ToMN(y), n, n, i, j);
  }

  lemma EntryDiv(x: HyperDualN, y: HyperDualN, n: nat, i: nat, j: nat)
    requires Valid(x, n) && Valid(y, n) && y.re != 0.0 && i < n && j < n
    ensures Entry(Div(x, y, n), n, i, j) == HD.Div(Entry(x, n, i, j), Entry(y, n, i, j))
  {
    ToMNDiv(x, y, n);
    MN.EntryDiv(ToMN(x), ToMN(y), n, n, i, j);
  }

  lemma EntryPowI(x: HyperDualN, n: nat, k: int, i: nat, j: nat)
    requires Valid(x, n) && (k >= 0 || x.re != 0.0) && i < n && j < n
    ensures Entry(PowI(x, n, k), n, i, j) == HD.PowI(Entry(x, n, i, j), k)
  {
    ToMNPowI(x, n, k);
    MN.EntryPowI(ToMN(x), n, n, k, i, j);
  }

  /** The Hessian is symmetric when the input's Hessian is: the two
      directions of every entry are the same gradient. */
  lemma MulKeepsSymmetry(x: HyperDualN, y: HyperDualN, n: nat, i: nat, j: nat)
    requires Valid(x, n) && Valid(y, n) && i < n && j < n
    requires x.hessian[i][j] == x.hessian[j][i] && y.hessian[i][j] == y.hessian[j][i]
    ensures Mul(x, y, n).hessian[i][j] == Mul(x, y, n).hessian[j][i]
  {
    EntryMul(x, y, n, i, j);
    EntryMul(x, y, n, j, i);
    MixedSwap(x.re, x.gradient[0][i], x.gradient[0][j], x.hessian[i][j],
              y.re, y.gradient[0][i], y.gradient[0][j], y.hessian[i][j]);
  }

  /** The mixed part of a product is unchanged when both factors swap
      their two directions. */
  lemma MixedSwap(a0: real, a1: real, a2: real, a12: real, b0: real, b1: real, b2: real, b12: real)
    ensures HD.MulMixed(a0, a2, a1, a12, b0, b2, b1, b12) == HD.MulMixed(a0, a1, a2, a12, b0, b1, b2, b12)
  {
  }

  /** The `powi` test: from(0).derive(0).derive(1) has every entry the
      hyper-dual (0, 1, 1, 0), so its square has gradient 0 and every
      Hessian entry 2. */
  lemma PowITest(x: HyperDualN, i: nat, j: nat)
    requires x == Derive(Derive(FromRe(0.0, 2), 2, 0), 2, 1)
    requires i < 2 && j < 2
    ensures Valid(x, 2)
    ensures PowI(x, 2, 2).re == 0.0 && PowI(x, 2, 2).gradient[0][i] == 0.0 && PowI(x, 2, 2).hessian[i][j] == 2.0
  {
    assert Entry(x, 2, i, j) == HD.HyperDual(0.0, 1.0, 1.0, 0.0);
    EntryPowI(x, 2, 2, i, j);
    SquareOfSeed();
  }

  /** (0, 1, 1, 0)² = (0, 0, 0, 2). */
  lemma SquareOfSeed()
    ensures HD.PowI(HD.HyperDual(0.0, 1.0, 1.0, 0.0), 2) == HD.HyperDual(0.0, 0.0, 0.0, 2.0)
  {
    assert D.PowI(0.0, 2).UseSquare?;
  }
}
