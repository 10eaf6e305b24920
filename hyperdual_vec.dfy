/** The vector hyper-dual number of src/datatypes/hyperdual_vec.rs (and of
    its older copy src/hyperdual_vec.rs): a real part, an optional m x 1
    column eps1, an optional 1 x n row eps2 and an optional m x n matrix
    eps1eps2, absent meaning zero. Entry (i, j) of the number is a HyperDual
    number with eps1 along x_i and eps2 along y_j, and every rule acts on
    the entries one at a time. */
module HyperDualVec {
  import W = Wrappers
  import M = Matrix
  import Der = Derivative
  import D = Derivatives
  import Dual
  import HD = HyperDual
  import E = Entries

  datatype HyperDualVec = HyperDualVec(re: real, eps1: Der.Derivative, eps2: Der.Derivative, eps1eps2: Der.Derivative)

  predicate Valid(x: HyperDualVec, m: nat, n: nat) {
    Der.Fits(x.eps1, m, 1) && Der.Fits(x.eps2, 1, n) && Der.Fits(x.eps1eps2, m, n)
  }

  function New(re: real, eps1: Der.Derivative, eps2: Der.Derivative, eps1eps2: Der.Derivative): (x: HyperDualVec)
    ensures x.re == re && x.eps1 == eps1 && x.eps2 == eps2 && x.eps1eps2 == eps1eps2
  {
    HyperDualVec(re, eps1, eps2, eps1eps2)
  }

  /** A constant: every derivative part is absent. */
  function FromRe(re: real): (x: HyperDualVec)
    ensures x.re == re && x.eps1.value.None? && x.eps2.value.None? && x.eps1eps2.value.None?
  {
    New(re, Der.None(), Der.None(), Der.None())
  }

  function One(): HyperDualVec {
    FromRe(1.0)
  }

  /** Entry (i, j): the hyper-dual number with eps1 along x_i and eps2 along y_j. */
  function Entry(x: HyperDualVec, m: nat, n: nat, i: nat, j: nat): (h: HD.HyperDual)
    requires Valid(x, m, n) && i < m && j < n
  {
    HD.HyperDual(x.re, Der.At(x.eps1, m, 1, i, 0), Der.At(x.eps2, 1, n, 0, j), Der.At(x.eps1eps2, m, n, i, j))
  }

  /** The chain rule: (f0, eps1·f1, eps2·f1, eps1eps2·f1 + eps1·eps2·f2), where
      eps1·eps2 is the outer product of the column and the row. */
  function ChainRule(x: HyperDualVec, m: nat, n: nat, f0: real, f1: real, f2: real): (y: HyperDualVec)
    requires Valid(x, m, n)
    ensures Valid(y, m, n)
  {
    New(f0, Der.Scale(x.eps1, f1, m, 1), Der.Scale(x.eps2, f1, 1, n),
        Der.Add(Der.Scale(x.eps1eps2, f1, m, n), Der.Scale(Der.MatMul(x.eps1, x.eps2, m, 1, n), f2, m, n), m, n))
  }

  /** eps1eps2'·a + eps1·eps2' + eps1'·eps2: the terms the product and the
      quotient share. */
  function Cross(x: HyperDualVec, y: HyperDualVec, m: nat, n: nat): (c: Der.Derivative)
    requires Valid(x, m, n) && Valid(y, m, n)
    ensures Der.Fits(c, m, n)
  {
    Der.Add(Der.Add(Der.Scale(y.eps1eps2, x.re, m, n), Der.MatMul(x.eps1, y.eps2, m, 1, n), m, n),
            Der.MatMul(y.eps1, x.eps2, m, 1, n), m, n)
  }

  /** The product rule. */
  function Mul(x: HyperDualVec, y: HyperDualVec, m: nat, n: nat): (z: HyperDualVec)
    requires Valid(x, m, n) && Valid(y, m, n)
    ensures Valid(z, m, n)
  {
    New(Dual.Times(x.re, y.re),
        Der.Add(Der.Scale(y.eps1, x.re, m, 1), Der.Scale(x.eps1, y.re, m, 1), m, 1),
        Der.Add(Der.Scale(y.eps2, x.re, 1, n), Der.Scale(x.eps2, y.re, 1, n), 1, n),
        Der.Add(Cross(x, y, m, n), Der.Scale(x.eps1eps2, y.re, m, n), m, n))
  }

  /** The quotient rule, with inv = 1/b and inv2 = inv². */
  function Div(x: HyperDualVec, y: HyperDualVec, m: nat, n: nat): (z: HyperDualVec)
    requires Valid(x, m, n) && Valid(y, m, n) && y.re != 0.0
    ensures Valid(z, m, n)
  {
    var inv := E.Inverse(y.re);
    var inv2 := E.Square(inv);
    New(Dual.Ratio(x.re, y.re),
        Der.Scale(Der.Sub(Der.Scale(x.eps1, y.re, m, 1), Der.Scale(y.eps1, x.re, m, 1), m, 1), inv2, m, 1),
        Der.Scale(Der.Sub(Der.Scale(x.eps2, y.re, 1, n), Der.Scale(y.eps2, x.re, 1, n), 1, n), inv2, 1, n),
        Der.Add(Der.Sub(Der.Scale(x.eps1eps2, inv, m, n), Der.Scale(Cross(x, y, m, n), inv2, m, n), m, n),
                Der.Scale(Der.MatMul(y.eps1, y.eps2, m, 1, n), E.OuterWeight(x.re, inv), m, n), m, n))
  }

  /** `powi` through the shared coefficient table and its special cases. */
  function PowI(x: HyperDualVec, m: nat, n: nat, k: int): (y: HyperDualVec)
    requires Valid(x, m, n) && (k >= 0 || x.re != 0.0)
    ensures Valid(y, m, n)
  {
    match D.PowI(x.re, k)
    case UseOne => One()
    case UseSelf => x
    case UseSquare => Mul(x, x, m, n)
    case UseChain(c) => ChainRule(x, m, n, c.f0, c.f1, c.f2)
  }

  /** The real part of every entry is the number's real part. */
  lemma EntryRe(x: HyperDualVec, m: nat, n: nat, i: nat, j: nat)
    requires Valid(x, m, n) && i < m && j < n
    ensures Entry(x, m, n, i, j).re == x.re
  {
  }

  /** Every entry of the chain rule, product and quotient is the hyper-dual
      chain rule, product and quotient of the entries. */
  lemma EntryChainRule(x: HyperDualVec, m: nat, n: nat, f0: real, f1: real, f2: real, i: nat, j: nat)
    requires Valid(x, m, n) && i < m && j < n
    ensures Entry(ChainRule(x, m, n, f0, f1, f2), m, n, i, j) == HD.ChainRule(Entry(x, m, n, i, j), f0, f1, f2)
  {
    var e, q := Entry(ChainRule(x, m, n, f0, f1, f2), m, n, i, j), HD.ChainRule(Entry(x, m, n, i, j), f0, f1, f2);
    assert e.eps1 == q.eps1 by {
      E.ChainFirstAt(x.eps1, f1, m, 1, i, 0);
    }
    assert e.eps2 == q.eps2 by {
      E.ChainFirstAt(x.eps2, f1, 1, n, 0, j);
    }
    assert e.eps1eps2 == q.eps1eps2 by {
      E.ColumnRowOuter(x.eps1, x.eps2, m, n, i, j);
      E.ChainMixedAt(x.eps1eps2, Der.MatMul(x.eps1, x.eps2, m, 1, n), f1, f2,
                     Der.At(x.eps1, m, 1, i, 0), Der.At(x.eps2, 1, n, 0, j), m, n, i, j);
    }
  }

  lemma EntryMul(x: HyperDualVec, y: HyperDualVec, m: nat, n: nat, i: nat, j: nat)
    requires Valid(x, m, n) && Valid(y, m, n) && i < m && j < n
    ensures Entry(Mul(x, y, m, n), m, n, i, j) == HD.Mul(Entry(x, m, n, i, j), Entry(y, m, n, i, j))
  {
    var e, q := Entry(Mul(x, y, m, n), m, n, i, j), HD.Mul(Entry(x, m, n, i, j), Entry(y, m, n, i, j));
    EntryRe(x, m, n, i, j);
    EntryRe(y, m, n, i, j);
    EntryRe(Mul(x, y, m, n), m, n, i, j);
    assert e.eps1 == q.eps1 by {
      E.ProductAt(x.eps1, x.re, y.eps1, y.re, m, 1, i, 0);
    }
    assert e.eps2 == q.eps2 by {
      E.ProductAt(x.eps2, x.re, y.eps2, y.re, 1, n, 0, j);
    }
    assert e.eps1eps2 == q.eps1eps2 by {
      E.ColumnRowOuter(x.eps1, y.eps2, m, n, i, j);
      E.ColumnRowOuter(y.eps1, x.eps2, m, n, i, j);
      E.ProductMixedAt(y.eps1eps2, x.re, Der.MatMul(x.eps1, y.eps2, m, 1, n), Der.MatMul(y.eps1, x.eps2, m, 1, n),
                       x.eps1eps2, y.re, Der.At(x.eps1, m, 1, i, 0), Der.At(x.eps2, 1, n, 0, j),
                       Der.At(y.eps1, m, 1, i, 0), Der.At(y.eps2, 1, n, 0, j), m, n, i, j);
    }
  }

  lemma EntryDiv(x: HyperDualVec, y: HyperDualVec, m: nat, n: nat, i: nat, j: nat)
    requires Valid(x, m, n) && Valid(y, m, n) && y.re != 0.0 && i < m && j < n
    ensures Entry(Div(x, y, m, n), m, n, i, j) == HD.Div(Entry(x, m, n, i, j), Entry(y, m, n, i, j))
  {
    var e, q := Entry(Div(x, y, m, n), m, n, i, j), HD.Div(Entry(x, m, n, i, j), Entry(y, m, n, i, j));
    EntryRe(x, m, n, i, j);
    EntryRe(y, m, n, i, j);
    EntryRe(Div(x, y, m, n), m, n, i, j);
    assert e.eps1 == q.eps1 by {
      E.QuotientAt(x.eps1, x.re, y.eps1, y.re, m, 1, i, 0);
    }
    assert e.eps2 == q.eps2 by {
      E.QuotientAt(x.eps2, x.re, y.eps2, y.re, 1, n, 0, j);
    }
    assert e.eps1eps2 == q.eps1eps2 by {
      E.ColumnRowOuter(x.eps1, y.eps2, m, n, i, j);
      E.ColumnRowOuter(y.eps1, x.eps2, m, n, i, j);
      E.ColumnRowOuter(y.eps1, y.eps2, m, n, i, j);
      E.QuotientMixedAt(x.eps1eps2, y.eps1eps2, Der.MatMul(x.eps1, y.eps2, m, 1, n),
                        Der.MatMul(y.eps1, x.eps2, m, 1, n), Der.MatMul(y.eps1, y.eps2, m, 1, n), x.re, y.re,
                        Der.At(x.eps1, m, 1, i, 0), Der.At(x.eps2, 1, n, 0, j),
                        Der.At(y.eps1, m, 1, i, 0), Der.At(y.eps2, 1, n, 0, j), m, n, i, j);
    }
  }

  /** Entrywise, division undoes multiplication. */
  lemma MulDivInverse(x: HyperDualVec, y: HyperDualVec, m: nat, n: nat, i: nat, j: nat)
    requires Valid(x, m, n) && Valid(y, m, n) && y.re != 0.0 && i < m && j < n
    ensures Entry(Mul(Div(x, y, m, n), y, m, n), m, n, i, j) == Entry(x, m, n, i, j)
  {
    EntryDiv(x, y, m, n, i, j);
    EntryMul(Div(x, y, m, n), y, m, n, i, j);
    HD.MulDivInverse(Entry(x, m, n, i, j), Entry(y, m, n, i, j));
  }

  /** `powi` entry by entry is the hyper-dual `powi`. */
  lemma EntryPowI(x: HyperDualVec, m: nat, n: nat, k: int, i: nat, j: nat)
    requires Valid(x, m, n) && (k >= 0 || x.re != 0.0) && i < m && j < n
    ensures Entry(PowI(x, m, n, k), m, n, i, j) == HD.PowI(Entry(x, m, n, i, j), k)
  {
    match D.PowI(x.re, k)
    case UseOne =>
    case UseSelf =>
    case UseSquare =>
      EntryMul(x, x, m, n, i, j);
    case UseChain(c) =>
      EntryChainRule(x, m, n, c.f0, c.f1, c.f2, i, j);
  }

  /** The number of the `powi` tests: re 0, eps1 = [1, 1]ᵀ, eps2 = [1, 1],
      eps1eps2 absent. Each of its entries is the hyper-dual (0, 1, 1, 0). */
  lemma PowITestEntry(x: HyperDualVec, i: nat, j: nat)
    requires x == New(0.0, Der.Some([[1.0], [1.0]]), Der.Some([[1.0, 1.0]]), Der.None())
    requires i < 2 && j < 2
    ensures Valid(x, 2, 2) && Entry(x, 2, 2, i, j) == HD.HyperDual(0.0, 1.0, 1.0, 0.0)
  {
  }

  /** powi(0) is one in every part; powi(2) of (0, [1, 1]ᵀ, [1, 1]) has
      zero first-order parts and every mixed entry 2. */
  lemma PowITests(x: HyperDualVec, i: nat, j: nat)
    requires x == New(0.0, Der.Some([[1.0], [1.0]]), Der.Some([[1.0, 1.0]]), Der.None())
    requires i < 2 && j < 2
    ensures Valid(x, 2, 2)
    ensures Entry(PowI(x, 2, 2, 0), 2, 2, i, j) == HD.HyperDual(1.0, 0.0, 0.0, 0.0)
    ensures Entry(PowI(x, 2, 2, 2), 2, 2, i, j) == HD.HyperDual(0.0, 0.0, 0.0, 2.0)
  {
    PowITestEntry(x, i, j);
    EntryPowI(x, 2, 2, 0, i, j);
    EntryPowI(x, 2, 2, 2, i, j);
  }

  /** The derived `==` compares the containers themselves, so an absent part
      and a present zero matrix make two numbers unequal although every
      entry agrees. */
  lemma EqualityIsStructural(m: nat, n: nat, i: nat, j: nat)
    requires i < m && j < n
    ensures FromRe(1.0) != New(1.0, Der.Some(M.Zeros(m, 1)), Der.None(), Der.None())
    ensures Entry(FromRe(1.0), m, n, i, j) == Entry(New(1.0, Der.Some(M.Zeros(m, 1)), Der.None(), Der.None()), m, n, i, j)
  {
  }

  /** The seeded inputs of `try_partial_hessian`: x_k carries the unit
      column e_k in eps1, y_k the unit row e_k in eps2. */
  function SeededX(x: seq<real>): (s: seq<HyperDualVec>)
    ensures |s| == |x|
  {
    seq(|x|, k requires 0 <= k < |x| => New(x[k], Der.DerivativeGeneric(|x|, 1, k), Der.None(), Der.None()))
  }

  function SeededY(y: seq<real>): (s: seq<HyperDualVec>)
    ensures |s| == |y|
  {
    seq(|y|, k requires 0 <= k < |y| => New(y[k], Der.None(), Der.DerivativeGeneric(1, |y|, k), Der.None()))
  }

  /** Seeding x_k gives every entry (i, j) eps1 = 1 exactly when i = k, and
      no other derivative part: the hyper-dual number's first seed. */
  lemma SeededXEntry(x: seq<real>, n: nat, k: nat, i: nat, j: nat)
    requires k < |x| && i < |x| && j < n
    ensures Valid(SeededX(x)[k], |x|, n)
    ensures Entry(SeededX(x)[k], |x|, n, i, j) == HD.HyperDual(x[k], if i == k then 1.0 else 0.0, 0.0, 0.0)
    ensures Entry(SeededX(x)[k], |x|, n, k, j) == HD.Derivative1(HD.FromRe(x[k]))
  {
    assert k % |x| == k && k / |x| == 0;
  }

  lemma SeededYEntry(y: seq<real>, m: nat, k: nat, i: nat, j: nat)
    requires k < |y| && i < m && j < |y|
    ensures Valid(SeededY(y)[k], m, |y|)
    ensures Entry(SeededY(y)[k], m, |y|, i, j) == HD.HyperDual(y[k], 0.0, if j == k then 1.0 else 0.0, 0.0)
    ensures Entry(SeededY(y)[k], m, |y|, i, k) == HD.Derivative2(HD.FromRe(y[k]))
  {
    assert k % 1 == 0 && k / 1 == k;
  }

  /** The seeding loops of `try_partial_hessian`: every element starts as a
      constant, then the k-th one gets its unit derivative. */
  method Seed(x: seq<real>, y: seq<real>) returns (xs: seq<HyperDualVec>, ys: seq<HyperDualVec>)
    ensures xs == SeededX(x) && ys == SeededY(y)
  {
    xs := seq(|x|, k requires 0 <= k < |x| => FromRe(x[k]));
    var i := 0;
    while i < |xs|
      invariant 0 <= i <= |xs| == |x|
      invariant forall k :: 0 <= k < i ==> xs[k] == SeededX(x)[k]
      invariant forall k :: i <= k < |xs| ==> xs[k] == FromRe(x[k])
    {
      xs := xs[i := xs[i].(eps1 := Der.DerivativeGeneric(|x|, 1, i))];
      i := i + 1;
    }
    ys := seq(|y|, k requires 0 <= k < |y| => FromRe(y[k]));
    i := 0;
    while i < |ys|
      invariant 0 <= i <= |ys| == |y|
      invariant forall k :: 0 <= k < i ==> ys[k] == SeededY(y)[k]
      invariant forall k :: i <= k < |ys| ==> ys[k] == FromRe(y[k])
    {
      ys := ys[i := ys[i].(eps2 := Der.DerivativeGeneric(1, |y|, i))];
      i := i + 1;
    }
  }

  /** What `partial_hessian` returns: the value, the gradients in x and in
      y, and the mixed second partial derivatives. */
  datatype PartialHessian = PartialHessian(f: real, dfdx: seq<real>, dfdy: seq<real>, d2fdxdy: M.Mat)

  /** The parts of the result, each zero-filled when absent; eps2 is
      transposed into a plain vector. */
  function Extract(r: HyperDualVec, m: nat, n: nat): (h: PartialHessian)
    requires Valid(r, m, n)
    ensures |h.dfdx| == m && |h.dfdy| == n && M.Shaped(h.d2fdxdy, m, n)
    ensures forall i, j :: 0 <= i < m && 0 <= j < n ==>
              Entry(r, m, n, i, j) == HD.HyperDual(h.f, h.dfdx[i], h.dfdy[j], h.d2fdxdy[i][j])
  {
    PartialHessian(r.re, seq(m, i requires 0 <= i < m => Der.At(r.eps1, m, 1, i, 0)),
                   seq(n, j requires 0 <= j < n => Der.At(r.eps2, 1, n, 0, j)),
                   Der.UnwrapGeneric(r.eps1eps2, m, n))
  }

  /** `try_partial_hessian`: g is evaluated once on the seeded inputs; its
      error is passed on, its value is read off entry by entry. */
  method TryPartialHessian<Err>(g: (seq<HyperDualVec>, seq<HyperDualVec>) -> W.Result<HyperDualVec, Err>,
                                x: seq<real>, y: seq<real>) returns (r: W.Result<PartialHessian, Err>)
    requires forall a, b :: g(a, b).Ok? ==> Valid(g(a, b).value, |a|, |b|)
    ensures g(SeededX(x), SeededY(y)).Err? ==> r == W.Err(g(SeededX(x), SeededY(y)).error)
    ensures g(SeededX(x), SeededY(y)).Ok? ==> r == W.Ok(Extract(g(SeededX(x), SeededY(y)).value, |x|, |y|))
  {
    var xs, ys := Seed(x, y);
    var v := g(xs, ys);
    match v
    case Err(e) => r := W.Err(e);
    case Ok(res) => r := W.Ok(Extract(res, |x|, |y|));
  }

  /** `partial_hessian`: the same with a function that cannot fail. */
  method PartialHessianOf(g: (seq<HyperDualVec>, seq<HyperDualVec>) -> HyperDualVec, x: seq<real>, y: seq<real>)
    returns (h: PartialHessian)
    requires forall a, b :: Valid(g(a, b), |a|, |b|)
    ensures h == Extract(g(SeededX(x), SeededY(y)), |x|, |y|)
  {
    var r := TryPartialHessian<()>((a, b) => W.Ok(g(a, b)), x, y);
    h := r.value;
  }

  /** The derived `==` is structural. */
  predicate Eq(x: HyperDualVec, y: HyperDualVec) {
    x == y
  }
}
