/** The third-order number `HD3` of src/hd3.rs: a fixed array of four reals,
    the value and the first three derivative parts along one direction.
    Read as a Dual3 number it follows the rules of Dual3, which is how its
    properties are proved here. */
module HD3 {
  import W = Wrappers
  import D = Derivatives
  import Dual3

  /** The `[T; 4]` array. */
  type Quad = s: seq<real> | |s| == 4 witness [0.0, 0.0, 0.0, 0.0]

  datatype HD3 = HD3(v: Quad)

  /** The number as a Dual3, and back. */
  function AsDual3(x: HD3): (d: Dual3.Dual3)
    ensures d.re == x.v[0] && d.v1 == x.v[1] && d.v2 == x.v[2] && d.v3 == x.v[3]
  {
    Dual3.Dual3(x.v[0], x.v[1], x.v[2], x.v[3])
  }

  function Of(d: Dual3.Dual3): (x: HD3)
    ensures AsDual3(x) == d
  {
    HD3([d.re, d.v1, d.v2, d.v3])
  }

  lemma OfAsDual3(x: HD3)
    ensures Of(AsDual3(x)) == x
  {
    assert Of(AsDual3(x)).v == x.v;
  }

  /** `From<T>`: the value at index 0, zeros elsewhere. */
  function From(f: real): (x: HD3)
    ensures AsDual3(x) == Dual3.FromRe(f)
  {
    HD3([f, 0.0, 0.0, 0.0])
  }

  /** `derive`: index 1 becomes one. */
  function Derive(x: HD3): (y: HD3)
    ensures AsDual3(y) == Dual3.Derivative(AsDual3(x))
  {
    HD3(x.v[1 := 1.0])
  }

  function Zero(): HD3 {
    HD3([0.0, 0.0, 0.0, 0.0])
  }

  function One(): HD3 {
    HD3([1.0, 0.0, 0.0, 0.0])
  }

  /** `is_zero`: every entry is zero. */
  predicate IsZero(x: HD3) {
    forall i :: 0 <= i < 4 ==> x.v[i] == 0.0
  }

  /** `is_one`: index 0 is one and the rest are zero. */
  predicate IsOne(x: HD3) {
    (forall i :: 1 <= i < 4 ==> x.v[i] == 0.0) && x.v[0] == 1.0
  }

  lemma IsZeroIsOne(x: HD3)
    ensures IsZero(x) <==> x == Zero()
    ensures IsOne(x) <==> x == One()
  {
    if IsZero(x) {
      assert x.v == Zero().v;
    }
    if IsOne(x) {
      assert x.v == One().v;
    }
  }

  /** The chain rule: f0, f1·v1, f2·v1² + f1·v2, f3·v1³ + 3·f2·v1·v2 + f1·v3. */
  function ChainRule(x: HD3, f0: real, f1: real, f2: real, f3: real): (y: HD3)
    ensures AsDual3(y) == Dual3.ChainRule(AsDual3(x), f0, f1, f2, f3)
  {
    HD3([f0, D.Compose1(f1, x.v[1]), D.Compose2(f1, f2, x.v[1], x.v[2]),
         D.Compose3(f1, f2, f3, x.v[1], x.v[2], x.v[3])])
  }

  /** Leibniz's rule to third order. */
  function Mul(x: HD3, y: HD3): (z: HD3)
    ensures AsDual3(z) == Dual3.Mul(AsDual3(x), AsDual3(y))
  {
    HD3([D.Product0(x.v[0], y.v[0]), D.Product1(x.v[0], x.v[1], y.v[0], y.v[1]),
         D.Product2(x.v[0], x.v[1], x.v[2], y.v[0], y.v[1], y.v[2]),
         D.Product3(x.v[0], x.v[1], x.v[2], x.v[3], y.v[0], y.v[1], y.v[2], y.v[3])])
  }

  /** `recip`: the chain rule with 1/x, -1/x², 2/x³, -6/x⁴. */
  function Recip(x: HD3): (y: HD3)
    requires x.v[0] != 0.0
    ensures AsDual3(y) == Dual3.Recip(AsDual3(x))
  {
    var c := D.Recip(x.v[0]);
    ChainRule(x, c.f0, c.f1, c.f2, c.f3)
  }

  /** Division multiplies by the divisor under the reciprocal's chain rule. */
  function Div(x: HD3, y: HD3): (z: HD3)
    requires y.v[0] != 0.0
    ensures AsDual3(z) == Dual3.Div(AsDual3(x), AsDual3(y))
  {
    Mul(x, Recip(y))
  }

  /** A number times its reciprocal is one, and division inverts
      multiplication. */
  lemma RecipInverse(x: HD3)
    requires x.v[0] != 0.0
    ensures Mul(x, Recip(x)) == One()
  {
    Dual3.RecipInverse(AsDual3(x));
    OfAsDual3(Mul(x, Recip(x)));
  }

  lemma MulDivInverse(x: HD3, y: HD3)
    requires y.v[0] != 0.0
    ensures Mul(Div(x, y), y) == x
  {
    Dual3.MulDivInverse(AsDual3(x), AsDual3(y));
    OfAsDual3(Mul(Div(x, y), y));
    OfAsDual3(x);
  }

  function Add(x: HD3, y: HD3): (z: HD3)
    ensures forall i :: 0 <= i < 4 ==> z.v[i] == x.v[i] + y.v[i]
  {
    HD3([x.v[0] + y.v[0], x.v[1] + y.v[1], x.v[2] + y.v[2], x.v[3] + y.v[3]])
  }

  function Sub(x: HD3, y: HD3): (z: HD3)
    ensures forall i :: 0 <= i < 4 ==> z.v[i] == x.v[i] - y.v[i]
  {
    HD3([x.v[0] - y.v[0], x.v[1] - y.v[1], x.v[2] - y.v[2], x.v[3] - y.v[3]])
  }

  lemma AddSubInverse(x: HD3, y: HD3)
    ensures Sub(Add(x, y), y) == x
  {
    assert Sub(Add(x, y), y).v == x.v;
  }

  /** `&x * k` and `&x / k`: every entry is scaled, which is the product
      with (and the quotient by) the constant k. */
  function MulReal(x: HD3, k: real): (z: HD3)
    ensures forall i :: 0 <= i < 4 ==> z.v[i] == x.v[i] * k
  {
    HD3([x.v[0] * k, x.v[1] * k, x.v[2] * k, x.v[3] * k])
  }

  function DivReal(x: HD3, k: real): (z: HD3)
    requires k != 0.0
    ensures forall i :: 0 <= i < 4 ==> z.v[i] == x.v[i] / k
  {
    HD3([x.v[0] / k, x.v[1] / k, x.v[2] / k, x.v[3] / k])
  }

  lemma MulRealIsMul(x: HD3, k: real)
    ensures MulReal(x, k) == Mul(x, From(k))
  {
    assert MulReal(x, k).v == [x.v[0] * k, x.v[1] * k, x.v[2] * k, x.v[3] * k];
    assert Mul(x, From(k)).v == [D.Product0(x.v[0], k), D.Product1(x.v[0], x.v[1], k, 0.0),
      D.Product2(x.v[0], x.v[1], x.v[2], k, 0.0, 0.0), D.Product3(x.v[0], x.v[1], x.v[2], x.v[3], k, 0.0, 0.0, 0.0)];
    ProductsWithConstant(x.v[0], x.v[1], x.v[2], x.v[3], k);
  }

  /** Leibniz's slots against a constant k scale each coefficient by k. */
  lemma ProductsWithConstant(a0: real, a1: real, a2: real, a3: real, k: real)
    ensures D.Product0(a0, k) == a0 * k
    ensures D.Product1(a0, a1, k, 0.0) == a1 * k
    ensures D.Product2(a0, a1, a2, k, 0.0, 0.0) == a2 * k
    ensures D.Product3(a0, a1, a2, a3, k, 0.0, 0.0, 0.0) == a3 * k
  {
    assert a0 * 0.0 == 0.0 && a1 * 0.0 == 0.0 && a2 * 0.0 == 0.0;
    assert 2.0 * a1 * 0.0 == 0.0 && 3.0 * a2 * 0.0 == 0.0 && 3.0 * a1 * 0.0 == 0.0;
  }

  lemma DivRealIsDiv(x: HD3, k: real)
    requires k != 0.0
    ensures DivReal(x, k) == Div(x, From(k))
  {
    var r := 1.0 / k;
    assert Recip(From(k)) == From(r) by {
      assert Recip(From(k)).v == From(r).v;
    }
    MulRealIsMul(x, r);
    forall i | 0 <= i < 4
      ensures DivReal(x, k).v[i] == MulReal(x, r).v[i]
    {
      assert x.v[i] / k == x.v[i] * r;
    }
    assert DivReal(x, k).v == MulReal(x, r).v;
  }

  /** `x + k` and `x - k`: only index 0 changes, written through `f0_mut`;
      this is the sum with (difference from) the constant k. */
  method AddReal(x: HD3, k: real) returns (y: HD3)
    ensures y.v[0] == x.v[0] + k && y.v[1..] == x.v[1..]
    ensures y == Add(x, From(k))
  {
    var a := x.v;
    a := a[0 := x.v[0] + k];
    y := HD3(a);
    assert y.v == Add(x, From(k)).v;
  }

  method SubReal(x: HD3, k: real) returns (y: HD3)
    ensures y.v[0] == x.v[0] - k && y.v[1..] == x.v[1..]
    ensures y == Sub(x, From(k))
  {
    var a := x.v;
    a := a[0 := x.v[0] - k];
    y := HD3(a);
    assert y.v == Sub(x, From(k)).v;
  }

  /** `-&x`: every entry negated; it is the additive inverse. */
  function Neg(x: HD3): (y: HD3)
    ensures forall i :: 0 <= i < 4 ==> y.v[i] == -x.v[i]
    ensures Add(x, y) == Zero()
  {
    var y := HD3([-x.v[0], -x.v[1], -x.v[2], -x.v[3]]);
    assert Add(x, y).v == Zero().v;
    y
  }

  /** `-x` on an owned number: the entries are negated in place, one by one. */
  method NegInPlace(x: HD3) returns (y: HD3)
    ensures y == Neg(x)
  {
    var a: seq<real> := x.v;
    var i := 0;
    while i < 4
      invariant 0 <= i <= 4 && |a| == 4
      invariant forall k :: 0 <= k < i ==> a[k] == -x.v[k]
      invariant forall k :: i <= k < 4 ==> a[k] == x.v[k]
    {
      a := a[i := -a[i]];
      i := i + 1;
    }
    y := HD3(a);
    assert y.v == Neg(x).v;
  }

  /** `powi` as written: f3 = re^(n-3), f2 = f3·re, f1 = f2·re,
      f0 = f1·re, applied with the factors n, n(n-1), n(n-1)(n-2). At a zero
      real part with n < 3, re^(n-3) is infinite and the products that
      follow are not numbers; that case has no value here (None). */
  function PowIAsWritten(x: HD3, n: int): (r: W.Option<HD3>)
    ensures r.None? <==> x.v[0] == 0.0 && n < 3
  {
    var a := x.v[0];
    if a == 0.0 && n < 3 then W.None
    else
      var c := WrittenTable(a, n, D.PowInt(a, n - 3));
      W.Some(ChainRule(x, c.f0, c.f1, c.f2, c.f3))
  }

  /** `powi` with the special cases 0, 1 and 2 of the shared coefficient
      table, which need no negative power of the real part. */
  function PowI(x: HD3, n: int): (y: HD3)
    requires n >= 0 || x.v[0] != 0.0
    ensures AsDual3(y) == Dual3.PowI(AsDual3(x), n)
  {
    match D.PowI(x.v[0], n)
    case UseOne => One()
    case UseSelf => x
    case UseSquare => Mul(x, x)
    case UseChain(c) => ChainRule(x, c.f0, c.f1, c.f2, c.f3)
  }

  /** Wherever the formula as written has a value, it is `powi`. */
  lemma PowIAsWrittenAgrees(x: HD3, n: int)
    requires x.v[0] != 0.0 || n >= 3
    ensures PowIAsWritten(x, n) == W.Some(PowI(x, n))
  {
    var a := x.v[0];
    var p3 := D.PowInt(a, n - 3);
    var w := WrittenTable(a, n, p3);
    WrittenIsFalling(a, n, p3);
    if n == 0 || n == 1 || n == 2 {
      var d := AsDual3(x);
      LowPowers(a, n);
      Dual3.ChainRuleIdentity(d, 1.0);
      if n == 1 {
        assert w == D.Identity(a);
      } else if n == 2 {
        D.PowISquare(a);
        Dual3.ChainRuleMul(d, D.Identity(a), D.Identity(a));
        assert Dual3.Apply(d, w) == Dual3.Mul(d, d);
      }
      OfAsDual3(x);
      OfAsDual3(PowI(x, n));
      OfAsDual3(ChainRule(x, w.f0, w.f1, w.f2, w.f3));
    }
  }

  /** The coefficients `powi` computes from f3 = re^(n-3). */
  function WrittenTable(a: real, n: int, f3: real): D.Coeffs {
    var f2 := f3 * a;
    var f1 := f2 * a;
    var f0 := f1 * a;
    D.Coeffs(f0, n as real * f1, (n * (n - 1)) as real * f2, (n * (n - 1) * (n - 2)) as real * f3)
  }

  lemma WrittenIsFalling(a: real, n: int, p3: real)
    ensures WrittenTable(a, n, p3) == D.Falling(a, n as real, p3)
  {
    var r := n as real;
    assert (n * (n - 1)) as real == r * (r - 1.0);
    assert (n * (n - 1) * (n - 2)) as real == r * (r - 1.0) * (r - 2.0);
  }

  /** For n = 0, 1, 2 and a non-zero real part the falling-factorial table is
      that of a constant one, of the identity and of the square. */
  lemma LowPowers(a: real, n: int)
    requires a != 0.0 && 0 <= n <= 2
    ensures n == 0 ==> D.Falling(a, 0.0, D.PowInt(a, -3)) == D.Const(1.0)
    ensures n == 1 ==> D.Falling(a, 1.0, D.PowInt(a, -2)) == D.Identity(a)
    ensures n == 2 ==> D.Falling(a, 2.0, D.PowInt(a, -1)) == D.Square(a)
  {
    var r := 1.0 / a;
    assert r * a == 1.0;
    assert D.Pow(r, 1) == r;
    assert D.Pow(r, 2) == r * r;
    assert D.Pow(r, 3) == r * r * r;
    assert D.PowInt(a, -1) == r;
    assert D.PowInt(a, -2) == r * r;
    assert D.PowInt(a, -3) == r * r * r;
    assert r * r * r * a * a * a == (r * a) * (r * a) * (r * a);
    assert r * r * a * a == (r * a) * (r * a);
  }

  /** At a zero real part `powi(2)` as written has no value, while the
      square of the seeded number is (0, 0, 2, 0). */
  lemma PowIAsWrittenAtZero()
    ensures PowIAsWritten(Derive(From(0.0)), 2).None?
    ensures PowI(Derive(From(0.0)), 2) == HD3([0.0, 0.0, 2.0, 0.0])
  {
    assert PowI(Derive(From(0.0)), 2).v == [0.0, 0.0, 2.0, 0.0];
  }

  /** from(1.2).derive().recip() = (5/6, -25/36, 125/108, -625/216). */
  lemma RecipDoc()
    ensures Recip(Derive(From(1.2))) == HD3([5.0 / 6.0, -25.0 / 36.0, 125.0 / 108.0, -625.0 / 216.0])
  {
    assert Recip(Derive(From(1.2))).v == [5.0 / 6.0, -25.0 / 36.0, 125.0 / 108.0, -625.0 / 216.0];
  }

  /** from(1.2).derive().powi(6) = (2.985984, 14.92992, 62.208, 207.36). */
  lemma PowIDoc()
    ensures PowI(Derive(From(1.2)), 6) == HD3([2.985984, 14.92992, 62.208, 207.36])
  {
    assert D.PowInt(1.2, 3) == 1.728;
    assert PowI(Derive(From(1.2)), 6).v == [2.985984, 14.92992, 62.208, 207.36];
  }
}
