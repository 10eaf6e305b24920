/** The arbitrary-order scalar number `HDScal` of src/hd_scal.rs: the value
    of a function and its first NDIM − 1 derivatives along one direction,
    entry k being the k-th derivative. The order is fixed by a marker type
    D0..D5, so NDIM is 1 to 6 and all numbers of one computation have the
    same length. Products follow Leibniz's rule with binomial weights; an
    elementary function is applied by the marker's chain rule (Faà di
    Bruno's formula) to the table of its derivatives, which the loops of
    `recip`, `powi`, `exp`, `ln`, `sin` and the others build.
    Up to the third derivative every rule is that of Dual3; the relation
    `Agrees` carries that correspondence through each operation. */
module HDScal {
  import W = Wrappers
  import D = Derivatives
  import Dual3

  datatype HDScal = HDScal(v: seq<real>)

  /** The lengths of the markers D0..D5. */
  predicate Valid(x: HDScal) {
    1 <= |x.v| <= 6
  }

  /** `new(x)` and `From<T>`: the value followed by NDIM − 1 zeros. */
  function New(re: real, ndim: nat): (x: HDScal)
    requires 1 <= ndim <= 6
    ensures Valid(x) && |x.v| == ndim && x.v[0] == re
    ensures forall k :: 1 <= k < ndim ==> x.v[k] == 0.0
    ensures Agrees(x, Dual3.FromRe(re))
  {
    HDScal(seq(ndim, k => if k == 0 then re else 0.0))
  }

  /** `derive`: entry 1 becomes one and the others are kept; a D0 number has
      no entry 1 (the source indexes out of bounds). */
  function Derive(x: HDScal): (y: HDScal)
    requires |x.v| >= 2
    ensures |y.v| == |x.v| && y.v[1] == 1.0
    ensures forall k :: 0 <= k < |x.v| && k != 1 ==> y.v[k] == x.v[k]
  {
    HDScal(x.v[1 := 1.0])
  }

  /** `zero()`: NDIM zeros, which is the constant zero. */
  function Zero(ndim: nat): (z: HDScal)
    requires 1 <= ndim <= 6
    ensures z == New(0.0, ndim)
  {
    HDScal(seq(ndim, _ => 0.0))
  }

  function One(ndim: nat): HDScal
    requires 1 <= ndim <= 6
  {
    New(1.0, ndim)
  }

  /** `is_zero`: every entry is zero; `is_one`: entry 0 is one and every
      later entry is zero. */
  predicate IsZero(x: HDScal) {
    forall k :: 0 <= k < |x.v| ==> x.v[k] == 0.0
  }

  predicate IsOne(x: HDScal)
    requires |x.v| >= 1
  {
    (forall k :: 1 <= k < |x.v| ==> x.v[k] == 0.0) && x.v[0] == 1.0
  }

  lemma IsZeroIsOne(x: HDScal)
    requires Valid(x)
    ensures IsZero(x) <==> x == Zero(|x.v|)
    ensures IsOne(x) <==> x == One(|x.v|)
  {
  }

  /** Entry k of a third-order number, and of a coefficient table. */
  function Part(d: Dual3.Dual3, k: nat): real {
    if k == 0 then d.re else if k == 1 then d.v1 else if k == 2 then d.v2 else d.v3
  }

  function CoeffPart(c: D.Coeffs, k: nat): real {
    if k == 0 then c.f0 else if k == 1 then c.f1 else if k == 2 then c.f2 else c.f3
  }

  /** x agrees with the third-order number d on every entry x has, up to
      the third derivative. */
  predicate Agrees(x: HDScal, d: Dual3.Dual3) {
    forall k :: 0 <= k < |x.v| && k < 4 ==> x.v[k] == Part(d, k)
  }

  /** The same between a table of derivatives and a Dual3 coefficient table. */
  predicate TableAgrees(f: HDScal, c: D.Coeffs) {
    forall k :: 0 <= k < |f.v| && k < 4 ==> f.v[k] == CoeffPart(c, k)
  }

  /** The first four entries as a Dual3; missing entries read as zero. */
  function Lift(x: HDScal): (d: Dual3.Dual3)
    ensures Agrees(x, d)
    ensures |x.v| >= 4 ==> forall e :: Agrees(x, e) ==> e == d
  {
    Dual3.Dual3(if |x.v| > 0 then x.v[0] else 0.0, if |x.v| > 1 then x.v[1] else 0.0,
                if |x.v| > 2 then x.v[2] else 0.0, if |x.v| > 3 then x.v[3] else 0.0)
  }

  // ---------------------------------------------------------------------
  // The chain rules of D0..D5

  /** Faà di Bruno's formula for the fourth and fifth derivative of f∘g,
      from the derivatives f1.. of f at g(x) and g1.. of g at x. */
  function Compose4(f1: real, f2: real, f3: real, f4: real, g1: real, g2: real, g3: real, g4: real): real {
    f4 * g1 * g1 * g1 * g1 + 6.0 * f3 * g1 * g1 * g2 + 4.0 * f2 * g1 * g3 + 3.0 * f2 * g2 * g2 + f1 * g4
  }

  function Compose5(f1: real, f2: real, f3: real, f4: real, f5: real,
                    g1: real, g2: real, g3: real, g4: real, g5: real): real {
    f5 * g1 * g1 * g1 * g1 * g1 + 10.0 * f4 * g1 * g1 * g1 * g2 + 10.0 * f3 * g1 * g1 * g3
    + 15.0 * f3 * g1 * g2 * g2 + 10.0 * f2 * g2 * g3 + 5.0 * f2 * g1 * g4 + f1 * g5
  }

  /** Entry k of the chain rule; entries 1..3 are the Dual3 slots. */
  function ChainEntry(k: nat, g: seq<real>, f: seq<real>): real
    requires k < |g| && k < |f| && k < 6
  {
    if k == 0 then f[0]
    else if k == 1 then D.Compose1(f[1], g[1])
    else if k == 2 then D.Compose2(f[1], f[2], g[1], g[2])
    else if k == 3 then D.Compose3(f[1], f[2], f[3], g[1], g[2], g[3])
    else if k == 4 then Compose4(f[1], f[2], f[3], f[4], g[1], g[2], g[3], g[4])
    else Compose5(f[1], f[2], f[3], f[4], f[5], g[1], g[2], g[3], g[4], g[5])
  }

  /** `D::chain_rule(x, f)`: f holds the applied function's value and
      derivatives at the value of x, as many as x has entries. */
  function ChainRule(x: HDScal, f: HDScal): (y: HDScal)
    requires Valid(x) && |f.v| == |x.v|
    ensures |y.v| == |x.v| && y.v[0] == f.v[0]
  {
    HDScal(seq(|x.v|, k requires 0 <= k < |x.v| => ChainEntry(k, x.v, f.v)))
  }

  /** The number `new(a).derive()`: derivative one, higher derivatives zero. */
  predicate Seeded(x: HDScal) {
    |x.v| >= 1 && forall k :: 1 <= k < |x.v| ==> x.v[k] == (if k == 1 then 1.0 else 0.0)
  }

  lemma SeededEntry(k: nat, g: seq<real>, f: seq<real>)
    requires k < |g| && k < |f| && k < 6
    requires forall j :: 1 <= j < |g| ==> g[j] == (if j == 1 then 1.0 else 0.0)
    ensures ChainEntry(k, g, f) == f[k]
  {
    if k >= 1 {
      assert g[1] == 1.0;
    }
    if k >= 2 {
      assert g[2] == 0.0;
    }
    if k >= 3 {
      assert g[3] == 0.0;
    }
    if k >= 4 {
      assert g[4] == 0.0;
    }
    if k >= 5 {
      assert g[5] == 0.0;
    }
  }

  /** On a seeded number the chain rule returns the table itself: the
      entries of f(x) are f and its derivatives at x. */
  lemma ChainRuleSeeded(x: HDScal, f: HDScal)
    requires Valid(x) && |f.v| == |x.v| && Seeded(x)
    ensures ChainRule(x, f) == f
  {
    forall k | 0 <= k < |x.v|
      ensures ChainRule(x, f).v[k] == f.v[k]
    {
      SeededEntry(k, x.v, f.v);
    }
  }

  lemma SeededNew(a: real, ndim: nat)
    requires 2 <= ndim <= 6
    ensures Seeded(Derive(New(a, ndim)))
  {
  }

  lemma IdentityEntry(k: nat, g: seq<real>, f: seq<real>)
    requires k < |g| && k < |f| && k < 6 && 1 < |f|
    requires f[0] == g[0] && f[1] == 1.0 && forall j :: 2 <= j < |f| ==> f[j] == 0.0
    ensures ChainEntry(k, g, f) == g[k]
  {
    if k >= 2 {
      assert f[2] == 0.0;
    }
    if k >= 3 {
      assert f[3] == 0.0;
    }
    if k >= 4 {
      assert f[4] == 0.0;
    }
    if k >= 5 {
      assert f[5] == 0.0;
    }
  }

  /** The chain rule with the identity's table, `derive(new(x0))`, gives
      the number back. */
  lemma ChainRuleIdentity(x: HDScal)
    requires Valid(x) && |x.v| >= 2
    ensures ChainRule(x, Derive(New(x.v[0], |x.v|))) == x
  {
    var f := Derive(New(x.v[0], |x.v|));
    forall k | 0 <= k < |x.v|
      ensures ChainRule(x, f).v[k] == x.v[k]
    {
      IdentityEntry(k, x.v, f.v);
    }
  }

  /** A lower-order number is the prefix of a higher-order one: the chain
      rules of D0..D5 agree on the entries they share. */
  lemma ChainRulePrefix(x: HDScal, f: HDScal, m: nat)
    requires Valid(x) && |f.v| == |x.v| && 1 <= m <= |x.v|
    ensures ChainRule(HDScal(x.v[..m]), HDScal(f.v[..m])) == HDScal(ChainRule(x, f).v[..m])
  {
    var y, y' := ChainRule(x, f), ChainRule(HDScal(x.v[..m]), HDScal(f.v[..m]));
    forall k | 0 <= k < m
      ensures y'.v[k] == y.v[k]
    {
      PrefixEntry(k, x.v, f.v, m);
    }
  }

  lemma PrefixEntry(k: nat, g: seq<real>, f: seq<real>, m: nat)
    requires k < m <= |g| && m <= |f| && k < 6
    ensures ChainEntry(k, g[..m], f[..m]) == ChainEntry(k, g, f)
  {
    var g', f' := g[..m], f[..m];
    forall j | 0 <= j <= k
      ensures g'[j] == g[j] && f'[j] == f[j]
    {
    }
  }

  /** Up to the third derivative the chain rule is that of Dual3. */
  lemma ChainRuleAgrees(x: HDScal, f: HDScal, dx: Dual3.Dual3, c: D.Coeffs)
    requires Valid(x) && |f.v| == |x.v|
    requires Agrees(x, dx) && TableAgrees(f, c)
    ensures Agrees(ChainRule(x, f), Dual3.Apply(dx, c))
  {
    var y := ChainRule(x, f);
    forall k | 0 <= k < |y.v| && k < 4
      ensures y.v[k] == Part(Dual3.Apply(dx, c), k)
    {
      if k >= 1 {
        assert x.v[1] == dx.v1 && f.v[1] == c.f1;
      }
      if k >= 2 {
        assert x.v[2] == dx.v2 && f.v[2] == c.f2;
      }
      if k >= 3 {
        assert x.v[3] == dx.v3 && f.v[3] == c.f3;
      }
    }
  }

  // ---------------------------------------------------------------------
  // Leibniz's rule

  /** The binomial coefficient C(n, k) by Pascal's rule. */
  function Binomial(n: nat, k: nat): (c: nat)
    ensures k > n ==> c == 0
    ensures k == n ==> c == 1
    ensures k == 1 ==> c == n
    ensures k + 1 == n ==> c == n
  {
    if k == 0 then 1 else if n == 0 then 0 else Binomial(n - 1, k - 1) + Binomial(n - 1, k)
  }

  /** The inner loop of `mul` after m steps: Σ_{j<m} a_j·b_{i−j}·C(i, j). */
  function LeibnizSum(a: seq<real>, b: seq<real>, i: nat, m: nat): real
    requires m <= i + 1 && i < |a| && i < |b|
  {
    if m == 0 then 0.0
    else LeibnizSum(a, b, i, m - 1) + a[m - 1] * b[i - (m - 1)] * (Binomial(i, m - 1) as real)
  }

  /** Entry i of the product: the i-th derivative of a product. */
  function Leibniz(a: seq<real>, b: seq<real>, i: nat): real
    requires i < |a| && i < |b|
  {
    LeibnizSum(a, b, i, i + 1)
  }

  /** The product as `mul` computes it: as many entries as the left
      operand, each read from the right operand at an index no larger. */
  function MulSpec(x: HDScal, y: HDScal): (z: HDScal)
    requires |x.v| <= |y.v|
    ensures |z.v| == |x.v|
  {
    HDScal(seq(|x.v|, i requires 0 <= i < |x.v| => Leibniz(x.v, y.v, i)))
  }

  /** `mul`: the nested loop over i and j ≤ i. */
  method Mul(x: HDScal, y: HDScal) returns (z: HDScal)
    requires |x.v| <= |y.v|
    ensures z == MulSpec(x, y)
  {
    var n := |x.v|;
    var res: seq<real> := [];
    for i := 0 to n
      invariant |res| == i
      invariant forall k :: 0 <= k < i ==> res[k] == Leibniz(x.v, y.v, k)
    {
      var s := 0.0;
      for j := 0 to i + 1
        invariant s == LeibnizSum(x.v, y.v, i, j)
      {
        s := s + x.v[j] * y.v[i - j] * (Binomial(i, j) as real);
      }
      res := res + [s];
    }
    z := HDScal(res);
  }

  /** The first four entries of the product are Dual3's product slots. */
  lemma LeibnizLow(a: seq<real>, b: seq<real>, i: nat)
    requires i < |a| && i < |b| && i < 4
    ensures i == 0 ==> Leibniz(a, b, i) == D.Product0(a[0], b[0])
    ensures i == 1 ==> Leibniz(a, b, i) == D.Product1(a[0], a[1], b[0], b[1])
    ensures i == 2 ==> Leibniz(a, b, i) == D.Product2(a[0], a[1], a[2], b[0], b[1], b[2])
    ensures i == 3 ==> Leibniz(a, b, i) == D.Product3(a[0], a[1], a[2], a[3], b[0], b[1], b[2], b[3])
  {
    assert Binomial(i, 0) == 1 && LeibnizSum(a, b, i, 0) == 0.0;
    var s1 := LeibnizSum(a, b, i, 1);
    assert s1 == a[0] * b[i] * 1.0;
    if i >= 1 {
      var s2 := LeibnizSum(a, b, i, 2);
      assert s2 == s1 + a[1] * b[i - 1] * (i as real);
      if i >= 2 {
        var s3 := LeibnizSum(a, b, i, 3);
        assert Binomial(i, 2) == if i == 2 then 1 else 3;
        assert s3 == s2 + a[2] * b[i - 2] * (if i == 2 then 1.0 else 3.0);
        if i == 3 {
          assert LeibnizSum(a, b, i, 4) == s3 + a[3] * b[0];
        }
      }
    }
  }

  /** Up to the third derivative the product is Dual3's. */
  lemma MulAgrees(x: HDScal, y: HDScal, dx: Dual3.Dual3, dy: Dual3.Dual3)
    requires |x.v| <= |y.v| && Agrees(x, dx) && Agrees(y, dy)
    ensures Agrees(MulSpec(x, y), Dual3.Mul(dx, dy))
  {
    var z := MulSpec(x, y);
    forall i | 0 <= i < |z.v| && i < 4
      ensures z.v[i] == Part(Dual3.Mul(dx, dy), i)
    {
      LeibnizLow(x.v, y.v, i);
      assert x.v[0] == dx.re && y.v[0] == dy.re;
      if i >= 1 {
        assert x.v[1] == dx.v1 && y.v[1] == dy.v1;
      }
      if i >= 2 {
        assert x.v[2] == dx.v2 && y.v[2] == dy.v2;
      }
      if i >= 3 {
        assert x.v[3] == dx.v3 && y.v[3] == dy.v3;
      }
    }
  }

  /** Against a constant (zero derivatives) only the last term of each sum
      remains: a_i·b_0. */
  lemma {:induction false} LeibnizSumConstRight(a: seq<real>, b: seq<real>, i: nat, m: nat)
    requires m <= i && i < |a| && i < |b|
    requires forall t :: 1 <= t < |b| ==> b[t] == 0.0
    ensures LeibnizSum(a, b, i, m) == 0.0
  {
    if m > 0 {
      LeibnizSumConstRight(a, b, i, m - 1);
      assert b[i - (m - 1)] == 0.0;
    }
  }

  /** A constant on the left keeps only the first term: a_0·b_i. */
  lemma {:induction false} LeibnizSumConstLeft(a: seq<real>, b: seq<real>, i: nat, m: nat)
    requires 1 <= m <= i + 1 && i < |a| && i < |b|
    requires forall t :: 1 <= t < |a| ==> a[t] == 0.0
    ensures LeibnizSum(a, b, i, m) == a[0] * b[i]
  {
    if m > 1 {
      LeibnizSumConstLeft(a, b, i, m - 1);
      assert a[m - 1] == 0.0;
    }
  }

  /** Entry i of a product with a constant on one side. */
  lemma LeibnizConst(a: seq<real>, b: seq<real>, i: nat)
    requires i < |a| && i < |b|
    ensures (forall t :: 1 <= t < |b| ==> b[t] == 0.0) ==> Leibniz(a, b, i) == a[i] * b[0]
    ensures (forall t :: 1 <= t < |a| ==> a[t] == 0.0) ==> Leibniz(a, b, i) == a[0] * b[i]
  {
    if forall t :: 1 <= t < |b| ==> b[t] == 0.0 {
      LeibnizSumConstRight(a, b, i, i);
      assert Leibniz(a, b, i) == LeibnizSum(a, b, i, i) + a[i] * b[0] * (Binomial(i, i) as real);
    }
    if forall t :: 1 <= t < |a| ==> a[t] == 0.0 {
      LeibnizSumConstLeft(a, b, i, i + 1);
    }
  }

  /** Multiplying by the constant k on either side scales every entry:
      the product agrees with the scalar product, and one is its unit. */
  lemma MulConstant(x: HDScal, k: real)
    requires Valid(x)
    ensures MulSpec(x, New(k, |x.v|)) == MulReal(x, k)
    ensures MulSpec(New(k, |x.v|), x) == MulReal(x, k)
  {
    var c := New(k, |x.v|);
    forall i | 0 <= i < |x.v|
      ensures MulSpec(x, c).v[i] == MulReal(x, k).v[i]
    {
      LeibnizConst(x.v, c.v, i);
    }
    assert MulSpec(x, c).v == MulReal(x, k).v;
    MulConstantLeft(x, c, k);
  }

  lemma MulConstantLeft(x: HDScal, c: HDScal, k: real)
    requires Valid(x) && c == New(k, |x.v|)
    ensures MulSpec(c, x) == MulReal(x, k)
  {
    forall i | 0 <= i < |x.v|
      ensures MulSpec(c, x).v[i] == MulReal(x, k).v[i]
    {
      LeibnizConst(c.v, x.v, i);
    }
    assert MulSpec(c, x).v == MulReal(x, k).v;
  }

  lemma MulOne(x: HDScal)
    requires Valid(x)
    ensures MulSpec(x, One(|x.v|)) == x
  {
    MulConstant(x, 1.0);
  }

  // ---------------------------------------------------------------------
  // Sums, negation and scalars

  /** `add` and `sub` zip the entries, stopping at the shorter operand. */
  function Add(x: HDScal, y: HDScal): (z: HDScal)
    ensures |z.v| == if |x.v| <= |y.v| then |x.v| else |y.v|
    ensures forall k :: 0 <= k < |z.v| ==> z.v[k] == x.v[k] + y.v[k]
  {
    HDScal(seq(if |x.v| <= |y.v| then |x.v| else |y.v|, k requires 0 <= k < |x.v| && k < |y.v| => x.v[k] + y.v[k]))
  }

  function Sub(x: HDScal, y: HDScal): (z: HDScal)
    ensures |z.v| == if |x.v| <= |y.v| then |x.v| else |y.v|
    ensures forall k :: 0 <= k < |z.v| ==> z.v[k] == x.v[k] - y.v[k]
  {
    HDScal(seq(if |x.v| <= |y.v| then |x.v| else |y.v|, k requires 0 <= k < |x.v| && k < |y.v| => x.v[k] - y.v[k]))
  }

  /** Subtraction undoes addition for numbers of one order. */
  lemma AddSubInverse(x: HDScal, y: HDScal)
    requires |x.v| == |y.v|
    ensures Sub(Add(x, y), y) == x
  {
    assert Sub(Add(x, y), y).v == x.v;
  }

  /** `-&x`: every entry negated. */
  function Neg(x: HDScal): (y: HDScal)
    ensures |y.v| == |x.v|
    ensures Valid(x) ==> Add(x, y) == Zero(|x.v|)
    ensures forall k :: 0 <= k < |x.v| ==> y.v[k] == -x.v[k]
  {
    HDScal(seq(|x.v|, k requires 0 <= k < |x.v| => -x.v[k]))
  }

  /** `-x` on an owned number: the entries are negated in place. */
  method NegInPlace(x: HDScal) returns (y: HDScal)
    ensures y == Neg(x)
  {
    y := x;
    var k := 0;
    while k < |y.v|
      invariant 0 <= k <= |y.v| == |x.v|
      invariant forall j :: 0 <= j < k ==> y.v[j] == -x.v[j]
      invariant forall j :: k <= j < |y.v| ==> y.v[j] == x.v[j]
    {
      y := y.(v := y.v[k := -y.v[k]]);
      k := k + 1;
    }
  }

  /** `x * k` and `x / k`: every entry scaled. */
  function MulReal(x: HDScal, k: real): (z: HDScal)
    ensures |z.v| == |x.v|
    ensures forall i :: 0 <= i < |x.v| ==> z.v[i] == x.v[i] * k
  {
    HDScal(seq(|x.v|, i requires 0 <= i < |x.v| => x.v[i] * k))
  }

  function DivReal(x: HDScal, k: real): (z: HDScal)
    requires k != 0.0
    ensures |z.v| == |x.v|
    ensures forall i :: 0 <= i < |x.v| ==> z.v[i] == x.v[i] / k
  {
    HDScal(seq(|x.v|, i requires 0 <= i < |x.v| => x.v[i] / k))
  }

  /** Dividing by k is multiplying by 1/k, and undoes multiplying by k. */
  lemma DivRealInverse(x: HDScal, k: real)
    requires k != 0.0
    ensures DivReal(x, k) == MulReal(x, 1.0 / k)
    ensures DivReal(MulReal(x, k), k) == x
  {
    forall i | 0 <= i < |x.v|
      ensures DivReal(x, k).v[i] == MulReal(x, 1.0 / k).v[i]
      ensures DivReal(MulReal(x, k), k).v[i] == x.v[i]
    {
      DivIsMulRecip(x.v[i], k);
    }
    assert DivReal(x, k).v == MulReal(x, 1.0 / k).v;
    assert DivReal(MulReal(x, k), k).v == x.v;
  }

  lemma DivIsMulRecip(a: real, k: real)
    requires k != 0.0
    ensures a / k == a * (1.0 / k) && a * k / k == a
  {
    var r := 1.0 / k;
    assert r * k == 1.0;
    assert (a / k) * k == a;
    assert (a * r) * k == a;
  }

  /** `x + k` and `x - k` write only entry 0 through `f0_mut`; that is
      adding the constant k. */
  method AddReal(x: HDScal, k: real) returns (y: HDScal)
    requires Valid(x)
    ensures y == Add(x, New(k, |x.v|))
  {
    y := x;
    y := y.(v := y.v[0 := y.v[0] + k]);
  }

  method SubReal(x: HDScal, k: real) returns (y: HDScal)
    requires Valid(x)
    ensures y == Sub(x, New(k, |x.v|))
  {
    y := x;
    y := y.(v := y.v[0 := y.v[0] - k]);
  }

  // ---------------------------------------------------------------------
  // Tables of derivatives built by loops: powers

  /** The falling factorial a(a − 1)…(a − k + 1). */
  function Falling(a: real, k: nat): real {
    if k == 0 then 1.0 else Falling(a, k - 1) * (a - (k - 1) as real)
  }

  /** The k-th derivative of y ↦ f0·(y/x)^a at y = x, with rec = 1/x:
      f0·a(a − 1)…(a − k + 1)·rec^k. */
  function PowerTerm(f0: real, a: real, rec: real, k: nat): real {
    f0 * Falling(a, k) * D.Pow(rec, k)
  }

  function PowerTable(f0: real, a: real, rec: real, len: nat): (t: seq<real>)
    ensures |t| == len
  {
    seq(len, k requires 0 <= k < len => PowerTerm(f0, a, rec, k))
  }

  lemma PowerTermStep(f0: real, a: real, rec: real, k: nat)
    ensures PowerTerm(f0, a, rec, k + 1) == (a - k as real) * PowerTerm(f0, a, rec, k) * rec
  {
    Rearrange(f0, Falling(a, k), D.Pow(rec, k), a - k as real, rec);
  }

  lemma Rearrange(f0: real, p: real, q: real, b: real, rec: real)
    ensures f0 * (p * b) * (q * rec) == b * (f0 * p * q) * rec
  {
  }

  /** The loop shared by `recip`, `powi`, `powf`, `sqrt` and `cbrt`: f0
      first, then f_{i+1} = (a − i)·f_i·rec. */
  method PowerCoeffs(f0: real, a: real, rec: real, len: nat) returns (f: seq<real>)
    requires len >= 1
    ensures f == PowerTable(f0, a, rec, len)
  {
    var c := f0;
    f := [c];
    var i := 0;
    while i < len - 1
      invariant 0 <= i <= len - 1 && |f| == i + 1
      invariant c == PowerTerm(f0, a, rec, i)
      invariant forall k :: 0 <= k <= i ==> f[k] == PowerTerm(f0, a, rec, k)
    {
      PowerTermStep(f0, a, rec, i);
      c := (a - i as real) * c * rec;
      f := f + [c];
      i := i + 1;
    }
  }

  /** The table solves x·f' = (a − k)·f at every order: x·f_{k+1} = (a − k)·f_k. */
  lemma PowerTableRecurrence(f0: real, a: real, x: real, len: nat, k: nat)
    requires x != 0.0 && k + 1 < len
    ensures PowerTable(f0, a, 1.0 / x, len)[k + 1] * x == (a - k as real) * PowerTable(f0, a, 1.0 / x, len)[k]
  {
    var rec := 1.0 / x;
    PowerTermStep(f0, a, rec, k);
    var t := PowerTerm(f0, a, rec, k);
    assert (a - k as real) * t * rec * x == (a - k as real) * t * (rec * x);
  }

  /** Any Dual3 table with the same value that solves the same recurrence
      is the first four entries of the power table. */
  lemma PowerTableAgrees(f0: real, a: real, x: real, len: nat, c: D.Coeffs)
    requires x != 0.0 && c.f0 == f0
    requires c.f1 * x == a * c.f0 && c.f2 * x == (a - 1.0) * c.f1 && c.f3 * x == (a - 2.0) * c.f2
    ensures TableAgrees(HDScal(PowerTable(f0, a, 1.0 / x, len)), c)
  {
    var t := PowerTable(f0, a, 1.0 / x, len);
    forall k | 0 <= k < len && k < 4
      ensures t[k] == CoeffPart(c, k)
    {
      PowerTableUpTo(f0, a, x, len, c, k);
    }
  }

  lemma {:induction false} PowerTableUpTo(f0: real, a: real, x: real, len: nat, c: D.Coeffs, k: nat)
    requires x != 0.0 && c.f0 == f0
    requires c.f1 * x == a * c.f0 && c.f2 * x == (a - 1.0) * c.f1 && c.f3 * x == (a - 2.0) * c.f2
    requires k < len && k < 4
    ensures PowerTable(f0, a, 1.0 / x, len)[k] == CoeffPart(c, k)
  {
    var t := PowerTable(f0, a, 1.0 / x, len);
    if k == 0 {
      assert t[0] == f0 * 1.0 * 1.0;
    } else {
      var j: nat := k - 1;
      PowerTableUpTo(f0, a, x, len, c, j);
      PowerTableRecurrence(f0, a, x, len, j);
      CoeffRecurrence(a, x, c, k);
      var tk, tj, ck, cj := t[k], t[j], CoeffPart(c, k), CoeffPart(c, j);
      assert tk * x == (a - j as real) * tj;
      assert ck * x == (a - j as real) * cj;
      Cancel(tk, ck, x);
    }
  }

  lemma CoeffRecurrence(a: real, x: real, c: D.Coeffs, k: nat)
    requires c.f1 * x == a * c.f0 && c.f2 * x == (a - 1.0) * c.f1 && c.f3 * x == (a - 2.0) * c.f2
    requires 1 <= k < 4
    ensures CoeffPart(c, k) * x == (a - (k - 1) as real) * CoeffPart(c, k - 1)
  {
  }

  lemma Cancel(p: real, q: real, x: real)
    requires x != 0.0 && p * x == q * x
    ensures p == q
  {
    assert (p - q) * x == 0.0;
  }

  /** `recip`: the power table with exponent −1 from f0 = 1/x. */
  function RecipSpec(x: HDScal): (y: HDScal)
    requires Valid(x) && x.v[0] != 0.0
    ensures |y.v| == |x.v|
  {
    ChainRule(x, HDScal(PowerTable(1.0 / x.v[0], -1.0, 1.0 / x.v[0], |x.v|)))
  }

  lemma RecipAgrees(x: HDScal, dx: Dual3.Dual3)
    requires Valid(x) && x.v[0] != 0.0 && Agrees(x, dx)
    ensures Agrees(RecipSpec(x), Dual3.Recip(dx))
  {
    var a := x.v[0];
    D.RecipCoeffs(a);
    PowerTableAgrees(1.0 / a, -1.0, a, |x.v|, D.Recip(a));
    ChainRuleAgrees(x, HDScal(PowerTable(1.0 / a, -1.0, 1.0 / a, |x.v|)), dx, D.Recip(a));
  }

  method Recip(x: HDScal) returns (r: HDScal)
    requires Valid(x) && x.v[0] != 0.0
    ensures r == RecipSpec(x)
    ensures Agrees(r, Dual3.Recip(Lift(x)))
  {
    var rec := 1.0 / x.v[0];
    var f := PowerCoeffs(rec, -1.0, rec, |x.v|);
    r := ChainRule(x, HDScal(f));
    RecipAgrees(x, Lift(x));
  }

  /** `div`: the product with the divisor's reciprocal. */
  method Div(x: HDScal, y: HDScal) returns (z: HDScal)
    requires Valid(y) && |x.v| <= |y.v| && y.v[0] != 0.0
    ensures z == MulSpec(x, RecipSpec(y))
    ensures Agrees(z, Dual3.Div(Lift(x), Lift(y)))
  {
    var r := Recip(y);
    z := Mul(x, r);
    MulAgrees(x, r, Lift(x), Dual3.Recip(Lift(y)));
  }

  /** Division undoes multiplication up to the third derivative, and
      entirely for the orders D0..D3. */
  lemma MulDivInverse(x: HDScal, y: HDScal)
    requires Valid(y) && |x.v| == |y.v| && y.v[0] != 0.0
    ensures Agrees(MulSpec(MulSpec(x, RecipSpec(y)), y), Lift(x))
    ensures |x.v| <= 4 ==> MulSpec(MulSpec(x, RecipSpec(y)), y) == x
  {
    var dx, dy := Lift(x), Lift(y);
    var q := MulSpec(x, RecipSpec(y));
    RecipAgrees(y, dy);
    MulAgrees(x, RecipSpec(y), dx, Dual3.Recip(dy));
    MulAgrees(q, y, Dual3.Div(dx, dy), dy);
    Dual3.MulDivInverse(dx, dy);
    var z := MulSpec(q, y);
    if |x.v| <= 4 {
      forall k | 0 <= k < |x.v|
        ensures z.v[k] == x.v[k]
      {
        assert z.v[k] == Part(dx, k);
      }
      assert z.v == x.v;
    }
  }

  // ---------------------------------------------------------------------
  // powi

  /** The k-th derivative of y ↦ y^n at a: n(n − 1)…(n − k + 1)·a^(n−k),
      which is zero once k exceeds a non-negative n. */
  function PowTerm(a: real, n: int, k: nat): real
    requires n >= 0 || a != 0.0
  {
    if n >= 0 && k > n then 0.0 else Falling(n as real, k) * D.PowInt(a, n - k)
  }

  function PowTable(a: real, n: int, len: nat): (t: seq<real>)
    requires n >= 0 || a != 0.0
    ensures |t| == len
  {
    seq(len, k requires 0 <= k < len => PowTerm(a, n, k))
  }

  /** The falling factorial of a natural n vanishes past n. */
  lemma {:induction false} FallingVanishes(n: nat, k: nat)
    requires k > n
    ensures Falling(n as real, k) == 0.0
  {
    if k - 1 > n {
      FallingVanishes(n, k - 1);
    }
  }

  /** Dividing by a lowers the exponent by one. */
  lemma PowIntDown(a: real, m: int, j: int)
    requires a != 0.0 && j == m - 1
    ensures D.PowInt(a, m) * (1.0 / a) == D.PowInt(a, j)
  {
    var p, p' := D.PowInt(a, j), D.PowInt(a, m);
    assert p * a == p' by {
      D.PowIntStep(a, j, m);
    }
    DivStep(p, p', a);
  }

  lemma DivStep(p: real, p': real, a: real)
    requires p * a == p' && a != 0.0
    ensures p' * (1.0 / a) == p
  {
    assert a * (1.0 / a) == 1.0;
    assert p' * (1.0 / a) == p * (a * (1.0 / a));
  }

  /** The loop of `powi` away from zero builds the derivatives of y^n. */
  lemma PowerTableIsPowTable(a: real, n: int, len: nat)
    requires a != 0.0
    ensures PowerTable(D.PowInt(a, n), n as real, 1.0 / a, len) == PowTable(a, n, len)
  {
    var b, r := n as real, 1.0 / a;
    var s, t := PowerTable(D.PowInt(a, n), b, r, len), PowTable(a, n, len);
    forall j: nat | j + 1 < len
      ensures RecStep(s, b, r, j) && RecStep(t, b, r, j)
    {
      PowerTableStep(D.PowInt(a, n), b, r, len, j);
      PowTableStep(a, n, len, j);
    }
    if len > 0 {
      PowTermFirst(a, n);
    }
    forall k | 0 <= k < len
      ensures s[k] == t[k]
    {
      SameRecurrence(s, t, b, r, k);
    }
  }

  lemma PowerTableStep(f0: real, a: real, rec: real, len: nat, j: nat)
    requires j + 1 < len
    ensures RecStep(PowerTable(f0, a, rec, len), a, rec, j)
  {
    PowerTermStep(f0, a, rec, j);
  }

  lemma PowTableStep(a: real, n: int, len: nat, j: nat)
    requires a != 0.0 && j + 1 < len
    ensures RecStep(PowTable(a, n, len), n as real, 1.0 / a, j)
  {
    var t := PowTable(a, n, len);
    assert t[j] == PowTerm(a, n, j) && t[j + 1] == PowTerm(a, n, j + 1);
    PowTermStep(a, n, j);
  }

  /** Entry j + 1 of s is (b − j)·s_j·r. */
  predicate RecStep(s: seq<real>, b: real, r: real, j: nat)
    requires j + 1 < |s|
  {
    s[j + 1] == (b - j as real) * s[j] * r
  }

  /** Two tables with the same first entry and the same recurrence agree. */
  lemma {:induction false} SameRecurrence(s: seq<real>, t: seq<real>, b: real, r: real, k: nat)
    requires |s| == |t| && k < |s| && s[0] == t[0]
    requires forall j: nat :: j + 1 < |s| ==> RecStep(s, b, r, j) && RecStep(t, b, r, j)
    ensures s[k] == t[k]
  {
    if k > 0 {
      SameRecurrence(s, t, b, r, k - 1);
      assert RecStep(s, b, r, k - 1) && RecStep(t, b, r, k - 1);
    }
  }

  lemma PowTermFirst(a: real, n: int)
    requires a != 0.0
    ensures PowerTerm(D.PowInt(a, n), n as real, 1.0 / a, 0) == PowTerm(a, n, 0)
  {
  }

  /** The recurrence of the derivatives of y ↦ y^n. */
  lemma PowTermStep(a: real, n: int, k: nat)
    requires a != 0.0
    ensures PowTerm(a, n, k + 1) == ((n as real) - k as real) * PowTerm(a, n, k) * (1.0 / a)
  {
    if n >= 0 && k > n {
      PowTermStepPast(a, n, k);
    } else if n >= 0 && k == n {
      PowTermStepLast(a, n, k);
    } else {
      PowTermStepInside(a, n, k);
    }
  }

  lemma PowTermStepPast(a: real, n: int, k: nat)
    requires a != 0.0 && n >= 0 && k > n
    ensures PowTerm(a, n, k + 1) == ((n as real) - k as real) * PowTerm(a, n, k) * (1.0 / a)
  {
  }

  lemma PowTermStepLast(a: real, n: int, k: nat)
    requires a != 0.0 && n >= 0 && k == n
    ensures PowTerm(a, n, k + 1) == ((n as real) - k as real) * PowTerm(a, n, k) * (1.0 / a)
  {
    assert (n as real) - k as real == 0.0;
  }

  lemma PowTermStepInside(a: real, n: int, k: nat)
    requires a != 0.0 && (n < 0 || k < n)
    ensures PowTerm(a, n, k + 1) == ((n as real) - k as real) * PowTerm(a, n, k) * (1.0 / a)
  {
    var f, p, q := Falling(n as real, k), D.PowInt(a, n - k), D.PowInt(a, n - (k + 1));
    PowIntDown(a, n - k, n - (k + 1));
    Regroup(f, p, (n as real) - k as real, 1.0 / a, q);
  }

  lemma Regroup(f: real, p: real, b: real, r: real, q: real)
    requires p * r == q
    ensures (f * b) * q == b * (f * p) * r
  {
    assert (f * b) * (p * r) == b * (f * p) * r;
  }

  /** A loop valid at every point: the falling factorial is kept and each
      entry takes its own power of a. */
  method PowCoeffs(a: real, n: int, len: nat) returns (f: seq<real>)
    requires n >= 0 || a != 0.0
    ensures f == PowTable(a, n, len)
  {
    f := [];
    var c := 1.0;
    var i := 0;
    while i < len
      invariant 0 <= i <= len && |f| == i && c == Falling(n as real, i)
      invariant forall k :: 0 <= k < i ==> f[k] == PowTerm(a, n, k)
    {
      var t := if n >= 0 && i > n then 0.0 else c * D.PowInt(a, n - i);
      f := f + [t];
      c := c * (n as real - i as real);
      i := i + 1;
    }
  }

  /** `powi(n)` with the derivatives of y^n, defined at a zero value for
      every n ≥ 0. */
  function PowISpec(x: HDScal, n: int): (y: HDScal)
    requires Valid(x) && (n >= 0 || x.v[0] != 0.0)
    ensures |y.v| == |x.v|
  {
    ChainRule(x, HDScal(PowTable(x.v[0], n, |x.v|)))
  }

  method PowI(x: HDScal, n: int) returns (y: HDScal)
    requires Valid(x) && (n >= 0 || x.v[0] != 0.0)
    ensures y == PowISpec(x, n)
    ensures Agrees(y, Dual3.PowI(Lift(x), n))
  {
    var f := PowCoeffs(x.v[0], n, |x.v|);
    y := ChainRule(x, HDScal(f));
    PowIAgrees(x, n, Lift(x));
  }

  /** `powi` as the source writes it: f0 = x0^n and f_{i+1} = (n − i)·f_i/x0.
      At x0 = 0 the factor 1/x0 is infinite and every derivative entry is
      NaN (0·∞), which is `None` here; so is x0^n for n < 0. */
  function PowIAsWritten(x: HDScal, n: int): (r: W.Option<HDScal>)
    requires Valid(x)
    ensures r.None? <==> x.v[0] == 0.0 && (|x.v| >= 2 || n < 0)
  {
    if x.v[0] == 0.0 && (|x.v| >= 2 || n < 0) then W.None
    else if x.v[0] == 0.0 then W.Some(ChainRule(x, HDScal([D.PowInt(0.0, n)])))
    else W.Some(ChainRule(x, HDScal(PowerTable(D.PowInt(x.v[0], n), n as real, 1.0 / x.v[0], |x.v|))))
  }

  /** Wherever the written loop is defined it computes PowISpec. */
  lemma PowIAsWrittenAgrees(x: HDScal, n: int)
    requires Valid(x) && PowIAsWritten(x, n).Some?
    ensures n >= 0 || x.v[0] != 0.0
    ensures PowIAsWritten(x, n) == W.Some(PowISpec(x, n))
  {
    if x.v[0] != 0.0 {
      PowerTableIsPowTable(x.v[0], n, |x.v|);
    } else {
      assert PowTable(0.0, n, 1) == [D.PowInt(0.0, n)];
    }
  }

  /** The number (0, 1, 0) squared: the written loop yields NaN where the
      second derivative 2 belongs. */
  lemma PowIAsWrittenAtZero()
    ensures PowIAsWritten(Derive(New(0.0, 3)), 2).None?
    ensures PowISpec(Derive(New(0.0, 3)), 2) == HDScal([0.0, 0.0, 2.0])
  {
    var x := Derive(New(0.0, 3));
    SeededNew(0.0, 3);
    ChainRuleSeeded(x, HDScal(PowTable(0.0, 2, 3)));
    assert D.PowInt(0.0, 2) == 0.0 * 0.0;
    assert D.PowInt(0.0, 1) == 0.0;
    assert D.PowInt(0.0, 0) == 1.0;
    assert Falling(2.0, 2) == 2.0;
    assert PowTable(0.0, 2, 3) == [0.0, 0.0, 2.0];
  }

  /** Up to the third derivative `powi` is Dual3's, special cases included. */
  lemma PowIAgrees(x: HDScal, n: int, dx: Dual3.Dual3)
    requires Valid(x) && (n >= 0 || x.v[0] != 0.0) && Agrees(x, dx)
    ensures Agrees(PowISpec(x, n), Dual3.PowI(dx, n))
  {
    var a := x.v[0];
    var f := HDScal(PowTable(a, n, |x.v|));
    var c := if n == 0 then D.Const(1.0) else if n == 1 then D.Identity(a)
             else if n == 2 then D.Square(a) else D.Falling(a, n as real, D.PowInt(a, n - 3));
    PowTableAgrees(a, n, |x.v|, c);
    ChainRuleAgrees(x, f, dx, c);
    Dual3.ChainRuleIdentity(dx, 1.0);
    if n == 2 {
      D.PowISquare(a);
      Dual3.ChainRuleMul(dx, D.Identity(a), D.Identity(a));
    }
  }

  lemma PowTableAgrees(a: real, n: int, len: nat, c: D.Coeffs)
    requires n >= 0 || a != 0.0
    requires c == if n == 0 then D.Const(1.0) else if n == 1 then D.Identity(a)
                  else if n == 2 then D.Square(a) else D.Falling(a, n as real, D.PowInt(a, n - 3))
    ensures TableAgrees(HDScal(PowTable(a, n, len)), c)
  {
    forall k | 0 <= k < len && k < 4
      ensures PowTerm(a, n, k) == CoeffPart(c, k)
    {
      PowTermLow(a, n, k, c);
    }
  }

  lemma PowTermLow(a: real, n: int, k: nat, c: D.Coeffs)
    requires n >= 0 || a != 0.0
    requires k < 4
    requires c == if n == 0 then D.Const(1.0) else if n == 1 then D.Identity(a)
                  else if n == 2 then D.Square(a) else D.Falling(a, n as real, D.PowInt(a, n - 3))
    ensures PowTerm(a, n, k) == CoeffPart(c, k)
  {
    if n == 0 || n == 1 || n == 2 {
      PowTermSpecial(a, n, k);
    } else {
      PowTermChain(a, n, k);
    }
  }

  /** y^0, y^1 and y^2: the tables of one, the identity and the square. */
  lemma PowTermSpecial(a: real, n: int, k: nat)
    requires 0 <= n <= 2 && k < 4
    ensures n == 0 ==> PowTerm(a, n, k) == CoeffPart(D.Const(1.0), k)
    ensures n == 1 ==> PowTerm(a, n, k) == CoeffPart(D.Identity(a), k)
    ensures n == 2 ==> PowTerm(a, n, k) == CoeffPart(D.Square(a), k)
  {
    var m := n as real;
    assert D.PowInt(a, 0) == 1.0 && D.PowInt(a, 1) == a && D.PowInt(a, 2) == a * a;
    if k > n {
      FallingVanishes(n, k);
    } else if k == 1 {
      assert Falling(m, 1) == m;
    } else if k == 2 {
      assert Falling(m, 2) == m * (m - 1.0);
    }
  }

  lemma PowTermChain(a: real, n: int, k: nat)
    requires (n >= 3 || (n < 0 && a != 0.0)) && k < 4
    ensures PowTerm(a, n, k) == CoeffPart(D.Falling(a, n as real, D.PowInt(a, n - 3)), k)
  {
    if k == 0 {
      PowTermChain0(a, n);
    } else if k == 1 {
      PowTermChain1(a, n);
    } else if k == 2 {
      PowTermChain2(a, n);
    } else {
      PowTermChain3(a, n);
    }
  }

  lemma PowTermChain0(a: real, n: int)
    requires n >= 3 || (n < 0 && a != 0.0)
    ensures PowTerm(a, n, 0) == D.Falling(a, n as real, D.PowInt(a, n - 3)).f0
  {
    D.PowILeading(a, n);
  }

  lemma PowTermChain1(a: real, n: int)
    requires n >= 3 || (n < 0 && a != 0.0)
    ensures PowTerm(a, n, 1) == D.Falling(a, n as real, D.PowInt(a, n - 3)).f1
  {
    D.PowISlope(a, n);
    assert Falling(n as real, 1) == n as real;
  }

  lemma PowTermChain2(a: real, n: int)
    requires n >= 3 || (n < 0 && a != 0.0)
    ensures PowTerm(a, n, 2) == D.Falling(a, n as real, D.PowInt(a, n - 3)).f2
  {
    D.PowICurvature(a, n);
    FallingTwo(n as real);
  }

  lemma PowTermChain3(a: real, n: int)
    requires n >= 3 || (n < 0 && a != 0.0)
    ensures PowTerm(a, n, 3) == D.Falling(a, n as real, D.PowInt(a, n - 3)).f3
  {
    FallingSlot3(a, n as real, D.PowInt(a, n - 3));
  }

  /** The falling factorial of m to second and third order. */
  lemma FallingTwo(m: real)
    ensures Falling(m, 2) == m * (m - 1.0)
  {
    assert Falling(m, 1) == m;
  }

  lemma FallingThree(m: real)
    ensures Falling(m, 3) == m * (m - 1.0) * (m - 2.0)
  {
    FallingTwo(m);
  }

  /** The last entry of the table, m(m − 1)(m − 2)·a^(m−3), is the third
      coefficient built from a^(m−3). */
  lemma FallingSlot3(a: real, m: real, p3: real)
    ensures Falling(m, 3) * p3 == D.Falling(a, m, p3).f3
  {
    FallingThree(m);
  }

  /** new(1.2).derive().powi(6) of order D5: (1.2^6, 6·1.2^5, 30·1.2^4,
      120·1.2^3, 360·1.2^2, 720·1.2). */
  lemma PowIDoc()
    ensures PowISpec(Derive(New(1.2, 6)), 6) == HDScal([2.985984, 14.92992, 62.208, 207.36, 518.4, 864.0])
  {
    var x := Derive(New(1.2, 6));
    SeededNew(1.2, 6);
    ChainRuleSeeded(x, HDScal(PowTable(1.2, 6, 6)));
    assert D.PowInt(1.2, 1) == 1.2;
    assert D.PowInt(1.2, 2) == 1.44;
    assert D.PowInt(1.2, 3) == 1.728;
    assert D.PowInt(1.2, 4) == 2.0736;
    assert D.PowInt(1.2, 5) == 2.48832;
    assert D.PowInt(1.2, 6) == 2.985984;
    assert Falling(6.0, 5) == 720.0;
    assert PowTable(1.2, 6, 6) == [2.985984, 14.92992, 62.208, 207.36, 518.4, 864.0];
  }

  /** new(1.2).derive().recip() of order D5: (−1)^k·k!/1.2^(k+1). */
  lemma RecipDoc()
    ensures RecipSpec(Derive(New(1.2, 6)))
         == HDScal([5.0 / 6.0, -25.0 / 36.0, 125.0 / 108.0, -625.0 / 216.0, 3125.0 / 324.0, -78125.0 / 1944.0])
  {
    var x := Derive(New(1.2, 6));
    var r := 1.0 / 1.2;
    assert r == 5.0 / 6.0;
    SeededNew(1.2, 6);
    ChainRuleSeeded(x, HDScal(PowerTable(r, -1.0, r, 6)));
    assert D.Pow(r, 5) == 3125.0 / 7776.0;
    assert Falling(-1.0, 5) == -120.0;
    assert PowerTable(r, -1.0, r, 6)
        == [5.0 / 6.0, -25.0 / 36.0, 125.0 / 108.0, -625.0 / 216.0, 3125.0 / 324.0, -78125.0 / 1944.0];
  }
}
