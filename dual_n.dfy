/** The `DualN` of src/dual_n.rs: a real part and a fixed-size vector of N
    derivative parts. It is the same value as the dense `DualVec` of
    src/dual_size.rs, whose rules serve as the specification here: the
    chain rule, the product and the quotient of DualN fill the eps array
    in a loop, and each loop is proved to build that rule. Direction i of
    the number is the scalar dual number (re, eps[i]). */
module DualN {
  import D = Derivatives
  import M = Matrix
  import Dual
  import DDV = DenseDualVec

  type DualN = DDV.DualVec

  /** `from_re`: the derivative parts are all zero. */
  function FromRe(re: real, n: nat): (x: DualN)
    ensures x.re == re && |x.eps| == n
    ensures forall i :: 0 <= i < n ==> DDV.Component(x, i) == Dual.Dual(re, 0.0)
  {
    DDV.DualVec(re, seq(n, _ => 0.0))
  }

  /** `derive(i)`: the owned copy gets eps[i] = 1; the other directions are
      kept. An index past N panics. */
  function Derive(x: DualN, i: nat): (y: DualN)
    requires i < |x.eps|
    ensures |y.eps| == |x.eps| && DDV.Component(y, i) == Dual.Dual(x.re, 1.0)
    ensures forall k :: 0 <= k < |x.eps| && k != i ==> DDV.Component(y, k) == DDV.Component(x, k)
  {
    x.(eps := x.eps[i := 1.0])
  }

  /** The chain rule: eps[i] = self.eps[i]·f1, entry by entry. */
  method ChainRule(x: DualN, f0: real, f1: real) returns (y: DualN)
    ensures y == DDV.ChainRule(x, f0, f1)
  {
    var n := |x.eps|;
    var eps := new real[n](_ => 0.0);
    ghost var r := DDV.ChainRule(x, f0, f1);
    for i := 0 to n
      invariant forall k :: 0 <= k < i ==> eps[k] == r.eps[k]
    {
      eps[i] := x.eps[i] * f1;
    }
    assert eps[..] == r.eps;
    y := DDV.DualVec(f0, eps[..]);
  }

  /** The product rule: eps[i] = self.eps[i]·other.re + other.eps[i]·self.re. */
  method Mul(x: DualN, y: DualN) returns (z: DualN)
    requires |x.eps| == |y.eps|
    ensures z == DDV.Mul(x, y)
  {
    var n := |x.eps|;
    var eps := new real[n](_ => 0.0);
    for i := 0 to n
      invariant forall k :: 0 <= k < i ==> eps[k] == Dual.ProductRule(x.re, x.eps[k], y.re, y.eps[k])
    {
      var e := x.eps[i] * y.re + y.eps[i] * x.re;
      assert e == Dual.ProductRule(x.re, x.eps[i], y.re, y.eps[i]);
      eps[i] := e;
    }
    z := DDV.DualVec(x.re * y.re, eps[..]);
  }

  /** (d·b − e·a)·inv2 with inv2 = inv·inv is the quotient rule. */
  lemma QuotientEntry(a: real, da: real, b: real, db: real, inv: real, inv2: real)
    requires b != 0.0 && inv == 1.0 / b && inv2 == inv * inv
    ensures (da * b - db * a) * inv2 == Dual.QuotientRule(a, da, b, db)
  {
    var p := da * b - db * a;
    assert p * (inv * inv) == p * inv * inv;
  }

  /** The quotient rule with inv = 1/other.re and inv2 = inv²; a zero
      divisor gives infinities in floating point and is excluded. */
  method Div(x: DualN, y: DualN) returns (z: DualN)
    requires |x.eps| == |y.eps| && y.re != 0.0
    ensures z == DDV.Div(x, y)
  {
    var inv := 1.0 / y.re;
    var inv2 := inv * inv;
    var n := |x.eps|;
    var eps := new real[n](_ => 0.0);
    for i := 0 to n
      invariant forall k :: 0 <= k < i ==> eps[k] == Dual.QuotientRule(x.re, x.eps[k], y.re, y.eps[k])
    {
      QuotientEntry(x.re, x.eps[i], y.re, y.eps[i], inv, inv2);
      eps[i] := (x.eps[i] * y.re - y.eps[i] * x.re) * inv2;
    }
    z := DDV.DualVec(x.re * inv, eps[..]);
  }

  /** `powi` through the shared coefficient table and its special cases. */
  function PowI(x: DualN, k: int): (y: DualN)
    requires k >= 0 || x.re != 0.0
  {
    match D.PowI(x.re, k)
    case UseOne => DDV.OneLike(x)
    case UseSelf => x
    case UseSquare => DDV.Mul(x, x)
    case UseChain(c) => DDV.ChainRule(x, c.f0, c.f1)
  }

  /** Direction by direction, `powi` is the scalar dual number's. */
  lemma ComponentPowI(x: DualN, k: int, i: nat)
    requires (k >= 0 || x.re != 0.0) && i < |x.eps|
    ensures |PowI(x, k).eps| == |x.eps|
    ensures DDV.Component(PowI(x, k), i) == Dual.PowI(DDV.Component(x, i), k)
  {
  }

  /** from_re(5).derive(1).powi(2) = 25 with eps [0, 10]. */
  lemma DeriveDoc()
    ensures PowI(Derive(FromRe(5.0, 2), 1), 2) == DDV.DualVec(25.0, [0.0, 10.0])
  {
    var x := Derive(FromRe(5.0, 2), 1);
    assert x == DDV.DualVec(5.0, [0.0, 1.0]);
    assert DDV.Mul(x, x).eps == [0.0, 10.0];
  }

  /** The vector `derive` of `StaticVec<DualN<N>, N>`: entry i of the owned
      vector gets eps[i] = 1. */
  method DeriveVec(xs: array<DualN>)
    requires forall i :: 0 <= i < xs.Length ==> |xs[i].eps| == xs.Length
    modifies xs
    ensures forall i :: 0 <= i < xs.Length ==> |xs[i].eps| == xs.Length && xs[i] == Derive(old(xs[i]), i)
  {
    for i := 0 to xs.Length
      invariant forall k :: 0 <= k < i ==> xs[k] == Derive(old(xs[k]), k)
      invariant forall k :: i <= k < xs.Length ==> xs[k] == old(xs[k])
    {
      xs[i] := xs[i].(eps := xs[i].eps[i := 1.0]);
    }
  }

  /** Seeding a vector of constants gives the unit vectors: entry i is the
      variable x_i along direction i only. */
  lemma DeriveVecOfConstants(x: seq<real>, i: nat, k: nat)
    requires i < |x| && k < |x|
    ensures DDV.Component(Derive(FromRe(x[i], |x|), i), k) == Dual.Dual(x[i], if k == i then 1.0 else 0.0)
  {
  }

  /** `jacobian`: res(i, j) = self[i].eps[j]. */
  method Jacobian(xs: seq<DualN>, n: nat) returns (j: M.Mat)
    requires forall i :: 0 <= i < |xs| ==> |xs[i].eps| == n
    ensures M.Shaped(j, |xs|, n)
    ensures forall i, k :: 0 <= i < |xs| && 0 <= k < n ==> DDV.Component(xs[i], k) == Dual.Dual(xs[i].re, j[i][k])
  {
    var m := |xs|;
    var res := new real[m, n]((_, _) => 0.0);
    for i := 0 to m
      invariant forall r, c :: 0 <= r < i && 0 <= c < n ==> res[r, c] == xs[r].eps[c]
    {
      for k := 0 to n
        invariant forall r, c :: 0 <= r < i && 0 <= c < n ==> res[r, c] == xs[r].eps[c]
        invariant forall c :: 0 <= c < k ==> res[i, c] == xs[i].eps[c]
      {
        res[i, k] := xs[i].eps[k];
      }
    }
    j := seq(m, r requires 0 <= r < m reads res => seq(n, c requires 0 <= c < n reads res => res[r, c]));
  }

  /** The example of `jacobian`: with x = 5 along direction 0 and y = 3
      along direction 1, the rows of [x·y³, x²·y] are [27, 135] and
      [30, 25]. */
  lemma JacobianDoc(x: DualN, y: DualN)
    requires x == Derive(FromRe(5.0, 2), 0) && y == Derive(FromRe(3.0, 2), 1)
    ensures DDV.Mul(x, PowI(y, 3)).eps == [27.0, 135.0]
    ensures DDV.Mul(PowI(x, 2), y).eps == [30.0, 25.0]
  {
    assert x == DDV.DualVec(5.0, [1.0, 0.0]);
    assert y == DDV.DualVec(3.0, [0.0, 1.0]);
    CubeDoc(y);
    MulDoc(x, PowI(y, 3), 27.0, 135.0);
    assert PowI(x, 2) == DDV.Mul(x, x);
    MulDoc(x, x, 10.0, 0.0);
    MulDoc(PowI(x, 2), y, 30.0, 25.0);
  }

  /** The product of two numbers with two directions, direction by
      direction. */
  lemma MulDoc(x: DualN, y: DualN, e0: real, e1: real)
    requires |x.eps| == 2 && |y.eps| == 2
    requires e0 == x.eps[0] * y.re + y.eps[0] * x.re && e1 == x.eps[1] * y.re + y.eps[1] * x.re
    ensures DDV.Mul(x, y).eps == [e0, e1]
  {
    var z := DDV.Mul(x, y);
    assert z.eps[0] == e0 && z.eps[1] == e1;
  }

  lemma CubeDoc(y: DualN)
    requires y == DDV.DualVec(3.0, [0.0, 1.0])
    ensures PowI(y, 3) == DDV.DualVec(27.0, [0.0, 27.0])
  {
    assert D.PowInt(3.0, 0) == 1.0;
    var c := D.Falling(3.0, 3.0, 1.0);
    assert c.f0 == 27.0 && c.f1 == 27.0;
    assert PowI(y, 3) == DDV.ChainRule(y, c.f0, c.f1);
  }
}
