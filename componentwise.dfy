/** The operations src/macros2.rs generates for every number type built from
    a real part and `Derivative` slots, here for the second-order number with
    a gradient row v1 and a Hessian v2 (the `Dual2Vec` of src/dual2.rs, whose
    rules are those of the Dual2Vec module). Addition, subtraction, negation
    and scaling act on the real part and on every slot; a plain real added or
    subtracted moves only the real part. Read entry by entry, each is the
    corresponding HyperDual operation. */
module Componentwise {
  import D = Derivatives
  import Der = Derivative
  import HD = HyperDual
  import V = Dual2Vec

  /** `From<F>`, `zero` and `one` all go through `from_re`. */
  function From(f: real): (x: V.Dual2Vec)
    ensures x == V.FromRe(f)
  {
    V.FromRe(f)
  }

  function Zero(): V.Dual2Vec {
    From(0.0)
  }

  function One(): V.Dual2Vec {
    From(1.0)
  }

  /** `is_zero` and `is_one` look at the real part only. */
  predicate IsZero(x: V.Dual2Vec) {
    x.re == 0.0
  }

  predicate IsOne(x: V.Dual2Vec) {
    x.re == 1.0
  }

  /** Componentwise sum, difference and negation. */
  function Add(x: V.Dual2Vec, y: V.Dual2Vec, n: nat): (z: V.Dual2Vec)
    requires V.Valid(x, n) && V.Valid(y, n)
    ensures V.Valid(z, n)
  {
    V.New(x.re + y.re, Der.Add(x.v1, y.v1, 1, n), Der.Add(x.v2, y.v2, n, n))
  }

  function Sub(x: V.Dual2Vec, y: V.Dual2Vec, n: nat): (z: V.Dual2Vec)
    requires V.Valid(x, n) && V.Valid(y, n)
    ensures V.Valid(z, n)
  {
    V.New(x.re - y.re, Der.Sub(x.v1, y.v1, 1, n), Der.Sub(x.v2, y.v2, n, n))
  }

  function Neg(x: V.Dual2Vec, n: nat): (z: V.Dual2Vec)
    requires V.Valid(x, n)
    ensures V.Valid(z, n)
  {
    V.New(-x.re, Der.Neg(x.v1, 1, n), Der.Neg(x.v2, n, n))
  }

  /** A plain real on the right: `*` and `/` scale every part, `+` and `-`
      change the real part only. */
  function MulReal(x: V.Dual2Vec, k: real, n: nat): (z: V.Dual2Vec)
    requires V.Valid(x, n)
    ensures V.Valid(z, n)
  {
    V.New(x.re * k, Der.Scale(x.v1, k, 1, n), Der.Scale(x.v2, k, n, n))
  }

  function DivReal(x: V.Dual2Vec, k: real, n: nat): (z: V.Dual2Vec)
    requires V.Valid(x, n) && k != 0.0
    ensures V.Valid(z, n)
  {
    V.New(x.re / k, Der.DivBy(x.v1, k, 1, n), Der.DivBy(x.v2, k, n, n))
  }

  function AddReal(x: V.Dual2Vec, k: real): V.Dual2Vec {
    x.(re := x.re + k)
  }

  function SubReal(x: V.Dual2Vec, k: real): V.Dual2Vec {
    x.(re := x.re - k)
  }

  /** `inv` is `recip`: the chain rule with the reciprocal's coefficients. */
  function Inv(x: V.Dual2Vec, n: nat): (z: V.Dual2Vec)
    requires V.Valid(x, n) && x.re != 0.0
    ensures V.Valid(z, n)
  {
    var c := D.Recip(x.re);
    V.ChainRule(x, n, c.f0, c.f1, c.f2)
  }

  /** Entry by entry, each operation is the hyper-dual one. */
  lemma EntryAdd(x: V.Dual2Vec, y: V.Dual2Vec, n: nat, i: nat, j: nat)
    requires V.Valid(x, n) && V.Valid(y, n) && i < n && j < n
    ensures V.Entry(Add(x, y, n), n, i, j) == HD.Add(V.Entry(x, n, i, j), V.Entry(y, n, i, j))
  {
    Der.AtAdd(x.v1, y.v1, 1, n, 0, i);
    Der.AtAdd(x.v1, y.v1, 1, n, 0, j);
    Der.AtAdd(x.v2, y.v2, n, n, i, j);
  }

  lemma EntrySub(x: V.Dual2Vec, y: V.Dual2Vec, n: nat, i: nat, j: nat)
    requires V.Valid(x, n) && V.Valid(y, n) && i < n && j < n
    ensures V.Entry(Sub(x, y, n), n, i, j) == HD.Sub(V.Entry(x, n, i, j), V.Entry(y, n, i, j))
  {
    Der.AtSub(x.v1, y.v1, 1, n, 0, i);
    Der.AtSub(x.v1, y.v1, 1, n, 0, j);
    Der.AtSub(x.v2, y.v2, n, n, i, j);
  }

  lemma EntryNeg(x: V.Dual2Vec, n: nat, i: nat, j: nat)
    requires V.Valid(x, n) && i < n && j < n
    ensures V.Entry(Neg(x, n), n, i, j) == HD.Neg(V.Entry(x, n, i, j))
  {
    Der.AtNeg(x.v1, 1, n, 0, i);
    Der.AtNeg(x.v1, 1, n, 0, j);
    Der.AtNeg(x.v2, n, n, i, j);
  }

  lemma EntryMulReal(x: V.Dual2Vec, k: real, n: nat, i: nat, j: nat)
    requires V.Valid(x, n) && i < n && j < n
    ensures V.Entry(MulReal(x, k, n), n, i, j) == HD.Scale(V.Entry(x, n, i, j), k)
  {
    Der.AtScale(x.v1, k, 1, n, 0, i);
    Der.AtScale(x.v1, k, 1, n, 0, j);
    Der.AtScale(x.v2, k, n, n, i, j);
  }

  lemma EntryDivReal(x: V.Dual2Vec, k: real, n: nat, i: nat, j: nat)
    requires V.Valid(x, n) && k != 0.0 && i < n && j < n
    ensures V.Entry(DivReal(x, k, n), n, i, j) == HD.Scale(V.Entry(x, n, i, j), 1.0 / k)
  {
    AtDivBy(x.v1, k, 1, n, 0, i);
    AtDivBy(x.v1, k, 1, n, 0, j);
    AtDivBy(x.v2, k, n, n, i, j);
    Quotient(x.re, k);
  }

  lemma AtDivBy(d: Der.Derivative, k: real, r: nat, c: nat, i: nat, j: nat)
    requires Der.Fits(d, r, c) && k != 0.0 && i < r && j < c
    ensures Der.At(Der.DivBy(d, k, r, c), r, c, i, j) == Der.At(d, r, c, i, j) * (1.0 / k)
  {
    Quotient(Der.At(d, r, c, i, j), k);
  }

  lemma Quotient(a: real, k: real)
    requires k != 0.0
    ensures a / k == a * (1.0 / k)
  {
  }

  lemma EntryShift(x: V.Dual2Vec, k: real, n: nat, i: nat, j: nat)
    requires V.Valid(x, n) && i < n && j < n
    ensures V.Entry(AddReal(x, k), n, i, j) == HD.Add(V.Entry(x, n, i, j), HD.FromRe(k))
    ensures V.Entry(SubReal(x, k), n, i, j) == HD.Sub(V.Entry(x, n, i, j), HD.FromRe(k))
  {
  }

  lemma EntryInv(x: V.Dual2Vec, n: nat, i: nat, j: nat)
    requires V.Valid(x, n) && x.re != 0.0 && i < n && j < n
    ensures V.Entry(Inv(x, n), n, i, j) == HD.Recip(V.Entry(x, n, i, j))
    ensures V.Entry(V.Mul(x, Inv(x, n), n), n, i, j) == HD.One()
  {
    var c := D.Recip(x.re);
    V.EntryChainRule(x, n, c.f0, c.f1, c.f2, i, j);
    V.EntryMul(x, Inv(x, n), n, i, j);
    HD.RecipInverse(V.Entry(x, n, i, j));
  }

  /** Zero and one are the constants 0 and 1 in every entry; zero is the
      identity of the sum exactly, one that of the product entry by entry. */
  lemma ZeroOne(x: V.Dual2Vec, n: nat, i: nat, j: nat)
    requires V.Valid(x, n) && i < n && j < n
    ensures IsZero(Zero()) && IsOne(One())
    ensures V.Entry(Zero(), n, i, j) == HD.FromRe(0.0) && V.Entry(One(), n, i, j) == HD.One()
    ensures Add(x, Zero(), n) == x && Add(Zero(), x, n) == x
    ensures V.Entry(V.Mul(x, One(), n), n, i, j) == V.Entry(x, n, i, j)
  {
    V.EntryMul(x, One(), n, i, j);
    HD.MulOne(V.Entry(x, n, i, j));
  }

  /** Subtraction undoes addition in every entry. */
  lemma AddSubInverse(x: V.Dual2Vec, y: V.Dual2Vec, n: nat, i: nat, j: nat)
    requires V.Valid(x, n) && V.Valid(y, n) && i < n && j < n
    ensures V.Entry(Sub(Add(x, y, n), y, n), n, i, j) == V.Entry(x, n, i, j)
    ensures V.Entry(Add(x, Neg(y, n), n), n, i, j) == V.Entry(Sub(x, y, n), n, i, j)
  {
    EntryAdd(x, y, n, i, j);
    EntrySub(Add(x, y, n), y, n, i, j);
    EntryNeg(y, n, i, j);
    EntryAdd(x, Neg(y, n), n, i, j);
    EntrySub(x, y, n, i, j);
    HD.AddSub(V.Entry(x, n, i, j), V.Entry(y, n, i, j), 0.0);
  }

  /** Every element of a sequence has the given width. */
  predicate AllValid(xs: seq<V.Dual2Vec>, n: nat) {
    forall k :: 0 <= k < |xs| ==> V.Valid(xs[k], n)
  }

  /** `Sum` folds from zero with `+`, `Product` from one with `*`, left to
      right. */
  function Sum(xs: seq<V.Dual2Vec>, n: nat): (s: V.Dual2Vec)
    requires AllValid(xs, n)
    ensures V.Valid(s, n)
  {
    if |xs| == 0 then Zero() else Add(Sum(xs[..|xs| - 1], n), xs[|xs| - 1], n)
  }

  function Product(xs: seq<V.Dual2Vec>, n: nat): (p: V.Dual2Vec)
    requires AllValid(xs, n)
    ensures V.Valid(p, n)
  {
    if |xs| == 0 then One() else V.Mul(Product(xs[..|xs| - 1], n), xs[|xs| - 1], n)
  }

  /** The same folds over hyper-dual numbers, and the entries of a sequence. */
  function HyperSum(hs: seq<HD.HyperDual>): HD.HyperDual {
    if |hs| == 0 then HD.FromRe(0.0) else HD.Add(HyperSum(hs[..|hs| - 1]), hs[|hs| - 1])
  }

  function HyperProduct(hs: seq<HD.HyperDual>): HD.HyperDual {
    if |hs| == 0 then HD.One() else HD.Mul(HyperProduct(hs[..|hs| - 1]), hs[|hs| - 1])
  }

  function Entries(xs: seq<V.Dual2Vec>, n: nat, i: nat, j: nat): (hs: seq<HD.HyperDual>)
    requires AllValid(xs, n) && i < n && j < n
    ensures |hs| == |xs| && forall k :: 0 <= k < |xs| ==> hs[k] == V.Entry(xs[k], n, i, j)
  {
    seq(|xs|, k requires 0 <= k < |xs| => V.Entry(xs[k], n, i, j))
  }

  lemma EntriesPrefix(xs: seq<V.Dual2Vec>, n: nat, i: nat, j: nat)
    requires AllValid(xs, n) && i < n && j < n && |xs| > 0
    ensures AllValid(xs[..|xs| - 1], n)
    ensures Entries(xs, n, i, j)[..|xs| - 1] == Entries(xs[..|xs| - 1], n, i, j)
    ensures Entries(xs, n, i, j)[|xs| - 1] == V.Entry(xs[|xs| - 1], n, i, j)
  {
    assert AllValid(xs[..|xs| - 1], n);
  }

  /** Entry by entry the sum is the hyper-dual sum of the entries. */
  lemma {:induction false} EntrySum(xs: seq<V.Dual2Vec>, n: nat, i: nat, j: nat)
    requires AllValid(xs, n) && i < n && j < n
    ensures V.Entry(Sum(xs, n), n, i, j) == HyperSum(Entries(xs, n, i, j))
  {
    if |xs| > 0 {
      var init := xs[..|xs| - 1];
      EntriesPrefix(xs, n, i, j);
      EntrySum(init, n, i, j);
      EntryAdd(Sum(init, n), xs[|xs| - 1], n, i, j);
    }
  }

  /** ... and the product the hyper-dual product. */
  lemma {:induction false} EntryProduct(xs: seq<V.Dual2Vec>, n: nat, i: nat, j: nat)
    requires AllValid(xs, n) && i < n && j < n
    ensures V.Entry(Product(xs, n), n, i, j) == HyperProduct(Entries(xs, n, i, j))
  {
    if |xs| > 0 {
      var init := xs[..|xs| - 1];
      EntriesPrefix(xs, n, i, j);
      EntryProduct(init, n, i, j);
      V.EntryMul(Product(init, n), xs[|xs| - 1], n, i, j);
    }
  }

  /** `is_positive` is the sign of the real part, counting zero as
      positive; `is_negative` is its opposite. */
  predicate IsPositive(x: V.Dual2Vec) {
    x.re >= 0.0
  }

  predicate IsNegative(x: V.Dual2Vec) {
    x.re < 0.0
  }

  /** `abs` keeps a positive number and negates the others. */
  function Abs(x: V.Dual2Vec, n: nat): (z: V.Dual2Vec)
    requires V.Valid(x, n)
    ensures V.Valid(z, n)
  {
    if IsPositive(x) then x else Neg(x, n)
  }

  /** `abs_sub` is the difference when the real part is larger, else zero. */
  function AbsSub(x: V.Dual2Vec, y: V.Dual2Vec, n: nat): (z: V.Dual2Vec)
    requires V.Valid(x, n) && V.Valid(y, n)
    ensures V.Valid(z, n)
  {
    if x.re > y.re then Sub(x, y, n) else Zero()
  }

  /** `signum` is one, zero or minus one; the zero branch follows a failed
      positivity test, so with zero counted as positive it is never taken. */
  function Signum(x: V.Dual2Vec, n: nat): (z: V.Dual2Vec)
    requires V.Valid(x, n)
    ensures V.Valid(z, n)
  {
    if IsPositive(x) then One() else if IsZero(x) then Zero() else Neg(One(), n)
  }

  /** The real part of `abs` is the absolute value, and its entries are the
      number's entries up to the sign of the real part. */
  lemma AbsParts(x: V.Dual2Vec, n: nat, i: nat, j: nat)
    requires V.Valid(x, n) && i < n && j < n
    ensures IsPositive(x) != IsNegative(x)
    ensures Abs(x, n).re == (if x.re >= 0.0 then x.re else -x.re)
    ensures V.Entry(Abs(x, n), n, i, j) == (if IsPositive(x) then V.Entry(x, n, i, j) else HD.Neg(V.Entry(x, n, i, j)))
    ensures Signum(x, n).re == (if x.re >= 0.0 then 1.0 else -1.0)
  {
    if !IsPositive(x) {
      EntryNeg(x, n, i, j);
    }
  }

  /** `signum` times `abs` gives back the number, entry by entry. */
  lemma SignumTimesAbs(x: V.Dual2Vec, n: nat, i: nat, j: nat)
    requires V.Valid(x, n) && i < n && j < n
    ensures V.Entry(V.Mul(Signum(x, n), Abs(x, n), n), n, i, j) == V.Entry(x, n, i, j)
  {
    var h := V.Entry(x, n, i, j);
    V.EntryMul(Signum(x, n), Abs(x, n), n, i, j);
    AbsParts(x, n, i, j);
    if IsPositive(x) {
      assert V.Entry(Signum(x, n), n, i, j) == HD.One();
      HD.MulCommutes(HD.One(), h);
      HD.MulOne(h);
    } else {
      EntryNeg(One(), n, i, j);
      assert V.Entry(Signum(x, n), n, i, j) == HD.Neg(HD.One());
      NegTimesNeg(h);
    }
  }

  lemma NegTimesNeg(h: HD.HyperDual)
    ensures HD.Mul(HD.Neg(HD.One()), HD.Neg(h)) == h
  {
    HD.MulCommutes(HD.One(), h);
    HD.MulOne(h);
  }

  /** `abs_sub` never has a negative real part, and where it is not zero its
      entries are the entries of the difference. */
  lemma AbsSubProperties(x: V.Dual2Vec, y: V.Dual2Vec, n: nat, i: nat, j: nat)
    requires V.Valid(x, n) && V.Valid(y, n) && i < n && j < n
    ensures AbsSub(x, y, n).re >= 0.0
    ensures AbsSub(x, y, n).re == (if x.re > y.re then x.re - y.re else 0.0)
    ensures x.re > y.re ==> V.Entry(AbsSub(x, y, n), n, i, j) == HD.Sub(V.Entry(x, n, i, j), V.Entry(y, n, i, j))
    ensures x.re <= y.re ==> V.Entry(AbsSub(x, y, n), n, i, j) == HD.FromRe(0.0)
  {
    EntrySub(x, y, n, i, j);
  }

  /** The number as a mutable value: the in-place operators update the real
      part and each slot. */
  class Number {
    var re: real
    var v1: Der.Derivative
    var v2: Der.Derivative

    constructor (x: V.Dual2Vec)
      ensures Value() == x
    {
      re, v1, v2 := x.re, x.v1, x.v2;
    }

    function Value(): V.Dual2Vec
      reads this
    {
      V.New(re, v1, v2)
    }

    /** `+=` and `-=` add into the real part and into every slot. */
    method AddAssign(other: V.Dual2Vec, n: nat)
      requires V.Valid(Value(), n) && V.Valid(other, n)
      modifies this
      ensures Value() == Add(old(Value()), other, n)
    {
      re := re + other.re;
      v1 := Der.Add(v1, other.v1, 1, n);
      v2 := Der.Add(v2, other.v2, n, n);
    }

    method SubAssign(other: V.Dual2Vec, n: nat)
      requires V.Valid(Value(), n) && V.Valid(other, n)
      modifies this
      ensures Value() == Sub(old(Value()), other, n)
    {
      re := re - other.re;
      v1 := Der.Sub(v1, other.v1, 1, n);
      v2 := Der.Sub(v2, other.v2, n, n);
    }

    /** `*=` and `/=` by a number replace the value with the product or the
      quotient. */
    method MulAssign(other: V.Dual2Vec, n: nat)
      requires V.Valid(Value(), n) && V.Valid(other, n)
      modifies this
      ensures Value() == V.Mul(old(Value()), other, n)
    {
      var z := V.Mul(Value(), other, n);
      re, v1, v2 := z.re, z.v1, z.v2;
    }

    method DivAssign(other: V.Dual2Vec, n: nat)
      requires V.Valid(Value(), n) && V.Valid(other, n) && other.re != 0.0
      modifies this
      ensures Value() == V.Div(old(Value()), other, n)
    {
      var z := V.Div(Value(), other, n);
      re, v1, v2 := z.re, z.v1, z.v2;
    }

    /** `*=` and `/=` by a plain real scale every part. */
    method MulAssignReal(k: real, n: nat)
      requires V.Valid(Value(), n)
      modifies this
      ensures Value() == MulReal(old(Value()), k, n)
    {
      re := re * k;
      v1 := Der.Scale(v1, k, 1, n);
      v2 := Der.Scale(v2, k, n, n);
    }

    method DivAssignReal(k: real, n: nat)
      requires V.Valid(Value(), n) && k != 0.0
      modifies this
      ensures Value() == DivReal(old(Value()), k, n)
    {
      re := re / k;
      v1 := Der.DivBy(v1, k, 1, n);
      v2 := Der.DivBy(v2, k, n, n);
    }

    /** `+=` and `-=` by a plain real touch the real part only. */
    method AddAssignReal(k: real)
      modifies this
      ensures Value() == AddReal(old(Value()), k)
    {
      re := re + k;
    }

    method SubAssignReal(k: real)
      modifies this
      ensures Value() == SubReal(old(Value()), k)
    {
      re := re - k;
    }
  }
}
