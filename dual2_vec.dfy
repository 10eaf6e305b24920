/** The second-order dual number with a gradient and a Hessian of
    src/datatypes/dual2_vec.rs: a real part, an optional 1 x n row v1 and an
    optional n x n matrix v2, absent meaning zero. Entry (i, j) of the number
    is a HyperDual number with directions i and j, and every rule acts on the
    entries one at a time. */
module Dual2Vec {
  import W = Wrappers
  import M = Matrix
  import Der = Derivative
  import Dual
  import HD = HyperDual
  import E = Entries

  datatype Dual2Vec = Dual2Vec(re: real, v1: Der.Derivative, v2: Der.Derivative)

  predicate Valid(x: Dual2Vec, n: nat) {
    Der.Fits(x.v1, 1, n) && Der.Fits(x.v2, n, n)
  }

  function New(re: real, v1: Der.Derivative, v2: Der.Derivative): (x: Dual2Vec)
    ensures x.re == re && x.v1 == v1 && x.v2 == v2
  {
    Dual2Vec(re, v1, v2)
  }

  /** A constant: gradient and Hessian are absent. */
  function FromRe(re: real): (x: Dual2Vec)
    ensures x.re == re && x.v1.value.None? && x.v2.value.None?
  {
    New(re, Der.None(), Der.None())
  }

  /** `derivative(index)`: v1 becomes the unit row e_index; re and v2 are kept. */
  function Derivative(x: Dual2Vec, n: nat, index: nat): (y: Dual2Vec)
    requires Valid(x, n) && index < n
    ensures Valid(y, n) && y.re == x.re && y.v2 == x.v2
    ensures forall j :: 0 <= j < n ==> Gradient(y, n)[j] == if j == index then 1.0 else 0.0
  {
    x.(v1 := Der.DerivativeGeneric(1, n, index))
  }

  /** The gradient and the Hessian the number stands for. */
  function Gradient(x: Dual2Vec, n: nat): (g: seq<real>)
    requires Valid(x, n)
    ensures |g| == n && forall j :: 0 <= j < n ==> g[j] == Der.UnwrapGeneric(x.v1, 1, n)[0][j]
  {
    Der.UnwrapGeneric(x.v1, 1, n)[0]
  }

  function Hessian(x: Dual2Vec, n: nat): (h: M.Mat)
    requires Valid(x, n)
    ensures M.Shaped(h, n, n)
  {
    Der.UnwrapGeneric(x.v2, n, n)
  }

  /** Entry (i, j): the hyper-dual number with eps1 along i and eps2 along j. */
  function Entry(x: Dual2Vec, n: nat, i: nat, j: nat): (h: HD.HyperDual)
    requires Valid(x, n) && i < n && j < n
  {
    HD.HyperDual(x.re, Der.At(x.v1, 1, n, 0, i), Der.At(x.v1, 1, n, 0, j), Der.At(x.v2, n, n, i, j))
  }

  /** The chain rule: (f0, v1·f1, v2·f1 + v1ᵀv1·f2). */
  function ChainRule(x: Dual2Vec, n: nat, f0: real, f1: real, f2: real): (y: Dual2Vec)
    requires Valid(x, n)
    ensures Valid(y, n)
  {
    New(f0, Der.Scale(x.v1, f1, 1, n),
        Der.Add(Der.Scale(x.v2, f1, n, n), Der.Scale(Der.TrMul(x.v1, x.v1, 1, n, n), f2, n, n), n, n))
  }

  /** The product rule: v2 = v2'·a + v1ᵀv1' + v1'ᵀv1 + v2·b. */
  function Mul(x: Dual2Vec, y: Dual2Vec, n: nat): (z: Dual2Vec)
    requires Valid(x, n) && Valid(y, n)
    ensures Valid(z, n)
  {
    New(Dual.Times(x.re, y.re),
        Der.Add(Der.Scale(y.v1, x.re, 1, n), Der.Scale(x.v1, y.re, 1, n), 1, n),
        Der.Add(Cross(x, y, n), Der.Scale(x.v2, y.re, n, n), n, n))
  }

  /** v2'·a + v1ᵀv1' + v1'ᵀv1: the terms the product and the quotient share. */
  function Cross(x: Dual2Vec, y: Dual2Vec, n: nat): (c: Der.Derivative)
    requires Valid(x, n) && Valid(y, n)
    ensures Der.Fits(c, n, n)
  {
    Der.Add(Der.Add(Der.Scale(y.v2, x.re, n, n), Der.TrMul(x.v1, y.v1, 1, n, n), n, n),
            Der.TrMul(y.v1, x.v1, 1, n, n), n, n)
  }

  /** The quotient rule, with inv = 1/b and inv2 = inv². */
  function Div(x: Dual2Vec, y: Dual2Vec, n: nat): (z: Dual2Vec)
    requires Valid(x, n) && Valid(y, n) && y.re != 0.0
    ensures Valid(z, n)
  {
    var inv := E.Inverse(y.re);
    var inv2 := E.Square(inv);
    var cross := Cross(x, y, n);
    New(Dual.Ratio(x.re, y.re),
        Der.Scale(Der.Sub(Der.Scale(x.v1, y.re, 1, n), Der.Scale(y.v1, x.re, 1, n), 1, n), inv2, 1, n),
        Der.Add(Der.Sub(Der.Scale(x.v2, inv, n, n), Der.Scale(cross, inv2, n, n), n, n),
                Der.Scale(Der.TrMul(y.v1, y.v1, 1, n, n), E.OuterWeight(x.re, inv), n, n), n, n))
  }

  /** The real part of every entry is the number's real part. */
  lemma EntryRe(x: Dual2Vec, n: nat, i: nat, j: nat)
    requires Valid(x, n) && i < n && j < n
    ensures Entry(x, n, i, j).re == x.re
  {
  }

  /** Every entry of the chain rule, product and quotient is the hyper-dual
      chain rule, product and quotient of the entries. */
  lemma EntryChainRule(x: Dual2Vec, n: nat, f0: real, f1: real, f2: real, i: nat, j: nat)
    requires Valid(x, n) && i < n && j < n
    ensures Entry(ChainRule(x, n, f0, f1, f2), n, i, j) == HD.ChainRule(Entry(x, n, i, j), f0, f1, f2)
  {
    var e, q := Entry(ChainRule(x, n, f0, f1, f2), n, i, j), HD.ChainRule(Entry(x, n, i, j), f0, f1, f2);
    assert e.eps1 == q.eps1 by {
      E.ChainFirstAt(x.v1, f1, 1, n, 0, i);
    }
    assert e.eps2 == q.eps2 by {
      E.ChainFirstAt(x.v1, f1, 1, n, 0, j);
    }
    assert e.eps1eps2 == q.eps1eps2 by {
      E.RowsOuter(x.v1, x.v1, n, n, i, j);
      E.ChainMixedAt(x.v2, Der.TrMul(x.v1, x.v1, 1, n, n), f1, f2,
                     Der.At(x.v1, 1, n, 0, i), Der.At(x.v1, 1, n, 0, j), n, n, i, j);
    }
  }

  lemma EntryMul(x: Dual2Vec, y: Dual2Vec, n: nat, i: nat, j: nat)
    requires Valid(x, n) && Valid(y, n) && i < n && j < n
    ensures Entry(Mul(x, y, n), n, i, j) == HD.Mul(Entry(x, n, i, j), Entry(y, n, i, j))
  {
    var e, q := Entry(Mul(x, y, n), n, i, j), HD.Mul(Entry(x, n, i, j), Entry(y, n, i, j));
    EntryRe(x, n, i, j);
    EntryRe(y, n, i, j);
    EntryRe(Mul(x, y, n), n, i, j);
    assert e.eps1 == q.eps1 by {
      E.ProductAt(x.v1, x.re, y.v1, y.re, 1, n, 0, i);
    }
    assert e.eps2 == q.eps2 by {
      E.ProductAt(x.v1, x.re, y.v1, y.re, 1, n, 0, j);
    }
    assert e.eps1eps2 == q.eps1eps2 by {
      E.RowsOuter(x.v1, y.v1, n, n, i, j);
      E.RowsOuter(y.v1, x.v1, n, n, i, j);
      E.ProductMixedAt(y.v2, x.re, Der.TrMul(x.v1, y.v1, 1, n, n), Der.TrMul(y.v1, x.v1, 1, n, n), x.v2, y.re,
                       Der.At(x.v1, 1, n, 0, i), Der.At(x.v1, 1, n, 0, j),
                       Der.At(y.v1, 1, n, 0, i), Der.At(y.v1, 1, n, 0, j), n, n, i, j);
    }
  }

  lemma EntryDiv(x: Dual2Vec, y: Dual2Vec, n: nat, i: nat, j: nat)
    requires Valid(x, n) && Valid(y, n) && y.re != 0.0 && i < n && j < n
    ensures Entry(Div(x, y, n), n, i, j) == HD.Div(Entry(x, n, i, j), Entry(y, n, i, j))
  {
    var e, q := Entry(Div(x, y, n), n, i, j), HD.Div(Entry(x, n, i, j), Entry(y, n, i, j));
    EntryRe(x, n, i, j);
    EntryRe(y, n, i, j);
    EntryRe(Div(x, y, n), n, i, j);
    assert e.eps1 == q.eps1 by {
      E.QuotientAt(x.v1, x.re, y.v1, y.re, 1, n, 0, i);
    }
    assert e.eps2 == q.eps2 by {
      E.QuotientAt(x.v1, x.re, y.v1, y.re, 1, n, 0, j);
    }
    assert e.eps1eps2 == q.eps1eps2 by {
      E.RowsOuter(x.v1, y.v1, n, n, i, j);
      E.RowsOuter(y.v1, x.v1, n, n, i, j);
      E.RowsOuter(y.v1, y.v1, n, n, i, j);
      E.QuotientMixedAt(x.v2, y.v2, Der.TrMul(x.v1, y.v1, 1, n, n), Der.TrMul(y.v1, x.v1, 1, n, n),
                        Der.TrMul(y.v1, y.v1, 1, n, n), x.re, y.re,
                        Der.At(x.v1, 1, n, 0, i), Der.At(x.v1, 1, n, 0, j),
                        Der.At(y.v1, 1, n, 0, i), Der.At(y.v1, 1, n, 0, j), n, n, i, j);
    }
  }

  /** Entrywise, division undoes multiplication. */
  lemma MulDivInverse(x: Dual2Vec, y: Dual2Vec, n: nat, i: nat, j: nat)
    requires Valid(x, n) && Valid(y, n) && y.re != 0.0 && i < n && j < n
    ensures Entry(Mul(Div(x, y, n), y, n), n, i, j) == Entry(x, n, i, j)
  {
    EntryDiv(x, y, n, i, j);
    EntryMul(Div(x, y, n), y, n, i, j);
    HD.MulDivInverse(Entry(x, n, i, j), Entry(y, n, i, j));
  }

  /** The gradient and the Hessian are read off the entries: entry (i, j)
      carries gradient entries i and j and Hessian entry (i, j). */
  lemma GradientHessianEntry(x: Dual2Vec, n: nat, i: nat, j: nat)
    requires Valid(x, n) && i < n && j < n
    ensures Gradient(x, n)[i] == Entry(x, n, i, j).eps1
    ensures Gradient(x, n)[j] == Entry(x, n, i, j).eps2
    ensures Hessian(x, n)[i][j] == Entry(x, n, i, j).eps1eps2
  {
  }

  /** 1 on the seeded variable, 0 elsewhere. */
  function Unit(i: nat, k: nat): (u: real)
    ensures u == 1.0 <==> i == k
    ensures u == 0.0 <==> i != k
  {
    if i == k then 1.0 else 0.0
  }

  /** A constant seeded on variable k: every entry (i, j) has eps1 = 1 exactly
      when i = k, eps2 = 1 exactly when j = k, and no mixed part. */
  lemma SeededEntry(x: Dual2Vec, c: real, n: nat, k: nat, i: nat, j: nat)
    requires k < n && i < n && j < n && x == Derivative(FromRe(c), n, k)
    ensures Entry(x, n, i, j) == HD.HyperDual(c, Unit(i, k), Unit(j, k), 0.0)
  {
    GradientHessianEntry(x, n, i, j);
  }

  /** The hyper-dual arithmetic of the example: (5 + ε_i)·(5 + ε_i)·(3 + ε'_i)
      for the unit directions of variables 0 and 1. */
  lemma DocHyperDual(i: nat, j: nat)
    requires i < 2 && j < 2
    ensures HD.Mul(HD.Mul(HD.HyperDual(5.0, Unit(i, 0), Unit(j, 0), 0.0), HD.HyperDual(5.0, Unit(i, 0), Unit(j, 0), 0.0)),
                   HD.HyperDual(3.0, Unit(i, 1), Unit(j, 1), 0.0))
         == HD.HyperDual(75.0, [30.0, 25.0][i], [30.0, 25.0][j], [[6.0, 10.0], [10.0, 0.0]][i][j])
  {
    if i == 0 {
      if j == 0 {
      } else {
      }
    } else {
      if j == 0 {
      } else {
      }
    }
  }

  /** x·x·y entry by entry, for x = 5 seeded on variable 0 and y = 3 seeded
      on variable 1. */
  lemma ProductDocEntry(x: Dual2Vec, y: Dual2Vec, i: nat, j: nat)
    requires Valid(x, 2) && Valid(y, 2) && i < 2 && j < 2
    requires Entry(x, 2, i, j) == HD.HyperDual(5.0, Unit(i, 0), Unit(j, 0), 0.0)
    requires Entry(y, 2, i, j) == HD.HyperDual(3.0, Unit(i, 1), Unit(j, 1), 0.0)
    ensures Entry(Mul(Mul(x, x, 2), y, 2), 2, i, j)
         == HD.HyperDual(75.0, [30.0, 25.0][i], [30.0, 25.0][j], [[6.0, 10.0], [10.0, 0.0]][i][j])
  {
    EntryMul(x, x, 2, i, j);
    EntryMul(Mul(x, x, 2), y, 2, i, j);
    DocHyperDual(i, j);
  }

  /** A number whose entries are those of the example has its value,
      gradient and Hessian. */
  lemma ProductDocReadOff(z: Dual2Vec)
    requires Valid(z, 2)
    requires Entry(z, 2, 0, 0) == HD.HyperDual(75.0, 30.0, 30.0, 6.0)
    requires Entry(z, 2, 0, 1) == HD.HyperDual(75.0, 30.0, 25.0, 10.0)
    requires Entry(z, 2, 1, 0) == HD.HyperDual(75.0, 25.0, 30.0, 10.0)
    requires Entry(z, 2, 1, 1) == HD.HyperDual(75.0, 25.0, 25.0, 0.0)
    ensures z.re == 75.0
    ensures Gradient(z, 2) == [30.0, 25.0]
    ensures Hessian(z, 2) == [[6.0, 10.0], [10.0, 0.0]]
  {
    GradientHessianEntry(z, 2, 0, 0);
    GradientHessianEntry(z, 2, 0, 1);
    GradientHessianEntry(z, 2, 1, 0);
    GradientHessianEntry(z, 2, 1, 1);
    forall i, j | 0 <= i < 2 && 0 <= j < 2
      ensures Hessian(z, 2)[i][j] == [[6.0, 10.0], [10.0, 0.0]][i][j]
    {
    }
    M.SameEntries(Hessian(z, 2), [[6.0, 10.0], [10.0, 0.0]], 2, 2);
  }

  /** x·x·y for any x and y whose entries are those of 5 seeded on variable
      0 and of 3 seeded on variable 1. */
  lemma ProductDocValues(x: Dual2Vec, y: Dual2Vec)
    requires Valid(x, 2) && Valid(y, 2)
    requires forall i, j :: 0 <= i < 2 && 0 <= j < 2 ==>
               Entry(x, 2, i, j) == HD.HyperDual(5.0, Unit(i, 0), Unit(j, 0), 0.0) &&
               Entry(y, 2, i, j) == HD.HyperDual(3.0, Unit(i, 1), Unit(j, 1), 0.0)
    ensures Mul(Mul(x, x, 2), y, 2).re == 75.0
    ensures Gradient(Mul(Mul(x, x, 2), y, 2), 2) == [30.0, 25.0]
    ensures Hessian(Mul(Mul(x, x, 2), y, 2), 2) == [[6.0, 10.0], [10.0, 0.0]]
  {
    ProductDocEntry(x, y, 0, 0);
    ProductDocEntry(x, y, 0, 1);
    ProductDocEntry(x, y, 1, 0);
    ProductDocEntry(x, y, 1, 1);
    ProductDocReadOff(Mul(Mul(x, x, 2), y, 2));
  }

  /** x = 5 seeded on variable 0, y = 3 seeded on variable 1: x·x·y has value
      75, gradient [30, 25] and Hessian [[6, 10], [10, 0]]. */
  lemma ProductDoc(x: Dual2Vec, y: Dual2Vec)
    requires x == Derivative(FromRe(5.0), 2, 0) && y == Derivative(FromRe(3.0), 2, 1)
    ensures Mul(Mul(x, x, 2), y, 2).re == 75.0
    ensures Gradient(Mul(Mul(x, x, 2), y, 2), 2) == [30.0, 25.0]
    ensures Hessian(Mul(Mul(x, x, 2), y, 2), 2) == [[6.0, 10.0], [10.0, 0.0]]
  {
    forall i, j | 0 <= i < 2 && 0 <= j < 2
      ensures Entry(x, 2, i, j) == HD.HyperDual(5.0, Unit(i, 0), Unit(j, 0), 0.0)
      ensures Entry(y, 2, i, j) == HD.HyperDual(3.0, Unit(i, 1), Unit(j, 1), 0.0)
    {
      SeededEntry(x, 5.0, 2, 0, i, j);
      SeededEntry(y, 3.0, 2, 1, i, j);
    }
    ProductDocValues(x, y);
  }

  /** `==` and `partial_cmp` look at the real parts only. */
  predicate Eq(x: Dual2Vec, y: Dual2Vec) {
    x.re == y.re
  }

  function PartialCmp(x: Dual2Vec, y: Dual2Vec): (o: W.Ordering)
    ensures o == W.Equal <==> Eq(x, y)
    ensures o == W.Less <==> x.re < y.re
    ensures o == W.Greater <==> y.re < x.re
  {
    if x.re < y.re then W.Less else if x.re == y.re then W.Equal else W.Greater
  }
}
