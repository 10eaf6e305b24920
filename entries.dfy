/** Entry (i, j) of the Derivative expressions that the vector-valued second
    order numbers build in their chain, product and quotient rules, stated
    in the scalar hyper-dual number's own formulas. A Dual2Vec or
    HyperDualVec rule acts on whole containers; these lemmas take one entry
    at a time to the HyperDual rule of the entries. */
module Entries {
  import Der = Derivative
  import Dual
  import HD = HyperDual

  /** v·v, the square of the divisor's reciprocal in the quotient rule. */
  function Square(v: real): (s: real)
    ensures s >= 0.0
  {
    v * v
  }

  /** 1/b, the divisor's reciprocal in the quotient rule. */
  function Inverse(b: real): (r: real)
    requires b != 0.0
    ensures r * b == 1.0
  {
    1.0 / b
  }

  /** p·q, an entry of an outer product of two vectors. */
  function Outer(p: real, q: real): real {
    p * q
  }

  /** 2·a·inv²·inv, the weight of the divisor's outer product in the
      quotient's second-order part. */
  function OuterWeight(a: real, inv: real): real {
    2.0 * a * Square(inv) * inv
  }

  /** An entry of g·a0 + t + u with t = a1·b2 and u = b1·a2: the terms the
      product and the quotient share. */
  function CrossPart(g12: real, a0: real, a1: real, a2: real, b1: real, b2: real): real {
    g12 * a0 + a1 * b2 + b1 * a2
  }

  /** h·k - c·l + g·m, the shape of the quotient's second-order part. */
  function Combination(h: real, k: real, c: real, l: real, g: real, m: real): real {
    h * k - c * l + g * m
  }

  /** The outer products the rules form: rowᵀ·row and column·row. */
  lemma RowsOuter(d: Der.Derivative, e: Der.Derivative, m: nat, c: nat, i: nat, j: nat)
    requires Der.Fits(d, 1, m) && Der.Fits(e, 1, c) && i < m && j < c
    ensures Der.At(Der.TrMul(d, e, 1, m, c), m, c, i, j) == Outer(Der.At(d, 1, m, 0, i), Der.At(e, 1, c, 0, j))
  {
    Der.AtTrMulRows(d, e, m, c, i, j);
  }

  lemma ColumnRowOuter(d: Der.Derivative, e: Der.Derivative, m: nat, c: nat, i: nat, j: nat)
    requires Der.Fits(d, m, 1) && Der.Fits(e, 1, c) && i < m && j < c
    ensures Der.At(Der.MatMul(d, e, m, 1, c), m, c, i, j) == Outer(Der.At(d, m, 1, i, 0), Der.At(e, 1, c, 0, j))
  {
    Der.AtMatMulOuter(d, e, m, c, i, j);
  }

  /** Entry (i, j) of a·k + b·l and of (a·k - b·l)·s. */
  lemma ScaledSum(a: Der.Derivative, k: real, b: Der.Derivative, l: real, r: nat, c: nat, i: nat, j: nat)
    requires Der.Fits(a, r, c) && Der.Fits(b, r, c) && i < r && j < c
    ensures Der.At(Der.Add(Der.Scale(a, k, r, c), Der.Scale(b, l, r, c), r, c), r, c, i, j)
         == Der.At(a, r, c, i, j) * k + Der.At(b, r, c, i, j) * l
  {
    Der.AtScale(a, k, r, c, i, j);
    Der.AtScale(b, l, r, c, i, j);
    Der.AtAdd(Der.Scale(a, k, r, c), Der.Scale(b, l, r, c), r, c, i, j);
  }

  lemma ScaledDiff(a: Der.Derivative, k: real, b: Der.Derivative, l: real, s: real, r: nat, c: nat, i: nat, j: nat)
    requires Der.Fits(a, r, c) && Der.Fits(b, r, c) && i < r && j < c
    ensures Der.At(Der.Scale(Der.Sub(Der.Scale(a, k, r, c), Der.Scale(b, l, r, c), r, c), s, r, c), r, c, i, j)
         == (Der.At(a, r, c, i, j) * k - Der.At(b, r, c, i, j) * l) * s
  {
    Der.AtScale(a, k, r, c, i, j);
    Der.AtScale(b, l, r, c, i, j);
    Der.AtSub(Der.Scale(a, k, r, c), Der.Scale(b, l, r, c), r, c, i, j);
    Der.AtScale(Der.Sub(Der.Scale(a, k, r, c), Der.Scale(b, l, r, c), r, c), s, r, c, i, j);
  }

  /** Entry (i, j) of g·k + t + u. */
  lemma CrossSum(g: Der.Derivative, k: real, t: Der.Derivative, u: Der.Derivative, r: nat, c: nat, i: nat, j: nat)
    requires Der.Fits(g, r, c) && Der.Fits(t, r, c) && Der.Fits(u, r, c) && i < r && j < c
    ensures Der.At(Der.Add(Der.Add(Der.Scale(g, k, r, c), t, r, c), u, r, c), r, c, i, j)
         == Der.At(g, r, c, i, j) * k + Der.At(t, r, c, i, j) + Der.At(u, r, c, i, j)
  {
    var s := Der.Scale(g, k, r, c);
    Der.AtScale(g, k, r, c, i, j);
    Der.AtAdd(s, t, r, c, i, j);
    Der.AtAdd(Der.Add(s, t, r, c), u, r, c, i, j);
  }

  /** Entry (i, j) of h·k - c·l + g·m. */
  lemma QuotientSum(h: Der.Derivative, k: real, d: Der.Derivative, l: real, g: Der.Derivative, m: real,
                    r: nat, c: nat, i: nat, j: nat)
    requires Der.Fits(h, r, c) && Der.Fits(d, r, c) && Der.Fits(g, r, c) && i < r && j < c
    ensures Der.At(Der.Add(Der.Sub(Der.Scale(h, k, r, c), Der.Scale(d, l, r, c), r, c),
                           Der.Scale(g, m, r, c), r, c), r, c, i, j)
         == Combination(Der.At(h, r, c, i, j), k, Der.At(d, r, c, i, j), l, Der.At(g, r, c, i, j), m)
  {
    var w := Der.Sub(Der.Scale(h, k, r, c), Der.Scale(d, l, r, c), r, c);
    var e := Der.Scale(g, m, r, c);
    DifferenceAt(h, k, d, l, r, c, i, j);
    ScaleAt(g, m, r, c, i, j);
    Der.AtAdd(w, e, r, c, i, j);
    CombinationOfScaled(Der.At(h, r, c, i, j), k, Der.At(d, r, c, i, j), l, Der.At(g, r, c, i, j), m);
  }

  /** Entry (i, j) of h·k - d·l. */
  lemma DifferenceAt(h: Der.Derivative, k: real, d: Der.Derivative, l: real, r: nat, c: nat, i: nat, j: nat)
    requires Der.Fits(h, r, c) && Der.Fits(d, r, c) && i < r && j < c
    ensures Der.At(Der.Sub(Der.Scale(h, k, r, c), Der.Scale(d, l, r, c), r, c), r, c, i, j)
         == Dual.Times(Der.At(h, r, c, i, j), k) - Dual.Times(Der.At(d, r, c, i, j), l)
  {
    ScaleAt(h, k, r, c, i, j);
    ScaleAt(d, l, r, c, i, j);
    Der.AtSub(Der.Scale(h, k, r, c), Der.Scale(d, l, r, c), r, c, i, j);
  }

  /** Entry (i, j) of h·k. */
  lemma ScaleAt(h: Der.Derivative, k: real, r: nat, c: nat, i: nat, j: nat)
    requires Der.Fits(h, r, c) && i < r && j < c
    ensures Der.At(Der.Scale(h, k, r, c), r, c, i, j) == Dual.Times(Der.At(h, r, c, i, j), k)
  {
    Der.AtScale(h, k, r, c, i, j);
  }

  lemma CombinationOfScaled(h: real, k: real, c: real, l: real, g: real, m: real)
    ensures Dual.Times(h, k) - Dual.Times(c, l) + Dual.Times(g, m) == Combination(h, k, c, l, g, m)
  {
  }

  /* The lemmas below state an entry of each part of a chain rule, product
     or quotient as the hyper-dual formula of the entries: a0 and b0 are the
     factors' real parts, a and b their first-order containers, g and h
     their second-order containers, and t, u, o the outer products whose
     entries the requires name. */

  /** First-order parts: a·f1, b·a0 + a·b0 and (a·b0 - b·a0)·inv². */
  lemma ChainFirstAt(a: Der.Derivative, f1: real, r: nat, c: nat, i: nat, j: nat)
    requires Der.Fits(a, r, c) && i < r && j < c
    ensures Der.At(Der.Scale(a, f1, r, c), r, c, i, j) == HD.ChainFirst(Der.At(a, r, c, i, j), f1)
  {
    Der.AtScale(a, f1, r, c, i, j);
  }

  lemma ProductAt(a: Der.Derivative, a0: real, b: Der.Derivative, b0: real, r: nat, c: nat, i: nat, j: nat)
    requires Der.Fits(a, r, c) && Der.Fits(b, r, c) && i < r && j < c
    ensures Der.At(Der.Add(Der.Scale(b, a0, r, c), Der.Scale(a, b0, r, c), r, c), r, c, i, j)
         == Dual.ProductRule(a0, Der.At(a, r, c, i, j), b0, Der.At(b, r, c, i, j))
  {
    ScaledSum(b, a0, a, b0, r, c, i, j);
  }

  lemma QuotientAt(a: Der.Derivative, a0: real, b: Der.Derivative, b0: real, r: nat, c: nat, i: nat, j: nat)
    requires Der.Fits(a, r, c) && Der.Fits(b, r, c) && b0 != 0.0 && i < r && j < c
    ensures Der.At(Der.Scale(Der.Sub(Der.Scale(a, b0, r, c), Der.Scale(b, a0, r, c), r, c),
                             Square(Inverse(b0)), r, c), r, c, i, j)
         == Dual.QuotientRule(a0, Der.At(a, r, c, i, j), b0, Der.At(b, r, c, i, j))
  {
    ScaledDiff(a, b0, b, a0, Square(Inverse(b0)), r, c, i, j);
    QuotientRuleGrouping(a0, Der.At(a, r, c, i, j), b0, Der.At(b, r, c, i, j));
  }

  /** (da·b - db·a)·inv² is the quotient rule's (da·b - db·a)·inv·inv. */
  lemma QuotientRuleGrouping(a: real, da: real, b: real, db: real)
    requires b != 0.0
    ensures (da * b - db * a) * Square(Inverse(b)) == Dual.QuotientRule(a, da, b, db)
  {
  }

  /** Mixed part of the chain rule: h·f1 + o·f2 with o the outer product. */
  lemma ChainMixedAt(h: Der.Derivative, o: Der.Derivative, f1: real, f2: real, e1: real, e2: real,
                     r: nat, c: nat, i: nat, j: nat)
    requires Der.Fits(h, r, c) && Der.Fits(o, r, c) && i < r && j < c
    requires Der.At(o, r, c, i, j) == Outer(e1, e2)
    ensures Der.At(Der.Add(Der.Scale(h, f1, r, c), Der.Scale(o, f2, r, c), r, c), r, c, i, j)
         == HD.ChainMixed(e1, e2, Der.At(h, r, c, i, j), f1, f2)
  {
    ScaledSum(h, f1, o, f2, r, c, i, j);
  }

  /** Mixed part of the product: g·a0 + t + u + h·b0. */
  lemma ProductMixedAt(g: Der.Derivative, a0: real, t: Der.Derivative, u: Der.Derivative, h: Der.Derivative,
                       b0: real, a1: real, a2: real, b1: real, b2: real, r: nat, c: nat, i: nat, j: nat)
    requires Der.Fits(g, r, c) && Der.Fits(t, r, c) && Der.Fits(u, r, c) && Der.Fits(h, r, c) && i < r && j < c
    requires Der.At(t, r, c, i, j) == Outer(a1, b2) && Der.At(u, r, c, i, j) == Outer(b1, a2)
    ensures Der.At(Der.Add(Der.Add(Der.Add(Der.Scale(g, a0, r, c), t, r, c), u, r, c), Der.Scale(h, b0, r, c), r, c),
                   r, c, i, j)
         == HD.MulMixed(a0, a1, a2, Der.At(h, r, c, i, j), b0, b1, b2, Der.At(g, r, c, i, j))
  {
    var s := Der.Add(Der.Add(Der.Scale(g, a0, r, c), t, r, c), u, r, c);
    CrossSum(g, a0, t, u, r, c, i, j);
    Der.AtScale(h, b0, r, c, i, j);
    Der.AtAdd(s, Der.Scale(h, b0, r, c), r, c, i, j);
  }

  /** Mixed part of the quotient: h·inv - (g·a0 + t + u)·inv² + o·2·a0·inv³. */
  lemma QuotientMixedAt(h: Der.Derivative, g: Der.Derivative, t: Der.Derivative, u: Der.Derivative,
                        o: Der.Derivative, a0: real, b0: real, a1: real, a2: real, b1: real, b2: real,
                        r: nat, c: nat, i: nat, j: nat)
    requires Der.Fits(h, r, c) && Der.Fits(g, r, c) && Der.Fits(t, r, c) && Der.Fits(u, r, c) && Der.Fits(o, r, c)
    requires b0 != 0.0 && i < r && j < c
    requires Der.At(t, r, c, i, j) == Outer(a1, b2) && Der.At(u, r, c, i, j) == Outer(b1, a2)
    requires Der.At(o, r, c, i, j) == Outer(b1, b2)
    ensures Der.At(Der.Add(Der.Sub(Der.Scale(h, Inverse(b0), r, c),
                                   Der.Scale(Der.Add(Der.Add(Der.Scale(g, a0, r, c), t, r, c), u, r, c),
                                             Square(Inverse(b0)), r, c), r, c),
                           Der.Scale(o, OuterWeight(a0, Inverse(b0)), r, c), r, c), r, c, i, j)
         == HD.DivMixed(a0, a1, a2, Der.At(h, r, c, i, j), b0, b1, b2, Der.At(g, r, c, i, j))
  {
    var s := Der.Add(Der.Add(Der.Scale(g, a0, r, c), t, r, c), u, r, c);
    assert Der.At(s, r, c, i, j) == CrossPart(Der.At(g, r, c, i, j), a0, a1, a2, b1, b2) by {
      CrossSum(g, a0, t, u, r, c, i, j);
    }
    QuotientSum(h, Inverse(b0), s, Square(Inverse(b0)), o, OuterWeight(a0, Inverse(b0)), r, c, i, j);
    DivMixedTerms(a0, a1, a2, Der.At(h, r, c, i, j), b0, b1, b2, Der.At(g, r, c, i, j),
                  Der.At(s, r, c, i, j), Der.At(o, r, c, i, j));
  }

  /** The quotient's mixed part from its three terms: the numerator's part
      h12, the cross terms s and the divisor's outer product o. */
  lemma DivMixedTerms(a0: real, a1: real, a2: real, h12: real, b0: real, b1: real, b2: real, b12: real,
                      s: real, o: real)
    requires b0 != 0.0
    requires s == CrossPart(b12, a0, a1, a2, b1, b2)
    requires o == Outer(b1, b2)
    ensures Combination(h12, Inverse(b0), s, Square(Inverse(b0)), o, OuterWeight(a0, Inverse(b0)))
         == HD.DivMixed(a0, a1, a2, h12, b0, b1, b2, b12)
  {
    DivMixedIdentity(a0, a1, a2, h12, b0, b1, b2, b12);
  }

  lemma DivMixedIdentity(a0: real, a1: real, a2: real, h12: real, b0: real, b1: real, b2: real, b12: real)
    requires b0 != 0.0
    ensures Combination(h12, Inverse(b0), CrossPart(b12, a0, a1, a2, b1, b2), Square(Inverse(b0)),
                        Outer(b1, b2), OuterWeight(a0, Inverse(b0)))
         == HD.DivMixed(a0, a1, a2, h12, b0, b1, b2, b12)
  {
  }
}
