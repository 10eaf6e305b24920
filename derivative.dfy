/** The optional derivative container of src/datatypes/derivative.rs: a
    derivative part of a dual number is either a present r x c matrix or
    absent, and an absent part behaves as the r x c zero matrix in every
    operation. The dimensions that nalgebra carries in the type are passed
    explicitly here. */
module Derivative {
  import W = Wrappers
  import M = Matrix

  datatype Derivative = Derivative(value: W.Option<M.Mat>)

  /** The container holds nothing, or an r x c matrix. */
  predicate Fits(d: Derivative, r: nat, c: nat) {
    d.value.Some? ==> M.Shaped(d.value.value, r, c)
  }

  function New(m: W.Option<M.Mat>): (d: Derivative)
    ensures d.value.None? <==> m.None?
    ensures m.Some? ==> d.value.value == m.value
  {
    Derivative(m)
  }

  function Some(m: M.Mat): (d: Derivative)
    ensures d.value == W.Some(m)
  {
    New(W.Some(m))
  }

  function None(): (d: Derivative)
    ensures d.value.None?
  {
    New(W.None)
  }

  /** The matrix the container stands for: the stored one, or zeros. */
  function UnwrapGeneric(d: Derivative, r: nat, c: nat): (u: M.Mat)
    requires Fits(d, r, c)
    ensures M.Shaped(u, r, c)
    ensures d.value.None? ==> u == M.Zeros(r, c)
    ensures d.value.Some? ==> u == d.value.value
  {
    match d.value
    case None => M.Zeros(r, c)
    case Some(m) => m
  }

  /** `derivative_generic`: the unit matrix with a 1 at linear index i. */
  function DerivativeGeneric(r: nat, c: nat, i: nat): (d: Derivative)
    requires i < r * c
    ensures d.value.Some? && Fits(d, r, c)
    ensures 0 <= i % r < r && 0 <= i / r < c && d.value.value[i % r][i / r] == 1.0
    ensures forall a, b :: 0 <= a < r && 0 <= b < c && (a != i % r || b != i / r) ==> d.value.value[a][b] == 0.0
  {
    Some(M.Unit(r, c, i))
  }

  /** `derivative()` of a 1 x 1 container: the present identity. */
  function Identity1(): (d: Derivative)
    ensures Fits(d, 1, 1) && d.value.Some? && Unwrap(d) == 1.0
  {
    Some([[1.0]])
  }

  /** `unwrap` of a 1 x 1 container: the single entry, zero when absent. */
  function Unwrap(d: Derivative): (x: real)
    requires Fits(d, 1, 1)
    ensures x == UnwrapGeneric(d, 1, 1)[0][0]
  {
    match d.value
    case None => 0.0
    case Some(m) => m[0][0]
  }

  /** Multiplication by a scalar (`Mul<T>`). */
  function Scale(d: Derivative, k: real, r: nat, c: nat): (e: Derivative)
    requires Fits(d, r, c)
    ensures Fits(e, r, c) && (e.value.None? <==> d.value.None?)
    ensures UnwrapGeneric(e, r, c) == M.Scale(UnwrapGeneric(d, r, c), k, r, c)
  {
    match d.value
    case None =>
      M.SameEntries(M.Zeros(r, c), M.Scale(M.Zeros(r, c), k, r, c), r, c);
      None()
    case Some(m) => Some(M.Scale(m, k, r, c))
  }

  /** Division by a scalar (`Div<T>`). */
  function DivBy(d: Derivative, k: real, r: nat, c: nat): (e: Derivative)
    requires Fits(d, r, c) && k != 0.0
    ensures Fits(e, r, c) && (e.value.None? <==> d.value.None?)
    ensures UnwrapGeneric(e, r, c) == M.DivBy(UnwrapGeneric(d, r, c), k, r, c)
  {
    match d.value
    case None =>
      M.SameEntries(M.Zeros(r, c), M.DivBy(M.Zeros(r, c), k, r, c), r, c);
      None()
    case Some(m) => Some(M.DivBy(m, k, r, c))
  }

  function Neg(d: Derivative, r: nat, c: nat): (e: Derivative)
    requires Fits(d, r, c)
    ensures Fits(e, r, c) && (e.value.None? <==> d.value.None?)
    ensures UnwrapGeneric(e, r, c) == M.Neg(UnwrapGeneric(d, r, c), r, c)
  {
    match d.value
    case None =>
      M.SameEntries(M.Zeros(r, c), M.Neg(M.Zeros(r, c), r, c), r, c);
      None()
    case Some(m) => Some(M.Neg(m, r, c))
  }

  /** Matrix product of an r x n and an n x c container. */
  function MatMul(d: Derivative, e: Derivative, r: nat, n: nat, c: nat): (p: Derivative)
    requires Fits(d, r, n) && Fits(e, n, c)
    ensures Fits(p, r, c) && (p.value.Some? <==> d.value.Some? && e.value.Some?)
    ensures UnwrapGeneric(p, r, c) == M.MatMul(UnwrapGeneric(d, r, n), UnwrapGeneric(e, n, c), r, n, c)
  {
    if d.value.Some? && e.value.Some? then
      Some(M.MatMul(d.value.value, e.value.value, r, n, c))
    else
      M.MatMulZeros(UnwrapGeneric(d, r, n), UnwrapGeneric(e, n, c), r, n, c);
      None()
  }

  /** `tr_mul`: dᵀ·e for an r x m container d and an r x c container e. */
  function TrMul(d: Derivative, e: Derivative, r: nat, m: nat, c: nat): (p: Derivative)
    requires Fits(d, r, m) && Fits(e, r, c)
    ensures Fits(p, m, c) && (p.value.Some? <==> d.value.Some? && e.value.Some?)
    ensures UnwrapGeneric(p, m, c) == M.TrMul(UnwrapGeneric(d, r, m), UnwrapGeneric(e, r, c), r, m, c)
  {
    if d.value.Some? && e.value.Some? then
      Some(M.TrMul(d.value.value, e.value.value, r, m, c))
    else
      M.TrMulZeros(UnwrapGeneric(d, r, m), UnwrapGeneric(e, r, c), r, m, c);
      None()
  }

  function Add(d: Derivative, e: Derivative, r: nat, c: nat): (s: Derivative)
    requires Fits(d, r, c) && Fits(e, r, c)
    ensures Fits(s, r, c) && (s.value.None? <==> d.value.None? && e.value.None?)
    ensures e.value.None? ==> s == d
    ensures d.value.None? ==> s == e
    ensures UnwrapGeneric(s, r, c) == M.Add(UnwrapGeneric(d, r, c), UnwrapGeneric(e, r, c), r, c)
  {
    match (d.value, e.value)
    case (Some(a), Some(b)) => Some(M.Add(a, b, r, c))
    case (Some(a), None) =>
      M.SameEntries(a, M.Add(a, M.Zeros(r, c), r, c), r, c);
      d
    case (None, Some(b)) =>
      M.SameEntries(b, M.Add(M.Zeros(r, c), b, r, c), r, c);
      e
    case (None, None) =>
      M.SameEntries(M.Zeros(r, c), M.Add(M.Zeros(r, c), M.Zeros(r, c), r, c), r, c);
      None()
  }

  function Sub(d: Derivative, e: Derivative, r: nat, c: nat): (s: Derivative)
    requires Fits(d, r, c) && Fits(e, r, c)
    ensures Fits(s, r, c) && (s.value.None? <==> d.value.None? && e.value.None?)
    ensures e.value.None? ==> s == d
    ensures d.value.None? ==> s == Neg(e, r, c)
    ensures UnwrapGeneric(s, r, c) == M.Sub(UnwrapGeneric(d, r, c), UnwrapGeneric(e, r, c), r, c)
  {
    match (d.value, e.value)
    case (Some(a), Some(b)) => Some(M.Sub(a, b, r, c))
    case (Some(a), None) =>
      M.SameEntries(a, M.Sub(a, M.Zeros(r, c), r, c), r, c);
      d
    case (None, Some(b)) =>
      M.SameEntries(M.Neg(b, r, c), M.Sub(M.Zeros(r, c), b, r, c), r, c);
      Some(M.Neg(b, r, c))
    case (None, None) =>
      M.SameEntries(M.Zeros(r, c), M.Sub(M.Zeros(r, c), M.Zeros(r, c), r, c), r, c);
      None()
  }

  /** Entry (i, j) of the matrix the container stands for. */
  function At(d: Derivative, r: nat, c: nat, i: nat, j: nat): real
    requires Fits(d, r, c) && i < r && j < c
  {
    match d.value
    case None => 0.0
    case Some(m) => m[i][j]
  }

  /** Entrywise, the operations act on the represented matrices, so that an
      absent operand counts as zero. */
  lemma AtScale(d: Derivative, k: real, r: nat, c: nat, i: nat, j: nat)
    requires Fits(d, r, c) && i < r && j < c
    ensures At(Scale(d, k, r, c), r, c, i, j) == At(d, r, c, i, j) * k
  {
  }

  lemma AtNeg(d: Derivative, r: nat, c: nat, i: nat, j: nat)
    requires Fits(d, r, c) && i < r && j < c
    ensures At(Neg(d, r, c), r, c, i, j) == -At(d, r, c, i, j)
  {
  }

  lemma AtAdd(d: Derivative, e: Derivative, r: nat, c: nat, i: nat, j: nat)
    requires Fits(d, r, c) && Fits(e, r, c) && i < r && j < c
    ensures At(Add(d, e, r, c), r, c, i, j) == At(d, r, c, i, j) + At(e, r, c, i, j)
  {
  }

  lemma AtSub(d: Derivative, e: Derivative, r: nat, c: nat, i: nat, j: nat)
    requires Fits(d, r, c) && Fits(e, r, c) && i < r && j < c
    ensures At(Sub(d, e, r, c), r, c, i, j) == At(d, r, c, i, j) - At(e, r, c, i, j)
  {
  }

  /** Entry (i, j) of dᵀ·e for two 1 x n rows is d_i·e_j. */
  lemma AtTrMulRows(d: Derivative, e: Derivative, m: nat, c: nat, i: nat, j: nat)
    requires Fits(d, 1, m) && Fits(e, 1, c) && i < m && j < c
    ensures At(TrMul(d, e, 1, m, c), m, c, i, j) == At(d, 1, m, 0, i) * At(e, 1, c, 0, j)
  {
    M.TrMulRows(UnwrapGeneric(d, 1, m), UnwrapGeneric(e, 1, c), m, c, i, j);
  }

  /** Entry (i, j) of d·e for an m x 1 column d and a 1 x c row e is d_i·e_j. */
  lemma AtMatMulOuter(d: Derivative, e: Derivative, m: nat, c: nat, i: nat, j: nat)
    requires Fits(d, m, 1) && Fits(e, 1, c) && i < m && j < c
    ensures At(MatMul(d, e, m, 1, c), m, c, i, j) == At(d, m, 1, i, 0) * At(e, 1, c, 0, j)
  {
    M.MatMulOuter(UnwrapGeneric(d, m, 1), UnwrapGeneric(e, 1, c), m, c, i, j);
  }

  /** A derivative held in a place that the compound assignment operators
      update in place. */
  class Slot {
    var content: Derivative

    constructor (d: Derivative)
      ensures content == d
    {
      content := d;
    }

    method AddAssign(rhs: Derivative, r: nat, c: nat)
      requires Fits(content, r, c) && Fits(rhs, r, c)
      modifies this
      ensures content == Add(old(content), rhs, r, c)
      ensures old(content).value.None? ==> content == rhs
      ensures rhs.value.None? ==> content == old(content)
    {
      match (content.value, rhs.value)
      case (Some(s), Some(b)) => content := Some(M.Add(s, b, r, c));
      case (None, Some(b)) => content := Some(b);
      case (_, None) =>
    }

    method SubAssign(rhs: Derivative, r: nat, c: nat)
      requires Fits(content, r, c) && Fits(rhs, r, c)
      modifies this
      ensures content == Sub(old(content), rhs, r, c)
      ensures old(content).value.None? ==> content == Neg(rhs, r, c)
      ensures rhs.value.None? ==> content == old(content)
    {
      match (content.value, rhs.value)
      case (Some(s), Some(b)) => content := Some(M.Sub(s, b, r, c));
      case (None, Some(b)) => content := Some(M.Neg(b, r, c));
      case (_, None) =>
    }

    method MulAssign(k: real, r: nat, c: nat)
      requires Fits(content, r, c)
      modifies this
      ensures content == Scale(old(content), k, r, c)
      ensures old(content).value.None? ==> content == old(content)
    {
      if content.value.Some? {
        content := Some(M.Scale(content.value.value, k, r, c));
      }
    }

    method DivAssign(k: real, r: nat, c: nat)
      requires Fits(content, r, c) && k != 0.0
      modifies this
      ensures content == DivBy(old(content), k, r, c)
      ensures old(content).value.None? ==> content == old(content)
    {
      if content.value.Some? {
        content := Some(M.DivBy(content.value.value, k, r, c));
      }
    }
  }

  /** Whether the closure fails on some entry of m. */
  ghost predicate SomeEntryFails(m: M.Mat, r: nat, c: nat, f: real -> W.Option<real>)
    requires M.Shaped(m, r, c)
  {
    exists i, j :: 0 <= i < r && 0 <= j < c && f(m[i][j]).None?
  }

  /** `try_map_borrowed`: apply a fallible closure to every entry, column by
      column; no result when the container is absent or the closure fails. */
  method TryMapBorrowed(d: Derivative, r: nat, c: nat, f: real -> W.Option<real>)
      returns (res: W.Option<Derivative>)
    requires Fits(d, r, c)
    ensures res.None? <==> d.value.None? || SomeEntryFails(d.value.value, r, c, f)
    ensures res.Some? ==> res.value.value.Some? && Fits(res.value, r, c)
    ensures res.Some? ==> forall i, j :: 0 <= i < r && 0 <= j < c ==>
                            f(d.value.value[i][j]) == W.Some(res.value.value.value[i][j])
  {
    if d.value.None? {
      return W.None;
    }
    var m := d.value.value;
    var out := M.Zeros(r, c);
    var j := 0;
    while j < c
      invariant 0 <= j <= c && M.Shaped(out, r, c)
      invariant forall a, b :: 0 <= a < r && 0 <= b < j ==> f(m[a][b]) == W.Some(out[a][b])
    {
      var i := 0;
      while i < r
        invariant 0 <= i <= r && M.Shaped(out, r, c)
        invariant forall a, b :: 0 <= a < r && 0 <= b < j ==> f(m[a][b]) == W.Some(out[a][b])
        invariant forall a :: 0 <= a < i ==> f(m[a][j]) == W.Some(out[a][j])
      {
        var y := f(m[i][j]);
        if y.None? {
          return W.None;
        }
        out := out[i := out[i][j := y.value]];
        i := i + 1;
      }
      j := j + 1;
    }
    res := W.Some(Some(out));
  }
}
