/** The one-dimensional `StaticVec` of src/static_vec.rs: N entries copied
    by value. The operators update an `array` in place, map, map_zip and
    outer_product fill a fresh one. The matrix operators of the same file
    are those of the StaticMat module. */
module StaticVec {
  import M = Matrix
  import SM = StaticMat

  predicate NonZero(b: seq<real>) {
    forall i :: 0 <= i < |b| ==> b[i] != 0.0
  }

  function Elementwise(op: SM.Op, a: seq<real>, b: seq<real>): (c: seq<real>)
    requires |a| == |b| && (op == SM.Over ==> NonZero(b))
    ensures |c| == |a|
  {
    seq(|a|, i requires 0 <= i < |a| => SM.Combine(op, a[i], b[i]))
  }

  function Scalar(op: SM.Op, a: seq<real>, s: real): (c: seq<real>)
    requires op == SM.Over ==> s != 0.0
    ensures |c| == |a|
  {
    seq(|a|, i requires 0 <= i < |a| => SM.Combine(op, a[i], s))
  }

  /** The vector operators are those of the one-row matrix. */
  lemma ElementwiseIsRow(op: SM.Op, a: seq<real>, b: seq<real>)
    requires |a| == |b| && (op == SM.Over ==> NonZero(b))
    ensures [Elementwise(op, a, b)] == SM.Elementwise(op, [a], [b], 1, |a|)
  {
    M.SameEntries([Elementwise(op, a, b)], SM.Elementwise(op, [a], [b], 1, |a|), 1, |a|);
  }

  lemma ScalarIsRow(op: SM.Op, a: seq<real>, s: real)
    requires op == SM.Over ==> s != 0.0
    ensures [Scalar(op, a, s)] == SM.Scalar(op, [a], s, 1, |a|)
  {
    M.SameEntries([Scalar(op, a, s)], SM.Scalar(op, [a], s, 1, |a|), 1, |a|);
  }

  /** Subtraction undoes addition. */
  lemma AddSubInverse(a: seq<real>, b: seq<real>)
    requires |a| == |b|
    ensures Elementwise(SM.Minus, Elementwise(SM.Plus, a, b), b) == a
  {
  }

  /** The owned `fn add(mut self, other)` and the assign `fn add_assign(&mut
      self, other)`, and likewise for -, * and /: one loop over the entries. */
  method ApplyOp(op: SM.Op, a: array<real>, b: seq<real>)
    requires |b| == a.Length && (op == SM.Over ==> NonZero(b))
    modifies a
    ensures a[..] == Elementwise(op, old(a[..]), b)
  {
    ghost var a0 := a[..];
    for i := 0 to a.Length
      invariant forall k :: 0 <= k < i ==> a[k] == SM.Combine(op, a0[k], b[k])
      invariant forall k :: i <= k < a.Length ==> a[k] == a0[k]
    {
      a[i] := SM.Combine(op, a[i], b[i]);
    }
  }

  /** The scalar forms `fn add(mut self, other: T)` and `add_assign(&mut
      self, other: T)`. */
  method ApplyScalar(op: SM.Op, a: array<real>, s: real)
    requires op == SM.Over ==> s != 0.0
    modifies a
    ensures a[..] == Scalar(op, old(a[..]), s)
  {
    ghost var a0 := a[..];
    for i := 0 to a.Length
      invariant forall k :: 0 <= k < i ==> a[k] == SM.Combine(op, a0[k], s)
      invariant forall k :: i <= k < a.Length ==> a[k] == a0[k]
    {
      a[i] := SM.Combine(op, a[i], s);
    }
  }

  /** `is_zero`: every entry is zero, which is the same as being `zero()`. */
  function IsZero(a: seq<real>): bool {
    forall i :: 0 <= i < |a| ==> a[i] == 0.0
  }

  lemma IsZeroIffZero(a: seq<real>)
    ensures IsZero(a) <==> a == seq(|a|, _ => 0.0)
  {
  }

  /** `neg(mut self)`. */
  method Negate(a: array<real>)
    modifies a
    ensures a[..] == seq(a.Length, i requires 0 <= i < a.Length => -old(a[i]))
  {
    ghost var a0 := a[..];
    for i := 0 to a.Length
      invariant forall k :: 0 <= k < i ==> a[k] == -a0[k]
      invariant forall k :: i <= k < a.Length ==> a[k] == a0[k]
    {
      a[i] := -a[i];
    }
  }

  /** `eq`: the zipped entries are pairwise equal, which for two vectors of
      one length is equality of the vectors. */
  function Equal(a: seq<real>, b: seq<real>): bool
    requires |a| == |b|
  {
    forall i :: 0 <= i < |a| ==> a[i] == b[i]
  }

  lemma EqualIffSame(a: seq<real>, b: seq<real>)
    requires |a| == |b|
    ensures Equal(a, b) <==> a == b
  {
  }

  /** `map`: res[i] = f(self[i]). */
  method Map(a: seq<real>, f: real -> real) returns (c: seq<real>)
    ensures |c| == |a| && forall i :: 0 <= i < |a| ==> c[i] == f(a[i])
  {
    var res := new real[|a|](_ => 0.0);
    for i := 0 to |a|
      invariant forall k :: 0 <= k < i ==> res[k] == f(a[k])
    {
      res[i] := f(a[i]);
    }
    c := res[..];
  }

  /** `map_zip`: res[i] = f(self[i], other[i]). */
  method MapZip(a: seq<real>, b: seq<real>, f: (real, real) -> real) returns (c: seq<real>)
    requires |a| == |b|
    ensures |c| == |a| && forall i :: 0 <= i < |a| ==> c[i] == f(a[i], b[i])
  {
    var res := new real[|a|](_ => 0.0);
    for i := 0 to |a|
      invariant forall k :: 0 <= k < i ==> res[k] == f(a[k], b[k])
    {
      res[i] := f(a[i], b[i]);
    }
    c := res[..];
  }

  /** The outer product a·bᵀ. */
  function Outer(a: seq<real>, b: seq<real>): (p: M.Mat)
    ensures M.Shaped(p, |a|, |b|)
  {
    seq(|a|, i requires 0 <= i < |a| => seq(|b|, j requires 0 <= j < |b| => a[i] * b[j]))
  }

  /** `outer_product`: res[i][j] = self[i]·other[j]. */
  method OuterProduct(a: seq<real>, b: seq<real>) returns (p: M.Mat)
    ensures p == Outer(a, b)
  {
    var res := new real[|a|, |b|]((_, _) => 0.0);
    ghost var o := Outer(a, b);
    for i := 0 to |a|
      invariant forall k, l :: 0 <= k < i && 0 <= l < |b| ==> res[k, l] == o[k][l]
    {
      for j := 0 to |b|
        invariant forall k, l :: 0 <= k < i && 0 <= l < |b| ==> res[k, l] == o[k][l]
        invariant forall l :: 0 <= l < j ==> res[i, l] == o[i][l]
      {
        res[i, j] := a[i] * b[j];
      }
    }
    p := SM.Rows(res);
    M.SameEntries(p, o, |a|, |b|);
  }

  /** The outer product is `transpose_matmul` of the two vectors read as
      one-row matrices, and the product of a column with a row. */
  lemma OuterIsTransposeMatMul(a: seq<real>, b: seq<real>)
    ensures Outer(a, b) == M.TrMul([a], [b], 1, |a|, |b|)
  {
    forall i, j | 0 <= i < |a| && 0 <= j < |b| ensures Outer(a, b)[i][j] == M.TrMul([a], [b], 1, |a|, |b|)[i][j] {
      M.TrMulRows([a], [b], |a|, |b|, i, j);
    }
    M.SameEntries(Outer(a, b), M.TrMul([a], [b], 1, |a|, |b|), |a|, |b|);
  }

  lemma OuterIsColumnTimesRow(a: seq<real>, b: seq<real>)
    ensures Outer(a, b) == M.MatMul(M.Transpose([a], 1, |a|), [b], |a|, 1, |b|)
  {
    OuterIsTransposeMatMul(a, b);
  }
}
