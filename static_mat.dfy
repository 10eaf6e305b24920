/** The fixed-size matrix `StaticMat` of src/static_mat.rs (with its older
    copy src/linalg/static_mat.rs and the matrix half of src/static_vec.rs):
    an M x N array of entries that is copied by value. A row vector
    `StaticVec` is a 1 x N matrix. Operations that take `self` by value or by
    `&mut` update an `array2` in place; operations that build a result fill a
    fresh `array2` and hand back its rows. */
module StaticMat {
  import M = Matrix

  /** The four operators of the elementwise impls (`+=`, `-=`, `*=`, `/=`). */
  datatype Op = Plus | Minus | Times | Over

  function Combine(op: Op, a: real, b: real): real
    requires op == Over ==> b != 0.0
  {
    match op
    case Plus => a + b
    case Minus => a - b
    case Times => a * b
    case Over => a / b
  }

  /** No entry of the matrix is zero (the divisor of an elementwise `/`). */
  predicate NonZero(b: M.Mat, m: nat, n: nat)
    requires M.Shaped(b, m, n)
  {
    forall i, j :: 0 <= i < m && 0 <= j < n ==> b[i][j] != 0.0
  }

  /** The entries of an `array2`, row by row. */
  function Rows(a: array2<real>): (r: M.Mat)
    reads a
    ensures M.Shaped(r, a.Length0, a.Length1)
    ensures forall i, j :: 0 <= i < a.Length0 && 0 <= j < a.Length1 ==> r[i][j] == a[i, j]
  {
    seq(a.Length0, i reads a requires 0 <= i < a.Length0 =>
      seq(a.Length1, j reads a requires 0 <= j < a.Length1 => a[i, j]))
  }

  /* Specification functions: the values the loops below compute. */

  function Identity(n: nat): (e: M.Mat)
    ensures M.Shaped(e, n, n)
  {
    seq(n, i => seq(n, j => if i == j then 1.0 else 0.0))
  }

  function Ones(m: nat, n: nat): (o: M.Mat)
    ensures M.Shaped(o, m, n)
  {
    seq(m, _ => seq(n, _ => 1.0))
  }

  function Elementwise(op: Op, a: M.Mat, b: M.Mat, m: nat, n: nat): (c: M.Mat)
    requires M.Shaped(a, m, n) && M.Shaped(b, m, n)
    requires op == Over ==> NonZero(b, m, n)
    ensures M.Shaped(c, m, n)
  {
    seq(m, i requires 0 <= i < m => seq(n, j requires 0 <= j < n => Combine(op, a[i][j], b[i][j])))
  }

  function Scalar(op: Op, a: M.Mat, s: real, m: nat, n: nat): (c: M.Mat)
    requires M.Shaped(a, m, n)
    requires op == Over ==> s != 0.0
    ensures M.Shaped(c, m, n)
  {
    seq(m, i requires 0 <= i < m => seq(n, j requires 0 <= j < n => Combine(op, a[i][j], s)))
  }

  function MapSpec(a: M.Mat, f: real -> real, m: nat, n: nat): (c: M.Mat)
    requires M.Shaped(a, m, n)
    ensures M.Shaped(c, m, n)
  {
    seq(m, i requires 0 <= i < m => seq(n, j requires 0 <= j < n => f(a[i][j])))
  }

  function MapZipSpec(a: M.Mat, b: M.Mat, f: (real, real) -> real, m: nat, n: nat): (c: M.Mat)
    requires M.Shaped(a, m, n) && M.Shaped(b, m, n)
    ensures M.Shaped(c, m, n)
  {
    seq(m, i requires 0 <= i < m => seq(n, j requires 0 <= j < n => f(a[i][j], b[i][j])))
  }

  /** a·bᵀ for an m x n matrix a and an o x n matrix b: entry (i, k) pairs
      row i of a with row k of b. */
  function MatMulT(a: M.Mat, b: M.Mat, m: nat, n: nat, o: nat): (p: M.Mat)
    requires M.Shaped(a, m, n) && M.Shaped(b, o, n)
    ensures M.Shaped(p, m, o)
  {
    seq(m, i requires 0 <= i < m => seq(o, k requires 0 <= k < o => M.Dot(a[i], b[k])))
  }

  /** The sum of the entries of a row, folded from the front. */
  function Sum(v: seq<real>): real
    decreases |v|
  {
    if |v| == 0 then 0.0 else Sum(v[..|v| - 1]) + v[|v| - 1]
  }

  /* new, new_vec, zero, is_zero, one and eye. */

  /** `new_vec`: a row vector is a one-row matrix. */
  function NewVec(v: seq<real>): (r: M.Mat)
    ensures M.Shaped(r, 1, |v|) && r[0] == v
  {
    [v]
  }

  /** `is_zero`: every entry is zero, which is the same as being `zero()`. */
  function IsZero(a: M.Mat, m: nat, n: nat): (z: bool)
    requires M.Shaped(a, m, n)
  {
    forall i, j :: 0 <= i < m && 0 <= j < n ==> a[i][j] == 0.0
  }

  lemma IsZeroIffZeros(a: M.Mat, m: nat, n: nat)
    requires M.Shaped(a, m, n)
    ensures IsZero(a, m, n) <==> a == M.Zeros(m, n)
  {
    if IsZero(a, m, n) {
      M.SameEntries(a, M.Zeros(m, n), m, n);
    }
  }

  /** `one()` is the matrix of ones, which is not the identity once there
      are two rows and two columns. */
  lemma OnesIsNotIdentity(n: nat)
    requires n >= 2
    ensures Ones(n, n) != Identity(n)
    ensures Ones(n, n)[0][1] == 1.0 && Identity(n)[0][1] == 0.0
  {
    var o, e := Ones(n, n), Identity(n);
    assert o[0] == seq(n, _ => 1.0);
    assert e[0] == seq(n, j => if 0 == j then 1.0 else 0.0);
    assert o[0][1] == 1.0 && e[0][1] == 0.0;
    assert o[0] != e[0];
  }

  /** `eye`: the zero matrix with ones written on the diagonal. */
  method Eye(n: nat) returns (e: M.Mat)
    ensures e == Identity(n)
  {
    var res := new real[n, n]((_, _) => 0.0);
    for i := 0 to n
      invariant forall k, l :: 0 <= k < n && 0 <= l < n ==> res[k, l] == (if k == l && k < i then 1.0 else 0.0)
    {
      res[i, i] := 1.0;
    }
    e := Rows(res);
    M.SameEntries(e, Identity(n), n, n);
  }

  /** The identity is neutral for the product on either side. */
  lemma {:induction false} DotUnit(u: seq<real>, k: nat)
    requires k < |u|
    ensures M.Dot(u, seq(|u|, j => if j == k then 1.0 else 0.0)) == u[k]
    decreases |u|
  {
    var e := seq(|u|, j => if j == k then 1.0 else 0.0);
    var n := |u| - 1;
    assert e[..n] == seq(n, j => if j == k then 1.0 else 0.0);
    if k < n {
      DotUnit(u[..n], k);
    } else {
      M.DotZeroRight(u[..n], e[..n]);
    }
  }

  lemma {:induction false} DotUnitLeft(u: seq<real>, k: nat)
    requires k < |u|
    ensures M.Dot(seq(|u|, j => if j == k then 1.0 else 0.0), u) == u[k]
    decreases |u|
  {
    var e := seq(|u|, j => if j == k then 1.0 else 0.0);
    var n := |u| - 1;
    assert e[..n] == seq(n, j => if j == k then 1.0 else 0.0);
    if k < n {
      DotUnitLeft(u[..n], k);
    } else {
      M.DotZeroLeft(e[..n], u[..n]);
    }
  }

  lemma IdentityLeft(a: M.Mat, m: nat, n: nat)
    requires M.Shaped(a, m, n)
    ensures M.MatMul(Identity(m), a, m, m, n) == a
  {
    var p := M.MatMul(Identity(m), a, m, m, n);
    forall i, k | 0 <= i < m && 0 <= k < n ensures p[i][k] == a[i][k] {
      var col := M.Col(a, m, n, k);
      assert Identity(m)[i] == seq(m, j => if j == i then 1.0 else 0.0);
      DotUnitLeft(col, i);
    }
    M.SameEntries(p, a, m, n);
  }

  lemma IdentityRight(a: M.Mat, m: nat, n: nat)
    requires M.Shaped(a, m, n)
    ensures M.MatMul(a, Identity(n), m, n, n) == a
  {
    var p := M.MatMul(a, Identity(n), m, n, n);
    forall i, k | 0 <= i < m && 0 <= k < n ensures p[i][k] == a[i][k] {
      assert M.Col(Identity(n), n, n, k) == seq(n, j => if j == k then 1.0 else 0.0);
      DotUnit(a[i], k);
    }
    M.SameEntries(p, a, m, n);
  }

  /* The elementwise operators, in place. The owned form `fn add(mut self,
     other)` updates its own copy and returns it; the assign form `fn
     add_assign(&mut self, other)` updates the caller's matrix; both are
     this loop. */

  method ApplyOp(op: Op, a: array2<real>, b: M.Mat)
    requires M.Shaped(b, a.Length0, a.Length1)
    requires op == Over ==> NonZero(b, a.Length0, a.Length1)
    modifies a
    ensures Rows(a) == Elementwise(op, old(Rows(a)), b, a.Length0, a.Length1)
  {
    ghost var a0 := Rows(a);
    for i := 0 to a.Length0
      invariant forall k, l :: 0 <= k < i && 0 <= l < a.Length1 ==> a[k, l] == Combine(op, a0[k][l], b[k][l])
      invariant forall k, l :: i <= k < a.Length0 && 0 <= l < a.Length1 ==> a[k, l] == a0[k][l]
    {
      for j := 0 to a.Length1
        invariant forall k, l :: 0 <= k < i && 0 <= l < a.Length1 ==> a[k, l] == Combine(op, a0[k][l], b[k][l])
        invariant forall l :: 0 <= l < j ==> a[i, l] == Combine(op, a0[i][l], b[i][l])
        invariant forall k, l :: (i < k < a.Length0 || (k == i && j <= l)) && 0 <= l < a.Length1 ==> a[k, l] == a0[k][l]
      {
        a[i, j] := Combine(op, a[i, j], b[i][j]);
      }
    }
    M.SameEntries(Rows(a), Elementwise(op, a0, b, a.Length0, a.Length1), a.Length0, a.Length1);
  }

  /** The scalar forms `fn add(mut self, other: T)` and `add_assign(&mut
      self, other: T)`. */
  method ApplyScalar(op: Op, a: array2<real>, s: real)
    requires op == Over ==> s != 0.0
    modifies a
    ensures Rows(a) == Scalar(op, old(Rows(a)), s, a.Length0, a.Length1)
  {
    ghost var a0 := Rows(a);
    for i := 0 to a.Length0
      invariant forall k, l :: 0 <= k < i && 0 <= l < a.Length1 ==> a[k, l] == Combine(op, a0[k][l], s)
      invariant forall k, l :: i <= k < a.Length0 && 0 <= l < a.Length1 ==> a[k, l] == a0[k][l]
    {
      for j := 0 to a.Length1
        invariant forall k, l :: 0 <= k < i && 0 <= l < a.Length1 ==> a[k, l] == Combine(op, a0[k][l], s)
        invariant forall l :: 0 <= l < j ==> a[i, l] == Combine(op, a0[i][l], s)
        invariant forall k, l :: (i < k < a.Length0 || (k == i && j <= l)) && 0 <= l < a.Length1 ==> a[k, l] == a0[k][l]
      {
        a[i, j] := Combine(op, a[i, j], s);
      }
    }
    M.SameEntries(Rows(a), Scalar(op, a0, s, a.Length0, a.Length1), a.Length0, a.Length1);
  }

  /** `neg(mut self)`: every entry is negated in place. */
  method Negate(a: array2<real>)
    modifies a
    ensures Rows(a) == M.Neg(old(Rows(a)), a.Length0, a.Length1)
  {
    ghost var a0 := Rows(a);
    for i := 0 to a.Length0
      invariant forall k, l :: 0 <= k < i && 0 <= l < a.Length1 ==> a[k, l] == -a0[k][l]
      invariant forall k, l :: i <= k < a.Length0 && 0 <= l < a.Length1 ==> a[k, l] == a0[k][l]
    {
      for j := 0 to a.Length1
        invariant forall k, l :: 0 <= k < i && 0 <= l < a.Length1 ==> a[k, l] == -a0[k][l]
        invariant forall l :: 0 <= l < j ==> a[i, l] == -a0[i][l]
        invariant forall k, l :: (i < k < a.Length0 || (k == i && j <= l)) && 0 <= l < a.Length1 ==> a[k, l] == a0[k][l]
      {
        a[i, j] := -a[i, j];
      }
    }
    M.SameEntries(Rows(a), M.Neg(a0, a.Length0, a.Length1), a.Length0, a.Length1);
  }

  /** Subtraction undoes addition and division undoes multiplication, entry
      by entry; negation is its own inverse. */
  lemma AddSubInverse(a: M.Mat, b: M.Mat, m: nat, n: nat)
    requires M.Shaped(a, m, n) && M.Shaped(b, m, n)
    ensures Elementwise(Minus, Elementwise(Plus, a, b, m, n), b, m, n) == a
  {
    M.SameEntries(Elementwise(Minus, Elementwise(Plus, a, b, m, n), b, m, n), a, m, n);
  }

  lemma MulDivInverse(a: M.Mat, b: M.Mat, m: nat, n: nat)
    requires M.Shaped(a, m, n) && M.Shaped(b, m, n) && NonZero(b, m, n)
    ensures Elementwise(Over, Elementwise(Times, a, b, m, n), b, m, n) == a
  {
    var c := Elementwise(Over, Elementwise(Times, a, b, m, n), b, m, n);
    forall i, j | 0 <= i < m && 0 <= j < n ensures c[i][j] == a[i][j] {
      var x, y := a[i][j], b[i][j];
      assert c[i][j] == (x * y) / y;
    }
    M.SameEntries(c, a, m, n);
  }

  lemma NegInvolution(a: M.Mat, m: nat, n: nat)
    requires M.Shaped(a, m, n)
    ensures M.Neg(M.Neg(a, m, n), m, n) == a
  {
    M.SameEntries(M.Neg(M.Neg(a, m, n), m, n), a, m, n);
  }

  /** A scalar operand acts as the matrix that repeats it. */
  lemma ScalarIsElementwise(op: Op, a: M.Mat, s: real, m: nat, n: nat)
    requires M.Shaped(a, m, n) && (op == Over ==> s != 0.0)
    ensures Scalar(op, a, s, m, n) == Elementwise(op, a, M.Scale(Ones(m, n), s, m, n), m, n)
  {
    var b := M.Scale(Ones(m, n), s, m, n);
    assert forall i, j :: 0 <= i < m && 0 <= j < n ==> b[i][j] == s;
    M.SameEntries(Scalar(op, a, s, m, n), Elementwise(op, a, b, m, n), m, n);
  }

  /* map and map_zip fill a fresh matrix entry by entry. */

  method Map(a: M.Mat, m: nat, n: nat, f: real -> real) returns (c: M.Mat)
    requires M.Shaped(a, m, n)
    ensures c == MapSpec(a, f, m, n)
  {
    var res := new real[m, n]((_, _) => 0.0);
    for i := 0 to m
      invariant forall k, l :: 0 <= k < i && 0 <= l < n ==> res[k, l] == f(a[k][l])
    {
      for j := 0 to n
        invariant forall k, l :: 0 <= k < i && 0 <= l < n ==> res[k, l] == f(a[k][l])
        invariant forall l :: 0 <= l < j ==> res[i, l] == f(a[i][l])
      {
        res[i, j] := f(a[i][j]);
      }
    }
    c := Rows(res);
    M.SameEntries(c, MapSpec(a, f, m, n), m, n);
  }

  method MapZip(a: M.Mat, b: M.Mat, m: nat, n: nat, f: (real, real) -> real) returns (c: M.Mat)
    requires M.Shaped(a, m, n) && M.Shaped(b, m, n)
    ensures c == MapZipSpec(a, b, f, m, n)
  {
    var res := new real[m, n]((_, _) => 0.0);
    for i := 0 to m
      invariant forall k, l :: 0 <= k < i && 0 <= l < n ==> res[k, l] == f(a[k][l], b[k][l])
    {
      for j := 0 to n
        invariant forall k, l :: 0 <= k < i && 0 <= l < n ==> res[k, l] == f(a[k][l], b[k][l])
        invariant forall l :: 0 <= l < j ==> res[i, l] == f(a[i][l], b[i][l])
      {
        res[i, j] := f(a[i][j], b[i][j]);
      }
    }
    c := Rows(res);
    M.SameEntries(c, MapZipSpec(a, b, f, m, n), m, n);
  }

  /** map_zip with an arithmetic operator is that elementwise operator, and
      mapping twice is mapping the composition. */
  lemma MapZipIsElementwise(op: Op, a: M.Mat, b: M.Mat, m: nat, n: nat)
    requires M.Shaped(a, m, n) && M.Shaped(b, m, n) && op != Over
    ensures MapZipSpec(a, b, (x, y) => Combine(op, x, y), m, n) == Elementwise(op, a, b, m, n)
  {
    M.SameEntries(MapZipSpec(a, b, (x, y) => Combine(op, x, y), m, n), Elementwise(op, a, b, m, n), m, n);
  }

  lemma MapCompose(a: M.Mat, f: real -> real, g: real -> real, m: nat, n: nat)
    requires M.Shaped(a, m, n)
    ensures MapSpec(MapSpec(a, f, m, n), g, m, n) == MapSpec(a, x => g(f(x)), m, n)
  {
    M.SameEntries(MapSpec(MapSpec(a, f, m, n), g, m, n), MapSpec(a, x => g(f(x)), m, n), m, n);
  }

  /* The three products. Each accumulates with `+=` into a zero matrix; the
     partial sums below say what an entry holds after some of the terms. */

  /** Σ_{j < l} u[j]·v[j]. */
  function Partial(u: seq<real>, v: seq<real>, l: nat): real
    requires |u| == |v| && l <= |u|
  {
    M.Dot(u[..l], v[..l])
  }

  lemma PartialStep(u: seq<real>, v: seq<real>, l: nat)
    requires |u| == |v| && l < |u|
    ensures Partial(u, v, l + 1) == Partial(u, v, l) + u[l] * v[l]
  {
    var p, q := u[..l + 1], v[..l + 1];
    assert p[..l] == u[..l] && q[..l] == v[..l];
  }

  lemma PartialFull(u: seq<real>, v: seq<real>)
    requires |u| == |v|
    ensures Partial(u, v, |u|) == M.Dot(u, v)
  {
    assert u[..|u|] == u && v[..|v|] == v;
  }

  /** Entry (i, k) of a·b after the first l terms of its sum. */
  function ProductAfter(a: M.Mat, b: M.Mat, n: nat, o: nat, i: nat, k: nat, l: nat): real
    requires i < |a| && |a[i]| == n && M.Shaped(b, n, o) && k < o && l <= n
  {
    Partial(a[i], M.Col(b, n, o, k), l)
  }

  /** One step of the sum in `matmul`: the term a[i][j]·b[j][k]. */
  lemma ProductStep(a: M.Mat, b: M.Mat, n: nat, o: nat, i: nat, j: nat, k: nat)
    requires i < |a| && |a[i]| == n && M.Shaped(b, n, o) && j < n && k < o
    ensures ProductAfter(a, b, n, o, i, k, j + 1) == ProductAfter(a, b, n, o, i, k, j) + a[i][j] * b[j][k]
  {
    PartialStep(a[i], M.Col(b, n, o, k), j);
  }

  /** `matmul`: res[i][k] += a[i][j]·b[j][k] over i, j, k. Rows before i are
      complete, row i holds j terms (j + 1 before column k), later rows none. */
  method MatMul(a: M.Mat, b: M.Mat, m: nat, n: nat, o: nat) returns (p: M.Mat)
    requires M.Shaped(a, m, n) && M.Shaped(b, n, o)
    ensures p == M.MatMul(a, b, m, n, o)
  {
    var res := new real[m, o]((_, _) => 0.0);
    for i := 0 to m
      invariant forall r, l :: 0 <= r < m && 0 <= l < o ==>
        res[r, l] == ProductAfter(a, b, n, o, r, l, if r < i then n else 0)
    {
      for j := 0 to n
        invariant forall r, l :: 0 <= r < m && 0 <= l < o ==>
          res[r, l] == ProductAfter(a, b, n, o, r, l, if r < i then n else if r == i then j else 0)
      {
        for k := 0 to o
          invariant forall r, l :: 0 <= r < m && 0 <= l < o ==>
            res[r, l] == ProductAfter(a, b, n, o, r, l, if r < i then n else if r == i then (if l < k then j + 1 else j) else 0)
        {
          ProductStep(a, b, n, o, i, j, k);
          res[i, k] := res[i, k] + a[i][j] * b[j][k];
        }
      }
    }
    p := Rows(res);
    forall i, k | 0 <= i < m && 0 <= k < o ensures p[i][k] == M.MatMul(a, b, m, n, o)[i][k] {
      PartialFull(a[i], M.Col(b, n, o, k));
    }
    M.SameEntries(p, M.MatMul(a, b, m, n, o), m, o);
  }

  /** Entry (j, k) of aᵀ·b after the first l terms of its sum. */
  function TrProductAfter(a: M.Mat, b: M.Mat, m: nat, n: nat, o: nat, j: nat, k: nat, l: nat): real
    requires M.Shaped(a, m, n) && M.Shaped(b, m, o) && j < n && k < o && l <= m
  {
    Partial(M.Col(a, m, n, j), M.Col(b, m, o, k), l)
  }

  /** One step of the sum in `transpose_matmul`: the term a[i][j]·b[i][k]. */
  lemma TrProductStep(a: M.Mat, b: M.Mat, m: nat, n: nat, o: nat, i: nat, j: nat, k: nat)
    requires M.Shaped(a, m, n) && M.Shaped(b, m, o) && i < m && j < n && k < o
    ensures TrProductAfter(a, b, m, n, o, j, k, i + 1) == TrProductAfter(a, b, m, n, o, j, k, i) + a[i][j] * b[i][k]
  {
    PartialStep(M.Col(a, m, n, j), M.Col(b, m, o, k), i);
  }

  /** `transpose_matmul` of src/static_mat.rs, which is also `matmul_transpose`
      of src/linalg/static_mat.rs: res[j][k] += a[i][j]·b[i][k] over i, j, k,
      i.e. aᵀ·b. The sum runs in the outer loop: every entry holds i terms,
      and those before (j, k) one more. */
  method TransposeMatMul(a: M.Mat, b: M.Mat, m: nat, n: nat, o: nat) returns (p: M.Mat)
    requires M.Shaped(a, m, n) && M.Shaped(b, m, o)
    ensures p == M.TrMul(a, b, m, n, o)
  {
    var res := new real[n, o]((_, _) => 0.0);
    for i := 0 to m
      invariant forall r, l :: 0 <= r < n && 0 <= l < o ==> res[r, l] == TrProductAfter(a, b, m, n, o, r, l, i)
    {
      for j := 0 to n
        invariant forall r, l :: 0 <= r < n && 0 <= l < o ==>
          res[r, l] == TrProductAfter(a, b, m, n, o, r, l, if r < j then i + 1 else i)
      {
        for k := 0 to o
          invariant forall r, l :: 0 <= r < n && 0 <= l < o ==>
            res[r, l] == TrProductAfter(a, b, m, n, o, r, l, if r < j || (r == j && l < k) then i + 1 else i)
        {
          TrProductStep(a, b, m, n, o, i, j, k);
          res[j, k] := res[j, k] + a[i][j] * b[i][k];
        }
      }
    }
    p := Rows(res);
    var t := M.Transpose(a, m, n);
    forall j, k | 0 <= j < n && 0 <= k < o ensures p[j][k] == M.TrMul(a, b, m, n, o)[j][k] {
      assert t[j] == M.Col(a, m, n, j);
      PartialFull(M.Col(a, m, n, j), M.Col(b, m, o, k));
    }
    M.SameEntries(p, M.TrMul(a, b, m, n, o), n, o);
  }

  /** Entry (i, k) of a·bᵀ after the first l terms of its sum. */
  function ProductTAfter(a: M.Mat, b: M.Mat, m: nat, n: nat, o: nat, i: nat, k: nat, l: nat): real
    requires M.Shaped(a, m, n) && M.Shaped(b, o, n) && i < m && k < o && l <= n
  {
    Partial(a[i], b[k], l)
  }

  /** One step of the sum in `matmul_transpose`: the term a[i][j]·b[k][j]. */
  lemma ProductTStep(a: M.Mat, b: M.Mat, m: nat, n: nat, o: nat, i: nat, j: nat, k: nat)
    requires M.Shaped(a, m, n) && M.Shaped(b, o, n) && i < m && j < n && k < o
    ensures ProductTAfter(a, b, m, n, o, i, k, j + 1) == ProductTAfter(a, b, m, n, o, i, k, j) + a[i][j] * b[k][j]
  {
    PartialStep(a[i], b[k], j);
  }

  /** `matmul_transpose` of src/static_mat.rs: res[i][k] += a[i][j]·b[k][j]
      over i, j, k, i.e. a·bᵀ. */
  method MatMulTranspose(a: M.Mat, b: M.Mat, m: nat, n: nat, o: nat) returns (p: M.Mat)
    requires M.Shaped(a, m, n) && M.Shaped(b, o, n)
    ensures p == MatMulT(a, b, m, n, o)
  {
    var res := new real[m, o]((_, _) => 0.0);
    for i := 0 to m
      invariant forall r, l :: 0 <= r < m && 0 <= l < o ==>
        res[r, l] == ProductTAfter(a, b, m, n, o, r, l, if r < i then n else 0)
    {
      for j := 0 to n
        invariant forall r, l :: 0 <= r < m && 0 <= l < o ==>
          res[r, l] == ProductTAfter(a, b, m, n, o, r, l, if r < i then n else if r == i then j else 0)
      {
        for k := 0 to o
          invariant forall r, l :: 0 <= r < m && 0 <= l < o ==>
            res[r, l] == ProductTAfter(a, b, m, n, o, r, l, if r < i then n else if r == i then (if l < k then j + 1 else j) else 0)
        {
          ProductTStep(a, b, m, n, o, i, j, k);
          res[i, k] := res[i, k] + a[i][j] * b[k][j];
        }
      }
    }
    p := Rows(res);
    forall i, k | 0 <= i < m && 0 <= k < o ensures p[i][k] == MatMulT(a, b, m, n, o)[i][k] {
      PartialFull(a[i], b[k]);
    }
    M.SameEntries(p, MatMulT(a, b, m, n, o), m, o);
  }

  /** `t`: res[j][i] = a[i][j]. */
  method T(a: M.Mat, m: nat, n: nat) returns (t: M.Mat)
    requires M.Shaped(a, m, n)
    ensures t == M.Transpose(a, m, n)
  {
    var res := new real[n, m]((_, _) => 0.0);
    for i := 0 to m
      invariant forall r, c :: 0 <= r < n && 0 <= c < i ==> res[r, c] == a[c][r]
    {
      for j := 0 to n
        invariant forall r, c :: 0 <= r < n && 0 <= c < i ==> res[r, c] == a[c][r]
        invariant forall r :: 0 <= r < j ==> res[r, i] == a[i][r]
      {
        res[j, i] := a[i][j];
      }
    }
    t := Rows(res);
    M.SameEntries(t, M.Transpose(a, m, n), n, m);
  }

  /** Transposing twice gives the matrix back. */
  lemma TransposeInvolution(a: M.Mat, m: nat, n: nat)
    requires M.Shaped(a, m, n)
    ensures M.Transpose(M.Transpose(a, m, n), n, m) == a
  {
    M.SameEntries(M.Transpose(M.Transpose(a, m, n), n, m), a, m, n);
  }

  /** The three products agree: a·bᵀ is the product with the transpose of b,
      and aᵀ·b is the product of the transpose of a with b. */
  lemma MatMulTIsMatMulOfTranspose(a: M.Mat, b: M.Mat, m: nat, n: nat, o: nat)
    requires M.Shaped(a, m, n) && M.Shaped(b, o, n)
    ensures MatMulT(a, b, m, n, o) == M.MatMul(a, M.Transpose(b, o, n), m, n, o)
  {
    var t := M.Transpose(b, o, n);
    forall k | 0 <= k < o ensures M.Col(t, n, o, k) == b[k] {
      assert |M.Col(t, n, o, k)| == n == |b[k]|;
    }
    M.SameEntries(MatMulT(a, b, m, n, o), M.MatMul(a, t, m, n, o), m, o);
  }

  lemma {:induction false} DotCommutes(u: seq<real>, v: seq<real>)
    requires |u| == |v|
    ensures M.Dot(u, v) == M.Dot(v, u)
    decreases |u|
  {
    if |u| > 0 {
      DotCommutes(u[..|u| - 1], v[..|v| - 1]);
    }
  }

  /** (a·b)ᵀ = bᵀ·aᵀ. */
  lemma TransposeOfProduct(a: M.Mat, b: M.Mat, m: nat, n: nat, o: nat)
    requires M.Shaped(a, m, n) && M.Shaped(b, n, o)
    ensures M.Transpose(M.MatMul(a, b, m, n, o), m, o) == M.MatMul(M.Transpose(b, n, o), M.Transpose(a, m, n), o, n, m)
  {
    var l, r := M.Transpose(M.MatMul(a, b, m, n, o), m, o), M.MatMul(M.Transpose(b, n, o), M.Transpose(a, m, n), o, n, m);
    forall k, i | 0 <= k < o && 0 <= i < m ensures l[k][i] == r[k][i] {
      var ta := M.Transpose(a, m, n);
      assert M.Col(ta, n, m, i) == a[i];
      assert M.Transpose(b, n, o)[k] == M.Col(b, n, o, k);
      DotCommutes(a[i], M.Col(b, n, o, k));
    }
    M.SameEntries(l, r, o, m);
  }

  /* first, last and dot of a row vector. */

  /** `first`: the first k entries; k larger than the length panics on the
      index. */
  method First(v: M.Mat, n: nat, k: nat) returns (r: M.Mat)
    requires M.Shaped(v, 1, n) && k <= n
    ensures M.Shaped(r, 1, k) && r[0] == v[0][..k]
  {
    var res := new real[1, k]((_, _) => 0.0);
    for i := 0 to k
      invariant forall l :: 0 <= l < i ==> res[0, l] == v[0][l]
    {
      res[0, i] := v[0][i];
    }
    r := Rows(res);
  }

  /** `last`: the last k entries, read at i + n - k. */
  method Last(v: M.Mat, n: nat, k: nat) returns (r: M.Mat)
    requires M.Shaped(v, 1, n) && k <= n
    ensures M.Shaped(r, 1, k) && r[0] == v[0][n - k..]
  {
    var res := new real[1, k]((_, _) => 0.0);
    for i := 0 to k
      invariant forall l :: 0 <= l < i ==> res[0, l] == v[0][l + n - k]
    {
      res[0, i] := v[0][i + n - k];
    }
    r := Rows(res);
  }

  /** `first(k)` and `last(n - k)` put together give the vector back. */
  lemma FirstLastSplit(v: seq<real>, k: nat)
    requires k <= |v|
    ensures v[..k] + v[|v| - (|v| - k)..] == v
  {
  }

  /** `dot`: entry (0, 0) of a·bᵀ for two rows. */
  method Dot(a: M.Mat, b: M.Mat, n: nat) returns (d: real)
    requires M.Shaped(a, 1, n) && M.Shaped(b, 1, n)
    ensures d == M.Dot(a[0], b[0])
  {
    var p := MatMulTranspose(a, b, 1, n, 1);
    d := p[0][0];
  }

  /** `sum`: the fold of the entries of the row. It is additive. */
  lemma {:induction false} SumAdd(u: seq<real>, v: seq<real>)
    requires |u| == |v|
    ensures Sum(seq(|u|, j requires 0 <= j < |u| => u[j] + v[j])) == Sum(u) + Sum(v)
    decreases |u|
  {
    var w := seq(|u|, j requires 0 <= j < |u| => u[j] + v[j]);
    if |u| > 0 {
      var n := |u| - 1;
      assert w[..n] == seq(n, j requires 0 <= j < n => u[..n][j] + v[..n][j]);
      SumAdd(u[..n], v[..n]);
    }
  }

  /** The sum of a row is its dot product with the row of ones. */
  lemma {:induction false} SumIsDotOnes(v: seq<real>)
    ensures Sum(v) == M.Dot(v, seq(|v|, _ => 1.0))
    decreases |v|
  {
    if |v| > 0 {
      var n := |v| - 1;
      assert seq(|v|, _ => 1.0)[..n] == seq(n, _ => 1.0);
      SumIsDotOnes(v[..n]);
    }
  }

  /* The examples of the documentation, as values of the specifications. */

  /** [[1,2],[3,4]]·[[2,1],[4,3]] = [[10,7],[22,15]]. */
  lemma MatMulDoc()
    ensures M.MatMul([[1.0, 2.0], [3.0, 4.0]], [[2.0, 1.0], [4.0, 3.0]], 2, 2, 2) == [[10.0, 7.0], [22.0, 15.0]]
  {
    var a, b := [[1.0, 2.0], [3.0, 4.0]], [[2.0, 1.0], [4.0, 3.0]];
    var p := M.MatMul(a, b, 2, 2, 2);
    forall i, k | 0 <= i < 2 && 0 <= k < 2 ensures p[i][k] == M.Dot(a[i], M.Col(b, 2, 2, k)) {}
    DotTwo(a[0], M.Col(b, 2, 2, 0));
    DotTwo(a[0], M.Col(b, 2, 2, 1));
    DotTwo(a[1], M.Col(b, 2, 2, 0));
    DotTwo(a[1], M.Col(b, 2, 2, 1));
    M.SameEntries(p, [[10.0, 7.0], [22.0, 15.0]], 2, 2);
  }

  lemma DotTwo(u: seq<real>, v: seq<real>)
    requires |u| == 2 && |v| == 2
    ensures M.Dot(u, v) == u[0] * v[0] + u[1] * v[1]
  {
    M.DotOne(u[..1], v[..1]);
  }

  /** [1,2]ᵀ·[2,1] = [[2,1],[4,2]]. */
  lemma TransposeMatMulDoc()
    ensures M.TrMul([[1.0, 2.0]], [[2.0, 1.0]], 1, 2, 2) == [[2.0, 1.0], [4.0, 2.0]]
  {
    var a, b := [[1.0, 2.0]], [[2.0, 1.0]];
    var p := M.TrMul(a, b, 1, 2, 2);
    M.TrMulRows(a, b, 2, 2, 0, 0);
    M.TrMulRows(a, b, 2, 2, 0, 1);
    M.TrMulRows(a, b, 2, 2, 1, 0);
    M.TrMulRows(a, b, 2, 2, 1, 1);
    M.SameEntries(p, [[2.0, 1.0], [4.0, 2.0]], 2, 2);
  }

  /** [[1,2],[3,4]]·[2,1]ᵀ = [4,10]ᵀ. */
  lemma MatMulTransposeDoc()
    ensures MatMulT([[1.0, 2.0], [3.0, 4.0]], [[2.0, 1.0]], 2, 2, 1) == [[4.0], [10.0]]
  {
    var a, b := [[1.0, 2.0], [3.0, 4.0]], [[2.0, 1.0]];
    var p := MatMulT(a, b, 2, 2, 1);
    DotTwo(a[0], b[0]);
    DotTwo(a[1], b[0]);
    M.SameEntries(p, [[4.0], [10.0]], 2, 1);
  }

  /** [1,2,3,4]·[2,1,4,3] = 28. */
  lemma DotDoc()
    ensures M.Dot([1.0, 2.0, 3.0, 4.0], [2.0, 1.0, 4.0, 3.0]) == 28.0
  {
    var u, v := [1.0, 2.0, 3.0, 4.0], [2.0, 1.0, 4.0, 3.0];
    DotTwo(u[..2], v[..2]);
    assert u[..3][..2] == u[..2] && v[..3][..2] == v[..2];
  }
}
