/** The shared chain-rule coefficient table of src/derivatives.rs. Every
    elementary function f is applied to a dual number x as
    `x.chain_rule(f0, f1, f2, f3)`, where f0..f3 are f and its first three
    derivatives at the real part of x; a first-order type uses f0 and f1 only,
    a second-order type f0..f2 (the `second!`/`third!`/`chain_rule!` macros).
    Values of transcendental functions (exp, ln, sin, sqrt, ...) are parameters
    here; the rational recurrences that the table builds from them are exact. */
module Derivatives {
  /** f and its first three derivatives at one point. */
  datatype Coeffs = Coeffs(f0: real, f1: real, f2: real, f3: real)

  /** `F::epsilon()` for f64: 2^-52. */
  const Epsilon: real := 1.0 / 4503599627370496.0

  function Pow(x: real, n: nat): real {
    if n == 0 then 1.0 else Pow(x, n - 1) * x
  }

  /** `powi` on the real part, for any i32 exponent; a negative exponent
      takes powers of the reciprocal, so it needs a non-zero base. */
  function PowInt(x: real, n: int): real
    requires n >= 0 || x != 0.0
  {
    if n >= 0 then Pow(x, n) else Pow(1.0 / x, -n)
  }

  /** One more factor of x raises the exponent by one. */
  lemma PowIntStep(x: real, k: int, j: int)
    requires k >= 0 || x != 0.0
    requires j == k + 1
    ensures PowInt(x, k) * x == PowInt(x, j)
  {
    if k < 0 {
      var r := 1.0 / x;
      assert r * x == 1.0;
      assert Pow(r, -k) == Pow(r, -k - 1) * r;
    }
  }

  /** The coefficients of the identity function at x. */
  function Identity(x: real): Coeffs {
    Coeffs(x, 1.0, 0.0, 0.0)
  }

  /** Faà di Bruno's formula to third order: the coefficients of f∘g from
      those of g at x and those of f at g(x). Each slot is a function of the
      real coefficients, so that an identity proved once on the reals holds
      for every number type that uses the same slot formulas. */
  function Compose(f: Coeffs, g: Coeffs): Coeffs {
    Coeffs(f.f0, Compose1(f.f1, g.f1), Compose2(f.f1, f.f2, g.f1, g.f2),
           Compose3(f.f1, f.f2, f.f3, g.f1, g.f2, g.f3))
  }

  function Compose1(f1: real, g1: real): real {
    f1 * g1
  }

  function Compose2(f1: real, f2: real, g1: real, g2: real): real {
    f2 * g1 * g1 + f1 * g2
  }

  function Compose3(f1: real, f2: real, f3: real, g1: real, g2: real, g3: real): real {
    f3 * g1 * g1 * g1 + 3.0 * f2 * g1 * g2 + f1 * g3
  }

  /** The coefficients of y ↦ y² and y ↦ y³ at y. */
  function Square(y: real): Coeffs {
    Coeffs(y * y, 2.0 * y, 2.0, 0.0)
  }

  function Cube(y: real): Coeffs {
    Coeffs(y * y * y, 3.0 * y * y, 6.0 * y, 6.0)
  }

  /** `recip`: rec = 1/x, f1 = -f0·rec, f2 = -2·f1·rec, f3 = -3·f2·rec. */
  function Recip(x: real): Coeffs
    requires x != 0.0
  {
    var rec := 1.0 / x;
    var f0 := rec;
    var f1 := -f0 * rec;
    var f2 := f1 * rec * -2.0;
    var f3 := f2 * rec * -3.0;
    Coeffs(f0, f1, f2, f3)
  }

  /** The reciprocal's table is 1/x and its derivatives -1/x², 2/x³, -6/x⁴,
      each coefficient following from the previous one by x·f' = -k·f. */
  lemma RecipCoeffs(x: real)
    requires x != 0.0
    ensures Recip(x).f0 * x == 1.0
    ensures Recip(x).f1 * x == -Recip(x).f0
    ensures Recip(x).f2 * x == -2.0 * Recip(x).f1
    ensures Recip(x).f3 * x == -3.0 * Recip(x).f2
    ensures Recip(x).f1 * x * x == -1.0
    ensures Recip(x).f2 * x * x * x == 2.0
    ensures Recip(x).f3 * x * x * x * x == -6.0
  {
    var rec := 1.0 / x;
    assert rec * x == 1.0;
    var c := Recip(x);
    assert c.f1 * x == -rec * (rec * x);
    assert c.f2 * x == -2.0 * c.f1 * (rec * x);
    assert c.f3 * x == -3.0 * c.f2 * (rec * x);
  }

  /** The reciprocal is an involution: the table composed with itself is the
      identity's table. */
  lemma RecipInvolution(x: real)
    requires x != 0.0
    ensures Compose(Recip(1.0 / x), Recip(x)) == Identity(x)
  {
    var r := 1.0 / x;
    assert x * r == 1.0;
    assert 1.0 / r == x;
    RecipTable(x, r);
    RecipTable(r, x);
    InvolutionSlots(x, r);
  }

  /** The reciprocal's table written with r = 1/x: r, -r², 2r³, -6r⁴. */
  lemma RecipTable(x: real, r: real)
    requires x != 0.0 && r == 1.0 / x
    ensures Recip(x) == Coeffs(r, -r * r, 2.0 * r * r * r, -6.0 * r * r * r * r)
  {
    var c := Recip(x);
    assert c.f1 == -r * r;
    assert c.f2 == -r * r * r * -2.0;
    assert c.f3 == -r * r * r * -2.0 * r * -3.0;
  }

  /** The slots of the composed table, for x·r = 1. */
  lemma InvolutionSlots(x: real, r: real)
    requires x * r == 1.0
    ensures Compose1(-x * x, -r * r) == 1.0
    ensures Compose2(-x * x, 2.0 * x * x * x, -r * r, 2.0 * r * r * r) == 0.0
    ensures Compose3(-x * x, 2.0 * x * x * x, -6.0 * x * x * x * x, -r * r, 2.0 * r * r * r, -6.0 * r * r * r * r) == 0.0
  {
    var p := x * r;
    assert (-x * x) * (-r * r) == p * p;
    assert 2.0 * x * x * x * (-r * r) * (-r * r) == 2.0 * p * p * p * r;
    assert (-x * x) * (2.0 * r * r * r) == -2.0 * p * p * r;
    assert -6.0 * x * x * x * x * (-r * r) * (-r * r) * (-r * r) == 6.0 * p * p * p * p * r * r;
    assert 3.0 * (2.0 * x * x * x) * (-r * r) * (2.0 * r * r * r) == -12.0 * p * p * p * r * r;
    assert (-x * x) * (-6.0 * r * r * r * r) == 6.0 * p * p * r * r;
  }

  /** What `powi` and `powf` compute, after their special cases. */
  datatype PowPlan = UseOne | UseSelf | UseSquare | UseChain(c: Coeffs)

  /** The table of y ↦ y^n at x, from pow3 = x^(n-3): x^n, n·x^(n-1),
      n(n-1)·x^(n-2) and n(n-1)(n-2)·x^(n-3), shared by `powi` and `powf`. */
  function Falling(x: real, n: real, pow3: real): Coeffs {
    Coeffs(pow3 * x * x * x, pow3 * x * x * n, pow3 * x * n * (n - 1.0), pow3 * n * (n - 1.0) * (n - 2.0))
  }

  /** The falling-factorial table solves x·f' = n·f: each coefficient follows
      from the previous one, as the arbitrary-order loop of hd_scal.rs
      computes them. */
  lemma FallingRecurrence(x: real, n: real, pow3: real)
    ensures Falling(x, n, pow3).f0 == pow3 * x * x * x
    ensures Falling(x, n, pow3).f1 * x == n * Falling(x, n, pow3).f0
    ensures Falling(x, n, pow3).f2 * x == (n - 1.0) * Falling(x, n, pow3).f1
    ensures Falling(x, n, pow3).f3 * x == (n - 2.0) * Falling(x, n, pow3).f2
  {
    RecurrenceSlots(Falling(x, n, pow3).f0, Falling(x, n, pow3).f1, Falling(x, n, pow3).f2,
                    Falling(x, n, pow3).f3, pow3, x, n);
  }

  lemma RecurrenceSlots(p0: real, p1: real, p2: real, p3: real, a: real, x: real, n: real)
    requires p0 == a * x * x * x && p1 == a * x * x * n
    requires p2 == a * x * n * (n - 1.0) && p3 == a * n * (n - 1.0) * (n - 2.0)
    ensures p1 * x == n * p0 && p2 * x == (n - 1.0) * p1 && p3 * x == (n - 2.0) * p2
  {
  }

  /** One more factor of x in pow3 and one more in the exponent: the table
      for n + 1 is the table for n times the identity's, by Leibniz's rule. */
  lemma FallingStep(x: real, n: real, pow3: real)
    ensures Falling(x, n + 1.0, pow3 * x) == Product(Falling(x, n, pow3), Identity(x))
  {
    FallingStep1(x, n, pow3);
    FallingStep2(x, n, pow3);
    FallingStep3(x, n, pow3);
  }

  lemma FallingStep1(x: real, n: real, pow3: real)
    ensures Falling(x, n + 1.0, pow3 * x).f1 == Product(Falling(x, n, pow3), Identity(x)).f1
  {
    StepSlot1(Falling(x, n, pow3).f0, Falling(x, n, pow3).f1, Falling(x, n + 1.0, pow3 * x).f1, pow3, x, n);
  }

  lemma FallingStep2(x: real, n: real, pow3: real)
    ensures Falling(x, n + 1.0, pow3 * x).f2 == Product(Falling(x, n, pow3), Identity(x)).f2
  {
    StepSlot2(Falling(x, n, pow3).f1, Falling(x, n, pow3).f2, Falling(x, n + 1.0, pow3 * x).f2, pow3, x, n);
  }

  lemma FallingStep3(x: real, n: real, pow3: real)
    ensures Falling(x, n + 1.0, pow3 * x).f3 == Product(Falling(x, n, pow3), Identity(x)).f3
  {
    StepSlot3(Falling(x, n, pow3).f2, Falling(x, n, pow3).f3, Falling(x, n + 1.0, pow3 * x).f3, pow3, x, n);
  }

  lemma StepSlot1(p0: real, p1: real, q1: real, a: real, x: real, n: real)
    requires p0 == a * x * x * x && p1 == a * x * x * n && q1 == a * x * x * x * (n + 1.0)
    ensures q1 == p1 * x + p0 * 1.0
  {
  }
  lemma StepSlot2(p1: real, p2: real, q2: real, a: real, x: real, n: real)
    requires p1 == a * x * x * n && p2 == a * x * n * (n - 1.0)
    requires q2 == a * x * x * (n + 1.0) * (n + 1.0 - 1.0)
    ensures q2 == p2 * x + 2.0 * p1 * 1.0
  {
    var c := a * x * x * n;
    assert q2 == c * (n + 1.0);
    assert p2 * x == c * (n - 1.0);
  }
  lemma StepSlot3(p2: real, p3: real, q3: real, a: real, x: real, n: real)
    requires p2 == a * x * n * (n - 1.0) && p3 == a * n * (n - 1.0) * (n - 2.0)
    requires q3 == a * x * (n + 1.0) * (n + 1.0 - 1.0) * (n + 1.0 - 2.0)
    ensures q3 == p3 * x + 3.0 * p2 * 1.0
  {
    var c := a * x * n * (n - 1.0);
    assert q3 == c * (n + 1.0);
    assert p3 * x == c * (n - 2.0);
  }

  /** `powi(n)`: 0 gives one, 1 the number itself, 2 its square; otherwise
      the falling-factorial table from pow3 = re^(n-3). The coefficients
      n(n-1) and n(n-1)(n-2) are computed exactly. */
  function PowI(x: real, n: int): (p: PowPlan)
    requires n >= 0 || x != 0.0
    ensures p.UseOne? <==> n == 0
    ensures p.UseSelf? <==> n == 1
    ensures p.UseSquare? <==> n == 2
  {
    if n == 0 then UseOne
    else if n == 1 then UseSelf
    else if n == 2 then UseSquare
    else UseChain(Falling(x, n as real, PowInt(x, n - 3)))
  }

  /** Beyond the square, `powi(n)` is the chain rule with the table c whose
      first three coefficients are x^n, n·x^(n-1) and n(n-1)·x^(n-2). */
  lemma PowIChain(x: real, n: int, f0: real, f1: real, f2: real) returns (c: Coeffs)
    requires n >= 0 || x != 0.0
    requires n != 0 && n != 1 && n != 2
    requires f0 == PowInt(x, n) && f1 == (n as real) * PowInt(x, n - 1)
    requires f2 == (n as real) * ((n as real) - 1.0) * PowInt(x, n - 2)
    ensures PowI(x, n) == UseChain(c) && c.f0 == f0 && c.f1 == f1 && c.f2 == f2
  {
    c := PowI(x, n).c;
    PowILeading(x, n);
    PowISlope(x, n);
    PowICurvature(x, n);
  }

  /** The leading coefficient of `powi(n)` is x^n. */
  lemma PowILeading(x: real, n: int)
    requires n >= 0 || x != 0.0
    requires PowI(x, n).UseChain?
    ensures PowI(x, n).c.f0 == PowInt(x, n)
  {
    var p3, p0 := PowInt(x, n - 3), PowInt(x, n);
    PowIntCube(x, n - 3, n);
    assert PowI(x, n).c == Falling(x, n as real, p3);
    FallingLeading(x, n as real, p3, p0);
  }

  lemma FallingLeading(x: real, n: real, pow3: real, p: real)
    requires pow3 * x * x * x == p
    ensures Falling(x, n, pow3).f0 == p
  {
  }

  /** Its first derivative is n·x^(n-1). */
  lemma PowISlope(x: real, n: int)
    requires n >= 0 || x != 0.0
    requires PowI(x, n).UseChain?
    ensures PowI(x, n).c.f1 == (n as real) * PowInt(x, n - 1)
  {
    var p3, p2, p1 := PowInt(x, n - 3), PowInt(x, n - 2), PowInt(x, n - 1);
    PowIntStep(x, n - 3, n - 2);
    PowIntStep(x, n - 2, n - 1);
    assert PowI(x, n).c == Falling(x, n as real, p3);
    FallingSlope(x, n as real, p3, p2, p1);
  }

  lemma FallingSlope(x: real, n: real, pow3: real, p2: real, p1: real)
    requires pow3 * x == p2 && p2 * x == p1
    ensures Falling(x, n, pow3).f1 == n * p1
  {
  }

  /** Its second derivative is n(n-1)·x^(n-2). */
  lemma PowICurvature(x: real, n: int)
    requires n >= 0 || x != 0.0
    requires PowI(x, n).UseChain?
    ensures PowI(x, n).c.f2 == (n as real) * ((n as real) - 1.0) * PowInt(x, n - 2)
  {
    var p3, p2 := PowInt(x, n - 3), PowInt(x, n - 2);
    PowIntStep(x, n - 3, n - 2);
    assert PowI(x, n).c == Falling(x, n as real, p3);
    FallingCurvature(x, n as real, p3, p2);
  }

  lemma FallingCurvature(x: real, n: real, pow3: real, p2: real)
    requires pow3 * x == p2
    ensures Falling(x, n, pow3).f2 == n * (n - 1.0) * p2
  {
  }

  /** Three more factors of x raise the exponent by three. */
  lemma PowIntCube(x: real, k: int, j: int)
    requires k >= 0 || x != 0.0
    requires j == k + 3
    ensures PowInt(x, k) * x * x * x == PowInt(x, j)
  {
    var p3, p2, p1 := PowInt(x, k), PowInt(x, k + 1), PowInt(x, k + 2);
    PowIntStep(x, k, k + 1);
    PowIntStep(x, k + 1, k + 2);
    PowIntStep(x, k + 2, j);
    CubeChain(p3 * x * x * x, p3, p2, p1, PowInt(x, j), x);
  }

  lemma CubeChain(c0: real, p3: real, p2: real, p1: real, p0: real, x: real)
    requires c0 == p3 * x * x * x && p3 * x == p2 && p2 * x == p1 && p1 * x == p0
    ensures c0 == p0
  {
  }

  /** y² is y·y and y³ is y²·y under Leibniz's rule; these are the special
      cases of `powi` (2 squares, 3 takes the chain rule). */
  lemma PowISquare(x: real)
    ensures Square(x) == Product(Identity(x), Identity(x))
  {
    var g := Identity(x);
    SquareSlots(g.f0, g.f1, g.f2, g.f3, x);
  }

  lemma SquareSlots(g0: real, g1: real, g2: real, g3: real, x: real)
    requires g0 == x && g1 == 1.0 && g2 == 0.0 && g3 == 0.0
    ensures x * x == g0 * g0 && 2.0 * x == g1 * g0 + g0 * g1
    ensures 2.0 == g2 * g0 + 2.0 * g1 * g1 + g0 * g2
    ensures 0.0 == g3 * g0 + 3.0 * g2 * g1 + 3.0 * g1 * g2 + g0 * g3
  {
  }

  lemma PowICube(x: real)
    ensures PowI(x, 3).UseChain? && PowI(x, 3).c == Product(Square(x), Identity(x))
  {
    var c := PowI(x, 3).c;
    var s := Square(x);
    var g := Identity(x);
    assert PowInt(x, 0) == 1.0;
    CubeSlots(c.f0, c.f1, c.f2, c.f3, s.f0, s.f1, s.f2, s.f3, g.f0, g.f1, g.f2, g.f3, x);
  }

  lemma CubeSlots(p0: real, p1: real, p2: real, p3: real, s0: real, s1: real, s2: real, s3: real,
                  g0: real, g1: real, g2: real, g3: real, x: real)
    requires p0 == 1.0 * x * x * x && p1 == 1.0 * x * x * 3.0
    requires p2 == 1.0 * x * 3.0 * (3.0 - 1.0) && p3 == 1.0 * 3.0 * (3.0 - 1.0) * (3.0 - 1.0 - 1.0)
    requires s0 == x * x && s1 == 2.0 * x && s2 == 2.0 && s3 == 0.0
    requires g0 == x && g1 == 1.0 && g2 == 0.0 && g3 == 0.0
    ensures p0 == s0 * g0 && p1 == s1 * g0 + s0 * g1
    ensures p2 == s2 * g0 + 2.0 * s1 * g1 + s0 * g2
    ensures p3 == s3 * g0 + 3.0 * s2 * g1 + 3.0 * s1 * g2 + s0 * g3
  {
  }

  /** Away from the special cases (from 3 upwards, and below -1), the
      coefficients `powi` takes for n + 1 are those for n times the
      identity's. */
  lemma PowIChainStep(x: real, n: int)
    requires n >= 3 || (n <= -2 && x != 0.0)
    ensures PowI(x, n).UseChain? && PowI(x, n + 1).UseChain?
    ensures PowI(x, n + 1).c == Product(PowI(x, n).c, Identity(x))
  {
    var p := PowInt(x, n - 3);
    PowIntStep(x, n - 3, n + 1 - 3);
    assert (n + 1) as real == n as real + 1.0;
    FallingStep(x, n as real, p);
    assert PowI(x, n).c == Falling(x, n as real, p);
    assert PowI(x, n + 1).c == Falling(x, (n + 1) as real, PowInt(x, n + 1 - 3));
    assert PowInt(x, n + 1 - 3) == p * x;
  }

  /** At -1 the step reaches `powi(0)`: the coefficients of x^-1 times the
      identity's are those of the constant one. */
  lemma PowIReciprocalStep(x: real)
    requires x != 0.0
    ensures PowI(x, -1).UseChain?
    ensures Product(PowI(x, -1).c, Identity(x)) == Const(1.0)
  {
    var p := PowInt(x, -4);
    PowIntStep(x, -4, -3);
    PowIntCube(x, -3, 0);
    FallingStep(x, -1.0, p);
    assert PowI(x, -1).c == Falling(x, -1.0, p);
    assert PowInt(x, 0) == 1.0;
  }

  /** The coefficients of a constant function. */
  function Const(c: real): Coeffs {
    Coeffs(c, 0.0, 0.0, 0.0)
  }

  /** Leibniz's rule to third order: the coefficients of f·g. */
  function Product(f: Coeffs, g: Coeffs): Coeffs {
    Coeffs(Product0(f.f0, g.f0), Product1(f.f0, f.f1, g.f0, g.f1), Product2(f.f0, f.f1, f.f2, g.f0, g.f1, g.f2),
           Product3(f.f0, f.f1, f.f2, f.f3, g.f0, g.f1, g.f2, g.f3))
  }

  function Product0(a0: real, b0: real): real {
    a0 * b0
  }

  function Product1(a0: real, a1: real, b0: real, b1: real): real {
    a1 * b0 + a0 * b1
  }

  function Product2(a0: real, a1: real, a2: real, b0: real, b1: real, b2: real): real {
    a2 * b0 + 2.0 * a1 * b1 + a0 * b2
  }

  function Product3(a0: real, a1: real, a2: real, a3: real, b0: real, b1: real, b2: real, b3: real): real {
    a3 * b0 + 3.0 * a2 * b1 + 3.0 * a1 * b2 + a0 * b3
  }

  /** The reciprocal's coefficients are the multiplicative inverse of the
      identity's under Leibniz's rule. */
  lemma RecipProduct(x: real)
    requires x != 0.0
    ensures Product(Identity(x), Recip(x)) == Const(1.0)
  {
    var g := Identity(x);
    var r := Recip(x);
    RecipProductSlots(g.f0, g.f1, g.f2, g.f3, r.f0, r.f1, r.f2, r.f3, x, 1.0 / x);
  }

  lemma RecipProductSlots(g0: real, g1: real, g2: real, g3: real, r0: real, r1: real, r2: real, r3: real,
                          x: real, rec: real)
    requires rec * x == 1.0
    requires g0 == x && g1 == 1.0 && g2 == 0.0 && g3 == 0.0
    requires r0 == rec && r1 == -r0 * rec && r2 == r1 * rec * -2.0 && r3 == r2 * rec * -3.0
    ensures g0 * r0 == 1.0 && g1 * r0 + g0 * r1 == 0.0
    ensures g2 * r0 + 2.0 * g1 * r1 + g0 * r2 == 0.0
    ensures g3 * r0 + 3.0 * g2 * r1 + 3.0 * g1 * r2 + g0 * r3 == 0.0
  {
    assert g0 * r1 == -rec * (rec * x);
    assert g0 * r2 == 2.0 * rec * rec * (rec * x);
    assert g0 * r3 == -6.0 * rec * rec * rec * (rec * x);
  }

  /** `powf(n)` with pow3 = re^(n-3) supplied: zero and one are special, an
      exponent within epsilon of two squares the number, and otherwise the
      falling-factorial table. */
  function PowF(x: real, n: real, pow3: real): (p: PowPlan)
    ensures p.UseOne? <==> n == 0.0
    ensures p.UseSelf? <==> n == 1.0
    ensures p.UseSquare? <==> n != 0.0 && n != 1.0 && -Epsilon < n - 2.0 < Epsilon
    ensures p.UseChain? ==> p.c == Falling(x, n, pow3)
  {
    if n == 0.0 then UseOne
    else if n == 1.0 then UseSelf
    else if (if n - 1.0 - 1.0 >= 0.0 then n - 1.0 - 1.0 else -(n - 1.0 - 1.0)) < Epsilon then UseSquare
    else UseChain(Falling(x, n, pow3))
  }

  /** `sqrt` with s = √x supplied: the power recurrence with exponent 1/2. */
  function Sqrt(x: real, s: real): (c: Coeffs)
    requires x != 0.0
    ensures c.f0 == s
    ensures c.f1 * x == 0.5 * c.f0 && c.f2 * x == -0.5 * c.f1 && c.f3 * x == -1.5 * c.f2
  {
    var rec := 1.0 / x;
    var half := 0.5;
    var f0 := s;
    var f1 := f0 * rec * half;
    var f2 := -f1 * rec * half;
    var f3 := f2 * rec * (-1.0 - half);
    assert rec * x == 1.0;
    assert f1 * x == f0 * half * (rec * x);
    assert f2 * x == -f1 * half * (rec * x);
    assert f3 * x == f2 * (-1.0 - half) * (rec * x);
    Coeffs(f0, f1, f2, f3)
  }

  /** Squaring undoes the square root: with s·s = x the composed table is
      the identity's. */
  lemma SqrtSquare(x: real, s: real)
    requires x != 0.0 && s * s == x
    ensures Compose(Square(s), Sqrt(x, s)) == Identity(x)
  {
    var g := Sqrt(x, s);
    var r := 1.0 / x;
    assert x * r == 1.0;
    assert g.f1 == s * r * 0.5;
    assert g.f2 == -s * r * r * 0.25;
    assert g.f3 == s * r * r * r * 0.375;
    var h := Compose(Square(s), g);
    assert h.f1 == (s * s) * r;
    assert h.f2 == 0.5 * (s * s) * r * r - 0.5 * (s * s) * r * r;
    assert h.f3 == -0.75 * (s * s) * r * r * r + 0.75 * (s * s) * r * r * r;
  }

  /** `cbrt` with c = ∛x supplied: the power recurrence with exponent 1/3. */
  function Cbrt(x: real, c: real): (k: Coeffs)
    requires x != 0.0
    ensures k.f0 == c
    ensures 3.0 * k.f1 * x == k.f0 && 3.0 * k.f2 * x == -2.0 * k.f1 && 3.0 * k.f3 * x == -5.0 * k.f2
  {
    var rec := 1.0 / x;
    var third := 1.0 / 3.0;
    var f0 := c;
    var f1 := f0 * rec * third;
    var f2 := f1 * rec * (third - 1.0);
    var f3 := f2 * rec * (third - 1.0 - 1.0);
    assert rec * x == 1.0;
    assert 3.0 * f1 * x == f0 * (rec * x);
    assert 3.0 * f2 * x == -2.0 * f1 * (rec * x);
    assert 3.0 * f3 * x == -5.0 * f2 * (rec * x);
    Coeffs(f0, f1, f2, f3)
  }

  /** Cubing undoes the cube root. */
  lemma CbrtCube(x: real, c: real)
    requires x != 0.0 && c * c * c == x
    ensures Compose(Cube(c), Cbrt(x, c)) == Identity(x)
  {
    var g := Cbrt(x, c);
    var r := 1.0 / x;
    assert x * r == 1.0;
    var c3 := c * c * c;
    assert g.f1 == c * r / 3.0;
    assert g.f2 == -2.0 * c * r * r / 9.0;
    assert g.f3 == 10.0 * c * r * r * r / 27.0;
    var h := Compose(Cube(c), g);
    assert h.f1 == c3 * r;
    assert h.f2 == 6.0 * c * (c * r / 3.0) * (c * r / 3.0) + 3.0 * c * c * (-2.0 * c * r * r / 9.0);
    assert h.f2 == (2.0 / 3.0) * c3 * r * r - (2.0 / 3.0) * c3 * r * r;
    assert h.f3 == 6.0 * (c * r / 3.0) * (c * r / 3.0) * (c * r / 3.0)
                   + 3.0 * (6.0 * c) * (c * r / 3.0) * (-2.0 * c * r * r / 9.0)
                   + 3.0 * c * c * (10.0 * c * r * r * r / 27.0);
    assert h.f3 == (6.0 / 27.0) * c3 * r * r * r - (36.0 / 27.0) * c3 * r * r * r + (30.0 / 27.0) * c3 * r * r * r;
  }

  /** `exp` with e = exp(x) supplied: every derivative equals the value. */
  function Exp(e: real): (c: Coeffs)
    ensures c.f1 == c.f0 && c.f2 == c.f1 && c.f3 == c.f2 && c.f0 == e
  {
    Coeffs(e, e, e, e)
  }

  /** `exp2` with e = 2^x and ln2 = ln 2 supplied: each derivative is the
      previous one times ln 2. */
  function Exp2(e: real, ln2: real): (c: Coeffs)
    ensures c.f0 == e && c.f1 == c.f0 * ln2 && c.f2 == c.f1 * ln2 && c.f3 == c.f2 * ln2
  {
    var f1 := e * ln2;
    var f2 := f1 * ln2;
    var f3 := f2 * ln2;
    Coeffs(e, f1, f2, f3)
  }

  /** `exp_m1` with em1 = exp(x) - 1 and e = exp(x) supplied: the derivatives
      are those of exp. */
  function ExpM1(em1: real, e: real): (c: Coeffs)
    ensures c.f0 == em1 && c.f1 == Exp(e).f1 && c.f2 == Exp(e).f2 && c.f3 == Exp(e).f3
  {
    Coeffs(em1, e, e, e)
  }

  /** `ln` with l = ln(x) supplied: the derivatives of ln are the reciprocal's
      table shifted by one. */
  function Ln(x: real, l: real): (c: Coeffs)
    requires x != 0.0
    ensures c.f0 == l
    ensures c.f1 == Recip(x).f0 && c.f2 == Recip(x).f1 && c.f3 == Recip(x).f2
  {
    var rec := 1.0 / x;
    var f1 := rec;
    var f2 := -f1 * rec;
    var f3 := f2 * rec * -2.0;
    Coeffs(l, f1, f2, f3)
  }

  /** The exponential undoes the logarithm: exp's table at ln(x), whose value
      is x, composed with ln's table at x is the identity's. */
  lemma ExpLn(x: real, l: real)
    requires x != 0.0
    ensures Compose(Exp(x), Ln(x, l)) == Identity(x)
  {
    var r := 1.0 / x;
    assert x * r == 1.0;
    var g := Ln(x, l);
    assert g == Coeffs(l, r, -r * r, 2.0 * r * r * r);
    var h := Compose(Exp(x), g);
    assert h.f1 == x * r;
    assert h.f2 == (x * r) * r - (x * r) * r;
    assert h.f3 == (x * r) * r * r - 3.0 * (x * r) * r * r + 2.0 * (x * r) * r * r;
  }

  /** `log(base)` with lg = log_b(x) and lnb = ln(base) supplied: ln's
      derivatives divided by ln(base). */
  function Log(x: real, lg: real, lnb: real): (c: Coeffs)
    requires x != 0.0 && lnb != 0.0
    ensures c.f0 == lg
    ensures c.f1 * lnb == Ln(x, lg).f1 && c.f2 * lnb == Ln(x, lg).f2 && c.f3 * lnb == Ln(x, lg).f3
  {
    var rec := 1.0 / x;
    var f1 := rec / lnb;
    var f2 := -f1 * rec;
    var f3 := f2 * rec * -2.0;
    Coeffs(lg, f1, f2, f3)
  }

  /** `log2` with ln2 = ln(2) supplied: `log` with base 2. */
  function Log2(x: real, lg: real, ln2: real): (c: Coeffs)
    requires x != 0.0 && ln2 != 0.0
    ensures c == Log(x, lg, ln2)
  {
    var rec := 1.0 / x;
    var f1 := rec / ln2;
    var f2 := -f1 * rec;
    var f3 := f2 * rec * -2.0;
    Coeffs(lg, f1, f2, f3)
  }

  /** `log10` with ln10 = ln(10) supplied: `log` with base 10. */
  function Log10(x: real, lg: real, ln10: real): (c: Coeffs)
    requires x != 0.0 && ln10 != 0.0
    ensures c == Log(x, lg, ln10)
  {
    var rec := 1.0 / x;
    var f1 := rec / ln10;
    var f2 := -f1 * rec;
    var f3 := f2 * rec * -2.0;
    Coeffs(lg, f1, f2, f3)
  }

  /** `ln_1p` with l = ln(1 + x) supplied: `ln` taken at 1 + x. */
  function Ln1p(x: real, l: real): (c: Coeffs)
    requires x + 1.0 != 0.0
    ensures c == Ln(x + 1.0, l)
  {
    var rec := 1.0 / (x + 1.0);
    var f1 := rec;
    var f2 := -f1 * rec;
    var f3 := f2 * rec * -2.0;
    Coeffs(l, f1, f2, f3)
  }

  /** `sin` with s = sin(x), c = cos(x) supplied: f'' = -f. */
  function Sin(s: real, c: real): (k: Coeffs)
    ensures k.f0 == s && k.f1 == c && k.f2 == -k.f0 && k.f3 == -k.f1
  {
    Coeffs(s, c, -s, -c)
  }

  /** `cos`: its table is sin's shifted by one derivative. */
  function Cos(s: real, c: real): (k: Coeffs)
    ensures k.f0 == Sin(s, c).f1 && k.f1 == Sin(s, c).f2 && k.f2 == Sin(s, c).f3 && k.f3 == -k.f1
  {
    Coeffs(c, -s, -c, s)
  }

  /** `sinh` with s = sinh(x), c = cosh(x) supplied: f'' = f. */
  function Sinh(s: real, c: real): (k: Coeffs)
    ensures k.f0 == s && k.f1 == c && k.f2 == k.f0 && k.f3 == k.f1
  {
    Coeffs(s, c, s, c)
  }

  /** `cosh`: sinh's table shifted by one derivative. */
  function Cosh(s: real, c: real): (k: Coeffs)
    ensures k.f0 == Sinh(s, c).f1 && k.f1 == Sinh(s, c).f2 && k.f2 == Sinh(s, c).f3 && k.f3 == k.f1
  {
    Coeffs(c, s, c, s)
  }

  /** `asin` with a = asin(x) and q = √(1/(1-x²)) supplied: the derivatives
      solve (1-x²)·f2 = x·f1 and (1-x²)·f3 = 3x·f2 + f1. */
  function Asin(x: real, a: real, q: real): (k: Coeffs)
    requires 1.0 - x * x != 0.0
    ensures k.f0 == a && k.f1 == q
    ensures (1.0 - x * x) * k.f2 == x * k.f1
    ensures (1.0 - x * x) * k.f3 == 3.0 * x * k.f2 + k.f1
  {
    var rec := 1.0 / (1.0 - x * x);
    var f1 := q;
    var f2 := x * f1 * rec;
    var f3 := (x * x * 2.0 + 1.0) * f1 * rec * rec;
    assert rec * (1.0 - x * x) == 1.0;
    assert (1.0 - x * x) * f2 == x * f1 * (rec * (1.0 - x * x));
    assert 3.0 * x * f2 + f1 == f1 * rec * (3.0 * x * x + (1.0 - x * x)) by {
      assert f1 == f1 * (rec * (1.0 - x * x));
    }
    assert (1.0 - x * x) * f3 == (x * x * 2.0 + 1.0) * f1 * rec * (rec * (1.0 - x * x));
    Coeffs(a, f1, f2, f3)
  }

  /** `acos`: asin's table with every derivative negated, as acos = π/2 - asin. */
  function Acos(x: real, a: real, q: real): (k: Coeffs)
    requires 1.0 - x * x != 0.0
    ensures k.f0 == a
    ensures k.f1 == -Asin(x, a, q).f1 && k.f2 == -Asin(x, a, q).f2 && k.f3 == -Asin(x, a, q).f3
  {
    var rec := 1.0 / (1.0 - x * x);
    var f1 := -q;
    var f2 := x * f1 * rec;
    var f3 := (x * x * 2.0 + 1.0) * f1 * rec * rec;
    Coeffs(a, f1, f2, f3)
  }

  /** `atan` with a = atan(x) supplied: (1+x²)·f1 = 1, (1+x²)·f2 = -2x·f1,
      (1+x²)·f3 = -4x·f2 - 2·f1. */
  function Atan(x: real, a: real): (k: Coeffs)
    ensures k.f0 == a
    ensures (1.0 + x * x) * k.f1 == 1.0
    ensures (1.0 + x * x) * k.f2 == -2.0 * x * k.f1
    ensures (1.0 + x * x) * k.f3 == -4.0 * x * k.f2 - 2.0 * k.f1
  {
    assert 1.0 + x * x > 0.0;
    var rec := 1.0 / (1.0 + x * x);
    var f1 := rec;
    var two := 1.0 + 1.0;
    var f2 := -x * f1 * rec * two;
    var f3 := (x * x * 6.0 - two) * f1 * rec * rec;
    assert rec * (1.0 + x * x) == 1.0;
    assert (1.0 + x * x) * f2 == -2.0 * x * f1 * (rec * (1.0 + x * x));
    assert -4.0 * x * f2 - 2.0 * f1 == f1 * rec * (8.0 * x * x - 2.0 * (1.0 + x * x)) by {
      assert f1 == f1 * (rec * (1.0 + x * x));
    }
    assert (1.0 + x * x) * f3 == (x * x * 6.0 - two) * f1 * rec * (rec * (1.0 + x * x));
    Coeffs(a, f1, f2, f3)
  }

  /** `asinh` with a = asinh(x) and q = √(1/(1+x²)) supplied:
      (1+x²)·f2 = -x·f1, (1+x²)·f3 = -3x·f2 - f1. */
  function Asinh(x: real, a: real, q: real): (k: Coeffs)
    ensures k.f0 == a && k.f1 == q
    ensures (1.0 + x * x) * k.f2 == -x * k.f1
    ensures (1.0 + x * x) * k.f3 == -3.0 * x * k.f2 - k.f1
  {
    assert 1.0 + x * x > 0.0;
    var rec := 1.0 / (1.0 + x * x);
    var f1 := q;
    var f2 := -x * f1 * rec;
    var f3 := (x * x * 2.0 - 1.0) * f1 * rec * rec;
    assert rec * (1.0 + x * x) == 1.0;
    assert (1.0 + x * x) * f2 == -x * f1 * (rec * (1.0 + x * x));
    assert -3.0 * x * f2 - f1 == f1 * rec * (3.0 * x * x - (1.0 + x * x)) by {
      assert f1 == f1 * (rec * (1.0 + x * x));
    }
    assert (1.0 + x * x) * f3 == (x * x * 2.0 - 1.0) * f1 * rec * (rec * (1.0 + x * x));
    Coeffs(a, f1, f2, f3)
  }

  /** `acosh` with a = acosh(x) and q = √(1/(x²-1)) supplied:
      (x²-1)·f2 = -x·f1, (x²-1)·f3 = -3x·f2 - f1. */
  function Acosh(x: real, a: real, q: real): (k: Coeffs)
    requires x * x - 1.0 != 0.0
    ensures k.f0 == a && k.f1 == q
    ensures (x * x - 1.0) * k.f2 == -x * k.f1
    ensures (x * x - 1.0) * k.f3 == -3.0 * x * k.f2 - k.f1
  {
    var rec := 1.0 / (x * x - 1.0);
    var f1 := q;
    var f2 := -x * f1 * rec;
    var f3 := (x * x * 2.0 + 1.0) * f1 * rec * rec;
    assert rec * (x * x - 1.0) == 1.0;
    assert (x * x - 1.0) * f2 == -x * f1 * (rec * (x * x - 1.0));
    assert -3.0 * x * f2 - f1 == f1 * rec * (3.0 * x * x - (x * x - 1.0)) by {
      assert f1 == f1 * (rec * (x * x - 1.0));
    }
    assert (x * x - 1.0) * f3 == (x * x * 2.0 + 1.0) * f1 * rec * (rec * (x * x - 1.0));
    Coeffs(a, f1, f2, f3)
  }

  /** `atanh` with a = atanh(x) supplied: (1-x²)·f1 = 1, (1-x²)·f2 = 2x·f1,
      (1-x²)·f3 = 4x·f2 + 2·f1. */
  function Atanh(x: real, a: real): (k: Coeffs)
    requires 1.0 - x * x != 0.0
    ensures k.f0 == a
    ensures (1.0 - x * x) * k.f1 == 1.0
    ensures (1.0 - x * x) * k.f2 == 2.0 * x * k.f1
    ensures (1.0 - x * x) * k.f3 == 4.0 * x * k.f2 + 2.0 * k.f1
  {
    var rec := 1.0 / (1.0 - x * x);
    var f1 := rec;
    var two := 1.0 + 1.0;
    var f2 := x * f1 * rec * two;
    var f3 := (x * x * 6.0 + two) * f1 * rec * rec;
    assert rec * (1.0 - x * x) == 1.0;
    assert (1.0 - x * x) * f2 == 2.0 * x * f1 * (rec * (1.0 - x * x));
    assert 4.0 * x * f2 + 2.0 * f1 == f1 * rec * (8.0 * x * x + 2.0 * (1.0 - x * x)) by {
      assert f1 == f1 * (rec * (1.0 - x * x));
    }
    assert (1.0 - x * x) * f3 == (x * x * 6.0 + two) * f1 * rec * (rec * (1.0 - x * x));
    Coeffs(a, f1, f2, f3)
  }

  /** Leibniz's rule commutes with composition: the product of f∘h and g∘h
      is (f·g)∘h. */
  lemma ProductCompose(f: Coeffs, g: Coeffs, h: Coeffs)
    ensures Product(Compose(f, h), Compose(g, h)) == Compose(Product(f, g), h)
  {
    ProductComposeSlots(f.f0, f.f1, f.f2, f.f3, g.f0, g.f1, g.f2, g.f3, h.f1, h.f2, h.f3);
  }

  lemma ProductComposeSlots(f0: real, f1: real, f2: real, f3: real, g0: real, g1: real, g2: real, g3: real,
                            h1: real, h2: real, h3: real)
    ensures Product1(f0, Compose1(f1, h1), g0, Compose1(g1, h1)) == Compose1(Product1(f0, f1, g0, g1), h1)
    ensures Product2(f0, Compose1(f1, h1), Compose2(f1, f2, h1, h2), g0, Compose1(g1, h1), Compose2(g1, g2, h1, h2))
         == Compose2(Product1(f0, f1, g0, g1), Product2(f0, f1, f2, g0, g1, g2), h1, h2)
    ensures Product3(f0, Compose1(f1, h1), Compose2(f1, f2, h1, h2), Compose3(f1, f2, f3, h1, h2, h3),
                     g0, Compose1(g1, h1), Compose2(g1, g2, h1, h2), Compose3(g1, g2, g3, h1, h2, h3))
         == Compose3(Product1(f0, f1, g0, g1), Product2(f0, f1, f2, g0, g1, g2),
                     Product3(f0, f1, f2, f3, g0, g1, g2, g3), h1, h2, h3)
  {
  }

  /** The table of the derivative f' at the same point: every coefficient
      moves down one slot; the fourth derivative of f is not in the table
      and reads as zero. */
  function Shift(c: Coeffs): (d: Coeffs)
    ensures d.f0 == c.f1 && d.f1 == c.f2 && d.f2 == c.f3 && d.f3 == 0.0
  {
    Coeffs(c.f1, c.f2, c.f3, 0.0)
  }

  /** Leibniz's rule for the derivative, (f·g)' = f·g' + f'·g, on the three
      slots that the shifted table determines. */
  lemma ShiftProduct(f: Coeffs, g: Coeffs)
    ensures Product(f, Shift(g)).f0 + Product(Shift(f), g).f0 == Shift(Product(f, g)).f0
    ensures Product(f, Shift(g)).f1 + Product(Shift(f), g).f1 == Shift(Product(f, g)).f1
    ensures Product(f, Shift(g)).f2 + Product(Shift(f), g).f2 == Shift(Product(f, g)).f2
  {
    ShiftProductSlots(f.f0, f.f1, f.f2, f.f3, g.f0, g.f1, g.f2, g.f3);
  }

  lemma ShiftProductSlots(a0: real, a1: real, a2: real, a3: real, b0: real, b1: real, b2: real, b3: real)
    ensures Product0(a0, b1) + Product0(a1, b0) == Product1(a0, a1, b0, b1)
    ensures Product1(a0, a1, b1, b2) + Product1(a1, a2, b0, b1) == Product2(a0, a1, a2, b0, b1, b2)
    ensures Product2(a0, a1, a2, b1, b2, b3) + Product2(a1, a2, a3, b0, b1, b2) == Product3(a0, a1, a2, a3, b0, b1, b2, b3)
  {
  }

  /** Leibniz's rule is commutative and associative, with the constant one as unit. */
  lemma ProductCommutes(f: Coeffs, g: Coeffs)
    ensures Product(f, g) == Product(g, f)
  {
  }

  lemma ProductOne(f: Coeffs)
    ensures Product(f, Const(1.0)) == f
  {
  }

  lemma ProductAssociates(f: Coeffs, g: Coeffs, h: Coeffs)
    ensures Product(Product(f, g), h) == Product(f, Product(g, h))
  {
    ProductAssociatesSlots(f.f0, f.f1, f.f2, f.f3, g.f0, g.f1, g.f2, g.f3, h.f0, h.f1, h.f2, h.f3);
  }

  lemma ProductAssociatesSlots(a0: real, a1: real, a2: real, a3: real, b0: real, b1: real, b2: real, b3: real,
                               c0: real, c1: real, c2: real, c3: real)
    ensures Product0(Product0(a0, b0), c0) == Product0(a0, Product0(b0, c0))
    ensures Product1(Product0(a0, b0), Product1(a0, a1, b0, b1), c0, c1)
         == Product1(a0, a1, Product0(b0, c0), Product1(b0, b1, c0, c1))
    ensures Product2(Product0(a0, b0), Product1(a0, a1, b0, b1), Product2(a0, a1, a2, b0, b1, b2), c0, c1, c2)
         == Product2(a0, a1, a2, Product0(b0, c0), Product1(b0, b1, c0, c1), Product2(b0, b1, b2, c0, c1, c2))
    ensures Product3(Product0(a0, b0), Product1(a0, a1, b0, b1), Product2(a0, a1, a2, b0, b1, b2),
                     Product3(a0, a1, a2, a3, b0, b1, b2, b3), c0, c1, c2, c3)
         == Product3(a0, a1, a2, a3, Product0(b0, c0), Product1(b0, b1, c0, c1), Product2(b0, b1, b2, c0, c1, c2),
                     Product3(b0, b1, b2, b3, c0, c1, c2, c3))
  {
  }

  /** Composition is associative, with the identity as right unit. */
  lemma ComposeAssociates(f: Coeffs, g: Coeffs, h: Coeffs)
    ensures Compose(Compose(f, g), h) == Compose(f, Compose(g, h))
  {
    ComposeAssociatesSlots(f.f1, f.f2, f.f3, g.f1, g.f2, g.f3, h.f1, h.f2, h.f3);
  }

  lemma ComposeAssociatesSlots(f1: real, f2: real, f3: real, g1: real, g2: real, g3: real,
                               h1: real, h2: real, h3: real)
    ensures Compose1(Compose1(f1, g1), h1) == Compose1(f1, Compose1(g1, h1))
    ensures Compose2(Compose1(f1, g1), Compose2(f1, f2, g1, g2), h1, h2)
         == Compose2(f1, f2, Compose1(g1, h1), Compose2(g1, g2, h1, h2))
    ensures Compose3(Compose1(f1, g1), Compose2(f1, f2, g1, g2), Compose3(f1, f2, f3, g1, g2, g3), h1, h2, h3)
         == Compose3(f1, f2, f3, Compose1(g1, h1), Compose2(g1, g2, h1, h2), Compose3(g1, g2, g3, h1, h2, h3))
  {
    ComposeAssociatesLeft(f1, f2, f3, g1, g2, g3, h1, h2, h3);
    ComposeAssociatesRight(f1, f2, f3, g1, g2, g3, h1, h2, h3);
  }

  /** Both sides of the third slot of (f∘g)∘h = f∘(g∘h) expand to the same
      six monomials. */
  lemma ComposeAssociatesLeft(f1: real, f2: real, f3: real, g1: real, g2: real, g3: real,
                              h1: real, h2: real, h3: real)
    ensures Compose3(Compose1(f1, g1), Compose2(f1, f2, g1, g2), Compose3(f1, f2, f3, g1, g2, g3), h1, h2, h3)
         == f3 * (g1 * g1 * g1) * (h1 * h1 * h1) + 3.0 * f2 * g1 * g2 * (h1 * h1 * h1)
          + 3.0 * f2 * (g1 * g1) * h1 * h2 + f1 * g3 * (h1 * h1 * h1) + 3.0 * f1 * g2 * h1 * h2 + f1 * g1 * h3
  {
  }

  lemma ComposeAssociatesRight(f1: real, f2: real, f3: real, g1: real, g2: real, g3: real,
                               h1: real, h2: real, h3: real)
    ensures Compose3(f1, f2, f3, Compose1(g1, h1), Compose2(g1, g2, h1, h2), Compose3(g1, g2, g3, h1, h2, h3))
         == f3 * (g1 * g1 * g1) * (h1 * h1 * h1) + 3.0 * f2 * g1 * g2 * (h1 * h1 * h1)
          + 3.0 * f2 * (g1 * g1) * h1 * h2 + f1 * g3 * (h1 * h1 * h1) + 3.0 * f1 * g2 * h1 * h2 + f1 * g1 * h3
  {
  }

  lemma ComposeIdentity(f: Coeffs, x: real)
    ensures Compose(f, Identity(x)) == f
  {
  }

  /** The order of a number type, i.e. how many coefficients of the table its
      chain rule takes: the `chain_rule!` macro passes f0..f1, f0..f2 or
      f0..f3, and `second!`/`third!` skip computing the others. */
  datatype Order = First | Second | Third

  /** The coefficients a type of order o receives; a skipped one reads as
      zero. A type of order three receives the whole table. */
  function Truncate(o: Order, c: Coeffs): (t: Coeffs)
    ensures t.f0 == c.f0 && t.f1 == c.f1
    ensures o != First ==> t.f2 == c.f2
    ensures o == Third ==> t == c
    ensures o == First ==> t.f2 == 0.0 && t.f3 == 0.0
    ensures o == Second ==> t.f3 == 0.0
  {
    match o
    case First => Coeffs(c.f0, c.f1, 0.0, 0.0)
    case Second => Coeffs(c.f0, c.f1, c.f2, 0.0)
    case Third => c
  }

  /** Skipping the higher coefficients loses nothing a type of that order
      can see: truncating the composition of truncated tables is truncating
      the composition of the full tables, and likewise for products. */
  lemma TruncateCompose(o: Order, f: Coeffs, g: Coeffs)
    ensures Truncate(o, Compose(Truncate(o, f), Truncate(o, g))) == Truncate(o, Compose(f, g))
  {
  }

  lemma TruncateProduct(o: Order, f: Coeffs, g: Coeffs)
    ensures Truncate(o, Product(Truncate(o, f), Truncate(o, g))) == Truncate(o, Product(f, g))
  {
  }
}
