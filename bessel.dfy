/** The Bessel functions of the first kind of src/bessel.rs, on the real part
    of a number. Each is a branch on the size of the argument between two
    rational approximations evaluated by Horner's rule (`polevl`, `p1evl`).
    The coefficient tables and the transcendental constants and functions
    (π/4, 2/π, sin, cos, √) are parameters; what is modelled is the branch
    structure, the Horner evaluation and the symmetries the branches give. */
module Bessel {
  import D = Derivatives

  /* Horner's rule. */

  /** The left fold `acc·x + c` over the coefficients. */
  function Horner(acc: real, x: real, cs: seq<real>): real
    decreases |cs|
  {
    if cs == [] then acc else Horner(acc * x + cs[0], x, cs[1..])
  }

  /** Σ c[k]·x^(m−1−k) for m = |c|: the polynomial with the leading
      coefficient first. */
  function Poly(c: seq<real>, x: real): real {
    if c == [] then 0.0 else c[0] * D.Pow(x, |c| - 1) + Poly(c[1..], x)
  }

  /** `polevl`: Horner's rule started from coef[0]; an empty table is an
      index panic. */
  function Polevl(x: real, coef: seq<real>): (r: real)
    requires |coef| >= 1
    ensures r == Poly(coef, x)
  {
    HornerIsPoly(coef[0], x, coef[1..]);
    Horner(coef[0], x, coef[1..])
  }

  /** `p1evl`: Horner's rule started from 1, a leading coefficient 1 that
      the table leaves out. */
  function P1evl(x: real, coef: seq<real>): (r: real)
    ensures r == Polevl(x, [1.0] + coef)
  {
    assert ([1.0] + coef)[1..] == coef;
    Horner(1.0, x, coef)
  }

  lemma {:induction false} HornerIsPoly(acc: real, x: real, cs: seq<real>)
    ensures Horner(acc, x, cs) == acc * D.Pow(x, |cs|) + Poly(cs, x)
    decreases |cs|
  {
    if cs != [] {
      var m := |cs|;
      var p := D.Pow(x, m - 1);
      HornerIsPoly(acc * x + cs[0], x, cs[1..]);
      assert D.Pow(x, m) == p * x;
      assert (acc * x + cs[0]) * p == acc * (p * x) + cs[0] * p;
    }
  }

  /** A table of positive coefficients gives a positive value at x >= 0:
      the denominators of the approximations never vanish. */
  lemma {:induction false} HornerPositive(acc: real, x: real, cs: seq<real>)
    requires 0.0 < acc && 0.0 <= x && forall k :: 0 <= k < |cs| ==> 0.0 < cs[k]
    ensures 0.0 < Horner(acc, x, cs)
    decreases |cs|
  {
    if cs != [] {
      assert 0.0 <= acc * x;
      HornerPositive(acc * x + cs[0], x, cs[1..]);
    }
  }

  predicate Positive(c: seq<real>) {
    forall k :: 0 <= k < |c| ==> 0.0 < c[k]
  }

  lemma PolevlPositive(x: real, coef: seq<real>)
    requires |coef| >= 1 && Positive(coef) && 0.0 <= x
    ensures 0.0 < Polevl(x, coef)
  {
    HornerPositive(coef[0], x, coef[1..]);
  }

  lemma P1evlPositive(x: real, coef: seq<real>)
    requires Positive(coef) && 0.0 <= x
    ensures 0.0 < P1evl(x, coef)
  {
    HornerPositive(1.0, x, coef);
  }

  /* The approximations. */

  /** One rational approximation: the numerator and denominator tables of
      the small-argument branch (r), of the amplitude p and of the phase
      term q of the large-argument branch, and the two zeros the
      small-argument branch factors out. */
  datatype Tables = Tables(rp: seq<real>, rq: seq<real>, pp: seq<real>, pq: seq<real>,
                           qp: seq<real>, qq: seq<real>, zero1: real, zero2: real)

  /** The constants and functions the large-argument branch needs. */
  datatype Transcendentals = Transcendentals(quarterPi: real, twoOverPi: real,
                                             sin: real -> real, cos: real -> real, sqrt: real -> real)

  /** Nonempty tables, and positive coefficients in every denominator (as
      the library's tables have). */
  predicate ValidTables(t: Tables) {
    |t.rp| >= 1 && |t.pp| >= 1 && |t.pq| >= 1 && |t.qp| >= 1
    && Positive(t.rq) && Positive(t.pq) && Positive(t.qq)
  }

  /** The large-argument form at x > 5 with w = 5/x:
      (P(w²)·cos(x − φ) − w·Q(w²)·sin(x − φ))·√(2/(πx)). */
  function Asymptotic(x: real, t: Tables, f: Transcendentals, phase: real): real
    requires ValidTables(t) && 5.0 < x
  {
    var w := 1.0 / x * 5.0;
    var q := w * w;
    PolevlPositive(q, t.pq);
    P1evlPositive(q, t.qq);
    var p := Polevl(q, t.pp) / Polevl(q, t.pq);
    var q' := Polevl(q, t.qp) / P1evl(q, t.qq);
    var s, c := f.sin(x - phase), f.cos(x - phase);
    (p * c - w * q' * s) * f.sqrt(f.twoOverPi / x)
  }

  function Abs(x: real): real {
    if x < 0.0 then -x else x
  }

  /** `signum` away from zero, the only place the large-argument branch
      of `bessel_j1` evaluates it. */
  function Signum(x: real): real {
    if x < 0.0 then -1.0 else 1.0
  }

  /** `bessel_j0`: the argument is negated when it is negative, and the
      branches are taken on its magnitude. */
  function J0(x: real, t: Tables, f: Transcendentals): (r: real)
    requires ValidTables(t)
    ensures Abs(x) < 0.00001 ==> r == 1.0 - x * x / 4.0
  {
    var y := Abs(x);
    assert y * y == x * x;
    J0Magnitude(y, t, f)
  }

  /** The branches of `bessel_j0` at y >= 0: below 10⁻⁵ the value is
      1 − y²/4, up to 5 the rational form (z − r1)(z − r2)·RP(z)/RQ(z) in
      z = y², beyond that the asymptotic form with phase π/4. */
  function J0Magnitude(y: real, t: Tables, f: Transcendentals): (r: real)
    requires ValidTables(t) && 0.0 <= y
    ensures y < 0.00001 ==> r == 1.0 - y * y / 4.0
  {
    if y <= 5.0 then
      var z := y * y;
      if y < 0.00001 then 1.0 - z / 4.0
      else
        P1evlPositive(z, t.rq);
        (z - t.zero1) * (z - t.zero2) * Polevl(z, t.rp) / P1evl(z, t.rq)
    else Asymptotic(y, t, f, f.quarterPi)
  }

  /** `bessel_j1`: up to |x| = 5 the rational form RP(z)/RQ(z)·x·(z − r1)(z − r2)
      in z = x², beyond that sign(x) times the asymptotic form at |x| with
      phase 3π/4. */
  function J1(x: real, t: Tables, f: Transcendentals): (r: real)
    requires ValidTables(t)
    ensures x == 0.0 ==> r == 0.0
  {
    var y := Abs(x);
    if y <= 5.0 then
      var z := x * x;
      P1evlPositive(z, t.rq);
      Polevl(z, t.rp) / P1evl(z, t.rq) * x * (z - t.zero1) * (z - t.zero2)
    else Signum(x) * Asymptotic(y, t, f, 3.0 * f.quarterPi)
  }

  /** The recurrence J2(x) = 2·J1(x)/x − J0(x). */
  function Recurrence(x: real, j1: real, j0: real): real
    requires x != 0.0
  {
    j1 * 2.0 / x - j0
  }

  /** `bessel_j2`: x²/8·(x²/24 + 1) at zero, otherwise the recurrence
      2·J1(x)/x − J0(x) from the two lower orders. */
  function J2(x: real, t0: Tables, t1: Tables, f: Transcendentals): (r: real)
    requires ValidTables(t0) && ValidTables(t1)
    ensures x == 0.0 ==> r == 0.0
    ensures x != 0.0 ==> r == Recurrence(x, J1(x, t1, f), J0(x, t0, f))
  {
    if x == 0.0 then x * x / 8.0 * (x * x / 24.0 + 1.0)
    else Recurrence(x, J1(x, t1, f), J0(x, t0, f))
  }

  /* The symmetries the branches give. */

  /** J0 is even: a negative argument is negated before any branch. */
  lemma J0Even(x: real, t: Tables, f: Transcendentals)
    requires ValidTables(t)
    ensures J0(-x, t, f) == J0(x, t, f)
  {
    assert Abs(-x) == Abs(x);
  }

  /** J1 is odd: x is a factor of the rational form and sign(x) of the
      asymptotic one. */
  lemma J1Odd(x: real, t: Tables, f: Transcendentals)
    requires ValidTables(t)
    ensures J1(-x, t, f) == -J1(x, t, f)
  {
    assert Abs(-x) == Abs(x);
    if Abs(x) <= 5.0 {
      var z := x * x;
      NegSquare(x);
      P1evlPositive(z, t.rq);
      NegFactor(Polevl(z, t.rp) / P1evl(z, t.rq), x, z - t.zero1, z - t.zero2);
    } else if x < 0.0 {
      assert Signum(-x) == 1.0 && Signum(x) == -1.0;
    } else {
      assert Signum(-x) == -1.0 && Signum(x) == 1.0;
    }
  }

  lemma NegSquare(x: real)
    ensures (-x) * (-x) == x * x
  {
  }

  /** Negating one factor of a product negates the product. */
  lemma NegFactor(k: real, x: real, a: real, b: real)
    ensures k * (-x) * a * b == -(k * x * a * b)
  {
    assert k * (-x) == -(k * x);
    assert -(k * x) * a == -(k * x * a);
    assert -(k * x * a) * b == -(k * x * a * b);
  }

  /** J2 is even: an odd J1 over an odd x, minus an even J0. */
  lemma J2Even(x: real, t0: Tables, t1: Tables, f: Transcendentals)
    requires ValidTables(t0) && ValidTables(t1)
    ensures J2(-x, t0, t1, f) == J2(x, t0, t1, f)
  {
    if x != 0.0 {
      J1Odd(x, t1, f);
      J0Even(x, t0, f);
      RecurrenceOdd(x, J1(x, t1, f), J0(x, t0, f));
    }
  }

  lemma RecurrenceOdd(x: real, j1: real, j0: real)
    requires x != 0.0
    ensures Recurrence(-x, -j1, j0) == Recurrence(x, j1, j0)
  {
    assert (-j1) * 2.0 == -(j1 * 2.0);
  }
}
