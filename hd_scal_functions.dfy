/** The elementary functions of `HDScal` (src/hd_scal.rs): each builds the
    table of the applied function's derivatives at the value, to as many
    orders as the number has entries, and hands it to the chain rule. The
    values that need floating-point library calls (x^n, √x, e^x, ln x,
    sin x, …) are parameters; the derivative tables and the loops that build
    them are modelled exactly. Up to the third derivative every table agrees
    with the coefficient table of src/derivatives.rs, which ties each
    function to the Dual3 number of the same function. */
module HDScalFunctions {
  import D = Derivatives
  import Dual3
  import H = HDScal

  // ---------------------------------------------------------------------
  // powf, sqrt, cbrt: the power loop with a real exponent

  /** `powf(n)` with p = x0^n supplied: f_{i+1} = (n − i)·f_i/x0. */
  function PowFSpec(x: H.HDScal, n: real, p: real): (y: H.HDScal)
    requires H.Valid(x) && x.v[0] != 0.0
    ensures |y.v| == |x.v| && y.v[0] == p
  {
    H.ChainRule(x, H.HDScal(H.PowerTable(p, n, 1.0 / x.v[0], |x.v|)))
  }

  method PowF(x: H.HDScal, n: real, p: real) returns (y: H.HDScal)
    requires H.Valid(x) && x.v[0] != 0.0
    ensures y == PowFSpec(x, n, p)
    ensures H.Agrees(y, Dual3.Apply(H.Lift(x), PowFCoeffs(x.v[0], n, p)))
  {
    var f := H.PowerCoeffs(p, n, 1.0 / x.v[0], |x.v|);
    y := H.ChainRule(x, H.HDScal(f));
    PowFAgrees(x, n, p, H.Lift(x));
  }

  /** Up to the third derivative, `powf` is the chain rule with the
      falling-factorial table of y ↦ y^n. */
  lemma PowFAgrees(x: H.HDScal, n: real, p: real, dx: Dual3.Dual3)
    requires H.Valid(x) && x.v[0] != 0.0 && H.Agrees(x, dx)
    ensures H.Agrees(PowFSpec(x, n, p), Dual3.Apply(dx, PowFCoeffs(x.v[0], n, p)))
  {
    var a := x.v[0];
    var c := PowFCoeffs(a, n, p);
    PowFTable(a, n, p, c);
    H.PowerTableAgrees(p, n, a, |x.v|, c);
    H.ChainRuleAgrees(x, H.HDScal(H.PowerTable(p, n, 1.0 / a, |x.v|)), dx, c);
  }

  /** The table of y ↦ y^n at a with a^n = p: the falling-factorial table
      of src/derivatives.rs, which is written in terms of a^(n−3). */
  function PowFCoeffs(a: real, n: real, p: real): D.Coeffs
    requires a != 0.0
  {
    D.Falling(a, n, p / (a * a * a))
  }

  /** The falling-factorial table with x0^n = p solves x0·f' = (n − k)·f. */
  lemma PowFTable(a: real, n: real, p: real, c: D.Coeffs)
    requires a != 0.0 && c == PowFCoeffs(a, n, p)
    ensures c.f0 == p && c.f1 * a == n * c.f0
    ensures c.f2 * a == (n - 1.0) * c.f1 && c.f3 * a == (n - 2.0) * c.f2
  {
    PowFValue(a, n, p);
    D.FallingRecurrence(a, n, p / (a * a * a));
  }

  lemma PowFValue(a: real, n: real, p: real)
    requires a != 0.0
    ensures PowFCoeffs(a, n, p).f0 == p
  {
    CubeCancel(p, a);
  }

  lemma CubeCancel(p: real, a: real)
    requires a != 0.0
    ensures p / (a * a * a) * a * a * a == p
  {
    var q := a * a * a;
    assert q != 0.0;
    assert p / q * a * a * a == p / q * q;
  }

  /** At an integer exponent, with p = x0^m, `powf` is `powi`. */
  lemma PowFIntegral(x: H.HDScal, m: int)
    requires H.Valid(x) && x.v[0] != 0.0
    ensures PowFSpec(x, m as real, D.PowInt(x.v[0], m)) == H.PowISpec(x, m)
  {
    H.PowerTableIsPowTable(x.v[0], m, |x.v|);
  }

  /** `sqrt` with s = √x0 supplied: the power loop with exponent one half. */
  function SqrtSpec(x: H.HDScal, s: real): (y: H.HDScal)
    requires H.Valid(x) && x.v[0] != 0.0
    ensures |y.v| == |x.v| && y.v[0] == s
  {
    H.ChainRule(x, H.HDScal(H.PowerTable(s, 0.5, 1.0 / x.v[0], |x.v|)))
  }

  method Sqrt(x: H.HDScal, s: real) returns (y: H.HDScal)
    requires H.Valid(x) && x.v[0] != 0.0
    ensures y == SqrtSpec(x, s)
    ensures H.Agrees(y, Dual3.Apply(H.Lift(x), D.Sqrt(x.v[0], s)))
  {
    var f := H.PowerCoeffs(s, 0.5, 1.0 / x.v[0], |x.v|);
    y := H.ChainRule(x, H.HDScal(f));
    SqrtAgrees(x, s, H.Lift(x));
  }

  lemma SqrtAgrees(x: H.HDScal, s: real, dx: Dual3.Dual3)
    requires H.Valid(x) && x.v[0] != 0.0 && H.Agrees(x, dx)
    ensures H.Agrees(SqrtSpec(x, s), Dual3.Apply(dx, D.Sqrt(x.v[0], s)))
  {
    var a := x.v[0];
    H.PowerTableAgrees(s, 0.5, a, |x.v|, D.Sqrt(a, s));
    H.ChainRuleAgrees(x, H.HDScal(H.PowerTable(s, 0.5, 1.0 / a, |x.v|)), dx, D.Sqrt(a, s));
  }

  /** The square root squared is the number again, up to the third
      derivative, and exactly for the orders D0..D3. */
  lemma SqrtSquare(x: H.HDScal, s: real)
    requires H.Valid(x) && x.v[0] != 0.0 && s * s == x.v[0]
    ensures H.Agrees(H.MulSpec(SqrtSpec(x, s), SqrtSpec(x, s)), H.Lift(x))
    ensures |x.v| <= 4 ==> H.MulSpec(SqrtSpec(x, s), SqrtSpec(x, s)) == x
  {
    var a, lx := x.v[0], H.Lift(x);
    var r, r3 := SqrtSpec(x, s), Dual3.Apply(lx, D.Sqrt(a, s));
    SqrtAgrees(x, s, lx);
    H.MulAgrees(r, r, r3, r3);
    Dual3.ChainRuleIdentity(r3, 0.0);
    Dual3.ChainRuleMul(r3, D.Identity(s), D.Identity(s));
    D.PowISquare(s);
    Dual3.ChainRuleCompose(lx, D.Square(s), D.Sqrt(a, s));
    D.SqrtSquare(a, s);
    Dual3.ChainRuleIdentity(lx, 0.0);
    assert Dual3.Mul(r3, r3) == lx;
    if |x.v| <= 4 {
      SameUpToThird(H.MulSpec(r, r), x);
    }
  }

  /** Two numbers of at most four entries that agree with the same Dual3
      number are equal. */
  lemma SameUpToThird(y: H.HDScal, x: H.HDScal)
    requires |y.v| == |x.v| <= 4 && H.Agrees(y, H.Lift(x))
    ensures y == x
  {
    forall k | 0 <= k < |x.v|
      ensures y.v[k] == x.v[k]
    {
      assert y.v[k] == H.Part(H.Lift(x), k);
    }
    assert y.v == x.v;
  }

  /** `cbrt` with c = ∛x0 supplied: the power loop with exponent one third. */
  function CbrtSpec(x: H.HDScal, c: real): (y: H.HDScal)
    requires H.Valid(x) && x.v[0] != 0.0
    ensures |y.v| == |x.v| && y.v[0] == c
  {
    H.ChainRule(x, H.HDScal(H.PowerTable(c, 1.0 / 3.0, 1.0 / x.v[0], |x.v|)))
  }

  method Cbrt(x: H.HDScal, c: real) returns (y: H.HDScal)
    requires H.Valid(x) && x.v[0] != 0.0
    ensures y == CbrtSpec(x, c)
    ensures H.Agrees(y, Dual3.Apply(H.Lift(x), D.Cbrt(x.v[0], c)))
  {
    var f := H.PowerCoeffs(c, 1.0 / 3.0, 1.0 / x.v[0], |x.v|);
    y := H.ChainRule(x, H.HDScal(f));
    CbrtAgrees(x, c, H.Lift(x));
  }

  lemma CbrtAgrees(x: H.HDScal, c: real, dx: Dual3.Dual3)
    requires H.Valid(x) && x.v[0] != 0.0 && H.Agrees(x, dx)
    ensures H.Agrees(CbrtSpec(x, c), Dual3.Apply(dx, D.Cbrt(x.v[0], c)))
  {
    var a, t := x.v[0], 1.0 / 3.0;
    var k := D.Cbrt(a, c);
    Third(k.f1 * a, k.f0);
    Third(k.f2 * a, -2.0 * k.f1);
    Third(k.f3 * a, -5.0 * k.f2);
    H.PowerTableAgrees(c, t, a, |x.v|, k);
    H.ChainRuleAgrees(x, H.HDScal(H.PowerTable(c, t, 1.0 / a, |x.v|)), dx, k);
  }

  /** 3·p = q gives p = q/3. */
  lemma Third(p: real, q: real)
    requires 3.0 * p == q
    ensures p == (1.0 / 3.0) * q
  {
  }

  // ---------------------------------------------------------------------
  // exp, exp2, exp_m1

  /** The derivatives of exp at x0 are all e = exp(x0). */
  function ExpTable(e: real, len: nat): (t: seq<real>)
    ensures |t| == len
  {
    seq(len, _ => e)
  }

  function ExpSpec(x: H.HDScal, e: real): (y: H.HDScal)
    requires H.Valid(x)
    ensures |y.v| == |x.v| && y.v[0] == e
  {
    H.ChainRule(x, H.HDScal(ExpTable(e, |x.v|)))
  }

  /** `exp`: the loop pushes e once per entry. */
  method Exp(x: H.HDScal, e: real) returns (y: H.HDScal)
    requires H.Valid(x)
    ensures y == ExpSpec(x, e)
    ensures H.Agrees(y, Dual3.Apply(H.Lift(x), D.Exp(e)))
  {
    var f: seq<real> := [];
    for i := 0 to |x.v|
      invariant |f| == i && forall k :: 0 <= k < i ==> f[k] == e
    {
      f := f + [e];
    }
    assert f == ExpTable(e, |x.v|);
    y := H.ChainRule(x, H.HDScal(f));
    ExpAgrees(x, e, H.Lift(x));
  }

  lemma ExpAgrees(x: H.HDScal, e: real, dx: Dual3.Dual3)
    requires H.Valid(x) && H.Agrees(x, dx)
    ensures H.Agrees(ExpSpec(x, e), Dual3.Apply(dx, D.Exp(e)))
  {
    H.ChainRuleAgrees(x, H.HDScal(ExpTable(e, |x.v|)), dx, D.Exp(e));
  }

  /** The derivatives of 2^y at x0: e·ln2^k, with e = 2^x0 and ln2 = ln 2. */
  function Exp2Table(e: real, ln2: real, len: nat): (t: seq<real>)
    ensures |t| == len
  {
    seq(len, k requires 0 <= k < len => e * D.Pow(ln2, k))
  }

  function Exp2Spec(x: H.HDScal, e: real, ln2: real): (y: H.HDScal)
    requires H.Valid(x)
    ensures |y.v| == |x.v| && y.v[0] == e
  {
    H.ChainRule(x, H.HDScal(Exp2Table(e, ln2, |x.v|)))
  }

  /** `exp2`: e first, then each entry is the previous one times ln 2. */
  method Exp2(x: H.HDScal, e: real, ln2: real) returns (y: H.HDScal)
    requires H.Valid(x)
    ensures y == Exp2Spec(x, e, ln2)
    ensures H.Agrees(y, Dual3.Apply(H.Lift(x), D.Exp2(e, ln2)))
  {
    var c := e;
    var f := [c];
    assert f == Exp2Table(e, ln2, 1);
    for i := 1 to |x.v|
      invariant f == Exp2Table(e, ln2, i) && c == f[i - 1]
    {
      Exp2TableSnoc(e, ln2, i);
      c := c * ln2;
      assert c == Exp2Table(e, ln2, i)[i - 1] * ln2;
      f := f + [c];
      assert f == Exp2Table(e, ln2, i + 1);
    }
    y := H.ChainRule(x, H.HDScal(f));
    Exp2Agrees(x, e, ln2, H.Lift(x));
  }

  /** One more entry is the last one times ln 2. */
  lemma Exp2TableSnoc(e: real, ln2: real, i: nat)
    requires i >= 1
    ensures Exp2Table(e, ln2, i + 1) == Exp2Table(e, ln2, i) + [Exp2Table(e, ln2, i)[i - 1] * ln2]
  {
    Exp2Step(e, ln2, i - 1);
    var s, t := Exp2Table(e, ln2, i + 1), Exp2Table(e, ln2, i) + [Exp2Table(e, ln2, i)[i - 1] * ln2];
    forall k | 0 <= k < i + 1
      ensures s[k] == t[k]
    {
    }
  }

  lemma Exp2Step(e: real, ln2: real, k: nat)
    ensures e * D.Pow(ln2, k) * ln2 == e * D.Pow(ln2, k + 1)
  {
    assert D.Pow(ln2, k + 1) == D.Pow(ln2, k) * ln2;
  }

  lemma Exp2Agrees(x: H.HDScal, e: real, ln2: real, dx: Dual3.Dual3)
    requires H.Valid(x) && H.Agrees(x, dx)
    ensures H.Agrees(Exp2Spec(x, e, ln2), Dual3.Apply(dx, D.Exp2(e, ln2)))
  {
    var t := Exp2Table(e, ln2, |x.v|);
    var c := D.Exp2(e, ln2);
    forall k | 0 <= k < |x.v| && k < 4
      ensures t[k] == H.CoeffPart(c, k)
    {
      assert D.Pow(ln2, 0) == 1.0;
      Exp2Step(e, ln2, 0);
      Exp2Step(e, ln2, 1);
      Exp2Step(e, ln2, 2);
    }
    H.ChainRuleAgrees(x, H.HDScal(t), dx, c);
  }

  /** The derivatives of exp_m1 at x0: exp_m1(x0), then e = exp(x0). */
  function ExpM1Table(em1: real, e: real, len: nat): (t: seq<real>)
    ensures |t| == len
  {
    seq(len, k => if k == 0 then em1 else e)
  }

  function ExpM1Spec(x: H.HDScal, em1: real, e: real): (y: H.HDScal)
    requires H.Valid(x)
    ensures |y.v| == |x.v| && y.v[0] == em1
  {
    H.ChainRule(x, H.HDScal(ExpM1Table(em1, e, |x.v|)))
  }

  method ExpM1(x: H.HDScal, em1: real, e: real) returns (y: H.HDScal)
    requires H.Valid(x)
    ensures y == ExpM1Spec(x, em1, e)
    ensures H.Agrees(y, Dual3.Apply(H.Lift(x), D.ExpM1(em1, e)))
  {
    var f := [em1];
    for i := 1 to |x.v|
      invariant |f| == i && f[0] == em1
      invariant forall k :: 1 <= k < i ==> f[k] == e
    {
      f := f + [e];
    }
    assert f == ExpM1Table(em1, e, |x.v|);
    y := H.ChainRule(x, H.HDScal(f));
    H.ChainRuleAgrees(x, H.HDScal(f), H.Lift(x), D.ExpM1(em1, e));
  }

  /** exp_m1 differs from exp only in its value: every derivative entry of
      the two results is the same. */
  lemma ExpM1IsExpShifted(x: H.HDScal, em1: real, e: real)
    requires H.Valid(x)
    ensures forall k :: 1 <= k < |x.v| ==> ExpM1Spec(x, em1, e).v[k] == ExpSpec(x, e).v[k]
  {
    var a, b := ExpM1Table(em1, e, |x.v|), ExpTable(e, |x.v|);
    forall k | 1 <= k < |x.v|
      ensures ExpM1Spec(x, em1, e).v[k] == ExpSpec(x, e).v[k]
    {
      assert forall j :: 1 <= j < |x.v| ==> a[j] == b[j];
    }
  }

  // ---------------------------------------------------------------------
  // ln, log, log2, log10, ln_1p

  /** The ln family's table: the value, then f1 and the power loop with
      exponent −1, f_{i} = (1 − i)·f_{i−1}·rec. */
  function LogTable(l0: real, f1: real, rec: real, len: nat): (t: seq<real>)
    requires len >= 1
    ensures |t| == len && t[0] == l0
  {
    [l0] + H.PowerTable(f1, -1.0, rec, len - 1)
  }

  /** The loop shared by `ln`, `log`, `log2`, `log10` and `ln_1p`. */
  method LogCoeffs(l0: real, f1: real, rec: real, len: nat) returns (f: seq<real>)
    requires len >= 1
    ensures f == LogTable(l0, f1, rec, len)
  {
    f := [l0];
    if len > 1 {
      var c := f1;
      assert c == H.PowerTerm(f1, -1.0, rec, 0);
      f := f + [c];
      var i := 2;
      while i < len
        invariant 2 <= i <= len && |f| == i && f[0] == l0
        invariant c == H.PowerTerm(f1, -1.0, rec, i - 2)
        invariant forall k :: 1 <= k < i ==> f[k] == H.PowerTerm(f1, -1.0, rec, k - 1)
      {
        H.PowerTermStep(f1, -1.0, rec, i - 2);
        c := (1 - i) as real * c * rec;
        f := f + [c];
        i := i + 1;
      }
    }
    assert f == LogTable(l0, f1, rec, len);
  }

  /** A table whose entries after the value follow the power recurrence
      with exponent −1 agrees with the ln family's table. */
  lemma LogTableAgrees(l0: real, f1: real, a: real, len: nat, c: D.Coeffs)
    requires a != 0.0 && len >= 1
    requires c.f0 == l0 && c.f1 == f1 && c.f2 == -c.f1 * (1.0 / a) && c.f3 == c.f2 * (1.0 / a) * -2.0
    ensures H.TableAgrees(H.HDScal(LogTable(l0, f1, 1.0 / a, len)), c)
  {
    var r := 1.0 / a;
    assert r * a == 1.0;
    assert c.f2 * a == -c.f1 * (r * a);
    assert c.f3 * a == -2.0 * c.f2 * (r * a);
    var s := D.Coeffs(c.f1, c.f2, c.f3, -3.0 * c.f3 / a);
    assert s.f3 * a == -3.0 * c.f3;
    H.PowerTableAgrees(f1, -1.0, a, len - 1, s);
    var t := LogTable(l0, f1, r, len);
    forall k | 1 <= k < len && k < 4
      ensures t[k] == H.CoeffPart(c, k)
    {
      assert t[k] == H.PowerTable(f1, -1.0, r, len - 1)[k - 1];
    }
  }

  /** `ln` with l = ln(x0) supplied: f1 = 1/x0. */
  function LnSpec(x: H.HDScal, l: real): (y: H.HDScal)
    requires H.Valid(x) && x.v[0] != 0.0
    ensures |y.v| == |x.v| && y.v[0] == l
  {
    H.ChainRule(x, H.HDScal(LogTable(l, 1.0 / x.v[0], 1.0 / x.v[0], |x.v|)))
  }

  method Ln(x: H.HDScal, l: real) returns (y: H.HDScal)
    requires H.Valid(x) && x.v[0] != 0.0
    ensures y == LnSpec(x, l)
    ensures H.Agrees(y, Dual3.Apply(H.Lift(x), D.Ln(x.v[0], l)))
  {
    var rec := 1.0 / x.v[0];
    var f := LogCoeffs(l, rec, rec, |x.v|);
    y := H.ChainRule(x, H.HDScal(f));
    LnAgrees(x, l, H.Lift(x));
  }

  lemma LnAgrees(x: H.HDScal, l: real, dx: Dual3.Dual3)
    requires H.Valid(x) && x.v[0] != 0.0 && H.Agrees(x, dx)
    ensures H.Agrees(LnSpec(x, l), Dual3.Apply(dx, D.Ln(x.v[0], l)))
  {
    var a := x.v[0];
    LogTableAgrees(l, 1.0 / a, a, |x.v|, D.Ln(a, l));
    H.ChainRuleAgrees(x, H.HDScal(LogTable(l, 1.0 / a, 1.0 / a, |x.v|)), dx, D.Ln(a, l));
  }

  /** exp undoes ln: exp of ln x, with e^(ln x0) = x0, is x again up to the
      third derivative, and exactly for the orders D0..D3. */
  lemma ExpLn(x: H.HDScal, l: real)
    requires H.Valid(x) && x.v[0] != 0.0
    ensures H.Agrees(ExpSpec(LnSpec(x, l), x.v[0]), H.Lift(x))
    ensures |x.v| <= 4 ==> ExpSpec(LnSpec(x, l), x.v[0]) == x
  {
    var a, lx := x.v[0], H.Lift(x);
    var y, y3 := LnSpec(x, l), Dual3.Apply(lx, D.Ln(a, l));
    LnAgrees(x, l, lx);
    ExpAgrees(y, a, y3);
    Dual3.ChainRuleCompose(lx, D.Exp(a), D.Ln(a, l));
    D.ExpLn(a, l);
    Dual3.ChainRuleIdentity(lx, 0.0);
    assert Dual3.Apply(y3, D.Exp(a)) == lx;
    if |x.v| <= 4 {
      SameUpToThird(ExpSpec(y, a), x);
    }
  }

  /** `log(base)` with lg = log_base(x0) and lnb = ln(base) supplied:
      f1 = 1/(x0·ln base). */
  function LogSpec(x: H.HDScal, lg: real, lnb: real): (y: H.HDScal)
    requires H.Valid(x) && x.v[0] != 0.0 && lnb != 0.0
    ensures |y.v| == |x.v| && y.v[0] == lg
  {
    H.ChainRule(x, H.HDScal(LogTable(lg, 1.0 / x.v[0] / lnb, 1.0 / x.v[0], |x.v|)))
  }

  method Log(x: H.HDScal, lg: real, lnb: real) returns (y: H.HDScal)
    requires H.Valid(x) && x.v[0] != 0.0 && lnb != 0.0
    ensures y == LogSpec(x, lg, lnb)
    ensures H.Agrees(y, Dual3.Apply(H.Lift(x), D.Log(x.v[0], lg, lnb)))
  {
    var rec := 1.0 / x.v[0];
    var f := LogCoeffs(lg, rec / lnb, rec, |x.v|);
    y := H.ChainRule(x, H.HDScal(f));
    LogAgrees(x, lg, lnb, H.Lift(x));
  }

  lemma LogAgrees(x: H.HDScal, lg: real, lnb: real, dx: Dual3.Dual3)
    requires H.Valid(x) && x.v[0] != 0.0 && lnb != 0.0 && H.Agrees(x, dx)
    ensures H.Agrees(LogSpec(x, lg, lnb), Dual3.Apply(dx, D.Log(x.v[0], lg, lnb)))
  {
    var a := x.v[0];
    LogTableAgrees(lg, 1.0 / a / lnb, a, |x.v|, D.Log(a, lg, lnb));
    H.ChainRuleAgrees(x, H.HDScal(LogTable(lg, 1.0 / a / lnb, 1.0 / a, |x.v|)), dx, D.Log(a, lg, lnb));
  }

  /** `log2` and `log10` are `log` with ln 2 and ln 10 in place of ln(base). */
  method Log2(x: H.HDScal, lg: real, ln2: real) returns (y: H.HDScal)
    requires H.Valid(x) && x.v[0] != 0.0 && ln2 != 0.0
    ensures y == LogSpec(x, lg, ln2)
    ensures H.Agrees(y, Dual3.Apply(H.Lift(x), D.Log2(x.v[0], lg, ln2)))
  {
    var rec := 1.0 / x.v[0];
    var f := LogCoeffs(lg, rec / ln2, rec, |x.v|);
    y := H.ChainRule(x, H.HDScal(f));
    LogAgrees(x, lg, ln2, H.Lift(x));
  }

  method Log10(x: H.HDScal, lg: real, ln10: real) returns (y: H.HDScal)
    requires H.Valid(x) && x.v[0] != 0.0 && ln10 != 0.0
    ensures y == LogSpec(x, lg, ln10)
    ensures H.Agrees(y, Dual3.Apply(H.Lift(x), D.Log10(x.v[0], lg, ln10)))
  {
    var rec := 1.0 / x.v[0];
    var f := LogCoeffs(lg, rec / ln10, rec, |x.v|);
    y := H.ChainRule(x, H.HDScal(f));
    LogAgrees(x, lg, ln10, H.Lift(x));
  }

  /** `log` is `ln` divided by ln(base) in every derivative entry. */
  lemma LogIsScaledLn(x: H.HDScal, lg: real, l: real, lnb: real, k: nat)
    requires H.Valid(x) && x.v[0] != 0.0 && lnb != 0.0 && 1 <= k < |x.v|
    ensures LogTable(lg, 1.0 / x.v[0] / lnb, 1.0 / x.v[0], |x.v|)[k] * lnb
         == LogTable(l, 1.0 / x.v[0], 1.0 / x.v[0], |x.v|)[k]
  {
    var r, len := 1.0 / x.v[0], |x.v|;
    assert LogTable(lg, r / lnb, r, len)[k] == H.PowerTerm(r / lnb, -1.0, r, k - 1);
    assert LogTable(l, r, r, len)[k] == H.PowerTerm(r, -1.0, r, k - 1);
    ScaleCancel(r, lnb, H.Falling(-1.0, k - 1), D.Pow(r, k - 1));
  }

  lemma ScaleCancel(r: real, l: real, f: real, q: real)
    requires l != 0.0
    ensures r / l * f * q * l == r * f * q
  {
    assert r / l * l == r;
  }

  /** `ln_1p` with l = ln(1 + x0) supplied: the ln table at 1 + x0. */
  function Ln1pSpec(x: H.HDScal, l: real): (y: H.HDScal)
    requires H.Valid(x) && 1.0 + x.v[0] != 0.0
    ensures |y.v| == |x.v| && y.v[0] == l
  {
    H.ChainRule(x, H.HDScal(LogTable(l, 1.0 / (1.0 + x.v[0]), 1.0 / (1.0 + x.v[0]), |x.v|)))
  }

  method Ln1p(x: H.HDScal, l: real) returns (y: H.HDScal)
    requires H.Valid(x) && 1.0 + x.v[0] != 0.0
    ensures y == Ln1pSpec(x, l)
    ensures H.Agrees(y, Dual3.Apply(H.Lift(x), D.Ln1p(x.v[0], l)))
  {
    var rec := 1.0 / (1.0 + x.v[0]);
    var f := LogCoeffs(l, rec, rec, |x.v|);
    y := H.ChainRule(x, H.HDScal(f));
    var a := 1.0 + x.v[0];
    assert a == x.v[0] + 1.0;
    LogTableAgrees(l, 1.0 / a, a, |x.v|, D.Ln(a, l));
    H.ChainRuleAgrees(x, H.HDScal(f), H.Lift(x), D.Ln(a, l));
  }

  // ---------------------------------------------------------------------
  // sin, cos, sin_cos, tan, sinh, cosh, tanh

  /** A table that repeats the pattern p: entry k is p[k mod |p|], as the
      `match i % 4` and `match i % 2` loops pick their entries. */
  function CyclicTable(p: seq<real>, len: nat): (t: seq<real>)
    requires |p| > 0
    ensures |t| == len
  {
    seq(len, k => p[k % |p|])
  }

  method CyclicCoeffs(p: seq<real>, len: nat) returns (f: seq<real>)
    requires |p| > 0
    ensures f == CyclicTable(p, len)
  {
    f := [];
    for i := 0 to len
      invariant |f| == i && forall k :: 0 <= k < i ==> f[k] == p[k % |p|]
    {
      f := f + [p[i % |p|]];
    }
  }

  /** The derivative patterns, with s = sin(x0), c = cos(x0) for sin and
      cos and s = sinh(x0), c = cosh(x0) for sinh and cosh. */
  function SinCycle(s: real, c: real): seq<real> { [s, c, -s, -c] }
  function CosCycle(s: real, c: real): seq<real> { [c, -s, -c, s] }
  function SinhCycle(s: real, c: real): seq<real> { [s, c] }
  function CoshCycle(s: real, c: real): seq<real> { [c, s] }

  /** Each derivative of sin is the next entry: sin' = cos, and sin'' = −sin. */
  lemma SinCosShift(s: real, c: real, len: nat, k: nat)
    requires k + 2 < len
    ensures CyclicTable(CosCycle(s, c), len)[k] == CyclicTable(SinCycle(s, c), len)[k + 1]
    ensures CyclicTable(CosCycle(s, c), len)[k + 1] == -CyclicTable(SinCycle(s, c), len)[k]
    ensures CyclicTable(SinCycle(s, c), len)[k + 2] == -CyclicTable(SinCycle(s, c), len)[k]
  {
    var q := k % 4;
    assert (k + 1) % 4 == (q + 1) % 4 && (k + 2) % 4 == (q + 2) % 4;
    var sn, cs := CyclicTable(SinCycle(s, c), len), CyclicTable(CosCycle(s, c), len);
    assert sn[k] == SinCycle(s, c)[q] && cs[k] == CosCycle(s, c)[q];
    assert sn[k + 1] == SinCycle(s, c)[(q + 1) % 4] && cs[k + 1] == CosCycle(s, c)[(q + 1) % 4];
    assert sn[k + 2] == SinCycle(s, c)[(q + 2) % 4];
    if q == 0 { } else if q == 1 { } else if q == 2 { } else { }
  }

  /** sinh' = cosh, cosh' = sinh and sinh'' = sinh. */
  lemma SinhCoshShift(s: real, c: real, len: nat, k: nat)
    requires k + 2 < len
    ensures CyclicTable(CoshCycle(s, c), len)[k] == CyclicTable(SinhCycle(s, c), len)[k + 1]
    ensures CyclicTable(CoshCycle(s, c), len)[k + 1] == CyclicTable(SinhCycle(s, c), len)[k]
    ensures CyclicTable(SinhCycle(s, c), len)[k + 2] == CyclicTable(SinhCycle(s, c), len)[k]
  {
    var q := k % 2;
    assert (k + 1) % 2 == (q + 1) % 2 && (k + 2) % 2 == q;
  }

  function SinSpec(x: H.HDScal, s: real, c: real): (y: H.HDScal)
    requires H.Valid(x)
    ensures |y.v| == |x.v| && y.v[0] == s
  {
    H.ChainRule(x, H.HDScal(CyclicTable(SinCycle(s, c), |x.v|)))
  }

  function CosSpec(x: H.HDScal, s: real, c: real): (y: H.HDScal)
    requires H.Valid(x)
    ensures |y.v| == |x.v| && y.v[0] == c
  {
    H.ChainRule(x, H.HDScal(CyclicTable(CosCycle(s, c), |x.v|)))
  }

  function SinhSpec(x: H.HDScal, s: real, c: real): (y: H.HDScal)
    requires H.Valid(x)
    ensures |y.v| == |x.v| && y.v[0] == s
  {
    H.ChainRule(x, H.HDScal(CyclicTable(SinhCycle(s, c), |x.v|)))
  }

  function CoshSpec(x: H.HDScal, s: real, c: real): (y: H.HDScal)
    requires H.Valid(x)
    ensures |y.v| == |x.v| && y.v[0] == c
  {
    H.ChainRule(x, H.HDScal(CyclicTable(CoshCycle(s, c), |x.v|)))
  }

  /** The first four entries of a pattern of length four, or of one of
      length two read twice, are the Dual3 table. */
  lemma CyclicAgrees(p: seq<real>, len: nat, c: D.Coeffs)
    requires |p| == 4 || |p| == 2
    requires p[0] == c.f0 && p[1] == c.f1
    requires |p| == 4 ==> p[2] == c.f2 && p[3] == c.f3
    requires |p| == 2 ==> p[0] == c.f2 && p[1] == c.f3
    ensures H.TableAgrees(H.HDScal(CyclicTable(p, len)), c)
  {
  }

  method Sin(x: H.HDScal, s: real, c: real) returns (y: H.HDScal)
    requires H.Valid(x)
    ensures y == SinSpec(x, s, c)
    ensures H.Agrees(y, Dual3.Apply(H.Lift(x), D.Sin(s, c)))
  {
    var f := CyclicCoeffs(SinCycle(s, c), |x.v|);
    y := H.ChainRule(x, H.HDScal(f));
    CyclicAgrees(SinCycle(s, c), |x.v|, D.Sin(s, c));
    H.ChainRuleAgrees(x, H.HDScal(f), H.Lift(x), D.Sin(s, c));
  }

  method Cos(x: H.HDScal, s: real, c: real) returns (y: H.HDScal)
    requires H.Valid(x)
    ensures y == CosSpec(x, s, c)
    ensures H.Agrees(y, Dual3.Apply(H.Lift(x), D.Cos(s, c)))
  {
    var f := CyclicCoeffs(CosCycle(s, c), |x.v|);
    y := H.ChainRule(x, H.HDScal(f));
    CyclicAgrees(CosCycle(s, c), |x.v|, D.Cos(s, c));
    H.ChainRuleAgrees(x, H.HDScal(f), H.Lift(x), D.Cos(s, c));
  }

  /** `sin_cos`: both tables in one loop over i. */
  method SinCos(x: H.HDScal, s: real, c: real) returns (ys: H.HDScal, yc: H.HDScal)
    requires H.Valid(x)
    ensures ys == SinSpec(x, s, c) && yc == CosSpec(x, s, c)
  {
    var fs: seq<real> := [];
    var fc: seq<real> := [];
    for i := 0 to |x.v|
      invariant |fs| == i && forall k :: 0 <= k < i ==> fs[k] == SinCycle(s, c)[k % 4]
      invariant |fc| == i && forall k :: 0 <= k < i ==> fc[k] == CosCycle(s, c)[k % 4]
    {
      fs := fs + [SinCycle(s, c)[i % 4]];
      fc := fc + [CosCycle(s, c)[i % 4]];
    }
    assert fs == CyclicTable(SinCycle(s, c), |x.v|);
    assert fc == CyclicTable(CosCycle(s, c), |x.v|);
    ys := H.ChainRule(x, H.HDScal(fs));
    yc := H.ChainRule(x, H.HDScal(fc));
  }

  /** `tan` = sin/cos, through `div`; cos(x0) = 0 gives infinities in
      floating point and is excluded. */
  method Tan(x: H.HDScal, s: real, c: real) returns (z: H.HDScal)
    requires H.Valid(x) && c != 0.0
    ensures z == H.MulSpec(SinSpec(x, s, c), H.RecipSpec(CosSpec(x, s, c)))
    ensures H.Agrees(z, Dual3.Div(Dual3.Apply(H.Lift(x), D.Sin(s, c)), Dual3.Apply(H.Lift(x), D.Cos(s, c))))
  {
    var sn := Sin(x, s, c);
    var cs := Cos(x, s, c);
    z := H.Div(sn, cs);
    QuotientAgrees(sn, cs, Dual3.Apply(H.Lift(x), D.Sin(s, c)), Dual3.Apply(H.Lift(x), D.Cos(s, c)));
  }

  /** The quotient of two numbers agrees with the Dual3 quotient of any
      numbers they agree with. */
  lemma QuotientAgrees(x: H.HDScal, y: H.HDScal, dx: Dual3.Dual3, dy: Dual3.Dual3)
    requires H.Valid(y) && |x.v| <= |y.v| && y.v[0] != 0.0
    requires H.Agrees(x, dx) && H.Agrees(y, dy)
    ensures H.Agrees(H.MulSpec(x, H.RecipSpec(y)), Dual3.Div(dx, dy))
  {
    H.RecipAgrees(y, dy);
    H.MulAgrees(x, H.RecipSpec(y), dx, Dual3.Recip(dy));
  }

  method Sinh(x: H.HDScal, s: real, c: real) returns (y: H.HDScal)
    requires H.Valid(x)
    ensures y == SinhSpec(x, s, c)
    ensures H.Agrees(y, Dual3.Apply(H.Lift(x), D.Sinh(s, c)))
  {
    var f := CyclicCoeffs(SinhCycle(s, c), |x.v|);
    y := H.ChainRule(x, H.HDScal(f));
    CyclicAgrees(SinhCycle(s, c), |x.v|, D.Sinh(s, c));
    H.ChainRuleAgrees(x, H.HDScal(f), H.Lift(x), D.Sinh(s, c));
  }

  method Cosh(x: H.HDScal, s: real, c: real) returns (y: H.HDScal)
    requires H.Valid(x)
    ensures y == CoshSpec(x, s, c)
    ensures H.Agrees(y, Dual3.Apply(H.Lift(x), D.Cosh(s, c)))
  {
    var f := CyclicCoeffs(CoshCycle(s, c), |x.v|);
    y := H.ChainRule(x, H.HDScal(f));
    CyclicAgrees(CoshCycle(s, c), |x.v|, D.Cosh(s, c));
    H.ChainRuleAgrees(x, H.HDScal(f), H.Lift(x), D.Cosh(s, c));
  }

  /** `tanh` = sinh/cosh, through `div`. */
  method Tanh(x: H.HDScal, s: real, c: real) returns (z: H.HDScal)
    requires H.Valid(x) && c != 0.0
    ensures z == H.MulSpec(SinhSpec(x, s, c), H.RecipSpec(CoshSpec(x, s, c)))
    ensures H.Agrees(z, Dual3.Div(Dual3.Apply(H.Lift(x), D.Sinh(s, c)), Dual3.Apply(H.Lift(x), D.Cosh(s, c))))
  {
    var sn := Sinh(x, s, c);
    var ch := Cosh(x, s, c);
    z := H.Div(sn, ch);
    QuotientAgrees(sn, ch, Dual3.Apply(H.Lift(x), D.Sinh(s, c)), Dual3.Apply(H.Lift(x), D.Cosh(s, c)));
  }

  // ---------------------------------------------------------------------
  // apply_function: f(x) from f(x0) and a rule df for the derivative f'

  /** The entries 1.. of x followed by a zero: x', one order lower. */
  function Raised(x: H.HDScal): (d: H.HDScal)
    requires |x.v| >= 1
    ensures |d.v| == |x.v|
  {
    H.HDScal(x.v[1..] + [0.0])
  }

  /** x with its last entry replaced by zero: x one order lower. */
  function Lowered(x: H.HDScal): (d: H.HDScal)
    requires |x.v| >= 1
    ensures |d.v| == |x.v| && H.Valid(d) == H.Valid(x)
  {
    H.HDScal(x.v[..|x.v| - 1] + [0.0])
  }

  /** `apply_function` as written: f(x0), then every entry of df(lowered x)
      times x'. The product has as many entries as x, so the result has
      one entry more than x whenever x has a derivative part. */
  function ApplyFunctionAsWritten(x: H.HDScal, fx: real, df: H.HDScal -> H.HDScal): (y: H.HDScal)
    requires H.Valid(x) && |df(Lowered(x)).v| == |x.v|
    ensures |y.v| == (if |x.v| == 1 then 1 else |x.v| + 1) && y.v[0] == fx
  {
    if |x.v| == 1 then H.HDScal([fx])
    else H.HDScal([fx] + H.MulSpec(df(Lowered(x)), Raised(x)).v)
  }

  /** `apply_function` with the result cut to the length of x: entry k + 1
      is entry k of f'(x)·x', the derivative of f(x) one order down. */
  function ApplyFunctionSpec(x: H.HDScal, fx: real, df: H.HDScal -> H.HDScal): (y: H.HDScal)
    requires H.Valid(x) && |df(Lowered(x)).v| == |x.v|
    ensures |y.v| == |x.v| && y.v[0] == fx
  {
    H.HDScal([fx] + H.MulSpec(df(Lowered(x)), Raised(x)).v[..|x.v| - 1])
  }

  method ApplyFunction(x: H.HDScal, fx: real, df: H.HDScal -> H.HDScal) returns (y: H.HDScal)
    requires H.Valid(x) && |df(Lowered(x)).v| == |x.v|
    ensures y == ApplyFunctionSpec(x, fx, df)
  {
    if |x.v| == 1 {
      return H.HDScal([fx]);
    }
    var deriv := Raised(x);
    var diff := df(Lowered(x));
    var p := H.Mul(diff, deriv);
    var res := [fx];
    var i := 0;
    while i < |x.v| - 1
      invariant 0 <= i <= |x.v| - 1
      invariant res == [fx] + p.v[..i]
    {
      res := res + [p.v[i]];
      i := i + 1;
    }
    y := H.HDScal(res);
  }

  /** The source's result is the intended one with one extra entry: on a
      D1 number it has three entries, one more than any D1 number. */
  lemma ApplyFunctionOverlong(x: H.HDScal, fx: real, df: H.HDScal -> H.HDScal)
    requires H.Valid(x) && |x.v| >= 2 && |df(Lowered(x)).v| == |x.v|
    ensures |ApplyFunctionAsWritten(x, fx, df).v| == |x.v| + 1
    ensures ApplyFunctionAsWritten(x, fx, df).v[..|x.v|] == ApplyFunctionSpec(x, fx, df).v
    ensures |x.v| == 6 ==> !H.Valid(ApplyFunctionAsWritten(x, fx, df))
  {
    var p := H.MulSpec(df(Lowered(x)), Raised(x)).v;
    assert ([fx] + p)[..|x.v|] == [fx] + p[..|x.v| - 1];
  }

  /** The corrected `apply_function` is the chain rule: when df on the
      lowered number agrees with the derivative table of f (c shifted by
      one order) and fx is f(x0), the result agrees with f applied to x. */
  lemma ApplyFunctionChainRule(x: H.HDScal, fx: real, df: H.HDScal -> H.HDScal, c: D.Coeffs)
    requires H.Valid(x) && |df(Lowered(x)).v| == |x.v| && fx == c.f0
    requires H.Agrees(df(Lowered(x)), Dual3.Apply(H.Lift(Lowered(x)), D.Shift(c)))
    ensures H.Agrees(ApplyFunctionSpec(x, fx, df), Dual3.Apply(H.Lift(x), c))
  {
    var g, r := df(Lowered(x)), Raised(x);
    var gd := Dual3.Apply(H.Lift(Lowered(x)), D.Shift(c));
    H.MulAgrees(g, r, gd, H.Lift(r));
    var p := H.MulSpec(g, r);
    var y := ApplyFunctionSpec(x, fx, df);
    var t := Dual3.Apply(H.Lift(x), c);
    forall k | 0 <= k < |y.v| && k < 4
      ensures y.v[k] == H.Part(t, k)
    {
      if k >= 1 {
        assert y.v[k] == p.v[k - 1] == H.Part(Dual3.Mul(gd, H.Lift(r)), k - 1);
        ApplySlot(k, c, x.v, gd, H.Lift(r), t);
      }
    }
  }

  /** Entry k − 1 of f'(lowered x)·x' is entry k of f(x), for k = 1, 2, 3. */
  lemma ApplySlot(k: nat, c: D.Coeffs, v: seq<real>, gd: Dual3.Dual3, rd: Dual3.Dual3, t: Dual3.Dual3)
    requires 1 <= k < 4 && k < |v| <= 6
    requires gd == Dual3.Apply(H.Lift(Lowered(H.HDScal(v))), D.Shift(c))
    requires rd == H.Lift(Raised(H.HDScal(v)))
    requires t == Dual3.Apply(H.Lift(H.HDScal(v)), c)
    ensures H.Part(Dual3.Mul(gd, rd), k - 1) == H.Part(t, k)
  {
    var lo := Lowered(H.HDScal(v));
    assert rd.re == v[1];
    if k == 1 {
    } else if k == 2 {
      assert lo.v[1] == v[1] && rd.v1 == v[2];
    } else {
      assert lo.v[1] == v[1] && lo.v[2] == v[2];
      assert rd.v1 == v[2] && rd.v2 == v[3];
      Slot3(c.f1, c.f2, c.f3, v[1], v[2], v[3]);
    }
  }

  lemma Slot3(f1: real, f2: real, f3: real, x1: real, x2: real, x3: real)
    ensures D.Product2(f1, D.Compose1(f2, x1), D.Compose2(f2, f3, x1, x2), x1, x2, x3)
         == D.Compose3(f1, f2, f3, x1, x2, x3)
  {
  }
}
