/** What src/dual3.rs, an older copy of the third-order number, does
    differently from the newer Dual3: its equality is derived, so it
    compares all four parts, and its driver `try_third_derivative` returns
    a tuple. Its rules are those of Dual3. */
module LegacyDual3 {
  import W = Wrappers
  import D = Derivatives
  import Dual3
  import Explicit

  /** The derived `PartialEq`: every part must agree. */
  predicate StructuralEq(x: Dual3.Dual3, y: Dual3.Dual3) {
    x.re == y.re && x.v1 == y.v1 && x.v2 == y.v2 && x.v3 == y.v3
  }

  /** Structural equality implies the newer real-part equality, but not the
      other way round: two numbers with the same value and different
      derivatives are equal in the newer file and unequal in the older. */
  lemma StructuralEqIsStricter(x: Dual3.Dual3, y: Dual3.Dual3)
    ensures StructuralEq(x, y) <==> x == y
    ensures StructuralEq(x, y) ==> Dual3.Eq(x, y)
    ensures Dual3.Eq(x, Dual3.Derivative(x)) && (x.v1 != 1.0 ==> !StructuralEq(x, Dual3.Derivative(x)))
  {
  }

  /** `try_third_derivative`: from_re(x) with v1 set to one; the result's
      four parts, or g's error. */
  function TryThirdDerivative<E>(g: Dual3.Dual3 -> W.Result<Dual3.Dual3, E>, x: real): (r: W.Result<(real, real, real, real), E>)
    ensures r.Err? <==> g(Dual3.Derivative(Dual3.FromRe(x))).Err?
    ensures r.Err? ==> r.error == g(Dual3.Derivative(Dual3.FromRe(x))).error
    ensures r.Ok? ==> g(Dual3.Derivative(Dual3.FromRe(x))).value == Dual3.Dual3(r.value.0, r.value.1, r.value.2, r.value.3)
  {
    var seed := Dual3.FromRe(x).(v1 := 1.0);
    match g(seed)
    case Err(e) => W.Err(e)
    case Ok(d) => W.Ok((d.re, d.v1, d.v2, d.v3))
  }

  /** It returns what the newer `third_derivative` returns, as a tuple. */
  lemma TryThirdDerivativeAgrees<E>(g: Dual3.Dual3 -> W.Result<Dual3.Dual3, E>, x: real)
    ensures TryThirdDerivative(g, x).Err? ==> Explicit.ThirdDerivative(g, x) == W.Err(TryThirdDerivative(g, x).error)
    ensures TryThirdDerivative(g, x).Ok? ==>
              var t := TryThirdDerivative(g, x).value;
              Explicit.ThirdDerivative(g, x) == W.Ok(D.Coeffs(t.0, t.1, t.2, t.3))
  {
  }
}
