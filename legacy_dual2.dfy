/** What src/dual2.rs, an older copy of the second-order numbers, adds to
    the newer Dual2Vec: the scalar constructor `new_scalar`. Its `derivative`,
    `from_re`, rules and drivers are those of Dual2Vec and Explicit. */
module LegacyDual2 {
  import M = Matrix
  import Der = Derivative
  import HD = HyperDual
  import V = Dual2Vec
  import Explicit

  /** `new_scalar(re, v1, v2)`: both parts present as 1 x 1 matrices, so
      the only entry is the hyper-dual number (re, v1, v1, v2). */
  function NewScalar(re: real, v1: real, v2: real): (x: V.Dual2Vec)
    ensures V.Valid(x, 1) && x.v1.value.Some? && x.v2.value.Some?
    ensures V.Entry(x, 1, 0, 0) == HD.HyperDual(re, v1, v1, v2)
    ensures Der.Unwrap(x.v1) == v1 && Der.Unwrap(x.v2) == v2
  {
    V.New(re, Der.Some([[v1]]), Der.Some([[v2]]))
  }

  /** `new_scalar(x, 1, 0)` and the driver's seed `from_re(x).derivative()`
      differ as values (the seed's second part is absent) but stand for
      the same number. */
  lemma NewScalarIsSeed(x: real)
    ensures NewScalar(x, 1.0, 0.0) != Explicit.SecondSeed(x)
    ensures V.Entry(NewScalar(x, 1.0, 0.0), 1, 0, 0) == V.Entry(Explicit.SecondSeed(x), 1, 0, 0)
  {
    Explicit.SecondSeedEntry(x);
  }
}
