# num-dual in Dafny

A model of the core of `num-dual`, a Rust library for forward-mode automatic
differentiation. Each number type carries a real part and one or more
derivative parts. Every elementary function f is applied through a chain rule
that is given f and its first derivatives at the real part, so one evaluation
of a function yields its value and its derivatives. Products and quotients
follow Leibniz's rule. The scalar type `T` is Dafny's `real`. The values of
transcendental functions (exp, ln, sin, √, the Bessel coefficient tables) are
parameters. The rational recurrences the library builds from them are modelled
exactly: the reciprocal, `powi`, the logarithm family and the derivative tables
of `HDScal`.

Modules, by source file:

- `Derivatives` (src/derivatives.rs): the chain-rule coefficient table shared by every type, and its composition and product identities.
- `Derivative` (src/datatypes/derivative.rs, shared with the older copy src/derivative.rs): the optional matrix container, where an absent part acts as the zero matrix. `Matrix` and `Entries` hold the dense matrices and entry-wise lemmas it relies on.
- Scalar and vector number types:
  - `Dual`, `DualVec`, `Dual2Vec`, `Dual3`, `HyperDual`, `HyperDualVec`, `HyperHyperDual` and `Real` cover the files of the same names under src/datatypes/.
  - `HyperDualVec` and `HyperHyperDual` also model src/hyperdual_vec.rs and src/hyperhyperdual.rs.
  - `Dual2Vec` also models src/dual2_vec.rs, whose rules are the same.
  - The vector and matrix types are proved entry by entry against the scalar `Dual` and `HyperDual` rules.
- `Componentwise` (src/macros2.rs): addition, subtraction, negation, scaling, `Sum`/`Product`, `abs`/`signum` and the in-place assign operators.
- `Explicit` (src/explicit.rs): the drivers that seed unit derivative parts and read the derivatives off the result.
- Older copies: `LegacyDual` (src/dual.rs), `LegacyHyperDual` (src/hyperdual.rs), `LegacyDual2` (src/dual2.rs), `LegacyDual3` (src/dual3.rs) and `HyperDual2` (src/hyperdual2.rs). Each holds only what its file does differently from the newer type.
- Fixed-size types:
  - `DenseDualVec` (src/dual_size.rs), `DualN`, `HyperDualN`, `HyperDualMN`, `HD2`, `HD3`.
  - `HDScal` and `HDScalFunctions` (src/hd_scal.rs).
  - The types whose rules are loops over arrays are modelled as methods proved against the functions of the scalar types.
- `StaticMat` and `StaticVec` (src/static_mat.rs, src/static_vec.rs):
  - in-place array operations and the matrix products;
  - `StaticMat` also covers the older copy src/linalg/static_mat.rs, whose `matmul_transpose` computes aᵀ·b, the `TransposeMatMul` method.
- `LUDecomposition` and `LinAlg`: the LU decomposition of src/linalg.rs and of its copies src/linalg/lu.rs and src/linalg/mod.rs, as specification functions and as the in-place array code.
  - The copies differ only in the singularity test: an exact zero pivot, or a pivot below 10⁻¹⁰.
  - This is the parameter `Singular`.
- `Cofactor`: the determinant as the cofactor expansion along the first column, the reference against which `determinant` is proved. The proof shows that the elimination exchanges rows and subtracts multiples of the pivot row, and that the finished matrix is triangular.
- `JacobiRotation`, `Jacobi` and `SmallestEv` (src/linalg.rs): the Jacobi eigenvalue algorithm and `smallest_ev`, with `Roots` taking the square root as a parameter.
- `Norm`: the Euclidean `norm` of src/static_mat.rs and the `norm` of src/linalg/mod.rs.
- `Bessel` (src/bessel.rs): `polevl`/`p1evl` and the branch structure of J0, J1 and J2.
- `Wrappers`: `Option` and `Result`.

Division by a number whose real part is zero gives infinities and NaN in the source. Here it is excluded by a precondition, or modelled as `None` where a finding depends on it.

## Model

| member | source | states |
|---|---|---|
| Derivatives.RecipCoeffs | src/derivatives.rs:29-36 | `recip`'s table is 1/x, −1/x², 2/x³, −6/x⁴, each coefficient following from the previous one by x·f⁽ᵏ⁺¹⁾ = −(k+1)·f⁽ᵏ⁾ |
| Derivatives.RecipInvolution | src/derivatives.rs:29-36 | the reciprocal's table composed with itself is the identity's table |
| Derivatives.RecipProduct | src/derivatives.rs:29-36 | the reciprocal's table is the inverse of the identity's under Leibniz's rule, so x·recip(x) = 1 for every number type |
| Derivatives.FallingRecurrence | src/derivatives.rs:44-49 | the `powi`/`powf` table from pow3 has f0 = pow3·x³ and x·f⁽ᵏ⁺¹⁾ = (n − k)·f⁽ᵏ⁾ |
| Derivatives.FallingStep | src/derivatives.rs:44-49 | the table for exponent n + 1 is the table for n times the identity's |
| Derivatives.PowI | src/derivatives.rs:39-53 | `powi` takes `one()` exactly at 0, the number itself exactly at 1, its square exactly at 2, and the coefficient table otherwise |
| Derivatives.PowILeading | src/derivatives.rs:44-45 | the table's value is xⁿ |
| Derivatives.PowISlope | src/derivatives.rs:46 | its first derivative is n·xⁿ⁻¹ |
| Derivatives.PowICurvature | src/derivatives.rs:47 | its second derivative is n(n−1)·xⁿ⁻² |
| Derivatives.PowISquare | src/derivatives.rs:43 | `self * self` is the square's table x², 2x, 2, 0 |
| Derivatives.PowICube | src/derivatives.rs:43-50 | at n = 3 the table equals the square times the identity |
| Derivatives.PowIChainStep | src/derivatives.rs:43-50 | for n ≥ 3 or n ≤ −2 the table for n + 1 is the table for n times the identity's, the step behind every `powi(n + 1) = powi(n)·x` lemma |
| Derivatives.PowF | src/derivatives.rs:56-75 | `powf` takes `one()` exactly at 0, the number at 1, the square when n is within epsilon of 2, and the falling-factorial table otherwise |
| Derivatives.Sqrt | src/derivatives.rs:77-86 | `sqrt`'s table satisfies x·f1 = f0/2, x·f2 = −f1/2, x·f3 = −3f2/2 |
| Derivatives.SqrtSquare | src/derivatives.rs:77-86 | squaring composed with the square-root table is the identity's table |
| Derivatives.Cbrt | src/derivatives.rs:88-97 | `cbrt`'s table satisfies 3x·f1 = f0, 3x·f2 = −2f1, 3x·f3 = −5f2 |
| Derivatives.CbrtCube | src/derivatives.rs:88-97 | cubing composed with the cube-root table is the identity's table |
| Derivatives.Exp | src/derivatives.rs:100-103 | every derivative of `exp` equals its value |
| Derivatives.Exp2 | src/derivatives.rs:106-113 | each derivative of `exp2` is the previous one times ln 2 |
| Derivatives.ExpM1 | src/derivatives.rs:116-120 | `exp_m1` has value eˣ − 1 and the derivatives of `exp` |
| Derivatives.Ln | src/derivatives.rs:123-130 | `ln`'s derivatives are the reciprocal's table shifted by one |
| Derivatives.ExpLn | src/derivatives.rs:100-130 | exp's table at ln x composed with ln's table is the identity's table |
| Derivatives.Log | src/derivatives.rs:133-140 | `log(base)`'s derivatives are ln's divided by ln(base) |
| Derivatives.Log2 | src/derivatives.rs:143-150 | `log2` is `log` with base 2 |
| Derivatives.Log10 | src/derivatives.rs:153-160 | `log10` is `log` with base 10 |
| Derivatives.Ln1p | src/derivatives.rs:163-170 | `ln_1p` has ln's derivatives taken at 1 + x |
| Derivatives.Sin | src/derivatives.rs:173-176 | `sin`'s table is (s, c, −s, −c): f'' = −f |
| Derivatives.Cos | src/derivatives.rs:179-190 | `cos`'s table is sin's shifted by one derivative |
| Derivatives.Sinh | src/derivatives.rs:237-241 | `sinh`'s table is (s, c, s, c): f'' = f |
| Derivatives.Cosh | src/derivatives.rs:244-248 | `cosh`'s table is sinh's shifted by one derivative |
| Derivatives.Asin | src/derivatives.rs:199-206 | `asin`'s f1 = √(1/(1 − x²)) and (1 − x²)·f2 = x·f1, (1 − x²)·f3 = 3x·f2 + f1 |
| Derivatives.Acos | src/derivatives.rs:209-216 | `acos`'s derivatives are asin's negated |
| Derivatives.Atan | src/derivatives.rs:219-227 | `atan`'s table satisfies (1 + x²)·f1 = 1, (1 + x²)·f2 = −2x·f1, (1 + x²)·f3 = −4x·f2 − 2f1 |
| Derivatives.Asinh | src/derivatives.rs:256-263 | `asinh`'s table satisfies (1 + x²)·f2 = −x·f1, (1 + x²)·f3 = −3x·f2 − f1 |
| Derivatives.Acosh | src/derivatives.rs:266-273 | `acosh`'s table satisfies (x² − 1)·f2 = −x·f1, (x² − 1)·f3 = −3x·f2 − f1 |
| Derivatives.Atanh | src/derivatives.rs:276-284 | `atanh`'s table satisfies (1 − x²)·f1 = 1, (1 − x²)·f2 = 2x·f1, (1 − x²)·f3 = 4x·f2 + 2f1 |
| Derivatives.ProductCompose | src/derivatives.rs:340-351 | the chain rule commutes with Leibniz's product: (f∘h)·(g∘h) = (f·g)∘h |
| Derivatives.ShiftProduct | src/datatypes/dual3.rs:85-96 | (f·g)' = f·g' + f'·g on the slots the shifted table determines |
| Derivatives.ProductCommutes | src/datatypes/dual3.rs:85-96 | Leibniz's product of tables is commutative |
| Derivatives.ProductOne | src/datatypes/dual3.rs:85-96 | the constant one is its unit |
| Derivatives.ProductAssociates | src/datatypes/dual3.rs:85-96 | it is associative |
| Derivatives.ComposeAssociates | src/derivatives.rs:340-351 | composing tables by the chain rule is associative |
| Derivatives.ComposeIdentity | src/derivatives.rs:340-351 | the identity's table is a right unit of composition |
| Derivatives.Truncate | src/derivatives.rs:320-351 | a first-order type receives f0, f1; a second-order one f0..f2; a third-order one the whole table |
| Derivatives.TruncateCompose | src/derivatives.rs:320-351 | skipping the higher coefficients commutes with composition |
| Derivatives.TruncateProduct | src/derivatives.rs:320-351 | and with Leibniz's product |
| Derivative.New | src/datatypes/derivative.rs:29-31 | the container is absent exactly when the option is, and holds its matrix otherwise |
| Derivative.Some | src/datatypes/derivative.rs:33-35 | `some` holds the matrix |
| Derivative.None | src/datatypes/derivative.rs:37-39 | `none` is absent |
| Derivative.UnwrapGeneric | src/datatypes/derivative.rs:121-123 | an absent container stands for the r × c zero matrix, a present one for its matrix |
| Derivative.DerivativeGeneric | src/datatypes/derivative.rs:115-119 | a present r × c matrix with 1 at column-major index i, (i mod r, i div r), and 0 elsewhere |
| Derivative.Identity1 | src/datatypes/derivative.rs:142-146 | `derivative()` of a 1 × 1 container is the present 1 |
| Derivative.Unwrap | src/datatypes/derivative.rs:148-150 | `unwrap` is the single entry, zero when absent |
| Derivative.Scale | src/datatypes/derivative.rs:159-179 | scaling keeps absence and scales the represented matrix |
| Derivative.DivBy | src/datatypes/derivative.rs:194-214 | division by a scalar keeps absence and divides the represented matrix |
| Derivative.Neg | src/datatypes/derivative.rs:333-353 | negation keeps absence and negates the represented matrix |
| Derivative.MatMul | src/datatypes/derivative.rs:181-192 | the product is present exactly when both operands are, and represents the matrix product |
| Derivative.TrMul | src/datatypes/derivative.rs:216-235 | `tr_mul` is present exactly when both operands are, and represents dᵀ·e |
| Derivative.Add | src/datatypes/derivative.rs:237-283 | the sum is absent only when both operands are, returns the other operand when one is absent, and represents the matrix sum |
| Derivative.Sub | src/datatypes/derivative.rs:285-331 | the difference is absent only when both are; an absent left operand gives the negated right one; it represents the matrix difference |
| Derivative.AtScale | src/datatypes/derivative.rs:159-179 | entrywise, scaling multiplies, with an absent container reading as zero |
| Derivative.AtNeg | src/datatypes/derivative.rs:333-353 | entrywise, negation negates |
| Derivative.AtAdd | src/datatypes/derivative.rs:237-283 | entrywise, the sum adds |
| Derivative.AtSub | src/datatypes/derivative.rs:285-331 | entrywise, the difference subtracts |
| Derivative.AtTrMulRows | src/datatypes/derivative.rs:216-235 | entry (i, j) of dᵀ·e for two rows is d_i·e_j: the outer product second derivatives are built from |
| Derivative.AtMatMulOuter | src/datatypes/derivative.rs:181-192 | entry (i, j) of a column times a row is d_i·e_j |
| Derivative.Slot.AddAssign | src/datatypes/derivative.rs:355-366 | `+=` leaves the sum in place; from absent it takes the right operand; an absent right operand changes nothing |
| Derivative.Slot.SubAssign | src/datatypes/derivative.rs:368-379 | `-=` leaves the difference in place; from absent it takes the negated right operand; an absent right operand changes nothing |
| Derivative.Slot.MulAssign | src/datatypes/derivative.rs:381-390 | `*=` scales in place and leaves an absent container absent |
| Derivative.Slot.DivAssign | src/datatypes/derivative.rs:392-401 | `/=` divides in place and leaves an absent container absent |
| Derivative.TryMapBorrowed | src/datatypes/derivative.rs:85-113 | no result exactly when the container is absent or the closure fails on some entry; otherwise a present matrix of the closure's values, entry by entry |
| Derivative.Fits | src/datatypes/derivative.rs:13-19 | the container is absent or holds an r×c matrix, as its type parameters force |
| Derivative.At | src/datatypes/derivative.rs:115-123 | entry (i, j) of the matrix the container stands for, absent read as zero; Derivative.AtScale, AtNeg, AtAdd, AtSub, AtTrMulRows and AtMatMulOuter state every operator through it |
| Derivative.Slot.constructor | src/datatypes/derivative.rs:355-401 | a derivative held in a place that `+=`, `-=`, `*=` and `/=` update; its ensures states the held value |
| Derivative.SomeEntryFails | src/datatypes/derivative.rs:85-113 | the closure fails on some entry; Derivative.TryMapBorrowed states that it returns nothing exactly then or when the container is absent |
| Dual.New | src/datatypes/dual.rs:32-38 | `new` stores the two given parts unchanged |
| Dual.FromRe | src/datatypes/dual.rs:44-46 | `from_re` keeps the real part and has a zero derivative part |
| Dual.Derivative | src/datatypes/dual.rs:58-61 | `derivative` keeps the real part and sets eps to 1 |
| Dual.MulDivInverse | src/datatypes/dual.rs:76-96 | for a nonzero real part of y, the quotient rule undoes the product rule: (x / y)·y = x |
| Dual.MulAssociates | src/datatypes/dual.rs:76-81 | the product rule is associative |
| Dual.ChainRuleMul | src/datatypes/dual.rs:67-81 | the product of the chain rules of f and g at x is the chain rule of f·g (Leibniz's rule) |
| Dual.ChainRuleIdentity | src/datatypes/dual.rs:67-69 | the chain rule with the identity's coefficients (x, 1) returns the number unchanged |
| Dual.RecipInverse | src/derivatives.rs:29-36 | for a nonzero real part, y·recip(y) = 1 |
| Dual.DivIsMulRecip | src/datatypes/dual.rs:88-96 | the quotient rule x / y equals x·recip(y) |
| Dual.PowIStep | src/derivatives.rs:39-53 | `powi(n + 1)` = `powi(n)`·x for every integer n, negative ones too when the real part is nonzero, so the special cases 0, 1, 2 and the coefficient formula agree with repeated products and with the reciprocal |
| Dual.PowIDoc | src/datatypes/dual.rs:50-55 | `from_re(5).derivative().powi(2)` = 25 + 10ε |
| Dual.PartialCmp | src/datatypes/dual.rs:199-212 | `partial_cmp` is Equal, Less or Greater exactly as the real parts are equal, smaller or larger |
| Dual.ComparisonIgnoresEps | src/datatypes/dual.rs:199-212 | `==` and `partial_cmp` do not change when either derivative part is replaced |
| Dual.Max | src/datatypes/dual.rs:722-731 | `max` returns one of the two whole operands, the one with the larger real part, and self on a tie |
| Dual.Min | src/datatypes/dual.rs:733-741 | `min` returns one of the two whole operands, the one with the smaller real part, and self on a tie |
| Dual.Clamp | src/datatypes/dual.rs:743-752 | `clamp` returns self, min or max; its real part lies in [min, max] when min <= max, and it is self when self is already inside |
| Dual.Abs | src/macros2.rs:478-485 | `abs` is the number or its negation, whichever has a nonnegative real part |
| Dual.Copysign | src/datatypes/dual.rs:623-630 | `copysign` is \|self\| when sign's real part is positive (including +0) and −\|self\| otherwise |
| Dual.TrySqrt | src/datatypes/dual.rs:600-607 | `try_sqrt` is Some exactly when the real part is positive, with the root as real part |
| Dual.TrySqrtSquares | src/datatypes/dual.rs:600-607 | the Some result of `try_sqrt` squares back to the number |
| Dual.Atan2 | src/derivatives.rs:230-234 | `atan2` has real part atan2(re, other.re) and derivative (x'·y − y'·x)/(x² + y²) |
| Dual.One | src/macros2.rs:37-39 | `one()`, the constant one; Dual.RecipInverse states x·recip(x) is it |
| Dual.Neg | src/macros2.rs:125-149 | `-x` negates both parts; Dual.Abs and Dual.Copysign state what `abs` and `copysign` make of it |
| Dual.ChainRule | src/datatypes/dual.rs:67-69 | (f0, eps·f1); Dual.ChainRuleMul states it follows the product rule and Dual.ChainRuleIdentity that the identity's coefficients return the number |
| Dual.ProductRule | src/datatypes/dual.rs:79 | the derivative part da·b + db·a of a product, shared by every first-order part of the library; Dual.MulAssociates and Dual.ChainRuleMul state its algebra |
| Dual.QuotientRule | src/datatypes/dual.rs:92-94 | the derivative part (da·b − a·db)/b² of a quotient computed with inv = 1/b; Dual.MulDivInverse states (x / y)·y = x through it |
| Dual.Times | src/datatypes/dual.rs:78 | the real part a·b of a product; Dual.MulAssociates states the product is associative |
| Dual.Ratio | src/datatypes/dual.rs:89-91 | the real part a·(1/b) of a quotient; Dual.MulDivInverse states it undoes the product |
| Dual.Mul | src/datatypes/dual.rs:73-83 | the product rule; Dual.MulAssociates states it associates, Dual.ChainRuleMul that the chain rule respects it and Dual.MulDivInverse that `/` undoes it |
| Dual.Div | src/datatypes/dual.rs:85-97 | the quotient rule; Dual.MulDivInverse states (x / y)·y = x and Dual.DivIsMulRecip that x/y = x·recip(y) |
| Dual.Recip | src/derivatives.rs:29-36 | `recip` by the chain rule with the reciprocal's coefficients; Dual.RecipInverse states x·recip(x) = 1 |
| Dual.PowI | src/derivatives.rs:39-53 | `powi` with its 0, 1, 2 special cases and the falling-factorial table; Dual.PowIStep states powi(n+1) = powi(n)·x for every integer n and Dual.PowIDoc the library's documented values |
| Dual.Eq | src/datatypes/dual.rs:199-205 | `==` compares the real parts only; Dual.PartialCmp states the order agrees with it and Dual.ComparisonIgnoresEps that derivatives never matter |
| DualVec.New | src/datatypes/dual_vec.rs:48-54 | `new` stores the real part and the derivative container unchanged |
| DualVec.FromRe | src/datatypes/dual_vec.rs:63-65 | `from_re` leaves the derivative absent |
| DualVec.Component | src/datatypes/dual_vec.rs:40-54 | direction i of the number is the dual number (re, eps[i]), with eps[i] = 0 when eps is absent |
| DualVec.Neg | src/macros2.rs:125-149 | negation (written by the same macro pattern as src/macros2.rs) flips the real part and every direction and keeps an absent eps absent |
| DualVec.ChainRule | src/datatypes/dual_vec.rs:74-76 | the chain rule keeps an absent eps absent |
| DualVec.Mul | src/datatypes/dual_vec.rs:86-91 | the product's eps is absent exactly when both operands' are |
| DualVec.Div | src/datatypes/dual_vec.rs:101-107 | the quotient's eps is absent exactly when both operands' are |
| DualVec.ComponentChainRule | src/datatypes/dual_vec.rs:74-76 | direction i of `chain_rule(f0, f1)` is the scalar dual chain rule (f0, eps[i]·f1) |
| DualVec.ComponentMul | src/datatypes/dual_vec.rs:86-91 | direction i of the product is the scalar product rule of the directions |
| DualVec.ComponentDiv | src/datatypes/dual_vec.rs:101-107 | direction i of the quotient is the scalar quotient rule of the directions |
| DualVec.MulDivInverse | src/datatypes/dual_vec.rs:86-107 | in every direction, (x / y)·y = x for a nonzero real part of y |
| DualVec.PowI | src/derivatives.rs:39-53 | `powi` keeps the shape of eps |
| DualVec.ComponentPowI | src/derivatives.rs:39-53 | direction i of `powi(k)` is the scalar dual `powi(k)` of direction i |
| DualVec.PowIZeroTest | tests/test_dual_vec.rs:166-173 | (0, [1, 1]).powi(0) has real part 1 and eps reading [0, 0] |
| DualVec.PartialCmp | src/datatypes/dual_vec.rs:217-234 | `partial_cmp` orders by the real parts alone; Equal exactly when `==` holds |
| DualVec.Abs | src/macros2.rs:478-485 | `abs` is the number or its negation, whichever has a nonnegative real part |
| DualVec.Copysign | src/datatypes/dual_vec.rs:667-674 | `copysign` is \|self\| when sign's real part is positive and −\|self\| otherwise |
| DualVec.Max | src/datatypes/dual_vec.rs:766-770 | `max` returns a whole operand, the one with the larger real part, self on a tie |
| DualVec.Min | src/datatypes/dual_vec.rs:772-776 | `min` returns a whole operand, the one with the smaller real part, self on a tie |
| DualVec.Clamp | src/datatypes/dual_vec.rs:778-788 | `clamp` returns self, min or max by real part, with its real part inside [min, max] when min <= max |
| DualVec.Valid | src/datatypes/dual_vec.rs:15-24 | eps is absent or an n-vector, as the struct's dimension forces |
| DualVec.One | src/macros2.rs:37-39 | `one()`, the constant one with an absent derivative; DualVec.ComponentChainRule and DualVec.Mul state the operations direction by direction |
| DualVec.Eq | src/datatypes/dual_vec.rs:215-224 | `==` compares the real parts only; DualVec.PartialCmp states the order agrees with it |
| Dual2Vec.New | src/datatypes/dual2_vec.rs:51-58 | `new` stores the three parts unchanged |
| Dual2Vec.FromRe | src/datatypes/dual2_vec.rs:113-115 | `from_re` leaves gradient and Hessian absent |
| Dual2Vec.Derivative | src/datatypes/dual2_vec.rs:78-81 | `derivative(index)` makes the gradient the unit row e_index and keeps re and v2 |
| Dual2Vec.Gradient | src/datatypes/dual2_vec.rs:19-24 | the gradient read from v1, zero when absent |
| Dual2Vec.EntryRe | src/datatypes/dual2_vec.rs:19-24 | every entry (i, j) of the number has the number's real part |
| Dual2Vec.EntryChainRule | src/datatypes/dual2_vec.rs:124-130 | entry (i, j) of `chain_rule(f0, f1, f2)` is the hyper-dual chain rule of entry (i, j): v2·f1 + v1ᵀv1·f2 in the mixed slot |
| Dual2Vec.EntryMul | src/datatypes/dual2_vec.rs:140-149 | entry (i, j) of the product is the hyper-dual product of the entries, v1ᵀv1' + v1'ᵀv1 giving the cross terms |
| Dual2Vec.EntryDiv | src/datatypes/dual2_vec.rs:159-173 | entry (i, j) of the quotient is the hyper-dual quotient of the entries, including the 2·a·v1'ᵀv1'/b³ term |
| Dual2Vec.MulDivInverse | src/datatypes/dual2_vec.rs:140-173 | entrywise, (x / y)·y = x for a nonzero real part of y |
| Dual2Vec.GradientHessianEntry | src/datatypes/dual2_vec.rs:19-24 | entry (i, j) carries gradient entries i and j and Hessian entry (i, j) |
| Dual2Vec.SeededEntry | src/datatypes/dual2_vec.rs:78-81 | a constant seeded on variable k has entries (c, [i = k], [j = k], 0) |
| Dual2Vec.ProductDoc | src/datatypes/dual2_vec.rs:67-76 | x = 5 seeded on 0 and y = 3 seeded on 1: x·x·y has value 75, gradient [30, 25] and Hessian [[6, 10], [10, 0]] |
| Dual2Vec.PartialCmp | src/datatypes/dual2_vec.rs:290-309 | `partial_cmp` orders by the real parts alone; Equal exactly when `==` holds |
| Dual2Vec.Valid | src/datatypes/dual2_vec.rs:15-26 | v1 is absent or 1×n and v2 absent or n×n, as the struct's dimensions force |
| Dual2Vec.Hessian | src/datatypes/dual2_vec.rs:23-24 | v2 as an n×n matrix, absent read as zeros; Dual2Vec.GradientHessianEntry states its entries are the mixed parts of the entries |
| Dual2Vec.Entry | src/datatypes/dual2_vec.rs:124-173 | entry (i, j) as a hyper-dual number; Dual2Vec.EntryChainRule, EntryMul and EntryDiv state the rules of this type are the hyper-dual rules entry by entry |
| Dual2Vec.ChainRule | src/datatypes/dual2_vec.rs:124-130 | (f0, v1·f1, v2·f1 + v1ᵀv1·f2); Dual2Vec.EntryChainRule states every entry is the hyper-dual chain rule |
| Dual2Vec.Mul | src/datatypes/dual2_vec.rs:134-150 | the product rule; Dual2Vec.EntryMul states every entry is the hyper-dual product and Dual2Vec.MulDivInverse that `/` undoes it |
| Dual2Vec.Cross | src/datatypes/dual2_vec.rs:144-147 | the terms v2'·a + v1ᵀv1' + v1'ᵀv1 that the product and the quotient share; its ensures states its shape and Dual2Vec.EntryMul its entries through the product |
| Dual2Vec.Div | src/datatypes/dual2_vec.rs:153-173 | the quotient rule; Dual2Vec.EntryDiv states every entry is the hyper-dual quotient and Dual2Vec.MulDivInverse that it undoes `*` |
| Dual2Vec.Eq | src/datatypes/dual2_vec.rs:290-299 | `==` compares the real parts only; Dual2Vec.PartialCmp states the order agrees with it |
| Dual3.New | src/datatypes/dual3.rs:35-43 | `new` stores the four parts unchanged |
| Dual3.FromRe | src/datatypes/dual3.rs:49-51 | `from_re` zeros v1, v2 and v3 |
| Dual3.Derivative | src/datatypes/dual3.rs:63-66 | `derivative` sets v1 to 1 and keeps the other parts |
| Dual3.MulV3 | src/datatypes/dual3.rs:92-94 | the third part of the product, v3·b + 3(v2·b1 + v1·b2) + a·b3, is Leibniz's third-order term |
| Dual3.TableInjective | src/datatypes/dual3.rs:16-24 | a number is determined by its table (re, v1, v2, v3) |
| Dual3.TableApply | src/datatypes/dual3.rs:71-79 | the chain rule (f0, f1·v1, f2·v1² + f1·v2, f3·v1³ + 3f2·v1·v2 + f1·v3) is Faà di Bruno composition of the applied table with the number's table |
| Dual3.TableMul | src/datatypes/dual3.rs:85-96 | the product is Leibniz's rule on the tables |
| Dual3.ChainRuleMul | src/datatypes/dual3.rs:71-96 | applying f and g and multiplying equals applying f·g |
| Dual3.ChainRuleCompose | src/datatypes/dual3.rs:71-79 | applying g and then f equals applying f∘g |
| Dual3.ChainRuleIdentity | src/datatypes/dual3.rs:71-79 | applying the identity returns the number; a constant gives `from_re` of it |
| Dual3.MulCommutes | src/datatypes/dual3.rs:85-96 | the product is commutative |
| Dual3.MulAssociates | src/datatypes/dual3.rs:85-96 | the product is associative |
| Dual3.MulOne | src/datatypes/dual3.rs:85-96 | one is a unit of the product |
| Dual3.RecipInverse | src/datatypes/dual3.rs:104-108 | y·y.chain_rule(1/b, −1/b², 2/b³, −6/b⁴) = 1 for a nonzero real part b |
| Dual3.MulDivInverse | src/datatypes/dual3.rs:102-109 | division (self times the reciprocal chain rule) is undone by multiplying back: (x / y)·y = x |
| Dual3.PowIStep | src/derivatives.rs:39-53 | `powi(n + 1)` = `powi(n)`·x for every integer n (negative n when the real part is nonzero), so the special cases and the coefficient formula agree with repeated products |
| Dual3.PowIDoc | src/datatypes/dual3.rs:53-61 | `from_re(5).derivative().powi(3)` = (125, 75, 30, 6) |
| Dual3.PartialCmp | src/datatypes/dual3.rs:128-147 | `==` and `partial_cmp` against another number compare the real parts only |
| Dual3.PartialCmpRe | src/datatypes/dual3.rs:134-154 | `==` and `partial_cmp` against a plain real compare it with the real part |
| Dual3.ComparisonIgnoresDerivatives | src/datatypes/dual3.rs:128-154 | changing derivative parts never changes an equality or comparison outcome |
| Dual3.One | src/macros2.rs:37-39 | `one()`; Dual3.MulOne states it is the unit of `*` and Dual3.RecipInverse that x·recip(x) is it |
| Dual3.Table | src/datatypes/dual3.rs:16-24 | the four parts read as a coefficient table; Dual3.TableInjective, Dual3.TableApply and Dual3.TableMul state that the chain rule and the product are Faà di Bruno's formula and Leibniz's rule on tables |
| Dual3.ChainRule | src/datatypes/dual3.rs:71-79 | the third-order chain rule; Dual3.TableApply states it is Faà di Bruno's formula, Dual3.ChainRuleCompose that it composes and Dual3.ChainRuleMul that it respects the product |
| Dual3.Apply | src/datatypes/dual3.rs:71-79 | the chain rule with a coefficient table; Dual3.TableApply states it is Derivatives.Compose on tables and Dual3.ChainRuleIdentity that the identity's table returns the number |
| Dual3.Mul | src/datatypes/dual3.rs:82-97 | the third-order product; Dual3.TableMul states it is Leibniz's rule, Dual3.MulCommutes and Dual3.MulAssociates its algebra and Dual3.MulOne its unit |
| Dual3.Recip | src/derivatives.rs:29-36 | `recip` through the reciprocal's table; Dual3.RecipInverse states x·recip(x) = 1 |
| Dual3.Div | src/datatypes/dual3.rs:99-110 | division by the divisor's reciprocal computed inline; Dual3.MulDivInverse states (x / y)·y = x |
| Dual3.PowI | src/derivatives.rs:39-53 | `powi` with its special cases; Dual3.PowIStep states powi(n+1) = powi(n)·x for every integer n and Dual3.PowIDoc the documented values |
| Dual3.Eq | src/datatypes/dual3.rs:128-133 | `==` compares the real parts only; Dual3.PartialCmp states the order agrees and Dual3.ComparisonIgnoresDerivatives that derivatives never matter |
| Dual3.EqRe | src/datatypes/dual3.rs:134-139 | `==` against a plain real compares the real part; Dual3.PartialCmpRe states the order against a real agrees with it |
| HyperDual.New | src/datatypes/hyperdual.rs:37-45 | `new` stores the four parts unchanged |
| HyperDual.FromRe | src/datatypes/hyperdual.rs:67-69 | `from_re` zeros eps1, eps2 and eps1eps2 |
| HyperDual.Derivative1 | src/datatypes/hyperdual.rs:51-54 | `derivative1` sets eps1 to 1 and changes nothing else |
| HyperDual.Derivative2 | src/datatypes/hyperdual.rs:58-61 | `derivative2` sets eps2 to 1 and changes nothing else |
| HyperDual.PartsMul | src/datatypes/hyperdual.rs:89-99 | the (re, eps1) and (re, eps2) parts of the product are dual-number products |
| HyperDual.PartsDiv | src/datatypes/hyperdual.rs:106-124 | the (re, eps1) and (re, eps2) parts of the quotient are dual-number quotients |
| HyperDual.PartsChainRule | src/datatypes/hyperdual.rs:75-82 | the (re, eps1) and (re, eps2) parts of the chain rule are the dual chain rule |
| HyperDual.PartsRecip | src/derivatives.rs:29-36 | the first-order parts of `recip` are the dual `recip` |
| HyperDual.ChainRuleMul | src/datatypes/hyperdual.rs:75-99 | applying f and g and multiplying equals applying f·g (the cross term eps1·eps2' + eps1'·eps2 is Leibniz's) |
| HyperDual.ChainRuleCompose | src/datatypes/hyperdual.rs:75-82 | applying g and then f equals applying f∘g; the mixed slot eps1eps2·f1 + eps1·eps2·f2 is Faà di Bruno's |
| HyperDual.ChainRuleIdentity | src/datatypes/hyperdual.rs:75-82 | applying the identity returns the number; a constant gives `from_re` of it |
| HyperDual.RecipInverse | src/derivatives.rs:29-36 | y·recip(y) = 1 for a nonzero real part |
| HyperDual.DivIsMulRecip | src/datatypes/hyperdual.rs:106-124 | the quotient rule, with its 2·a·eps1'·eps2'/b³ term, equals x·recip(y) |
| HyperDual.Add | src/hyperdual.rs:837-845 | addition is slot by slot |
| HyperDual.AddAssociates | src/hyperdual.rs:837-845 | addition is associative |
| HyperDual.AddSub | src/hyperdual.rs:837-860 | subtraction undoes addition and is addition of the negation; scaling by k is the product with `from_re(k)` |
| HyperDual.ChainRuleAdd | src/datatypes/hyperdual.rs:75-82 | the chain rule is linear in the coefficients f0, f1, f2 |
| HyperDual.MulAddLeft | src/datatypes/hyperdual.rs:89-99 | the product distributes over addition on the left |
| HyperDual.MulAddRight | src/datatypes/hyperdual.rs:89-99 | the product distributes over addition on the right |
| HyperDual.ChainRuleMulShift | src/datatypes/hyperdual.rs:75-99 | the product rule applied to a table and its derivative table gives the derivative table of the product (the step a third direction needs) |
| HyperDual.MulCommutes | src/datatypes/hyperdual.rs:89-99 | the product is commutative |
| HyperDual.MulAssociates | src/datatypes/hyperdual.rs:89-99 | the product is associative |
| HyperDual.MulOne | src/datatypes/hyperdual.rs:89-99 | one is a unit of the product |
| HyperDual.MulDivInverse | src/datatypes/hyperdual.rs:89-124 | (x / y)·y = x for a nonzero real part of y |
| HyperDual.PowIStep | src/derivatives.rs:39-53 | `powi(n + 1)` = `powi(n)`·x for every integer n (negative n when the real part is nonzero) |
| Derivatives.PowIReciprocalStep | src/derivatives.rs:39-53 | the coefficients of x^−1 times those of x are the constant one's, so the step from `powi(-1)` to `powi(0)` closes |
| Derivatives.Pow | src/derivatives.rs:44 | x^n for a natural n, the real-part power the `powi` coefficients are built from; Derivatives.PowILeading states `powi`'s value through it |
| Derivatives.PowInt | src/derivatives.rs:44 | `re.powi(n)` for every i32 exponent, by reciprocals for a negative n; Derivatives.PowIntStep and Derivatives.PowIntCube state x^(k+1) = x^k·x and x^(k+3) = x^k·x³, and Derivatives.PowILeading, PowISlope and PowICurvature state the table through it |
| Derivatives.Identity | src/derivatives.rs:39-53 | the coefficients of y ↦ y at x, the function `powi(1)` returns; Derivatives.FallingStep, PowIChainStep and PowIReciprocalStep state that multiplying a power's table by it raises the exponent by one |
| Derivatives.Compose | src/datatypes/dual3.rs:71-79 | Faà di Bruno's formula to third order, the coefficients of f∘g; Derivatives.ComposeAssociates states it is associative and Derivatives.ProductCompose that it distributes over Leibniz's rule, and Derivatives.SqrtSquare, CbrtCube, ExpLn and RecipInvolution state the library's inverse pairs through it |
| Derivatives.Compose1 | src/datatypes/dual3.rs:75 | the first slot f1·g1 of the chain rule, shared by every number type; Derivatives.ComposeAssociates states the composition it forms is associative |
| Derivatives.Compose2 | src/datatypes/dual3.rs:76 | the second slot f2·g1² + f1·g2 of the chain rule, shared by every number type; Derivatives.ComposeAssociates states the composition it forms is associative |
| Derivatives.Compose3 | src/datatypes/dual3.rs:77 | the third slot f3·g1³ + 3·f2·g1·g2 + f1·g3 of the chain rule; Derivatives.ComposeAssociates states the composition it forms is associative |
| Derivatives.Square | src/derivatives.rs:43 | the coefficients of y ↦ y²; Derivatives.PowISquare states `powi(2)`'s `self * self` is the chain rule with them, and Derivatives.SqrtSquare that sqrt∘square is the identity |
| Derivatives.Cube | src/derivatives.rs:44-49 | the coefficients of y ↦ y³; Derivatives.PowICube states `powi(3)` is the chain rule with them, and Derivatives.CbrtCube that cbrt∘cube is the identity |
| Derivatives.Recip | src/derivatives.rs:29-36 | `recip`'s table 1/x, −1/x², 2/x³, −6/x⁴; Derivatives.RecipCoeffs states those values, Derivatives.RecipProduct that it is the inverse of the identity under Leibniz's rule and Derivatives.RecipInvolution that recip∘recip is the identity |
| Derivatives.Falling | src/derivatives.rs:44-49 | the table of y ↦ y^n from pow3 = x^(n−3); Derivatives.FallingRecurrence states x·f' = n·f slot by slot and Derivatives.FallingStep that times the identity it becomes the table of n + 1 |
| Derivatives.Const | src/derivatives.rs:41 | the coefficients of a constant, what `powi(0)` returns; Derivatives.ProductOne states Const(1) is the unit of Leibniz's rule and Derivatives.PowIReciprocalStep that x^−1·x gives it |
| Derivatives.Product | src/datatypes/dual3.rs:82-97 | Leibniz's rule to third order, the coefficients of f·g; Derivatives.ProductOne states its unit, Derivatives.ProductCompose that composition distributes over it, and Derivatives.RecipProduct that the reciprocal's table is an inverse |
| Derivatives.Product0 | src/datatypes/dual3.rs:89 | the value slot a0·b0 of a product |
| Derivatives.Product1 | src/datatypes/dual3.rs:90 | the first slot a1·b0 + a0·b1 of a product |
| Derivatives.Product2 | src/datatypes/dual3.rs:91 | the second slot a2·b0 + 2·a1·b1 + a0·b2 of a product |
| Derivatives.Product3 | src/datatypes/dual3.rs:92-94 | the third slot a3·b0 + 3·a2·b1 + 3·a1·b2 + a0·b3 of a product |
| HyperDual.PowIDoc | src/hyperdual.rs:318-327 | x⁴ at (1.2, 1, 1, 0) is (2.0736, 6.912, 6.912, 17.28) |
| HyperDual.RecipDoc | src/hyperdual.rs:42-51 | 1/x at (1.2, 1, 1, 0) is (5/6, −25/36, −25/36, 125/108), the values the doc rounds |
| HyperDual.One | src/macros2.rs:37-39 | `one()`; HyperDual.MulOne states it is the unit of `*` and HyperDual.RecipInverse that x·recip(x) is it |
| HyperDual.ChainRule | src/datatypes/hyperdual.rs:73-83 | (f0, eps1·f1, eps2·f1, eps1eps2·f1 + eps1·eps2·f2); HyperDual.PartsChainRule states each first-order part is the dual chain rule and HyperDual.ChainRuleAdd how it meets a sum |
| HyperDual.ChainFirst | src/datatypes/hyperdual.rs:78-79 | a first-order part e·f1 of the chain rule; HyperDual.PartsChainRule states it is the dual number's derivative part |
| HyperDual.ChainMixed | src/datatypes/hyperdual.rs:80 | the mixed part eps1eps2·f1 + eps1·eps2·f2 of the chain rule; HyperDual.ChainRuleCompose and HyperDual.ChainRuleMul state the algebra it gives |
| HyperDual.Apply | src/datatypes/hyperdual.rs:73-83 | the chain rule with a coefficient table; HyperDual.ChainRuleCompose states it composes, HyperDual.ChainRuleMul that it respects the product and HyperDual.ChainRuleIdentity that the identity's table returns the number |
| HyperDual.Mul | src/datatypes/hyperdual.rs:86-100 | the product: each first-order part by the product rule, the mixed part with its four cross terms; HyperDual.PartsMul states the first-order parts, HyperDual.MulCommutes and HyperDual.MulAddLeft its algebra and HyperDual.MulDivInverse that `/` undoes it |
| HyperDual.MulMixed | src/datatypes/hyperdual.rs:94-97 | the mixed part of a product; HyperDual.MulCommutes states the product it completes is commutative |
| HyperDual.Div | src/datatypes/hyperdual.rs:103-124 | the quotient rule with inv and inv²; HyperDual.PartsDiv states the first-order parts, HyperDual.DivIsMulRecip that x/y = x·recip(y) and HyperDual.MulDivInverse that (x / y)·y = x |
| HyperDual.DivMixed | src/datatypes/hyperdual.rs:115-122 | the mixed part of a quotient; HyperDual.DivIsMulRecip states the quotient it completes is the product with the reciprocal |
| HyperDual.Recip | src/derivatives.rs:29-36 | `recip` through the reciprocal's table; HyperDual.PartsRecip states its first-order parts and HyperDual.RecipInverse that x·recip(x) = 1 |
| HyperDual.PowI | src/derivatives.rs:39-53 | `powi` through the shared table and its special cases; HyperDual.PowIStep states powi(n+1) = powi(n)·x for every integer n and HyperDual.PowIDoc the documented values |
| HyperDual.Part1 | src/datatypes/hyperdual.rs:15-24 | the number restricted to its first direction, a dual number; HyperDual.PartsMul, PartsDiv, PartsChainRule and PartsRecip state the rules act on it as the dual rules |
| HyperDual.Part2 | src/datatypes/hyperdual.rs:15-24 | the number restricted to its second direction, a dual number; HyperDual.PartsMul, PartsDiv, PartsChainRule and PartsRecip state the rules act on it as the dual rules |
| HyperDual.Neg | src/macros2.rs:125-149 | `-x` negates every part; HyperDual.AddSub states x − y = x + (−y) |
| HyperDual.Sub | src/macros2.rs:63-73 | `-` on every part; HyperDual.AddSub states it undoes `+` |
| HyperDual.Scale | src/macros2.rs:209-219 | every part times a plain real, as `* F` does; HyperDual.AddSub states it is the product with the constant number k |
| HyperDualVec.New | src/datatypes/hyperdual_vec.rs:55-71 | `new` stores the real part, the gradient column eps1, the row eps2 and the partial Hessian eps1eps2 unchanged |
| HyperDualVec.FromRe | src/datatypes/hyperdual_vec.rs:77-86 | `from_re` leaves every derivative part absent |
| HyperDualVec.EntryRe | src/datatypes/hyperdual_vec.rs:13-27 | every entry (i, j), the hyper-dual number (re, eps1[i], eps2[j], eps1eps2[i][j]), has the number's real part |
| HyperDualVec.EntryChainRule | src/datatypes/hyperdual_vec.rs:94-103 | entry (i, j) of the chain rule, with its outer product eps1·eps2, is the hyper-dual chain rule of entry (i, j) |
| HyperDualVec.EntryMul | src/datatypes/hyperdual_vec.rs:112-124 | entry (i, j) of the product is the hyper-dual product of the entries |
| HyperDualVec.EntryDiv | src/datatypes/hyperdual_vec.rs:133-151 | entry (i, j) of the quotient, with inv = 1/b and its 2·a·inv²·inv term, is the hyper-dual quotient of the entries |
| HyperDualVec.MulDivInverse | src/datatypes/hyperdual_vec.rs:112-151 | entrywise, (x / y)·y = x for a nonzero real part of y |
| HyperDualVec.EntryPowI | src/derivatives.rs:39-53 | entry (i, j) of `powi` is the hyper-dual `powi` of the entry |
| HyperDualVec.PowITestEntry | tests/test_hyperdual_vec.rs:419-425 | the test input (0, [1, 1]ᵀ, [1, 1], none) has every entry (0, 1, 1, 0) |
| HyperDualVec.PowITests | tests/test_hyperdual_vec.rs:419-485 | `powi(0)` is one with zero derivatives; `powi(2)` has zero first-order parts and every partial Hessian entry 2 |
| HyperDualVec.EqualityIsStructural | src/datatypes/hyperdual_vec.rs:13 | the derived `==` tells an absent eps1 from a zero one, although every entry agrees |
| HyperDualVec.SeededX | src/hyperdual_vec.rs:129-133 | one seeded number per input |
| HyperDualVec.SeededY | src/hyperdual_vec.rs:130-137 | one seeded number per input |
| HyperDualVec.SeededXEntry | src/hyperdual_vec.rs:129-133 | x_k starts as `from_re(x[k])` and gets the unit column e_k: its entries are `derivative1` of x[k] in row k and constants elsewhere |
| HyperDualVec.SeededYEntry | src/hyperdual_vec.rs:130-137 | y_k gets the unit row e_k: its entries are `derivative2` of y[k] in column k and constants elsewhere |
| HyperDualVec.Seed | src/hyperdual_vec.rs:129-137 | the two seeding loops produce exactly the seeded inputs |
| HyperDualVec.Extract | src/hyperdual_vec.rs:138-145 | the (f, ∂f/∂x, ∂f/∂y, ∂²f/∂x∂y) read off the result are, entry by entry, the parts of the result's hyper-dual entries |
| HyperDualVec.TryPartialHessian | src/hyperdual_vec.rs:116-146 | an error of g on the seeded inputs is returned unchanged; a value is returned as its extracted parts |
| HyperDualVec.PartialHessianOf | src/hyperdual_vec.rs:99-113 | `partial_hessian` is the extraction of g on the seeded inputs |
| HyperDualVec.Valid | src/datatypes/hyperdual_vec.rs:14-27 | eps1 absent or m×1, eps2 absent or 1×n, eps1eps2 absent or m×n; HyperDualVec.ChainRule, Mul and Div state they keep it |
| HyperDualVec.One | src/macros2.rs:37-39 | `one()`, the constant one with absent derivatives; HyperDualVec.EntryRe states every entry's real part is the value |
| HyperDualVec.Entry | src/datatypes/hyperdual_vec.rs:14-27 | entry (i, j) as a hyper-dual number; HyperDualVec.EntryChainRule, EntryMul, EntryDiv and EntryPowI state the rules are the hyper-dual rules entry by entry |
| HyperDualVec.ChainRule | src/datatypes/hyperdual_vec.rs:93-103 | (f0, eps1·f1, eps2·f1, eps1eps2·f1 + eps1·eps2·f2); HyperDualVec.EntryChainRule states every entry is the hyper-dual chain rule |
| HyperDualVec.Cross | src/datatypes/hyperdual_vec.rs:118-120 | eps1eps2'·a + eps1·eps2' + eps1'·eps2, the terms product and quotient share; HyperDualVec.EntryMul states their entries through the product |
| HyperDualVec.Mul | src/datatypes/hyperdual_vec.rs:106-124 | the product rule; HyperDualVec.EntryMul states every entry is the hyper-dual product and HyperDualVec.MulDivInverse that `/` undoes it |
| HyperDualVec.Div | src/datatypes/hyperdual_vec.rs:127-151 | the quotient rule; HyperDualVec.EntryDiv states every entry is the hyper-dual quotient and HyperDualVec.MulDivInverse that (x / y)·y = x |
| HyperDualVec.PowI | src/derivatives.rs:39-53 | `powi` through the shared table; HyperDualVec.EntryPowI states every entry is the hyper-dual `powi` |
| HyperDualVec.Eq | src/datatypes/hyperdual_vec.rs:13 | the derived `==`, structural over every part |
| HyperHyperDual.FromRe | src/datatypes/hyperhyperdual.rs:90-92 | `from_re` zeros the seven derivative slots |
| HyperHyperDual.Derivative1 | src/datatypes/hyperhyperdual.rs:69-72 | `derivative1` sets eps1 to 1 and keeps every other slot |
| HyperHyperDual.Derivative2 | src/datatypes/hyperhyperdual.rs:76-79 | `derivative2` sets eps2 to 1 and keeps every other slot |
| HyperHyperDual.Derivative3 | src/datatypes/hyperhyperdual.rs:83-86 | `derivative3` sets eps3 to 1 and keeps every other slot |
| HyperHyperDual.Halves | src/datatypes/hyperhyperdual.rs:11-33 | a number is the pair of hyper-dual numbers without and with ε3, and is determined by them |
| HyperHyperDual.HalvesMul | src/datatypes/hyperhyperdual.rs:124-155 | the eight-slot product is the hyper-dual product extended by ε3: Lo = Lo(x)·Lo(y), Hi = Lo(x)·Hi(y) + Hi(x)·Lo(y) |
| HyperHyperDual.HalvesChainRule | src/datatypes/hyperhyperdual.rs:104-121 | the chain rule is f(L) + f′(L)·H·ε3, with f′(L) the hyper-dual chain rule on (f1, f2, f3) |
| HyperHyperDual.HalvesApply | src/datatypes/hyperhyperdual.rs:104-121 | the same for a coefficient table and its derivative table |
| HyperHyperDual.ChainRuleMul | src/datatypes/hyperhyperdual.rs:104-155 | applying f and g and multiplying equals applying f·g, to third order |
| HyperHyperDual.ChainRuleIdentity | src/datatypes/hyperhyperdual.rs:104-121 | applying the identity returns the number; a constant gives `from_re` of it |
| HyperHyperDual.MulCommutes | src/datatypes/hyperhyperdual.rs:124-155 | the product is commutative |
| HyperHyperDual.MulOne | src/datatypes/hyperhyperdual.rs:124-155 | one is a unit of the product |
| HyperHyperDual.MulAssociates | src/datatypes/hyperhyperdual.rs:124-155 | the product is associative |
| HyperHyperDual.RecipInverse | src/datatypes/hyperhyperdual.rs:160-167 | y times its reciprocal chain rule (f0 = 1/b, f1 = −f0/b, f2 = −2f1/b, f3 = −3f2/b) is one |
| HyperHyperDual.MulDivInverse | src/datatypes/hyperhyperdual.rs:157-169 | (x / y)·y = x for a nonzero real part of y |
| HyperHyperDual.PairsMul | src/datatypes/hyperhyperdual.rs:124-155 | the slots of each pair of directions (1, 2), (1, 3), (2, 3) multiply as a hyper-dual number |
| HyperHyperDual.PairsChainRule | src/datatypes/hyperhyperdual.rs:104-121 | the same for the chain rule |
| HyperHyperDual.PowITests | tests/test_hyperhyperdual.rs:284-309 | at (0, 1, 1, 1, 0, …) `powi(2)` has every second-order slot 2 and `powi(3)` only the third-order slot, 6 |
| HyperHyperDual.One | src/macros2.rs:37-39 | `one()`; HyperHyperDual.MulOne states it is the unit of `*` and HyperHyperDual.RecipInverse that x·recip(x) is it |
| HyperHyperDual.Lo | src/datatypes/hyperhyperdual.rs:13-33 | the half without ε3, a hyper-dual number; HyperHyperDual.Halves states Lo and Hi recover the number and HyperHyperDual.HalvesMul and HalvesChainRule that the rules act on the halves as the hyper-dual rules |
| HyperHyperDual.Hi | src/datatypes/hyperhyperdual.rs:13-33 | the ε3 half, a hyper-dual number; HyperHyperDual.Halves states Lo and Hi recover the number and HyperHyperDual.HalvesMul that the product acts on the halves as the hyper-dual rules |
| HyperHyperDual.Join | src/datatypes/hyperhyperdual.rs:13-33 | the number from its two halves; HyperHyperDual.Halves states it inverts Lo and Hi |
| HyperHyperDual.ChainRule | src/datatypes/hyperhyperdual.rs:104-122 | the third-order chain rule over three directions; HyperHyperDual.HalvesChainRule and HyperHyperDual.PairsChainRule state every half and every pair of directions follows the hyper-dual chain rule |
| HyperHyperDual.ChainTriple | src/datatypes/hyperhyperdual.rs:115-119 | the ε1ε2ε3 slot f1·ε123 + f2·(three cross terms) + f3·ε1ε2ε3; HyperHyperDual.HalvesChainRule states it is the hyper-dual chain rule of the ε3 half |
| HyperHyperDual.Apply | src/datatypes/hyperhyperdual.rs:104-122 | the chain rule with a coefficient table; HyperHyperDual.HalvesApply states it acts on the halves, HyperHyperDual.ChainRuleMul that it respects the product and HyperHyperDual.ChainRuleIdentity that the identity's table returns the number |
| HyperHyperDual.Mul | src/datatypes/hyperhyperdual.rs:124-155 | the product with all eight terms in the top slot; HyperHyperDual.HalvesMul and PairsMul state the halves and pairs follow the hyper-dual product, HyperHyperDual.MulCommutes and MulOne its algebra |
| HyperHyperDual.MulTriple | src/datatypes/hyperhyperdual.rs:145-152 | the ε1ε2ε3 slot of a product, eight terms; HyperHyperDual.HalvesMul states it is the hyper-dual product on the halves |
| HyperHyperDual.Recip | src/derivatives.rs:29-36 | `recip` through the reciprocal's table; HyperHyperDual.RecipInverse states x·recip(x) = 1 |
| HyperHyperDual.Div | src/datatypes/hyperhyperdual.rs:157-168 | the product with the divisor's reciprocal computed inline; HyperHyperDual.MulDivInverse states (x / y)·y = x |
| HyperHyperDual.PowI | src/derivatives.rs:39-53 | `powi` through the shared table; HyperHyperDual.PowITests states the library's test values |
| HyperHyperDual.Pair13 | src/datatypes/hyperhyperdual.rs:13-33 | directions 1 and 3 as a hyper-dual number; HyperHyperDual.PairsMul and PairsChainRule state the rules act on it as the hyper-dual rules |
| HyperHyperDual.Pair23 | src/datatypes/hyperhyperdual.rs:13-33 | directions 2 and 3 as a hyper-dual number; HyperHyperDual.PairsMul and PairsChainRule state the rules act on it as the hyper-dual rules |
| HyperHyperDual.Eq | src/datatypes/hyperhyperdual.rs:11 | the derived `==`, structural over all eight slots |
| HyperDual2.ChainRule | src/hyperdual2.rs:106-123 | the chain rule as written agrees with the full third-order rule in every slot but ε1ε2ε3, where it lacks exactly f1·ε1ε2ε3 |
| HyperDual2.ChainRuleDefect | src/hyperdual2.rs:118-121 | it agrees with the full rule exactly when f1·ε1ε2ε3 = 0; applying the identity returns the argument exactly when its ε1ε2ε3 slot is zero |
| HyperDual2.DivIgnoresTriple | src/hyperdual2.rs:159-170 | the divisor's ε1ε2ε3 slot never reaches the quotient |
| HyperDual2.QuotientOfTriple | src/hyperdual2.rs:159-170 | 1 / (1 + t·ε1ε2ε3) as written is one |
| HyperDual2.DivCounterexample | src/hyperdual2.rs:159-170 | for t ≠ 0, (1 / y)·y is y, not one: division as written is not undone by multiplication |
| HyperDual2.ChainTriple | src/hyperdual2.rs:118-121 | the eps1eps2eps3 slot of the chain rule as written, f2·(three cross terms) + f3·eps1·eps2·eps3, without f1·eps1eps2eps3; HyperDual2.ChainRuleDefect states what is lost |
| HyperDual2.Apply | src/hyperdual2.rs:106-123 | the chain rule as written with a coefficient table; HyperDual2.ChainRuleDefect states it drops f1·eps1eps2eps3 |
| HyperDual2.Div | src/hyperdual2.rs:159-170 | division as written, through that chain rule; HyperDual2.DivIgnoresTriple states the divisor's triple part is ignored and HyperDual2.DivCounterexample an input where (1/y)·y is not one |
| Real.ChainRuleCompose | src/datatypes/real.rs:44-50 | the chain rule, which keeps only f0, follows composition |
| Real.ChainRuleMul | src/datatypes/real.rs:44-59 | the product follows Leibniz's rule at order zero |
| Real.MulDivInverse | src/datatypes/real.rs:52-70 | (x / y)·y = x for a nonzero y |
| Real.New | src/datatypes/real.rs:30-32 | `new`, the number from its value |
| Real.FromRe | src/datatypes/real.rs:38-40 | `from_re`, the same as `new` for a number with no derivative part |
| Real.ChainRule | src/datatypes/real.rs:44-50 | the chain rule keeps only the function's value; Real.ChainRuleCompose states it composes and Real.ChainRuleMul that it respects the product |
| Real.Apply | src/datatypes/real.rs:44-50 | the chain rule with a coefficient table; Real.ChainRuleCompose and Real.ChainRuleMul state it is the shared rules restricted to the value |
| Real.Mul | src/datatypes/real.rs:52-59 | the product of the values; Real.ChainRuleMul states the chain rule respects it and Real.MulDivInverse that `/` undoes it |
| Real.Div | src/datatypes/real.rs:61-70 | the product with the reciprocal of the divisor; Real.MulDivInverse states (x / y)·y = x |
| Componentwise.From | src/macros2.rs:1-47 | `From<F>`, `zero` and `one` are `from_re` of the value |
| Componentwise.EntryAdd | src/macros2.rs:49-61 | entry by entry, `+` is the hyper-dual sum |
| Componentwise.EntrySub | src/macros2.rs:63-73 | entry by entry, `-` is the hyper-dual difference |
| Componentwise.EntryNeg | src/macros2.rs:125-149 | entry by entry, negation is the hyper-dual negation |
| Componentwise.EntryMulReal | src/macros2.rs:209-219 | `* F` scales every entry |
| Componentwise.EntryDivReal | src/macros2.rs:232-242 | `/ F` scales every entry by 1/F |
| Componentwise.EntryShift | src/macros2.rs:255-287 | `+ F` and `- F` add or subtract the constant `from_re(F)` in every entry |
| Componentwise.EntryInv | src/macros2.rs:322-335 | `inv` is the hyper-dual reciprocal in every entry, and x·inv(x) is one there |
| Componentwise.ZeroOne | src/macros2.rs:15-47 | `zero` and `one` pass `is_zero` and `is_one`; zero is exactly the identity of `+`, one entrywise the identity of `*` |
| Componentwise.AddSubInverse | src/macros2.rs:49-73 | subtraction undoes addition and equals adding the negation, entry by entry |
| Componentwise.EntrySum | src/macros2.rs:339-363 | `Sum`, a fold from zero with `+`, is entrywise the hyper-dual sum of the entries |
| Componentwise.EntryProduct | src/macros2.rs:365-390 | `Product`, a fold from one with `*`, is entrywise the hyper-dual product of the entries |
| Componentwise.AbsParts | src/macros2.rs:479-516 | exactly one of `is_positive`, `is_negative` holds; `abs` has real part \|re\| and entries the number's up to its sign; `signum` has real part ±1 |
| Componentwise.SignumTimesAbs | src/macros2.rs:479-506 | `signum`·`abs` gives back the number, entry by entry |
| Componentwise.AbsSubProperties | src/macros2.rs:488-495 | `abs_sub` has real part max(re − re', 0), the difference's entries where re > re' and constant zero entries otherwise |
| Componentwise.Number.AddAssign | src/macros2.rs:173-182 | `+=` leaves the sum in place |
| Componentwise.Number.SubAssign | src/macros2.rs:184-193 | `-=` leaves the difference in place |
| Componentwise.Number.MulAssign | src/macros2.rs:153-161 | `*=` leaves the product in place |
| Componentwise.Number.DivAssign | src/macros2.rs:163-171 | `/=` leaves the quotient in place |
| Componentwise.Number.MulAssignReal | src/macros2.rs:221-230 | `*= F` scales in place |
| Componentwise.Number.DivAssignReal | src/macros2.rs:244-253 | `/= F` divides in place |
| Componentwise.Number.AddAssignReal | src/macros2.rs:267-275 | `+= F` moves the real part only |
| Componentwise.Number.SubAssignReal | src/macros2.rs:289-297 | `-= F` moves the real part only |
| Componentwise.Zero | src/macros2.rs:22-24 | `zero()` is the constant zero; Componentwise.ZeroOne states that `is_zero` holds of it |
| Componentwise.One | src/macros2.rs:37-39 | `one()` is the constant one; Componentwise.ZeroOne states that `is_one` holds of it |
| Componentwise.IsZero | src/macros2.rs:27-29 | `is_zero` tests the real part only; Componentwise.ZeroOne states it holds of every number with a zero real part, whatever its derivatives |
| Componentwise.IsOne | src/macros2.rs:42-44 | `is_one` tests the real part only; Componentwise.ZeroOne states the same for one |
| Componentwise.Add | src/macros2.rs:49-61 | `+` on every part; Componentwise.EntryAdd states it is the hyper-dual sum entry by entry, and Componentwise.AddSubInverse that `-` undoes it |
| Componentwise.Sub | src/macros2.rs:63-73 | `-` on every part; Componentwise.EntrySub states it is the hyper-dual difference entry by entry, and Componentwise.AddSubInverse that it undoes `+` |
| Componentwise.Neg | src/macros2.rs:125-149 | `-x` on every part; Componentwise.EntryNeg states it entry by entry and Componentwise.AddSubInverse that x − y = x + (−y) |
| Componentwise.MulReal | src/macros2.rs:209-219 | `x * f` scales every part; Componentwise.EntryMulReal states it entry by entry |
| Componentwise.DivReal | src/macros2.rs:232-242 | `x / f` divides every part; Componentwise.EntryDivReal states it entry by entry |
| Componentwise.AddReal | src/macros2.rs:255-265 | `x + f` moves the real part only; Componentwise.EntryShift states it entry by entry |
| Componentwise.SubReal | src/macros2.rs:277-287 | `x - f` moves the real part only; Componentwise.EntryShift states it entry by entry |
| Componentwise.Inv | src/macros2.rs:322-335 | `inv` is `recip`; Componentwise.EntryInv states it is the hyper-dual reciprocal entry by entry, so x·inv(x) is one |
| Componentwise.AllValid | src/macros2.rs:339-390 | every element of the iterator has the same dimension, as the generic type forces |
| Componentwise.Sum | src/macros2.rs:339-363 | `Sum` folds `+` from zero; Componentwise.EntrySum states every entry is the hyper-dual sum of the entries |
| Componentwise.Product | src/macros2.rs:365-390 | `Product` folds `*` from one; Componentwise.EntryProduct states every entry is the hyper-dual product of the entries |
| Componentwise.HyperSum | src/macros2.rs:339-363 | the same fold over hyper-dual numbers, the reference of Componentwise.EntrySum |
| Componentwise.HyperProduct | src/macros2.rs:365-390 | the same fold over hyper-dual numbers, the reference of Componentwise.EntryProduct |
| Componentwise.Entries | src/macros2.rs:339-390 | entry (i, j) of every element; its ensures states length and contents |
| Componentwise.IsPositive | src/macros2.rs:508-511 | `is_positive` is the sign of the real part with zero counted positive; Componentwise.AbsParts states what `abs` makes of it |
| Componentwise.IsNegative | src/macros2.rs:513-516 | `is_negative` is the opposite test; Componentwise.AbsParts states it |
| Componentwise.Abs | src/macros2.rs:479-485 | `abs` keeps a positive number and negates the rest; Componentwise.AbsParts states its real part is the magnitude and Componentwise.SignumTimesAbs that signum·abs is the number |
| Componentwise.AbsSub | src/macros2.rs:488-495 | `abs_sub` is x − y when the real part is larger, else zero; Componentwise.AbsSubProperties states both cases |
| Componentwise.Signum | src/macros2.rs:497-506 | `signum` is ±1 as a constant; Componentwise.SignumTimesAbs states signum(x)·abs(x) = x |
| Componentwise.Number.constructor | src/macros2.rs:151-205 | a number held in a place that the assignment operators update; its ensures states the held value |
| Componentwise.Number.Value | src/macros2.rs:151-205 | the held value; Componentwise.Number.AddAssign, SubAssign, MulAssign, DivAssign, MulAssignReal and DivAssignReal state each operator's new value in terms of it |
| Explicit.FirstSeed | src/explicit.rs:48 | `Dual::from_re(x).derivative()` is x + 1·ε |
| Explicit.FirstDerivative | src/explicit.rs:41-50 | an error of g on the seed is passed on unchanged, and only then is the result an error |
| Explicit.FirstDerivativeChainRule | src/explicit.rs:41-50 | for a function given by its table the driver returns (f, f′); for a product of two, the product rule |
| Explicit.FirstDerivativeDoc | src/explicit.rs:34-40 | x² at 5 gives (25, 10) |
| Explicit.SecondSeed | src/dual2.rs:135-141 | `Dual2::from_re(x).derivative()` has gradient part [1] and no second part |
| Explicit.SecondDerivative | src/dual2.rs:135-141 | errors are passed on; a value is read off as (re, v1, v2), which with the seed is the hyper-dual entry (re, v1, v1, v2) |
| Explicit.SecondSeedEntry | src/dual2.rs:135-141 | the seed's single entry is x + ε1 + ε2 |
| Explicit.SecondDerivativeChainRule | src/dual2.rs:135-141 | for a function given by its table the driver returns (f, f′, f″) |
| Explicit.SecondDerivativeDoc | src/explicit.rs:146-153 | x·x at 5 gives (25, 10, 2) |
| Explicit.Square | src/explicit.rs:146-153 | squaring succeeds exactly on a well-formed one-variable number |
| Explicit.SecondPartialDerivative | src/explicit.rs:190-200 | g is evaluated on x + ε1 and y + ε2 |
| Explicit.SecondPartialSeparates | src/explicit.rs:190-200 | a function of x alone has no ε2 part and no mixed part; x·y gives (xy, y, x, 1) |
| Explicit.ThirdDerivative | src/explicit.rs:308-317 | errors are passed on; a value is read off as its table (re, v1, v2, v3) |
| Explicit.ThirdDerivativeCompose | src/explicit.rs:308-317 | for f after h, both given by tables, the driver returns the composed table (Faà di Bruno to third order) |
| Explicit.ThirdDerivativeDoc | src/explicit.rs:299-307 | x³ at 5 gives (125, 75, 30, 6) |
| Explicit.ThirdPartialDerivative | src/explicit.rs:337-365 | g is evaluated on x + ε1, y + ε2 and z + ε3 |
| Explicit.ThirdPartialProduct | src/explicit.rs:337-365 | x·y·z has the partial derivatives (yz, xz, xy, z, y, x, 1) |
| Explicit.GradientSeeds | src/explicit.rs:87-91 | one well-formed seeded number per input |
| Explicit.GradientSeedComponent | src/explicit.rs:87-91 | direction i sees x_k as the variable exactly when i = k |
| Explicit.SeedGradient | src/explicit.rs:87-91 | the seeding loop of `gradient` and `jacobian` produces exactly the seeded inputs |
| Explicit.GradientOf | src/explicit.rs:92 | the value and the n directional derivatives read off a result, an absent part reading as zero |
| Explicit.Gradient | src/explicit.rs:79-93 | errors of g on the seeds are passed on; a value is read off as (re, gradient) |
| Explicit.GradientOfVariable | src/explicit.rs:79-93 | the gradient of x_k alone is the unit vector e_k |
| Explicit.GradientOfProduct | src/explicit.rs:79-93 | the gradient of x_k·x_l has x_l in place k and x_k in place l |
| Explicit.JacobianOf | src/explicit.rs:136-142 | row i holds output i's value and its derivatives in every direction |
| Explicit.Jacobian | src/explicit.rs:115-144 | errors are passed on; a value is read off as (values, Jacobian) |
| Explicit.JacobianRows | src/explicit.rs:136-142 | row i of the Jacobian is the gradient of output i |
| Explicit.HessianSeeds | src/explicit.rs:227-231 | x_k is `from_re(x_k)` with the unit gradient row e_k |
| Explicit.SeedHessian | src/explicit.rs:227-231 | the seeding loop of `hessian` produces exactly these seeds |
| Explicit.HessianOf | src/explicit.rs:232-238 | value, gradient and Hessian read off a result are, entry by entry, the parts of its hyper-dual entries |
| Explicit.Hessian | src/explicit.rs:219-239 | errors are passed on; a value is read off as (re, gradient, Hessian) |
| Explicit.HessianOfProduct | src/explicit.rs:219-239 | the Hessian of x_k·x_l is 1 at (k, l) and (l, k), 2 on the diagonal when k = l, 0 elsewhere |
| Explicit.ThirdPartialDerivativeVec | src/explicit.rs:386-415 | x_i, x_j and x_k receive ε1, ε2 and ε3 and g is evaluated once |
| Explicit.ThirdPartialVecAgrees | src/explicit.rs:337-415 | for distinct indices the vector driver gives what the three-argument driver gives |
| Explicit.ThirdPartialVecDoc | src/explicit.rs:366-385 | x0³·x1² at (1, 2) with i = j = 0, k = 1 gives (4, 12, 12, 4, 24, 12, 12, 24) |
| Explicit.DynGradient | src/explicit.rs:521-544 | one run per direction: entry i is the derivative of run i; the value is that of the last run, zero without variables |
| Explicit.DynGradientAgrees | src/explicit.rs:468-544 | the seeds of run i are direction i of the static seeds, so both drivers give the same gradient |
| Explicit.DynHessian | src/explicit.rs:546-569 | one run per (i, j) in column-major order: entry (i, j) is run (i, j)'s mixed part; the gradient and value keep the last writes |
| Explicit.PairSeed | src/explicit.rs:559-561 | one run's seeding gives ε1 to x_i and ε2 to x_j |
| Explicit.DynHessianAgrees | src/explicit.rs:546-569 | the seeds of run (i, j) are entry (i, j) of the static seeds, so both drivers give the same Hessian |
| Explicit.DynPartialHessian | src/explicit.rs:571-601 | one run per i with y + ε2: the x-gradient and the mixed parts are those of run i; the y-derivative and value those of the last run |
| Explicit.TripleSeeds | src/explicit.rs:366-385 | the arguments of `third_partial_derivative_vec`: constants with ε1, ε2 and ε3 seeded on x_i, x_j and x_k; its ensures states the length and Explicit.ThirdPartialVecAgrees what the call returns |
| Explicit.DirectionSeeds | src/explicit.rs:521-544 | the arguments of evaluation i of the dynamic gradient; its ensures states the length and Explicit.DynGradientAgrees that the loop collects the partial derivatives |
| Explicit.PairSeeds | src/explicit.rs:559-561 | the arguments of run (i, j) of the dynamic Hessian; its ensures states the length and Explicit.DynHessianAgrees what the loops collect |
| Explicit.AfterColumn | src/explicit.rs:546-569 | gradient entry a after the runs of column c, as the loop overwrites it; Explicit.DynHessian states the final gradient through it |
| Explicit.InColumn | src/explicit.rs:546-569 | gradient entry a partway through column j, the loop invariant of Explicit.DynHessian |
| Explicit.RowSeeds | src/explicit.rs:571-601 | the arguments of run i of the dynamic partial Hessian; its ensures states the length and Explicit.DynPartialHessian what the loop collects |
| LegacyDual.From | src/dual.rs:517-525 | `From<T>` is `from_re`: the derivative part is zero |
| LegacyDual.ZeroOne | src/dual.rs:800-822 | `is_zero` and `is_one` hold of exactly zero and one, which check every part |
| LegacyDual.Recip | src/dual.rs:42-49 | `recip` panics (no result) exactly at a zero real part |
| LegacyDual.RecipAgrees | src/dual.rs:42-49 | otherwise its closed form (1/re, −eps/re²) is the newer chain-rule reciprocal, and x·recip(x) = 1 |
| LegacyDual.AddSub | src/dual.rs:584-624 | subtraction undoes addition and the product distributes over the sum |
| LegacyDual.RealDiv | src/dual.rs:749-756 | a real divided by a number has no result exactly at a zero real part (the reciprocal panics) |
| LegacyDual.MixedOperands | src/dual.rs:660-797 | every mixed real/number operation is the number operation with the real embedded as a constant |
| LegacyDual.PowIIsChainRule | src/dual.rs:227-234 | `powi(n)` is the chain rule with xⁿ and n·xⁿ⁻¹ |
| LegacyDual.PowIAgrees | src/dual.rs:227-234 | it agrees with the newer coefficient-table `powi` wherever both are defined |
| LegacyDual.PowIDoc | src/dual.rs:218-225 | `powi(4)` at (1.2, 1) is (2.0736, 6.912) |
| LegacyDual.Zero | src/dual.rs:800-804 | `zero()`, both parts zero; LegacyDual.ZeroOne states `is_zero` holds exactly for it |
| LegacyDual.One | src/dual.rs:812-816 | `one()`, real part one and derivative zero; LegacyDual.ZeroOne states `is_one` holds exactly for it |
| LegacyDual.IsZero | src/dual.rs:806-809 | `is_zero` on both parts; LegacyDual.ZeroOne states it holds exactly for LegacyDual.Zero |
| LegacyDual.IsOne | src/dual.rs:818-821 | `is_one` on both parts; LegacyDual.ZeroOne states it holds exactly for LegacyDual.One |
| LegacyDual.Add | src/dual.rs:584-596 | `+` on both parts; LegacyDual.AddSub states `-` undoes it and LegacyDual.MixedOperands that a real operand acts as a constant |
| LegacyDual.Sub | src/dual.rs:598-610 | `-` on both parts; LegacyDual.AddSub states it undoes `+` |
| LegacyDual.AddReal | src/dual.rs:762-769 | `x + r` moves only the real part; LegacyDual.MixedOperands states it is `+` with the constant r |
| LegacyDual.SubReal | src/dual.rs:771-778 | `x − r` moves only the real part; LegacyDual.MixedOperands states it is `-` with the constant r |
| LegacyDual.MulReal | src/dual.rs:780-787 | `x · r` scales both parts; LegacyDual.MixedOperands states it is the product with the constant r |
| LegacyDual.DivReal | src/dual.rs:789-798 | `x / r` scales both parts by 1/r; LegacyDual.MixedOperands states it is the quotient by the constant r |
| LegacyDual.RealAdd | src/dual.rs:721-728 | `r + x` with the real on the left; LegacyDual.MixedOperands states it is `+` with the constant r on the left |
| LegacyDual.RealSub | src/dual.rs:730-737 | `r − x` negates the derivative part; LegacyDual.MixedOperands states it is the constant r minus x |
| LegacyDual.RealMul | src/dual.rs:739-746 | `r · x` scales both parts; LegacyDual.MixedOperands states it is the product with the constant r on the left |
| LegacyDual.PowI | src/dual.rs:227-234 | `powi(n)` as written: pow = re^(n−1), value pow·re, derivative n·pow; LegacyDual.PowIIsChainRule and LegacyDual.PowIAgrees state it is the chain rule with y^n's table and the current `powi`, and LegacyDual.PowIDoc the documented values |
| LegacyDual2.NewScalar | src/dual2.rs:59-65 | `new_scalar` stores both parts as present 1 × 1 matrices; its entry is (re, v1, v1, v2) |
| LegacyDual2.NewScalarIsSeed | src/dual2.rs:59-65 | `new_scalar(x, 1, 0)` differs from `from_re(x).derivative()` as a value but has the same entry |
| LegacyDual3.StructuralEqIsStricter | src/dual3.rs:12 | the derived `==` of the older file compares every part, so two numbers that differ only in derivatives are equal in the newer file and unequal here |
| LegacyDual3.TryThirdDerivative | src/dual3.rs:84-91 | `try_third_derivative` passes g's error on and otherwise returns the four parts of g at the seed |
| LegacyDual3.TryThirdDerivativeAgrees | src/dual3.rs:76-91 | it returns what the newer `third_derivative` returns |
| LegacyDual3.StructuralEq | src/dual3.rs:12 | the derived `PartialEq`, every part compared; LegacyDual3.StructuralEqIsStricter states it implies the current real-part-only `==` and not conversely |
| LegacyHyperDual.ZeroOne | src/hyperdual.rs:1081-1103 | `is_zero` and `is_one` hold of exactly zero and one |
| LegacyHyperDual.Recip | src/hyperdual.rs:53-65 | `recip` panics (no result) exactly at a zero real part |
| LegacyHyperDual.RecipAgrees | src/hyperdual.rs:53-65 | otherwise its closed form is the newer chain-rule reciprocal, and x·recip(x) = 1 |
| LegacyHyperDual.RecipDoc | src/hyperdual.rs:42-51 | 1/x at (1.2, 1, 1, 0) is (5/6, −25/36, −25/36, 125/108) |
| LegacyHyperDual.RealDiv | src/hyperdual.rs:1020-1026 | a real divided by a number has no result exactly at a zero real part |
| LegacyHyperDual.MixedOperands | src/hyperdual.rs:931-1049 | every mixed real/number sum, difference and product is the number operation with the real embedded |
| LegacyHyperDual.MixedQuotients | src/hyperdual.rs:1020-1080 | x / r and r / x are the hyper-dual quotients with the real embedded |
| LegacyHyperDual.DivRealAgrees | src/hyperdual.rs:1065-1080 | x / r by the inverse 1/r is the quotient rule with a constant divisor |
| LegacyHyperDual.PowIIsChainRule | src/hyperdual.rs:333-344 | `powi(n)` is the chain rule with xⁿ, n·xⁿ⁻¹ and n(n−1)·xⁿ⁻² |
| LegacyHyperDual.PowIAgrees | src/hyperdual.rs:333-344 | it agrees with the newer coefficient-table `powi` wherever both are defined |
| LegacyHyperDual.PowIChainCoeffs | src/derivatives.rs:39-53 | the newer `powi` is that same chain rule for every exponent |
| LegacyHyperDual.PowIDoc | src/hyperdual.rs:322-331 | `powi(4)` at (1.2, 1, 1, 0) is (2.0736, 6.912, 6.912, 17.28) |
| LegacyHyperDual.Zero | src/hyperdual.rs:1081-1086 | `zero()`, every part zero; LegacyHyperDual.ZeroOne states `is_zero` holds exactly for it |
| LegacyHyperDual.IsZero | src/hyperdual.rs:1087-1091 | `is_zero` on every part; LegacyHyperDual.ZeroOne states it holds exactly for LegacyHyperDual.Zero |
| LegacyHyperDual.IsOne | src/hyperdual.rs:1099-1103 | `is_one` on every part; LegacyHyperDual.ZeroOne states it holds exactly for one |
| LegacyHyperDual.AddReal | src/hyperdual.rs:1033-1040 | `x + r` moves only the real part; LegacyHyperDual.MixedOperands states it is `+` with the constant r |
| LegacyHyperDual.SubReal | src/hyperdual.rs:1042-1049 | `x − r` moves only the real part; LegacyHyperDual.MixedOperands states it is `-` with the constant r |
| LegacyHyperDual.DivReal | src/hyperdual.rs:1065-1080 | `x / r` scales every part by 1/r; LegacyHyperDual.DivRealAgrees states it is the quotient by the constant r and LegacyHyperDual.MixedQuotients how it meets the reciprocal |
| LegacyHyperDual.RealAdd | src/hyperdual.rs:992-1000 | `r + x` with the real on the left; LegacyHyperDual.MixedOperands states it is `+` with the constant r on the left |
| LegacyHyperDual.RealSub | src/hyperdual.rs:1001-1009 | `r − x` negates the derivative parts; LegacyHyperDual.MixedOperands states it is the constant r minus x |
| LegacyHyperDual.RealMul | src/hyperdual.rs:1010-1018 | `r · x` scales every part; LegacyHyperDual.MixedOperands states it is the product with the constant r on the left |
| LegacyHyperDual.PowI | src/hyperdual.rs:333-344 | `powi(n)` as written from pow = re^(n−2); LegacyHyperDual.PowIIsChainRule and LegacyHyperDual.PowIChainCoeffs state it is the chain rule with y^n's table, LegacyHyperDual.PowIAgrees that it matches the current `powi` and LegacyHyperDual.PowIDoc the documented values |
| LegacyHyperDual.PowFrom | src/hyperdual.rs:333-344 | the slots of `powi` from the exponent and pow = re^(n−2); LegacyHyperDual.PowIChainCoeffs states they are the chain rule with y^n's coefficients |
| DenseDualVec.ZeroLike | src/dual_size.rs:57-63 | `zero()` keeps the dimension of eps and makes every direction the dual zero |
| DenseDualVec.OneLike | src/dual_size.rs:65-71 | `one()` keeps the dimension of eps and makes every direction the dual one |
| DenseDualVec.NewScalar | src/dual_size.rs:77-79 | `new_scalar` gives a number with one direction, the scalar dual number (re, eps) |
| DenseDualVec.Derivative | src/dual_size.rs:102-105 | `derivative(x)` is the scalar seed x + 1·ε that the newer `first_derivative` uses |
| DenseDualVec.ChainRule | src/dual_size.rs:258-260 | every direction follows the scalar dual chain rule |
| DenseDualVec.Mul | src/dual_size.rs:270-276 | every direction of the product is the scalar dual product of the directions |
| DenseDualVec.Div | src/dual_size.rs:285-294 | every direction of the quotient is the scalar dual quotient of the directions |
| DenseDualVec.MulDivInverse | src/dual_size.rs:264-295 | dividing a product by its second factor gives back the first factor |
| DenseDualVec.ToSparse | src/dual_size.rs:38-51 | the dense number is a valid newer `DualVec` with the same directions |
| DenseDualVec.TryFirstDerivative | src/dual_size.rs:123-129 | the result is an error exactly when g fails on the seed, with g's error; otherwise (re, eps[0]) of g at the seed |
| DenseDualVec.TryFirstDerivativeAgrees | src/dual_size.rs:115-129 | for a function that acts on the single direction, the result is that of the newer `first_derivative` |
| DenseDualVec.Seeds | src/dual_size.rs:178-182 | one seed per position, each with a derivative vector as long as the input |
| DenseDualVec.SeedsAgree | src/dual_size.rs:178-182 | seed k along direction i is x_k + [i = k]·ε, as in the newer `gradient` |
| DenseDualVec.Seed | src/dual_size.rs:178-182 | the loop that writes a zero vector and sets entry k to one builds exactly the seeds |
| DenseDualVec.TryGradient | src/dual_size.rs:171-185 | an error of g is passed on; otherwise the value and the gradient are the parts of g at the seeds, direction by direction |
| DenseDualVec.TryJacobian | src/dual_size.rs:226-249 | an error of g is passed on; otherwise row i of the Jacobian holds the eps of output i, entry by entry |
| DenseDualVec.Component | src/dual_size.rs:15-51 | direction i of the number as a scalar dual number; its ensures states value and derivative, and DenseDualVec.Mul, Div and ChainRule state the operations direction by direction through it |
| DualN.FromRe | src/dual_n.rs:36-42 | `from_re` gives N directions, each the constant (re, 0) |
| DualN.Derive | src/dual_n.rs:41-57 | `derive(i)` makes direction i the variable (re, 1) and keeps every other direction |
| DualN.ChainRule | src/dual_n.rs:107-116 | the loop builds the dense number's chain rule, so every direction follows the scalar dual chain rule |
| DualN.Mul | src/dual_n.rs:119-131 | the loop builds the dense product, so every direction is the scalar dual product |
| DualN.QuotientEntry | src/dual_n.rs:139-148 | (d·b − e·a)·inv² with inv = 1/b is the quotient rule |
| DualN.Div | src/dual_n.rs:134-149 | the loop builds the dense quotient, so every direction is the scalar dual quotient |
| DualN.ComponentPowI | src/derivatives.rs:39-53 | direction by direction, `powi` is the scalar dual number's `powi` |
| DualN.DeriveDoc | src/dual_n.rs:41-49 | `from_re(5).derive(1).powi(2)` is 25 with eps [0, 10] |
| DualN.DeriveVec | src/dual_n.rs:60-77 | after the loop, entry i of the vector is the old entry with eps[i] = 1, for every i |
| DualN.DeriveVecOfConstants | src/dual_n.rs:60-77 | seeding a vector of constants gives x_i along direction i only |
| DualN.Jacobian | src/dual_n.rs:80-104 | the matrix is M×N and entry (i, j) is eps[j] of output i |
| DualN.JacobianDoc | src/dual_n.rs:83-93 | with x = 5 and y = 3 seeded, the rows for x·y³ and x²·y are [27, 135] and [30, 25] |
| DualN.MulDoc | src/dual_n.rs:119-131 | the product of two numbers with two directions, written out direction by direction |
| DualN.CubeDoc | src/dual_n.rs:83-93 | (3 + ε₁)³ = 27 + 27·ε₁ |
| DualN.PowI | src/derivatives.rs:39-53 | `powi` of the fixed-size vector number; DualN.ComponentPowI states every direction is the scalar dual number's `powi` |
| HyperDualN.New | src/hyperdual_n.rs:32-43 | `new` stores the real part, gradient and Hessian unchanged |
| HyperDualN.ToMN | src/hyperdual_n.rs:14-30 | the number is the `HyperDualMN` whose two directions are both the gradient and whose mixed part is the Hessian |
| HyperDualN.Entry | src/hyperdual_n.rs:14-30 | entry (i, j) is the entry (i, j) of that `HyperDualMN` |
| HyperDualN.FromRe | src/hyperdual_n.rs:45-51 | `from_re` is the `HyperDualMN` constant |
| HyperDualN.Derive | src/hyperdual_n.rs:53-59 | `derive(i)` sets gradient[i] to one and keeps the rest |
| HyperDualN.DeriveVec | src/hyperdual_n.rs:61-69 | after the loop, entry i is the old entry with gradient[i] = 1 |
| HyperDualN.ToMNChainRule | src/hyperdual_n.rs:72-81 | the chain rule is the `HyperDualMN` chain rule of the same number |
| HyperDualN.ToMNMul | src/hyperdual_n.rs:84-99 | the product is the `HyperDualMN` product |
| HyperDualN.ToMNDiv | src/hyperdual_n.rs:102-122 | the quotient is the `HyperDualMN` quotient |
| HyperDualN.ToMNPowI | src/derivatives.rs:39-53 | `powi` is the `HyperDualMN` `powi` |
| HyperDualN.EntryMul | src/hyperdual_n.rs:84-99 | every entry of the product is the hyper-dual product of the entries |
| HyperDualN.EntryDiv | src/hyperdual_n.rs:102-122 | every entry of the quotient is the hyper-dual quotient of the entries |
| HyperDualN.EntryPowI | src/derivatives.rs:39-53 | every entry of `powi` is the hyper-dual `powi` of the entry |
| HyperDualN.MulKeepsSymmetry | src/hyperdual_n.rs:84-99 | the product of two numbers with symmetric Hessians has a symmetric Hessian |
| HyperDualN.PowITest | tests/test_hyperdual_n.rs:245-254 | `from(0).derive(0).derive(1).powi(2)` has real part and gradient 0 and every Hessian entry 2 |
| HyperDualN.SquareOfSeed | tests/test_hyperdual_n.rs:245-254 | the hyper-dual (0, 1, 1, 0) squared is (0, 0, 0, 2) |
| HyperDualN.Valid | src/hyperdual_n.rs:14-23 | gradient 1×n and Hessian n×n, as the const generic fixes; HyperDualN.ChainRule, Mul and Div state they keep it |
| HyperDualN.ChainRule | src/hyperdual_n.rs:72-81 | (f0, gradient·f1, hessian·f1 + gradientᵀgradient·f2); HyperDualN.ToMNChainRule states it is the mixed number's chain rule with m = n |
| HyperDualN.Cross | src/hyperdual_n.rs:93-95 | hessian'·a + gradientᵀgradient' + gradient'ᵀgradient; HyperDualN.ToMNMul and HyperDualN.ToMNDiv state the rules built on it are the mixed number's |
| HyperDualN.Mul | src/hyperdual_n.rs:84-99 | the product rule; HyperDualN.ToMNMul states it is the mixed number's product, HyperDualN.EntryMul its entries and HyperDualN.MulKeepsSymmetry that it keeps a symmetric Hessian symmetric |
| HyperDualN.Div | src/hyperdual_n.rs:102-122 | the quotient rule; HyperDualN.ToMNDiv states it is the mixed number's quotient and HyperDualN.EntryDiv its entries |
| HyperDualN.PowI | src/derivatives.rs:39-53 | `powi` through the shared table; HyperDualN.ToMNPowI and HyperDualN.EntryPowI state it is the hyper-dual `powi` entry by entry |
| HyperDualMN.New | src/hyperdual_mn.rs:33-50 | `new` stores the four parts unchanged |
| HyperDualMN.FromRe | src/hyperdual_mn.rs:52-58 | `from_re` has every entry the hyper-dual constant (re, 0, 0, 0) |
| HyperDualMN.Seed1 | src/hyperdual_mn.rs:78-87 | seeding sets eps1[i] to one and keeps every other part |
| HyperDualMN.Seed2 | src/hyperdual_mn.rs:89-111 | seeding sets eps2[j] to one and keeps every other part |
| HyperDualMN.Derive1 | src/hyperdual_mn.rs:60-67 | `derive1` with M = 1 sets the single eps1 to one and keeps the rest |
| HyperDualMN.Derive2 | src/hyperdual_mn.rs:69-76 | `derive2` with N = 1 sets the single eps2 to one and keeps the rest |
| HyperDualMN.DeriveVec1 | src/hyperdual_mn.rs:78-87 | after the loop, entry i of the vector is the old entry seeded along eps1[i] |
| HyperDualMN.DeriveVec2 | src/hyperdual_mn.rs:89-111 | after the loop, entry j of the vector is the old entry seeded along eps2[j] |
| HyperDualMN.SeededEntries | src/hyperdual_mn.rs:78-111 | a seeded constant x_k varies along eps1 direction k only, y_k along eps2 direction k only |
| HyperDualMN.EntryChainRule | src/hyperdual_mn.rs:114-124 | every entry of the chain rule is the hyper-dual chain rule of the entry |
| HyperDualMN.EntryMul | src/hyperdual_mn.rs:127-143 | every entry of the product is the hyper-dual product of the entries |
| HyperDualMN.EntryDiv | src/hyperdual_mn.rs:146-167 | every entry of the quotient is the hyper-dual quotient of the entries |
| HyperDualMN.DivMixedEntry | src/hyperdual_mn.rs:158-164 | the mixed part of the quotient is the hyper-dual quotient's mixed part, entry by entry |
| HyperDualMN.MulDivInverse | src/hyperdual_mn.rs:127-167 | entry by entry, multiplying the quotient by the divisor gives back the dividend |
| HyperDualMN.EntryPowI | src/derivatives.rs:39-53 | every entry of `powi` is the hyper-dual `powi` of the entry |
| HyperDualMN.Valid | src/hyperdual_mn.rs:14-24 | eps1 is 1×m, eps2 1×n and eps1eps2 m×n, as the const generics fix; HyperDualMN.ChainRule, Mul and Div state they keep it |
| HyperDualMN.Entry | src/hyperdual_mn.rs:14-24 | entry (i, j) as a hyper-dual number; HyperDualMN.EntryChainRule, EntryMul and EntryDiv state the rules are the hyper-dual rules entry by entry |
| HyperDualMN.ChainRule | src/hyperdual_mn.rs:114-124 | (f0, eps1·f1, eps2·f1, eps1eps2·f1 + eps1ᵀeps2·f2); HyperDualMN.EntryChainRule states every entry is the hyper-dual chain rule |
| HyperDualMN.Cross | src/hyperdual_mn.rs:137-139 | eps1eps2'·a + eps1ᵀeps2' + eps1'ᵀeps2, the terms the product and quotient share; HyperDualMN.EntryMul and HyperDualMN.DivMixedEntry state its entries through the rules |
| HyperDualMN.Mul | src/hyperdual_mn.rs:127-143 | the product rule; HyperDualMN.EntryMul states every entry is the hyper-dual product and HyperDualMN.MulDivInverse that `/` undoes it |
| HyperDualMN.Div | src/hyperdual_mn.rs:146-167 | the quotient rule; HyperDualMN.EntryDiv states every entry is the hyper-dual quotient and HyperDualMN.MulDivInverse that (x / y)·y = x |
| HyperDualMN.PowI | src/derivatives.rs:39-53 | `powi` through the shared table; HyperDualMN.EntryPowI states every entry is the hyper-dual `powi` |
| HD2.New | src/hd2.rs:27-38 | `new` stores the three parts unchanged |
| HD2.FromRe | src/hd2.rs:40-46 | `from_re` is a constant: both derivative parts are zero |
| HD2.Derive | src/hd2.rs:48-62 | `derive` sets v1 to one and keeps the rest |
| HD2.Lo | src/hd2.rs:20-29 | dropping the third part of a `Dual3` gives the HD2 with the same first three parts |
| HD2.Up | src/hd2.rs:20-29 | an HD2 read as a `Dual3` with third part zero, undone by dropping it |
| HD2.LoChainRule | src/hd2.rs:64-69 | the chain rule (f0, f1·v1, f2·v1² + f1·v2) is the `Dual3` chain rule read to second order |
| HD2.LoMul | src/hd2.rs:71-82 | the product, with v2 = v2·b + 2·v1·v1′ + a·v2′, is the `Dual3` product read to second order |
| HD2.LoDiv | src/hd2.rs:84-95 | division, the product with the divisor under the reciprocal's chain rule, is the `Dual3` quotient read to second order |
| HD2.LoPowI | src/derivatives.rs:39-53 | `powi` is the `Dual3` `powi` read to second order |
| HD2.MulDivInverse | src/hd2.rs:71-95 | multiplying the quotient by the divisor gives back the dividend |
| HD2.ChainRuleCompose | src/hd2.rs:64-69 | applying g and then f is applying the composed table f∘g |
| HD2.PowIDoc | src/hd2.rs:50-56 | `from_re(5).derive().powi(3)` is (125, 75, 30) |
| HD2.One | src/hd2.rs:104 | `one()`, the constant one with both derivative parts zero, through HD2.FromRe |
| HD2.ChainRule | src/hd2.rs:64-69 | (f0, f1·v1, f2·v1² + f1·v2); HD2.LoChainRule states it is the third-order chain rule with the third part dropped, and HD2.ChainRuleCompose that it composes |
| HD2.Apply | src/hd2.rs:64-69 | the chain rule with a coefficient table; HD2.LoChainRule and HD2.ChainRuleCompose state it is Faà di Bruno's formula truncated to second order |
| HD2.Mul | src/hd2.rs:71-82 | the product, v2 = v2·b + 2·v1·v1' + a·v2'; HD2.LoMul states it is the third-order product truncated and HD2.MulDivInverse that `/` undoes it |
| HD2.Div | src/hd2.rs:84-95 | multiplication by the divisor under the chain rule with 1/x, −1/x², 2/x³; HD2.LoDiv states it is the truncated third-order quotient and HD2.MulDivInverse that (x / y)·y = x |
| HD2.PowI | src/derivatives.rs:39-53 | `powi` through the shared table, truncated to second order; HD2.LoPowI states it is the third-order `powi` truncated and HD2.PowIDoc the documented values |
| HD3.AsDual3 | src/hd3.rs:7-8 | the four entries are the real part and the three derivative parts of a `Dual3` |
| HD3.Of | src/hd3.rs:7-8 | a `Dual3` read as four entries, the inverse view |
| HD3.OfAsDual3 | src/hd3.rs:7-8 | the two views are inverse to each other |
| HD3.From | src/hd3.rs:49-55 | `From` puts the value at index 0 and zeros elsewhere: the `Dual3` constant |
| HD3.Derive | src/hd3.rs:20-23 | `derive` sets index 1 to one: the `Dual3` seed |
| HD3.IsZeroIsOne | src/hd3.rs:57-81 | `is_zero` holds exactly for `zero()`, and `is_one` exactly for `one()` (index 0 one, the rest zero) |
| HD3.ChainRule | src/hd3.rs:36-46 | the chain rule is the `Dual3` chain rule |
| HD3.Mul | src/hd3.rs:83-99 | Leibniz's rule to third order is the `Dual3` product |
| HD3.Recip | src/hd3.rs:378-386 | `recip` is the `Dual3` reciprocal |
| HD3.Div | src/hd3.rs:101-112 | division is the `Dual3` quotient |
| HD3.RecipInverse | src/hd3.rs:378-386 | a number times its reciprocal is one |
| HD3.MulDivInverse | src/hd3.rs:83-112 | multiplying the quotient by the divisor gives back the dividend |
| HD3.Add | src/hd3.rs:114-125 | the sum is taken entry by entry |
| HD3.Sub | src/hd3.rs:127-138 | the difference is taken entry by entry |
| HD3.AddSubInverse | src/hd3.rs:114-138 | subtracting what was added gives back the number |
| HD3.MulReal | src/hd3.rs:176-215 | `x * k` scales every entry by k |
| HD3.DivReal | src/hd3.rs:176-215 | `x / k` divides every entry by k |
| HD3.MulRealIsMul | src/hd3.rs:176-215 | scaling by k is the product with the constant k |
| HD3.DivRealIsDiv | src/hd3.rs:176-215 | dividing every entry by k is the quotient by the constant k |
| HD3.AddReal | src/hd3.rs:226-268 | `x + k` changes index 0 only, and is the sum with the constant k |
| HD3.SubReal | src/hd3.rs:226-268 | `x - k` changes index 0 only, and is the difference from the constant k |
| HD3.Neg | src/hd3.rs:354-360 | `-&x` negates every entry and is the additive inverse |
| HD3.NegInPlace | src/hd3.rs:345-352 | the in-place loop over the owned entries gives `-&x` |
| HD3.PowIAsWritten | src/hd3.rs:396-409 | as written, `powi` has no value exactly when the real part is zero and n < 3 |
| HD3.PowI | src/derivatives.rs:39-53 | `powi` with the special cases for n = 0, 1, 2 is the `Dual3` `powi` |
| HD3.PowIAsWrittenAgrees | src/hd3.rs:396-409 | wherever the formula as written has a value, it is `powi` |
| HD3.WrittenIsFalling | src/hd3.rs:396-409 | the written coefficients re^n, n·re^(n−1), n(n−1)·re^(n−2), n(n−1)(n−2)·re^(n−3) are the falling-factorial table |
| HD3.LowPowers | src/derivatives.rs:39-53 | for n = 0, 1, 2 and a nonzero real part the table is that of the constant one, the identity and the square |
| HD3.PowIAsWrittenAtZero | tests/test_hd3.rs:185-191 | at zero, `powi(2)` as written has no value, while the square of the seed is (0, 0, 2, 0) |
| HD3.RecipDoc | src/hd3.rs:368-386 | `from(1.2).derive().recip()` is (5/6, −25/36, 125/108, −625/216) |
| HD3.PowIDoc | src/hd3.rs:388-409 | `from(1.2).derive().powi(6)` is (2.985984, 14.92992, 62.208, 207.36) |
| HD3.Zero | src/hd3.rs:57-61 | `zero()`, four zero entries; HD3.IsZeroIsOne states `is_zero` holds exactly for it |
| HD3.One | src/hd3.rs:69-75 | `one()`, entry 0 one and the rest zero; HD3.IsZeroIsOne states `is_one` holds exactly for it and HD3.RecipInverse that x·recip(x) is it |
| HD3.IsZero | src/hd3.rs:63-66 | `is_zero`: every entry is zero; HD3.IsZeroIsOne states it holds exactly for HD3.Zero |
| HD3.IsOne | src/hd3.rs:77-80 | `is_one`: entries 1..3 zero and entry 0 one; HD3.IsZeroIsOne states it holds exactly for HD3.One |
| HD3.WrittenTable | src/hd3.rs:396-409 | the coefficients `powi` computes from f3 = re^(n−3); HD3.WrittenIsFalling states they are the falling-factorial table away from zero and HD3.PowIAsWrittenAtZero what they give at a zero value |
| HDScal.New | src/hd_scal.rs:143-171 | `new(x)` and `From` give NDIM entries, x and then zeros: the `Dual3` constant |
| HDScal.Derive | src/hd_scal.rs:152-155 | `derive` sets entry 1 to one and keeps the others |
| HDScal.Zero | src/hd_scal.rs:174-178 | `zero()` is the constant zero of the same order |
| HDScal.IsZeroIsOne | src/hd_scal.rs:181-197 | `is_zero` holds exactly for `zero()`, and `is_one` exactly for `one()` |
| HDScal.Lift | src/hd_scal.rs:138 | the first four entries read as a `Dual3` (missing ones as zero), the only such number when there are four entries |
| HDScal.ChainRule | src/hd_scal.rs:28-134 | the D0..D5 chain rules keep the order of x, and entry 0 is the value f0 |
| HDScal.ChainRuleSeeded | src/hd_scal.rs:28-134 | on the seeded number `derive(new(x0))` the chain rule returns the table itself |
| HDScal.ChainRuleIdentity | src/hd_scal.rs:28-134 | with the identity's table the chain rule gives the number back |
| HDScal.ChainRulePrefix | src/hd_scal.rs:28-134 | the chain rules of D0..D5 agree on the entries they share: a lower order is a prefix of a higher one |
| HDScal.ChainRuleAgrees | src/hd_scal.rs:56-78 | up to the third derivative the chain rule is the `Dual3` chain rule (D2: f2·x1² + f1·x2; D3: f3·x1³ + 3f2·x1·x2 + f1·x3) |
| HDScal.Binomial | src/hd_scal.rs:209 | C(n, k) is 0 past n, 1 at k = n and n at k = 1 and k = n − 1 |
| HDScal.Mul | src/hd_scal.rs:200-215 | the nested loop builds Leibniz's rule res[i] = Σ_{j≤i} C(i, j)·a_j·b_{i−j}, with the length of the left operand |
| HDScal.LeibnizLow | src/hd_scal.rs:203-214 | the first four entries of the product are the `Dual3` product slots |
| HDScal.MulAgrees | src/hd_scal.rs:200-215 | up to the third derivative the product is the `Dual3` product |
| HDScal.LeibnizConst | src/hd_scal.rs:203-214 | against a constant, entry i of the product is a_i·b_0 (or a_0·b_i) |
| HDScal.MulConstant | src/hd_scal.rs:200-215 | multiplying by the constant k on either side is scaling every entry by k |
| HDScal.MulOne | src/hd_scal.rs:186-215 | `one()` is a unit of the product |
| HDScal.Add | src/hd_scal.rs:225-237 | the sum zips the entries, stopping at the shorter operand |
| HDScal.Sub | src/hd_scal.rs:239-251 | the difference zips the entries, stopping at the shorter operand |
| HDScal.AddSubInverse | src/hd_scal.rs:225-251 | for numbers of one order, subtracting what was added gives back the number |
| HDScal.Neg | src/hd_scal.rs:464-470 | `-&x` negates every entry and is the additive inverse |
| HDScal.NegInPlace | src/hd_scal.rs:455-462 | the in-place loop over the owned entries gives `-&x` |
| HDScal.MulReal | src/hd_scal.rs:289-330 | `x * k` scales every entry by k |
| HDScal.DivReal | src/hd_scal.rs:289-330 | `x / k` divides every entry by k |
| HDScal.DivRealInverse | src/hd_scal.rs:289-330 | dividing by k is multiplying by 1/k, and undoes multiplying by k |
| HDScal.AddReal | src/hd_scal.rs:336-380 | `x + k` writes entry 0 only, and is the sum with the constant k |
| HDScal.SubReal | src/hd_scal.rs:336-380 | `x - k` writes entry 0 only, and is the difference from the constant k |
| HDScal.PowerCoeffs | src/hd_scal.rs:523-557 | the loop shared by `recip` and `powi` builds f0, then f_{i+1} = (a − i)·f_i·rec |
| HDScal.PowerTableRecurrence | src/hd_scal.rs:523-557 | the table solves x·f_{k+1} = (a − k)·f_k at every order: it holds the derivatives of y^a |
| HDScal.PowerTableAgrees | src/hd_scal.rs:523-557 | any `Dual3` table with the same value and the same recurrence is its first four entries |
| HDScal.RecipAgrees | src/hd_scal.rs:523-533 | up to the third derivative `recip` is the `Dual3` reciprocal |
| HDScal.Recip | src/hd_scal.rs:523-533 | the loop with f_{i+1} = (−1 − i)·f_i/x builds the reciprocal, the `Dual3` one up to third order |
| HDScal.Div | src/hd_scal.rs:217-223 | division is the product with the divisor's reciprocal, the `Dual3` quotient up to third order |
| HDScal.MulDivInverse | src/hd_scal.rs:200-223 | division undoes multiplication up to the third derivative, and entirely for the orders D0..D3 |
| HDScal.PowerTableIsPowTable | src/hd_scal.rs:547-557 | away from zero, the loop of `powi` builds the derivatives n(n−1)…(n−k+1)·y^(n−k) of y^n |
| HDScal.PowCoeffs | src/hd_scal.rs:547-557 | a loop defined at every point builds the same derivatives of y^n |
| HDScal.PowI | src/hd_scal.rs:547-557 | `powi` gives the derivatives of y^n, the `Dual3` `powi` up to third order |
| HDScal.PowIAsWritten | src/hd_scal.rs:547-557 | as written, `powi` has no value exactly when the value is zero and the number has a derivative part (or n < 0) |
| HDScal.PowIAsWrittenAgrees | src/hd_scal.rs:547-557 | wherever the written loop is defined it computes the derivatives of y^n |
| HDScal.PowIAsWrittenAtZero | src/hd_scal.rs:547-557 | (0, 1, 0) squared has no value as written, while its square is (0, 0, 2) |
| HDScal.PowIAgrees | src/hd_scal.rs:547-557 | up to the third derivative `powi` is the `Dual3` `powi`, special cases included |
| HDScal.PowTermSpecial | src/derivatives.rs:39-53 | for n = 0, 1, 2 the derivatives of y^n are those of one, the identity and the square |
| HDScal.PowIDoc | src/hd_scal.rs:535-546 | `new(1.2).derive().powi(6)` of order D5 is (2.985984, 14.92992, 62.208, 207.36, 518.4, 864) |
| HDScal.RecipDoc | src/hd_scal.rs:509-522 | `new(1.2).derive().recip()` of order D5 is (−1)^k·k!/1.2^(k+1) for k = 0..5 |
| HDScal.Valid | src/hd_scal.rs:20-36 | 1 to 6 entries, the lengths D0..D5 fix; HDScal.New states `new` gives such a number, and HDScal.MulSpec and HDScal.RecipSpec that the operations keep the length |
| HDScal.One | src/hd_scal.rs:186-192 | `one()`: entry 0 one and NDIM − 1 zeros; HDScal.IsZeroIsOne states `is_one` holds exactly for it and HDScal.MulOne that it is the unit of `*` |
| HDScal.IsZero | src/hd_scal.rs:180-183 | `is_zero`: every entry is zero; HDScal.IsZeroIsOne states it holds exactly for HDScal.Zero |
| HDScal.IsOne | src/hd_scal.rs:194-197 | `is_one`: entry 0 one and every later entry zero; HDScal.IsZeroIsOne states it holds exactly for HDScal.One |
| HDScal.Part | src/hd_scal.rs:138 | entry k of a third-order number; HDScal.ChainRuleAgrees and HDScal.MulAgrees state through it that the first four entries follow the Dual3 rules |
| HDScal.CoeffPart | src/hd_scal.rs:138 | entry k of a coefficient table; HDScal.PowTermSpecial and HDScal.PowerTableAgrees state the power tables through it |
| HDScal.Agrees | src/hd_scal.rs:138 | x matches a third-order number on its first four entries; HDScal.ChainRuleAgrees, HDScal.MulAgrees and HDScal.RecipAgrees state the operations keep it |
| HDScal.TableAgrees | src/hd_scal.rs:523-557 | a derivative table matches a Dual3 coefficient table; HDScal.PowerTableAgrees and HDScal.ChainRuleAgrees state the power loops produce the shared tables |
| HDScal.Compose4 | src/hd_scal.rs:81-102 | Faà di Bruno's formula for the fourth derivative of f∘g, as D4's `chain_rule` writes it; HDScal.ChainRuleIdentity and HDScal.ChainRuleSeeded state what it gives for the identity and a seeded argument |
| HDScal.Compose5 | src/hd_scal.rs:104-134 | Faà di Bruno's formula for the fifth derivative of f∘g, as D5's `chain_rule` writes it; HDScal.ChainRuleIdentity and HDScal.ChainRuleSeeded state what it gives for the identity and a seeded argument |
| HDScal.ChainEntry | src/hd_scal.rs:28-134 | entry k of the chain rule of the markers D0..D5; HDScal.ChainRulePrefix states a shorter number's entries are the prefix and HDScal.ChainRuleAgrees that entries 0..3 are the Dual3 chain rule |
| HDScal.Seeded | src/hd_scal.rs:151-155 | the number `new(a).derive()`: derivative one and higher parts zero; HDScal.ChainRuleSeeded states the chain rule then returns the derivative table itself |
| HDScal.LeibnizSum | src/hd_scal.rs:207-210 | the inner loop of `mul` after m steps, Σ_{j<m} a_j·b_{i−j}·C(i, j); HDScal.Mul's loop invariants state its partial sums through it |
| HDScal.Leibniz | src/hd_scal.rs:203-214 | entry i of the product, the i-th derivative of a product; HDScal.LeibnizLow states it is Leibniz's rule for the first entries and HDScal.LeibnizConst its value against a constant |
| HDScal.MulSpec | src/hd_scal.rs:200-215 | the product with as many entries as the left operand; HDScal.MulAgrees states it is the Dual3 product on the first four entries, HDScal.MulOne its unit and HDScal.MulDivInverse that `/` undoes it |
| HDScal.Falling | src/hd_scal.rs:528-529 | the falling factorial a(a − 1)…(a − k + 1) the power loops build up; HDScal.PowerTableRecurrence states the loop's step through it |
| HDScal.PowerTerm | src/hd_scal.rs:523-533 | f0·a(a − 1)…(a − k + 1)·rec^k, entry k of a power loop; HDScal.PowerCoeffs states its first entries and HDScal.PowerTableRecurrence the loop's step |
| HDScal.PowerTable | src/hd_scal.rs:523-557 | the table the power loops of `recip` and `powi` push; HDScal.PowerTableRecurrence states it satisfies the loop's step, HDScal.PowerTableAgrees that it matches the shared tables and HDScal.PowerTableIsPowTable that it is y^n's table away from zero |
| HDScal.RecipSpec | src/hd_scal.rs:523-533 | `recip`: the power table with exponent −1 under the chain rule; HDScal.RecipAgrees states it is the Dual3 `recip` on the first four entries and HDScal.MulDivInverse that division by it undoes `*` |
| HDScal.PowTerm | src/derivatives.rs:39-53 | n(n − 1)…(n − k + 1)·a^(n−k), the k-th derivative of y^n, zero past a non-negative n; HDScal.PowTermSpecial states its special values |
| HDScal.PowTable | src/hd_scal.rs:547-557 | the derivatives of y^n at the value; HDScal.PowerTableIsPowTable states the `powi` loop builds it away from zero and HDScal.PowCoeffs its first entries |
| HDScal.RecStep | src/hd_scal.rs:528-530 | entry j + 1 is (b − j)·entry j·rec, the step of the power loops; HDScal.PowerTableRecurrence states the tables satisfy it |
| HDScal.PowISpec | src/hd_scal.rs:547-557 | `powi(n)` with the derivatives of y^n, defined at a zero value for every n ≥ 0; HDScal.PowIAsWrittenAgrees states the loop matches it away from zero, HDScal.PowIAsWrittenAtZero where it differs and HDScal.PowIAgrees that it is the Dual3 `powi` on the first four entries |
| HDScalFunctions.PowF | src/hd_scal.rs:571-581 | the loop builds f_{i+1} = (n − i)·f_i/x0 from x0^n, the `Dual3` chain rule with y ↦ y^n's table |
| HDScalFunctions.PowFAgrees | src/hd_scal.rs:571-581 | up to the third derivative `powf` is the chain rule with the falling-factorial table of y^n |
| HDScalFunctions.PowFTable | src/derivatives.rs:56-75 | the falling-factorial table with x0^n = p solves x0·f′ = (n − k)·f |
| HDScalFunctions.PowFIntegral | src/hd_scal.rs:547-581 | at an integer exponent `powf` is `powi` |
| HDScalFunctions.Sqrt | src/hd_scal.rs:595-606 | the power loop with exponent one half, the `Dual3` chain rule with the table of √ |
| HDScalFunctions.SqrtAgrees | src/hd_scal.rs:595-606 | up to the third derivative `sqrt` is the chain rule with √'s table |
| HDScalFunctions.SqrtSquare | src/hd_scal.rs:595-606 | the square root squared is the number again up to the third derivative, and exactly for D0..D3 |
| HDScalFunctions.SameUpToThird | src/hd_scal.rs:138 | two numbers of at most four entries that agree with the same `Dual3` are equal |
| HDScalFunctions.Cbrt | src/hd_scal.rs:620-631 | the power loop with exponent one third, the `Dual3` chain rule with the table of ∛ |
| HDScalFunctions.CbrtAgrees | src/hd_scal.rs:620-631 | up to the third derivative `cbrt` is the chain rule with ∛'s table |
| HDScalFunctions.Exp | src/hd_scal.rs:645-652 | the loop pushes exp(x0) once per entry: the `Dual3` chain rule with exp's table |
| HDScalFunctions.ExpAgrees | src/hd_scal.rs:645-652 | up to the third derivative `exp` is the chain rule with exp's table |
| HDScalFunctions.Exp2 | src/hd_scal.rs:666-676 | the loop multiplies by ln 2 at each step: the `Dual3` chain rule with 2^y's table |
| HDScalFunctions.Exp2TableSnoc | src/hd_scal.rs:666-676 | one more entry is the last one times ln 2 |
| HDScalFunctions.Exp2Agrees | src/hd_scal.rs:666-676 | up to the third derivative `exp2` is the chain rule with 2^y's table |
| HDScalFunctions.ExpM1 | src/hd_scal.rs:690-698 | exp_m1(x0) and then exp(x0) per entry: the `Dual3` chain rule with exp_m1's table |
| HDScalFunctions.ExpM1IsExpShifted | src/hd_scal.rs:645-698 | `exp_m1` and `exp` have the same derivative entries |
| HDScalFunctions.LogCoeffs | src/hd_scal.rs:712-833 | the loop shared by the ln family builds the value, f1, then f_i = (1 − i)·f_{i−1}/x0 |
| HDScalFunctions.LogTableAgrees | src/hd_scal.rs:712-833 | a table whose entries follow the power recurrence with exponent −1 agrees with the ln family's table |
| HDScalFunctions.Ln | src/hd_scal.rs:712-725 | `ln` is the `Dual3` chain rule with ln's table |
| HDScalFunctions.LnAgrees | src/hd_scal.rs:712-725 | up to the third derivative `ln` is the chain rule with ln's table |
| HDScalFunctions.ExpLn | src/hd_scal.rs:645-725 | exp undoes ln up to the third derivative, and exactly for D0..D3 |
| HDScalFunctions.Log | src/hd_scal.rs:739-752 | `log(base)` is the `Dual3` chain rule with log's table |
| HDScalFunctions.LogAgrees | src/hd_scal.rs:739-752 | up to the third derivative `log` is the chain rule with log's table |
| HDScalFunctions.Log2 | src/hd_scal.rs:766-779 | `log2` is `log` with ln 2, the chain rule with log2's table |
| HDScalFunctions.Log10 | src/hd_scal.rs:793-806 | `log10` is `log` with ln 10, the chain rule with log10's table |
| HDScalFunctions.LogIsScaledLn | src/hd_scal.rs:712-752 | every derivative entry of `log` is that of `ln` divided by ln(base) |
| HDScalFunctions.Ln1p | src/hd_scal.rs:820-833 | `ln_1p` is the ln table at 1 + x0, the chain rule with ln_1p's table |
| HDScalFunctions.CyclicCoeffs | src/hd_scal.rs:847-891 | the `match i % 4` and `match i % 2` loops pick entry k of the pattern at k mod its length |
| HDScalFunctions.SinCycle | src/hd_scal.rs:847-891 | sin′ = cos, cos′ = −sin and sin″ = −sin, entry by entry |
| HDScalFunctions.SinhCoshShift | src/hd_scal.rs:1018-1060 | sinh′ = cosh, cosh′ = sinh and sinh″ = sinh, entry by entry |
| HDScalFunctions.CyclicAgrees | src/hd_scal.rs:847-891 | the first four entries of a pattern are the `Dual3` table |
| HDScalFunctions.Sin | src/hd_scal.rs:847-862 | `sin` is the `Dual3` chain rule with sin's table |
| HDScalFunctions.Cos | src/hd_scal.rs:876-891 | `cos` is the `Dual3` chain rule with cos's table |
| HDScalFunctions.SinCos | src/hd_scal.rs:911-939 | the single loop builds both `sin` and `cos` |
| HDScalFunctions.Tan | src/hd_scal.rs:953-955 | `tan` is sin/cos through `div`, the `Dual3` quotient up to third order |
| HDScalFunctions.QuotientAgrees | src/hd_scal.rs:217-223 | the quotient agrees with the `Dual3` quotient of any numbers its operands agree with |
| HDScalFunctions.Sinh | src/hd_scal.rs:1018-1032 | `sinh` is the `Dual3` chain rule with sinh's table |
| HDScalFunctions.Cosh | src/hd_scal.rs:1046-1060 | `cosh` is the `Dual3` chain rule with cosh's table |
| HDScalFunctions.Tanh | src/hd_scal.rs:1074-1076 | `tanh` is sinh/cosh through `div`, the `Dual3` quotient up to third order |
| HDScalFunctions.Raised | src/hd_scal.rs:485-489 | x′: the entries after the value followed by a zero, one order lower |
| HDScalFunctions.Lowered | src/hd_scal.rs:491-495 | x with its last entry replaced by zero, one order lower |
| HDScalFunctions.ApplyFunctionAsWritten | src/hd_scal.rs:474-501 | as written, the result has one entry more than x whenever x has a derivative part |
| HDScalFunctions.ApplyFunctionSpec | src/hd_scal.rs:474-501 | with the result cut to the order of x, entry k + 1 is entry k of f′(x)·x′ |
| HDScalFunctions.ApplyFunction | src/hd_scal.rs:474-501 | the loop that pushes f(x0) and then the entries of f′(x)·x′ builds the intended result |
| HDScalFunctions.ApplyFunctionOverlong | src/hd_scal.rs:474-501 | the written result is the intended one plus one entry; a D5 result has seven entries |
| HDScalFunctions.ApplyFunctionChainRule | src/hd_scal.rs:474-501 | when f′ is given by the shifted table, the result agrees with the `Dual3` chain rule of f |
| HDScalFunctions.PowFSpec | src/hd_scal.rs:571-581 | `powf(n)` with x0^n supplied, f_{i+1} = (n − i)·f_i/x0; HDScalFunctions.PowFAgrees states it is the Dual3 `powf` on the first entries and HDScalFunctions.PowFIntegral that it is `powi` at an integral exponent |
| HDScalFunctions.PowFCoeffs | src/derivatives.rs:56-75 | the falling-factorial table of y ↦ y^n; HDScalFunctions.PowFTable states the `powf` loop builds it and HDScalFunctions.PowFAgrees what that gives on the first four entries |
| HDScalFunctions.SqrtSpec | src/hd_scal.rs:595-606 | `sqrt` as the power loop with exponent one half; HDScalFunctions.SqrtAgrees states it matches the Dual3 `sqrt` and HDScalFunctions.SqrtSquare that it inverts squaring |
| HDScalFunctions.CbrtSpec | src/hd_scal.rs:620-631 | `cbrt` as the power loop with exponent one third; HDScalFunctions.CbrtAgrees states it matches the Dual3 `cbrt` |
| HDScalFunctions.ExpTable | src/hd_scal.rs:645-652 | every derivative of exp at x0 is exp(x0); HDScalFunctions.ExpAgrees states `exp` matches the Dual3 `exp` through it |
| HDScalFunctions.ExpSpec | src/hd_scal.rs:645-652 | `exp` under the chain rule with the constant table; HDScalFunctions.ExpAgrees states it matches the Dual3 `exp`, HDScalFunctions.ExpM1IsExpShifted that `exp_m1` is it shifted and HDScalFunctions.ExpLn that it inverts `ln` |
| HDScalFunctions.Exp2Table | src/hd_scal.rs:666-676 | the derivatives e·ln2^k of 2^y; HDScalFunctions.Exp2TableSnoc states the loop's step and HDScalFunctions.Exp2Agrees the first entries |
| HDScalFunctions.Exp2Spec | src/hd_scal.rs:666-676 | `exp2` under the chain rule; HDScalFunctions.Exp2Agrees states it matches the Dual3 `exp2` |
| HDScalFunctions.ExpM1Table | src/hd_scal.rs:690-698 | exp_m1(x0), then exp(x0) for every derivative; HDScalFunctions.ExpM1IsExpShifted states it differs from exp's table only in entry 0 |
| HDScalFunctions.ExpM1Spec | src/hd_scal.rs:690-698 | `exp_m1` under the chain rule; HDScalFunctions.ExpM1IsExpShifted states it is `exp` less one in the value and equal elsewhere |
| HDScalFunctions.LogTable | src/hd_scal.rs:712-752 | the ln family's table: the value, f1 and the loop f_i = (1 − i)·f_{i−1}·rec; HDScalFunctions.LogCoeffs and HDScalFunctions.LogTableAgrees state its entries and HDScalFunctions.LogIsScaledLn that `log` scales `ln`'s |
| HDScalFunctions.LnSpec | src/hd_scal.rs:712-725 | `ln` with f1 = 1/x0; HDScalFunctions.LnAgrees states it matches the Dual3 `ln` and HDScalFunctions.ExpLn that `exp` inverts it |
| HDScalFunctions.LogSpec | src/hd_scal.rs:739-752 | `log(base)` with f1 = 1/(x0·ln base); HDScalFunctions.LogAgrees states it matches the Dual3 `log` and HDScalFunctions.LogIsScaledLn that it is `ln` divided by ln base |
| HDScalFunctions.Ln1pSpec | src/hd_scal.rs:820-833 | `ln_1p`, the ln table at 1 + x0; HDScalFunctions.Ln1p states the loop builds it and that it matches the Dual3 `ln_1p` on the first four entries |
| HDScalFunctions.CyclicTable | src/hd_scal.rs:847-891 | a table repeating a pattern, as the `match i % 4` and `match i % 2` loops pick entries; HDScalFunctions.CyclicCoeffs states its entries and HDScalFunctions.CyclicAgrees that the loops build it |
| HDScalFunctions.CosCycle | src/hd_scal.rs:876-891 | the pattern c, −s, −c, s of cos's derivatives; HDScalFunctions.SinCycle states each entry is the derivative of the one before |
| HDScalFunctions.SinhCycle | src/hd_scal.rs:1018-1032 | the pattern s, c of sinh's derivatives; HDScalFunctions.SinhCoshShift states sinh's and cosh's tables are each other shifted by one |
| HDScalFunctions.CoshCycle | src/hd_scal.rs:1046-1060 | the pattern c, s of cosh's derivatives; HDScalFunctions.SinhCoshShift states sinh's and cosh's tables are each other shifted by one |
| HDScalFunctions.SinSpec | src/hd_scal.rs:847-862 | `sin` under the chain rule with the cycle s, c, −s, −c; HDScalFunctions.CyclicAgrees states it matches the Dual3 `sin` and HDScalFunctions.SinCos that `sin_cos` returns it with `cos` |
| HDScalFunctions.CosSpec | src/hd_scal.rs:876-891 | `cos` under the chain rule with the cycle c, −s, −c, s; HDScalFunctions.CyclicAgrees states it matches the Dual3 `cos` and HDScalFunctions.SinCos that `sin_cos` returns it with `sin` |
| HDScalFunctions.SinhSpec | src/hd_scal.rs:1018-1032 | `sinh` under the chain rule with the cycle s, c; HDScalFunctions.SinhCoshShift relates it to `cosh` and HDScalFunctions.Tanh builds `tanh` from both |
| HDScalFunctions.CoshSpec | src/hd_scal.rs:1046-1060 | `cosh` under the chain rule with the cycle c, s; HDScalFunctions.SinhCoshShift relates it to `sinh` and HDScalFunctions.Tanh builds `tanh` from both |
| StaticMat.NewVec | src/static_mat.rs:25-30 | `new_vec` makes a vector the one-row matrix holding it |
| StaticMat.IsZeroIffZeros | src/static_mat.rs:114-122 | `is_zero` holds exactly for the zero matrix |
| StaticMat.OnesIsNotIdentity | src/static_mat.rs:124-128 | `one()` fills every entry with one, the unit of the elementwise product, and is not the identity matrix from two rows on |
| StaticMat.Eye | src/static_mat.rs:32-41 | the loop that writes ones on the diagonal of the zero matrix builds the identity |
| StaticMat.IdentityLeft | src/static_mat.rs:32-41 | the identity is neutral on the left of `matmul` |
| StaticMat.IdentityRight | src/static_mat.rs:32-41 | the identity is neutral on the right of `matmul` |
| StaticMat.ApplyOp | src/static_mat.rs:43-95 | `+`, `-`, `*`, `/` and their assign forms with a matrix update every entry with the entry of the other operand, in place |
| StaticMat.ApplyScalar | src/static_mat.rs:67-89 | the scalar forms update every entry with the same scalar, in place |
| StaticMat.Negate | src/static_mat.rs:130-140 | `neg` negates every entry in place |
| StaticMat.AddSubInverse | src/static_mat.rs:91-92 | subtracting what was added gives the matrix back |
| StaticMat.MulDivInverse | src/static_mat.rs:93-94 | dividing by what was multiplied (entries nonzero) gives the matrix back |
| StaticMat.NegInvolution | src/static_mat.rs:130-140 | negating twice gives the matrix back |
| StaticMat.ScalarIsElementwise | src/static_mat.rs:43-95 | a scalar operand acts as the matrix that repeats it |
| StaticMat.Map | src/static_mat.rs:190-203 | the loop builds the matrix of f applied to every entry |
| StaticMat.MapZip | src/static_mat.rs:206-219 | the loop builds the matrix of f applied to the entries of both operands |
| StaticMat.MapZipIsElementwise | src/static_mat.rs:206-219 | `map_zip` with an arithmetic operator is that elementwise operator |
| StaticMat.MapCompose | src/static_mat.rs:190-203 | mapping g after f is mapping their composition |
| StaticMat.MatMul | src/static_mat.rs:237-254 | the triple loop accumulating res[i][k] += a[i][j]·b[j][k] builds the matrix product |
| StaticMat.TransposeMatMul | src/static_mat.rs:267-284 | the triple loop accumulating res[j][k] += a[i][j]·b[i][k] builds aᵀ·b |
| StaticMat.MatMulTranspose | src/static_mat.rs:295-312 | the triple loop accumulating res[i][k] += a[i][j]·b[k][j] builds a·bᵀ |
| StaticMat.T | src/static_mat.rs:315-326 | the loop builds the transpose |
| StaticMat.TransposeInvolution | src/static_mat.rs:315-326 | transposing twice gives the matrix back |
| StaticMat.MatMulTIsMatMulOfTranspose | src/static_mat.rs:267-312 | a·bᵀ, summed row against row, is `matmul` with the transpose of b |
| StaticMat.DotCommutes | src/static_mat.rs:355-360 | the dot product is symmetric |
| StaticMat.TransposeOfProduct | src/static_mat.rs:237-326 | (a·b)ᵀ = bᵀ·aᵀ |
| StaticMat.First | src/static_mat.rs:331-337 | `first` returns the first M entries |
| StaticMat.Last | src/static_mat.rs:340-346 | `last` returns the last M entries |
| StaticMat.FirstLastSplit | src/static_mat.rs:331-346 | the first k entries followed by the last n − k give the vector back |
| StaticMat.Dot | src/static_mat.rs:355-360 | `dot` is entry (0, 0) of a·bᵀ, the sum of the products of the entries |
| StaticMat.SumAdd | src/static_mat.rs:97-102 | the sum of the entries is additive |
| StaticMat.SumIsDotOnes | src/static_mat.rs:97-102 | the sum of the entries is the dot product with the vector of ones |
| StaticMat.MatMulDoc | src/static_mat.rs:227-236 | [[1,2],[3,4]]·[[2,1],[4,3]] = [[10,7],[22,15]] |
| StaticMat.TransposeMatMulDoc | src/static_mat.rs:257-266 | [1,2]ᵀ·[2,1] = [[2,1],[4,2]] |
| StaticMat.MatMulTransposeDoc | src/static_mat.rs:287-294 | [[1,2],[3,4]]·[2,1]ᵀ = [4,10]ᵀ |
| StaticMat.DotDoc | src/static_mat.rs:349-354 | [1,2,3,4]·[2,1,4,3] = 28 |
| StaticMat.Combine | src/static_mat.rs:206-219 | one of `+`, `-`, `*`, `/` on two entries; StaticMat.MapZipIsElementwise states the elementwise operations are `map_zip` with it |
| StaticMat.NonZero | src/static_mat.rs:93-94 | no entry is zero, what an elementwise `/` needs of its divisor; StaticMat.MulDivInverse states `/` undoes `*` under it |
| StaticMat.Rows | src/static_mat.rs:18-25 | the entries of the fixed-size matrix, row by row; every StaticMat method's ensures states its new state through it |
| StaticMat.Identity | src/static_mat.rs:32-41 | the n×n identity; StaticMat.IdentityLeft and StaticMat.IdentityRight state it is the unit of `matmul` and StaticMat.Eye that `eye` builds it |
| StaticMat.Ones | src/static_mat.rs:124-128 | the matrix of ones `one()` returns; StaticMat.OnesIsNotIdentity states it differs from the identity for n ≥ 2 and StaticMat.SumIsDotOnes that the sum of a row is its dot with ones |
| StaticMat.Elementwise | src/static_mat.rs:43-95 | an operator applied entry by entry; StaticMat.ApplyOp states the loops compute it, StaticMat.AddSubInverse and StaticMat.MulDivInverse that `-` and `/` undo `+` and `*` |
| StaticMat.Scalar | src/static_mat.rs:67-89 | an operator with a scalar on every entry; StaticMat.ApplyScalar states the loops compute it and StaticMat.ScalarIsElementwise that it is the elementwise operator with a constant matrix |
| StaticMat.MapSpec | src/static_mat.rs:190-203 | f applied to every entry; StaticMat.Map states the loop computes it and StaticMat.MapCompose that two maps compose |
| StaticMat.MapZipSpec | src/static_mat.rs:206-219 | f applied to every pair of entries; StaticMat.MapZip states the loop computes it and StaticMat.MapZipIsElementwise that the elementwise operators are instances |
| StaticMat.MatMulT | src/static_mat.rs:295-312 | a·bᵀ, entry (i, k) pairing row i of a with row k of b; StaticMat.MatMulTranspose states the loops compute it and StaticMat.MatMulTIsMatMulOfTranspose that it is the product with the transpose |
| StaticMat.Sum | src/static_mat.rs:97-102 | the sum of a row's entries, front to back; StaticMat.SumAdd states it is additive and StaticMat.SumIsDotOnes that it is the dot with ones |
| StaticMat.IsZero | src/static_mat.rs:114-122 | `is_zero`: every entry zero; StaticMat.IsZeroIffZeros states it holds exactly for the zero matrix |
| StaticMat.Partial | src/static_mat.rs:237-265 | Σ_{j<l} u[j]·v[j], a product entry partway through its loop; StaticMat.MatMul's invariants state the loop through it |
| StaticMat.ProductAfter | src/static_mat.rs:237-265 | entry (i, k) of a·b after l terms; StaticMat.MatMul's invariants state the loop through it and its ensures that the result is the product |
| StaticMat.TrProductAfter | src/static_mat.rs:267-294 | entry (j, k) of aᵀ·b after l terms; StaticMat.TransposeMatMul's invariants state the loop through it |
| StaticMat.ProductTAfter | src/static_mat.rs:295-312 | entry (i, k) of a·bᵀ after l terms; StaticMat.MatMulTranspose's invariants state the loop through it |
| StaticVec.ElementwiseIsRow | src/static_vec.rs:18-61 | the vector operators are those of the one-row matrix |
| StaticVec.ScalarIsRow | src/static_vec.rs:38-61 | the scalar vector operators are those of the one-row matrix |
| StaticVec.AddSubInverse | src/static_vec.rs:58-59 | subtracting what was added gives the vector back |
| StaticVec.ApplyOp | src/static_vec.rs:18-61 | `+`, `-`, `*`, `/` and their assign forms update every entry with the other operand's entry, in place |
| StaticVec.ApplyScalar | src/static_vec.rs:38-61 | the scalar forms update every entry with the same scalar, in place |
| StaticVec.IsZeroIffZero | src/static_vec.rs:64-72 | `is_zero` holds exactly for the zero vector |
| StaticVec.Negate | src/static_vec.rs:74-82 | `neg` negates every entry in place |
| StaticVec.EqualIffSame | src/static_vec.rs:84-88 | `eq` compares entry by entry, so it holds exactly for equal vectors |
| StaticVec.Map | src/static_vec.rs:123-133 | the loop builds the vector of f applied to every entry |
| StaticVec.MapZip | src/static_vec.rs:135-147 | the loop builds the vector of f applied to the entries of both operands |
| StaticVec.OuterProduct | src/static_vec.rs:284-296 | the double loop builds res[i][j] = a[i]·b[j] |
| StaticVec.OuterIsTransposeMatMul | src/static_vec.rs:284-296 | the outer product is `transpose_matmul` of the two vectors read as one-row matrices |
| StaticVec.OuterIsColumnTimesRow | src/static_vec.rs:284-296 | the outer product is the product of a column with a row |
| StaticVec.NonZero | src/static_vec.rs:58-59 | no entry is zero, what an elementwise `/` needs; StaticVec.ApplyOp states the division loop under it |
| StaticVec.Elementwise | src/static_vec.rs:18-61 | an operator applied entry by entry; StaticVec.ElementwiseIsRow states it is the matrix operator on one row, StaticVec.ApplyOp that the loop computes it and StaticVec.AddSubInverse that `-` undoes `+` |
| StaticVec.Scalar | src/static_vec.rs:38-61 | an operator with a scalar on every entry; StaticVec.ScalarIsRow states it is the matrix operator on one row and StaticVec.ApplyScalar that the loop computes it |
| StaticVec.IsZero | src/static_vec.rs:64-72 | `is_zero`: every entry zero; StaticVec.IsZeroIffZero states it holds exactly for the zero vector |
| StaticVec.Equal | src/static_vec.rs:84-88 | `eq`: the zipped entries pairwise equal; StaticVec.EqualIffSame states it is equality of the vectors |
| StaticVec.Outer | src/static_vec.rs:284-296 | the outer product a·bᵀ; StaticVec.OuterProduct states the loop computes it, StaticVec.OuterIsTransposeMatMul and StaticVec.OuterIsColumnTimesRow that it is the column times the row |
| LUDecomposition.UsablePivot | src/linalg.rs:59-61 | a pivot that passes the singularity test (`max_a.is_zero()` here, `max_a < tol` in src/linalg/lu.rs:36 and src/linalg/mod.rs:55) is nonzero, so the divisions by it are defined |
| LUDecomposition.FirstLargestUnique | src/linalg.rs:48-57 | the row the search settles on is determined: only one row is the first with the largest magnitude |
| LUDecomposition.PivotRow | src/linalg.rs:48-57 | the pivot row is the first row k ≥ i with the largest \|a[k][i]\| |
| LUDecomposition.SwapRows | src/linalg.rs:68-72 | the exchange trades rows i and imax and leaves every other row alone |
| LUDecomposition.Swap | src/linalg.rs:63-66 | the exchange in p trades entries i and imax and leaves every other entry alone |
| LUDecomposition.SwapPermutes | src/linalg.rs:63-66 | p stays a permutation of 0..n−1 under an exchange |
| LUDecomposition.EliminateAt | src/linalg.rs:77-83 | after step i, entry (r, i) below the pivot holds the multiplier a[r][i]/a[i][i], entries right of it lose multiplier·a[i][c], and rows up to i and columns left of i are unchanged |
| LUDecomposition.EliminateKeepsRows | src/linalg.rs:77-83 | the elimination leaves the pivot row and the rows above it unchanged |
| LUDecomposition.PivotCancels | src/linalg.rs:78 | the multiplier times the pivot is the entry it eliminates |
| LUDecomposition.StepPermutes | src/linalg.rs:47-84 | a step that succeeds keeps p a permutation and raises p_count by at most one |
| LUDecomposition.StepKeepsRows | src/linalg.rs:47-84 | a step that succeeds leaves the finished rows alone, and its pivot passes the singularity test |
| LUDecomposition.TooSmallIffColumnSmall | src/linalg.rs:47-61 | the largest magnitude found fails the test exactly when every candidate in the column does |
| LUDecomposition.StepFailsIff | src/linalg.rs:47-61 | step i returns the error exactly when no entry of column i at or below the diagonal passes the test |
| LUDecomposition.RunStaysErr | src/linalg.rs:59-61 | the `return Err` ends the decomposition: later steps do not run |
| LUDecomposition.ExchangeKeeps | src/linalg.rs:63-75 | exchanging two unfinished rows keeps p a permutation and keeps the rebuilt matrix equal to the input with its rows in the order p |
| LUDecomposition.EliminateKeeps | src/linalg.rs:77-83 | the elimination of column i moves it into the finished part and keeps the rebuilt matrix equal to the row-permuted input |
| LUDecomposition.StartPartial | src/linalg.rs:38-45 | the start (the input, p the identity, p_count = n) satisfies the invariant of the decomposition before any step |
| LUDecomposition.StepKeepsPartial | src/linalg.rs:47-84 | a step that succeeds carries the invariant one column further |
| LUDecomposition.Factors | src/linalg.rs:37-91 | a decomposition that finishes has a nonzero diagonal, and its unit lower triangle times its upper triangle is the input with its rows in the order p |
| LUDecomposition.RunTest | src/linalg.rs:312-316 | [[4,3],[6,3]] decomposes with one exchange into L = [[1,0],[2/3,1]], U = [[6,3],[0,1]], p = [1,0] |
| LUDecomposition.TooSmall | src/linalg.rs:59-61 | the pivot test that ends the decomposition with an error; LUDecomposition.UsablePivot states a pivot that passes it is non-zero and LUDecomposition.TooSmallIffColumnSmall that it fails exactly when the whole column is small |
| LUDecomposition.Abs | src/linalg.rs:52 | `abs()` on the real part; its ensures states r ≥ 0 and r = ±x, which LUDecomposition.UsablePivot relies on |
| LUDecomposition.FirstLargest | src/linalg.rs:48-57 | row k is the first of rows i..m−1 with the largest magnitude a[k][i], as the strict `>` search picks it; LUDecomposition.FirstLargestUnique states there is only one such row and LUDecomposition.PivotRow that the search finds it |
| LUDecomposition.Magnitude | src/linalg.rs:52-53 | the magnitude of a[q][i], the quantity the pivot search compares; LUDecomposition.TooSmallIffColumnSmall states the search's maximum through it |
| LUDecomposition.Exchanged | src/linalg.rs:63-75 | rows i and imax exchanged in the matrix and in p, and p_count incremented, when they differ; LUDecomposition.ExchangeKeeps states p stays a permutation and the packed factors still rebuild the permuted input |
| LUDecomposition.Multiplier | src/linalg.rs:78 | a[r][i]/a[i][i], the multiplier stored below the diagonal; LUDecomposition.PivotCancels states subtracting its multiple of row i zeroes the column |
| LUDecomposition.Eliminate | src/linalg.rs:77-83 | the elimination of column i; LUDecomposition.EliminateAt states every entry, LUDecomposition.EliminateKeepsRows that rows up to i are untouched and LUDecomposition.EliminateKeeps that the packed factors still rebuild the permuted input |
| LUDecomposition.Step | src/linalg.rs:47-84 | step i of `new`: search, fail on a too small pivot, exchange, eliminate; LUDecomposition.StepFailsIff states it fails exactly when the column is small, LUDecomposition.StepPermutes that p stays a permutation and LUDecomposition.StepKeepsPartial that it keeps the decomposition invariant |
| LUDecomposition.Iota | src/linalg.rs:43-45 | the identity permutation p starts as; LUDecomposition.StartPartial states the invariant holds at the start with it |
| LUDecomposition.IsPermutation | src/linalg.rs:63-66 | p takes each of 0..n−1 exactly once; LUDecomposition.SwapPermutes and LUDecomposition.StepPermutes state every step keeps it |
| LUDecomposition.Pivoted | src/linalg.rs:47-61 | the first k pivots passed the test; LUDecomposition.Factors states the pivots of a finished decomposition are non-zero through it |
| LUDecomposition.ColumnSmall | src/linalg.rs:47-61 | every magnitude of a[q][i] for q ≥ i fails the pivot test; LUDecomposition.StepFailsIff states step i fails exactly then |
| LUDecomposition.Prod | src/linalg.rs:77-83 | Σ_{k<m} a[r][k]·a[k][c], a partial product of the packed factors; LUDecomposition.Factors states the full product is L·U |
| LUDecomposition.Min | src/linalg.rs:77-83 | the smaller of two indices, bounding the sum in LUDecomposition.Rebuilt |
| LUDecomposition.Rebuilt | src/linalg.rs:77-83 | entry (r, c) of L·U rebuilt from the packed matrix after i steps; LUDecomposition.ExchangeKeeps and LUDecomposition.EliminateKeeps state each step keeps it equal to the permuted input |
| LUDecomposition.Reconstructs | src/linalg.rs:63-83 | the packed factors after i steps rebuild the permuted input; LUDecomposition.ExchangeKeeps and LUDecomposition.EliminateKeeps state the steps keep it |
| LUDecomposition.Lower | src/linalg.rs:77-83 | the unit lower triangle L of multipliers; LUDecomposition.Factors states L·U = P·A |
| LUDecomposition.Upper | src/linalg.rs:77-83 | the upper triangle U of the packed matrix; LUDecomposition.Factors states L·U = P·A and LinAlg.UpperSolved that back substitution solves U·x = y |
| LUDecomposition.Permuted | src/linalg.rs:63-75 | the input with its rows taken in the order p; LUDecomposition.Factors states it equals L·U |
| LUDecomposition.Partial | src/linalg.rs:37-91 | after i steps: p a permutation, p_count between n and n + i, pivots passed and the factors rebuilding the permuted input; LUDecomposition.StartPartial and LUDecomposition.StepKeepsPartial state it holds and is kept, and LUDecomposition.Factors what it gives at the end |
| LUDecomposition.Run | src/linalg.rs:37-91 | `new` as the first i steps from the identity permutation, stopping at the first error; LUDecomposition.RunStaysErr states an error is final and LUDecomposition.RunTest the result on a small matrix |
| LinAlg.FindPivot | src/linalg.rs:48-57 | the search loop returns the pivot row and its magnitude |
| LinAlg.ExchangeRows | src/linalg.rs:68-72 | the exchange loop swaps rows i and imax of the array |
| LinAlg.EliminateRow | src/linalg.rs:77-83 | one pass of the inner loops writes row j of the eliminated matrix from column i on and changes nothing else |
| LinAlg.EliminateColumn | src/linalg.rs:77-83 | the elimination loops turn the array into the eliminated matrix |
| LinAlg.DecomposeStep | src/linalg.rs:47-84 | one pass of the outer loop fails exactly when the step fails, and otherwise leaves the array, p and p_count of the step's result |
| LinAlg.New | src/linalg.rs:37-91 | `new` returns the result of running every step; on success the array holds the packed factors of a finished decomposition, on failure some column had no usable pivot |
| LinAlg.SubtractRow | src/linalg.rs:101-109 | the inner loop subtracts Σ a[i][k]·x[k] over its range from x[i] and changes no other entry |
| LinAlg.ForwardSubstitute | src/linalg.rs:98-104 | the forward pass solves L·y = P·b |
| LinAlg.BackSubstitute | src/linalg.rs:106-112 | the backward pass from y satisfies every row of U·x = y |
| LinAlg.BackRow | src/linalg.rs:106-112 | a row that the backward pass solved holds in U·x = y |
| LinAlg.UpperSolved | src/linalg.rs:106-112 | the result of the backward pass solves U·x = y |
| LinAlg.RowSolved | src/linalg.rs:93-115 | with P·A = L·U, L·y = P·b and U·x = y, row p[r] of A·x = b holds |
| LinAlg.Solution | src/linalg.rs:93-115 | the result of both passes solves A·x = b |
| LinAlg.Solve | src/linalg.rs:93-115 | `solve` returns x with A·x = b for the matrix the decomposition was made from |
| LinAlg.Inverse | src/linalg.rs:131-154 | `inverse` returns a matrix whose columns solve A·x = e_j, so that A times it is the identity |
| LinAlg.DiagProduct | src/linalg.rs:122 | the product of the diagonal is zero exactly when a diagonal entry is |
| LinAlg.Determinant | src/linalg.rs:117-129 | whatever sign the parity of p_count − n gives it, the determinant is zero exactly when a diagonal entry is; Cofactor.DeterminantIsDet proves it is the determinant of the input |
| Cofactor.Det2 | src/linalg.rs:117-129 | the reference determinant of a 2×2 matrix is a·d − c·b |
| Cofactor.DetLinear | src/linalg.rs:77-83 | the reference determinant is linear in each row: when row k of c is a[k] + t·b[k] and the other rows agree, det c = det a + t·det b |
| Cofactor.DetSwap | src/linalg.rs:65-75 | exchanging two rows, as `new` does with rows i and imax, negates the determinant |
| Cofactor.DetEqualRows | src/linalg.rs:65-75 | a matrix with two equal rows has determinant zero |
| Cofactor.DetRowOperation | src/linalg.rs:77-83 | subtracting a multiple of the pivot row from another row keeps the determinant |
| Cofactor.DetEliminated | src/linalg.rs:77-83 | eliminating column i below the pivot keeps the determinant |
| Cofactor.DetUpper | src/linalg.rs:117-122 | an upper triangular matrix has the product of its diagonal as determinant |
| Cofactor.WorkingExchange | src/linalg.rs:65-75 | the exchange of step i exchanges the same two rows of the partly reduced matrix |
| Cofactor.WorkingEliminate | src/linalg.rs:77-83 | the elimination of step i subtracts each row's multiplier times the pivot row from the partly reduced matrix |
| Cofactor.ExchangeDet | src/linalg.rs:63-75 | the exchange of step i negates the determinant of the partly reduced matrix exactly when it adds one to p_count, so the invariant still holds |
| Cofactor.EliminateDet | src/linalg.rs:77-83 | the elimination of step i keeps the determinant of the partly reduced matrix and p_count, so the invariant moves on to i + 1 steps |
| Cofactor.WorkingEliminateAt | src/linalg.rs:80-82 | below the pivot row, every entry after the elimination is the old entry minus the row's multiplier times the pivot-row entry, zero in the pivot column |
| Cofactor.RunStepDet | src/linalg.rs:37-84 | one more pass of the outer loop keeps the determinant invariant |
| Cofactor.StepDet | src/linalg.rs:47-84 | a step that succeeds negates the determinant of the partly reduced matrix exactly when it adds one to p_count |
| Cofactor.RunDet | src/linalg.rs:37-92 | after i steps the partly reduced matrix has the input's determinant, negated when p_count − n is odd |
| Cofactor.Finished | src/linalg.rs:117-129 | after all steps `determinant` is that signed determinant undone: the diagonal product, negated for odd p_count − n |
| Cofactor.DeterminantIsDet | src/linalg.rs:117-129 | for every input on which `new` succeeds, `determinant` equals the cofactor-expansion determinant of the input |
| Cofactor.DeterminantTest | src/linalg.rs:316 | [[4,3],[6,3]] has determinant −6, and `determinant` of its decomposition is −6 |
| Cofactor.Weighted | src/linalg.rs:117-129 | (−1)^r·x·d, the signed term of row r in the cofactor expansion, the reference determinant against which Cofactor.DeterminantIsDet states `determinant` |
| Cofactor.Minor | src/linalg.rs:117-129 | the (n−1)×(n−1) matrix left after deleting row r and the first column; its ensures states its shape |
| Cofactor.Det | src/linalg.rs:117-129 | the determinant by cofactor expansion along the first column; Cofactor.Det2, DetLinear, DetSwap, DetEqualRows, DetRowOperation and DetUpper state the properties `determinant` relies on |
| Cofactor.Expansion | src/linalg.rs:117-129 | the first m terms of the expansion; Cofactor.Det equals it at m = n |
| Cofactor.Term | src/linalg.rs:117-129 | the r-th term (−1)^r·a[r][0]·det(minor r) of the expansion |
| Cofactor.RowCombination | src/linalg.rs:77-83 | c agrees with a and b outside row k and has row k = a[k] + t·b[k]; Cofactor.DetLinear states the determinant is linear in that row |
| Cofactor.RowMinus | src/linalg.rs:80-82 | row r minus m times row i, the row update of the elimination; Cofactor.DetRowOperation states it keeps the determinant |
| Cofactor.Partway | src/linalg.rs:77-83 | the matrix with some rows already eliminated; its ensures states its shape |
| Cofactor.BelowEliminated | src/linalg.rs:77-83 | every row below i has lost its multiple of row i; Cofactor.DetEliminated states the determinant is unchanged |
| Cofactor.UpperTriangular | src/linalg.rs:117-122 | zeros below the diagonal; Cofactor.DetUpper states the determinant is then the product of the diagonal, which `determinant` multiplies |
| Cofactor.Working | src/linalg.rs:65-83 | the matrix the elimination has reached after i steps; Cofactor.WorkingExchange and Cofactor.WorkingEliminate state how a step changes it |
| Cofactor.Signed | src/linalg.rs:123-127 | the value negated when the exchange count is odd, as `determinant` negates for an odd p_count − n |
| Cofactor.DetInvariant | src/linalg.rs:37-92 | the determinant is kept up to the sign of the exchanges; Cofactor.StepDet, Cofactor.RunDet and Cofactor.Finished state it holds at every step and gives `determinant` at the end |
| LinAlg.DeterminantNonzero | src/linalg.rs:117-129 | a decomposition that `new` returns has a nonzero determinant |
| LinAlg.DeterminantTest | src/linalg.rs:316 | the determinant of [[4,3],[6,3]] is −6 |
| LinAlg.SolveTest | src/linalg.rs:317 | `solve` on that matrix with b = [10, 12] can only give [1, 2] |
| LinAlg.InverseTest | src/linalg.rs:318-321 | `inverse` of that matrix times the determinant −6 is [[3,−3],[−6,4]] |
| LinAlg.Sum | src/linalg.rs:101-109 | Σ_{lo ≤ k < hi} u[k]·v[k], accumulated front to back as the substitution loops subtract; LinAlg.SubtractRow states the loops subtract exactly it |
| LinAlg.Combined | src/linalg.rs:106-112 | z = v + t·w on [lo, hi), the row combination of the substitution loops; LinAlg.SumLinear states Σ l·z = Σ l·v + t·Σ l·w for it and LinAlg.ApplyStep that one more column of an applied matrix is such a combination |
| LinAlg.Apply | src/linalg.rs:106-112 | the first hi columns of b applied to x; LinAlg.UpperSolved states U·x = y after back substitution and LinAlg.RowSolved the rows of A·x = b |
| LinAlg.ForwardSolved | src/linalg.rs:98-104 | rows 0..m−1 of L·y = P·b; LinAlg.ForwardSubstitute states the loop establishes it and LinAlg.Solution that with the back substitution it solves A·x = b |
| LinAlg.BackSolved | src/linalg.rs:106-112 | rows m..n−1 of U·x = y; LinAlg.BackSubstitute states the loop establishes it and LinAlg.UpperSolved that it means U·x = y |
| LinAlg.UnitVector | src/linalg.rs:138 | the unit vector e_j, the right-hand side `inverse` sets up column by column; LinAlg.Inverse states each column of the result solves A·x = e_j |
| JacobiRotation.Theta | src/linalg.rs:227 | θ = h·0.5/a_pq satisfies 2θ·a_pq = h |
| JacobiRotation.Tangent | src/linalg.rs:228-232 | t = sign(θ)/(\|θ\| + √(θ² + 1)) is a root of t² + 2θt − 1 = 0 |
| JacobiRotation.Cosine | src/linalg.rs:235 | c = 1/√(t² + 1) is positive with c²(1 + t²) = 1 |
| JacobiRotation.FromTangent | src/linalg.rs:235-237 | c, s = t·c and tau = s/(c + 1) form a rotation (c > 0, c² + s² = 1) with tangent t |
| JacobiRotation.MakeRotation | src/linalg.rs:221-237 | the rotation computed from a_pq and h = d[q] − d[p] is a rotation whose tangent solves t² + 2θt − 1 = 0 |
| JacobiRotation.Givens | src/linalg.rs:247-273 | the updates g − s(h + g·tau) and h + s(g − h·tau) are the plane rotation c·g − s·h, s·g + c·h |
| JacobiRotation.RotationKeepsInner | src/linalg.rs:247-273 | rotating two pairs by the same rotation keeps their inner product |
| JacobiRotation.BlockRotation | src/linalg.rs:221-245 | the rotation annihilates the off-diagonal entry of the 2×2 block at (p, q), and its diagonal becomes d[p] − t·a_pq and d[q] + t·a_pq, the updates of d |
| JacobiRotation.RotateRow | src/linalg.rs:268-273 | one row of v with entries p and q rotated, the rest unchanged |
| JacobiRotation.RotateRowKeepsInner | src/linalg.rs:268-273 | rotating entries p and q of two rows keeps their inner product |
| JacobiRotation.SwapEntries | src/linalg.rs:293-297 | entries i and j exchanged, the rest unchanged |
| JacobiRotation.SwapKeepsInner | src/linalg.rs:295-297 | exchanging the same two entries of two rows keeps their inner product |
| JacobiRotation.SwapKeepsSum | src/linalg.rs:293 | exchanging two eigenvalues keeps their sum |
| JacobiRotation.RotLow | src/linalg.rs:250 | g − s·(h + g·tau), the first update of a rotated pair; JacobiRotation.Givens states it is c·g − s·h and JacobiRotation.RotationKeepsInner that the pair's inner products are kept |
| JacobiRotation.RotHigh | src/linalg.rs:251 | h + s·(g − h·tau), the second update of a rotated pair; JacobiRotation.Givens states it is s·g + c·h |
| JacobiRotation.IsRotation | src/linalg.rs:228-237 | a rotation with tangent t: c > 0, s = t·c, c² + s² = 1 and tau = s/(1 + c); JacobiRotation.MakeRotation and JacobiRotation.FromTangent state the computed c, s and tau satisfy it |
| Jacobi.Diagonal | src/linalg.rs:194 | d starts as the diagonal of a |
| Jacobi.OffSquaresZero | src/linalg.rs:200-205 | the sum of squares above the diagonal is nonnegative, and zero exactly when every entry above the diagonal is |
| Jacobi.Threshold | src/linalg.rs:199-206 | the loops compute thresh = √(Σ_{i<j} a[i][j]²)/n |
| Jacobi.ThresholdZero | src/linalg.rs:206-210 | the threshold is nonnegative, and zero (the `break`) exactly when the upper triangle is zero |
| Jacobi.Rotated | src/linalg.rs:245-266 | the upper triangle after the rotation of pair (p, q), entry by entry |
| Jacobi.RotatedSymmetric | src/linalg.rs:245-266 | the rotation leaves the strict lower triangle alone, zeroes a_pq, rotates the pairs (j, p), (j, q) read from the upper triangle and leaves every entry outside rows and columns p, q alone |
| Jacobi.RotatedKeepsPairSquares | src/linalg.rs:247-266 | for every other row j, (j, p)² + (j, q)² is unchanged |
| Jacobi.RotateUpper | src/linalg.rs:245-266 | the three loops over j < p, p < j < q and j > q turn the array into the rotated upper triangle |
| Jacobi.RotateAbove | src/linalg.rs:247-252 | after the loop over the rows j < p, entries (j, p) and (j, q) are rotated and every other entry is as before |
| Jacobi.RotateBetween | src/linalg.rs:254-259 | after the loop over p < j < q, entries (p, j) and (j, q) are rotated as well, and nothing else is written |
| Jacobi.RotateRight | src/linalg.rs:261-266 | after the loop over the columns j > q, the strict upper triangle is the rotated one and the diagonal and lower triangle are unchanged |
| Jacobi.RotatedRows | src/linalg.rs:268-273 | columns p and q of v rotated in every row |
| Jacobi.IdentityOrthonormal | src/linalg.rs:193 | v starts with orthonormal rows |
| Jacobi.RotationKeepsOrthonormal | src/linalg.rs:268-273 | a rotation keeps the rows of v orthonormal |
| Jacobi.RotateColumns | src/linalg.rs:268-273 | the loop over j rotates columns p and q of v |
| Jacobi.RotationKeepsInv | src/linalg.rs:238-273 | one rotation keeps the invariant: lower triangle of the input, orthonormal rows of v, Σ d = the input's trace, d = bw + zw |
| Jacobi.ShiftPair | src/linalg.rs:240-243 | x[p] −= h and x[q] += h, nothing else changes |
| Jacobi.Rotate | src/linalg.rs:235-273 | the rotation of pair (p, q) updates a, v, d and zw as one rotation step with h = t·a_pq and keeps the invariant |
| Jacobi.Visit | src/linalg.rs:213-274 | one pair of the sweep keeps the invariant; a pair at or above the threshold is rotated with the rotation built from a_pq and d[q] − d[p]; a pair below the threshold leaves everything alone |
| Jacobi.Sweep | src/linalg.rs:212-276 | a sweep over every pair p < q keeps the invariant |
| Jacobi.Flush | src/linalg.rs:278-280 | bw += zw, d = bw and zw = 0; d itself is unchanged and the invariant kept |
| Jacobi.SwappedColumns | src/linalg.rs:295-297 | columns i and j of v exchanged in every row |
| Jacobi.SwapKeepsOrthonormal | src/linalg.rs:295-297 | exchanging two columns keeps the rows of v orthonormal |
| Jacobi.SwapColumns | src/linalg.rs:295-297 | the loop `v.swap((l, m), (l, k))` exchanges columns k and m of v |
| Jacobi.SwapTracks | src/linalg.rs:292-298 | exchanging eigenvalues k and m and the columns of v keeps each eigenvalue with its column, keeps Σ d and keeps v orthonormal |
| Jacobi.SelectKeepsSorted | src/linalg.rs:283-299 | moving the smallest entry of d[k..] to position k puts one more entry in order |
| Jacobi.SmallestFrom | src/linalg.rs:284-290 | the inner loop finds the first position of the smallest entry of d[k..] |
| Jacobi.SwapPair | src/linalg.rs:292-298 | `d.swap_rows(m, k)` and the column exchange in v |
| Jacobi.SelectStep | src/linalg.rs:283-299 | one pass of the outer loop extends the sorted prefix by one and keeps each eigenvalue with its column |
| Jacobi.SortEigenpairs | src/linalg.rs:283-299 | the selection sort leaves d ascending, each eigenvalue with its column of v, Σ d unchanged and v orthonormal if it was |
| Jacobi.Start | src/linalg.rs:193-197 | v = I, d = bw = the diagonal of a, zw = 0, a state that satisfies the invariant |
| Jacobi.NewIdentity | src/linalg.rs:193 | a fresh n×n identity |
| Jacobi.DiagonalOf | src/linalg.rs:194 | a fresh array holding the diagonal of a |
| Jacobi.CopyOf | src/linalg.rs:196 | a fresh copy of d |
| Jacobi.StartInv | src/linalg.rs:193-197 | the starting state satisfies the invariant |
| Jacobi.Iterate | src/linalg.rs:199-281 | the loop over it_num keeps the invariant, runs at most max_iter sweeps and stops early only when the upper triangle is zero; a diagonal input takes no sweep and changes nothing |
| Jacobi.JacobiEigenvalue | src/linalg.rs:183-302 | the eigenvalues come out ascending with the trace of a as their sum, v has orthonormal rows, the lower triangle of a is untouched, stopping before max_iter means a was brought to diagonal form, and a diagonal input returns its diagonal sorted with the matching permutation of the identity |
| Jacobi.Shift | src/linalg.rs:238-243 | h = t·a_pq, what d[p] and zw[p] lose and d[q] and zw[q] gain; Jacobi.Rotate states the rotation returns it and Jacobi.RotationKeepsInv that moving any h from d[p], zw[p] to d[q], zw[q] keeps Σ d and d = bw + zw |
| Jacobi.Up | src/linalg.rs:245-266 | entry (i, k) of the symmetric matrix the upper triangle of a stands for, the only triangle the sweeps read and write; Jacobi.RotatedSymmetric states a rotation acts on it as a symmetric rotation |
| Jacobi.UpperZero | src/linalg.rs:206-210 | every entry above the diagonal is zero, the state in which the threshold is zero; Jacobi.ThresholdZero states the loop stops exactly then |
| Jacobi.SameLower | src/linalg.rs:245-266 | the diagonal and the lower triangle are untouched, as the sweeps only write above the diagonal; Jacobi.RotationKeepsInv states every rotation keeps it |
| Jacobi.Trace | src/linalg.rs:194 | Σ a[i][i], what d starts as the diagonal of; Jacobi.JacobiEigenvalue states the returned eigenvalues keep this sum |
| Jacobi.ColumnSquares | src/linalg.rs:202-204 | the squares of column k above row hi, the inner loop of the threshold; Jacobi.Threshold states the loop computes the sum through it |
| Jacobi.OffSquares | src/linalg.rs:200-205 | the sum of squares above the diagonal; Jacobi.OffSquaresZero states it is zero exactly when the upper triangle is, and Jacobi.Threshold that `thresh` is its square root over n |
| Jacobi.RotatedEntry | src/linalg.rs:245-266 | entry (i, k) after the rotation in the (p, q) plane: a[p][q] zeroed and the pairs of rows and columns p and q rotated; Jacobi.Rotated and Jacobi.RotateUpper state the three loops produce exactly it |
| Jacobi.Orthonormal | src/linalg.rs:268-273 | the rows of v are orthonormal; Jacobi.IdentityOrthonormal, Jacobi.RotationKeepsOrthonormal and Jacobi.SwapKeepsOrthonormal state it holds at the start and after every rotation and swap |
| Jacobi.Inv | src/linalg.rs:199-281 | what the sweeps keep: the lower triangle, orthonormal rows of v, Σ d equal to the trace and d = bw + zw; Jacobi.StartInv, Jacobi.RotationKeepsInv and Jacobi.Flush state it holds at the start and is kept |
| Jacobi.RotationStep | src/linalg.rs:235-273 | the new d, zw, upper triangle and v of one rotation; Jacobi.Rotate states the method performs it and Jacobi.RotationKeepsInv that it keeps the sweep invariant |
| Jacobi.Tracks | src/linalg.rs:283-299 | d and the columns of v are those of the input in the order perm; Jacobi.SwapTracks states a swap keeps it and Jacobi.SortEigenpairs that the sort ends with it |
| Jacobi.SortedUpTo | src/linalg.rs:283-299 | the first k entries of d are each at most every later entry; Jacobi.SelectKeepsSorted states each selection step extends it and Jacobi.SortEigenpairs that the sort ends fully sorted |
| Jacobi.Sorting | src/linalg.rs:283-299 | what the selection sort keeps after k steps; Jacobi.SelectStep states every step keeps it and Jacobi.SortEigenpairs what follows at the end |
| SmallestEv.SmallerRootIsEigenvalue | src/linalg.rs:171-172 | λ = (a + c − √((a − c)² + 4b²))/2 is a root of (λ − a)(λ − c) = b², and the smaller of the two |
| SmallestEv.SmallerRootDiagonal | src/linalg.rs:171-172 | with b = 0 the closed form gives min(a, c) |
| SmallestEv.Pair2AsWrittenNaN | src/linalg.rs:173-174 | the normalisation divides by zero exactly when b = 0 and a ≤ c |
| SmallestEv.Pair2AsWrittenDiagonalInput | src/linalg.rs:169-175 | on [[1, 0], [0, 2]] the 2×2 branch as written divides zero by zero |
| SmallestEv.ClosedFormIsEigenpair | src/linalg.rs:169-175 | wherever the division is defined, the closed form returns a unit eigenvector of the smaller eigenvalue |
| SmallestEv.Pair2 | src/linalg.rs:169-175 | the corrected 2×2 branch agrees with the closed form wherever that is defined |
| SmallestEv.Pair2IsEigenpair | src/linalg.rs:169-175 | the corrected 2×2 branch returns a unit eigenvector of the smaller eigenvalue on every input |
| SmallestEv.Normalised | src/linalg.rs:173-174 | dividing [b, λ − a] by its length gives a unit eigenvector |
| SmallestEv.CopyMatrix | src/linalg.rs:160 | `a` is taken by value: the Jacobi branch works on a copy |
| SmallestEv.JacobiSmallest | src/linalg.rs:176-179 | for n ≥ 3, the first of the eigenvalues the Jacobi algorithm returns on a copy with 200 sweeps; they are ascending, so it is the smallest, and they sum to the trace |
| SmallestEv.SmallestEv | src/linalg.rs:159-180 | n = 1 gives (a₀₀, [1]); n = 2 gives a unit eigenvector of the smaller eigenvalue, the closed form's own result wherever it is defined; n ≥ 3 gives the first of the eigenvalues the Jacobi algorithm returns, which are ascending with the trace as their sum |
| SmallestEv.SmallerRoot | src/linalg.rs:171-172 | the smaller root of (λ − a)(λ − c) = b²; SmallestEv.SmallerRootIsEigenvalue states it is an eigenvalue of [[a, b], [b, c]] and SmallestEv.SmallerRootDiagonal its value for a diagonal matrix |
| SmallestEv.Pair2AsWritten | src/linalg.rs:169-175 | the 2×2 branch as written, u = [b, λ − a]/‖[b, λ − a]‖; SmallestEv.Pair2AsWrittenNaN states the division by zero (NaN, modelled as no result) happens exactly when b = 0 and a ≤ c, and SmallestEv.Pair2AsWrittenDiagonalInput exhibits one such input |
| SmallestEv.Eigenpair2 | src/linalg.rs:159-180 | (λ, u) is an eigenpair of [[a, b], [b, c]] with u of unit length; SmallestEv.Pair2IsEigenpair and SmallestEv.ClosedFormIsEigenpair state the 2×2 branches return one |
| Norm.SumSquaresZero | src/static_mat.rs:104-111 | the sum of squares is nonnegative and zero exactly for the zero vector |
| Norm.Euclidean | src/static_mat.rs:104-111 | `norm` is nonnegative, its square is the sum of squares, and it is zero exactly for the zero vector |
| Norm.SumSquaresScale | src/static_mat.rs:104-111 | scaling the entries by c scales the sum of squares by c² |
| Norm.EuclideanScale | src/static_mat.rs:104-111 | ‖c·v‖ = \|c\|·‖v‖ |
| Norm.EuclideanExample | src/linalg.rs:396-399 | ‖[3, 4]‖ = 5 |
| Norm.NormSumsEntries | src/linalg/mod.rs:151-153 | the `norm` of src/linalg/mod.rs adds the entries: 7 on [3, 4] where the Euclidean norm is 5, and 0 on the nonzero [1, −1] |
| Norm.SumSquares | src/static_mat.rs:104-111 | the fold acc + x² from zero; Norm.SumSquaresZero states it is zero exactly for the zero vector and Norm.SumSquaresScale how scaling changes it |
| Norm.ScaleVec | src/static_mat.rs:104-111 | every entry times c; Norm.SumSquaresScale states the sum of squares scales by c² and Norm.EuclideanScale that the norm scales by the magnitude of c |
| Roots.SqrtOfSquare | src/static_mat.rs:104-111 | the square root taken as a parameter gives √(x²) = x for x ≥ 0 |
| Roots.SqrtZero | src/static_mat.rs:104-111 | √x is zero exactly for x = 0 |
| Roots.Square | src/static_mat.rs:109 | `powi(2)` is nonnegative and zero only at zero |
| Roots.IsSqrt | src/static_mat.rs:109 | what the code needs of the square root it calls: a nonnegative root of every nonnegative number; Roots.SqrtOfSquare and Roots.SqrtZero state √(x²) = x for x ≥ 0 and √x = 0 exactly when x = 0 for any such function |
| Roots.Product | src/linalg.rs:169-175 | x·y; its ensures states it is positive when both factors share a strict sign and zero when either factor is zero |
| Bessel.Polevl | src/bessel.rs:182-186 | `polevl` by Horner's rule is the polynomial Σ coef[k]·x^(m−1−k) |
| Bessel.P1evl | src/bessel.rs:188-190 | `p1evl` is `polevl` with a leading coefficient 1 prepended |
| Bessel.HornerIsPoly | src/bessel.rs:182-190 | the Horner fold from acc is acc·x^m plus the polynomial of the remaining coefficients |
| Bessel.HornerPositive | src/bessel.rs:182-190 | positive coefficients give a positive value at x ≥ 0, so the denominators never vanish |
| Bessel.PolevlPositive | src/bessel.rs:182-186 | `polevl` of a positive table is positive at x ≥ 0 |
| Bessel.P1evlPositive | src/bessel.rs:188-190 | `p1evl` of a positive table is positive at x ≥ 0 |
| Bessel.J0 | src/bessel.rs:9-30 | `bessel_j0` below \|x\| = 10⁻⁵ is 1 − x²/4 |
| Bessel.J0Magnitude | src/bessel.rs:14-29 | on the magnitude, below 10⁻⁵ the value is 1 − y²/4 |
| Bessel.J1 | src/bessel.rs:33-50 | `bessel_j1` vanishes at zero |
| Bessel.J2 | src/bessel.rs:53-59 | `bessel_j2` is zero at zero and 2·J1(x)/x − J0(x) elsewhere |
| Bessel.J0Even | src/bessel.rs:9-12 | J0(−x) = J0(x) |
| Bessel.J1Odd | src/bessel.rs:33-50 | J1(−x) = −J1(x) |
| Bessel.J2Even | src/bessel.rs:53-59 | J2(−x) = J2(x) |
| Bessel.RecurrenceOdd | src/bessel.rs:53-59 | the recurrence is even in x when J1 is odd and J0 even |
| Bessel.Horner | src/bessel.rs:182-190 | the left fold acc·x + c over a coefficient table; Bessel.HornerIsPoly states that from an accumulator acc it is acc·x to the power of the table length plus the polynomial with those coefficients, and Bessel.HornerPositive that it stays positive on positive tables at x >= 0 |
| Bessel.Poly | src/bessel.rs:182-186 | the polynomial with the leading coefficient first, the reference for `polevl` and `p1evl` (Bessel.Polevl, Bessel.P1evl, Bessel.HornerIsPoly) |
| Bessel.Positive | src/bessel.rs:73-121 | every coefficient positive, as the denominator tables RQ0, PQ0, QQ0 are; Bessel.PolevlPositive and Bessel.P1evlPositive state that such a denominator never vanishes at x >= 0 |
| Bessel.ValidTables | src/bessel.rs:67-180 | the tables are nonempty and the denominators positive, which Bessel.J0, Bessel.J1 and Bessel.J2 assume to show that no division is by zero |
| Bessel.Asymptotic | src/bessel.rs:21-28 | the large-argument branch (P(w²)·cos(x − φ) − w·Q(w²)·sin(x − φ))·√(2/(πx)) with w = 5/x; Bessel.J0 and Bessel.J1 state that their x > 5 branches are this form with φ = π/4 and 3π/4 |
| Bessel.Abs | src/bessel.rs:10-12 | the magnitude `bessel_j0` branches on and `bessel_j1` takes at line 34; Bessel.J0Even and Bessel.J1Odd state the resulting symmetries |
| Bessel.Signum | src/bessel.rs:48 | the sign that restores an odd J1 on the large-argument branch; Bessel.J1Odd states J1(−x) = −J1(x) |
| Bessel.Recurrence | src/bessel.rs:57 | J2(x) = 2·J1(x)/x − J0(x); Bessel.RecurrenceOdd states that it is even in x when J1 is odd and J0 even |
| Entries.Square | src/datatypes/hyperdual.rs:108 | inv², the square of the divisor's reciprocal in the quotient rules; its ensures states it is nonnegative |
| Entries.Inverse | src/datatypes/hyperdual.rs:107 | 1/b, the divisor's reciprocal in the quotient rules; its ensures states r·b = 1 |
| Entries.Outer | src/datatypes/hyperdual.rs:120-121 | an entry p·q of the outer products the second-order parts form; the Entry lemmas of the vector types state the rules entry by entry through it |
| Entries.OuterWeight | src/datatypes/hyperdual.rs:122 | 2·a·inv³, the weight of the divisor's outer product in the quotient's second-order part |
| Entries.CrossPart | src/datatypes/hyperdual.rs:116-118 | g·a0 + a1·b2 + b1·a2, the second-order terms the product and the quotient share |
| Entries.Combination | src/datatypes/hyperdual.rs:115-122 | h·k − c·l + g·m, the shape of the quotient's second-order part |
| Matrix.Shaped | src/datatypes/derivative.rs:13-19 | a matrix with r rows of c entries, the dimensions a present derivative carries; every Matrix operation's ensures states the shape of its result |
| Matrix.Zeros | src/datatypes/derivative.rs:121-123 | the r×c zero matrix; Derivative.UnwrapGeneric states an absent derivative reads as it |
| Matrix.Unit | src/datatypes/derivative.rs:115-119 | the matrix with one 1 at column-major index k; its ensures states where the 1 is and that every other entry is zero |
| Matrix.Add | src/datatypes/derivative.rs:237-283 | the entrywise sum of two present derivatives; Derivative.AtAdd states `+` on derivatives reads as it entry by entry |
| Matrix.Sub | src/datatypes/derivative.rs:285-331 | the entrywise difference; Derivative.AtSub states `-` on derivatives reads as it entry by entry |
| Matrix.Neg | src/datatypes/derivative.rs:333-353 | every entry negated; Derivative.AtNeg states `-d` reads as it entry by entry |
| Matrix.Scale | src/datatypes/derivative.rs:159-179 | every entry times a scalar; Derivative.AtScale states `d * k` reads as it entry by entry |
| Matrix.DivBy | src/datatypes/derivative.rs:194-214 | every entry divided by a scalar; Derivative.DivBy states `d / k` through it |
| Matrix.Dot | src/static_mat.rs:355-362 | the sum of products of corresponding entries, front to back; StaticMat.DotCommutes states it is symmetric and StaticMat.Dot that the method's loop computes it |
| Matrix.Col | src/static_mat.rs:237-265 | column k of a matrix; LinAlg.ApplyStep states one more column of an applied matrix adds x[k] times it |
| Matrix.MatMul | src/datatypes/derivative.rs:181-192 | the product of an r×n and an n×c matrix; Derivative.AtMatMulOuter states the outer product of derivatives reads as it, StaticMat.MatMul that the loops compute it and StaticMat.TransposeOfProduct that (a·b)ᵀ = bᵀ·aᵀ |
| Matrix.Transpose | src/static_mat.rs:315-329 | the transpose; StaticMat.TransposeInvolution states it is an involution and StaticMat.TransposeOfProduct that (a·b)ᵀ = bᵀ·aᵀ |
| Matrix.TrMul | src/datatypes/derivative.rs:216-235 | aᵀ·b; Derivative.TrMul states `tr_mul` on derivatives is it on the unwrapped matrices and Derivative.AtTrMulRows what its entries read |

## Left out

- The Python bindings (src/python and the build scripts around them): foreign-function glue with no logic of its own.
- src/linalg/linalg_ndarray.rs: it hands the work to LAPACK, code outside the repository.
- src/implicit.rs: Newton iterations whose convergence is a floating-point matter.
- src/lib.rs, src/array.rs, src/macros.rs and the benchmarks: re-exports, array glue and timing code.
- src/datatypes/macros.rs is not part of this model. The sums, differences and Zero/One impls it would give the types under src/datatypes/ are modelled as each type's own functions.
- Serialisation (serde) and every `Display`/`fmt` impl are left out, because they produce text only. This includes the `todo!()` in the dual_size `Display`.
- The nalgebra/simba glue is left out, because it is trait plumbing that forwards to operations the model already has. It covers `SimdValue`, `SubsetOf`/`SupersetOf` and `ComplexField`/`RealField`.
- The `FloatConst` constants, `FromPrimitive`/`ToPrimitive` and `from_str_radix` are left out: they embed a real into the real part or read it back.
- `Index`/`IndexMut` and `iter` on `StaticMat`/`StaticVec` are modelled as sequence indexing, and `StaticMat::scale` as `ApplyScalar` with `*`.
- `Rem`/`RemAssign` are left out. They panic in src/macros2.rs and are a floating-point remainder in `StaticMat`/`StaticVec`, which has no real-number counterpart.
- Every float is a real. NaN, infinities, signed zero, rounding and subnormals are not modelled. −0 is 0, so the `copysign` and `signum` rows see +0 wherever the source could see −0.
  - A division whose divisor has a zero real part is excluded by a requires or answered with `None`.
  - The i32 overflow of the `powi` coefficients (n·(n−1)·(n−2)) is not modelled.
- The transcendental functions (exp, ln, sin, cos, tan, sinh, cosh, tanh, the inverse trigonometric and hyperbolic functions, sqrt and cbrt) enter as parameters: their value and derivative tables are arguments of the chain rule. The chain rule, the tables' algebra and the identities between tables are modelled.
- `sph_j0`, `sph_j1` and `sph_j2` are left out because they are closed forms in sin and cos with a series cut-off. This applies in src/derivatives.rs, src/hd3.rs and src/hd_scal.rs.
- The inverse trigonometric and hyperbolic functions of src/hd_scal.rs are `ApplyFunction` with the derivative values as a parameter. Those of src/hd3.rs are `HD3.ChainRule` with the tables of `Derivatives`.
- The `Sum` and `Product` folds of `HD3` and `HDScal` (src/hd3.rs:913-948, src/hd_scal.rs:1205-1238) are not modelled separately. They are the same fold from zero with `+` and from one with `*` that `Componentwise.EntrySum`/`EntryProduct` states.
- Derivative.DerivativeGeneric: it requires i < r·c. For a larger i, `m[i] = T::one()` (src/datatypes/derivative.rs:117) panics on the out-of-range index; every caller in the library passes an index inside the matrix.
- `Derivative::map` and `map_borrowed` are `Derivative.TryMapBorrowed` with a closure that cannot fail.
- The infallible drivers of `DenseDualVec` are likewise the `try_` ones with a function that cannot fail.
- `partial` and `partial2` in src/explicit.rs are not modelled: they only capture extra arguments in a closure.
- The LU decomposition and the Jacobi algorithm are modelled over real entries only, not over dual entries. The dual-number checks at src/linalg.rs:324-336 (det (−6, −4), x = [(1, 2), (2, 1)]) are therefore not stated.
- Jacobi.JacobiEigenvalue: the model does not prove that the sweeps converge. `max_iter` is a parameter (src/linalg.rs:185; the callers pass 200), and the model proves what holds after at most that many sweeps. It does not prove A·V = V·D either. Rows of V are proved orthonormal, not VᵀV = I over the columns.
- Jacobi: the absorption test `4 < it_num && 10·|a_pq| + |d[p]| == |d[p]| && 10·|a_pq| + |d[q]| == |d[q]|` (src/linalg.rs:214-218) holds over the reals only when a_pq = 0. Jacobi.Visit keeps the branch as written, so it never fires on a nonzero entry.
- The `smallest_ev` of src/linalg/mod.rs is `unimplemented!()` and is not modelled.
- An argument the source takes by value and overwrites, such as the matrix of `smallest_ev` or `jacobi_eigenvalue`, is modelled as a copy taken from the caller's array.
- SmallestEv.SmallestEv: for n ≥ 3 its ensures states that l is the first of the Jacobi eigenvalues, which are sorted and sum to the trace. It does not state that (l, u) is an eigenpair, because the Jacobi model does not prove A·V = V·D.
- LegacyDual.PowI: its requires excludes a zero real part with n < 1, where the source computes 0 to a negative power (an infinity).
- LegacyHyperDual.PowI: its requires excludes a zero real part with n < 2, for the same reason.
- Bessel: the coefficient tables, π/4, 2/π, sin, cos and √ are parameters. Only the real-valued branch is modelled, not the derivatives the dual types attach to it.
- Nested dual numbers (a dual whose entries are duals) are not modelled. Every model type has real entries.
- HDScal.MulDivInverse: for every length it states agreement in the value and the first three derivatives. Entry-for-entry equality is stated only for values with at most four parts (D0..D3). The fourth and fifth derivatives of `Dual4`/`Dual5` values are not covered, because the reference it is proved against is the third-order Dual3 model.
- HDScalFunctions.SqrtSquare: the same bound applies. (√x)² equals x entry for entry only for values with at most four parts; longer values agree up to the third derivative.
- HDScalFunctions.ExpLn: the same bound applies. exp(ln x) equals x entry for entry only for values with at most four parts; longer values agree up to the third derivative.
- StaticMat.First, StaticMat.Last, Jacobi.SortEigenpairs and Jacobi.JacobiEigenvalue require inputs on which the source panics. `first(k)`/`last(k)` need k ≤ n, since a larger k indexes past the end. The Jacobi functions need n ≥ 1, since the sort's `0..n - 1` (src/linalg.rs:283) underflows at n = 0.

## Findings

| source | as written | input that shows it | evidently intended | confidence | as-written member | corrected member |
|---|---|---|---|---|---|---|
| src/hyperdual2.rs:118-121 | the chain rule leaves out the f1·ε1ε2ε3 term of the third mixed part | y = 1 + t·ε1ε2ε3 with t ≠ 0: (1 / y)·y is y, not 1 | the chain rule with f1·ε1ε2ε3, so that (x / y)·y = x | not executed | HyperDual2.DivCounterexample | HyperHyperDual.MulDivInverse |
| src/hd3.rs:396-409 | `powi` computes re^(n−3) and multiplies by it even when re = 0 and n < 3 | `HD3::from(0).derive().powi(2)`: 0^(−1) = ∞ and ∞·0 is NaN | (0, 0, 2, 0), the value tests/test_hd3.rs:185-191 expects | not executed | HD3.PowIAsWrittenAtZero | HD3.PowI |
| src/hd_scal.rs:547-557 | `powi` forms 1/re and multiplies by it, so re = 0 divides by zero | (0, 1, 0).powi(2): f1 = 2·0·∞ is NaN | the derivatives 2·re and 2 of x², that is (0, 0, 2) | not executed | HDScal.PowIAsWrittenAtZero | HDScal.PowIAgrees |
| src/hd_scal.rs:474-501 | `apply_function` returns one entry more than its input | a value with 6 parts gives 7, one more than the type holds: f(x0) is put before the len values of the product | as many parts as the input, the chain rule applied to each | not executed | HDScalFunctions.ApplyFunctionOverlong | HDScalFunctions.ApplyFunctionChainRule |
| src/linalg/mod.rs:151-153 | `norm` folds `acc + x`, the sum of the entries | [3, 4] gives 7 where the norm is 5; [1, −1] gives 0 | the Euclidean norm √Σx², as `StaticVec::norm` computes it | not executed | Norm.NormSumsEntries | Norm.EuclideanScale |
| src/linalg.rs:169-175 | `smallest_ev` of a 2×2 matrix divides the vector [b, l − a] by its length | [[1, 0], [0, 2]]: l = 1, so b = 0 and l − a = 0; the vector (0, 0) has length 0 and both components are 0/0 | a unit eigenvector of the smaller eigenvalue, (1, 0) here | not executed | SmallestEv.Pair2AsWrittenDiagonalInput | SmallestEv.Pair2IsEigenpair |
