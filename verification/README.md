# Curve-fitting kernels, modelled in Dafny

This project models the numerical kernels of a set of small curve-fitting
programs that estimate Indonesian population and internet-usage figures
for missing years:

- **Symbolic Lagrange interpolation** (`no2/no2-interpolasi.c`).
  - Polynomials are dense coefficient buffers of `MAX_DEGREE` = 60 doubles.
  - `multiplyPoly` convolves two buffers and `addPoly` adds them entry by entry.
  - `getPolyDegree` finds the effective degree with a 1e-10 threshold.
  - `buildLagrangeTerm` builds one basis polynomial as a running product of scaled linear factors.
  - `lagrangeInterpolation` sums the basis polynomials, each scaled by its y value.
  - `printPolynomial` renders the result.
- **Cubic least squares** (`no1/nilai_perkiraan.cpp`).
  - `regresiPolinomial` accumulates power sums and fills the 4 x 5 augmented normal matrix.
  - It then solves the matrix by forward elimination without pivoting, followed by back-substitution.
  - `main` evaluates the fitted cubic at a missing year.
- **Simple linear regression** (`no2/no2-regresi.c`). `linear_regression` uses the closed form and falls back to the all-zero line when the denominator is 0.
- **Point-evaluation Lagrange interpolation** (`no3/no3.cpp`). `lagrangeInterpolation` evaluates the product formula directly at an integer target year.

All arithmetic is over Dafny's exact `real`, which stands in for IEEE
`double`. Every buffer and matrix is a `seq`. The loops that fill them are
recursive functions, or methods with loop invariants (the power sums, the
normal matrix, the elimination and the back-substitution).

Modules:

- `Poly` (poly.dfy): coefficient buffers, evaluation, `multiplyPoly`, `addPoly`, `getPolyDegree`.
- `Basis` (basis.dfy): the textbook Lagrange basis product and the interpolating combination. This is the reference definition that both interpolation programs are compared against.
- `Interpolation` (interpolation.dfy): `buildLagrangeTerm` and `lagrangeInterpolation`.
- `PrintPoly` (print_poly.dfy): `printPolynomial` as a token stream, with a reader that recovers the terms from the text.
- `PointLagrange` (point_lagrange.dfy): the point-evaluation `lagrangeInterpolation`.
- `LinearFit` (linear_regression.dfy): `linear_regression`.
- `CubicFit` (cubic_regression.dfy): `regresiPolinomial` and the cubic estimate.

Threshold trimming in the symbolic interpolation is modelled as the code
does it. Before each multiplication, the degree of the running product is
re-scanned with the 1e-10 threshold, and only that many coefficients are
multiplied. The finished product is never re-scanned. The exactness
results therefore assume `Untrimmed`: every partial product that is
re-scanned has a leading coefficient above the threshold. Nothing is
assumed about the finished product's leading coefficient.

A zero pivot or zero diagonal entry makes the C++ divide by zero. The model
reports it as a `Singular` outcome instead.

## Model

| member | source | states |
|---|---|---|
| Poly.MultiplyPoly | no2/no2-interpolasi.c:25-32 | the product buffer has MAX_DEGREE entries and is 0 above degA + degB, because it is cleared before accumulating |
| Poly.MultiplyPolyCoef | no2/no2-interpolasi.c:27-31 | entry k of the product is the sum of a[i] * b[j] over i + j = k, i <= degA, j <= degB |
| Poly.MultiplyPolyExample | no2/no2-interpolasi.c:22-23 | the documented example [1, 2] * [3, 4] = [3, 10, 8] |
| Poly.MultiplyPolyLead | no2/no2-interpolasi.c:27-31 | the entry at degA + degB is a[degA] * b[degB] |
| Poly.MultiplyLinearEval | no2/no2-interpolasi.c:25-32 | multiplying a buffer by a linear factor multiplies their values at every point |
| Poly.AddPoly | no2/no2-interpolasi.c:38-43 | entry i becomes a[i] + b[i] for every i <= max(degA, degB) below MAX_DEGREE; every other entry of the result buffer keeps its previous value |
| Poly.AddScaledEval | no2/no2-interpolasi.c:94-101 | a buffer holding acc + c * p entry by entry evaluates to value(acc) + c * value(p) |
| Poly.GetPolyDegree | no2/no2-interpolasi.c:108-117 | the result is the largest i <= maxDegree with \|poly[i]\| > 1e-10, or 0 when there is none; it lies in [0, maxDegree] |
| Poly.GetPolyDegreeAsWritten | no2/no2-interpolasi.c:108-117 | the same scan over a buffer whose reads past the end yield an arbitrary value |
| Poly.AsWrittenScanLeavesBuffer | no2/no2-interpolasi.c:73 | scanning from index MAX_DEGREE of an all-zero buffer can report degree 60, an index the buffer lacks; the bounded scan reports 0 |
| Basis.BasisDelta | no2/no2-interpolasi.c:45-51 | the basis product L_i over distinct nodes is 1 at x_i and 0 at every other node |
| Basis.LagrangeSumInterpolates | no2/no2-interpolasi.c:78-81 | the combination sum of y_i * L_i takes the value y_k at node x_k |
| Basis.ScaledBasis | no3/no3.cpp:13-18 | a basis product accumulated from the start value s equals s times the product accumulated from 1 |
| Interpolation.LinearTermValue | no2/no2-interpolasi.c:62-70 | the factor buffer evaluates to (t - x_j) / (x_i - x_j) |
| Interpolation.DegreeOfTop | no2/no2-interpolasi.c:73 | the degree scan of the running product finds its top entry when that entry is significant |
| Interpolation.TermStepKeeps | no2/no2-interpolasi.c:59-75 | when this pass's rescan keeps the top entry (above 1e-10), one pass of the loop multiplies the product's value by the factor of node j and its top entry by 1 / (x_i - x_j), one index higher |
| Interpolation.BuildLagrangeTerm | no2/no2-interpolasi.c:52-76 | the basis buffer is 0 above index n - 1; the degree rescan starts at MAX_DEGREE - 1, the corrected form of line 73 (see Findings) |
| Interpolation.TwoNodesUntrimmed | no2/no2-interpolasi.c:59-75 | with two distinct nodes, however far apart, the rescan never trims |
| Interpolation.BuildLagrangeTermValue | no2/no2-interpolasi.c:52-76 | when no rescanned partial product has a leading coefficient at or below 1e-10 (`Untrimmed`), the basis buffer evaluates to the basis product at every point and its entry n - 1 is the product of 1 / (x_i - x_j) |
| Interpolation.BuildLagrangeTermDelta | no2/no2-interpolasi.c:52-76 | under `Untrimmed`, L_i is 1 at x_i and 0 at every x_k with k != i |
| Interpolation.BuildLagrangeTermDegree | no2/no2-interpolasi.c:52-76 | under `Untrimmed`, and when L_i's own leading coefficient is above 1e-10, getPolyDegree reports degree exactly n - 1 |
| Interpolation.AddScaledStepValue | no2/no2-interpolasi.c:94-101 | adding c times a buffer into a cleared buffer over indices 0..n-1 adds c times that buffer's value to the running sum's value |
| Interpolation.SumStepValue | no2/no2-interpolasi.c:88-102 | one pass of the summation loop adds y_i times the value of the basis buffer it built to the running sum's value, whether or not that buffer was trimmed |
| Interpolation.SumStepReference | no2/no2-interpolasi.c:88-102 | when basis polynomial i is built without trimming (`Untrimmed`), one pass takes the running sum from the reference sum over the first i basis products to the one over i + 1 |
| Interpolation.LagrangeInterpolation | no2/no2-interpolasi.c:82-103 | every coefficient above index n - 1 of the result is 0 |
| Interpolation.LagrangeInterpolationValue | no2/no2-interpolasi.c:82-103 | when no basis term's rescan trims (`UntrimmedAll`), the result evaluates to the reference combination sum of y_i * L_i(t) |
| Interpolation.LagrangeInterpolationExact | no2/no2-interpolasi.c:82-103 | under `UntrimmedAll`, with distinct nodes, P(x_k) = y_k for every k |
| PrintPoly.SignOf | no2/no2-interpolasi.c:130-136 | the sign is at most one token; it is "-" or " - " exactly when the coefficient is negative; it is a " + " or " - " separator exactly when the term is not the first |
| PrintPoly.Monomial | no2/no2-interpolasi.c:138-152 | a term is one or two tokens, never a separator, and never the lone "0" |
| PrintPoly.PrintPolynomial | no2/no2-interpolasi.c:122-160 | the text is never empty and never opens with a " + " or " - " separator |
| PrintPoly.PrintDecodeRoundTrip | no2/no2-interpolasi.c:126-153 | reading the printed text back yields exactly the signed coefficients and powers of the shown terms, highest power first |
| PrintPoly.ShownTermsExact | no2/no2-interpolasi.c:126-128 | a term (c, i) is shown exactly when i <= degree, c = poly[i] and \|c\| is not below 1e-10; powers strictly decrease |
| PrintPoly.PrintPolynomialZero | no2/no2-interpolasi.c:155-157 | "0" is printed exactly when every coefficient from degree down to 0 is below 1e-10, and then it is the whole text |
| PrintPoly.PrintExample | no2/no2-interpolasi.c:122-160 | -x^2 + 0.5x - 3 prints as "-", "x^2", " + ", 0.5, "x", " - ", 3.0, the numbers standing for their `%.6f` text |
| PointLagrange.LagrangeAt | no3/no3.cpp:8-23 | with no years the result is 0.0 |
| PointLagrange.LagrangeAtSingle | no3/no3.cpp:12-20 | with one year the result is values[0] for every target |
| PointLagrange.YearFactorIsFactor | no3/no3.cpp:16 | the integer-difference factor equals the basis factor over the years as reals |
| PointLagrange.TermIsScaledBasis | no3/no3.cpp:13-18 | the running term of node i is values[i] times the basis product over the years visited |
| PointLagrange.LagrangeAtIsSum | no3/no3.cpp:8-23 | the result is the reference combination sum of values[i] * L_i(target) |
| PointLagrange.LagrangeAtNode | no3/no3.cpp:8-23 | with distinct years, the result at tahun[k] is values[k] |
| PointLagrange.LagrangeAtScales | no3/no3.cpp:13-19 | scaling every value by c scales the result by c |
| PointLagrange.LagrangeAtAdds | no3/no3.cpp:13-19 | the result for u + w is the result for u plus the result for w |
| PointLagrange.LagrangeAtMatchesSymbolic | no3/no3.cpp:8-23 | when the symbolic construction over the years never trims (`UntrimmedAll`), the result equals the symbolic interpolating polynomial of no2-interpolasi.c evaluated at the target year |
| LinearFit.ClosedForm | no2/no2-regresi.c:18-26 | a zero denominator n * sum(x^2) - (sum x)^2 gives slope 0 and intercept 0 |
| LinearFit.RegressionFallback | no2/no2-regresi.c:18-23 | linear_regression returns the all-zero line when the denominator is 0 |
| LinearFit.NoSamplesFallback | no2/no2-regresi.c:18-26 | with n <= 0 the denominator is 0, so the division by n is never reached |
| LinearFit.DenNonZeroHasSamples | no2/no2-regresi.c:18-26 | a non-zero denominator implies n > 0 |
| LinearFit.ClosedFormNormal | no2/no2-regresi.c:25-26 | the closed-form slope and intercept solve both least-squares normal equations |
| LinearFit.RegressionIsLeastSquares | no2/no2-regresi.c:8-27 | away from the fallback, the fitted line satisfies the normal equations of the samples |
| LinearFit.RegressionThroughMean | no2/no2-regresi.c:26 | away from the fallback, slope * mean(x) + intercept = mean(y) |
| LinearFit.RegressionRecoversLine | no2/no2-regresi.c:8-27 | samples exactly on y = a x + b with x not constant give back slope a and intercept b |
| LinearFit.DenZeroIffConstant | no2/no2-regresi.c:18-19 | the denominator is never negative and is 0 exactly when every visited x is equal |
| CubicFit.AccumulatePowerSums | no1/nilai_perkiraan.cpp:24-31 | after the loop, X[j] = sum of x_i^j for j in 0..6 and Y[j] = sum of y_i * x_i^j for j in 0..3 |
| CubicFit.BuildNormalMatrix | no1/nilai_perkiraan.cpp:34-41 | the loops produce B[i][j] = sum of x_k^(i+j) and B[i][4] = Y[i] |
| CubicFit.NormalSystemFromSums | no1/nilai_perkiraan.cpp:34-39 | B[i][j] = X[i + j] for the power sums X of the accumulation loop |
| CubicFit.NormalSystemRhs | no1/nilai_perkiraan.cpp:40 | B[i][4] = Y[i] |
| CubicFit.NormalSystemSymmetric | no1/nilai_perkiraan.cpp:38 | B[i][j] = B[j][i] |
| CubicFit.RowMinusSolves | no1/nilai_perkiraan.cpp:47-48 | when c satisfies the pivot row, c satisfies row k minus t times the pivot row exactly when it satisfies row k |
| CubicFit.EliminationStepKeepsSolutions | no1/nilai_perkiraan.cpp:45-48 | one row update leaves the set of solutions unchanged |
| CubicFit.PivotColumnStep | no1/nilai_perkiraan.cpp:46-48 | the ratio B[k][i] / B[i][i] clears entry (k, i) and keeps the rows before k cleared |
| CubicFit.ForwardEliminate | no1/nilai_perkiraan.cpp:44-50 | a completed elimination is upper triangular, has exactly the solutions of the input, and divided only by non-zero pivots; a stop names the row whose pivot was 0 at that step, on a matrix that still has the solutions of the input and is cleared below the diagonal in the earlier columns |
| CubicFit.BackSubstitute | no1/nilai_perkiraan.cpp:53-58 | with a non-zero diagonal, the coefficients satisfy B[i][i] c[i] + sum over j > i of B[i][j] c[j] = B[i][4] for every row; a zero diagonal entry is reported |
| CubicFit.TriangularSolves | no1/nilai_perkiraan.cpp:53-58 | row-by-row solutions of an upper-triangular system solve the whole system |
| CubicFit.TriangularUnique | no1/nilai_perkiraan.cpp:53-58 | an upper-triangular system with a non-zero diagonal has at most one solution |
| CubicFit.RegresiPolinomial | no1/nilai_perkiraan.cpp:9-59 | different lengths of x and y are exactly the SizeMismatch outcome; a fitted result solves the normal equations and is their only solution; data lying exactly on a cubic is fitted by that cubic |
| CubicFit.ExactCubicSolvesNormal | no1/nilai_perkiraan.cpp:24-41 | samples lying exactly on a cubic p satisfy the normal equations with p |
| CubicFit.EstimateIsEval | no1/nilai_perkiraan.cpp:88-89 | the missing-year estimate c0 + c1 t + c2 t^2 + c3 t^3 is the value of the fitted polynomial at t |
| CubicFit.ShownPopulation | no1/nilai_perkiraan.cpp:93 | the printed population is the estimate truncated toward zero |

## Left out

- `read_csv_data` in both C files: file reading, tokenising and `atof` are I/O.
- Every `main` function: console output, hard-coded data sets, and `printf`/`setprecision` formatting. This includes the `%.6f` digits inside `printPolynomial`, which the model keeps as an abstract number token.
- The `"P(x) = "` prefix and the closing newline that `printPolynomial` writes: the token stream models only the text between them.
- `Regresi` in `no3/no3.cpp`: the logistic curve needs `exp`, which has no exact-real model.
- `no1/visualisasi.py`: plotting only, with no logic.
- IEEE-754 rounding, overflow to infinity, NaN, and the libm `pow`. All arithmetic is exact, and `pow(x, e)` is repeated multiplication.
- Division by zero. With repeated nodes or years the source divides by zero. The interpolation members therefore require distinct nodes (`Distinct`, `DistinctYears`).
- CubicFit.ForwardEliminate: divides by zero at a zero pivot in the source. In the model it stops with `ZeroPivot` instead.
- CubicFit.BackSubstitute: divides by zero at a zero diagonal entry in the source. In the model it stops with `ZeroDiagonal` instead.
- CubicFit.RegresiPolinomial: `Singular` states only the row where a zero pivot or diagonal entry was met. The model does not characterise which data sets are singular.
- CubicFit.RegresiPolinomial: `SizeMismatch` stands for the early return that leaves `koefisien` unwritten. The uninitialised array that `main` would then print is not modelled.
- Poly.MultiplyPoly: the value of a product (value of a times value of b) is proved only for a linear second factor (`Poly.MultiplyLinearEval`). That is the only product the interpolation forms. The general case is stated coefficient-wise by `Poly.MultiplyPolyCoef`.
- Interpolation.BuildLagrangeTermValue: proved only under `Untrimmed`. When a rescanned partial product has its leading coefficient at or below 1e-10, the source multiplies one coefficient fewer and its buffer is no longer the basis product. The model computes that buffer as the source does but states nothing about its value.
- Interpolation.BuildLagrangeTermDelta: proved only under `Untrimmed`, for the same reason.
- Interpolation.BuildLagrangeTermDegree: also needs L_i's own leading coefficient above 1e-10, since getPolyDegree does not count a smaller one.
- Interpolation.SumStepReference: proved only under `Untrimmed`, since a trimmed basis buffer is not the basis product. `Interpolation.SumStepValue` covers every pass, stated against the buffer actually built.
- Interpolation.LagrangeInterpolationValue: proved only under `UntrimmedAll`, since a trimmed basis term is not the basis product.
- Interpolation.LagrangeInterpolationExact: proved only under `UntrimmedAll`, for the same reason.
- PointLagrange.LagrangeAtMatchesSymbolic: proved only under `UntrimmedAll` of the years. The point evaluation of no3.cpp never trims, so the two can differ once the symbolic construction does.
- Interpolation.BuildLagrangeTerm: requires at most MAX_DEGREE nodes, since the source's buffers hold no more.
- `printPolynomial` skips a coefficient when its magnitude is `< 1e-10`, while `getPolyDegree` keeps one when it is `> 1e-10`. A coefficient of magnitude exactly 1e-10 is printed but does not count for the degree. Both predicates (`Shown`, `Significant`) are modelled as written.
- The X array of `regresiPolinomial` is accumulated but never read by the source, whose matrix loop recomputes each sum. `CubicFit.NormalSystemFromSums` shows that both give the same entries.
- `regresiPolinomial` accumulates each back-substituted coefficient in `koefisien[i]`, while the model uses a local. The values are the same.
- LinearFit.ClosedForm: requires that zero samples come with sum(x) = 0. This holds for every call `linear_regression` makes.
- Integer overflow of `int` year differences (`targetTahun - tahun[j]`, `(long long)` of an out-of-range estimate): years are modelled as unbounded integers.

## Findings

| source | as written | input that shows it | evidently intended | confidence | as-written member | corrected member |
|---|---|---|---|---|---|---|
| no2/no2-interpolasi.c:73 | `getPolyDegree(L, MAX_DEGREE)` starts its scan at index 60 of a 60-entry buffer, so its first read `L[60]` is past the end | any call; when the memory past the 60-entry buffer is non-negligible (say 1.0) and L is all zero, the scan reports degree 60 | scan from index `MAX_DEGREE - 1`, the last entry the buffer has | not executed | Poly.AsWrittenScanLeavesBuffer | Poly.GetPolyDegree |
