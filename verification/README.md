# ComputerTechs 2x2 linear-systems toolkit in Dafny

This project models the exactly-stated arithmetic of the C# `ComputerTechs`
toolkit over Dafny `real` numbers. ComputerTechs computes reachable sets of
2x2 linear systems. The model covers these parts:

- **Matrices** (`matrices.dfy`, `matrix_laws.dfy`). The home-grown `SquareMatrix`
  of size 2: `+`, `*` on matrices and on vectors, `GetTransposed`,
  `GetDeterminant`, `GetInverse` and `IdentityMatrix`, with their algebraic laws.
- **Eigen** (`eigen.dfy`). The closed-form `GetEigenvalues` and `GetEigenvectors`.
- **Accuracy** (`accuracy.dfy`). The tolerance predicate `IsZero` that every "is
  it zero" decision uses.
- **Rank** (`rank.dfy`). The rank classifier `GetRank`.
- **Quadrature** (`quadrature.dfy`). `Boundaries`, the left-rectangle rule
  `RectangleIntegration` and the `Integrate` dispatcher.
- **LinearSystems** (`gauss.dfy`). `Gauss`, the no-pivoting Gauss–Jordan solver on
  an n x (n + 1) augmented array.
- **Support** (`support.dfy`). `SpecificSupportingFunction`, the elementary support
  function of the control set, both as written and corrected.

Outcomes that the C# code signals by an exception or by a NaN or infinity are
`Failure` values of `Outcomes.Result`:

| C# outcome | Dafny outcome |
|---|---|
| `ArgumentException` on an unsupported size | `UnsupportedSize` |
| `IndexOutOfRangeException` | `IndexOutOfRange` |
| NaN or ±∞, from a division by zero or `Math.Sqrt` of a negative number | `NonFinite` |
| `NotImplementedException` | `NotImplemented` |

`Math.Sqrt` is not available over the reals. The eigen functions therefore take
the square root of the discriminant as a parameter `root`. It is constrained to
be the non-negative square root whenever the discriminant is non-negative.

`Gauss` works on a value rather than a mutable array. The caller's array after
the call is returned as `Solution.overwritten`.

`SpecificSupportingFunction` is modelled as the code is written. The code tests
the parabola formula first, over the region |2 psi2| <= psi1. `ElementarySupport`
is a separate, corrected function: the two faces are tested first and the parabola
formula comes last. It is the support function of the control set
U = { u : u1² <= u2 <= 1 }. `ElementarySupportIsAttained` proves that its value is
the score of a point of U, and `ElementarySupportIsUpperBound` proves that no point
of U scores more (see Findings).

The code takes `Math.Sqrt` of the discriminant as it is, with no tolerance, so a
negative discriminant gives NaN (`NonFinite`).

## Model

| member | source | states |
|---|---|---|
| Accuracy.Abs | ComputerTechs/AccuracyHelper.cs:26 | `Math.Abs`: the result is non-negative and is x or -x |
| Accuracy.IsZeroWithinInterval | ComputerTechs/AccuracyHelper.cs:24-27 | `IsZero(x, eps)` holds exactly when -eps <= x <= eps |
| Accuracy.IsZeroDefault | ComputerTechs/AccuracyHelper.cs:13-16 | `IsZero(x)` holds exactly when \|x\| <= 1e-9 |
| Accuracy.IsZeroSymmetric | ComputerTechs/AccuracyHelper.cs:26 | x is zero within eps exactly when -x is |
| Accuracy.IsZeroMonotone | ComputerTechs/AccuracyHelper.cs:26 | zero within eps1 implies zero within every eps2 >= eps1 |
| Accuracy.IsZeroOfZero | ComputerTechs/AccuracyHelper.cs:26 | 0 is zero within every eps >= 0; nothing is zero within a negative eps |
| Matrices.Add | ComputerTechs/SquareMatrix.cs:30-43 | entry (i, j) of the sum is the sum of the entries (i, j) |
| Matrices.Mul | ComputerTechs/SquareMatrix.cs:51-68 | entry (i, j) of the product is the sum over k of m[i, k] * n[k, j] |
| Matrices.MulVec | ComputerTechs/SquareMatrix.cs:76-89 | component i is the sum over j of m[i, j] * v[j] |
| Matrices.Transpose | ComputerTechs/SquareMatrix.cs:190-202 | entry (i, j) of the transpose is entry (j, i) of the matrix |
| Matrices.Identity | ComputerTechs/SquareMatrix.cs:254-265 | ones on the diagonal and zeros off it |
| Matrices.GetDeterminant | ComputerTechs/SquareMatrix.cs:243-248 | succeeds exactly on size 2, with m[0,0] m[1,1] - m[0,1] m[1,0]; other sizes are rejected |
| Matrices.Inverse | ComputerTechs/SquareMatrix.cs:209-219 | fails with a non-finite result exactly when the determinant is 0; otherwise the result is a two-sided inverse, A A⁻¹ = A⁻¹ A = I |
| Matrices.GetInverse | ComputerTechs/SquareMatrix.cs:209-219 | sizes other than 2 are rejected through the determinant; on size 2 any success is a two-sided inverse |
| MatrixLaws.AddCommutative | ComputerTechs/SquareMatrix.cs:30-43 | A + B = B + A |
| MatrixLaws.IdentityIsUnit | ComputerTechs/SquareMatrix.cs:51-89 | I A = A I = A and I v = v |
| MatrixLaws.MulAssociative | ComputerTechs/SquareMatrix.cs:51-68 | (A B) C = A (B C) |
| MatrixLaws.MulVecCompatible | ComputerTechs/SquareMatrix.cs:51-89 | (A B) v = A (B v) |
| MatrixLaws.TransposeInvolution | ComputerTechs/SquareMatrix.cs:190-202 | transposing twice gives the matrix back |
| MatrixLaws.TransposeOfProduct | ComputerTechs/SquareMatrix.cs:190-202 | (A B)ᵀ = Bᵀ Aᵀ |
| MatrixLaws.DetMultiplicative | ComputerTechs/SquareMatrix.cs:243-248 | det(A B) = det A · det B |
| MatrixLaws.DetOfTransposeAndIdentity | ComputerTechs/SquareMatrix.cs:243-248 | det Aᵀ = det A and det I = 1 |
| MatrixLaws.InverseUnique | ComputerTechs/SquareMatrix.cs:209-219 | any left inverse X of A is what `GetInverse` returns |
| Eigen.EigenvaluePair | ComputerTechs/SquareMatrix.cs:147-156 | the larger eigenvalue comes first; the two sum to the trace and multiply to the determinant (Vieta) |
| Eigen.GetEigenvalues | ComputerTechs/SquareMatrix.cs:139-159 | size 0 fails on its first index; size 1 gives its entry; larger sizes are rejected; size 2 succeeds exactly for a non-negative discriminant, giving an ordered pair that satisfies Vieta's relations |
| Eigen.EigenvaluesAreTheRoots | ComputerTechs/SquareMatrix.cs:147-156 | x is a root of the characteristic polynomial exactly when it is one of the two eigenvalues |
| Eigen.EigenvectorFor | ComputerTechs/SquareMatrix.cs:172-180 | fails exactly when a = λ; otherwise the second component is 1 when -b / (a - λ) > 0 and -1 otherwise, the first is \|-b / (a - λ)\|, and the first row of A v = λ v holds |
| Eigen.EigenvectorEquation | ComputerTechs/SquareMatrix.cs:166-183 | for a root λ of the characteristic polynomial, a produced vector is non-zero and satisfies A v = λ v |
| Eigen.GetEigenvectors | ComputerTechs/SquareMatrix.cs:166-183 | sizes 0 and 1 fail on an index and larger sizes are rejected; a negative discriminant makes both vectors fail; otherwise each vector fails exactly when a equals its eigenvalue λ, and is otherwise (\|tmp\|, s) with tmp = -b / (a - λ), s = 1 when tmp > 0 and -1 otherwise, and solves A v = λ v |
| Eigen.EigenvaluesExampleSmall | ComputerTechsTests/SquareMatrixTests.cs:14 | [[1, -3], [-2, 2]] has eigenvalues 4 and -1 |
| Eigen.EigenvaluesExampleLarge | ComputerTechsTests/SquareMatrixTests.cs:12 | [[1e9, 2e9], [0, 3e9]] has eigenvalues 3e9 and 1e9 |
| Rank.RankWithin | ComputerTechs/SquareMatrixExtensions.cs:17-32 | the rank is in 0..2; it is 2 exactly when neither bc - ad nor the first row tests zero, and 0 exactly when both do |
| Rank.GetRank | ComputerTechs/SquareMatrixExtensions.cs:17-32 | the four outcomes of the two zero tests at tolerance 1e-9: rank 2, 1, 1 or 0 |
| Rank.RankOfZero | ComputerTechs/SquareMatrixExtensions.cs:26-29 | the zero matrix has rank 0 |
| Rank.RankIgnoresSecondRow | ComputerTechs/SquareMatrixExtensions.cs:28-29 | [[0, 0], [0, 1]] gets rank 0 although it maps (0, 1) to itself |
| Rank.AsWrittenDiffersFromCorrected | ComputerTechs/SquareMatrixExtensions.cs:26-29 | the as-written and the corrected rank differ exactly when the first row tests zero and the second row does not, and then the as-written rank is one lower |
| Rank.CorrectedRankIsTrueRank | ComputerTechs/SquareMatrixExtensions.cs:17-32 | with the second test over all four entries and exact zero tests, rank 0 means exactly the zero map and rank 2 means exactly an injective map |
| Quadrature.Boundaries.Len | ComputerTechs/NumericMethods.cs:32 | moving the left end by the length reaches the right end |
| Quadrature.Boundaries.Step | ComputerTechs/NumericMethods.cs:42 | N steps make up the whole interval |
| Quadrature.RectangleIntegration | ComputerTechs/NumericMethods.cs:146-158 | N <= 0 gives 0; otherwise the left-endpoint sum of f(Left + i Step) Step over i < N |
| Quadrature.LastNodeIsRight | ComputerTechs/NumericMethods.cs:151-155 | after N steps the running node reaches the right end |
| Quadrature.LeftSumOfConstant | ComputerTechs/NumericMethods.cs:151-155 | the sum for a constant c over k pieces is c k Step |
| Quadrature.RectanglesExactOnConstants | ComputerTechs/NumericMethods.cs:146-158 | for constant c and N >= 1 the rule gives c (Right - Left) |
| Quadrature.TrapeziumIntegration | ComputerTechs/NumericMethods.cs:167-170 | always fails as not implemented |
| Quadrature.Integrate | ComputerTechs/NumericMethods.cs:121-138 | `Rectangles` succeeds with exactly the rectangle rule; `Trapezium` fails as not implemented |
| LinearSystems.ScalingKeepsSolutions | ComputerTechs/NumericMethods.cs:79-80 | dividing an equation by a non-zero pivot keeps exactly the same solutions |
| LinearSystems.SubtractingKeepsSolutions | ComputerTechs/NumericMethods.cs:81-86 | subtracting a multiple of another equation keeps exactly the same solutions |
| LinearSystems.ReducedSolution | ComputerTechs/NumericMethods.cs:105-110 | a system with identity coefficients is solved by exactly its right-hand-side column |
| LinearSystems.EliminateBelow | ComputerTechs/NumericMethods.cs:81-86 | clears column k below the unit pivot, leaves rows 0..k alone, makes each lower row r its old value minus c[r][k] times row k, and keeps the solutions |
| LinearSystems.EliminateAbove | ComputerTechs/NumericMethods.cs:97-102 | clears column k above the unit row k, moves no other coefficient and keeps the solutions |
| LinearSystems.ForwardPass | ComputerTechs/NumericMethods.cs:76-90 | failures are non-finite; m[0][0] = 0 always fails; sizes 0, 1 and 2 succeed when their pivots m[0][0] and det / m[0][0] are non-zero; a success is unit upper-triangular with the same solutions, and the caller's array holds the working copy; for sizes 1 and 2 row 0 is the input row divided by m[0][0], and the last entry of row 1 is (m[0][0] m[1][2] - m[1][0] m[0][2]) / det |
| LinearSystems.BackwardPass | ComputerTechs/NumericMethods.cs:92-103 | turns a unit upper-triangular system into identity coefficients with the same solutions |
| LinearSystems.Gauss | ComputerTechs/NumericMethods.cs:68-111 | an array narrower than n + 1 columns fails on an index; m[0][0] = 0 fails as non-finite; sizes 0, 1 and 2 of sufficient width succeed when m[0][0] and the determinant are non-zero; on success y solves the input system exactly when y is the answer, and the caller's array is left unit upper-triangular with the same solutions and its extra columns untouched; for sizes 1 and 2 its entries above the diagonal are the forward-eliminated ones, m[0][1] / m[0][0], m[0][2] / m[0][0] and (m[0][0] m[1][2] - m[1][0] m[0][2]) / det |
| Support.BranchRegions | ComputerTechs/Program.cs:33-40 | the regions of the four exits, independent of test order; the NaN exit is taken exactly when 2 psi2 < -\|psi1\| |
| Support.SpecificSupportingFunction | ComputerTechs/Program.cs:28-41 | failures are non-finite results; the two face formulas are never negative |
| Support.SupportValues | ComputerTechs/Program.cs:33-40 | fails exactly below both faces or where the first formula divides by psi2 = 0; otherwise gives -psi1² / (4 psi2), psi1 + psi2 or psi2 - psi1 by branch |
| Support.SupportIsPositivelyHomogeneous | ComputerTechs/Program.cs:33-38 | for k > 0, k psi takes the same branch, fails exactly when psi does, and has k times the value |
| Support.AsWrittenIsNotTheSupport | ComputerTechs/Program.cs:33-34 | at (0, -1) the code fails where the support value is 0; at (2, 1/2) it returns -2 although (1, 1) in the control set scores 2.5 |
| Support.ElementarySupport | ComputerTechs/Program.cs:33-40 | the corrected function is never negative |
| Support.SupportPoint | ComputerTechs/Program.cs:33-40 | the maximising point always lies in the control set u1² <= u2 <= 1 |
| Support.ElementarySupportIsAttained | ComputerTechs/Program.cs:33-40 | the corrected value is attained: it is the score of a point of the control set |
| Support.ElementarySupportIsUpperBound | ComputerTechs/Program.cs:33-40 | no point of the control set scores more than the corrected value |

## Left out

- Matrix exponential `ExpM` and the Meta.Numerics library calls (`Eigenvalues()`,
  `GetGeometricMultiplicity`, `SquareMatrixHelper.SquareMatrix`). They are not
  defined in the repository's own files, and `exp` is not expressible over the reals.
- The Meta.Numerics-based `GetEigenvectors` in `SquareMatrixExtensions`. It relies
  on a complex eigen-solver and on a `System.Random` search, so it is nondeterministic.
- `SquareMatrixHelper.GetIdentityMatrix`. It is a wrapper over the library's `Fill`
  with the same meaning as `IdentityMatrix`.
- `Print`, `Program.Main`, `CommandLineOptions` and the Python plotter. These are
  console, file and plotting I/O.
- `ComplexSquareMatrix`, a plain record, and `ComplexEigenvaluesException`, an
  unused exception type.
- Floating-point rounding. All arithmetic is exact over `real`. NaN and infinity
  appear only as `NonFinite` failures.
- `Math.Sqrt`. It is a library call, so its value is the parameter `root`.
- Eigen.GetEigenvalues: which NaN the code returns is not modelled. A negative
  discriminant gives `NonFinite` as a whole instead of two NaN entries.
- Eigen.GetEigenvectors: a vector with a NaN or infinite component is `NonFinite`.
  The model does not say which component is affected.
- Sizes other than 2 for `+`, `*`, the matrix-vector product, `GetTransposed`,
  `IdentityMatrix` and `GetRank`. The toolkit is used only on 2x2 matrices, and the
  matrix type here is 2x2. `GetRank` reads only `[0,0]` to `[1,1]`: on a 1x1 matrix
  it throws at `matrix[0,1]`, and on a larger one it ranks the top-left 2x2 block.
  Its caller passes `originMatrix - mu I` without checking the size.
- Quadrature.Boundaries: `N` is a C# `double`. The model takes an integer count. A
  non-integer N makes the loop run ⌈N⌉ times and is not modelled.
- Quadrature.Boundaries.Step: requires N ≠ 0. The code would divide by zero, but
  `RectangleIntegration` never reads `Step` when N = 0.
- Quadrature.Integrate: the `default` branch returning `double.MinValue` is not
  modelled. Only a cast of another integer to `IntegrationMethod`, such as
  `(IntegrationMethod)2`, reaches it; the model's enumeration has just the two
  named values.
- LinearSystems.Gauss: which inputs reach a zero pivot is characterised only for
  sizes 0, 1 and 2, the sizes the toolkit uses. For larger systems, leading
  principal minors would do it. The model states that `m[0][0] = 0` always fails,
  that sizes up to 2 with non-zero pivots succeed, and that every success is the
  unique solution.
- LinearSystems.ForwardPass: for the same reason, success is promised only for
  sizes 0, 1 and 2 with non-zero pivots. In the code a zero
  pivot leaves NaN in the last answer, which is the `NonFinite` failure here.
- LinearSystems.Gauss: the caller's array is not modelled in the failure case. A
  zero pivot fills the rows from that pivot down with NaN and infinities, and the
  rows above it keep their finite values.
- LinearSystems.ForwardPass: the entries above the diagonal of the eliminated
  system are given explicitly only for sizes 1 and 2. For larger systems the
  model states that they come from row operations that keep the solutions, not
  their values.
- LinearSystems.Gauss: likewise, the entries above the diagonal of the caller's
  array are given explicitly only for sizes 1 and 2.
- Support.SpecificSupportingFunction: a psi array shorter than 2 is not modelled.
  The direction is a `Vector2`.

## Findings

| source | as written | input that shows it | evidently intended | confidence | as-written member | corrected member |
|---|---|---|---|---|---|---|
| ComputerTechs/Program.cs:33-34 | the parabola formula -psi1² / (4 psi2) is used when \|2 psi2\| <= psi1, and the code returns NaN when 2 psi2 < -\|psi1\| | psi = (0, -1) gives NaN where the support value is 0; psi = (2, 0.5) gives -2 although the point (1, 1) of the control set scores 2.5 | the faces first, then the parabola formula exactly when 2 psi2 < -\|psi1\|: the support function of {u : u1² <= u2 <= 1} | not executed | Support.AsWrittenIsNotTheSupport | Support.ElementarySupportIsUpperBound |
| ComputerTechs/SquareMatrixExtensions.cs:28-29 | the second decrement tests only the first row (a, b) for zero | [[0, 0], [0, 1]] gets rank 0 although its rank is 1 | decrement again only when the whole matrix is zero | not executed | Rank.RankIgnoresSecondRow | Rank.CorrectedRankIsTrueRank |
