# Shamir constant-term recovery (`solu.js`), modelled in Dafny

`solu.js` recovers the secret of a Shamir-style sharing: the constant term of a polynomial
of degree k−1, given at least k points. It does this in four steps:

1. It decodes each y value from a digit string in radix 2–36 (`strToBigInt`).
2. It sorts the points by x, keeps the first k and rejects a repeated x.
3. It builds the Vandermonde system with rows `[x^(k-1), …, x^0, y]`.
4. It solves the system by Gaussian elimination over hand-rolled `[num, den]` fraction
   pairs and reports the last coefficient, converted to an integer.

The model has six modules:

- `Failures`: the error kinds (one per `throw` in the core) and the `Result`/`Option` wrappers.
- `Arith`: Euclid's gcd (`gcd`); divisibility; `TruncDiv`, the BigInt `/`, which rounds
  toward zero (Dafny's own `/` is Euclidean); `Pow`.
- `Decoder`: `strToBigInt`, with ASCII lowercasing, the digit table and the Horner loop.
- `Fractions`: the fraction pair, its reduction, and the entry-level formulas of the solver,
  written as the code writes them. Real-valued lemmas state what each formula means.
- `Elimination`: `gaussianElimination`. It covers conversion to fractions, pivot search and
  swap, the elimination loops, back substitution and the conversion to integers.
  - The loops are modelled as `while` loops over `seq<seq<Frac>>`.
  - The elimination of row k works on a copy of row k and writes the copy back, which has
    the same effect as the in-place update.
- `Interpolation`: the pure middle of `findConstantC`. It covers the threshold check,
  stable sort and selection, the duplicate check, the row construction and the pick of the
  last coefficient.
- `WorkedExample`: the whole reconstruction on the three points (1, 3), (2, 6), (3, 9) of
  the line y = 3x with k = 3, computed step by step.

JavaScript BigInt is unbounded, and so is Dafny's `int`, so there is no overflow to model.

### How the code's arithmetic differs from its comments

The fraction arithmetic is modelled exactly as written, and in two places the code does not
compute what its comments say.

- **The row update (lines 71-72).** It computes `a·b·D − N·p·q` over `b·D`. Unit
  denominators in both entries are enough for this to equal the rational `a/b − (N/D)·(p/q)`.
  Without them it can differ.
  - `Fractions.UpdateEntryExact` proves the update exact when both entry denominators are 1.
  - `Fractions.UpdateEntryInexact` gives an instance where it is not exact. The entry is
    1/2, the multiplier is 1 (nonzero, as line 63 guarantees) and the pivot-row entry is
    0/1. The update stores 1/1, but the rational result is 1/2.
- **The back-substitution term (lines 98-99).** The term `c·d·s·t / (d·t)` has the value
  `c·s`, the product of the two numerators.
  - `Fractions.TermIsProductIff` proves this is the rational product exactly when a
    numerator is zero or the denominators multiply to 1.
  - `Fractions.TermSignExample` shows a sign flip: (1/1)·(−3/−1) gives −3 instead of 3.
  - `WorkedExample.ThreePointExample` shows the flip in a whole run. On the points of
    y = 3x, back substitution yields −6/−1, −3/−1, 0/1, so the reported coefficients are
    6, 3, 0 instead of 0, 3, 0, and the first equation c0 + c1 + c2 = 3 evaluates to 9. The
    constant term is computed from the last row alone, where no term is subtracted, so it
    is still 0 (`WorkedExample.ReconstructLine`).

Denominators can be negative. The elimination multiplier's denominator at line 66 and the
quotient's denominator at line 115 both carry the pivot's sign. The reduction at lines
78-79 keeps that sign, because it divides by a positive gcd. So the model's invariant is
"denominator nonzero, and the pair is either 0/1 or coprime", and not "denominator positive".

## Model

| member | source | states |
|---|---|---|
| Arith.EuclidIsGcd | solu.js:6-11 | the loop's final a divides both non-negative operands, and every common divisor divides it |
| Arith.EuclidZero | solu.js:6-11 | the loop returns 0 exactly when both operands are 0 |
| Arith.GcdIsGreatestCommonDivisor | solu.js:3-12 | Euclid's result divides both operands, every common divisor divides it, it is 0 exactly when both operands are 0, and gcd(a, 0) = abs(a) |
| Arith.GcdIgnoresSigns | solu.js:4-5 | negating either operand, or taking both absolute values, leaves the gcd unchanged |
| Arith.GcdIsGreatest | solu.js:3-12 | unless both operands are zero, no positive common divisor exceeds the gcd |
| Arith.GcdUnique | solu.js:3-12 | any non-negative common divisor that all common divisors divide is the gcd |
| Arith.TruncDiv | solu.js:133 | BigInt division: the remainder is smaller than the divisor in magnitude and is zero or has the dividend's sign |
| Arith.TruncDivUnique | solu.js:133 | only one quotient satisfies the rounding-toward-zero condition |
| Arith.TruncDivExact | solu.js:79 | when the divisor divides the dividend, the quotient times the divisor gives back the dividend, so dividing by the gcd loses nothing |
| Arith.TruncDivExample | solu.js:133 | −7 / 2 is −3 under BigInt division, while floor division gives −4 |
| Decoder.Push | solu.js:18-27 | one digit step succeeds exactly when the character is a digit below the base, and the new value lies in [acc·base, (acc+1)·base) |
| Decoder.Accumulate | solu.js:17-28 | after t more characters the value lies in [acc·base^t, (acc+1)·base^t), so earlier digits are never disturbed |
| Decoder.Decode | solu.js:14-30 | a base outside 2..36 fails with InvalidBase; otherwise decoding succeeds exactly when every character, lowercased, is a digit below the base; only the three decoder errors can occur |
| Decoder.DecodeAppend | solu.js:16-29 | the empty string decodes to 0; appending a character multiplies the value by the base and adds the digit, or fails on that character |
| Decoder.DecodeReportsFirstBadChar | solu.js:17-26 | the error names the first offending lowercased character: InvalidCharacter if it is not alphanumeric, DigitOutOfRange if its digit is at least the base |
| Decoder.DecodeIgnoresCase | solu.js:17 | an upper-case spelling and a lower-case spelling of a string give the same result |
| Decoder.DecodeBound | solu.js:16-29 | a decoded n-character string is non-negative and below base^n |
| Decoder.DecodeBoundaryExamples | solu.js:15-26 | "0" decodes to 0, "z" decodes to 35 in base 36, "g" is out of range in base 16, and bases 1 and 37 are rejected |
| Decoder.DecodeHexExample | solu.js:17-27 | "1a" and "1A" decode to 26 in base 16; "1-" fails on '-' in base 10 |
| Fractions.Reduce | solu.js:74-80 | the stored pair is 0/1 exactly when the numerator is 0, is otherwise coprime, has the same rational value as the unreduced pair, and for a nonzero numerator keeps the denominator's sign |
| Fractions.Multiplier | solu.js:64-66 | the multiplier pair has a nonzero denominator and equals m[k][i] / m[i][i] as a rational |
| Fractions.UpdateEntry | solu.js:71-80 | every updated entry is stored reduced: 0/1 or coprime with a nonzero denominator |
| Fractions.UpdateEntryExact | solu.js:68-72 | with unit denominators in both entries, the update is the rational a − mult·p |
| Fractions.UpdateEntryInexact | solu.js:63-72 | unit denominators are sufficient, not necessary: with entry 1/2, the nonzero multiplier 1 and pivot-row entry 0/1, the update stores 1/1 where a − mult·p is 1/2 |
| Fractions.UpdateClearsPivotColumn | solu.js:62-80 | the pivot-column entry becomes 0/1 exactly when it was 0 or its denominator has the pivot's magnitude |
| Fractions.Term | solu.js:97-99 | the term's value is the product of the two numerators, not the rational product |
| Fractions.TermIsProductIff | solu.js:97-99 | the term equals the rational product exactly when a numerator is 0 or the denominators multiply to 1 |
| Fractions.TermSignExample | solu.js:98-99 | (1/1)·(−3/−1) gives −3, where the rational product is 3 |
| Fractions.SubtractTerm | solu.js:101-109 | the new running sum is reduced and is the rational difference of the sum and the term |
| Fractions.DivideByDiagonal | solu.js:113-122 | the solution entry is reduced and is the rational quotient of the sum by the diagonal entry |
| Fractions.ToInteger | solu.js:126-135 | a denominator of 1 yields the numerator; otherwise the result is the quotient rounded toward zero |
| Fractions.ToIntegerExact | solu.js:126-135 | when the denominator divides the numerator, the integer is the fraction's exact value |
| Fractions.ToIntegerOfReduce | solu.js:117-135 | converting a reduced pair gives the same integer as BigInt division of the unreduced pair |
| Elimination.ToFractions | solu.js:36-41 | every input integer becomes the reduced fraction v/1 with the same value |
| Elimination.FindPivot | solu.js:45-54 | the result is −1 exactly when column i is zero from row i down; otherwise it is the first row at or below i with a nonzero entry there |
| Elimination.SwapRows | solu.js:56-59 | rows i and p are exchanged, every other row is unchanged, and the rows are a permutation of the input rows |
| Elimination.EliminateRow | solu.js:64-81 | columns before i are unchanged, every column from i on is replaced by its update with this row's multiplier, and the row stays reduced |
| Elimination.EliminateBelow | solu.js:61-83 | rows up to i and columns before i are unchanged; each row below i with a nonzero column-i entry is updated and every other row is left as it was |
| Elimination.StepOutcomeUnique | solu.js:61-83 | the frame and update facts of one column step fix every entry of its result |
| Elimination.StepDetermined | solu.js:44-83 | a column step from a given matrix has one pivot row and one resulting matrix |
| Elimination.RunExtend | solu.js:44-84 | appending a column step at the end of a run of forward elimination gives a run |
| Elimination.RunDetermined | solu.js:44-84 | two runs of forward elimination of the same length from the same matrix are identical, matrices and pivot rows alike |
| Elimination.ExactStep | solu.js:62-81 | when the step's columns all have unit denominators, column i becomes 0/1 below the pivot and every updated entry is the rational row operation |
| Elimination.ColumnStep | solu.js:44-83 | the step fails with Singular exactly when column i is zero from row i down; otherwise it swaps in the first nonzero row, and the step frame, update and reduction facts hold, plus exactness when denominators are 1 |
| Elimination.ForwardEliminate | solu.js:43-84 | the matrices produced form a run of column steps from the input: each step swaps in the first pivot of its column and eliminates below it. The result fails with Singular exactly when the run stops early, at a column that is zero from the diagonal down; otherwise it is the run's last matrix, reduced, with a nonzero diagonal. With integer input the first step is exact and column 0 ends 0/1 below row 0 |
| Elimination.PartialSum | solu.js:91-111 | the running sum has a nonzero denominator and its value is the constant minus the sum of numerator products of the columns done so far |
| Elimination.DotsAgree | solu.js:95-111 | the numerator sum is the rational dot product when each column has a zero numerator or denominators multiplying to 1 |
| Elimination.PartialSumFrame | solu.js:94-111 | the running sum of row i reads only solution entries after i |
| Elimination.RowSum | solu.js:91-111 | the loop computes the running sum over all later columns |
| Elimination.BackSubstituteStep | solu.js:88-122 | storing entry i makes it row i's back-substitution value and keeps every later entry its row's back-substitution value |
| Elimination.BackSubstitute | solu.js:86-123 | the result fails with Singular exactly when some diagonal numerator is zero; otherwise it has n entries with nonzero denominators, each its row's back-substitution value (the row's running sum over the later entries, divided by the diagonal, with the code's formulas) |
| Elimination.BackSubstitutedValues | solu.js:113-122 | every solution entry is reduced, and its value is (constant − numerator sum) / diagonal; the last entry is the last constant over the last pivot |
| Elimination.ToIntegers | solu.js:126-135 | one integer per solution fraction, each its conversion |
| Elimination.GaussianElimination | solu.js:32-136 | forward elimination is a run of column steps from the fraction form of the input; the only error is Singular, exactly when that run stops early, at a column that is zero from the diagonal down, and an all-zero first column gives it. On success the matrix after forward elimination is the run's last matrix, the solution is what back substitution computes on it (each entry its row's back-substitution value, reduced, with the value formula above), and each reported integer is the conversion of its entry; a 1×2 system gives TruncDiv(b, a) or Singular |
| Elimination.SolveEliminated | solu.js:86-135 | after a successful forward elimination, back substitution cannot fail; the integers are the conversions of the back-substituted solution, and the last integer is the last constant divided by the last pivot, converted |
| Elimination.LastRowSolution | solu.js:88-122 | the last row has no later columns, so its solution entry is its constant divided by its diagonal entry |
| Elimination.SingleRowSolution | solu.js:88-122 | with one row, the solution is the constant divided by the coefficient |
| Elimination.DivideUnitsToInteger | solu.js:113-135 | dividing two whole numbers as fractions and converting back rounds toward zero |
| Interpolation.SortByX | solu.js:163 | the result is ascending in x and is a permutation of the input |
| Interpolation.InsertLargest | solu.js:163 | a point not smaller than every other goes last |
| Interpolation.SortSortedIsIdentity | solu.js:163 | sorting points that are already ascending changes nothing |
| Interpolation.SortIdempotent | solu.js:163 | sorting twice is sorting once |
| Interpolation.Select | solu.js:163-164 | the k points kept are ascending in x and are drawn from the input with multiplicity |
| Interpolation.SelectTakesSmallest | solu.js:163-164 | the k selected points are ascending, come from the input, and no point left out has a smaller x than one taken |
| Interpolation.AdjacentCheckFindsDuplicates | solu.js:166-170 | on sorted points, a neighbour with the same x exists exactly when the x values are not distinct |
| Interpolation.HasAdjacentDuplicateX | solu.js:166-170 | whenever the neighbour check fires, some x really repeats, whatever the order |
| Interpolation.AdjacentCheckNeedsSorting | solu.js:166-170 | without sorting, the neighbour check misses a repeated x that is not adjacent |
| Interpolation.Powers | solu.js:175-177 | k entries, the last one 1 (x^0), each other entry x times the next: the descending powers x^(k-1) … x^0 |
| Interpolation.VandermondeRow | solu.js:173-179 | the row is the descending powers of the point's x followed by its y |
| Interpolation.RowStatesPolynomialValue | solu.js:175-177 | the row's powers of x multiplied by a coefficient vector give the polynomial's value at x by Horner's rule |
| Interpolation.ConstantTermIsLastCoefficient | solu.js:183 | the polynomial's value at 0 is its last coefficient |
| Interpolation.BuildSystem | solu.js:147-180 | k < 1 and too few points fail with their errors; otherwise the system exists exactly when the selected x values are distinct, and it is k rows of k+1 entries |
| Interpolation.SystemEncodesInterpolation | solu.js:172-180 | a coefficient vector satisfies row i exactly when the polynomial passes through the i-th selected point |
| Interpolation.FindConstant | solu.js:147-183 | errors from building the system come out unchanged. Otherwise forward elimination is a run of column steps from the built system, and the result is Singular exactly when that run stops early, at a column that is zero from the diagonal down. On success the solution is what back substitution computes on the run's last matrix, and the answer is the integer conversion of its last entry. With k = 1 the answer is the y of the first smallest-x point in input order |
| Interpolation.UnitDivisor | solu.js:133 | dividing by one, rounding toward zero, returns the dividend |
| WorkedExample.LineRunsAreFull | solu.js:44-84 | on the system of the points (1, 3), (2, 6), (3, 9), every run of forward elimination is a prefix of the computed run with pivots 0, 1, 2, and none can stop early because each column has a nonzero diagonal entry |
| WorkedExample.ThreePointExample | solu.js:86-135 | on that system, back substitution after elimination yields exactly −6/−1, −3/−1, 0/1; the integers reported are 6, 3, 0, and the first equation c0 + c1 + c2 = 3 evaluates to 9 at them |
| WorkedExample.ReconstructLine | solu.js:147-183 | the reconstruction on the three points of y = 3x with k = 3 reports the secret 0 |

## Left out

- Reading the file and parsing JSON, and the shape checks on the parsed object (solu.js:139-143, 150-156): I/O and dynamic typing. The driver takes k and a sequence of integer points.
- `BigInt(key)` and `parseInt(entry.base, 10)` (solu.js:152, 155): JavaScript's string-parsing rules. x and the base arrive as integers.
- The command-line entry point, console output and `process.exit` (solu.js:186-198).
- `toLowerCase` beyond ASCII (solu.js:17): characters are ASCII, where lowercasing maps only A–Z.
- Interpolation.SortByX: the engine's sort algorithm is not modelled; the model uses a stable insertion sort, as the language requires of `Array.prototype.sort`, so equal keys keep their input order. Results depend on that order whenever points with equal x straddle the k boundary. With k = 1, for example, the duplicate check never runs, and the answer is the y of whichever smallest-x point comes first.
- The unused `n` (solu.js:145).
- Interpolation.FindConstant: k is an integer. A fractional JavaScript number for k is not modelled.
- Elimination.GaussianElimination: there is no proof that the result solves every nonsingular system. The formulas at solu.js:71-72 and 98-99 do not support that claim (see `Fractions.UpdateEntryInexact`, `Fractions.TermSignExample` and `WorkedExample.ThreePointExample`, where the reported coefficients do not solve the system). Exactness is proved only where denominators are 1.
- Fractions.Reduce: the denominator is not shown to be positive. The code keeps the pivot's sign in the denominator (solu.js:66, 115).
