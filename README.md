# SharkMath core, modelled in Dafny

SharkMath is a set of MCP tools for mathematics. Each tool validates its
arguments, refuses bad input with an error message, and otherwise computes a
result. This project models the validation and computation of the
repository's core tools and proves what they promise:

- **Matrix operations** (`matrix_operations.py`) cover add, multiply,
  transpose and determinant. They check emptiness, shape and ragged rows in
  the source's order and cap the determinant at 10×10. Results are tied to
  a specification: entry-wise sum, row-by-column product, `t[c][r] == m[r][c]`,
  and cofactor expansion along the first row. Identity, transpose and
  determinant laws are proved about them.
- **Number theory** (`number_theory.py`) covers gcd, lcm, primality by trial
  division, prime factorisation, and perfect squares.
- **Combinatorics** (`combinatorics.py`) covers factorial, permutations,
  combinations and the iterative Fibonacci loop. Each has the source's guards
  and caps.
- **Computer-science tools** (`computer_science_tools.py`) cover base
  conversion, bitwise AND/OR/XOR/NOT, shifts, and ASCII conversion.
- **The consolidated tool template** (`consolidated_tool_template.py`)
  covers two classes:
  - an operation registry that keeps its names in insertion order;
  - a conversion registry over a nested dictionary.
  It also covers the parameter validators and the guarded divide, square
  root and logarithm.
- **Data analysis** (`data_analysis.py`) covers ranks, the percentile
  interpolation, the median, quartiles and IQR fences with outlier
  detection, the z-score bands, and the correlation guards.
- **Statistics tool** (`consolidated_statistics.py`) covers the number
  parser (comma or whitespace separated), the minimum-count check, range
  statistics, and the percentile routine with its special cases.
- **Unit conversion** (`convert_units.py`) covers:
  - the `from_to_to` key and the duration check for kilowatt / kilowatt-hour;
  - the per-quantity refusal of negative values;
  - the dictionary of 90 conversions, kept as 45 forward/reverse pairs in
    source order.
- **Precision** (`precision.py`) covers round, floor, ceiling, truncate and
  absolute.
- **Equation solving** (`solve_equations.py`) covers the linear and
  quadratic cases.
- **Arithmetic** (`arithmetic.py`) covers `divide`, and the character gate
  and exception mapping around the expression evaluator in `calculate`.

Python floats are modelled as exact reals and Python ints as unbounded
integers. The host functions that the tools call are passed in as function
parameters:

- `math.sqrt`, `math.log`, `round`, `float()` and `eval`.

Where a property depends on one of them, its behaviour is stated as a
requirement: the square root squares back, for example. Error messages are
modelled as error constructors, one per distinct message.

Supporting modules:

- `Wrappers`: `Option`, `Result` and `Outcome`.
- `Text`: Python's `isspace`, `strip`, `split(sep)` and `split()`.
- `Sorting`: `sorted`, `min`, `max` and `list.sort`.
- `IntArith`: integer arithmetic facts.
- `ConversionTable`: the dictionary of conversions.
- `UnitGuards`: the negativity checks.

## Model

| member | source | states |
|---|---|---|
| MatrixOperations.FindRaggedRow | matrix_operations.py:102-112 | None exactly when every row has the expected width; otherwise the first row whose width differs |
| MatrixOperations.MatrixAdd | matrix_operations.py:62-125 | a missing argument exactly when one is None; then empty, then row-count, then column-count, then first ragged row of matrix 1, then of matrix 2; success exactly when both are rectangular of equal shape, and then each entry is the sum of the two entries |
| MatrixOperations.Column | matrix_operations.py:183-190 | the j-th column: one entry per row, entry k is m[k][j] |
| MatrixOperations.DotSymmetric | matrix_operations.py:183-190 | the row-by-column dot product is symmetric |
| MatrixOperations.Product | matrix_operations.py:183-190 | the product of an r×k and k×c matrix is rectangular r×c |
| MatrixOperations.MatrixMultiply | matrix_operations.py:128-194 | a missing argument exactly when one is None; then empty, then ragged rows of each matrix, then incompatible shapes (columns of m1 ≠ rows of m2); on success the result is the row-by-column product |
| MatrixOperations.RowTimesColumn | matrix_operations.py:185-188 | the accumulation loop computes the dot product of the row with column j |
| MatrixOperations.Identity | Tests/test_matrix_operations.py:139-145 | the n×n matrix with 1 on the diagonal and 0 elsewhere |
| MatrixOperations.ProductIdentityRight | matrix_operations.py:183-190 | m · I = m |
| MatrixOperations.ProductIdentityLeft | matrix_operations.py:183-190 | I · m = m |
| MatrixOperations.TransposeOf | matrix_operations.py:302-316 | a rectangular r×c matrix transposes to c×r with t[c][r] = m[r][c] |
| MatrixOperations.TransposeTwice | Tests/test_matrix_operations.py:173-189 | transposing twice gives the matrix back |
| MatrixOperations.TransposeProduct | matrix_operations.py:183-190 | (A·B)ᵀ = Bᵀ·Aᵀ |
| MatrixOperations.MatrixTranspose | matrix_operations.py:273-320 | a missing argument exactly when it is None; then empty, then first ragged row; on success the transpose |
| MatrixOperations.DropAt | matrix_operations.py:250-252 | a row with one column removed, the later columns shifted left |
| MatrixOperations.Minor | matrix_operations.py:248-254 | the first row and column col removed from a square matrix |
| MatrixOperations.TwoByTwoIsExpansion | matrix_operations.py:241-242 | the 2×2 shortcut a·d − b·c equals the cofactor expansion |
| MatrixOperations.ScaleFirstRow | matrix_operations.py:234-262 | the first row multiplied by k, the other rows unchanged |
| MatrixOperations.ScaleFirstRowScalesDet | matrix_operations.py:234-262 | scaling the first row by k scales the determinant by k |
| MatrixOperations.ScaleCofactorSum | matrix_operations.py:246-260 | every partial cofactor sum scales by k with the first row |
| MatrixOperations.MinorIgnoresFirstRow | matrix_operations.py:248-254 | minors do not depend on the first row |
| MatrixOperations.ZeroFirstRowDet | matrix_operations.py:234-262 | a zero first row gives determinant 0 |
| MatrixOperations.MinorOfIdentity | matrix_operations.py:248-254 | the first minor of Iₙ is Iₙ₋₁ |
| MatrixOperations.IdentityCofactorSum | matrix_operations.py:246-260 | the cofactor sum of Iₙ reduces to det Iₙ₋₁ |
| MatrixOperations.IdentityDet | Tests/test_matrix_operations.py:139-145 | det Iₙ = 1 for every n ≥ 1 |
| MatrixOperations.DoubledRowDet | Tests/test_matrix_operations.py:147-153 | a 2×2 matrix whose second row doubles the first has determinant 0 |
| MatrixOperations.CalcDeterminant | matrix_operations.py:234-262 | the recursive method computes the cofactor-expansion determinant |
| MatrixOperations.SignedTerm | matrix_operations.py:257-259 | the alternating sign (-1)^col applied to a term |
| MatrixOperations.BuildMinor | matrix_operations.py:248-254 | the nested loops build exactly the minor |
| MatrixOperations.MatrixDeterminant | matrix_operations.py:197-270 | a missing argument exactly when it is None; then empty, then first row whose width differs from the row count, then more than 10 rows; success exactly for square matrices up to 10×10, with the cofactor determinant |
| NumberTheory.Abs | number_theory.py:19-22 | the absolute value |
| NumberTheory.DividesCombination | number_theory.py:19-22 | a common divisor of x and y divides k·x + y |
| NumberTheory.DivisorBounded | number_theory.py:63-65 | a divisor of a positive n is at most n |
| NumberTheory.GcdDividesBoth | number_theory.py:19-22 | Euclid's gcd divides both arguments |
| NumberTheory.CommonDivisorDividesGcd | number_theory.py:19-22 | every common divisor divides Euclid's gcd |
| NumberTheory.GcdNatIsGcd | number_theory.py:19-22 | Euclid's gcd is positive and the greatest common divisor |
| NumberTheory.Bezout | number_theory.py:19-22 | x·a + y·b = gcd(a, b) for returned x, y |
| NumberTheory.Gcd | number_theory.py:12-26 | error exactly when both are 0; otherwise the positive greatest common divisor of the absolute values |
| NumberTheory.GcdWithZero | number_theory.py:19-22 | gcd(a, 0) = \|a\| |
| NumberTheory.Lcm | number_theory.py:29-45 | 0 exactly when either argument is 0 |
| NumberTheory.LcmIsLeastCommonMultiple | number_theory.py:36-41 | \|a\| and \|b\| divide lcm; lcm·gcd = \|a\|·\|b\|; lcm divides every common multiple |
| NumberTheory.LargeDivisorHasSmallCofactor | number_theory.py:63-65 | a divisor at or above √n pairs with a cofactor below it |
| NumberTheory.NoSmallDivisorMeansPrime | number_theory.py:63-67 | no divisor up to √n means prime |
| NumberTheory.TrialDivisor | number_theory.py:63-65 | the odd trial step keeps "no divisor below i" |
| NumberTheory.IsPrime | number_theory.py:48-70 | "too small" exactly below 2; "prime" exactly for primes; otherwise the reported divisor is the smallest one |
| NumberTheory.LeastDivisorIsPrime | number_theory.py:84-101 | the least divisor ≥ 2 is prime |
| NumberTheory.QuotientKeepsNonDivisors | number_theory.py:84-101 | dividing out a factor keeps "no divisor below i" |
| NumberTheory.ProductStep | number_theory.py:84-101 | moving a factor from n into the list keeps the product |
| NumberTheory.DivideOut | number_theory.py:84-101 | one division step keeps the product, order and primality of the list |
| NumberTheory.NextOddCandidate | number_theory.py:92-97 | skipping a non-divisor odd candidate keeps "no divisor below i" |
| NumberTheory.LastFactor | number_theory.py:99-101 | a remaining n > 1 with no divisor up to √n is a prime, appended last in order |
| NumberTheory.DivideOutAll | number_theory.py:87-96 | the inner while-loop divides out i completely, keeping product, order and primality |
| NumberTheory.PrimeFactors | number_theory.py:73-107 | error exactly for 0; [] for ±1; otherwise a nondecreasing list of primes whose product is \|n\| |
| NumberTheory.OddTrialDivision | number_theory.py:91-97 | the odd trial-division loop keeps the factorisation invariant |
| NumberTheory.ISqrt | number_theory.py:115-128 | s² ≤ n < (s+1)² |
| NumberTheory.IsPerfectSquare | number_theory.py:110-131 | true exactly when n is the square of some natural; negatives are not squares |
| NumberTheory.RootDecidesSquare | number_theory.py:122-125 | the floor square root squared gives n back exactly when n is a perfect square |
| NumberTheory.SquareMonotone | number_theory.py:115-128 | squaring is monotone on naturals |
| Combinatorics.Fact | combinatorics.py:25 | n! ≥ 1 |
| Combinatorics.FallingIsFactorialQuotient | combinatorics.py:48 | the falling factorial is n!/(n−r)! |
| Combinatorics.BinomialIsFactorialQuotient | combinatorics.py:71 | C(n,r)·r!·(n−r)! = n! |
| Combinatorics.BinomialSymmetric | combinatorics.py:71 | C(n,r) = C(n,n−r) |
| Combinatorics.Factorial | combinatorics.py:11-28 | negative refused first; success exactly for 0..170, with n! |
| Combinatorics.Permutation | combinatorics.py:31-51 | negative, then r > n, then n > 170; success exactly for 0 ≤ r ≤ n ≤ 170, with P·(n−r)! = n! |
| Combinatorics.Combination | combinatorics.py:54-74 | the same guards in the same order; C·r!·(n−r)! = n! |
| Combinatorics.FactorialQuotientUnique | combinatorics.py:48 | the quotient n!/k is unique |
| Combinatorics.CombinationSymmetric | combinatorics.py:54-74 | the tool's C(n,r) equals its C(n,n−r) |
| Combinatorics.EmptyAndFullSelections | combinatorics.py:31-74 | P(n,0) = C(n,0) = C(n,n) = 1 |
| Combinatorics.PermutationIsCombinationTimesOrderings | combinatorics.py:31-74 | P(n,r) = C(n,r)·r! |
| Combinatorics.Fibonacci | combinatorics.py:77-102 | negative refused first; success exactly for 0..1000; the loop yields F(n) |
| ComputerScience.Digits | computer_science_tools.py:97-154 | at least one digit, each below the base, no leading zero |
| ComputerScience.ValueOfDigits | computer_science_tools.py:97-154 | reading back the digits of v gives v |
| ComputerScience.DigitsStep | computer_science_tools.py:97-154 | digits of v are those of v/b followed by v%b |
| ComputerScience.ValueOfSnoc | computer_science_tools.py:97-154 | appending a digit multiplies by the base and adds it |
| ComputerScience.ValueOfSingle | computer_science_tools.py:97-154 | one digit denotes itself |
| ComputerScience.DigitsOfValue | computer_science_tools.py:97-154 | a digit list without leading zero is the digits of its value |
| ComputerScience.LeadingDigitPositive | computer_science_tools.py:97-154 | a non-zero leading digit gives a positive value |
| ComputerScience.DigitString | computer_science_tools.py:97-154 | the output string spells the digits, hex upper case, each character one of the first b of 0-9A-F |
| ComputerScience.DigitCharSpelled | computer_science_tools.py:97-154 | each digit below 16 is spelled by its place in 0-9A-F |
| ComputerScience.DigitStringRoundTrip | computer_science_tools.py:97-154 | the output string read back in its base is the value |
| ComputerScience.BaseConversion | computer_science_tools.py:97-154 | missing parameter, then unsupported base, then negative value, then invalid binary digits, then invalid octal digits, each error exactly where the earlier guards pass; success exactly for supported bases, a non-negative value, and digits valid for a binary/octal source; the decimal is the value's decimal digits read in from_base, and the output reads back to it |
| ComputerScience.DecimalRoundTrip | computer_science_tools.py:97-154 | from base 10 the decimal value is the input |
| ComputerScience.BinaryOctalRoundTrip | computer_science_tools.py:97-154 | v spelled in base 2 or 8 converts back to v in base 10 |
| ComputerScience.AcceptedConversion | computer_science_tools.py:97-154 | past the guards, the result is the read value and its spelling |
| ComputerScience.OrIsAndPlusXor | computer_science_tools.py:295-346 | a \| b = (a & b) + (a ^ b) |
| ComputerScience.XorSelfInverse | computer_science_tools.py:331-346 | (a ^ b) ^ b = a |
| ComputerScience.XorSelf | computer_science_tools.py:331-346 | a ^ a = 0 |
| ComputerScience.XorZeroMeansEqual | computer_science_tools.py:331-346 | a ^ b = 0 only when a = b |
| ComputerScience.AndOrBounds | computer_science_tools.py:295-328 | AND is below both operands, OR above both |
| ComputerScience.Bitwise | computer_science_tools.py:295-346 | missing operand first; success exactly for non-negative operands; the result is the bitwise AND, OR or XOR of the operands, within the AND/OR bounds, and XOR is invertible |
| ComputerScience.Not8OnByte | computer_science_tools.py:349-364 | (~v) & 0xFF = 255 − v on 0..255 |
| ComputerScience.BitwiseNot | computer_science_tools.py:349-364 | missing value first; success exactly on 0..255, with 255 − v = v ^ 255 |
| ComputerScience.XorMask8 | computer_science_tools.py:349-364 | v ^ 255 = 255 − v on a byte |
| ComputerScience.Pow2 | computer_science_tools.py:367-408 | 2^k ≥ 1 |
| ComputerScience.XorAllOnes | computer_science_tools.py:349-364 | XOR with k one-bits complements a k-bit number |
| ComputerScience.NotInvolution | computer_science_tools.py:349-364 | NOT twice gives the value back |
| ComputerScience.ShiftLeft | computer_science_tools.py:367-386 | missing parameter first; success exactly for v ≥ 0 and 0 ≤ position ≤ 32; v·2^position |
| ComputerScience.ShiftRight | computer_science_tools.py:389-408 | the same guards; the floor of v / 2^position |
| ComputerScience.ShiftRoundTrip | computer_science_tools.py:367-408 | shifting left then right by k gives v back |
| ComputerScience.AsciiToChar | computer_science_tools.py:411-438 | missing value first; success exactly on 0..127, with the character of that code |
| ComputerScience.CharToAscii | computer_science_tools.py:441-469 | missing text first, then not one character; success exactly for one ASCII character, with its code |
| ComputerScience.AsciiRoundTrips | computer_science_tools.py:411-469 | the two ASCII conversions are inverse on 0..127 |
| ToolTemplate.ReportRaised | consolidated_tool_template.py:50-57 | TypeError, ValueError and ZeroDivisionError each map to their own error; anything else is a generic failure |
| ToolTemplate.ConsolidatedToolTemplate.constructor | consolidated_tool_template.py:12-14 | a new tool has no operations |
| ToolTemplate.ConsolidatedToolTemplate.RegisterOperation | consolidated_tool_template.py:16-18 | binds the name, replacing an old binding; a new name goes last, a re-registered one keeps its place; names stay distinct |
| ToolTemplate.ConsolidatedToolTemplate.GetSupportedOperations | consolidated_tool_template.py:20-22 | each registered name once, in registration order |
| ToolTemplate.ConsolidatedToolTemplate.ValidateOperation | consolidated_tool_template.py:24-26 | true exactly for registered names |
| ToolTemplate.ConsolidatedToolTemplate.ExecuteOperation | consolidated_tool_template.py:36-57 | unregistered exactly when refused with the supported list; otherwise the function's result or its exception class |
| ToolTemplate.ConversionKey | consolidated_tool_template.py:73-75 | from + "_to_" + to: the length, the prefix and suffix being the units and the infix `_to_` between them |
| ToolTemplate.ConversionKeyInjective | consolidated_tool_template.py:73-75 | for units without underscores the key determines both units |
| ToolTemplate.ConversionTool.constructor | consolidated_tool_template.py:63-65 | a new conversion tool has no conversions |
| ToolTemplate.ConversionTool.RegisterConversion | consolidated_tool_template.py:67-71 | creates the inner table of a new source unit and sets one entry; every other entry is unchanged |
| ToolTemplate.ConversionTool.ValidateConversion | consolidated_tool_template.py:77-80 | true exactly when both keys are present |
| ToolTemplate.ConversionTool.Convert | consolidated_tool_template.py:82-110 | unregistered exactly when refused; a factor multiplies, a function is applied or its exception is reported; the duration is reported exactly when time_hours ≠ 1 |
| ToolTemplate.RegisterThenValidate | consolidated_tool_template.py:67-80 | after registering, a pair is valid exactly when it is the registered one or was valid before |
| ToolTemplate.ValidatePositive | consolidated_tool_template.py:114-117 | refuses exactly the negative values; zero passes |
| ToolTemplate.ValidateNonZero | consolidated_tool_template.py:119-122 | refuses exactly zero |
| ToolTemplate.ValidateRange | consolidated_tool_template.py:124-127 | passes exactly the closed interval |
| ToolTemplate.ValidateAngleUnit | consolidated_tool_template.py:129-132 | passes exactly "radians" and "degrees" |
| ToolTemplate.RangeEdges | consolidated_tool_template.py:124-127 | an empty interval refuses everything; a point interval accepts only its point |
| ToolTemplate.SafeDivide | consolidated_tool_template.py:136-140 | error exactly for divisor 0; otherwise the quotient times b is a |
| ToolTemplate.SafeSqrt | consolidated_tool_template.py:142-146 | error exactly for negatives; otherwise a non-negative root |
| ToolTemplate.SafeLog | consolidated_tool_template.py:148-156 | a non-positive value, then a bad base (≤ 0 or 1), are errors; otherwise ln(value), or the logarithm that times ln(base) gives ln(value) |
| DataAnalysis.Enumerate | data_analysis.py:256 | the (value, index) pairs of the data |
| DataAnalysis.ConvertToRanks | data_analysis.py:254-263 | ranks are a permutation of 1..n; a smaller value gets a smaller rank; equal values rank in input order (stable sort) |
| DataAnalysis.FillRanks | data_analysis.py:259-261 | the loop writes rank p+1 at the original index of the p-th sorted entry |
| DataAnalysis.Located | data_analysis.py:256-257 | each sorted entry is the enumerated entry at its index |
| DataAnalysis.DistinctPositions | data_analysis.py:256-257 | the sorted entries carry distinct in-range indices |
| DataAnalysis.RankIs | data_analysis.py:259-261 | the rank of index i is one more than its sorted position |
| DataAnalysis.RanksFromOrder | data_analysis.py:254-263 | ranks are 1..n, all present, and follow the sort order |
| DataAnalysis.SortByValue | data_analysis.py:257 | the stable sort by value: ordered by (value, index) and a permutation |
| DataAnalysis.SinkEntry | data_analysis.py:257 | one insertion step keeps the prefix ordered and the array a permutation |
| DataAnalysis.ShiftedOrdered | data_analysis.py:257 | inserting by shifting keeps the (value, index) order |
| DataAnalysis.MedianSplitsSorted | data_analysis.py:121-128 | on sorted data, the lower half is at most the median and the upper half at least it; the middle element for odd n |
| DataAnalysis.MedianWithinRange | data_analysis.py:121-137 | min ≤ median ≤ max |
| DataAnalysis.Median | data_analysis.py:121-128 | on sorted data, lies between the two middle elements (the middle element itself for odd n) |
| DataAnalysis.InterpolatePercentile | data_analysis.py:302-317 | positions ≤ 1 give the first element, ≥ n the last, whole positions the element at that position |
| DataAnalysis.InterpolateBetweenNeighbours | data_analysis.py:308-317 | inside, the value lies between its two neighbours |
| DataAnalysis.LerpBetween | data_analysis.py:316-317 | the interpolation stays between its ends |
| DataAnalysis.LerpMonotone | data_analysis.py:316-317 | the interpolation is monotone in the fraction |
| DataAnalysis.InterpolateMonotone | data_analysis.py:302-317 | on sorted data the interpolation is monotone in the position and within range |
| DataAnalysis.Outside | data_analysis.py:472 | exactly the elements strictly outside the fences, each with its multiplicity |
| DataAnalysis.FencesOf | data_analysis.py:459-469 | min ≤ Q1 ≤ Q3 ≤ max; IQR = Q3 − Q1 ≥ 0; lower ≤ Q1 and Q3 ≤ upper |
| DataAnalysis.InterpolatedWithinRange | data_analysis.py:282-290 | quartiles are ordered and within the data's range |
| DataAnalysis.OutliersDetection | data_analysis.py:443-483 | a missing argument exactly when it is None, then an empty list, then 1 to 3 points are refused, and success exactly for 4 or more points; otherwise the fences and the sorted list of points outside them |
| DataAnalysis.ReportOutliers | data_analysis.py:453-473 | n is the number of points, the fences are those of the data, and the outliers are the points outside them, sorted |
| DataAnalysis.OutlierListIsExact | data_analysis.py:468-473 | the outlier list is sorted and contains exactly the points outside the fences, each with its multiplicity |
| DataAnalysis.Lower | data_analysis.py:182 | `str.lower` on ASCII letters, other characters unchanged |
| DataAnalysis.CorrelationGuard | data_analysis.py:172-201 | missing data first; then the method check (default Pearson, case-insensitive); then an empty dataset, then length mismatch, then fewer than 2 points, each error exactly where the earlier guards pass; success exactly when both are given, the method is known and the lengths agree and are at least 2, and picks Pearson or Spearman |
| DataAnalysis.ZScoreOf | data_analysis.py:142-169 | missing parameter, then non-positive std_dev; success for every given triple with σ > 0; z·σ = value − mean; bands by \|z\| ≤ 1, 2, 3 |
| DataAnalysis.ZScoreBandSymmetric | data_analysis.py:155-162 | values mirrored about the mean fall in the same band |
| Sorting.Insert | data_analysis.py:122 | one longer, with the smaller head, and the same multiset plus x |
| Sorting.InsertCorrect | data_analysis.py:122 | inserting into a sorted list keeps it sorted |
| Sorting.Sort | data_analysis.py:122 | `sorted`: a sorted permutation of the input |
| Sorting.SortedUnique | data_analysis.py:122 | two sorted permutations of the same multiset are equal |
| Sorting.SortOfSorted | data_analysis.py:122 | sorting sorted data changes nothing |
| Sorting.SortInPlace | data_analysis.py:473 | `list.sort` in place leaves the array equal to `sorted` of its old contents |
| Sorting.InsertAt | data_analysis.py:473 | one insertion step extends the sorted prefix and permutes the array |
| Sorting.ShiftDown | data_analysis.py:473 | shifting larger elements right, everything else unchanged |
| Sorting.ShiftedSorted | data_analysis.py:473 | the shifted prefix is sorted |
| Sorting.ShiftedPermutes | data_analysis.py:473 | the shift is a permutation |
| Sorting.Min | data_analysis.py:136 | `min`: an element, at most every element |
| Sorting.Max | data_analysis.py:137 | `max`: an element, at least every element |
| Sorting.SortedFirstIsMin | data_analysis.py:122-136 | the first sorted element is the minimum |
| Sorting.SortedLastIsMax | data_analysis.py:122-137 | the last sorted element is the maximum |
| Text.StripLeft | consolidated_statistics.py:14 | drops exactly the leading whitespace |
| Text.StripRight | consolidated_statistics.py:14 | drops exactly the trailing whitespace |
| Text.Strip | consolidated_statistics.py:14 | no longer than the string, with no whitespace at either end; empty for an all-whitespace string |
| Text.StripEmptyIffBlank | consolidated_statistics.py:14-15 | strip is empty exactly for all-whitespace strings |
| Text.SplitOn | consolidated_statistics.py:19-20 | `split(',')`: at least one piece, none containing the separator |
| Text.JoinSplit | consolidated_statistics.py:19-20 | joining the pieces with the separator gives the string back |
| Text.SplitJoin | consolidated_statistics.py:19-20 | splitting a join of separator-free pieces gives the pieces |
| Text.SplitOnAppendSep | consolidated_statistics.py:19-20 | a trailing separator adds an empty piece |
| Text.WordsFrom | consolidated_statistics.py:21-22 | every word is non-empty and whitespace-free |
| Text.SplitWhitespaceEmptyIffBlank | consolidated_statistics.py:21-22 | `split()` is empty exactly for all-whitespace strings |
| Text.SplitWhitespace | consolidated_statistics.py:21-22 | `split()`: every word non-empty and whitespace-free, and no words exactly for an all-whitespace string |
| StatisticsTool.CommaTokens | consolidated_statistics.py:20 | stripped non-empty pieces, no more than the pieces |
| StatisticsTool.Tokens | consolidated_statistics.py:19-22 | comma-separated if a comma is present, else whitespace-separated; no empty token |
| StatisticsTool.ParseAll | consolidated_statistics.py:20-22 | fails exactly when some token does not parse; otherwise one number per token |
| StatisticsTool.ParseTokens | consolidated_statistics.py:20-31 | no tokens, then an invalid token, are the errors; otherwise one number per token |
| StatisticsTool.ParseNumbers | consolidated_statistics.py:12-31 | blank, then no tokens, then invalid format; success exactly for a non-blank string with at least one token, every token converting, and then one number per token |
| StatisticsTool.CommaTokensOfWords | consolidated_statistics.py:20 | non-empty whitespace-free pieces are kept as they are |
| StatisticsTool.JoinedTokens | consolidated_statistics.py:19-20 | a comma-joined list of words tokenises back to the words |
| StatisticsTool.ParseCommaList | consolidated_statistics.py:12-31 | a comma-joined list of parseable words parses to their values |
| StatisticsTool.ValidateMinimumCount | consolidated_statistics.py:34-37 | fails exactly below the minimum count |
| StatisticsTool.PercentileIndex | consolidated_statistics.py:130 | the index lies in [0, n−1] |
| StatisticsTool.InterpolateAtIndex | consolidated_statistics.py:122-141 | at a whole index the interpolation is the element there; otherwise the blend of that element and the next by the fractional part |
| StatisticsTool.LinearPercentile | consolidated_statistics.py:122-141 | the percentile formula equals the data-analysis interpolation at index + 1 |
| StatisticsTool.PercentileIndexMonotone | consolidated_statistics.py:130 | the index is monotone in p |
| StatisticsTool.LinearAtEnds | consolidated_statistics.py:122-141 | p = 0 gives the first element, p = 100 the last |
| StatisticsTool.LinearPercentileMonotone | consolidated_statistics.py:122-141 | on sorted data monotone in p and within range |
| StatisticsTool.PercentileIsLinear | consolidated_statistics.py:115-141 | the special cases (0 → min, 100 → max, 50 → median) agree with the formula |
| StatisticsTool.PercentileAtEnds | consolidated_statistics.py:116-119 | min and max are the formula at 0 and 100 |
| StatisticsTool.MedianIsFiftiethPercentile | consolidated_statistics.py:120-121 | the median is the 50th percentile of the formula |
| StatisticsTool.PercentileMonotone | consolidated_statistics.py:108-144 | min ≤ P(p1) ≤ P(p2) ≤ max for p1 ≤ p2 |
| StatisticsTool.Percentile | consolidated_statistics.py:108-144 | the formula on the sorted data, and between the minimum and the maximum |
| StatisticsTool.Calculate | consolidated_statistics.py:53-152 | a parse error wins; otherwise the dispatch on the operation |
| StatisticsTool.Dispatch | consolidated_statistics.py:76-147 | success exactly for one of the seven operations, with at least 2 numbers for standard deviation and variance and a percentile in [0, 100] for percentile |
| StatisticsTool.DispatchUnsupported | consolidated_statistics.py:146-147 | unsupported exactly for names outside the seven operations |
| StatisticsTool.DispatchDelegated | consolidated_statistics.py:76-99 | mean/median/mode delegate; stdev/variance refuse fewer than 2 numbers |
| StatisticsTool.DispatchRangeStats | consolidated_statistics.py:101-106 | min and max are elements bounding all data; range = max − min ≥ 0 |
| StatisticsTool.DispatchPercentile | consolidated_statistics.py:108-144 | missing, then out of [0,100]; otherwise the percentile, within range |
| ConversionTable.Inverse | convert_units.py:83-195 | the reverse lambda: multiplication and division swap |
| ConversionTable.InverseInvolutive | convert_units.py:83-195 | reversing twice gives the lambda back |
| ConversionTable.InverseUndoes | convert_units.py:83-195 | for a non-zero duration, the reverse lambda undoes the forward one |
| ConversionTable.Reversed | convert_units.py:83-195 | the reverse entry swaps the units |
| ConversionTable.PairedHasReverses | convert_units.py:83-195 | every entry's reverse is in the table |
| ConversionTable.TableLayout | convert_units.py:83-195 | the dictionary holds 90 lambdas: 45 conversions, each followed by its reverse |
| ConversionTable.PairedLayout | convert_units.py:83-195 | written out, the h-th pair sits at positions 2h and 2h + 1 |
| ConversionTable.Lookup | convert_units.py:197-202 | None exactly when no entry has the key; otherwise an entry with that key |
| ConversionTable.LookupFirst | convert_units.py:197-202 | the first entry with the key is found |
| ConversionTable.TableRoundTrip | convert_units.py:83-195 | for each entry the reverse is in the table and undoes it |
| ConversionTable.TemperatureInverse | convert_units.py:97-98 | C→F and F→C are inverse; −40 ↦ −40 and 100 ↦ 212 |
| ConversionTable.TemperatureEntries | convert_units.py:97-98 | the temperature pair in its table position |
| ConversionTable.KilowattHoursReverse | convert_units.py:87-88 | kW→kWh multiplies by the hours, kWh→kW divides |
| ConversionTable.KilowattHoursEntry | convert_units.py:87 | the kW→kWh key finds the multiply-by-hours lambda |
| ConversionTable.PairDuration | convert_units.py:83-195 | of the dictionary's forward entries none divides by the duration and only kW→kWh multiplies by it |
| ConversionTable.HourlyEntry | convert_units.py:83-195 | the only lambda dividing by the duration is the kWh→kW entry's |
| ConversionTable.CelsiusEntry | convert_units.py:97 | the C→F key finds the C→F lambda |
| UnitGuards.QuantityOfListed | convert_units.py:62-80 | a unit is checked exactly when it is listed, and under a group listing it |
| UnitGuards.UnguardedTemperatures | convert_units.py:62-80 | Celsius and Fahrenheit accept negatives |
| UnitGuards.UnguardedAngles | convert_units.py:62-80 | degrees and radians accept negatives |
| UnitGuards.KilowattsArePower | convert_units.py:63-64 | kilowatts are checked as power |
| ConvertUnits.Convert | convert_units.py:24-218 | non-positive hours for the energy-time keys first; then negative guarded units; then unsupported exactly when no key matches; the exception handler is never reached, because the only lambda that can divide by zero sits under a duration key; success applies the lambda the key finds, which does not raise |
| ConvertUnits.KilowattHours | convert_units.py:52-88 | hours ≤ 0 refused before the sign; negative kW refused; otherwise the value times the hours, reported with the duration unless 1 |
| ConvertUnits.KilowattHoursNote | convert_units.py:205-215 | the kW→kWh report carries the duration unless it is 1 |
| ConvertUnits.KilowattHoursKey | convert_units.py:52-56 | the kW→kWh key is the first energy-time key |
| ConvertUnits.KilowattHoursReverseKey | convert_units.py:52-56 | the kWh→kW key is the second energy-time key |
| ConvertUnits.RaisesOnlyForDuration | convert_units.py:57-216 | a looked-up lambda raises only under the kWh→kW key with a zero duration, which the duration check refuses |
| ConvertUnits.ConvertFound | convert_units.py:197-215 | past the guards a found key converts with its lambda |
| ConvertUnits.CelsiusToFahrenheitAnyValue | convert_units.py:62-98 | negative Celsius converts; the duration plays no part |
| Precision.Name | precision.py:8-14 | each operation's name is one of the five keys |
| Precision.ParseOperation | precision.py:38-40 | recognised exactly for the five keys, by exact match |
| Precision.ParseName | precision.py:38-40 | each operation is recognised by its own name and only by it |
| Precision.FloorOf | precision.py:70-76 | the largest integer not above n |
| Precision.CeilingOf | precision.py:78-84 | the smallest integer not below n |
| Precision.AbsoluteOf | precision.py:94-100 | non-negative, ±n |
| Precision.FloorCeilingExtreme | precision.py:70-84 | no integer lies between n and its floor or ceiling |
| Precision.FloorCeilingGap | precision.py:70-84 | floor = ceiling exactly on integers, else one apart |
| Precision.TruncateOf | precision.py:86-92 | the ceiling for negatives; never larger in magnitude than n and less than 1 below it in magnitude |
| Precision.TruncateTowardZero | precision.py:86-92 | the floor of non-negatives, the ceiling of negatives, never away from zero |
| Precision.FormatPrecision | precision.py:20-57 | unknown operation first; round needs places ≥ 0; each operation's result characterised |
| Precision.CaseSensitive | Tests/test_format_precision.py:231-239 | capitalised names are unknown |
| Precision.TruncateExamples | Tests/test_format_precision.py:144-162 | floor, ceiling and truncation of ±3.7 |
| SolveEquations.SolveQuadratic | solve_equations.py:66-106 | missing coefficients; a = 0 falls to b·x + c with no/all/one solution; otherwise two real, repeated or complex roots by the sign of the discriminant |
| SolveEquations.ScaledRoot | solve_equations.py:90-100 | (−b ± s)/2a with s² = d is a root |
| SolveEquations.ScaledComplexRoot | solve_equations.py:102-106 | −b/2a ± (s/2a)·i with s² = −d is a root |
| SolveEquations.TwoRealRootsSolve | solve_equations.py:90-95 | both reported roots solve the equation |
| SolveEquations.RepeatedRootSolves | solve_equations.py:97-100 | the repeated root solves the equation |
| SolveEquations.ComplexRootsSolve | solve_equations.py:102-106 | the complex pair solves the equation |
| SolveEquations.TwoRealRootsDistinct | solve_equations.py:90-95 | the two real roots differ |
| SolveEquations.SolveLinear | solve_equations.py:109-124 | missing, then a = 0 (all reals or none), else the single solution of a·x + b = 0 |
| SolveEquations.LinearSolutionUnique | solve_equations.py:123-124 | every solution is the reported one |
| SolveEquations.Solve | solve_equations.py:46-60 | unknown type exactly outside the two names; routing; linear ignores c |
| SolveEquations.DegenerateQuadraticIsLinear | solve_equations.py:76-85 | a quadratic with a = 0 is solved as b·x + c = 0 |
| Arithmetic.Divide | arithmetic.py:37-46 | error exactly for b = 0; otherwise the quotient times b is a |
| Arithmetic.DivideUndoesMultiply | arithmetic.py:37-46 | (a·b)/b = a |
| Arithmetic.GateAdmitsNoName | arithmetic.py:53-55 | nothing past the gate is a letter, an underscore or non-ASCII except whitespace |
| Arithmetic.Gate | arithmetic.py:53-55 | a string past the gate holds no letter and no underscore |
| Arithmetic.AllowedIsNoNameChar | arithmetic.py:53-54 | an allowed character is no letter, no underscore, and ASCII unless whitespace |
| Arithmetic.Calculate | arithmetic.py:49-65 | invalid characters exactly when the gate fails; otherwise the evaluator's value or each exception's own error |
| Arithmetic.GateBeforeEval | arithmetic.py:53-58 | a refused expression is never evaluated |
| Arithmetic.ImportRefused | arithmetic.py:53-55 | `__import__('os')` is refused |
| Arithmetic.ExamplesPassGate | Tests/test_arithmetic.py:102-118 | the tool's example expressions pass the gate |

## Left out

- The MCP plumbing is not modelled: `register_tools`, the dispatch of
  `manipulate_matrices`, `computer_science_tools` and `data_analysis`, the
  async wrappers, and the formatting of answers and error messages. Each
  distinct message is an error constructor.
- JSON and string decoding of matrix and data arguments (`json.loads`,
  `_parse_data`) is not modelled. The model takes the decoded lists. An
  argument the tool may receive as `None` is an `Option`, and its refusal is
  modelled as an error. The `isinstance` and `is_integer` checks are left out
  because the model's types already are integers or reals.
- Floats are exact reals and integers are unbounded. Rounding error,
  overflow, NaN and infinities are not modelled.
- `math.sqrt`, `math.log`, `round`, `float()` and `eval` are parameters. The
  requirements on them are stated where proofs need them. No expression
  grammar is modelled, so the precedence results of the arithmetic tests
  are not derived.
- NumberTheory.IsPrime: `is_prime` and `is_perfect_square` bound the search
  with the float `math.sqrt`. The model uses the exact integer square root,
  which is what that bound is meant to compute.
- DataAnalysis.Lower: only ASCII letters are lower-cased.
- DataAnalysis.InterpolatePercentile: the branch at data_analysis.py:312-313
  cannot be reached, because a position below n keeps the upper index in
  range. The model omits it.
- Pearson and Spearman coefficients and the strength wording of
  `_correlation` are left out. So are the quartile report of `_quartiles`
  (its guards match OutliersDetection's, its quartiles are
  DataAnalysis.InterpolatePercentile), skewness, kurtosis, the coefficient of
  variation, confidence intervals, standardisation, the IQR analysis,
  `_data_size`, hashing and Big-O analysis. All are float formulas or
  message tables.
- Mean, median, mode, standard deviation and variance are delegated to
  Python's `statistics` library. The model records the delegation and does
  not recompute them. The exception is the median used by the percentile,
  which is defined.
- `add`, `subtract` and `multiply` in `arithmetic.py` are single float
  operations without a guard.
- Banker's rounding in `_round_to_decimal` is the `round` parameter.
- ConvertUnits.KilowattHours: the result is stated as the table lambda
  applied to the value, which is value × hours. The same holds for
  ConvertUnits.CelsiusToFahrenheitAnyValue and value × 9/5 + 32.
- UnitGuards.QuantityOfListed: units other than temperatures, angles and
  kilowatts are covered only by this generic lemma, not one lemma per unit.
- ConversionTable.Lookup returns the first entry with a key. The 90 keys of
  the Python dictionary are distinct, so this is the entry the dictionary
  holds. The model does not prove that distinctness; ConvertUnits.Convert
  states its result as the lambda Lookup finds.
- Unit conversions outside `convert_units.py` (`conversions.py` and the
  prototype) are not part of this model.
