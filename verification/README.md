# BigFix in Dafny

A verified model of `BigFix.py`, a Python fixed-point number class plus helpers for nested lists.

A BigFix value keeps one mutable field `big`: the value times `big1 = 10^100`, held in an unbounded Python int. Each operator is integer arithmetic on `big`, using Python's floor division. There are two printers. `full()` prints every digit. `__str__` first snaps the value with `BigRound`, then prints at most ten fractional digits. Around the class sit two sets of helpers:

- `Fix`/`rFix` coerce nested lists of ints, strings and BigFix objects into lists of BigFix.
- `Visit`/`rVisit` apply a binary function pairwise to two nested lists and report shape mismatches through the module-level flag `BadTrip`.

`Add`/`Sub`/`Mul`/`Div`, `dot`, `vector_sum`, `matrix_sum`, `scalar_multiply` and `divide_by_scalar` are built on these.

Modules:

- `PyInt`: Python's `//`, `%` and `math.isqrt` on unbounded ints. Python's `//` floors, while Dafny's `/` is Euclidean.
- `PyStr`: `str(int)`, `int(str)` on optionally signed digit strings, slicing and `rstrip('0')`.
- `FixedPoint`: the integer expression behind each operator and printer, as functions of the scaled integers. Python exceptions are the `Failure` side of a `Result`.
- `FixedPointFacts`: the algebra of those expressions.
- `RenderFacts`: what `full()` and `__str__` print.
- `BigFixes`: the class `BigFix` with its mutable field `big`. Operators return fresh objects built by `Big`. The in-place divisions overwrite `big` and return `self`.
- `Nested`: nested data as trees, the coercion and visit definitions, and their properties.
- `Engine`: `rFix`/`Fix` as methods that build the list by appending, and `Visit`/`rVisit` as methods of a `Visitor` object whose field `badTrip` is the global flag. `Add`/`Sub`/`Mul`/`Div`/`dot` live here too. Each method is proved equal to the `Nested` definition.
- `Aggregates`: `vector_sum` and `matrix_sum` as loops, and `scalar_multiply` and `divide_by_scalar` as functions.

Conventions:

- A BigFix leaf or operand is represented by its scaled integer.
- A plain int operand is `Num.Int`/`Operand.IntArg`, and is coerced with `BigFix(n)` as the source does.
- `None` results are `Option.None` leaves.
- The flag `BadTrip` after a visit is the `trip` half of an `Outcome`.

## Model

| member | source | states |
|---|---|---|
| PyInt.FloorDiv | BigFix.py:93 | Python `//`: the unique q with q·y ≤ x < q·y + y for y > 0 (mirrored for y < 0) |
| PyInt.FloorMod | BigFix.py:103-108 | the floor remainder x − y·(x // y), in [0, y) for y > 0 and in (y, 0] for y < 0: the reference `__mod__` is proved equal to (the source itself never applies `%` to ints) |
| PyInt.Isqrt | BigFix.py:148 | `math.isqrt(n)`: r·r ≤ n < (r+1)² |
| PyStr.NatStrValue | BigFix.py:58 | the digits `str(n)` writes spell n |
| PyStr.ParseIntStr | BigFix.py:184 | `int(str(n)) == n` for every int n |
| PyStr.IntStrOfNegative | BigFix.py:58 | `str(-n)` is '-' followed by `str(n)` |
| PyStr.NatStr | BigFix.py:58 | `str(n)` for n ≥ 0: a non-empty run of digits, one digit exactly when n < 10 |
| PyStr.IntStr | BigFix.py:58 | `str(n)` for any int: non-empty, a '-' before the digits of a negative number |
| PyStr.ParseInt | BigFix.py:184 | `int(s)` on an optionally signed digit string, None (ValueError) otherwise; ParseIntStr proves it inverts IntStr |
| PyStr.RStripZeros | BigFix.py:60 | `rstrip('0')`: a prefix of s, not ending in '0', with only '0's cut off |
| PyStr.Slice | BigFix.py:60 | Python's `s[i:j]` with bounds past the end clamped: never longer than s |
| PyStr.RStripZerosValue | BigFix.py:144 | `rstrip('0')` removes only trailing zeros: the stripped digits times 10 to the number removed give the original value |
| FixedPoint.Scaled | BigFix.py:75-76 | an int operand is coerced with `BigFix(other)` to a multiple of big1 with quotient n; a BigFix operand gives its own `big` |
| FixedPoint.FromInt | BigFix.py:133-134 | `fromInt(n)` stores a scaled integer whose floor quotient by big1 is n and whose remainder is 0 |
| FixedPoint.Add | BigFix.py:74-77 | `__add__`: the scaled integers added with no rescaling; AddSubInverse states its algebra |
| FixedPoint.Sub | BigFix.py:82-85 | `__sub__`: the scaled integers subtracted; AddSubInverse proves it undoes Add |
| FixedPoint.Mul | BigFix.py:90-93 | the product is the floor of a·b / big1: r·big1 ≤ a·b < r·big1 + big1 |
| FixedPoint.Quotient | BigFix.py:125-128 | fails with ZeroDivisionError exactly when the divisor is 0; otherwise it is the floor of a·big1 / b (bounds for both signs of b) |
| FixedPoint.Trunc | BigFix.py:130-131 | a multiple of big1 with r ≤ a < r + big1: the floor, not toward zero |
| FixedPoint.Mod | BigFix.py:103-108 | fails exactly when the divisor is 0 |
| FixedPoint.Sqrt | BigFix.py:146-148 | fails with ValueError exactly for a negative value; otherwise r·r ≤ a·big1 < (r+1)² |
| FixedPoint.RSub | BigFix.py:79-80 | `__rsub__` as written: it calls `__sub__` with self first; RSubSwapsOperands states the consequence |
| FixedPoint.RQuotient | BigFix.py:122-123 | `__rtruediv__` (and `__rfloordiv__`, 95-96) as written: Quotient with self first; OneOverTwoAsWritten shows the consequence |
| FixedPoint.RSubIntended | BigFix.py:79-80 | the intended `other - self`: adding self back gives other |
| FixedPoint.RQuotientIntended | BigFix.py:122-123 | the intended `other / self`: fails exactly for self == 0, else the floor of other·big1 / self (bounds for both signs of self) |
| FixedPoint.Full | BigFix.py:139-144 | `full()`: `str(floor)`, then for a non-zero remainder '.' and FullFraction; FullParts and ReadFullInverse state what it prints |
| FixedPoint.FullFraction | BigFix.py:144 | `str(bottom + big1)[1:]` stripped of trailing zeros; FullFractionDigits proves it is the stripped 100-digit remainder |
| FixedPoint.Str | BigFix.py:53-60 | `__str__`: the body applied to the BigRound-ed value; StrWidth and StrShape state what it prints |
| FixedPoint.ShowRounded | BigFix.py:55-60 | the body of `__str__` after BigRound: `str(top)`, then for a non-zero remainder '.' and ShownFraction; ShowRoundedParts states it |
| FixedPoint.ShownFraction | BigFix.py:59-60 | `str(bottom + big1)[1:prec + 1]` stripped of trailing zeros; ShownFractionDigits proves it is the first ten remainder digits, stripped |
| FixedPoint.StrIntended | BigFix.py:53-60 | `__str__` with the intended rounding; StrIntendedIsFull and StrIntendedDropsNoise state what it prints |
| FixedPoint.DisplayRound | BigFix.py:207-211 | `BigRound` gives a multiple of 10^14 in (big − 9·10^13, big + 10^13] |
| FixedPoint.BigRound | BigFix.py:207-211 | the three updates of `ibig` compute DisplayRound: a multiple of 10^14 in (big − 9·10^13, big + 10^13] |
| FixedPoint.DisplayRoundIntended | BigFix.py:207-211 | the rounding evidently intended: a multiple of 10^90 (the grid of the ten shown digits) in (big − 9·10^89, big + 10^89] |
| FixedPointFacts.AddSubInverse | BigFix.py:74-85 | `(a + b) - b == a` and `a + b == b + a` |
| FixedPointFacts.FromIntExact | BigFix.py:47-49 | `BigFix(n)` stores n·10^100, which `trunc` leaves unchanged |
| FixedPointFacts.MulByOne | BigFix.py:90-93 | `a * BigFix(1) == a` and `BigFix(1) * a == a`, whatever a's fraction |
| FixedPointFacts.MulOfInts | BigFix.py:90-93 | `BigFix(m) * BigFix(n) == BigFix(m·n)` exactly |
| FixedPointFacts.DivBySelf | BigFix.py:125-128 | `a / a` has big == big1 for a ≠ 0; dividing by `BigFix(0)` raises ZeroDivisionError |
| FixedPointFacts.DivOfInts | BigFix.py:125-128 | `BigFix(m) / BigFix(n)` is the floor of m·big1 / n |
| FixedPointFacts.ModIsFloorRemainder | BigFix.py:103-108 | `__mod__` equals the floor remainder a − b·⌊a/b⌋: in [0, b) for b > 0 and in (b, 0] for b < 0 |
| FixedPointFacts.ChopIsFloorQuotient | BigFix.py:106-107 | `chop // big1` equals `a // b`: nested floor divisions collapse |
| FixedPointFacts.ChopProduct | BigFix.py:108 | `other * chop` is exact because chop is a multiple of big1 |
| FixedPointFacts.TruncIdempotent | BigFix.py:130-131 | truncating twice is truncating once |
| FixedPointFacts.SqrtOfSquare | BigFix.py:146-148 | sqrt(a·a) is at most a, and at least a − 1 scaled unit once a ≥ 1/2 |
| FixedPointFacts.SqrtOfIntSquare | BigFix.py:146-148 | sqrt of `BigFix(n) * BigFix(n)` is `BigFix(n)` exactly |
| FixedPointFacts.RSubSwapsOperands | BigFix.py:79-80 | `__rsub__` returns the negation of `other - self`: `5 - BigFix(1)` gives −4 |
| FixedPointFacts.OneOverTwoAsWritten | BigFix.py:122-123 | `1 / BigFix(2)` gives 2 as written |
| FixedPointFacts.OneOverTwoIntended | BigFix.py:122-123 | `1 / BigFix(2)` with the operands in order gives 0.5 |
| RenderFacts.ShiftedDigits | BigFix.py:60 | `str(bottom + big1)` is '1' followed by bottom written with exactly 100 digits |
| RenderFacts.ShiftedSlices | BigFix.py:60 | `[1:prec+1]` and `[1:]` of that string are the first ten and all hundred padded digits |
| RenderFacts.RStripZerosAppendZeros | BigFix.py:144 | trailing zeros appended to a string do not survive `rstrip('0')` |
| RenderFacts.FullParts | BigFix.py:139-144 | `full()` is `str(floor)`, plus '.' and the stripped hundred digits of the remainder when it is non-zero |
| RenderFacts.FullFractionDigits | BigFix.py:144 | the fraction of `full()` is all hundred digits of the remainder, trailing zeros stripped |
| RenderFacts.FullOfInt | BigFix.py:47-49 | `BigFix(n).full()` is exactly `str(n)` |
| RenderFacts.FracDigitsValue | BigFix.py:144 | a non-zero remainder prints 1 to 100 digits, the last not '0', spelling the remainder |
| RenderFacts.FullEndsInDigit | BigFix.py:139-144 | `full()` never ends in '.' |
| RenderFacts.ReadFullInverse | BigFix.py:139-144 | reading `full()`'s text back as floor and fraction gives `big` exactly: nothing is lost |
| RenderFacts.FullOneDigit | BigFix.py:139-144 | `full()` of n + d/10 is `str(n)`, '.', d |
| RenderFacts.FullOfNegativeFraction | BigFix.py:139-144 | `full()` of −n + d/10 is '-' before the text of n + d/10, so as a decimal it reads −(n + d/10), not the value |
| RenderFacts.FullSignedInverse | BigFix.py:139-144 | the intended signed text reads back as the value for every sign, and equals `full()` on non-negative values |
| RenderFacts.ShowRoundedParts | BigFix.py:55-60 | the body of `__str__` prints `str(floor)`, plus '.' and the first ten digits of the remainder stripped, when the remainder is non-zero |
| RenderFacts.ShownFractionDigits | BigFix.py:59-60 | the fraction of `__str__` is the first ten of the hundred remainder digits, stripped |
| RenderFacts.StrShape | BigFix.py:53-60 | the shown fraction has at most ten digits and does not end in '0' |
| RenderFacts.StrWidth | BigFix.py:53-60 | `__str__` contains a '.' exactly when the BigRound-ed value has a fraction, followed by at most ten digits |
| RenderFacts.DisplayRoundOfMultiple | BigFix.py:207-211 | BigRound leaves a multiple of 10^14 unchanged |
| RenderFacts.OnGrid | BigFix.py:207-211 | n units plus a multiple of 10^14 below big1 is left unchanged by BigRound |
| RenderFacts.StrOfInt | BigFix.py:53-58 | `str(BigFix(n))` is `str(n)` |
| RenderFacts.StrOnGrid | BigFix.py:53-60 | `__str__` of a value already on BigRound's grid is its floor and shown fraction |
| RenderFacts.StrOneDigit | BigFix.py:53-60 | `__str__` of n + d/10 is `str(n)`, '.', d |
| RenderFacts.StrHalfAbove | BigFix.py:53-60 | `__str__` of n + 0.5 is `str(n)` + ".5"; for n = −1 this is how −0.5 prints as "-1.5" |
| RenderFacts.HiddenRemainder | BigFix.py:59-60 | a remainder below 10^90 has only zeros among its first ten digits |
| RenderFacts.StrTrailingDot | BigFix.py:53-60 | a non-zero fraction on the 10^14 grid below 10^90 survives BigRound but prints as `str(n)` + "." |
| RenderFacts.StrTrailingDotExample | BigFix.py:207-211 | n + 341·10^(e−100), for 14 ≤ e ≤ 86, prints as `str(n)` + ".": BigRound keeps the trailing trash it is meant to remove |
| RenderFacts.ShowRoundedOfCoarse | BigFix.py:53-60 | on a value with at most ten fractional digits, `__str__`'s body prints what `full()` prints |
| RenderFacts.StrIntendedIsFull | BigFix.py:53-60 | with the intended rounding, `__str__` prints every digit of the rounded value and ends in a digit |
| RenderFacts.StrIntendedDropsNoise | BigFix.py:207-211 | with the intended rounding (bias 10^89, a tenth of the 10^90 grid), any remainder below 9·10^89 is not shown at all |
| RenderFacts.RoundIntendedDropsNoise | BigFix.py:207-211 | the intended rounding takes n·big1 + bottom, for bottom below 9·10^89, to n·big1 |
| BigFixes.BigFix.constructor | BigFix.py:47-49 | `BigFix(n)` stores `fromInt(n)`, which `full()` prints as `str(n)` |
| BigFixes.BigFix.FromInt | BigFix.py:133-134 | `big` becomes n·big1, an integral value printed as `str(n)` |
| BigFixes.BigFix.FromBig | BigFix.py:136-137 | `big` becomes the given scaled integer |
| BigFixes.BigFix.Add | BigFix.py:74-77 | a fresh object holding the sum of the scaled integers; subtracting the operand gives self back |
| BigFixes.BigFix.RAdd | BigFix.py:71-72 | `other + self` equals `self + other` |
| BigFixes.BigFix.Sub | BigFix.py:82-85 | a fresh object holding the difference; adding the operand back gives self |
| BigFixes.BigFix.RSub | BigFix.py:79-80 | as written: the negation of the intended `other - self` |
| BigFixes.BigFix.Mul | BigFix.py:90-93 | a fresh object holding the floor of the product over big1 |
| BigFixes.BigFix.RMul | BigFix.py:87-88 | `other * self` equals `self * other` |
| BigFixes.BigFix.TrueDiv | BigFix.py:125-128 | raises ZeroDivisionError exactly for a zero divisor; otherwise a fresh object holding Quotient |
| BigFixes.BigFix.FloorDiv | BigFix.py:98-101 | the same result as `__truediv__` |
| BigFixes.BigFix.RTrueDiv | BigFix.py:122-123 | as written: the intended quotient with the operands swapped; ZeroDivisionError exactly when other is zero |
| BigFixes.BigFix.RFloorDiv | BigFix.py:95-96 | as written: `self // other`; ZeroDivisionError exactly when other is zero |
| BigFixes.BigFix.IFloorDiv | BigFix.py:110-114 | overwrites `big` with the quotient and returns the same object; on a zero divisor it raises and nothing changes |
| BigFixes.BigFix.ITrueDiv | BigFix.py:116-120 | the same update as `__ifloordiv__` |
| BigFixes.BigFix.Mod | BigFix.py:103-108 | the chop-and-subtract steps give the floor remainder, in [0, other) for other > 0 |
| BigFixes.BigFix.Trunc | BigFix.py:130-131 | a fresh multiple of big1 r with r ≤ big < r + big1 |
| BigFixes.BigFix.Sqrt | BigFix.py:146-148 | ValueError exactly for a negative value; otherwise r·r ≤ big·big1 < (r+1)² |
| BigFixes.BigFix.Pow | BigFix.py:65-69 | exponent 0.5 is `sqrt()`; any other exponent gives a fresh `BigFix(13)` |
| BigFixes.BigFix.Full | BigFix.py:139-144 | the text reads back as `big` exactly |
| BigFixes.BigFix.ToString | BigFix.py:53-60 | a '.' exactly when the BigRound-ed value has a fraction, then at most ten digits |
| BigFixes.Big | BigFix.py:168-171 | a fresh object whose `big` is the given value |
| BigFixes.Coerce | BigFix.py:75-76 | an int becomes a fresh `BigFix(n)`; a BigFix operand is used as the same object |
| Nested.Coerce | BigFix.py:176-205 | `rFix`/`Fix`: int to `BigFix(n)`, BigFix kept, string through `int()` (ValueError when it fails), sequence item by item into a new list; CoerceMirrors states it |
| Nested.CoerceAll | BigFix.py:185-189 | the loop of `rFix` keeps the number of items |
| Nested.CoerceMirrors | BigFix.py:176-205 | coercion fails (ValueError) exactly on a string `int()` rejects; otherwise it yields the one tree mirroring the input: same list lengths and order, ints scaled, BigFix kept, strings parsed |
| Nested.CoerceAllMirrors | BigFix.py:185-189 | the loop fails exactly when some item fails, and otherwise mirrors item by item |
| Nested.CoerceIdempotent | BigFix.py:181-182 | `Fix(Fix(m)) == Fix(m)`: an already coerced tree is unchanged |
| Nested.CoerceAllPrefixFails | BigFix.py:185-189 | an exception in `rFix`'s loop ends it: later items are never coerced |
| Nested.RVisit | BigFix.py:274-294 | once the flag is set it stays set |
| Nested.RVisitAll | BigFix.py:283-287 | the flag is never cleared inside the loop; a successful loop keeps the length |
| Nested.Visit | BigFix.py:260-272 | exactly one sequence argument gives None and sets the flag |
| Nested.Zip | BigFix.py:274-294 | the reference elementwise result: a node exactly when m1 is a node |
| Nested.ZipKeepsShape | BigFix.py:283-287 | the elementwise result has the nesting and lengths of both inputs at every level, each sequence a new list |
| Nested.RVisitMatching | BigFix.py:274-287 | on trees of one shape with a clear flag, `rVisit` leaves the flag clear, and raises exactly when `fn` raises somewhere; otherwise it returns Zip |
| Nested.RVisitAllMatching | BigFix.py:283-287 | the same for the loop over children |
| Nested.RVisitClearMeansMatching | BigFix.py:274-294 | conversely, a result with the flag still clear means the trees had one shape and the result is Zip |
| Nested.RVisitAllClearMeansMatching | BigFix.py:283-287 | the same for the loop over children |
| Nested.RVisitAllAfterTrip | BigFix.py:276 | once the flag is set, every later `rVisit` in the loop returns None without calling `fn` |
| Nested.RVisitAllMismatch | BigFix.py:276-292 | a loop that sets the flag has a first tripping child i: children before it are Zip, child i trips, and every later child is None |
| Nested.RVisitAllPrefixFails | BigFix.py:283-287 | an exception in `rVisit`'s loop ends it |
| Nested.VisitMatching | BigFix.py:260-272 | `Visit` on trees of one shape is Zip (or raises exactly when `fn` does); the flag is reset unless both are leaves |
| Nested.VisitLengthMismatch | BigFix.py:276-282 | two top-level sequences of different lengths give None and set the flag |
| Nested.VisitTotal | BigFix.py:246-253 | with an `fn` that never raises, `Visit` never raises, whatever the shapes |
| Nested.VisitRaisesOnly | BigFix.py:246-253 | the visitor raises nothing of its own: if `fn` raises only e, any exception out of `Visit` is e, whatever the shapes |
| Nested.TotalIsDefined | BigFix.py:246-253 | an `fn` that never raises is defined at every pair of leaves |
| Engine.RFix | BigFix.py:176-189 | the method that appends to `newmat` computes the coercion Coerce |
| Engine.Fix | BigFix.py:191-205 | ValueError exactly on a malformed string; otherwise a tree mirroring its input |
| Engine.QuotientDefined | BigFix.py:255-256 | `a / b` is defined at every leaf pair exactly when no divisor leaf is zero |
| Engine.Visitor.constructor | BigFix.py:258 | `BadTrip` starts False |
| Engine.Visitor.RVisit | BigFix.py:274-294 | the method reading and writing `badTrip` computes Nested.RVisit, result and final flag |
| Engine.Visitor.Visit | BigFix.py:260-272 | computes Nested.Visit, result and final flag |
| Engine.Visitor.Add | BigFix.py:246-247 | never raises; on trees of one shape it is the leafwise sum |
| Engine.Visitor.Sub | BigFix.py:249-250 | never raises; on trees of one shape it is the leafwise difference |
| Engine.Visitor.Mul | BigFix.py:252-253 | never raises; on trees of one shape it is the leafwise product |
| Engine.Visitor.Div | BigFix.py:255-256 | any exception it raises is ZeroDivisionError; on trees of one shape it raises exactly when a divisor leaf is zero, else gives the leafwise quotient |
| Engine.Visitor.Dot | BigFix.py:218-219 | `vector_sum` of the result of `Mul`, with the flag `Mul` leaves |
| Engine.SumOfProducts | BigFix.py:218-219 | `vector_sum` of what `Mul` returned: TypeError for None or a lone BigFix, AttributeError for a None or list element, else the sum; DotOfVectors and DotLengthMismatch state it |
| Engine.ElementwiseFacts | BigFix.py:246-253 | for `+`, `-` and `*` the visit never raises and on one shape equals Zip |
| Engine.DotOfVectors | BigFix.py:218-219 | `dot` of two one-level lists of equal length is the sum of the products, with the flag clear |
| Engine.DotLengthMismatch | BigFix.py:218-219 | `dot` of lists of different lengths sets the flag and raises TypeError (`len(None)`) |
| Aggregates.ScaledAll | BigFix.py:229-230 | each element coerced as `__add__` does |
| Aggregates.Sum | BigFix.py:227-231 | the left fold of BigFix `+` from `Big(0)`; SumAppend and VectorSum state it |
| Aggregates.SumAppend | BigFix.py:227-231 | the fold of `+` over a concatenation is the sum of the folds |
| Aggregates.SumOfInts | BigFix.py:227-231 | summing `BigFix(n)` values is exact |
| Aggregates.VectorSum | BigFix.py:227-231 | the loop from `Big(0)` computes the left fold of `+` over the coerced elements |
| Aggregates.Column | BigFix.py:238-239 | column j holds `vectors[i][j]` for every row i |
| Aggregates.MatrixSum | BigFix.py:233-240 | IndexError exactly for an empty list or a row shorter than the first; otherwise `len(vectors[0])` entries, the j-th the sum of column j |
| Aggregates.MatrixSumTotal | BigFix.py:233-240 | adding up the column sums equals adding up the row sums |
| Aggregates.ScalarMultiply | BigFix.py:221-222 | keeps the length |
| Aggregates.ScalarMultiplyFacts | BigFix.py:221-222 | multiplying by `BigFix(1)` gives the list back; an integral scalar times int elements is exact |
| Aggregates.DivideOne | BigFix.py:224-225 | `v_i / c`: `__truediv__` for a BigFix element; for an int element Python falls back to `c.__rtruediv__(v_i)`; DivideByScalarFacts and DivideIntByOne state it |
| Aggregates.DivideByScalar | BigFix.py:224-225 | keeps the length when it succeeds |
| Aggregates.DivideByScalarFacts | BigFix.py:224-225 | raises ZeroDivisionError exactly when some element meets a zero divisor: c for a BigFix element, or, through `__rtruediv__`, the element itself for an int; otherwise element i is that element's quotient |
| Aggregates.DivideByOne | BigFix.py:224-225 | dividing BigFix elements by `BigFix(1)` gives them back |
| Aggregates.DivideIntByOne | BigFix.py:224-225 | `divide_by_scalar([2], BigFix(1))` gives [0.5] |

## Left out

- `fromFloat`, `BigFloat` and the float branches of `__init__`, `rFix` and `Fix`: they refer to names that do not exist (`BigFFix`, `bottom`, `val1`, `val2`) and cannot run.
- `vector_mean`: it passes the scalar from `vector_sum` to `divide_by_scalar`, which iterates over it, so it cannot run as written.
- `BigRnd`: it draws from `random`.
- `conjugate`, `__repr__` and the unused `big2`: trivial or unused.
- The `print` diagnostics in `Visit`/`rVisit`: output only. The result and the flag are modelled.
- numpy dispatch: `IntLike` over the numpy integer widths becomes one int kind. `ListLike` becomes the two sequence kinds `PyList` and `NdArray`, which `rVisit` compares. `FloatLike` goes with the float branches.
- `int()` on strings accepts only an optional sign and ASCII digits. Python's whitespace, underscore and non-ASCII-digit leniency is left out.
- BigFixes.BigFix.Pow: the exponent is a `real`, and its comparison with 0.5 stands for Python's float equality.
- Nested.Coerce: trees hold scaled integers, not object references. A BigFix leaf that `Fix` returns as the same object is modelled as the same value, so aliasing between the input and the result is not captured.
- Engine.Visitor.Add: `Add`/`Sub`/`Mul`/`Div` are modelled on trees whose leaves are BigFix values. A plain-int leaf not passed through `Fix` is not modelled. Neither are leaves of other types: against a BigFix leaf, `fn` reaches `other.big` and raises AttributeError; between two such leaves, Python's own operator decides.
- Operands of the BigFix operators other than an int or a BigFix (where `other.big` raises AttributeError) are not modelled. Neither is `BigFix(x)` for an `x` that is neither int nor float, which leaves `big` unset.
- The partial state after an exception (a half-built `newmat`, an updated `BadTrip`) is not kept. The exception is the whole result, except that the flag at the raising point is kept by Visit.
- A shape mismatch below the top level gives a partly built list holding None instead of failing, and ragged nesting is accepted by `Fix`; the model follows the code in both.

## Findings

| source | as written | input that shows it | evidently intended | confidence | as-written member | corrected member |
|---|---|---|---|---|---|---|
| BigFix.py:79-80 | `__rsub__` returns `self - other` | `5 - BigFix(1)` gives −4 | `other - self`, giving 4 | not executed | FixedPointFacts.RSubSwapsOperands | FixedPoint.RSubIntended |
| BigFix.py:122-123 | `__rtruediv__` (and `__rfloordiv__`, 95-96) return `self / other` | `1 / BigFix(2)` gives 2; `divide_by_scalar([2], BigFix(1))` gives [0.5] | `other / self`, giving 0.5 | not executed | FixedPointFacts.OneOverTwoAsWritten | FixedPointFacts.OneOverTwoIntended |
| BigFix.py:207-211 | `BigRound` uses the literal bias 10^13 and grid 10^14 while `__str__` shows ten of 100 digits | `str` of 1 + 341·10^-86 is "1." | bias and grid tied to the ten shown digits (10^89, 10^90), so the trailing trash vanishes | not executed | RenderFacts.StrTrailingDotExample | RenderFacts.StrIntendedDropsNoise |
| BigFix.py:139-144 | `full()` (and `__str__`, 53-60) print the floor of a negative value, then its positive fraction | `full()` of −0.5 is "-1.5", which reads back as −1.5 | a '-' before the text of the magnitude, "-0.5" | not executed | RenderFacts.FullOfNegativeFraction | RenderFacts.FullSignedInverse |

The class methods keep the source's behaviour in all four cases. The corrected definitions sit beside them, with their properties proved.
