/**
 * The arithmetic and rendering of a BigFix value, stated on its scaled
 * integer `big` (the value times 10^Precision). Every BigFix operator builds
 * its result with `Big(...)` from an integer expression over `big`; those
 * expressions are the functions of this module. Python's exceptions are the
 * Failure side of a Result.
 */
module FixedPoint {
  import opened Wrappers
  import opened PyInt
  import opened PyStr

  /** Decimal digits kept after the point (class attribute `precision`). */
  const Precision: nat := 100

  /** `big1`: the scaled integer of the value 1. */
  const Big1: nat := Pow10(Precision)

  /** Fractional digits shown by `__str__` (class attribute `prec`). */
  const Prec: nat := 10

  /** The bias and the grid that `BigRound` uses; both are written as literals, independent of Precision. */
  const RoundBias: nat := 10_000_000_000_000
  const RoundGrid: nat := 100_000_000_000_000

  /** The Python exceptions the core can raise. */
  datatype Error =
    | ZeroDivisionError   // `//` by a zero scaled integer
    | ValueError          // `isqrt` of a negative number, `int()` of a malformed string
    | IndexError          // `vectors[0]` of an empty list, a short row in matrix_sum
    | TypeError           // `len()` of None or of a BigFix
    | AttributeError      // `.big` of None or of a list

  /** A right-hand operand: a plain int (IntLike), or a BigFix given by its scaled integer. */
  datatype Num = Int(n: int) | Fix(big: int)

  /** The scaled integer an operand stands for: an int is coerced with `BigFix(other)`. */
  function Scaled(x: Num): (b: int)
    ensures x.Int? ==> b % Big1 == 0 && b / Big1 == x.n
    ensures x.Fix? ==> b == x.big
  {
    match x
    case Int(n) => FromInt(n)
    case Fix(b) => b
  }

  /** `fromInt`: the scaled integer of the int n. */
  function FromInt(n: int): (b: int)
    ensures FloorDiv(b, Big1) == n && FloorMod(b, Big1) == 0
  {
    FloorDivMultiple(n, Big1);
    n * Big1
  }

  /** `__add__`: the scaled integers are added. */
  function Add(a: int, b: int): (r: int) {
    a + b
  }

  /** `__sub__`: the scaled integers are subtracted. */
  function Sub(a: int, b: int): (r: int) {
    a - b
  }

  /** `__mul__`: the product of two scaled integers carries the scale twice, so it is floor-divided by big1 once. */
  function Mul(a: int, b: int): (r: int)
    ensures r * Big1 <= a * b < r * Big1 + Big1
  {
    FloorDiv(a * b, Big1)
  }

  /** `__truediv__` and `__floordiv__` (and the in-place forms): `(a * big1) // b`; a zero divisor raises. */
  function Quotient(a: int, b: int): (r: Result<int, Error>)
    ensures r.Failure? <==> b == 0
    ensures r.Failure? ==> r.error == ZeroDivisionError
    ensures r.Success? && b > 0 ==> r.value * b <= a * Big1 < r.value * b + b
    ensures r.Success? && b < 0 ==> r.value * b + b < a * Big1 <= r.value * b
  {
    if b == 0 then Failure(ZeroDivisionError) else Success(FloorDiv(a * Big1, b))
  }

  /** `trunc`: the fractional scaled digits are cleared, rounding toward negative infinity. */
  function Trunc(a: int): (r: int)
    ensures r % Big1 == 0
    ensures r <= a < r + Big1
  {
    var q := FloorDiv(a, Big1);
    DivModUnique(q * Big1, Big1, q, 0);
    q * Big1
  }

  /** `__mod__`: the quotient is chopped to an integer, and `self - other * chop` is returned. */
  function Mod(a: int, b: int): (r: Result<int, Error>)
    ensures r.Failure? <==> b == 0
  {
    match Quotient(a, b)
    case Failure(e) => Failure(e)
    case Success(q) =>
      var chop := FloorDiv(q, Big1) * Big1;
      Success(Sub(a, Mul(b, chop)))
  }

  /** `sqrt` and `** 0.5`: `isqrt(a * big1)`; `isqrt` raises ValueError on a negative number. */
  function Sqrt(a: int): (r: Result<int, Error>)
    ensures r.Failure? <==> a < 0
    ensures r.Failure? ==> r.error == ValueError
    ensures r.Success? ==> r.value * r.value <= a * Big1 < (r.value + 1) * (r.value + 1)
  {
    if a < 0 then Failure(ValueError) else Success(Isqrt(a * Big1))
  }

  // ---------------------------------------------------------------------------
  // Reflected operators. `__radd__`, `__rmul__`, `__rsub__`, `__rtruediv__` and
  // `__rfloordiv__` all call the forward operator with self first, so for
  // `other OP self` they compute `self OP other`.
  // ---------------------------------------------------------------------------

  /** `__rsub__` as written: `other - self` is computed as `self - other`. */
  function RSub(self: int, other: int): (r: int) {
    Sub(self, other)
  }

  /** `__rtruediv__` / `__rfloordiv__` as written: `other / self` is computed as `self / other`. */
  function RQuotient(self: int, other: int): (r: Result<int, Error>) {
    Quotient(self, other)
  }

  /** `other - self`, the value the reflected subtraction is evidently meant to give. */
  function RSubIntended(self: int, other: int): (r: int)
    ensures Add(r, self) == other
  {
    Sub(other, self)
  }

  /** `other / self`, the value the reflected division is evidently meant to give. */
  function RQuotientIntended(self: int, other: int): (r: Result<int, Error>)
    ensures r.Failure? <==> self == 0
    ensures r.Success? && self > 0 ==> r.value * self <= other * Big1 < r.value * self + self
    ensures r.Success? && self < 0 ==> r.value * self + self < other * Big1 <= r.value * self
  {
    Quotient(other, self)
  }

  // ---------------------------------------------------------------------------
  // Rendering
  // ---------------------------------------------------------------------------

  /** `full()`: the integer part `big // big1`, then every non-zero scaled digit of the remainder. */
  function Full(big: int): (s: string) {
    var top := FloorDiv(big, Big1);
    var bottom := big - top * Big1;
    if bottom == 0 then IntStr(top) else IntStr(top) + "." + FullFraction(bottom)
  }

  /** The fraction `full()` writes for a remainder: `str(bottom + big1)[1:]` stripped of trailing zeros. */
  function FullFraction(bottom: int): (s: string) {
    var digits := IntStr(bottom + Big1);
    RStripZeros(Slice(digits, 1, |digits|))
  }

  /** `BigRound`: add 10^13, then floor to a multiple of 10^14. */
  function DisplayRound(big: int): (r: int)
    ensures r % RoundGrid == 0
    ensures big - 9 * RoundBias < r <= big + RoundBias
  {
    FloorDiv(big + RoundBias, RoundGrid) * RoundGrid
  }

  /** `BigRound`, step by step as the source updates `ibig`. */
  method BigRound(big: int) returns (ibig: int)
    ensures ibig % RoundGrid == 0
    ensures big - 9 * RoundBias < ibig <= big + RoundBias
    ensures ibig == DisplayRound(big)
  {
    ibig := big + RoundBias;
    ibig := FloorDiv(ibig, RoundGrid);
    ibig := ibig * RoundGrid;
  }

  /** `__str__`: the BigRound-ed value, split like `full()` but showing only the first `prec` fractional digits. */
  function Str(big: int): (s: string) {
    ShowRounded(DisplayRound(big))
  }

  /** The body of `__str__` after its first line: `ibig` split at big1, `str(bottom + big1)[1:prec + 1]` stripped of trailing zeros. */
  function ShowRounded(ibig: int): (s: string) {
    var top := FloorDiv(ibig, Big1);
    var bottom := ibig - top * Big1;
    if bottom == 0 then IntStr(top) else IntStr(top) + "." + ShownFraction(bottom)
  }

  /** The fraction `__str__` writes for a remainder: `str(bottom + big1)[1:prec + 1]` stripped of trailing zeros. */
  function ShownFraction(bottom: int): (s: string) {
    RStripZeros(Slice(IntStr(bottom + Big1), 1, Prec + 1))
  }

  /** The display rounding evidently intended: bias and grid derived from Precision and prec (10^89 and 10^90). */
  function DisplayRoundIntended(big: int): (r: int)
    ensures r % Pow10(Precision - Prec) == 0
    ensures big - 9 * Pow10(Precision - Prec - 1) < r <= big + Pow10(Precision - Prec - 1)
  {
    var grid := Pow10(Precision - Prec);
    assert grid == 10 * Pow10(Precision - Prec - 1);
    var q := FloorDiv(big + grid / 10, grid);
    DivModUnique(q * grid, grid, q, 0);
    q * grid
  }

  /** `__str__` with the intended display rounding. */
  function StrIntended(big: int): (s: string) {
    ShowRounded(DisplayRoundIntended(big))
  }
}
