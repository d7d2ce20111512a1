/**
 * What the BigFix operators promise, proved about the functions of
 * FixedPoint: the algebra of add/sub/mul/div, the closed forms of mod,
 * trunc and sqrt, and the two findings about the reflected operators.
 */
module FixedPointFacts {
  import opened Wrappers
  import opened PyInt
  import opened PyStr
  import opened FixedPoint

  /** `(a + b) - b == a` and `a + b == b + a`: add and sub act directly on the scaled integers. */
  lemma AddSubInverse(a: int, b: int)
    ensures Sub(Add(a, b), b) == a
    ensures Add(a, b) == Add(b, a)
  {
  }

  /** `BigFix(n)` stores n * 10^100, so it is the value n exactly. */
  lemma FromIntExact(n: int)
    ensures Scaled(Int(n)) == n * Big1
    ensures Trunc(Scaled(Int(n))) == Scaled(Int(n))
  {
    FloorDivMultiple(n, Big1);
  }

  /** `a * BigFix(1) == a`: multiplying by one gives the operand back, whatever its fractional digits. */
  lemma MulByOne(a: int)
    ensures Mul(a, Scaled(Int(1))) == a
    ensures Mul(Scaled(Int(1)), a) == a
  {
    assert Scaled(Int(1)) == Big1;
    FloorDivMultiple(a, Big1);
  }

  /** Multiplying two integral values is exact: BigFix(m) * BigFix(n) == BigFix(m * n). */
  lemma MulOfInts(m: int, n: int)
    ensures Mul(Scaled(Int(m)), Scaled(Int(n))) == Scaled(Int(m * n))
  {
    assert (m * Big1) * (n * Big1) == (m * n * Big1) * Big1;
    FloorDivMultiple(m * n * Big1, Big1);
  }

  /** `a / a` is one for a non-zero a, and dividing by BigFix(0) raises ZeroDivisionError. */
  lemma DivBySelf(a: int)
    ensures a != 0 ==> Quotient(a, a) == Success(Big1)
    ensures Quotient(a, Scaled(Int(0))) == Failure(ZeroDivisionError)
  {
    if a != 0 {
      assert a * Big1 == Big1 * a;
      FloorDivMultiple(Big1, a);
    }
  }

  /** Dividing BigFix(m) by BigFix(n) gives the floor of m/n at 100 fractional digits. */
  lemma DivOfInts(m: int, n: int)
    requires n != 0
    ensures Quotient(Scaled(Int(m)), Scaled(Int(n))) == Success(FloorDiv(m * Big1, n))
  {
    assert Scaled(Int(m)) * Big1 == (m * Big1) * Big1;
    assert Scaled(Int(n)) == n * Big1;
    FloorDivCancel(m * Big1, n, Big1);
  }

  /** `__mod__` is the floor remainder a - b * floor(a / b): in [0, b) for b > 0 and in (b, 0] for b < 0. */
  lemma ModIsFloorRemainder(a: int, b: int)
    requires b != 0
    ensures Mod(a, b) == Success(FloorMod(a, b))
    ensures b > 0 ==> 0 <= Mod(a, b).value < b
    ensures b < 0 ==> b < Mod(a, b).value <= 0
  {
    var c := FloorDiv(a, b);
    ChopIsFloorQuotient(a, b, Big1);
    ChopProduct(b, c, Big1);
  }

  /** `chop // big1` is `a // b`: (a * u // b) // u == a // b. */
  lemma ChopIsFloorQuotient(a: int, b: int, u: int)
    requires b != 0 && u > 0
    ensures FloorDiv(FloorDiv(a * u, b), u) == FloorDiv(a, b)
  {
    FloorDivNested(a * u, b, u);
    assert a * u == a * u;
    FloorDivCancel(a, b, u);
    assert b * u != 0;
    assert FloorDiv(a * u, b * u) == FloorDiv(a, b);
  }

  /** `other * chop` is exact: (b * (c * u)) // u == b * c. */
  lemma ChopProduct(b: int, c: int, u: int)
    requires u > 0
    ensures FloorDiv(b * (c * u), u) == b * c
  {
    assert b * (c * u) == (b * c) * u;
    FloorDivMultiple(b * c, u);
  }

  /** Truncating twice is truncating once; trunc of an integral value is the value itself. */
  lemma TruncIdempotent(a: int)
    ensures Trunc(Trunc(a)) == Trunc(a)
  {
    var q := FloorDiv(a, Big1);
    FloorDivMultiple(q, Big1);
  }

  /** The square root of a * a lies in [a - 1, a] once a >= 1/2, and never exceeds a. */
  lemma SqrtOfSquare(a: int)
    requires a >= 0
    ensures Sqrt(Mul(a, a)).Success?
    ensures Sqrt(Mul(a, a)).value <= a
    ensures 2 * a >= Big1 ==> Sqrt(Mul(a, a)).value >= a - 1
  {
    IsqrtOfRoundedSquare(a, Big1);
  }

  /** The square root of an integral perfect square is exact: sqrt(BigFix(n) * BigFix(n)) == BigFix(n). */
  lemma SqrtOfIntSquare(n: nat)
    ensures Sqrt(Mul(Scaled(Int(n)), Scaled(Int(n)))) == Success(Scaled(Int(n)))
  {
    MulOfInts(n, n);
    var x := Mul(Scaled(Int(n)), Scaled(Int(n)));
    var nn: nat := n * n;
    assert x == nn * Big1;
    NonNegProduct(nn, Big1);
    var nb: nat := n * Big1;
    SquareScaled(n, Big1);
    assert x * Big1 == nb * nb;
    IsqrtOfSquare(nb);
  }

  lemma NonNegProduct(a: nat, b: nat)
    ensures a * b >= 0
  {
  }

  lemma SquareScaled(n: int, u: int)
    ensures (n * n * u) * u == (n * u) * (n * u)
  {
  }

  /** `5 - x` with x == BigFix(1) gives -4 instead of 4: `__rsub__` swaps its operands. */
  lemma RSubSwapsOperands(self: int, other: int)
    ensures RSub(self, other) == -RSubIntended(self, other)
    ensures RSub(Scaled(Int(1)), Scaled(Int(5))) == Scaled(Int(-4))
    ensures RSubIntended(Scaled(Int(1)), Scaled(Int(5))) == Scaled(Int(4))
  {
  }

  /** `1 / x` with x == BigFix(2) gives 2 as written. */
  lemma OneOverTwoAsWritten()
    ensures RQuotient(Scaled(Int(2)), Scaled(Int(1))) == Success(Scaled(Int(2)))
  {
    DivOfInts(2, 1);
    FloorDivMultiple(2 * Big1, 1);
  }

  /** `1 / x` with x == BigFix(2) is meant to give 0.5. */
  lemma OneOverTwoIntended()
    ensures RQuotientIntended(Scaled(Int(2)), Scaled(Int(1))) == Success(5 * Pow10(Precision - 1))
  {
    DivOfInts(1, 2);
    assert Big1 == 10 * Pow10(Precision - 1);
    FloorDivUnique(Big1, 2, 5 * Pow10(Precision - 1));
  }
}
