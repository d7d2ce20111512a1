/**
 * The parts of Python's integer arithmetic that BigFix relies on: floor
 * division `//`, its remainder `%`, and `math.isqrt`. Python rounds `//`
 * toward negative infinity; Dafny's `/` and `%` are Euclidean, so the two
 * agree only for a positive divisor and are spelled out here.
 */
module PyInt {

  /** Python's `x // y`: the largest q with q * y <= x (for y > 0), or q * y >= x (for y < 0). */
  function FloorDiv(x: int, y: int): (q: int)
    requires y != 0
    ensures y > 0 ==> q * y <= x < q * y + y
    ensures y < 0 ==> q * y + y < x <= q * y
  {
    if y > 0 then x / y else (-x) / (-y)
  }

  /** Python's `x % y`: the remainder that goes with FloorDiv; it has the sign of y. */
  function FloorMod(x: int, y: int): (r: int)
    requires y != 0
    ensures r == x - y * FloorDiv(x, y)
    ensures y > 0 ==> 0 <= r < y
    ensures y < 0 ==> y < r <= 0
  {
    x - y * FloorDiv(x, y)
  }

  /** Any q with the floor property is the floor quotient. */
  lemma FloorDivUnique(x: int, y: int, q: int)
    requires y != 0
    requires y > 0 ==> q * y <= x < q * y + y
    requires y < 0 ==> q * y + y < x <= q * y
    ensures FloorDiv(x, y) == q
  {
    var p := FloorDiv(x, y);
    if p < q {
      MulMonotone(p + 1, q, y);
    } else if p > q {
      MulMonotone(q + 1, p, y);
    }
  }

  /** Multiplying by y keeps (y > 0) or flips (y < 0) the order of a <= b. */
  lemma MulMonotone(a: int, b: int, y: int)
    requires a <= b
    ensures y >= 0 ==> a * y <= b * y
    ensures y <= 0 ==> a * y >= b * y
  {
    var d := b - a;
    assert b * y == a * y + d * y;
  }

  /** Dividing an exact multiple gives the multiplier back. */
  lemma FloorDivMultiple(n: int, y: int)
    requires y != 0
    ensures FloorDiv(n * y, y) == n
  {
    FloorDivUnique(n * y, y, n);
  }

  /** x * m // (y * m) == x // y for a positive m: scaling both operands does not change the quotient. */
  lemma FloorDivCancel(x: int, y: int, m: int)
    requires y != 0 && m > 0
    ensures FloorDiv(x * m, y * m) == FloorDiv(x, y)
  {
    var q := FloorDiv(x, y);
    var ym := y * m;
    assert ym != 0 by { if y > 0 { MulMonotone(1, m, y); } else { MulMonotone(1, m, y); } }
    if y > 0 {
      assert q * y <= x < q * y + y;
      MulMonotone(q * y, x, m);
      MulMonotone(x + 1, q * y + y, m);
      assert (q * y) * m == q * ym;
      assert (q * y + y) * m == q * ym + ym;
      assert (x + 1) * m == x * m + m;
      FloorDivUnique(x * m, ym, q);
    } else {
      assert q * y + y < x <= q * y;
      MulMonotone(x, q * y, m);
      MulMonotone(q * y + y + 1, x, m);
      assert (q * y) * m == q * ym;
      assert (q * y + y + 1) * m == q * ym + ym + m;
      FloorDivUnique(x * m, ym, q);
    }
  }

  /** (x // y) // m == x // (y * m) for a positive m: nested floor divisions collapse. */
  lemma FloorDivNested(x: int, y: int, m: int)
    requires y != 0 && m > 0
    ensures y * m != 0
    ensures FloorDiv(FloorDiv(x, y), m) == FloorDiv(x, y * m)
  {
    var q := FloorDiv(x, y);
    var p := FloorDiv(q, m);
    var ym := y * m;
    MulMonotone(1, m, y);
    assert p * m <= q && q + 1 <= p * m + m;
    MulMonotone(p * m, q, y);
    MulMonotone(q + 1, p * m + m, y);
    MulAssoc(p, m, y);
    assert (p * m + m) * y == p * ym + ym by { MulAssoc(p, m, y); }
    assert (q + 1) * y == q * y + y;
    FloorDivUnique(x, ym, p);
  }

  /** (p * m) * y == p * (y * m) */
  lemma MulAssoc(p: int, m: int, y: int)
    ensures (p * m) * y == p * (y * m)
    ensures (p * m + m) * y == p * (y * m) + y * m
  {
  }

  /** Python's `math.isqrt(n)` for n >= 0: the largest r with r * r <= n. */
  function Isqrt(n: nat): (r: nat)
    ensures r * r <= n < (r + 1) * (r + 1)
  {
    if n < 4 then
      (if n == 0 then 0 else 1)
    else
      var s := Isqrt(n / 4);
      var h := 2 * s;
      IsqrtStep(n, n / 4, s);
      if (h + 1) * (h + 1) <= n then h + 1 else h
  }

  /** Doubling the root of n / 4 brackets the root of n. */
  lemma IsqrtStep(n: int, q: int, s: int)
    requires 4 * q <= n < 4 * q + 4
    requires s * s <= q < (s + 1) * (s + 1)
    ensures (2 * s) * (2 * s) <= n < (2 * s + 2) * (2 * s + 2)
  {
    assert (2 * s) * (2 * s) == 4 * (s * s);
    assert (2 * s + 2) * (2 * s + 2) == 4 * ((s + 1) * (s + 1));
  }

  /** The integer square root is determined by its defining bounds. */
  lemma IsqrtUnique(n: nat, r: nat)
    requires r * r <= n < (r + 1) * (r + 1)
    ensures Isqrt(n) == r
  {
    var s := Isqrt(n);
    if s < r {
      SquareMonotone(s + 1, r);
      assert false;
    } else if s > r {
      SquareMonotone(r + 1, s);
      assert false;
    }
  }

  /** Squaring is monotone on naturals. */
  lemma SquareMonotone(a: nat, b: nat)
    requires a <= b
    ensures a * a <= b * b
  {
    MulMonotone(a, b, a);
    MulMonotone(a, b, b);
  }

  /** isqrt(x * x) == x */
  lemma IsqrtOfSquare(x: nat)
    ensures Isqrt(x * x) == x
  {
    assert (x + 1) * (x + 1) == x * x + 2 * x + 1;
    IsqrtUnique(x * x, x);
  }

  /** Rounding a * a down to a multiple of u and taking isqrt loses at most one unit once 2a >= u. */
  lemma IsqrtOfRoundedSquare(a: nat, u: int)
    requires u > 0
    ensures FloorDiv(a * a, u) >= 0
    ensures Isqrt(FloorDiv(a * a, u) * u) <= a
    ensures 2 * a >= u ==> Isqrt(FloorDiv(a * a, u) * u) >= a - 1
  {
    var aa := a * a;
    var m := FloorDiv(aa, u);
    assert m * u <= aa < m * u + u;
    if m < 0 {
      MulMonotone(m, -1, u);
      assert false;
    }
    var mu: nat := m * u;
    IsqrtBelow(a, mu);
    if 2 * a >= u {
      IsqrtAbove(a, mu, u);
    }
  }

  lemma IsqrtBelow(a: nat, n: nat)
    requires n <= a * a
    ensures Isqrt(n) <= a
  {
    var s := Isqrt(n);
    if s > a {
      assert (a + 1) * (a + 1) == a * a + 2 * a + 1;
      SquareMonotone(a + 1, s);
      assert false;
    }
  }

  lemma IsqrtAbove(a: nat, n: nat, u: int)
    requires a * a < n + u && 2 * a >= u
    ensures Isqrt(n) >= a - 1
  {
    var s := Isqrt(n);
    var s1 := s + 1;
    assert n < s1 * s1;
    if s1 < a {
      var b: nat := a - 1;
      var aa, bb := a * a, b * b;
      SquareOfPred(a);
      assert bb == aa - 2 * a + 1;
      assert bb <= n;
      SquareMonotone(s1, b);
      assert false;
    }
  }

  lemma SquareOfPred(a: int)
    ensures (a - 1) * (a - 1) == a * a - 2 * a + 1
  {
  }
}
