/**
 * Python's conversions between integers and decimal text, as far as BigFix
 * uses them: `str(n)` for an int, `int(s)` for a string, slicing `s[i:j]`
 * and `s.rstrip('0')`. Only optionally signed runs of ASCII digits are
 * read by ParseInt (Python's `int()` also skips surrounding whitespace,
 * accepts `_` between digits and reads non-ASCII decimal digits; that
 * leniency is not modelled).
 */
module PyStr {
  import opened Wrappers

  /** 10^k */
  function Pow10(k: nat): (p: nat)
    ensures p >= 1
  {
    if k == 0 then 1 else 10 * Pow10(k - 1)
  }

  lemma {:induction false} Pow10Add(a: nat, b: nat)
    ensures Pow10(a + b) == Pow10(a) * Pow10(b)
  {
    if b > 0 {
      Pow10Add(a, b - 1);
      assert Pow10(a + b) == 10 * Pow10(a + b - 1);
      assert Pow10(a) * Pow10(b) == Pow10(a) * (10 * Pow10(b - 1));
    }
  }

  lemma {:induction false} Pow10Monotone(a: nat, b: nat)
    requires a <= b
    ensures Pow10(a) <= Pow10(b)
  {
    if a < b {
      Pow10Monotone(a, b - 1);
    }
  }

  predicate IsDigit(c: char) {
    '0' <= c <= '9'
  }

  predicate AllDigits(s: string) {
    forall i | 0 <= i < |s| :: IsDigit(s[i])
  }

  /** The character for a single decimal digit. */
  function DigitChar(d: nat): (c: char)
    requires d < 10
    ensures IsDigit(c) && DigitVal(c) == d
  {
    '0' + d as char
  }

  function DigitVal(c: char): (d: nat)
    requires IsDigit(c)
    ensures d < 10
  {
    (c - '0') as nat
  }

  /** Python's `str(n)` for n >= 0: decimal digits without leading zeros. */
  function NatStr(n: nat): (s: string)
    ensures |s| >= 1 && AllDigits(s)
    ensures (|s| == 1) == (n < 10)
  {
    if n < 10 then [DigitChar(n)] else NatStr(n / 10) + [DigitChar(n % 10)]
  }

  /** Python's `str(n)` for any int: a '-' sign before the digits of a negative number. */
  function IntStr(n: int): (s: string)
    ensures |s| >= 1
  {
    if n < 0 then "-" + NatStr(-n) else NatStr(n)
  }

  /** `str(-n)` is '-' followed by `str(n)` for a positive n. */
  lemma IntStrOfNegative(n: int, m: int)
    requires n > 0 && m == -n
    ensures IntStr(m) == "-" + IntStr(n)
  {
  }

  /** The value of a run of decimal digits, most significant first. */
  function DigitsValue(s: string): (v: nat)
    requires AllDigits(s)
    ensures v < Pow10(|s|)
  {
    if s == [] then 0 else DigitsValue(s[..|s| - 1]) * 10 + DigitVal(s[|s| - 1])
  }

  /** The k lowest decimal digits of x, zero-padded on the left to exactly k characters. */
  function Pad(x: nat, k: nat): (s: string)
    ensures |s| == k && AllDigits(s)
  {
    if k == 0 then [] else Pad(x / 10, k - 1) + [DigitChar(x % 10)]
  }

  /** Python's `s.rstrip('0')`. */
  function RStripZeros(s: string): (t: string)
    ensures |t| <= |s| && t == s[..|t|]
    ensures t == [] || t[|t| - 1] != '0'
    ensures forall i | |t| <= i < |s| :: s[i] == '0'
  {
    if s != [] && s[|s| - 1] == '0' then RStripZeros(s[..|s| - 1]) else s
  }

  /** Python's slice `s[i:j]` for non-negative bounds: bounds past the end are clamped. */
  function Slice(s: string, i: nat, j: nat): (t: string)
    ensures |t| <= |s|
  {
    var lo := if i < |s| then i else |s|;
    var hi := if j < |s| then j else |s|;
    if lo <= hi then s[lo..hi] else []
  }

  /** Python's `int(s)` on an optionally signed digit string; anything else is a ValueError (None). */
  function ParseInt(s: string): (r: Option<int>)
  {
    if |s| >= 1 && (s[0] == '-' || s[0] == '+') then
      var body := s[1..];
      if |body| >= 1 && AllDigits(body) then
        var v: int := DigitsValue(body);
        Some(if s[0] == '-' then -v else v)
      else None
    else if |s| >= 1 && AllDigits(s) then Some(DigitsValue(s))
    else None
  }

  /** The digits that NatStr writes read back as the number. */
  lemma {:induction false} NatStrValue(n: nat)
    ensures DigitsValue(NatStr(n)) == n
  {
    if n >= 10 {
      NatStrValue(n / 10);
      var s := NatStr(n);
      assert s[..|s| - 1] == NatStr(n / 10);
    }
  }

  /** `int(str(n)) == n`: ParseInt is the inverse of IntStr. */
  lemma ParseIntStr(n: int)
    ensures ParseInt(IntStr(n)) == Some(n)
  {
    var s := IntStr(n);
    if n < 0 {
      NatStrValue(-n);
      assert s[0] == '-' && s[1..] == NatStr(-n);
      assert DigitsValue(s[1..]) == -n;
    } else {
      NatStrValue(n);
      assert IsDigit(s[0]) && AllDigits(s) && DigitsValue(s) == n;
    }
  }

  /** Padding keeps exactly the value of the low k digits. */
  lemma {:induction false} PadValue(x: nat, k: nat)
    ensures DigitsValue(Pad(x, k)) == x % Pow10(k)
  {
    if k > 0 {
      PadValue(x / 10, k - 1);
      var s := Pad(x, k);
      assert s[..|s| - 1] == Pad(x / 10, k - 1);
      ModPow10Step(x, k);
    }
  }

  /** x % 10^k == (x / 10 % 10^(k-1)) * 10 + x % 10 */
  lemma ModPow10Step(x: nat, k: nat)
    requires k > 0
    ensures x % Pow10(k) == (x / 10 % Pow10(k - 1)) * 10 + x % 10
  {
    var p := Pow10(k - 1);
    var q := x / 10;
    var a := q / p;
    var b := q % p;
    assert q == a * p + b;
    assert x == (a * p + b) * 10 + x % 10;
    assert x == a * (10 * p) + (b * 10 + x % 10);
    assert 0 <= b * 10 + x % 10 < 10 * p;
    DivModUnique(x, 10 * p, a, b * 10 + x % 10);
  }

  /** Euclidean division by a positive divisor is determined by its quotient and remainder. */
  lemma DivModUnique(x: int, d: int, q: int, r: int)
    requires d > 0 && 0 <= r < d && x == q * d + r
    ensures x / d == q && x % d == r
  {
    var q' := x / d;
    var r' := x % d;
    assert (q - q') * d == r' - r;
    MulSmall(q - q', d);
  }

  /** The only multiple of d strictly between -d and d is 0. */
  lemma MulSmall(a: int, d: int)
    requires d > 0 && -d < a * d < d
    ensures a == 0
  {
    if a >= 1 {
      MulGe(a, d);
    } else if a <= -1 {
      MulGe(-a, d);
    }
  }

  lemma MulGe(a: int, d: int)
    requires a >= 1 && d >= 0
    ensures a * d >= d
  {
    assert a * d == (a - 1) * d + d;
  }

  /** str(10^k + x)[1:] for x < 10^k is x written with exactly k digits. */
  lemma {:induction false} NatStrPow10Plus(k: nat, x: nat)
    requires x < Pow10(k)
    ensures NatStr(Pow10(k) + x) == "1" + Pad(x, k)
  {
    if k > 0 {
      var n := Pow10(k) + x;
      assert n / 10 == Pow10(k - 1) + x / 10 && n % 10 == x % 10 by {
        DivModUnique(n, 10, Pow10(k - 1) + x / 10, x % 10);
      }
      assert x / 10 < Pow10(k - 1);
      NatStrPow10Plus(k - 1, x / 10);
    }
  }

  /** Pad(x, a + b) is the a digits above position b followed by the b digits below it. */
  lemma {:induction false} PadSplit(x: nat, a: nat, b: nat, hi: nat, lo: nat)
    requires x == hi * Pow10(b) + lo && lo < Pow10(b)
    ensures Pad(x, a + b) == Pad(hi, a) + Pad(lo, b)
  {
    if b > 0 {
      PadSplitArith(x, b, hi, lo);
      PadSplit(x / 10, a, b - 1, hi, lo / 10);
      assert Pad(x, a + b) == Pad(x / 10, a + (b - 1)) + [DigitChar(x % 10)];
    }
  }

  /** The digit arithmetic behind PadSplit's induction step. */
  lemma PadSplitArith(x: nat, b: nat, hi: nat, lo: nat)
    requires b > 0 && x == hi * Pow10(b) + lo && lo < Pow10(b)
    ensures x / 10 == hi * Pow10(b - 1) + lo / 10 && lo / 10 < Pow10(b - 1)
    ensures x % 10 == lo % 10
  {
    var p := Pow10(b - 1);
    assert Pow10(b) == 10 * p;
    assert x == (hi * p + lo / 10) * 10 + lo % 10;
    DivModUnique(x, 10, hi * p + lo / 10, lo % 10);
  }

  lemma DivDiv(x: nat, a: nat, b: nat)
    requires a > 0 && b > 0
    ensures x / a / b == x / (a * b)
  {
    var q := x / a / b;
    var r := (x / a) % b * a + x % a;
    assert x / a == q * b + (x / a) % b;
    assert x == (q * b + (x / a) % b) * a + x % a;
    assert x == q * (a * b) + r;
    assert r < a * b by {
      assert (x / a) % b <= b - 1;
      assert (x / a) % b * a <= (b - 1) * a;
    }
    DivModUnique(x, a * b, q, r);
  }

  /** A zero value is written as a run of '0'. */
  lemma {:induction false} PadZero(k: nat)
    ensures forall i | 0 <= i < k :: Pad(0, k)[i] == '0'
  {
    if k > 0 {
      PadZero(k - 1);
    }
  }

  /** Stripping trailing zeros divides the value by the matching power of ten. */
  lemma {:induction false} RStripZerosValue(s: string)
    requires AllDigits(s)
    ensures AllDigits(RStripZeros(s))
    ensures DigitsValue(s) == DigitsValue(RStripZeros(s)) * Pow10(|s| - |RStripZeros(s)|)
  {
    if s != [] && s[|s| - 1] == '0' {
      var t := s[..|s| - 1];
      RStripZerosValue(t);
      var u := RStripZeros(t);
      assert RStripZeros(s) == u;
      var k := |t| - |u|;
      assert |s| - |u| == k + 1;
      assert Pow10(k + 1) == 10 * Pow10(k);
      assert DigitsValue(s) == DigitsValue(t) * 10;
      assert DigitsValue(t) == DigitsValue(u) * Pow10(k);
      MulTen(DigitsValue(u), Pow10(k));
    }
  }

  lemma MulTen(v: int, w: int)
    ensures v * w * 10 == v * (10 * w)
  {
  }

  /** A digit string whose value is non-zero keeps a digit after stripping. */
  lemma RStripZerosNonEmpty(s: string)
    requires AllDigits(s) && DigitsValue(s) != 0
    ensures RStripZeros(s) != []
  {
    RStripZerosValue(s);
  }

  /** Digit strings of the same length and the same value are equal. */
  lemma {:induction false} DigitsValueInjective(s: string, t: string)
    requires AllDigits(s) && AllDigits(t) && |s| == |t|
    requires DigitsValue(s) == DigitsValue(t)
    ensures s == t
  {
    if s != [] {
      var n := |s|;
      var s', t' := s[..n - 1], t[..n - 1];
      var a, b := DigitsValue(s'), DigitsValue(t');
      var c, d := DigitVal(s[n - 1]), DigitVal(t[n - 1]);
      assert DigitsValue(s) == a * 10 + c;
      assert DigitsValue(t) == b * 10 + d;
      DivModUnique(DigitsValue(s), 10, a, c);
      DivModUnique(DigitsValue(s), 10, b, d);
      assert s[n - 1] == t[n - 1];
      DigitsValueInjective(s', t');
      assert s == s' + [s[n - 1]];
      assert t == t' + [t[n - 1]];
    }
  }

  /** Padding the digits of x < 10^k reproduces them: Pad is onto all k-digit strings. */
  lemma PadOfValue(s: string)
    requires AllDigits(s)
    ensures Pad(DigitsValue(s), |s|) == s
  {
    PadValue(DigitsValue(s), |s|);
    DivModUnique(DigitsValue(s), Pow10(|s|), 0, DigitsValue(s));
    DigitsValueInjective(Pad(DigitsValue(s), |s|), s);
  }
}
