/**
 * What `full()` and `__str__` print, proved about FixedPoint.Full and
 * FixedPoint.Str: the shape of the text, the value it denotes, and the
 * consequences of BigRound's fixed 10^13 / 10^14 constants.
 */
module RenderFacts {
  import opened Wrappers
  import opened PyInt
  import opened PyStr
  import opened FixedPoint
  import opened FixedPointFacts

  // ---------------------------------------------------------------------------
  // Digit-level helpers
  // ---------------------------------------------------------------------------

  /** `str(bottom + big1)` is a '1' followed by bottom written with exactly Precision digits. */
  lemma ShiftedDigits(bottom: int)
    requires 0 <= bottom < Big1
    ensures IntStr(bottom + Big1) == "1" + Pad(bottom, Precision)
  {
    var n := bottom + Big1;
    assert n == Pow10(Precision) + bottom;
    assert IntStr(n) == NatStr(n);
    NatStrPow10Plus(Precision, bottom);
  }

  /** `str(bottom + big1)[1:prec + 1]` and `str(bottom + big1)[1:]` are the first `prec` and all Precision padded digits of bottom. */
  lemma ShiftedSlices(bottom: int)
    requires 0 <= bottom < Big1
    ensures Slice(IntStr(bottom + Big1), 1, Prec + 1) == Pad(bottom, Precision)[..Prec]
    ensures Slice(IntStr(bottom + Big1), 1, |IntStr(bottom + Big1)|) == Pad(bottom, Precision)
  {
    var digits := IntStr(bottom + Big1);
    var pad := Pad(bottom, Precision);
    assert digits == "1" + pad by {
      ShiftedDigits(bottom);
    }
    SliceAfterLead(digits, pad, Prec);
  }

  /** Slicing `[1:k + 1]` off a string that is one character followed by p gives the first k characters of p. */
  lemma SliceAfterLead(d: string, p: string, k: nat)
    requires |d| == |p| + 1 && d[1..] == p && k <= |p|
    ensures Slice(d, 1, k + 1) == p[..k]
    ensures Slice(d, 1, |d|) == p
  {
  }

  /** Trailing zeros appended to a string do not survive `rstrip('0')`. */
  lemma {:induction false} RStripZerosAppendZeros(s: string, z: string)
    requires forall i | 0 <= i < |z| :: z[i] == '0'
    ensures RStripZeros(s + z) == RStripZeros(s)
  {
    if z != [] {
      var z' := z[..|z| - 1];
      assert (s + z)[|s + z| - 1] == '0';
      assert (s + z)[..|s + z| - 1] == s + z';
      assert RStripZeros(s + z) == RStripZeros(s + z');
      RStripZerosAppendZeros(s, z');
    } else {
      assert s + z == s;
    }
  }

  /** A run of zeros strips to nothing. */
  lemma RStripZerosOfZeros(k: nat)
    ensures RStripZeros(Pad(0, k)) == []
  {
    PadZero(k);
    RStripZerosAppendZeros([], Pad(0, k));
    assert [] + Pad(0, k) == Pad(0, k);
  }

  /** IntStr never contains a '.'. */
  lemma IntStrHasNoDot(n: int)
    ensures forall i | 0 <= i < |IntStr(n)| :: IntStr(n)[i] != '.'
  {
  }

  /** The last character of IntStr is a digit. */
  lemma IntStrEndsInDigit(n: int)
    ensures IsDigit(IntStr(n)[|IntStr(n)| - 1])
  {
  }

  /** The position of the first '.' in s, or |s| when there is none. */
  function DotIndex(s: string): (i: nat)
    ensures i <= |s|
    ensures i < |s| ==> s[i] == '.'
    ensures forall j | 0 <= j < i :: s[j] != '.'
  {
    if s == [] || s[0] == '.' then 0 else 1 + DotIndex(s[1..])
  }

  lemma {:induction false} DotIndexOf(a: string, b: string)
    requires forall i | 0 <= i < |a| :: a[i] != '.'
    ensures DotIndex(a) == |a|
    ensures DotIndex(a + "." + b) == |a|
  {
    if a != [] {
      assert (a + "." + b)[1..] == a[1..] + "." + b;
      DotIndexOf(a[1..], b);
    }
  }

  // ---------------------------------------------------------------------------
  // full()
  // ---------------------------------------------------------------------------

  /**
   * `full()` prints the floor `big // big1`, and then, when the remainder is
   * non-zero, a '.' and all Precision digits of the remainder with trailing
   * zeros stripped.
   */
  lemma FullParts(big: int, top: int, bottom: int)
    requires top == FloorDiv(big, Big1) && bottom == big - top * Big1
    ensures 0 <= bottom < Big1
    ensures Full(big) == if bottom == 0 then IntStr(top) else IntStr(top) + "." + RStripZeros(Pad(bottom, Precision))
  {
    RemainderBounds(big, top, bottom);
    if bottom != 0 {
      assert Full(big) == IntStr(top) + "." + FullFraction(bottom);
      FullFractionDigits(bottom);
    }
  }

  /** The remainder after the floor division by big1 lies in [0, big1). */
  lemma RemainderBounds(big: int, top: int, bottom: int)
    requires top == FloorDiv(big, Big1) && bottom == big - top * Big1
    ensures 0 <= bottom < Big1
  {
  }

  /** The fraction `full()` writes is all Precision digits of the remainder, stripped of trailing zeros. */
  lemma FullFractionDigits(bottom: int)
    requires 0 <= bottom < Big1
    ensures FullFraction(bottom) == RStripZeros(Pad(bottom, Precision))
  {
    ShiftedSlices(bottom);
  }

  /** `BigFix(n).full()` is exactly `str(n)`: no point and no fractional digits. */
  lemma FullOfInt(n: int)
    ensures Full(Scaled(Int(n))) == IntStr(n)
  {
    FloorDivMultiple(n, Big1);
    FullParts(Scaled(Int(n)), n, 0);
  }

  /** The fractional digits of a non-zero remainder: 1..Precision digits, the last one not '0', and they spell the remainder. */
  lemma FracDigitsValue(bottom: int)
    requires 0 < bottom < Big1
    ensures var f := RStripZeros(Pad(bottom, Precision));
            && 1 <= |f| <= Precision && AllDigits(f) && f[|f| - 1] != '0'
            && DigitsValue(f) * Pow10(Precision - |f|) == bottom
  {
    var p := Pad(bottom, Precision);
    PadValue(bottom, Precision);
    DivModUnique(bottom, Big1, 0, bottom);
    assert DigitsValue(p) == bottom;
    RStripZerosValue(p);
    RStripZerosNonEmpty(p);
  }

  /** `full()` never ends in '.': a point is always followed by at least one digit. */
  lemma FullEndsInDigit(big: int)
    ensures |Full(big)| >= 1 && IsDigit(Full(big)[|Full(big)| - 1])
  {
    var top := FloorDiv(big, Big1);
    var bottom := big - top * Big1;
    FullParts(big, top, bottom);
    IntStrEndsInDigit(top);
    if bottom != 0 {
      FracDigitsValue(bottom);
    }
  }

  /**
   * Reads text in the form `full()` writes: a signed integer part, and
   * optionally a '.' and 1..Precision digits that ADD a non-negative fraction
   * (so "-1.5" reads as -1 + 0.5, the way `full()` writes -0.5).
   */
  function ReadFull(s: string): (r: Option<int>) {
    var i := DotIndex(s);
    if i == |s| then
      match ParseInt(s)
      case None => None
      case Some(t) => Some(t * Big1)
    else
      var tail := s[i + 1..];
      match ParseInt(s[..i])
      case None => None
      case Some(t) =>
        if 1 <= |tail| <= Precision && AllDigits(tail)
        then Some(PointValue(t, tail))
        else None
  }

  /** The scaled integer of `t.tail`: t whole units plus the fraction the digits of tail spell. */
  function PointValue(t: int, tail: string): (v: int)
    requires |tail| <= Precision && AllDigits(tail)
  {
    t * Big1 + DigitsValue(tail) * Pow10(Precision - |tail|)
  }

  /** `full()` loses nothing: reading its text back gives the scaled integer exactly. */
  lemma ReadFullInverse(big: int)
    ensures ReadFull(Full(big)) == Some(big)
  {
    var top := FloorDiv(big, Big1);
    var bottom := big - top * Big1;
    var head := IntStr(top);
    FullParts(big, top, bottom);
    IntStrHasNoDot(top);
    ParseIntStr(top);
    if bottom == 0 {
      ReadWhole(head, top);
    } else {
      var f := RStripZeros(Pad(bottom, Precision));
      assert 1 <= |f| <= Precision && AllDigits(f) && PointValue(top, f) == big by {
        FracDigitsValue(bottom);
      }
      ReadWithFraction(head, f, top);
    }
  }

  lemma ReadWhole(head: string, t: int)
    requires forall i | 0 <= i < |head| :: head[i] != '.'
    requires ParseInt(head) == Some(t)
    ensures ReadFull(head) == Some(t * Big1)
  {
    DotIndexOf(head, "");
  }

  lemma ReadWithFraction(head: string, f: string, t: int)
    requires forall i | 0 <= i < |head| :: head[i] != '.'
    requires ParseInt(head) == Some(t)
    requires 1 <= |f| <= Precision && AllDigits(f)
    ensures ReadFull(head + "." + f) == Some(PointValue(t, f))
  {
    DotIndexOf(head, f);
    var s := head + "." + f;
    var i := DotIndex(s);
    assert i == |head| < |s|;
    assert s[..i] == head;
    assert s[i + 1..] == f;
  }

  // ---------------------------------------------------------------------------
  // The sign of a negative value with a fraction
  // ---------------------------------------------------------------------------

  /**
   * Reads a decimal the usual way: a leading '-' negates the whole number,
   * fraction included, so "-1.5" is minus one and a half.
   */
  function ReadDecimal(s: string): (r: Option<int>) {
    var negative := s != [] && s[0] == '-';
    match ReadFull(if negative then s[1..] else s)
    case None => None
    case Some(v) => Some(if negative then -v else v)
  }

  /** All Precision digits of d * 10^99 strip to the single digit d. */
  lemma FullFirstDigitOnly(d: nat, bottom: nat)
    requires 1 <= d < 10 && bottom == d * Pow10(Precision - 1)
    ensures RStripZeros(Pad(bottom, Precision)) == [DigitChar(d)]
  {
    PadSplit(bottom, 1, Precision - 1, d, 0);
    PadZero(Precision - 1);
    assert Pad(d, 1) == [DigitChar(d)];
    RStripZerosAppendZeros([DigitChar(d)], Pad(0, Precision - 1));
  }

  /** `full()` of n + d/10 for a digit d >= 1 is `str(n)`, a '.' and d. */
  lemma FullOneDigit(n: int, d: nat, big: int)
    requires 1 <= d < 10 && big == n * Big1 + d * Pow10(Precision - 1)
    ensures Full(big) == IntStr(n) + "." + [DigitChar(d)]
  {
    var p := Pow10(Precision - 1);
    var bottom := d * p;
    assert 0 < bottom < Big1 by {
      assert Big1 == 10 * p;
      MulMonotone(d, 9, p);
      MulMonotone(1, d, p);
    }
    assert n * Big1 <= big < n * Big1 + Big1;
    FloorDivUnique(big, Big1, n);
    FullParts(big, n, bottom);
    FullFirstDigitOnly(d, bottom);
    assert Full(big) == IntStr(n) + "." + RStripZeros(Pad(bottom, Precision));
  }

  /**
   * `full()` of -n + d/10 (so of -0.5, with n = 1 and d = 5) is '-' and then
   * the text of n + d/10, because the floor -n is written first and the
   * fraction d/10 is added to it. Read as a decimal, that text is -(n + d/10),
   * not -n + d/10.
   */
  lemma FullOfNegativeFraction(n: int, d: nat, big: int, mag: int, read: int)
    requires n >= 1 && 1 <= d < 10
    requires big == (-n) * Big1 + d * Pow10(Precision - 1) && mag == n * Big1 + d * Pow10(Precision - 1)
    requires read == -mag
    ensures Full(big) == "-" + Full(mag)
    ensures ReadDecimal(Full(big)) == Some(read)
    ensures read != big
  {
    var floor := -n;
    FullOneDigit(floor, d, big);
    FullOneDigit(n, d, mag);
    IntStrOfNegative(n, floor);
    SignMoves(IntStr(floor), IntStr(n), [DigitChar(d)]);
    ReadFullInverse(mag);
    ReadNegated(Full(mag), Full(big), mag, read);
    var q := d * Pow10(Precision - 1);
    MulMonotone(1, d, Pow10(Precision - 1));
    assert q > 0;
    assert -mag == big - 2 * q;
  }

  /** A '-' at the head of the integer part is a '-' at the head of the whole text. */
  lemma SignMoves(head: string, digits: string, fraction: string)
    requires head == "-" + digits
    ensures head + "." + fraction == "-" + (digits + "." + fraction)
  {
  }

  /** A '-' before a text that reads as v reads, as a decimal, as -v. */
  lemma ReadNegated(f: string, s: string, v: int, w: int)
    requires ReadFull(f) == Some(v) && s == "-" + f && w == -v
    ensures ReadDecimal(s) == Some(w)
  {
    assert s[0] == '-' && s[1..] == f;
  }

  /** Without a leading '-', a decimal reads the way `full()` writes it. */
  lemma ReadUnsigned(s: string)
    requires s != [] && s[0] != '-'
    ensures ReadDecimal(s) == ReadFull(s)
  {
  }

  /** The text evidently intended for a value: a '-' before the text of its magnitude when it is negative. */
  function FullSigned(big: int): (s: string) {
    (if big < 0 then "-" else "") + Full(Magnitude(big))
  }

  /** The absolute value of a scaled integer. */
  function Magnitude(big: int): (mag: nat) {
    if big < 0 then -big else big
  }

  /** The text of a non-negative value starts with a digit. */
  lemma FullStartsWithDigit(big: int)
    requires big >= 0
    ensures IsDigit(Full(big)[0])
  {
    var top := FloorDiv(big, Big1);
    var bottom := big - top * Big1;
    FullParts(big, top, bottom);
    FloorOfNonNegative(big, top);
    IntStrStartsWithDigit(top);
    if bottom != 0 {
      SameHead(IntStr(top), ".", RStripZeros(Pad(bottom, Precision)), Full(big));
    }
  }

  /** The floor of a non-negative value is non-negative. */
  lemma FloorOfNonNegative(big: int, top: int)
    requires big >= 0 && top == FloorDiv(big, Big1)
    ensures top >= 0
  {
    if top < 0 {
      MulMonotone(top, -1, Big1);
    }
  }

  /** `str` of a non-negative int starts with a digit. */
  lemma IntStrStartsWithDigit(n: int)
    requires n >= 0
    ensures IntStr(n) != [] && IsDigit(IntStr(n)[0])
  {
    assert IntStr(n) == NatStr(n);
  }

  /** A concatenation starts where its first part starts. */
  lemma SameHead(head: string, dot: string, rest: string, s: string)
    requires head != [] && s == head + dot + rest
    ensures s[0] == head[0]
  {
  }

  /** The signed text reads back, as a decimal, as the value itself, and agrees with `full()` on non-negative values. */
  lemma FullSignedInverse(big: int)
    ensures ReadDecimal(FullSigned(big)) == Some(big)
    ensures big >= 0 ==> FullSigned(big) == Full(big)
  {
    var mag := Magnitude(big);
    ReadFullInverse(mag);
    if big < 0 {
      ReadNegated(Full(mag), FullSigned(big), mag, big);
    } else {
      assert mag == big;
      assert FullSigned(big) == Full(big);
      FullStartsWithDigit(big);
      ReadUnsigned(Full(big));
    }
  }

  // ---------------------------------------------------------------------------
  // __str__
  // ---------------------------------------------------------------------------

  /** The body of `__str__` prints the floor, and for a non-zero remainder a '.' and its first `prec` digits stripped of zeros. */
  lemma ShowRoundedParts(ibig: int, top: int, bottom: int)
    requires top == FloorDiv(ibig, Big1) && bottom == ibig - top * Big1
    ensures 0 <= bottom < Big1
    ensures ShowRounded(ibig) == if bottom == 0 then IntStr(top)
                                 else IntStr(top) + "." + RStripZeros(Pad(bottom, Precision)[..Prec])
  {
    RemainderBounds(ibig, top, bottom);
    if bottom != 0 {
      assert ShowRounded(ibig) == IntStr(top) + "." + ShownFraction(bottom);
      ShownFractionDigits(bottom);
    }
  }

  /** The fraction `__str__` writes is the first `prec` of the Precision digits of the remainder, stripped of trailing zeros. */
  lemma ShownFractionDigits(bottom: int)
    requires 0 <= bottom < Big1
    ensures ShownFraction(bottom) == RStripZeros(Pad(bottom, Precision)[..Prec])
  {
    ShiftedSlices(bottom);
  }

  /** `__str__` prints at most `prec` fractional digits, none of them a trailing zero. */
  lemma StrShape(big: int, top: int, bottom: int)
    requires top == FloorDiv(DisplayRound(big), Big1) && bottom == DisplayRound(big) - top * Big1
    ensures 0 <= bottom < Big1
    ensures var f := RStripZeros(Pad(bottom, Precision)[..Prec]);
            && |f| <= Prec && AllDigits(f) && (f == [] || f[|f| - 1] != '0')
            && Str(big) == if bottom == 0 then IntStr(top) else IntStr(top) + "." + f
  {
    ShowRoundedParts(DisplayRound(big), top, bottom);
    var f := RStripZeros(Pad(bottom, Precision)[..Prec]);
    assert AllDigits(Pad(bottom, Precision)[..Prec]);
    RStripZerosValue(Pad(bottom, Precision)[..Prec]);
  }

  /** `__str__` writes a point exactly when the rounded value has a fraction, and then at most `prec` digits after it. */
  lemma StrWidth(big: int)
    ensures var s := Str(big); var i := DotIndex(s);
            && (i == |s| <==> DisplayRound(big) % Big1 == 0)
            && (i < |s| ==> |s| - i - 1 <= Prec)
  {
    var ibig := DisplayRound(big);
    var top := FloorDiv(ibig, Big1);
    var bottom := ibig - top * Big1;
    StrShape(big, top, bottom);
    DivModUnique(ibig, Big1, top, bottom);
    IntStrHasNoDot(top);
    var f := RStripZeros(Pad(bottom, Precision)[..Prec]);
    DotIndexOf(IntStr(top), f);
  }

  /** 10^14 is the literal grid of BigRound, and big1 is a multiple of it. */
  lemma GridFacts()
    ensures Pow10(14) == RoundGrid && Pow10(13) == RoundBias
    ensures Big1 == Pow10(Precision - 14) * RoundGrid
  {
    GridLiteral();
    Pow10Add(Precision - 14, 14);
  }

  lemma GridLiteral()
    ensures Pow10(14) == RoundGrid && Pow10(13) == RoundBias
  {
  }

  /** BigRound leaves a multiple of 10^14 unchanged. */
  lemma DisplayRoundOfMultiple(k: int)
    ensures DisplayRound(k * RoundGrid) == k * RoundGrid
  {
    FloorDivUnique(k * RoundGrid + RoundBias, RoundGrid, k);
  }

  /** The body of `__str__` on an integer part n and a remainder 0 <= bottom < big1. */
  lemma ShowRoundedSplit(n: int, bottom: int, ibig: int)
    requires 0 <= bottom < Big1 && ibig == n * Big1 + bottom
    ensures ShowRounded(ibig) ==
              if bottom == 0 then IntStr(n)
              else IntStr(n) + "." + RStripZeros(Pad(bottom, Precision)[..Prec])
  {
    FloorDivUnique(ibig, Big1, n);
    ShowRoundedParts(ibig, n, bottom);
  }

  /** A value on BigRound's grid: n units plus a remainder that is a multiple of 10^14. */
  lemma OnGrid(n: int, m: nat, big: int)
    requires m * RoundGrid < Big1 && big == n * Big1 + m * RoundGrid
    ensures DisplayRound(big) == big
  {
    GridFacts();
    var k := n * Pow10(Precision - 14) + m;
    assert big == k * RoundGrid;
    DisplayRoundOfMultiple(k);
  }

  /** `str(BigFix(n))` is `str(n)`. */
  lemma StrOfInt(n: int)
    ensures Str(Scaled(Int(n))) == IntStr(n)
  {
    OnGrid(n, 0, Scaled(Int(n)));
    ShowRoundedSplit(n, 0, Scaled(Int(n)));
  }

  /** `__str__` of a value already on BigRound's grid, split at big1. */
  lemma StrOnGrid(n: int, m: nat, big: int)
    requires m * RoundGrid < Big1 && big == n * Big1 + m * RoundGrid
    ensures Str(big) ==
              if m == 0 then IntStr(n)
              else IntStr(n) + "." + RStripZeros(Pad(m * RoundGrid, Precision)[..Prec])
  {
    OnGrid(n, m, big);
    ShowRoundedSplit(n, m * RoundGrid, big);
  }

  /** The first `prec` digits of d * 10^99 strip to the single digit d. */
  lemma FirstDigitOnly(d: nat, bottom: nat)
    requires 1 <= d < 10 && bottom == d * Pow10(Precision - 1)
    ensures RStripZeros(Pad(bottom, Precision)[..Prec]) == [DigitChar(d)]
  {
    PadSplit(bottom, 1, Precision - 1, d, 0);
    PadZero(Precision - 1);
    var z := Pad(0, Precision - 1)[..Prec - 1];
    assert Pad(d, 1) == [DigitChar(d)];
    assert Pad(bottom, Precision)[..Prec] == [DigitChar(d)] + z;
    RStripZerosAppendZeros([DigitChar(d)], z);
  }

  /** d * 10^99 is a positive multiple of 10^14 below big1. */
  lemma OneDigitOnGrid(d: nat) returns (m: nat)
    requires 1 <= d < 10
    ensures 0 < m && d * Pow10(Precision - 1) == m * RoundGrid && m * RoundGrid < Big1
  {
    var p99, p85 := Pow10(Precision - 1), Pow10(Precision - 15);
    assert p99 == p85 * RoundGrid by {
      GridLiteral();
      Pow10Add(Precision - 15, 14);
    }
    assert Big1 == 10 * p99;
    m := d * p85;
    assert d * p99 == m * RoundGrid by {
      MulAssoc(d, p85, RoundGrid);
    }
    MulMonotone(d, 9, p99);
    MulMonotone(1, d, p85);
  }

  /** A single fractional digit d at the first position prints as ".d" after the floor. */
  lemma StrOneDigit(n: int, d: nat, big: int)
    requires 1 <= d < 10 && big == n * Big1 + d * Pow10(Precision - 1)
    ensures Str(big) == IntStr(n) + "." + [DigitChar(d)]
  {
    var m := OneDigitOnGrid(d);
    StrOnGrid(n, m, big);
    FirstDigitOnly(d, m * RoundGrid);
  }

  /**
   * `str()` of n + 0.5 is `str(n)` followed by ".5" for every integer n: the
   * floor and a non-negative fraction, so -0.5 (n = -1) prints as "-1.5".
   */
  lemma StrHalfAbove(n: int, big: int)
    requires big == n * Big1 + 5 * Pow10(Precision - 1)
    ensures Str(big) == IntStr(n) + ".5"
  {
    StrOneDigit(n, 5, big);
    var head := IntStr(n);
    assert head + "." + [DigitChar(5)] == head + ".5";
  }

  /** A remainder below 10^90 has only zeros among its first `prec` digits. */
  lemma HiddenRemainder(bottom: nat)
    requires bottom < Pow10(Precision - Prec)
    ensures bottom < Big1
    ensures RStripZeros(Pad(bottom, Precision)[..Prec]) == []
  {
    Pow10Add(Prec, Precision - Prec);
    MulMonotone(1, Pow10(Prec), Pow10(Precision - Prec));
    PadSplit(bottom, Prec, Precision - Prec, 0, bottom);
    assert Pad(bottom, Precision)[..Prec] == Pad(0, Prec);
    RStripZerosOfZeros(Prec);
  }

  /**
   * A remainder below 10^90 is not visible in the first `prec` digits, yet it
   * survives BigRound when it is a non-zero multiple of 10^14: `__str__` then
   * prints the integer part and a bare '.'.
   */
  lemma StrTrailingDot(n: int, m: nat, big: int)
    requires 0 < m && m * RoundGrid < Pow10(Precision - Prec)
    requires big == n * Big1 + m * RoundGrid
    ensures Str(big) == IntStr(n) + "."
  {
    HiddenRemainder(m * RoundGrid);
    OnGrid(n, m, big);
    ShowRoundedSplit(n, m * RoundGrid, big);
  }

  /** 341 * 10^e, for 14 <= e <= 86, is a non-zero multiple of 10^14 below 10^90. */
  lemma NoiseOnGrid(e: nat) returns (m: nat)
    requires 14 <= e <= Precision - Prec - 4
    ensures 341 * Pow10(e) == m * RoundGrid
    ensures 0 < m && m * RoundGrid < Pow10(Precision - Prec)
  {
    var p, q := Pow10(e - 14), Pow10(e);
    m := 341 * p;
    assert q == p * RoundGrid by {
      GridLiteral();
      Pow10Add(e - 14, 14);
    }
    assert 341 * q == m * RoundGrid by {
      MulAssoc(341, p, RoundGrid);
    }
    assert 341 * q < Pow10(e + 3) by {
      Pow10Add(e, 3);
    }
    Pow10Monotone(e + 3, Precision - Prec);
  }

  /**
   * `str()` of n + 341 * 10^(e - 100) for 14 <= e <= 86 (so of
   * 1.000000000000000341, with n = 1 and e = 82) is `str(n)` followed by a
   * bare '.'.
   */
  lemma StrTrailingDotExample(n: int, e: nat, big: int)
    requires 14 <= e <= Precision - Prec - 4
    requires big == n * Big1 + 341 * Pow10(e)
    ensures Str(big) == IntStr(n) + "."
  {
    var m := NoiseOnGrid(e);
    StrTrailingDot(n, m, big);
  }

  // ---------------------------------------------------------------------------
  // __str__ with the intended rounding
  // ---------------------------------------------------------------------------

  /** A remainder that is a multiple of g, below p * g, is c * g for some c < p. */
  lemma CoarseRemainder(x: int, top: int, g: int, p: int) returns (c: int)
    requires g > 0 && p > 0 && x % g == 0
    requires 0 <= x - top * (p * g) < p * g
    ensures 0 <= c < p && x - top * (p * g) == c * g
  {
    var k := x / g;
    assert x == k * g;
    c := k - top * p;
    assert x - top * (p * g) == c * g;
    if c < 0 {
      MulMonotone(c, -1, g);
    }
    if c >= p {
      MulMonotone(p, c, g);
    }
  }

  /** A remainder with no digit after the first `prec` shows all its digits within the first `prec`. */
  lemma CoarseDigits(bottom: nat, c: nat)
    requires bottom == c * Pow10(Precision - Prec) && c < Pow10(Prec)
    ensures RStripZeros(Pad(bottom, Precision)[..Prec]) == RStripZeros(Pad(bottom, Precision))
  {
    PadSplit(bottom, Prec, Precision - Prec, c, 0);
    PadZero(Precision - Prec);
    assert Pad(bottom, Precision)[..Prec] == Pad(c, Prec);
    RStripZerosAppendZeros(Pad(c, Prec), Pad(0, Precision - Prec));
  }

  /** The remainder of a value with at most `prec` fractional digits strips the same after its first `prec` digits as in full. */
  lemma CoarseFraction(ibig: int, top: int, bottom: int)
    requires ibig % Pow10(Precision - Prec) == 0
    requires top == FloorDiv(ibig, Big1) && bottom == ibig - top * Big1
    ensures 0 <= bottom
    ensures RStripZeros(Pad(bottom, Precision)[..Prec]) == RStripZeros(Pad(bottom, Precision))
  {
    var g, p := Pow10(Precision - Prec), Pow10(Prec);
    assert Big1 == p * g by {
      Pow10Add(Prec, Precision - Prec);
    }
    assert 0 <= ibig - top * (p * g) < p * g;
    var c := CoarseRemainder(ibig, top, g, p);
    CoarseDigits(bottom, c);
  }

  /** On a value with at most `prec` fractional digits, the body of `__str__` prints what `full()` prints. */
  lemma ShowRoundedOfCoarse(ibig: int)
    requires ibig % Pow10(Precision - Prec) == 0
    ensures ShowRounded(ibig) == Full(ibig)
  {
    var top := FloorDiv(ibig, Big1);
    var bottom := ibig - top * Big1;
    ShowRoundedParts(ibig, top, bottom);
    FullParts(ibig, top, bottom);
    if bottom != 0 {
      CoarseFraction(ibig, top, bottom);
    }
  }

  /** With the intended rounding, `__str__` prints every digit of the rounded value and never ends in '.'. */
  lemma StrIntendedIsFull(big: int)
    ensures StrIntended(big) == Full(DisplayRoundIntended(big))
    ensures IsDigit(StrIntended(big)[|StrIntended(big)| - 1])
  {
    ShowRoundedOfCoarse(DisplayRoundIntended(big));
    FullEndsInDigit(DisplayRoundIntended(big));
  }

  /**
   * With the intended rounding (bias a tenth of the last shown digit), any
   * remainder below nine tenths of that digit is not shown at all.
   */
  lemma StrIntendedDropsNoise(n: int, bottom: int, big: int)
    requires 0 <= bottom < 9 * Pow10(Precision - Prec - 1) && big == n * Big1 + bottom
    ensures StrIntended(big) == IntStr(n)
  {
    var ibig := RoundIntendedDropsNoise(n, bottom, big);
    ShowRoundedSplit(n, 0, ibig);
  }

  /** The intended rounding takes n * big1 + bottom, for bottom below 9 * 10^89, to n * big1. */
  lemma RoundIntendedDropsNoise(n: int, bottom: int, big: int) returns (ibig: int)
    requires 0 <= bottom < 9 * Pow10(Precision - Prec - 1) && big == n * Big1 + bottom
    ensures ibig == n * Big1 + 0 && DisplayRoundIntended(big) == ibig
  {
    var g, h, p := Pow10(Precision - Prec), Pow10(Precision - Prec - 1), Pow10(Prec);
    assert Big1 == p * g by {
      Pow10Add(Prec, Precision - Prec);
    }
    assert g / 10 == h by {
      DivModUnique(g, 10, h, 0);
    }
    CoarseRound(n, bottom, p, g, h);
    ibig := n * Big1 + 0;
  }

  /** Adding the bias h = g / 10 and flooring at g takes n * p * g + bottom, for bottom below g - h, to n * p * g. */
  lemma CoarseRound(n: int, bottom: int, p: int, g: int, h: int)
    requires h > 0 && g == 10 * h && 0 <= bottom < 9 * h
    ensures FloorDiv(n * (p * g) + bottom + h, g) * g == n * (p * g)
  {
    assert n * (p * g) == (n * p) * g;
    FloorDivUnique(n * (p * g) + bottom + h, g, n * p);
  }
}
