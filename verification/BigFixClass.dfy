/**
 * The BigFix class itself: one mutable field `big`, the value times 10^100.
 * Each operator coerces a plain int operand with `BigFix(other)` and builds a
 * fresh result with `Big(...)`; the in-place divisions overwrite `big` and
 * hand back the same object. What the integer expressions compute is stated
 * by the functions of FixedPoint and proved in FixedPointFacts and RenderFacts.
 */
module BigFixes {
  import opened Wrappers
  import opened PyStr
  import PyInt
  import FP = FixedPoint
  import FixedPointFacts
  import RenderFacts

  /** A right-hand operand of an operator: a plain int, or a BigFix object. */
  datatype Operand = IntArg(n: int) | FixArg(obj: BigFix)

  /** The objects an operand refers to. */
  function Objects(o: Operand): (objs: set<object>) {
    if o.FixArg? then {o.obj} else {}
  }

  /** The scaled integer an operand stands for once coerced. */
  function OperandBig(o: Operand): (v: int)
    reads Objects(o)
  {
    match o
    case IntArg(n) => FP.Scaled(FP.Int(n))
    case FixArg(x) => x.big
  }

  class BigFix {
    /** The value times big1. */
    var big: int

    /** `BigFix(val)` for an int val: `fromInt` stores val * big1, which `full()` prints as `str(val)`. */
    constructor (val: int)
      ensures big == FP.FromInt(val)
      ensures FP.Full(big) == IntStr(val)
    {
      big := FP.FromInt(val);
      RenderFacts.FullOfInt(val);
    }

    /** `fromInt`: the value becomes the integer val exactly. */
    method FromInt(val: int)
      modifies this
      ensures big == FP.FromInt(val)
      ensures FP.Trunc(big) == big
      ensures FP.Full(big) == IntStr(val)
    {
      big := FP.FromInt(val);
      FixedPointFacts.FromIntExact(val);
      RenderFacts.FullOfInt(val);
    }

    /** `fromBig`: the scaled integer is stored as given. */
    method FromBig(val: int)
      modifies this
      ensures big == val
    {
      big := val;
    }

    /** `__add__` (and `__radd__`): the scaled integers are added. */
    method Add(other: Operand) returns (r: BigFix)
      ensures fresh(r)
      ensures r.big == FP.Add(big, OperandBig(other))
      ensures FP.Sub(r.big, OperandBig(other)) == big
    {
      var o := Coerce(other);
      r := Big(big + o.big);
      FixedPointFacts.AddSubInverse(big, o.big);
    }

    /** `__radd__`: `other + self` is `self + other`. */
    method RAdd(other: Operand) returns (r: BigFix)
      ensures fresh(r)
      ensures r.big == FP.Add(OperandBig(other), big)
    {
      r := Add(other);
      FixedPointFacts.AddSubInverse(big, OperandBig(other));
    }

    /** `__sub__`: the scaled integers are subtracted. */
    method Sub(other: Operand) returns (r: BigFix)
      ensures fresh(r)
      ensures r.big == FP.Sub(big, OperandBig(other))
      ensures FP.Add(r.big, OperandBig(other)) == big
    {
      var o := Coerce(other);
      r := Big(big - o.big);
    }

    /** `__rsub__` as written: it computes `self - other` where `other - self` is asked for. */
    method RSub(other: Operand) returns (r: BigFix)
      ensures fresh(r)
      ensures r.big == FP.RSub(big, OperandBig(other))
      ensures r.big == -FP.RSubIntended(big, OperandBig(other))
    {
      r := Sub(other);
      FixedPointFacts.RSubSwapsOperands(big, OperandBig(other));
    }

    /** `__mul__`: the product of the scaled integers, floor-divided by big1 once. */
    method Mul(other: Operand) returns (r: BigFix)
      ensures fresh(r)
      ensures r.big == FP.Mul(big, OperandBig(other))
      ensures r.big * FP.Big1 <= big * OperandBig(other) < r.big * FP.Big1 + FP.Big1
    {
      var o := Coerce(other);
      r := Big(PyInt.FloorDiv(big * o.big, FP.Big1));
    }

    /** `__rmul__`: `other * self` is `self * other`. */
    method RMul(other: Operand) returns (r: BigFix)
      ensures fresh(r)
      ensures r.big == FP.Mul(big, OperandBig(other))
    {
      r := Mul(other);
    }

    /** `__truediv__`: `(self.big * big1) // other.big`; a zero divisor raises ZeroDivisionError. */
    method TrueDiv(other: Operand) returns (r: Result<BigFix, FP.Error>)
      ensures r.Failure? <==> OperandBig(other) == 0
      ensures r.Failure? ==> r.error == FP.ZeroDivisionError
      ensures r.Success? ==> fresh(r.value) && Success(r.value.big) == FP.Quotient(big, OperandBig(other))
    {
      var o := Coerce(other);
      if o.big == 0 {
        return Failure(FP.ZeroDivisionError);
      }
      var q := Big(PyInt.FloorDiv(big * FP.Big1, o.big));
      r := Success(q);
    }

    /** `__floordiv__`: the same expression as `__truediv__`. */
    method FloorDiv(other: Operand) returns (r: Result<BigFix, FP.Error>)
      ensures r.Failure? <==> OperandBig(other) == 0
      ensures r.Failure? ==> r.error == FP.ZeroDivisionError
      ensures r.Success? ==> fresh(r.value) && Success(r.value.big) == FP.Quotient(big, OperandBig(other))
    {
      r := TrueDiv(other);
    }

    /** `__rtruediv__` as written: `other / self` is computed as `self / other`. */
    method RTrueDiv(other: Operand) returns (r: Result<BigFix, FP.Error>)
      ensures r.Failure? <==> OperandBig(other) == 0
      ensures r.Failure? ==> r.error == FP.ZeroDivisionError
      ensures r.Success? ==> fresh(r.value) && Success(r.value.big) == FP.RQuotient(big, OperandBig(other))
      ensures r.Success? ==> Success(r.value.big) == FP.RQuotientIntended(OperandBig(other), big)
    {
      r := TrueDiv(other);
    }

    /** `__rfloordiv__` as written: `other // self` is computed as `self // other`. */
    method RFloorDiv(other: Operand) returns (r: Result<BigFix, FP.Error>)
      ensures r.Failure? <==> OperandBig(other) == 0
      ensures r.Failure? ==> r.error == FP.ZeroDivisionError
      ensures r.Success? ==> fresh(r.value) && Success(r.value.big) == FP.RQuotient(big, OperandBig(other))
    {
      r := FloorDiv(other);
    }

    /** `__ifloordiv__`: `self.big` is overwritten with the quotient and self is returned; on a zero divisor nothing changes. */
    method IFloorDiv(other: Operand) returns (r: Result<BigFix, FP.Error>)
      modifies this
      ensures old(FP.Quotient(big, OperandBig(other))).Failure? ==>
                r == Failure(FP.ZeroDivisionError) && big == old(big)
      ensures old(FP.Quotient(big, OperandBig(other))).Success? ==>
                r == Success(this) && big == old(FP.Quotient(big, OperandBig(other))).value
    {
      var o := Coerce(other);
      if o.big == 0 {
        return Failure(FP.ZeroDivisionError);
      }
      big := PyInt.FloorDiv(big * FP.Big1, o.big);
      r := Success(this);
    }

    /** `__itruediv__`: the same update as `__ifloordiv__`. */
    method ITrueDiv(other: Operand) returns (r: Result<BigFix, FP.Error>)
      modifies this
      ensures old(FP.Quotient(big, OperandBig(other))).Failure? ==>
                r == Failure(FP.ZeroDivisionError) && big == old(big)
      ensures old(FP.Quotient(big, OperandBig(other))).Success? ==>
                r == Success(this) && big == old(FP.Quotient(big, OperandBig(other))).value
    {
      r := IFloorDiv(other);
    }

    /** `__mod__`: the quotient is chopped to a whole number and `self - other * chop` is returned: the floor remainder. */
    method Mod(other: Operand) returns (r: Result<BigFix, FP.Error>)
      ensures r.Failure? <==> OperandBig(other) == 0
      ensures r.Failure? ==> r.error == FP.ZeroDivisionError
      ensures r.Success? ==> fresh(r.value) && Success(r.value.big) == FP.Mod(big, OperandBig(other))
      ensures r.Success? && OperandBig(other) > 0 ==> 0 <= r.value.big < OperandBig(other)
    {
      var o := Coerce(other);
      if o.big == 0 {
        return Failure(FP.ZeroDivisionError);
      }
      var result := Big(PyInt.FloorDiv(big * FP.Big1, o.big));
      var chop := Big(PyInt.FloorDiv(result.big, FP.Big1) * FP.Big1);
      var product := o.Mul(FixArg(chop));
      var difference := Sub(FixArg(product));
      FixedPointFacts.ModIsFloorRemainder(big, o.big);
      r := Success(difference);
    }

    /** `trunc`: the fraction is cleared, rounding toward negative infinity. */
    method Trunc() returns (r: BigFix)
      ensures fresh(r)
      ensures r.big == FP.Trunc(big)
      ensures r.big % FP.Big1 == 0 && r.big <= big < r.big + FP.Big1
    {
      r := Big(PyInt.FloorDiv(big, FP.Big1) * FP.Big1);
    }

    /** `sqrt`: `isqrt(self.big * big1)`, which raises ValueError for a negative value. */
    method Sqrt() returns (r: Result<BigFix, FP.Error>)
      ensures r.Failure? <==> big < 0
      ensures r.Failure? ==> r.error == FP.ValueError
      ensures r.Success? ==> fresh(r.value) && Success(r.value.big) == FP.Sqrt(big)
      ensures r.Success? ==> r.value.big * r.value.big <= big * FP.Big1 < (r.value.big + 1) * (r.value.big + 1)
    {
      var bigger := big * FP.Big1;
      if bigger < 0 {
        return Failure(FP.ValueError);
      }
      var root := Big(PyInt.Isqrt(bigger));
      r := Success(root);
    }

    /** `__pow__`: the exponent 0.5 takes the square root; any other exponent gives the placeholder BigFix(13). */
    method Pow(val: real) returns (r: Result<BigFix, FP.Error>)
      ensures val == 0.5 ==> (r.Failure? <==> big < 0)
      ensures val == 0.5 && r.Failure? ==> r.error == FP.ValueError
      ensures val == 0.5 && r.Success? ==> fresh(r.value) && Success(r.value.big) == FP.Sqrt(big)
      ensures val != 0.5 ==> r.Success? && fresh(r.value) && r.value.big == FP.FromInt(13)
    {
      if val == 0.5 {
        r := Sqrt();
      } else {
        var placeholder := new BigFix(13);
        r := Success(placeholder);
      }
    }

    /** `full()`: every non-zero scaled digit, so the text reads back as `big` exactly. */
    function Full(): (s: string)
      reads this
      ensures RenderFacts.ReadFull(s) == Some(big)
    {
      RenderFacts.ReadFullInverse(big);
      FP.Full(big)
    }

    /** `__str__`: a point appears exactly when the BigRound-ed value has a fraction, followed by at most `prec` digits. */
    function ToString(): (s: string)
      reads this
      ensures RenderFacts.DotIndex(s) == |s| <==> FP.DisplayRound(big) % FP.Big1 == 0
      ensures RenderFacts.DotIndex(s) < |s| ==> |s| - RenderFacts.DotIndex(s) - 1 <= FP.Prec
    {
      RenderFacts.StrWidth(big);
      FP.Str(big)
    }
  }

  /** `Big(val)`: a fresh object whose scaled integer is val. */
  method Big(val: int) returns (r: BigFix)
    ensures fresh(r)
    ensures r.big == val
  {
    r := new BigFix(1);
    r.big := val;
  }

  /** `if IntLike(other): other = BigFix(other)`: an int becomes a fresh object, a BigFix is used as it is. */
  method Coerce(other: Operand) returns (o: BigFix)
    ensures other.FixArg? ==> o == other.obj
    ensures other.IntArg? ==> fresh(o)
    ensures o.big == OperandBig(other)
  {
    match other
    case IntArg(n) =>
      o := new BigFix(n);
    case FixArg(x) =>
      o := x;
  }
}
