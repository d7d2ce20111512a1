/**
 * The stateful side of the nested-data engine: `rFix` and `Fix` building
 * lists by appending, `Visit` and `rVisit` reading and writing the
 * module-level flag `BadTrip` (a field of Visitor here), the elementwise
 * `Add`/`Sub`/`Mul`/`Div` built on them, and `dot`. Each method is proved to
 * compute exactly the corresponding definition of Nested.
 */
module Engine {
  import opened Wrappers
  import opened PyStr
  import FP = FixedPoint
  import opened Nested
  import Aggregates

  /** `rFix`: an int becomes BigFix(int), a BigFix is kept, a string goes through `int()`, a sequence is coerced item by item into a new list. */
  method RFix(m: Raw) returns (r: Result<Tree<int>, FP.Error>)
    ensures r == Coerce(m)
    decreases m
  {
    match m
    case IntVal(n) =>
      r := Success(Leaf(FP.FromInt(n)));
    case FixVal(b) =>
      r := Success(Leaf(b));
    case StrVal(s) =>
      var parsed := ParseInt(s);
      if parsed.None? {
        r := Failure(FP.ValueError);
      } else {
        r := Success(Leaf(FP.FromInt(parsed.value)));
      }
    case SeqVal(_, items) =>
      var newmat: seq<Tree<int>> := [];
      for j := 0 to |items|
        invariant CoerceAll(items[..j]) == Success(newmat)
      {
        var i := RFix(items[j]);
        assert items[..j + 1][..j] == items[..j];
        if i.Failure? {
          CoerceAllPrefixFails(items, j + 1);
          return Failure(i.error);
        }
        newmat := newmat + [i.value];
      }
      assert items[..|items|] == items;
      r := Success(Node(PyList, newmat));
  }

  /** `Fix`: its own leaf tests are those of `rFix`, which it then calls. */
  method Fix(m: Raw) returns (r: Result<Tree<int>, FP.Error>)
    ensures r.Failure? <==> !Parses(m)
    ensures r.Failure? ==> r.error == FP.ValueError
    ensures r.Success? ==> Mirrors(m, r.value)
  {
    r := RFix(m);
    if r.Success? {
      CoerceMirrors(m, r.value);
    } else {
      CoerceMirrors(m, Leaf(0));
    }
  }

  /** The leaf operations of `Add`, `Sub` and `Mul`: the BigFix operators, which never raise. */
  function AddLeaves(a: int, b: int): (r: Result<int, FP.Error>) {
    Success(FP.Add(a, b))
  }

  function SubLeaves(a: int, b: int): (r: Result<int, FP.Error>) {
    Success(FP.Sub(a, b))
  }

  function MulLeaves(a: int, b: int): (r: Result<int, FP.Error>) {
    Success(FP.Mul(a, b))
  }

  /** Some leaf of the tree is BigFix(0). */
  predicate HasZeroLeaf(t: Tree<int>) {
    match t
    case Leaf(b) => b == 0
    case Node(_, kids) => exists i | 0 <= i < |kids| :: HasZeroLeaf(kids[i])
  }

  /** `a / b` is defined at every pair of leaves exactly when no leaf of the divisor is zero. */
  lemma {:induction false} QuotientDefined(m1: Tree<int>, m2: Tree<int>)
    requires SameShape(m1, m2)
    ensures AllDefined(m1, m2, FP.Quotient) <==> !HasZeroLeaf(m2)
  {
    if m1.Node? {
      forall i | 0 <= i < |m1.kids|
        ensures AllDefined(m1.kids[i], m2.kids[i], FP.Quotient) <==> !HasZeroLeaf(m2.kids[i])
      {
        QuotientDefined(m1.kids[i], m2.kids[i]);
      }
    }
  }

  /** A list of BigFix values, as `vector_sum` needs its elements. */
  predicate IsNumber(t: Tree<Option<int>>) {
    t.Leaf? && t.v.Some?
  }

  function Numbers(kids: seq<Tree<Option<int>>>): (v: seq<FP.Num>)
    requires forall i | 0 <= i < |kids| :: IsNumber(kids[i])
    ensures |v| == |kids|
  {
    seq(|kids|, i requires 0 <= i < |kids| && IsNumber(kids[i]) => FP.Fix(kids[i].v.value))
  }

  /**
   * `vector_sum` applied to what `Mul` returned: an exception escapes;
   * `len()` of None or of a lone BigFix raises TypeError; an element that is
   * None or a list raises AttributeError at `other.big`.
   */
  function SumOfProducts(o: Result<Tree<Option<int>>, FP.Error>): (r: Result<int, FP.Error>) {
    match o
    case Failure(e) => Failure(e)
    case Success(Leaf(_)) => Failure(FP.TypeError)
    case Success(Node(_, kids)) =>
      if forall i | 0 <= i < |kids| :: IsNumber(kids[i]) then Success(Aggregates.Sum(Aggregates.ScaledAll(Numbers(kids))))
      else Failure(FP.AttributeError)
  }

  /** A one-level list or array of BigFix values. */
  function Vector(k: SeqKind, u: seq<int>): (t: Tree<int>)
    ensures t.Node? && t.kind == k && |t.kids| == |u|
  {
    Node(k, seq(|u|, i requires 0 <= i < |u| => Leaf(u[i])))
  }

  class Visitor {
    /** The module-level flag `BadTrip`. */
    var badTrip: bool

    /** `BadTrip = False` when the module is loaded. */
    constructor ()
      ensures !badTrip
    {
      badTrip := false;
    }

    /** `rVisit`: builds `newmat` child by child, stopping at once when the flag is set. */
    method RVisit<A, R>(m1: Tree<A>, m2: Tree<A>, fn: (A, A) -> Result<R, FP.Error>) returns (r: Result<Tree<Option<R>>, FP.Error>)
      modifies this
      decreases m1
      ensures Outcome(r, badTrip) == Nested.RVisit(m1, m2, fn, old(badTrip))
    {
      if badTrip {
        return Success(Leaf(None));
      }
      if m1.Node? && m2.Node? && m1.kind == m2.kind {
        if |m1.kids| != |m2.kids| {
          badTrip := true;
          return Success(Leaf(None));
        }
        var newmat: seq<Tree<Option<R>>> := [];
        for j := 0 to |m1.kids|
          invariant Outcome(Success(newmat), badTrip) == RVisitAll(m1.kids[..j], m2.kids[..j], fn, false)
        {
          assert m1.kids[..j + 1][..j] == m1.kids[..j];
          assert m2.kids[..j + 1][..j] == m2.kids[..j];
          var i := RVisit(m1.kids[j], m2.kids[j], fn);
          if i.Failure? {
            RVisitAllPrefixFails(m1.kids, m2.kids, fn, false, j + 1);
            return Failure(i.error);
          }
          newmat := newmat + [i.value];
        }
        assert m1.kids[..|m1.kids|] == m1.kids;
        assert m2.kids[..|m2.kids|] == m2.kids;
        return Success(Node(PyList, newmat));
      }
      if m1.Node? || m2.Node? {
        badTrip := true;
        return Success(Leaf(None));
      }
      var y := fn(m1.v, m2.v);
      if y.Failure? {
        return Failure(y.error);
      }
      r := Success(Leaf(Some(y.value)));
    }

    /** `Visit`: two sequences clear the flag and go to `rVisit`; exactly one sequence sets it; two leaves give `fn(a, b)`. */
    method Visit<A, R>(m1: Tree<A>, m2: Tree<A>, fn: (A, A) -> Result<R, FP.Error>) returns (r: Result<Tree<Option<R>>, FP.Error>)
      modifies this
      ensures Outcome(r, badTrip) == Nested.Visit(m1, m2, fn, old(badTrip))
    {
      if m1.Node? && m2.Node? {
        badTrip := false;
        r := RVisit(m1, m2, fn);
      } else if m1.Node? || m2.Node? {
        badTrip := true;
        r := Success(Leaf(None));
      } else {
        var y := fn(m1.v, m2.v);
        if y.Failure? {
          r := Failure(y.error);
        } else {
          r := Success(Leaf(Some(y.value)));
        }
      }
    }

    /** `Add`: `Visit` with `a + b`; it never raises, and on trees of one shape it adds leaf by leaf. */
    method Add(m1: Tree<int>, m2: Tree<int>) returns (r: Result<Tree<Option<int>>, FP.Error>)
      modifies this
      ensures Outcome(r, badTrip) == Nested.Visit(m1, m2, AddLeaves, old(badTrip))
      ensures r.Success?
      ensures SameShape(m1, m2) ==> r == Success(Zip(m1, m2, AddLeaves)) && badTrip == (old(badTrip) && m1.Leaf?)
    {
      r := Visit(m1, m2, AddLeaves);
      ElementwiseFacts(m1, m2, AddLeaves, old(badTrip));
    }

    /** `Sub`: `Visit` with `a - b`. */
    method Sub(m1: Tree<int>, m2: Tree<int>) returns (r: Result<Tree<Option<int>>, FP.Error>)
      modifies this
      ensures Outcome(r, badTrip) == Nested.Visit(m1, m2, SubLeaves, old(badTrip))
      ensures r.Success?
      ensures SameShape(m1, m2) ==> r == Success(Zip(m1, m2, SubLeaves)) && badTrip == (old(badTrip) && m1.Leaf?)
    {
      r := Visit(m1, m2, SubLeaves);
      ElementwiseFacts(m1, m2, SubLeaves, old(badTrip));
    }

    /** `Mul`: `Visit` with `a * b`. */
    method Mul(m1: Tree<int>, m2: Tree<int>) returns (r: Result<Tree<Option<int>>, FP.Error>)
      modifies this
      ensures Outcome(r, badTrip) == Nested.Visit(m1, m2, MulLeaves, old(badTrip))
      ensures r.Success?
      ensures SameShape(m1, m2) ==> r == Success(Zip(m1, m2, MulLeaves)) && badTrip == (old(badTrip) && m1.Leaf?)
    {
      r := Visit(m1, m2, MulLeaves);
      ElementwiseFacts(m1, m2, MulLeaves, old(badTrip));
    }

    /** `Div`: `Visit` with `a / b`; on trees of one shape it raises ZeroDivisionError exactly when a divisor leaf is zero. */
    method Div(m1: Tree<int>, m2: Tree<int>) returns (r: Result<Tree<Option<int>>, FP.Error>)
      modifies this
      ensures Outcome(r, badTrip) == Nested.Visit(m1, m2, FP.Quotient, old(badTrip))
      ensures SameShape(m1, m2) ==> (r.Failure? <==> HasZeroLeaf(m2))
      ensures SameShape(m1, m2) && r.Success? ==> r.value == Zip(m1, m2, FP.Quotient)
      ensures r.Failure? ==> r.error == FP.ZeroDivisionError
    {
      r := Visit(m1, m2, FP.Quotient);
      VisitRaisesOnly(m1, m2, FP.Quotient, old(badTrip), FP.ZeroDivisionError);
      if SameShape(m1, m2) {
        VisitMatching(m1, m2, FP.Quotient, old(badTrip));
        QuotientDefined(m1, m2);
      }
    }

    /** `dot`: `vector_sum(Mul(mat1, mat2))`. */
    method Dot(m1: Tree<int>, m2: Tree<int>) returns (r: Result<int, FP.Error>)
      modifies this
      ensures r == SumOfProducts(Nested.Visit(m1, m2, MulLeaves, old(badTrip)).res)
      ensures badTrip == Nested.Visit(m1, m2, MulLeaves, old(badTrip)).trip
    {
      var product := Mul(m1, m2);
      var t := product.value;
      if t.Leaf? {
        return Failure(FP.TypeError);
      }
      if exists i | 0 <= i < |t.kids| :: !IsNumber(t.kids[i]) {
        return Failure(FP.AttributeError);
      }
      var total := Aggregates.VectorSum(Numbers(t.kids));
      r := Success(total);
    }
  }

  /** For Add, Sub and Mul: the visit never raises, and on trees of one shape it is `Zip`. */
  lemma ElementwiseFacts(m1: Tree<int>, m2: Tree<int>, fn: (int, int) -> Result<int, FP.Error>, trip: bool)
    requires NeverRaises(fn)
    ensures Nested.Visit(m1, m2, fn, trip).res.Success?
    ensures SameShape(m1, m2) ==>
              Nested.Visit(m1, m2, fn, trip) == Outcome(Success(Zip(m1, m2, fn)), trip && m1.Leaf?)
  {
    VisitTotal(m1, m2, fn, trip);
    if SameShape(m1, m2) {
      TotalIsDefined(m1, m2, fn);
      VisitMatching(m1, m2, fn, trip);
    }
  }

  /** `dot` of two one-level lists of equal length is the sum of the products and leaves the flag clear. */
  lemma DotOfVectors(k: SeqKind, u: seq<int>, w: seq<int>, trip: bool)
    requires |u| == |w|
    ensures Nested.Visit(Vector(k, u), Vector(k, w), MulLeaves, trip).trip == false
    ensures SumOfProducts(Nested.Visit(Vector(k, u), Vector(k, w), MulLeaves, trip).res)
            == Success(Aggregates.Sum(seq(|u|, i requires 0 <= i < |u| => FP.Mul(u[i], w[i]))))
  {
    var m1 := Vector(k, u);
    var m2 := Vector(k, w);
    assert SameShape(m1, m2);
    ElementwiseFacts(m1, m2, MulLeaves, trip);
    var t := Zip(m1, m2, MulLeaves);
    assert forall i | 0 <= i < |u| :: t.kids[i] == Leaf(Some(FP.Mul(u[i], w[i])));
    assert Aggregates.ScaledAll(Numbers(t.kids)) == seq(|u|, i requires 0 <= i < |u| => FP.Mul(u[i], w[i]));
  }

  /** `dot` of two lists of different lengths: `Mul` returns None, and `len(None)` raises TypeError. */
  lemma DotLengthMismatch(m1: Tree<int>, m2: Tree<int>, trip: bool)
    requires m1.Node? && m2.Node? && |m1.kids| != |m2.kids|
    ensures Nested.Visit(m1, m2, MulLeaves, trip).trip
    ensures SumOfProducts(Nested.Visit(m1, m2, MulLeaves, trip).res) == Failure(FP.TypeError)
  {
    VisitLengthMismatch(m1, m2, MulLeaves, trip);
  }
}
