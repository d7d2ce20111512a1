/**
 * Nested data as `Fix`/`rFix` and `Visit`/`rVisit` see it: a leaf, or a
 * Python list or numpy array of children (the two kinds `ListLike` accepts).
 * BigFix leaves are represented by their scaled integers. This module holds
 * the value-level definitions the engine's methods are proved against, and
 * the properties of those definitions.
 */
module Nested {
  import opened Wrappers
  import opened PyStr
  import FP = FixedPoint

  /** `type(x) == list` or `type(x) == np.ndarray`. */
  datatype SeqKind = PyList | NdArray

  /** A nested value: a leaf, or a sequence of a given kind. */
  datatype Tree<T> = Leaf(v: T) | Node(kind: SeqKind, kids: seq<Tree<T>>)

  /** What `Fix` accepts: an int, a BigFix (its scaled integer), a string, or a list or array of these. */
  datatype Raw = IntVal(n: int) | FixVal(big: int) | StrVal(s: string) | SeqVal(kind: SeqKind, items: seq<Raw>)

  /** A result together with the value of the global `BadTrip` afterwards. */
  datatype Outcome<X> = Outcome(res: Result<X, FP.Error>, trip: bool)

  // ---------------------------------------------------------------------------
  // Coercion: rFix / Fix
  // ---------------------------------------------------------------------------

  /** `rFix` (and `Fix`, which tests the same leaf cases and then calls it). */
  function Coerce(m: Raw): (r: Result<Tree<int>, FP.Error>)
    decreases m, 1
  {
    match m
    case IntVal(n) => Success(Leaf(FP.FromInt(n)))
    case FixVal(b) => Success(Leaf(b))
    case StrVal(s) =>
      (match ParseInt(s)
       case None => Failure(FP.ValueError)
       case Some(n) => Success(Leaf(FP.FromInt(n))))
    case SeqVal(_, items) =>
      (match CoerceAll(items)
       case Failure(e) => Failure(e)
       case Success(kids) => Success(Node(PyList, kids)))
  }

  /** The loop of `rFix`: each item coerced in order and appended to `newmat`; the first exception escapes. */
  function CoerceAll(items: seq<Raw>): (r: Result<seq<Tree<int>>, FP.Error>)
    decreases items, 0
    ensures r.Success? ==> |r.value| == |items|
  {
    if items == [] then Success([])
    else
      match CoerceAll(items[..|items| - 1])
      case Failure(e) => Failure(e)
      case Success(init) =>
        match Coerce(items[|items| - 1])
        case Failure(e) => Failure(e)
        case Success(t) => Success(init + [t])
  }

  /** Every string leaf holds an optionally signed run of digits, so `int()` accepts it. */
  predicate Parses(m: Raw) {
    match m
    case StrVal(s) => ParseInt(s).Some?
    case SeqVal(_, items) => forall i | 0 <= i < |items| :: Parses(items[i])
    case _ => true
  }

  /**
   * The relation a coerced tree bears to its input: each list or array node
   * becomes a list of the same length and order, an int n becomes n * big1,
   * a BigFix is kept, and a string becomes the int it spells times big1.
   */
  predicate Mirrors(m: Raw, t: Tree<int>) {
    match m
    case IntVal(n) => t == Leaf(n * FP.Big1)
    case FixVal(b) => t == Leaf(b)
    case StrVal(s) => ParseInt(s).Some? && t == Leaf(ParseInt(s).value * FP.Big1)
    case SeqVal(_, items) =>
      t.Node? && t.kind == PyList && |t.kids| == |items| &&
      forall i | 0 <= i < |items| :: Mirrors(items[i], t.kids[i])
  }

  /** Coercion fails exactly on a string `int()` rejects, and otherwise yields the one tree that mirrors its input. */
  lemma {:induction false} CoerceMirrors(m: Raw, t: Tree<int>)
    ensures Coerce(m).Failure? <==> !Parses(m)
    ensures Coerce(m).Failure? ==> Coerce(m).error == FP.ValueError
    ensures Coerce(m) == Success(t) <==> Mirrors(m, t)
    decreases m, 1
  {
    match m
    case IntVal(n) =>
    case FixVal(b) =>
    case StrVal(s) =>
    case SeqVal(k, items) =>
      if t.Node? {
        CoerceAllMirrors(items, t.kids);
      } else {
        CoerceAllMirrors(items, []);
      }
  }

  lemma {:induction false} CoerceAllMirrors(items: seq<Raw>, kids: seq<Tree<int>>)
    ensures CoerceAll(items).Failure? <==> exists i | 0 <= i < |items| :: !Parses(items[i])
    ensures CoerceAll(items).Failure? ==> CoerceAll(items).error == FP.ValueError
    ensures CoerceAll(items) == Success(kids) <==>
            |kids| == |items| && forall i | 0 <= i < |items| :: Mirrors(items[i], kids[i])
    decreases items, 0
  {
    if items != [] {
      var n := |items| - 1;
      var init := items[..n];
      var kinit := if |kids| == 0 then [] else kids[..|kids| - 1];
      var klast := if |kids| == 0 then Leaf(0) else kids[|kids| - 1];
      CoerceAllMirrors(init, kinit);
      CoerceMirrors(items[n], klast);
      assert forall i | 0 <= i < n :: init[i] == items[i];
      if |kids| > 0 {
        assert kids == kinit + [klast];
      }
    }
  }

  /** The tree handed back to `Fix`: a BigFix leaf stays, a list stays a list. */
  function Embed(t: Tree<int>): (m: Raw)
    ensures m.SeqVal? <==> t.Node?
  {
    match t
    case Leaf(b) => FixVal(b)
    case Node(k, kids) => SeqVal(k, seq(|kids|, i requires 0 <= i < |kids| => Embed(kids[i])))
  }

  /** `Fix(Fix(m)) == Fix(m)`: coercing an already coerced tree changes nothing. */
  lemma {:induction false} CoerceIdempotent(m: Raw, t: Tree<int>)
    requires Coerce(m) == Success(t)
    ensures Coerce(Embed(t)) == Success(t)
  {
    CoerceMirrors(m, t);
    MirrorsEmbed(m, t);
    CoerceMirrors(Embed(t), t);
  }

  lemma {:induction false} MirrorsEmbed(m: Raw, t: Tree<int>)
    requires Mirrors(m, t)
    ensures Mirrors(Embed(t), t)
    decreases m
  {
    match m
    case IntVal(n) =>
    case FixVal(b) =>
    case StrVal(s) =>
    case SeqVal(k, items) =>
      var e := Embed(t);
      forall i | 0 <= i < |items|
        ensures Mirrors(e.items[i], t.kids[i])
      {
        MirrorsEmbed(items[i], t.kids[i]);
      }
  }

  // ---------------------------------------------------------------------------
  // The elementwise visitor: rVisit / Visit
  // ---------------------------------------------------------------------------

  /**
   * `rVisit(mat1, mat2, fn)` entered with `BadTrip == trip`. Once tripped it
   * returns None at once. Two sequences of the same kind and length are
   * visited child by child into a fresh list; a length mismatch, a kind
   * mismatch or a sequence against a leaf trips the flag and returns None;
   * two leaves give `fn(a, b)`, whose exception escapes.
   */
  function RVisit<A, R>(m1: Tree<A>, m2: Tree<A>, fn: (A, A) -> Result<R, FP.Error>, trip: bool): (o: Outcome<Tree<Option<R>>>)
    decreases m1, 1
    ensures trip ==> o.trip
  {
    if trip then Outcome(Success(Leaf(None)), true)
    else if m1.Node? && m2.Node? && m1.kind == m2.kind then
      if |m1.kids| != |m2.kids| then Outcome(Success(Leaf(None)), true)
      else
        var o := RVisitAll(m1.kids, m2.kids, fn, false);
        match o.res
        case Failure(e) => Outcome(Failure(e), o.trip)
        case Success(kids) => Outcome(Success(Node(PyList, kids)), o.trip)
    else if m1.Node? || m2.Node? then Outcome(Success(Leaf(None)), true)
    else
      match fn(m1.v, m2.v)
      case Failure(e) => Outcome(Failure(e), false)
      case Success(y) => Outcome(Success(Leaf(Some(y))), false)
  }

  /** The loop of `rVisit`: each pair of children visited in order, the flag carried from one to the next. */
  function RVisitAll<A, R>(xs: seq<Tree<A>>, ys: seq<Tree<A>>, fn: (A, A) -> Result<R, FP.Error>, trip: bool): (o: Outcome<seq<Tree<Option<R>>>>)
    requires |xs| == |ys|
    decreases xs, 0
    ensures trip ==> o.trip
    ensures o.res.Success? ==> |o.res.value| == |xs|
  {
    if xs == [] then Outcome(Success([]), trip)
    else
      var n := |xs| - 1;
      var o := RVisitAll(xs[..n], ys[..n], fn, trip);
      match o.res
      case Failure(e) => o
      case Success(init) =>
        var last := RVisit(xs[n], ys[n], fn, o.trip);
        match last.res
        case Failure(e) => Outcome(Failure(e), last.trip)
        case Success(t) => Outcome(Success(init + [t]), last.trip)
  }

  /** `Visit`: two sequences reset the flag and go to `rVisit`; exactly one sequence trips it; two leaves give `fn(a, b)`. */
  function Visit<A, R>(m1: Tree<A>, m2: Tree<A>, fn: (A, A) -> Result<R, FP.Error>, trip: bool): (o: Outcome<Tree<Option<R>>>)
    ensures m1.Node? != m2.Node? ==> o == Outcome(Success(Leaf(None)), true)
  {
    if m1.Node? && m2.Node? then RVisit(m1, m2, fn, false)
    else if m1.Node? || m2.Node? then Outcome(Success(Leaf(None)), true)
    else
      match fn(m1.v, m2.v)
      case Failure(e) => Outcome(Failure(e), trip)
      case Success(y) => Outcome(Success(Leaf(Some(y))), trip)
  }

  /** Two trees of identical shape: sequences of the same kind and length at the same places, leaves at the same places. */
  predicate SameShape<A>(m1: Tree<A>, m2: Tree<A>) {
    match m1
    case Leaf(_) => m2.Leaf?
    case Node(k, xs) =>
      m2.Node? && m2.kind == k && |xs| == |m2.kids| &&
      forall i | 0 <= i < |xs| :: SameShape(xs[i], m2.kids[i])
  }

  /** `fn` raises at no pair of corresponding leaves. */
  predicate AllDefined<A, R>(m1: Tree<A>, m2: Tree<A>, fn: (A, A) -> Result<R, FP.Error>)
    requires SameShape(m1, m2)
  {
    match m1
    case Leaf(a) => fn(a, m2.v).Success?
    case Node(_, xs) => forall i | 0 <= i < |xs| :: AllDefined(xs[i], m2.kids[i], fn)
  }

  /** The reference meaning of an elementwise operation: `fn` applied at every pair of corresponding leaves (None where it raises). */
  function Zip<A, R>(m1: Tree<A>, m2: Tree<A>, fn: (A, A) -> Result<R, FP.Error>): (t: Tree<Option<R>>)
    requires SameShape(m1, m2)
    ensures t.Node? <==> m1.Node?
  {
    match m1
    case Leaf(a) =>
      (match fn(a, m2.v)
       case Success(y) => Leaf(Some(y))
       case Failure(_) => Leaf(None))
    case Node(_, xs) =>
      Node(PyList, seq(|xs|, i requires 0 <= i < |xs| => Zip(xs[i], m2.kids[i], fn)))
  }

  /** Two trees with a leaf where the other has a leaf, and a sequence of the same length where the other has a sequence. */
  predicate SameLengths<A, B>(t: Tree<A>, u: Tree<B>) {
    match t
    case Leaf(_) => u.Leaf?
    case Node(_, xs) =>
      u.Node? && |xs| == |u.kids| &&
      forall i | 0 <= i < |xs| :: SameLengths(xs[i], u.kids[i])
  }

  /** The elementwise result has the nesting and the lengths of its inputs at every level, each sequence a new list. */
  lemma {:induction false} ZipKeepsShape<A, R>(m1: Tree<A>, m2: Tree<A>, fn: (A, A) -> Result<R, FP.Error>)
    requires SameShape(m1, m2)
    ensures SameLengths(Zip(m1, m2, fn), m1)
    ensures SameLengths(Zip(m1, m2, fn), m2)
    ensures Zip(m1, m2, fn).Node? ==> Zip(m1, m2, fn).kind == PyList
  {
    if m1.Node? {
      var t := Zip(m1, m2, fn);
      forall i | 0 <= i < |m1.kids|
        ensures SameLengths(t.kids[i], m1.kids[i]) && SameLengths(t.kids[i], m2.kids[i])
      {
        ZipKeepsShape(m1.kids[i], m2.kids[i], fn);
      }
    }
  }

  /**
   * On trees of identical shape `rVisit` never trips the flag, raises exactly
   * when `fn` raises at some pair of leaves, and otherwise returns `Zip`.
   */
  lemma {:induction false} RVisitMatching<A, R>(m1: Tree<A>, m2: Tree<A>, fn: (A, A) -> Result<R, FP.Error>)
    requires SameShape(m1, m2)
    ensures RVisit(m1, m2, fn, false).trip == false
    ensures RVisit(m1, m2, fn, false).res.Success? <==> AllDefined(m1, m2, fn)
    ensures AllDefined(m1, m2, fn) ==> RVisit(m1, m2, fn, false).res == Success(Zip(m1, m2, fn))
    decreases m1, 1
  {
    if m1.Node? {
      RVisitAllMatching(m1.kids, m2.kids, fn);
      if AllDefined(m1, m2, fn) {
        var kids := RVisitAll(m1.kids, m2.kids, fn, false).res.value;
        assert kids == Zip(m1, m2, fn).kids;
      }
    }
  }

  lemma {:induction false} RVisitAllMatching<A, R>(xs: seq<Tree<A>>, ys: seq<Tree<A>>, fn: (A, A) -> Result<R, FP.Error>)
    requires |xs| == |ys| && forall i | 0 <= i < |xs| :: SameShape(xs[i], ys[i])
    ensures RVisitAll(xs, ys, fn, false).trip == false
    ensures RVisitAll(xs, ys, fn, false).res.Success? <==> forall i | 0 <= i < |xs| :: AllDefined(xs[i], ys[i], fn)
    ensures RVisitAll(xs, ys, fn, false).res.Success? ==>
            forall i | 0 <= i < |xs| :: RVisitAll(xs, ys, fn, false).res.value[i] == Zip(xs[i], ys[i], fn)
    decreases xs, 0
  {
    if xs != [] {
      var n := |xs| - 1;
      RVisitAllMatching(xs[..n], ys[..n], fn);
      RVisitMatching(xs[n], ys[n], fn);
      assert forall i | 0 <= i < n :: xs[..n][i] == xs[i] && ys[..n][i] == ys[i];
    }
  }

  /**
   * Conversely, an `rVisit` that returns with the flag still clear was given
   * trees of identical shape, and returned `Zip`.
   */
  lemma {:induction false} RVisitClearMeansMatching<A, R>(m1: Tree<A>, m2: Tree<A>, fn: (A, A) -> Result<R, FP.Error>, t: Tree<Option<R>>)
    requires RVisit(m1, m2, fn, false) == Outcome(Success(t), false)
    ensures SameShape(m1, m2) && AllDefined(m1, m2, fn)
    ensures t == Zip(m1, m2, fn)
    decreases m1, 1
  {
    if m1.Node? {
      var kids := RVisitAll(m1.kids, m2.kids, fn, false).res.value;
      RVisitAllClearMeansMatching(m1.kids, m2.kids, fn, kids);
      assert t.kids == Zip(m1, m2, fn).kids;
    }
  }

  lemma {:induction false} RVisitAllClearMeansMatching<A, R>(xs: seq<Tree<A>>, ys: seq<Tree<A>>, fn: (A, A) -> Result<R, FP.Error>, kids: seq<Tree<Option<R>>>)
    requires |xs| == |ys|
    requires RVisitAll(xs, ys, fn, false) == Outcome(Success(kids), false)
    ensures |kids| == |xs|
    ensures forall i | 0 <= i < |xs| :: SameShape(xs[i], ys[i]) && AllDefined(xs[i], ys[i], fn) && kids[i] == Zip(xs[i], ys[i], fn)
    decreases xs, 0
  {
    if xs != [] {
      var n := |xs| - 1;
      var o := RVisitAll(xs[..n], ys[..n], fn, false);
      var init := o.res.value;
      RVisitAllClearMeansMatching(xs[..n], ys[..n], fn, init);
      RVisitClearMeansMatching(xs[n], ys[n], fn, kids[n]);
      assert kids == init + [kids[n]];
      assert forall i | 0 <= i < n :: xs[..n][i] == xs[i] && ys[..n][i] == ys[i];
    }
  }

  /** Once `BadTrip` is set, every later `rVisit` in the loop returns None without calling `fn`. */
  lemma {:induction false} RVisitAllAfterTrip<A, R>(xs: seq<Tree<A>>, ys: seq<Tree<A>>, fn: (A, A) -> Result<R, FP.Error>)
    requires |xs| == |ys|
    ensures RVisitAll(xs, ys, fn, true).trip
    ensures RVisitAll(xs, ys, fn, true).res.Success?
    ensures forall i | 0 <= i < |xs| :: RVisitAll(xs, ys, fn, true).res.value[i] == Leaf(None)
  {
    if xs != [] {
      var n := |xs| - 1;
      RVisitAllAfterTrip(xs[..n], ys[..n], fn);
    }
  }

  /**
   * A mismatch below the top level does not fail the whole visit: the list
   * holds the visited children before the first mismatching position i, the
   * None (or partial list) that position produced, and None at every later
   * position.
   */
  lemma {:induction false} RVisitAllMismatch<A, R>(xs: seq<Tree<A>>, ys: seq<Tree<A>>, fn: (A, A) -> Result<R, FP.Error>, kids: seq<Tree<Option<R>>>)
    returns (i: nat)
    requires |xs| == |ys|
    requires RVisitAll(xs, ys, fn, false) == Outcome(Success(kids), true)
    ensures i < |xs| == |kids|
    ensures forall j | 0 <= j < i :: SameShape(xs[j], ys[j]) && AllDefined(xs[j], ys[j], fn) && kids[j] == Zip(xs[j], ys[j], fn)
    ensures RVisit(xs[i], ys[i], fn, false) == Outcome(Success(kids[i]), true)
    ensures forall j | i < j < |xs| :: kids[j] == Leaf(None)
  {
    var n := |xs| - 1;
    var o := RVisitAll(xs[..n], ys[..n], fn, false);
    var init := o.res.value;
    assert kids == init + [kids[n]];
    assert forall j | 0 <= j < n :: xs[..n][j] == xs[j] && ys[..n][j] == ys[j];
    if o.trip {
      i := RVisitAllMismatch(xs[..n], ys[..n], fn, init);
    } else {
      RVisitAllClearMeansMatching(xs[..n], ys[..n], fn, init);
      i := n;
    }
  }

  /**
   * `Visit` on two scalars, or on two sequences of identical shape, applies
   * `fn` leaf by leaf; for sequences the flag ends clear, for scalars it is
   * left as it was.
   */
  lemma VisitMatching<A, R>(m1: Tree<A>, m2: Tree<A>, fn: (A, A) -> Result<R, FP.Error>, trip: bool)
    requires SameShape(m1, m2)
    ensures Visit(m1, m2, fn, trip).res.Success? <==> AllDefined(m1, m2, fn)
    ensures AllDefined(m1, m2, fn) ==> Visit(m1, m2, fn, trip).res == Success(Zip(m1, m2, fn))
    ensures Visit(m1, m2, fn, trip).trip == (trip && m1.Leaf?)
  {
    if m1.Node? {
      RVisitMatching(m1, m2, fn);
    }
  }

  /** `Visit` on two sequences of different lengths returns None and sets the flag. */
  lemma VisitLengthMismatch<A, R>(m1: Tree<A>, m2: Tree<A>, fn: (A, A) -> Result<R, FP.Error>, trip: bool)
    requires m1.Node? && m2.Node? && |m1.kids| != |m2.kids|
    ensures Visit(m1, m2, fn, trip) == Outcome(Success(Leaf(None)), true)
  {
  }

  /** An exception in the loop of `rFix` ends it: the items after the failing one are never coerced. */
  lemma {:induction false} CoerceAllPrefixFails(items: seq<Raw>, k: nat)
    requires k <= |items| && CoerceAll(items[..k]).Failure?
    ensures CoerceAll(items) == CoerceAll(items[..k])
    decreases |items|
  {
    if k < |items| {
      var n := |items| - 1;
      assert items[..n][..k] == items[..k];
      CoerceAllPrefixFails(items[..n], k);
    } else {
      assert items[..k] == items;
    }
  }

  /** An exception in the loop of `rVisit` ends it with the flag as it stood. */
  lemma {:induction false} RVisitAllPrefixFails<A, R>(xs: seq<Tree<A>>, ys: seq<Tree<A>>, fn: (A, A) -> Result<R, FP.Error>, trip: bool, k: nat)
    requires |xs| == |ys| && k <= |xs|
    requires RVisitAll(xs[..k], ys[..k], fn, trip).res.Failure?
    ensures RVisitAll(xs, ys, fn, trip) == RVisitAll(xs[..k], ys[..k], fn, trip)
    decreases |xs|
  {
    if k < |xs| {
      var n := |xs| - 1;
      assert xs[..n][..k] == xs[..k];
      assert ys[..n][..k] == ys[..k];
      RVisitAllPrefixFails(xs[..n], ys[..n], fn, trip, k);
    } else {
      assert xs[..k] == xs && ys[..k] == ys;
    }
  }

  /** `fn` raises for no pair of arguments. */
  ghost predicate NeverRaises<A(!new), R>(fn: (A, A) -> Result<R, FP.Error>) {
    forall a, b :: fn(a, b).Success?
  }

  /** With an `fn` that never raises (`a+b`, `a-b`, `a*b`), `Visit` never raises, whatever the shapes. */
  lemma VisitTotal<A(!new), R>(m1: Tree<A>, m2: Tree<A>, fn: (A, A) -> Result<R, FP.Error>, trip: bool)
    requires NeverRaises(fn)
    ensures Visit(m1, m2, fn, trip).res.Success?
  {
    RVisitTotal(m1, m2, fn, false);
  }

  lemma {:induction false} RVisitTotal<A(!new), R>(m1: Tree<A>, m2: Tree<A>, fn: (A, A) -> Result<R, FP.Error>, trip: bool)
    requires NeverRaises(fn)
    ensures RVisit(m1, m2, fn, trip).res.Success?
    decreases m1, 1
  {
    if !trip && m1.Node? && m2.Node? && m1.kind == m2.kind && |m1.kids| == |m2.kids| {
      RVisitAllTotal(m1.kids, m2.kids, fn, false);
    }
  }

  lemma {:induction false} RVisitAllTotal<A(!new), R>(xs: seq<Tree<A>>, ys: seq<Tree<A>>, fn: (A, A) -> Result<R, FP.Error>, trip: bool)
    requires |xs| == |ys|
    requires NeverRaises(fn)
    ensures RVisitAll(xs, ys, fn, trip).res.Success?
    decreases xs, 0
  {
    if xs != [] {
      var n := |xs| - 1;
      RVisitAllTotal(xs[..n], ys[..n], fn, trip);
      RVisitTotal(xs[n], ys[n], fn, RVisitAll(xs[..n], ys[..n], fn, trip).trip);
    }
  }

  /** An `fn` that never raises is defined at every pair of leaves. */
  lemma {:induction false} TotalIsDefined<A(!new), R>(m1: Tree<A>, m2: Tree<A>, fn: (A, A) -> Result<R, FP.Error>)
    requires SameShape(m1, m2)
    requires NeverRaises(fn)
    ensures AllDefined(m1, m2, fn)
  {
    if m1.Node? {
      forall i | 0 <= i < |m1.kids|
        ensures AllDefined(m1.kids[i], m2.kids[i], fn)
      {
        TotalIsDefined(m1.kids[i], m2.kids[i], fn);
      }
    }
  }

  /** Every exception `fn` raises is `e`. */
  ghost predicate RaisesOnly<A(!new), R>(fn: (A, A) -> Result<R, FP.Error>, e: FP.Error) {
    forall a, b :: fn(a, b).Failure? ==> fn(a, b).error == e
  }

  /** The visitor raises nothing of its own: an exception out of `Visit` is one `fn` raised (`a/b` gives only ZeroDivisionError). */
  lemma VisitRaisesOnly<A(!new), R>(m1: Tree<A>, m2: Tree<A>, fn: (A, A) -> Result<R, FP.Error>, trip: bool, e: FP.Error)
    requires RaisesOnly(fn, e)
    ensures Visit(m1, m2, fn, trip).res.Failure? ==> Visit(m1, m2, fn, trip).res.error == e
  {
    RVisitRaisesOnly(m1, m2, fn, false, e);
  }

  lemma {:induction false} RVisitRaisesOnly<A(!new), R>(m1: Tree<A>, m2: Tree<A>, fn: (A, A) -> Result<R, FP.Error>, trip: bool, e: FP.Error)
    requires RaisesOnly(fn, e)
    ensures RVisit(m1, m2, fn, trip).res.Failure? ==> RVisit(m1, m2, fn, trip).res.error == e
    decreases m1, 1
  {
    if !trip && m1.Node? && m2.Node? && m1.kind == m2.kind && |m1.kids| == |m2.kids| {
      RVisitAllRaisesOnly(m1.kids, m2.kids, fn, false, e);
    }
  }

  lemma {:induction false} RVisitAllRaisesOnly<A(!new), R>(xs: seq<Tree<A>>, ys: seq<Tree<A>>, fn: (A, A) -> Result<R, FP.Error>, trip: bool, e: FP.Error)
    requires |xs| == |ys|
    requires RaisesOnly(fn, e)
    ensures RVisitAll(xs, ys, fn, trip).res.Failure? ==> RVisitAll(xs, ys, fn, trip).res.error == e
    decreases xs, 0
  {
    if xs != [] {
      var n := |xs| - 1;
      RVisitAllRaisesOnly(xs[..n], ys[..n], fn, trip, e);
      RVisitRaisesOnly(xs[n], ys[n], fn, RVisitAll(xs[..n], ys[..n], fn, trip).trip, e);
    }
  }
}
