/**
 * The list helpers `vector_sum`, `matrix_sum`, `scalar_multiply` and
 * `divide_by_scalar`. Elements are plain ints or BigFix objects (FixedPoint's
 * Num); every result element is a BigFix, given by its scaled integer.
 */
module Aggregates {
  import opened Wrappers
  import opened PyStr
  import PyInt
  import FP = FixedPoint
  import FixedPointFacts

  /** The scaled integers of a list of ints and BigFix objects, each coerced as `BigFix.__add__` would. */
  function ScaledAll(v: seq<FP.Num>): (r: seq<int>)
    ensures |r| == |v|
    ensures forall i | 0 <= i < |v| :: r[i] == FP.Scaled(v[i])
  {
    seq(|v|, i requires 0 <= i < |v| => FP.Scaled(v[i]))
  }

  /** A left fold of BigFix addition seeded with `Big(0)`. */
  function Sum(xs: seq<int>): (total: int) {
    if xs == [] then 0 else FP.Add(Sum(xs[..|xs| - 1]), xs[|xs| - 1])
  }

  /** Summing a concatenation is summing the parts: the fold does not depend on how the list is split. */
  lemma {:induction false} SumAppend(xs: seq<int>, ys: seq<int>)
    ensures Sum(xs + ys) == Sum(xs) + Sum(ys)
    decreases |ys|
  {
    if ys != [] {
      var n := |ys| - 1;
      var zs := xs + ys;
      SumAppend(xs, ys[..n]);
      assert zs[..|zs| - 1] == xs + ys[..n];
      assert zs[|zs| - 1] == ys[n];
      assert Sum(zs) == Sum(xs + ys[..n]) + ys[n];
    } else {
      assert xs + ys == xs;
    }
  }

  /** Summing the integral values BigFix(n) is exact: the total is BigFix of the integer sum. */
  lemma {:induction false} SumOfInts(ns: seq<int>)
    ensures Sum(ScaledAll(seq(|ns|, i requires 0 <= i < |ns| => FP.Int(ns[i])))) == Sum(ns) * FP.Big1
    decreases |ns|
  {
    if ns != [] {
      var n := |ns| - 1;
      var ints := seq(|ns|, i requires 0 <= i < |ns| => FP.Int(ns[i]));
      var prefix := seq(n, i requires 0 <= i < n => FP.Int(ns[..n][i]));
      SumOfInts(ns[..n]);
      assert ScaledAll(ints)[..n] == ScaledAll(prefix);
      FixedPointFacts.FromIntExact(ns[n]);
    }
  }

  /** `vector_sum`: `finalSum = finalSum + vector[i]` for i in order, from `Big(0)`. */
  method VectorSum(vector: seq<FP.Num>) returns (finalSum: int)
    ensures finalSum == Sum(ScaledAll(vector))
  {
    finalSum := 0;
    for i := 0 to |vector|
      invariant finalSum == Sum(ScaledAll(vector)[..i])
    {
      assert ScaledAll(vector)[..i + 1][..i] == ScaledAll(vector)[..i];
      finalSum := FP.Add(finalSum, FP.Scaled(vector[i]));
    }
    assert ScaledAll(vector)[..|vector|] == ScaledAll(vector);
  }

  /** Entry j of a row; 0 stands in where the row is too short, a case `matrix_sum` never sums. */
  function Entry(row: seq<FP.Num>, j: nat): (x: int) {
    if j < |row| then FP.Scaled(row[j]) else 0
  }

  /** Column j of a list of rows: `vectors[i][j]` for every row i. */
  function Column(vectors: seq<seq<FP.Num>>, j: nat): (c: seq<int>)
    ensures |c| == |vectors|
    ensures forall i | 0 <= i < |vectors| :: c[i] == Entry(vectors[i], j)
  {
    seq(|vectors|, i requires 0 <= i < |vectors| => Entry(vectors[i], j))
  }

  /** Rows shorter than the first one: `vectors[i][j]` raises IndexError for some j < len(vectors[0]). */
  predicate HasShortRow(vectors: seq<seq<FP.Num>>)
    requires |vectors| > 0
  {
    exists i | 0 <= i < |vectors| :: |vectors[i]| < |vectors[0]|
  }

  /**
   * `matrix_sum`: `sums` starts as `Fix([0] * len(vectors[0]))` and
   * `sums[j] = sums[j] + vectors[i][j]` runs over rows i and columns j. An
   * empty list or a row shorter than the first raises IndexError; columns
   * beyond the first row's length are ignored.
   */
  method MatrixSum(vectors: seq<seq<FP.Num>>) returns (r: Result<seq<int>, FP.Error>)
    ensures r.Failure? <==> |vectors| == 0 || HasShortRow(vectors)
    ensures r.Failure? ==> r.error == FP.IndexError
    ensures r.Success? ==> |r.value| == |vectors[0]|
    ensures r.Success? ==> forall j | 0 <= j < |vectors[0]| :: r.value[j] == Sum(Column(vectors, j))
  {
    if |vectors| == 0 {
      return Failure(FP.IndexError);
    }
    var numElements := |vectors[0]|;
    var sums := new int[numElements](_ => FP.FromInt(0));
    for i := 0 to |vectors|
      invariant forall k | 0 <= k < i :: numElements <= |vectors[k]|
      invariant forall c | 0 <= c < numElements :: sums[c] == RowsTotal(vectors, i, c)
    {
      for j := 0 to numElements
        invariant forall k | 0 <= k < i :: numElements <= |vectors[k]|
        invariant j <= |vectors[i]|
        invariant forall c | 0 <= c < j :: sums[c] == RowsTotal(vectors, i + 1, c)
        invariant forall c | j <= c < numElements :: sums[c] == RowsTotal(vectors, i, c)
      {
        if j >= |vectors[i]| {
          assert |vectors[i]| < |vectors[0]|;
          return Failure(FP.IndexError);
        }
        ColumnSnoc(vectors, i, j);
        sums[j] := FP.Add(sums[j], FP.Scaled(vectors[i][j]));
      }
    }
    assert vectors[..|vectors|] == vectors;
    assert forall c | 0 <= c < numElements :: sums[c] == RowsTotal(vectors, |vectors|, c);
    r := Success(sums[..]);
  }

  /** Column j summed over the first `rows` rows. */
  function RowsTotal(vectors: seq<seq<FP.Num>>, rows: nat, j: nat): (total: int)
    requires rows <= |vectors|
  {
    Sum(Column(vectors[..rows], j))
  }

  /** Adding row i to the rows before it adds `vectors[i][j]` to the total of column j. */
  lemma ColumnSnoc(vectors: seq<seq<FP.Num>>, i: nat, j: nat)
    requires i < |vectors|
    ensures RowsTotal(vectors, i + 1, j) == RowsTotal(vectors, i, j) + Entry(vectors[i], j)
  {
    assert Column(vectors[..i + 1], j)[..i] == Column(vectors[..i], j);
  }

  /** The sums `matrix_sum` returns for the first n columns. */
  function ColumnSums(vectors: seq<seq<FP.Num>>, n: nat): (s: seq<int>)
    ensures |s| == n
  {
    seq(n, j requires 0 <= j < n => Sum(Column(vectors, j)))
  }

  /** The `vector_sum` of the first n entries of each row. */
  function RowSums(vectors: seq<seq<FP.Num>>, n: nat): (s: seq<int>)
    requires forall i | 0 <= i < |vectors| :: n <= |vectors[i]|
    ensures |s| == |vectors|
  {
    seq(|vectors|, i requires 0 <= i < |vectors| => Sum(ScaledAll(vectors[i][..n])))
  }

  /** Adding up the column sums of `matrix_sum` gives the same total as adding up the rows. */
  lemma {:induction false} MatrixSumTotal(vectors: seq<seq<FP.Num>>, n: nat)
    requires forall i | 0 <= i < |vectors| :: n <= |vectors[i]|
    ensures Sum(ColumnSums(vectors, n)) == Sum(RowSums(vectors, n))
    decreases |vectors|
  {
    if vectors == [] {
      ZeroSum(n);
      assert ColumnSums(vectors, n) == seq(n, j => 0);
    } else {
      var m := |vectors| - 1;
      var init := vectors[..m];
      var last := ScaledAll(vectors[m][..n]);
      MatrixSumTotal(init, n);
      ColumnSumsSnoc(vectors, n);
      SumPointwise(ColumnSums(vectors, n), ColumnSums(init, n), last);
      assert RowSums(vectors, n)[..m] == RowSums(init, n);
    }
  }

  /** The column sums over all rows are those over all rows but the last, plus the last row. */
  lemma ColumnSumsSnoc(vectors: seq<seq<FP.Num>>, n: nat)
    requires |vectors| > 0 && n <= |vectors[|vectors| - 1]|
    ensures forall j | 0 <= j < n :: ColumnSums(vectors, n)[j] ==
              ColumnSums(vectors[..|vectors| - 1], n)[j] + ScaledAll(vectors[|vectors| - 1][..n])[j]
  {
    var m := |vectors| - 1;
    forall j | 0 <= j < n
      ensures ColumnSums(vectors, n)[j] == ColumnSums(vectors[..m], n)[j] + ScaledAll(vectors[m][..n])[j]
    {
      assert Column(vectors, j)[..m] == Column(vectors[..m], j);
    }
  }

  lemma {:induction false} ZeroSum(n: nat)
    ensures Sum(seq(n, j => 0)) == 0
  {
    if n > 0 {
      ZeroSum(n - 1);
      assert seq(n, j => 0)[..n - 1] == seq(n - 1, j => 0);
    }
  }

  /** The sum of an elementwise sum is the sum of the sums. */
  lemma {:induction false} SumPointwise(s: seq<int>, a: seq<int>, b: seq<int>)
    requires |s| == |a| == |b|
    requires forall j | 0 <= j < |s| :: s[j] == a[j] + b[j]
    ensures Sum(s) == Sum(a) + Sum(b)
    decreases |s|
  {
    if s != [] {
      var n := |s| - 1;
      SumPointwise(s[..n], a[..n], b[..n]);
    }
  }

  /** `scalar_multiply`: `[c * v_i for v_i in v]`, each product rescaled as `__mul__` does. */
  function ScalarMultiply(c: int, v: seq<FP.Num>): (r: seq<int>)
    ensures |r| == |v|
  {
    seq(|v|, i requires 0 <= i < |v| => FP.Mul(c, FP.Scaled(v[i])))
  }

  /** Multiplying by BigFix(1) gives the list back; multiplying ints by an integral scalar is exact. */
  lemma ScalarMultiplyFacts(c: int, v: seq<FP.Num>)
    ensures c == FP.Big1 ==> ScalarMultiply(c, v) == ScaledAll(v)
    ensures forall i | 0 <= i < |v| && v[i].Int? && c % FP.Big1 == 0 ::
              ScalarMultiply(c, v)[i] == FP.Scaled(FP.Int((c / FP.Big1) * v[i].n))
  {
    forall i | 0 <= i < |v|
      ensures c == FP.Big1 ==> ScalarMultiply(c, v)[i] == ScaledAll(v)[i]
      ensures v[i].Int? && c % FP.Big1 == 0 ==> ScalarMultiply(c, v)[i] == FP.Scaled(FP.Int((c / FP.Big1) * v[i].n))
    {
      FixedPointFacts.MulByOne(FP.Scaled(v[i]));
      if v[i].Int? && c % FP.Big1 == 0 {
        var k := c / FP.Big1;
        assert c == FP.Scaled(FP.Int(k));
        FixedPointFacts.MulOfInts(k, v[i].n);
      }
    }
  }

  /**
   * `v_i / c` for one element: a BigFix element uses `__truediv__`; for an
   * int element Python falls back to `c.__rtruediv__(v_i)`, which computes
   * `c / v_i`.
   */
  function DivideOne(x: FP.Num, c: int): (r: Result<int, FP.Error>) {
    match x
    case Fix(b) => FP.Quotient(b, c)
    case Int(_) => FP.RQuotient(c, FP.Scaled(x))
  }

  /** `divide_by_scalar`: `[v_i / c for v_i in v]`; the first ZeroDivisionError escapes. */
  function DivideByScalar(v: seq<FP.Num>, c: int): (r: Result<seq<int>, FP.Error>)
    ensures r.Success? ==> |r.value| == |v|
  {
    if v == [] then Success([])
    else
      match DivideByScalar(v[..|v| - 1], c)
      case Failure(e) => Failure(e)
      case Success(init) =>
        match DivideOne(v[|v| - 1], c)
        case Failure(e) => Failure(e)
        case Success(q) => Success(init + [q])
  }

  /**
   * `divide_by_scalar` raises exactly when some element's division has a
   * zero divisor (c for a BigFix element, the element itself for an int), and
   * otherwise divides element by element.
   */
  lemma {:induction false} DivideByScalarFacts(v: seq<FP.Num>, c: int)
    ensures DivideByScalar(v, c).Failure? <==>
            exists i | 0 <= i < |v| :: (if v[i].Fix? then c else FP.Scaled(v[i])) == 0
    ensures DivideByScalar(v, c).Failure? ==> DivideByScalar(v, c).error == FP.ZeroDivisionError
    ensures DivideByScalar(v, c).Success? ==>
            forall i | 0 <= i < |v| :: Success(DivideByScalar(v, c).value[i]) == DivideOne(v[i], c)
    decreases |v|
  {
    if v != [] {
      var n := |v| - 1;
      DivideByScalarFacts(v[..n], c);
      assert forall i | 0 <= i < n :: v[..n][i] == v[i];
    }
  }

  /** Dividing the BigFix elements of a list by BigFix(1) gives them back. */
  lemma DivideByOne(v: seq<FP.Num>)
    requires forall i | 0 <= i < |v| :: v[i].Fix?
    ensures DivideByScalar(v, FP.Big1) == Success(ScaledAll(v))
  {
    DivideByScalarFacts(v, FP.Big1);
    forall i | 0 <= i < |v|
      ensures DivideOne(v[i], FP.Big1) == Success(ScaledAll(v)[i])
    {
      PyInt.FloorDivMultiple(v[i].big, FP.Big1);
    }
    assert DivideByScalar(v, FP.Big1).value == ScaledAll(v);
  }

  /** `divide_by_scalar([2], BigFix(1))` gives 0.5 where 2 is meant: an int element is divided into the scalar. */
  lemma DivideIntByOne(one: int, half: int)
    requires one == FP.Scaled(FP.Int(1)) && half == 5 * Pow10(FP.Precision - 1)
    ensures DivideByScalar([FP.Int(2)], one) == Success([half])
  {
    var v := [FP.Int(2)];
    FixedPointFacts.OneOverTwoIntended();
    assert DivideOne(v[0], one) == Success(half);
    assert v[..0] == [];
    assert DivideByScalar(v[..0], one) == Success([]);
    assert DivideByScalar(v, one) == Success([] + [half]);
    assert [] + [half] == [half];
  }
}
