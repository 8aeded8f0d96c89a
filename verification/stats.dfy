/** Exact-arithmetic versions of the column statistics the report engine asks
    of its data-frame library: sum, maximum, minimum and mean, and the mean of
    a column that skips missing cells. */
module Stats {
  import opened Wrappers

  /** The total of a sequence of reals. */
  function Sum(xs: seq<real>): real {
    if |xs| == 0 then 0.0 else xs[0] + Sum(xs[1..])
  }

  /** The largest value of a non-empty sequence. */
  function Max(xs: seq<real>): (m: real)
    requires |xs| > 0
    ensures m in xs
    ensures forall x :: x in xs ==> x <= m
  {
    if |xs| == 1 then xs[0]
    else
      var rest := Max(xs[1..]);
      assert xs == [xs[0]] + xs[1..];
      if xs[0] >= rest then xs[0] else rest
  }

  /** The smallest value of a non-empty sequence. */
  function Min(xs: seq<real>): (m: real)
    requires |xs| > 0
    ensures m in xs
    ensures forall x :: x in xs ==> m <= x
  {
    if |xs| == 1 then xs[0]
    else
      var rest := Min(xs[1..]);
      assert xs == [xs[0]] + xs[1..];
      if xs[0] <= rest then xs[0] else rest
  }

  /** A sum of values that are each at most `b` is at most `b` times their number. */
  lemma {:induction false} SumAtMost(xs: seq<real>, b: real)
    requires forall x :: x in xs ==> x <= b
    ensures Sum(xs) <= |xs| as real * b
  {
    if |xs| > 0 {
      var rest := xs[1..];
      assert xs[0] in xs;
      assert forall x :: x in rest ==> x in xs;
      SumAtMost(rest, b);
      assert Sum(xs) == xs[0] + Sum(rest);
      assert |rest| as real * b + b == |xs| as real * b;
    }
  }

  /** A sum of values that are each at least `b` is at least `b` times their number. */
  lemma {:induction false} SumAtLeast(xs: seq<real>, b: real)
    requires forall x :: x in xs ==> b <= x
    ensures |xs| as real * b <= Sum(xs)
  {
    if |xs| > 0 {
      var rest := xs[1..];
      assert xs[0] in xs;
      assert forall x :: x in rest ==> x in xs;
      SumAtLeast(rest, b);
      assert Sum(xs) == xs[0] + Sum(rest);
      assert |rest| as real * b + b == |xs| as real * b;
    }
  }

  /** The sum of a concatenation is the sum of its parts. */
  lemma {:induction false} SumConcat(a: seq<real>, b: seq<real>)
    ensures Sum(a + b) == Sum(a) + Sum(b)
  {
    if |a| > 0 {
      assert (a + b)[1..] == a[1..] + b;
      SumConcat(a[1..], b);
    } else {
      assert a + b == b;
    }
  }

  /** The arithmetic mean of a non-empty sequence: the total over the number of
      values. It lies between the smallest and the largest value. */
  function Mean(xs: seq<real>): (m: real)
    requires |xs| > 0
    ensures m == Sum(xs) / (|xs| as real)
    ensures Min(xs) <= m <= Max(xs)
  {
    var n := |xs| as real;
    SumAtMost(xs, Max(xs));
    SumAtLeast(xs, Min(xs));
    QuotientBetween(Sum(xs), n, Min(xs), Max(xs));
    Sum(xs) / n
  }

  /** Dividing a total bounded by `n` times `lo` and `n` times `hi` by `n`
      gives a value between `lo` and `hi`. */
  lemma QuotientBetween(s: real, n: real, lo: real, hi: real)
    requires n > 0.0
    requires n * lo <= s <= n * hi
    ensures lo <= s / n <= hi
  {
    var q := s / n;
    assert s == n * q;
  }

  /** The values of the present cells of a column, in row order. */
  function Present(col: seq<Option<real>>): (vs: seq<real>)
    ensures |vs| <= |col|
    ensures vs == [] <==> forall i :: 0 <= i < |col| ==> col[i].None?
  {
    if |col| == 0 then []
    else
      assert col == [col[0]] + col[1..];
      match col[0]
      case None => Present(col[1..])
      case Some(v) => [v] + Present(col[1..])
  }

  /** A value is present in a column exactly when some cell holds it. */
  lemma {:induction false} PresentValues(col: seq<Option<real>>)
    ensures forall x :: x in Present(col) <==> Some(x) in col
  {
    if |col| > 0 {
      PresentValues(col[1..]);
      assert col == [col[0]] + col[1..];
    }
  }

  /** Present values of a concatenation of columns are those of each part. */
  lemma {:induction false} PresentConcat(a: seq<Option<real>>, b: seq<Option<real>>)
    ensures Present(a + b) == Present(a) + Present(b)
  {
    if |a| > 0 {
      assert (a + b)[0] == a[0];
      assert (a + b)[1..] == a[1..] + b;
      PresentConcat(a[1..], b);
    } else {
      assert a + b == b;
    }
  }

  /** The mean of a column that skips missing cells; missing when no cell is
      present. When present, it is the total of the present cells over their
      number, and it lies between the smallest and the largest present
      value. */
  function ColumnMean(col: seq<Option<real>>): (m: Option<real>)
    ensures m.None? <==> forall i :: 0 <= i < |col| ==> col[i].None?
    ensures m.Some? ==> m.value == Sum(Present(col)) / (|Present(col)| as real)
    ensures m.Some? ==> Present(col) != [] && Min(Present(col)) <= m.value <= Max(Present(col))
  {
    var vs := Present(col);
    if vs == [] then None
    else
      Some(Mean(vs))
  }

  /** A missing cell changes no column mean: the mean skips it wherever it sits. */
  lemma ColumnMeanSkipsMissing(col: seq<Option<real>>, i: nat)
    requires i <= |col|
    ensures ColumnMean(col[..i] + [None] + col[i..]) == ColumnMean(col)
  {
    var a, b := col[..i], col[i..];
    assert a + b == col;
    PresentConcat(a + [None], b);
    PresentConcat(a, [None]);
    PresentConcat(a, b);
    var gap: seq<Option<real>> := [None];
    assert Present(gap) == [] by {
      assert gap[1..] == [];
    }
    assert Present(a + [None] + b) == Present(col);
  }
}
