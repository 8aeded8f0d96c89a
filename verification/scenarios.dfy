/** A two-row table worked through every aggregation: a complete row and a row
    whose mass is missing. */
module Scenarios {
  import opened Wrappers
  import opened Meteorites
  import Seqs
  import Stats
  import YearCounts
  import ClassSummary
  import NameIndex

  function Abee(): Record {
    Record(Some(1), Some("Abee"), Some("L6"), Some(107000.0), Some(54.2), Some(-113.0), Some(1952))
  }

  function Ourique(): Record {
    Record(Some(2), Some("Ourique"), Some("L5"), None, Some(37.6), Some(-8.2), Some(1927))
  }

  function TwoRows(): Table {
    [Abee(), Ourique()]
  }

  /** Selecting from the two rows keeps exactly the rows the predicate accepts. */
  lemma FilterTwoRows(p: Record -> bool)
    ensures Seqs.Filter(TwoRows(), p) ==
              (if p(Abee()) then [Abee()] else []) + (if p(Ourique()) then [Ourique()] else [])
  {
    var t := TwoRows();
    assert t[..1] == [Abee()];
    assert [Abee()][..0] == [];
  }

  /** The mean of a column with the given present values. */
  lemma ColumnMeanOfTwo(a: Option<real>, b: Option<real>)
    ensures Stats.Present([a, b]) ==
              (if a.Some? then [a.value] else []) + (if b.Some? then [b.value] else [])
  {
    assert [a, b][1..] == [b];
    assert [b][1..] == [];
  }

  lemma SumOfTwo(x: real, y: real)
    ensures Stats.Sum([x, y]) == x + y
  {
    var two: seq<real> := [x, y];
    var tail: seq<real> := [y];
    var none: seq<real> := [];
    assert tail[1..] == none;
    assert Stats.Sum(none) == 0.0;
    assert Stats.Sum(tail) == y + Stats.Sum(none);
    assert two[1..] == tail;
    assert Stats.Sum(two) == x + Stats.Sum(tail);
  }

  lemma SumOfOne(x: real)
    ensures Stats.Sum([x]) == x
  {
    var one: seq<real> := [x];
    assert one[1..] == [];
  }

  /** The mean of two present cells is their midpoint. */
  lemma MeanOfTwoPresent(x: real, y: real)
    ensures Stats.ColumnMean([Some(x), Some(y)]) == Some((x + y) / 2.0)
  {
    ColumnMeanOfTwo(Some(x), Some(y));
    SumOfTwo(x, y);
    var vs := Stats.Present([Some(x), Some(y)]);
    assert vs == [x, y];
    var m := Stats.ColumnMean([Some(x), Some(y)]);
    assert m.Some?;
    assert |vs| as real == 2.0;
    assert m.value == (x + y) / 2.0;
  }

  /** The mean of a present cell and a missing one is the present value. */
  lemma MeanOfOnePresent(x: real)
    ensures Stats.ColumnMean([Some(x), None]) == Some(x)
  {
    ColumnMeanOfTwo(Some(x), None);
    SumOfOne(x);
  }

  /** Only the complete row forms the figures of its class. */
  lemma TwoRowClassFigures()
    ensures ClassSummary.ClassRows(TwoRows(), "L6") == [Abee()]
    ensures ClassSummary.ClassRows(TwoRows(), "L5") == []
    ensures ClassSummary.GroupFigures([Abee()]) == ClassSummary.Figures(107000.0, 1, 107000.0, 107000.0)
  {
    FilterTwoRows(ClassSummary.InClass("L6"));
    FilterTwoRows(ClassSummary.InClass("L5"));
    var ms := ClassSummary.Masses([Abee()]);
    assert ms == [107000.0];
    assert ms[1..] == [];
  }

  /** The overall means read every row, the incomplete one included. */
  lemma TwoRowOverallMeans()
    ensures Stats.ColumnMean(ClassSummary.MassColumn(TwoRows())) == Some(107000.0)
    ensures Stats.ColumnMean(ClassSummary.LatColumn(TwoRows())) == Some(45.9)
    ensures Stats.ColumnMean(ClassSummary.LongColumn(TwoRows())) == Some(-60.6)
  {
    var t := TwoRows();
    assert ClassSummary.MassColumn(t) == [Some(107000.0), None];
    assert ClassSummary.LatColumn(t) == [Some(54.2), Some(37.6)];
    assert ClassSummary.LongColumn(t) == [Some(-113.0), Some(-8.2)];
    MeanOfOnePresent(107000.0);
    MeanOfTwoPresent(54.2, 37.6);
    MeanOfTwoPresent(-113.0, -8.2);
  }

  /** The row with the missing mass is left out of its class but still counts
      toward the overall latitude and longitude means. */
  lemma TwoRowSummary()
    ensures ClassSummary.SummarizeClass(TwoRows(), "L6") ==
              Success(ClassSummary.Summary(Some(107000.0), Some(45.9), Some(-60.6), 107000.0, 1, 107000.0, 107000.0))
    ensures ClassSummary.SummarizeClass(TwoRows(), "L5") == Failure(UnknownClass("L5"))
  {
    TwoRowClassFigures();
    TwoRowOverallMeans();
  }

  /** The keys of the two names. */
  lemma TwoRowKeys()
    ensures NameIndex.KeyOf(Abee()) == Some("A")
    ensures NameIndex.KeyOf(Ourique()) == Some("O")
  {
    assert "Abee"[0] == 'A';
    assert "Ourique"[0] == 'O';
  }

  /** Each name is filed under its upper-cased first letter. */
  lemma TwoRowNameIndex()
    ensures NameIndex.BuildIndex(TwoRows()) == map["A" := ["Abee"], "O" := ["Ourique"]]
  {
    var expected := map["A" := ["Abee"], "O" := ["Ourique"]];
    TwoRowIndexKeys();
    TwoRowLists();
    IndexFromKeysAndLists(TwoRows(), expected);
  }

  /** An index is determined by its keys and its lists. */
  lemma IndexFromKeysAndLists(t: Table, expected: map<string, seq<string>>)
    requires forall k :: NameIndex.HasKey(t, k) <==> k in expected
    requires forall k :: k in expected ==> NameIndex.NamesUnder(t, k) == expected[k]
    ensures NameIndex.BuildIndex(t) == expected
  {
  }

  /** The two rows have exactly the keys "A" and "O". */
  lemma TwoRowIndexKeys()
    ensures forall k :: NameIndex.HasKey(TwoRows(), k) <==> k == "A" || k == "O"
  {
    var t := TwoRows();
    TwoRowKeys();
    forall k
      ensures NameIndex.HasKey(t, k) <==> k == "A" || k == "O"
    {
      assert NameIndex.HasKey(t, k) <==> NameIndex.KeyOf(t[0]) == Some(k) || NameIndex.KeyOf(t[1]) == Some(k);
    }
  }

  /** The list under each key of the two rows. */
  lemma TwoRowLists()
    ensures NameIndex.NamesUnder(TwoRows(), "A") == ["Abee"]
    ensures NameIndex.NamesUnder(TwoRows(), "O") == ["Ourique"]
  {
    TwoRowKeys();
    FilterTwoRows(NameIndex.FiledUnder("A"));
    FilterTwoRows(NameIndex.FiledUnder("O"));
  }

  /** A year with a row is counted. */
  lemma TwoRowYearFound()
    ensures YearCounts.CountsByYear(TwoRows(), [1952]) == Success([YearCounts.YearCount(1952, 1)])
  {
    var t := TwoRows();
    FilterTwoRows(YearCounts.CountedIn(1952));
    assert YearCounts.Tallied(t, 1952) == [Abee()];
    assert t[0].year == Some(1952);
    assert YearCounts.HasYear(t, 1952);
    var years := [1952];
    assert forall i :: 0 <= i < |years| ==> years[i] == 1952;
    var r := YearCounts.CountsByYear(t, years);
    assert r.Success?;
    assert |r.value| == 1;
    assert r.value[0].year == 1952 && r.value[0].count == 1;
    assert r.value == [YearCounts.YearCount(1952, 1)];
  }

  /** A year without a row is an error naming that year. */
  lemma TwoRowYearMissing()
    ensures YearCounts.CountsByYear(TwoRows(), [1999]) == Failure(KeyNotFound([1999]))
  {
    var t := TwoRows();
    assert !YearCounts.HasYear(t, 1999) by {
      assert t[0].year != Some(1999) && t[1].year != Some(1999);
    }
    var missing := YearCounts.CountsByYear(t, [1999]).error.years;
    assert missing == YearCounts.Absent(YearCounts.GroupByYear(t), [1999]);
    assert 1999 in missing;
    assert missing == [1999];
  }
}
