/** The year-count aggregation of the report engine: group the rows by
    discovery year, count the present identifiers of each group, and look up
    the requested years in that grouping. */
module YearCounts {
  import opened Wrappers
  import opened Meteorites
  import Seqs

  /** One entry of the result: a requested year and its count. */
  datatype YearCount = YearCount(year: int, count: nat)

  /** Whether a row is counted for year `y`: its year is `y` and its identifier
      is present (a group's count skips missing identifiers). */
  function CountedIn(y: int): Record -> bool {
    (r: Record) => r.year == Some(y) && r.id.Some?
  }

  /** Whether a row is counted for some year of `ys`. */
  function CountedInAny(ys: set<int>): Record -> bool {
    (r: Record) => r.year.Some? && r.year.value in ys && r.id.Some?
  }

  /** Whether some row of the table has year `y`, i.e. whether `y` is a group
      of the grouping by year. */
  predicate HasYear(t: Table, y: int) {
    exists i :: 0 <= i < |t| && t[i].year == Some(y)
  }

  /** The rows counted for year `y`, in table order. */
  function Tallied(t: Table, y: int): seq<Record> {
    Seqs.Filter(t, CountedIn(y))
  }

  /** The grouping by year with the count of present identifiers per group,
      built in one pass over the rows. Rows without a year form no group. */
  function GroupByYear(t: Table): (g: map<int, nat>)
    ensures forall y :: y in g <==> HasYear(t, y)
    ensures forall y :: y in g ==> g[y] == |Tallied(t, y)|
  {
    if |t| == 0 then map[]
    else
      var prefix := t[..|t| - 1];
      var last := t[|t| - 1];
      var g' := GroupByYear(prefix);
      LastRowYears(t);
      LastRowTallies(t);
      match last.year
      case None => g'
      case Some(y) =>
        NoGroupNothingTallied(prefix, y); g'[y := (if y in g' then g'[y] else 0) + (if last.id.Some? then 1 else 0)]
  }

  /** The requested years that are not groups of `g`, in request order. */
  function Absent(g: map<int, nat>, years: seq<int>): (missing: seq<int>)
    ensures forall y :: y in missing <==> y in years && y !in g
  {
    Seqs.Filter(years, y => y !in g)
  }

  /** The years of a non-empty table are those of the rows before the last,
      plus the last row's year. */
  lemma LastRowYears(t: Table)
    requires |t| > 0
    ensures forall y :: HasYear(t, y) <==> HasYear(t[..|t| - 1], y) || t[|t| - 1].year == Some(y)
  {
    var prefix, last := t[..|t| - 1], t[|t| - 1];
    forall y
      ensures HasYear(t, y) <==> HasYear(prefix, y) || last.year == Some(y)
    {
      if HasYear(prefix, y) {
        var i :| 0 <= i < |prefix| && prefix[i].year == Some(y);
        assert t[i] == prefix[i];
      }
      if HasYear(t, y) && last.year != Some(y) {
        var i :| 0 <= i < |t| && t[i].year == Some(y);
        assert prefix[i] == t[i];
      }
    }
  }

  /** The last row of a non-empty table adds one to the count of its own year
      when its identifier is present, and nothing elsewhere. */
  lemma LastRowTallies(t: Table)
    requires |t| > 0
    ensures forall y :: |Tallied(t, y)| == |Tallied(t[..|t| - 1], y)| + (if CountedIn(y)(t[|t| - 1]) then 1 else 0)
  {
    var prefix, last := t[..|t| - 1], t[|t| - 1];
    forall y
      ensures |Tallied(t, y)| == |Tallied(prefix, y)| + (if CountedIn(y)(last) then 1 else 0)
    {
      assert Tallied(t, y) == Tallied(prefix, y) + (if CountedIn(y)(last) then [last] else []);
    }
  }

  /** A year that no row has counts no row. */
  lemma NoGroupNothingTallied(t: Table, y: int)
    ensures !HasYear(t, y) ==> Tallied(t, y) == []
  {
    var f := Tallied(t, y);
    if f != [] {
      assert f[0] in f;
    }
  }

  /** Label-based lookup of a list of years, in the order requested. */
  function Select(g: map<int, nat>, years: seq<int>): (r: seq<YearCount>)
    requires forall i :: 0 <= i < |years| ==> years[i] in g
    ensures |r| == |years|
    ensures forall i :: 0 <= i < |years| ==> r[i] == YearCount(years[i], g[years[i]])
  {
    if |years| == 0 then []
    else [YearCount(years[0], g[years[0]])] + Select(g, years[1..])
  }

  /** The counts of the requested years, in the requested order. Fails with the
      list of requested years that no row has; a year whose rows all lack an
      identifier is a group and reports zero. */
  function CountsByYear(t: Table, years: seq<int>): (r: Result<seq<YearCount>, ReportError>)
    ensures r.Failure? <==> exists i :: 0 <= i < |years| && !HasYear(t, years[i])
    ensures r.Failure? ==> r.error.KeyNotFound?
    ensures r.Failure? ==> forall y :: y in r.error.years <==> y in years && !HasYear(t, y)
    ensures r.Success? ==> |r.value| == |years|
    ensures r.Success? ==> forall i :: 0 <= i < |years| ==>
              r.value[i].year == years[i] && r.value[i].count == |Tallied(t, years[i])|
  {
    var g := GroupByYear(t);
    var missing := Absent(g, years);
    if missing != [] then
      assert missing[0] in missing;
      Failure(KeyNotFound(missing))
    else
      Success(Select(g, years))
  }

  /** The count of a year is the number of rows of that year whose identifier is
      present. */
  lemma TallyCountsRows(t: Table, y: int)
    ensures |Tallied(t, y)| == |set i | 0 <= i < |t| && t[i].year == Some(y) && t[i].id.Some?|
  {
    Seqs.FilterCountsPositions(t, CountedIn(y));
    assert Seqs.Positions(t, CountedIn(y))
        == set i | 0 <= i < |t| && t[i].year == Some(y) && t[i].id.Some?;
  }

  /** Reordering the rows (as the sort by year does before grouping) changes no
      count and no error. */
  lemma CountsIgnoreRowOrder(t1: Table, t2: Table, years: seq<int>)
    requires multiset(t1) == multiset(t2)
    ensures CountsByYear(t1, years) == CountsByYear(t2, years)
  {
    var g1, g2 := GroupByYear(t1), GroupByYear(t2);
    forall y
      ensures y in g1 <==> y in g2
    {
      if HasYear(t1, y) {
        var i :| 0 <= i < |t1| && t1[i].year == Some(y);
        assert t1[i] in multiset(t2);
        var j :| 0 <= j < |t2| && t2[j] == t1[i];
      }
      if HasYear(t2, y) {
        var j :| 0 <= j < |t2| && t2[j].year == Some(y);
        assert t2[j] in multiset(t1);
        var i :| 0 <= i < |t1| && t1[i] == t2[j];
      }
    }
    forall y | y in g1
      ensures y in g2 && g1[y] == g2[y]
    {
      Seqs.FilterPermutation(t1, t2, CountedIn(y));
    }
    assert g1 == g2;
  }

  /** A row without a year is never counted: adding one changes nothing. */
  lemma RowWithoutYearIgnored(t: Table, r: Record, years: seq<int>)
    requires r.year.None?
    ensures CountsByYear(t + [r], years) == CountsByYear(t, years)
  {
    assert (t + [r])[..|t|] == t;
    assert GroupByYear(t + [r]) == GroupByYear(t);
  }

  /** When every row has an identifier, every year that is found counts at
      least one row. */
  lemma FoundYearsCountAtLeastOne(t: Table, years: seq<int>)
    requires forall i :: 0 <= i < |t| ==> t[i].id.Some?
    requires CountsByYear(t, years).Success?
    ensures forall i :: 0 <= i < |years| ==> CountsByYear(t, years).value[i].count >= 1
  {
    forall i | 0 <= i < |years|
      ensures |Tallied(t, years[i])| >= 1
    {
      assert HasYear(t, years[i]);
      var j :| 0 <= j < |t| && t[j].year == Some(years[i]);
      assert t[j] in Tallied(t, years[i]);
    }
  }

  /** The total of a list of counts. */
  function Total(rs: seq<YearCount>): nat {
    if |rs| == 0 then 0 else rs[0].count + Total(rs[1..])
  }

  /** Counting a further year `y` outside `ys` adds exactly the rows of `y`. */
  lemma {:induction false} TallySplit(t: Table, y: int, ys: set<int>)
    requires y !in ys
    ensures |Seqs.Filter(t, CountedInAny(ys + {y}))| == |Tallied(t, y)| + |Seqs.Filter(t, CountedInAny(ys))|
    decreases |t|
  {
    if |t| > 0 {
      TallySplit(t[..|t| - 1], y, ys);
    }
  }

  /** The counts of distinct years add up to the rows counted for any of them. */
  lemma {:induction false} TotalOfDistinct(t: Table, years: seq<int>, rs: seq<YearCount>)
    requires forall i, j :: 0 <= i < j < |years| ==> years[i] != years[j]
    requires |rs| == |years|
    requires forall i :: 0 <= i < |rs| ==> rs[i].count == |Tallied(t, years[i])|
    ensures Total(rs) == |Seqs.Filter(t, CountedInAny(set y | y in years))|
  {
    if |years| == 0 {
      NothingCountedForNoYear(t);
      assert (set y | y in years) == {};
    } else {
      var y0, rest := years[0], years[1..];
      var restSet := set y | y in rest;
      TotalOfDistinct(t, rest, rs[1..]);
      TallySplit(t, y0, restSet);
      assert (set y | y in years) == restSet + {y0} by {
        assert years == [y0] + rest;
      }
    }
  }

  /** With no year requested, no row is counted. */
  lemma NothingCountedForNoYear(t: Table)
    ensures Seqs.Filter(t, CountedInAny({})) == []
  {
  }

  /** The counts of distinct requested years sum to at most the number of rows. */
  lemma DistinctYearsSumAtMostRows(t: Table, years: seq<int>)
    requires forall i, j :: 0 <= i < j < |years| ==> years[i] != years[j]
    requires CountsByYear(t, years).Success?
    ensures Total(CountsByYear(t, years).value) <= |t|
  {
    TotalOfDistinct(t, years, CountsByYear(t, years).value);
  }
}
