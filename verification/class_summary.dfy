/** The classification summary of the report engine: drop every row with a
    missing field, group the rest by class, and report the requested class's
    row count and mean, maximum and minimum mass, beside the mean mass,
    latitude and longitude of the whole, unfiltered table. */
module ClassSummary {
  import opened Wrappers
  import opened Meteorites
  import Seqs
  import opened Stats

  /** The values the summary returns. The three overall means are missing when
      their column has no value at all. */
  datatype Summary = Summary(
    aveWeight: Option<real>,
    aveLat: Option<real>,
    aveLong: Option<real>,
    meanWeightClass: real,
    count: nat,
    maxWeight: real,
    minWeight: real
  )

  /** Whether a row survives the drop-missing pass and belongs to class `c`. */
  function InClass(c: string): Record -> bool {
    (r: Record) => Complete(r) && r.recclass == Some(c)
  }

  /** The group of class `c` after the drop-missing pass, in table order. */
  function ClassRows(t: Table, c: string): seq<Record> {
    Seqs.Filter(t, InClass(c))
  }

  /** The masses of rows that all have one. */
  function Masses(rows: seq<Record>): seq<real>
    requires forall r :: r in rows ==> r.mass.Some?
  {
    seq(|rows|, i requires 0 <= i < |rows| => rows[i].mass.value)
  }

  /** The mass, latitude and longitude columns of the whole table. */
  function MassColumn(t: Table): seq<Option<real>> {
    seq(|t|, i requires 0 <= i < |t| => t[i].mass)
  }

  function LatColumn(t: Table): seq<Option<real>> {
    seq(|t|, i requires 0 <= i < |t| => t[i].reclat)
  }

  function LongColumn(t: Table): seq<Option<real>> {
    seq(|t|, i requires 0 <= i < |t| => t[i].reclong)
  }

  /** The summary of class `c`. Fails when no complete row has class `c`. The
      class figures come from complete rows of that class only; the overall
      means come from every row, each skipping only its own missing cells. */
  function SummarizeClass(t: Table, c: string): (r: Result<Summary, ReportError>)
    ensures r.Failure? <==> forall i :: 0 <= i < |t| ==> !(Complete(t[i]) && t[i].recclass == Some(c))
    ensures r.Failure? ==> r.error == UnknownClass(c)
    ensures r.Success? ==> r.value.count == |ClassRows(t, c)| >= 1
    ensures r.Success? ==> r.value.meanWeightClass == Sum(Masses(ClassRows(t, c))) / r.value.count as real
    ensures r.Success? ==> r.value.minWeight <= r.value.meanWeightClass <= r.value.maxWeight
    ensures r.Success? ==> forall x :: x in ClassRows(t, c) ==> r.value.minWeight <= x.mass.value <= r.value.maxWeight
    ensures r.Success? ==> exists x :: x in ClassRows(t, c) && x.mass == Some(r.value.maxWeight)
    ensures r.Success? ==> exists x :: x in ClassRows(t, c) && x.mass == Some(r.value.minWeight)
    ensures r.Success? ==> r.value.aveWeight == ColumnMean(MassColumn(t))
    ensures r.Success? ==> r.value.aveLat == ColumnMean(LatColumn(t))
    ensures r.Success? ==> r.value.aveLong == ColumnMean(LongColumn(t))
  {
    var rows := ClassRows(t, c);
    if rows == [] then
      assert forall i :: 0 <= i < |t| ==> !InClass(c)(t[i]) by {
        forall i | 0 <= i < |t|
          ensures !InClass(c)(t[i])
        {
          assert t[i] in t;
        }
      }
      Failure(UnknownClass(c))
    else
      assert rows[0] in rows;
      var f := GroupFigures(rows);
      Success(Summary(
        ColumnMean(MassColumn(t)), ColumnMean(LatColumn(t)), ColumnMean(LongColumn(t)),
        f.mean, f.count, f.max, f.min))
  }

  /** The per-group figures: row count and mean, maximum and minimum mass. */
  datatype Figures = Figures(mean: real, count: nat, max: real, min: real)

  /** The figures of a non-empty group whose rows all have a mass. The extremes
      are masses of actual rows, and the mean lies between them. */
  function GroupFigures(rows: seq<Record>): (f: Figures)
    requires rows != []
    requires forall x :: x in rows ==> x.mass.Some?
    ensures f.count == |rows|
    ensures f.mean == Sum(Masses(rows)) / f.count as real
    ensures f.min <= f.mean <= f.max
    ensures forall x :: x in rows ==> f.min <= x.mass.value <= f.max
    ensures exists x :: x in rows && x.mass == Some(f.max)
    ensures exists x :: x in rows && x.mass == Some(f.min)
  {
    var ms := Masses(rows);
    assert forall x :: x in rows ==> x.mass.value in ms by {
      forall x | x in rows
        ensures x.mass.value in ms
      {
        var j :| 0 <= j < |rows| && rows[j] == x;
        assert ms[j] == x.mass.value;
      }
    }
    assert exists x :: x in rows && x.mass == Some(Max(ms)) by {
      var j :| 0 <= j < |ms| && ms[j] == Max(ms);
      assert rows[j] in rows;
    }
    assert exists x :: x in rows && x.mass == Some(Min(ms)) by {
      var j :| 0 <= j < |ms| && ms[j] == Min(ms);
      assert rows[j] in rows;
    }
    Figures(Mean(ms), |ms|, Max(ms), Min(ms))
  }

  /** Rows that are incomplete or of another class never reach the class
      figures: adding one leaves the outcome and the class figures unchanged. */
  lemma ClassFiguresIgnoreOtherRows(t: Table, r: Record, c: string)
    requires !(Complete(r) && r.recclass == Some(c))
    ensures SummarizeClass(t + [r], c).Failure? == SummarizeClass(t, c).Failure?
    ensures SummarizeClass(t, c).Success? ==>
              var before, after := SummarizeClass(t, c).value, SummarizeClass(t + [r], c).value;
              && after.count == before.count
              && after.meanWeightClass == before.meanWeightClass
              && after.maxWeight == before.maxWeight
              && after.minWeight == before.minWeight
  {
    assert (t + [r])[..|t|] == t;
    assert ClassRows(t + [r], c) == ClassRows(t, c);
  }
}
