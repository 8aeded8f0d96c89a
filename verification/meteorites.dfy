/** The data model of the report engine: one meteorite landing record per row of
    the loaded table. Every column may be missing in the data file, so every
    field is an `Option`. */
module Meteorites {
  import opened Wrappers

  /** One row of the meteorite table. Mass is in grams; latitude and longitude
      are in degrees. Numbers are exact reals rather than IEEE doubles. */
  datatype Record = Record(
    id: Option<int>,
    name: Option<string>,
    recclass: Option<string>,
    mass: Option<real>,
    reclat: Option<real>,
    reclong: Option<real>,
    year: Option<int>
  )

  /** The in-memory table, in file row order. */
  type Table = seq<Record>

  /** A row that survives a drop-missing pass: every modelled column is present. */
  predicate Complete(r: Record) {
    && r.id.Some?
    && r.name.Some?
    && r.recclass.Some?
    && r.mass.Some?
    && r.reclat.Some?
    && r.reclong.Some?
    && r.year.Some?
  }

  /** The failures the aggregations raise. Each corresponds to a key lookup
      that does not find its label. */
  datatype ReportError =
    | KeyNotFound(years: seq<int>)     // requested years absent from the year grouping
    | UnknownClass(recclass: string)   // class with no complete rows
    | MissingLetter(letter: string)    // letter with no names in the name index
}
