# Meteorite landings report engine, in Dafny

This project models the report engine of a small dashboard that browses
NASA's meteorite landing records. The model takes a table that has already
been loaded: a sequence of records. Each record has an identifier, name,
class (`recclass`), mass in grams, latitude, longitude and discovery year,
and any of these may be missing. The model covers four things:

- **Year counts** (`YearCounts`). The rows are grouped by year, and the
  present identifiers of each group are counted. The requested years are then
  looked up in that grouping. The lookup fails, listing the absent years, when
  a requested year has no row.
- **Class summary** (`ClassSummary`). Rows with any missing field are dropped,
  and the rest are grouped by class. For the requested class the summary gives
  the row count and the mean, maximum and minimum mass. It also gives the mean
  mass, latitude and longitude of the whole, unfiltered table. Each of these
  skips only its own missing cells. A class with no complete row is an error.
- **Name index** (`NameIndex`). Each name is filed under the upper-cased form
  of its first character, and names keep their table order. On top of it,
  `LetterChart` models the name page: it looks up the per-letter counts and can
  rebuild that dictionary in ascending key order.
- **Navigation** (`Navigation`). A stored page name is overwritten by the menu
  selection. Dispatch renders the home page for "Home" and for any name that is
  not in the menu.

Shared pieces are `Wrappers` (`Option`, `Result`), `Meteorites` (the record,
the table and the error kinds), `Seqs` (order-preserving selection with its
counting and permutation lemmas) and `Stats` (exact sum, max, min, mean and the
missing-skipping column mean). `Scenarios` works a two-row table through every
aggregation. All numbers are exact (`int`, `real`). A missing cell is `None`,
not NaN. Every aggregation is a pure function, so calling one twice with the
same arguments gives the same result.

Three behaviours of the code are worth knowing:

- Year counts come back in the order the years were requested, as a
  label-based `.loc` lookup returns them. They are not in ascending year order.
- A year whose rows all lack an identifier still forms a group, and its count
  is 0. "Every found year counts at least one" is therefore proved only for
  tables where every identifier is present.
- The drop-missing pass before the class grouping inspects every column,
  including identifier and year. It does not stop at name, class, mass and
  coordinates.

## Model

| member | source | states |
|---|---|---|
| YearCounts.GroupByYear | Final_Project.py:35-36 | the groups are exactly the years some row has; a row with no year forms no group; each group's count is the number of its rows with a present identifier |
| YearCounts.CountsByYear | Final_Project.py:29-38 | fails exactly when some requested year has no row, and the error lists exactly those years; otherwise it gives one entry per requested year, in request order, holding the number of rows of that year with a present identifier |
| YearCounts.Absent | Final_Project.py:37 | the years the lookup reports as missing are exactly the requested years that form no group |
| YearCounts.Select | Final_Project.py:37 | when every requested year is a group, the lookup gives one entry per requested year, in request order, each with that year's group count |
| YearCounts.TallyCountsRows | Final_Project.py:36 | a year's count equals the size of the set of row positions with that year and a present identifier |
| YearCounts.CountsIgnoreRowOrder | Final_Project.py:35-37 | any reordering of the rows, such as the sort by year, gives the same counts and the same errors |
| YearCounts.RowWithoutYearIgnored | Final_Project.py:36 | adding a row with no year changes no count and no error |
| YearCounts.FoundYearsCountAtLeastOne | Final_Project.py:36-37 | when every row has an identifier, every found year counts at least 1 |
| YearCounts.DistinctYearsSumAtMostRows | Final_Project.py:36-37 | the counts of distinct requested years sum to at most the number of rows |
| YearCounts.TotalOfDistinct | Final_Project.py:36-37 | the counts of distinct years sum to the number of rows counted for any of them |
| ClassSummary.SummarizeClass | Final_Project.py:41-63 | fails with the class name exactly when no complete row has that class; otherwise the count is that class's number of complete rows (at least 1), the mean is their mass total over the count, min ≤ mean ≤ max, every such row's mass lies between min and max, min and max are masses of such rows, and the three overall means are the missing-skipping means of the full mass, latitude and longitude columns |
| ClassSummary.GroupFigures | Final_Project.py:48-57 | for a non-empty group: count is its size, min ≤ mean ≤ max, every mass lies between min and max, and both extremes are masses of rows of the group |
| ClassSummary.ClassFiguresIgnoreOtherRows | Final_Project.py:47-49 | an incomplete row, or a row of another class, changes neither the outcome nor the class figures |
| Stats.ColumnMean | Final_Project.py:60-62 | the mean is missing exactly when every cell is missing; otherwise it is the total of the present cells over their number, and lies between the smallest and the largest present value |
| Stats.ColumnMeanSkipsMissing | Final_Project.py:60-62 | inserting a missing cell anywhere leaves the column mean unchanged |
| Stats.Mean | Final_Project.py:48 | the mean of a non-empty sequence is its total over its length, and lies between its minimum and its maximum |
| Stats.PresentValues | Final_Project.py:60-62 | a value is among a column's present values exactly when some cell holds it, so the skipping mean uses every present cell |
| Stats.Max | Final_Project.py:50 | the maximum is an element and bounds every element from above |
| Stats.Min | Final_Project.py:51 | the minimum is an element and bounds every element from below |
| Stats.SumAtMost | Final_Project.py:48 | values each at most b sum to at most their number times b |
| Stats.SumAtLeast | Final_Project.py:48 | values each at least b sum to at least their number times b |
| NameIndex.UpperCase | Final_Project.py:73 | upper-casing a Latin-1 character gives one or two characters, none of them an ASCII small letter; characters with no case mapping are unchanged |
| NameIndex.SmallLetterSharesCapitalsKey | Final_Project.py:73 | an ASCII or Latin-1 small letter and its capital upper-case to that same single capital, so names differing only in the case of their initial share a key |
| NameIndex.UpperCaseIdempotent | Final_Project.py:73 | upper-casing an already upper-cased character changes nothing |
| NameIndex.KeyOf | Final_Project.py:73 | a row has a key exactly when its name is present and non-empty, and the key is the upper-case of the name's first character |
| LetterChart.AsciiInitialIsOffered | Final_Project.py:180-181 | a name starting with an ASCII letter of either case is filed under one of the 26 letters the page offers |
| NameIndex.BuildIndex | Final_Project.py:66-80 | the keys are exactly the keys of rows with a present, non-empty name; each key maps to the names filed under it in table order; no key maps to an empty list |
| NameIndex.KeyedRowIsListed | Final_Project.py:73-79 | every row with a present, non-empty name has its name in the list of the upper-case of its first character |
| NameIndex.ListedNameBelongsToItsKey | Final_Project.py:73-79 | every listed name is some row's name in its original case, is non-empty, and lies under the upper-case of its own first character, so under one key only |
| NameIndex.ListsKeepRowOrder | Final_Project.py:76-79 | the list for rows a followed by rows b is the list for a followed by the list for b |
| NameIndex.ListLengthCountsRows | Final_Project.py:76-79 | a list's length is the number of rows filed under its key |
| NameIndex.UnnamedRowIgnored | Final_Project.py:73-76 | a row whose name is missing or empty leaves the index unchanged |
| LetterChart.LetterCounts | Final_Project.py:185-188 | succeeds exactly when every selected letter is a key, else fails naming the first letter that is not; on success it holds the selected letters once each, each with its list's length, in selection order when the selection has no repeats |
| LetterChart.LetterCountsOfTable | Final_Project.py:179-188 | on a table's index the lookup succeeds exactly when every selected letter has a row filed under it, and each count is the number of such rows |
| LetterChart.UnusedLetterFails | Final_Project.py:180-187 | selecting a menu letter under which no name is filed makes the lookup fail |
| LetterChart.LetterCountsOrZero | Final_Project.py:185-188 | the corrected lookup always succeeds, holding each selected letter once with its count or 0 |
| LetterChart.OrZeroAgreesWhenFound | Final_Project.py:185-188 | wherever the lookup as written succeeds, the corrected lookup gives the same dictionary |
| LetterChart.Assign | Final_Project.py:197 | assignment stores the value under the key and leaves other keys alone; an existing key keeps its position, a new key goes last, and keys stay distinct |
| LetterChart.SortKeys | Final_Project.py:194 | the sorted keys are the same keys, strictly ascending in code-point lexicographic order |
| LetterChart.LexLessTransitive | Final_Project.py:194 | the string order used for sorting is transitive |
| LetterChart.LexLessTotal | Final_Project.py:194 | any two different strings are ordered one way or the other |
| LetterChart.LexLessIrreflexive | Final_Project.py:194 | no string precedes itself |
| LetterChart.Refill | Final_Project.py:195-197 | assigning key by key from the old dictionary gives each listed key its old value, no other key, and keys in the listed order |
| LetterChart.Alphabetize | Final_Project.py:193-197 | the reordered dictionary has the same key/count pairs and size, with keys strictly ascending |
| LetterChart.ChartOrder | Final_Project.py:193-199 | both branches keep every key/count pair; the ticked box gives ascending keys, the unticked box keeps the original key order |
| Navigation.Nav | Final_Project.py:217-241 | a menu selection becomes the stored page; any other value keeps the stored page, or "home" if nothing was stored |
| Navigation.Dispatch | Final_Project.py:247-256 | renders Home exactly for "Home" and for any name not in the menu; for a menu entry, renders the page that entry names |
| Navigation.Title | Final_Project.py:227 | every page's title is a menu entry |
| Navigation.Run | Final_Project.py:244-257 | a menu selection renders its own page and is stored; with nothing stored and a non-menu value, Home is rendered and "home" stored |
| Navigation.InitialPageRendersHome | Final_Project.py:223-247 | the initial lower-case "home" is not a menu entry and renders the home page |
| Scenarios.TwoRowSummary | Final_Project.py:41-63 | for a table of one complete row and one row missing its mass, the class summary uses only the complete row, but the row missing its mass still counts in the latitude and longitude means |
| Scenarios.TwoRowNameIndex | Final_Project.py:66-80 | the two names are filed under "A" and "O" |
| Scenarios.TwoRowYearFound | Final_Project.py:29-38 | the year of one row counts 1 |
| Scenarios.TwoRowYearMissing | Final_Project.py:29-38 | a year no row has is an error naming that year |

## Findings

| source | as written | input that shows it | evidently intended | confidence | as-written member | corrected member |
|---|---|---|---|---|---|---|
| Final_Project.py:180-188 | the name page offers all 26 capital letters, then reads each selected letter's list with `namesDict[letter]`, which raises when no name is filed under it | a table in which no name starts with "Q", with "Q" selected | a letter without names shows a count of 0 and an empty list | medium; not executed | LetterChart.UnusedLetterFails | LetterChart.LetterCountsOrZero |

`LetterChart.LetterCounts` models the lookup as written. `LetterChart.OrZeroAgreesWhenFound`
proves that the corrected lookup agrees with it wherever it succeeds.
`LetterChart.ChartOrder` accepts the dictionary from either lookup.

## Left out

- Loading the CSV file (`getData`, Final_Project.py:23-26) is left out. It is
  file I/O with Latin-1 decoding, so the model starts from a parsed sequence of
  records.
- The page rendering is left out: the home, map, year and classification pages
  and the drawing parts of the name page. These are Streamlit widgets, the pie
  and bar charts, the map layer and the image file. The multiselect,
  selectbox and checkbox inputs become function parameters.
- Display options (`pd.set_option`, the float format) and the `pd.to_numeric`
  conversions are left out. They change how values are shown, not the values.
- IEEE floating point is left out. Means are exact reals, and NaN is `None`.
- The `firstLetter` column that the name index adds to the caller's table is
  left out. It mutates a data frame, and the index is modelled as a pure
  function.
- Columns of the real data file that the code never names (name type, fall,
  geolocation) are left out. The drop-missing pass also inspects them; here a
  complete row means that the seven modelled fields are present.
- The session store is left out as ambient state. It becomes the `stored`
  parameter of `Navigation.Nav`.
- The per-group means of the identifier, coordinate and year columns
  (Final_Project.py:48) are left out. The code computes them but uses only the
  mass mean.
- NameIndex.UpperCase: matches Python's `str.upper` only for characters up to
  U+00FF. The table is read as Latin-1, so every name character is in that
  range.
- The default arguments of the year lookup (`years = [1970, 860]`,
  Final_Project.py:29) and of the class summary (`recclass="Acapulcoite"`,
  Final_Project.py:41) are left out. Every caller passes both, so the model
  makes them ordinary parameters.
- Integer width is left out. Identifiers and years are unbounded integers. In
  the data they are far from any overflow.
