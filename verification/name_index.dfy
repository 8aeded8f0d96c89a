/** The name index of the report engine: every name is filed under the
    upper-cased form of its first character, and each key maps to the names
    filed under it in table order. The source also adds the computed key as a
    new column of the caller's table; that mutation has no counterpart here,
    where the index is a pure function of the table. */
module NameIndex {
  import opened Wrappers
  import opened Meteorites
  import Seqs

  /** Upper-casing of one character as Python's `str.upper` does it on the
      Latin-1 range (the encoding the table is read with): ASCII and Latin-1
      small letters map to their capitals, the micro sign to capital mu,
      y-diaeresis to its capital, and sharp s to the two letters "SS". Other
      characters are returned unchanged. */
  function UpperCase(ch: char): (u: string)
    ensures 1 <= |u| <= 2
    ensures forall i :: 0 <= i < |u| ==> !('a' <= u[i] <= 'z')
    ensures ch <= '\U{FF}' && !('a' <= ch <= 'z') && !('\U{DF}' <= ch <= '\U{FF}') && ch != '\U{B5}' ==> u == [ch]
  {
    if 'a' <= ch <= 'z' then [(ch as int - 32) as char]
    else if ch == '\U{B5}' then ['\U{39C}']
    else if ch == '\U{DF}' then "SS"
    else if '\U{E0}' <= ch <= '\U{FE}' && ch != '\U{F7}' then [(ch as int - 32) as char]
    else if ch == '\U{FF}' then ['\U{178}']
    else [ch]
  }

  /** A small letter, ASCII or Latin-1 (the division sign excepted), and its
      capital upper-case to the same single character, that capital: a name
      filed under "abee" and one under "Abee" share a key. */
  lemma SmallLetterSharesCapitalsKey(ch: char)
    requires 'a' <= ch <= 'z' || ('\U{E0}' <= ch <= '\U{FE}' && ch != '\U{F7}')
    ensures var cap := (ch as int - 32) as char;
            UpperCase(ch) == UpperCase(cap) == [cap]
  {
  }

  /** Upper-casing is idempotent: every character of an upper-cased character
      upper-cases to itself. */
  lemma UpperCaseIdempotent(ch: char)
    ensures forall i :: 0 <= i < |UpperCase(ch)| ==> UpperCase(UpperCase(ch)[i]) == [UpperCase(ch)[i]]
  {
  }

  /** The key a row is filed under; none when its name is missing or empty,
      since such a name has no first character. */
  function KeyOf(r: Record): (k: Option<string>)
    ensures k.Some? <==> r.name.Some? && |r.name.value| > 0
    ensures k.Some? ==> k.value == UpperCase(r.name.value[0])
  {
    if r.name.Some? && |r.name.value| > 0 then Some(UpperCase(r.name.value[0])) else None
  }

  /** Whether a row is filed under key `k`. */
  function FiledUnder(k: string): Record -> bool {
    (r: Record) => KeyOf(r) == Some(k)
  }

  /** Whether some row of the table is filed under `k`. */
  predicate HasKey(t: Table, k: string) {
    exists i :: 0 <= i < |t| && KeyOf(t[i]) == Some(k)
  }

  /** The names of rows that all have one, in order. */
  function Names(rows: seq<Record>): seq<string>
    requires forall r :: r in rows ==> r.name.Some?
  {
    seq(|rows|, i requires 0 <= i < |rows| => rows[i].name.value)
  }

  /** The names filed under `k`, in table order and with their original case. */
  function NamesUnder(t: Table, k: string): seq<string> {
    Names(Seqs.Filter(t, FiledUnder(k)))
  }

  /** The index, built in one pass over the rows: each row with a key appends
      its name to that key's list. */
  function BuildIndex(t: Table): (idx: map<string, seq<string>>)
    ensures forall k :: k in idx <==> HasKey(t, k)
    ensures forall k :: k in idx ==> idx[k] == NamesUnder(t, k)
    ensures forall k :: k in idx ==> idx[k] != []
  {
    if |t| == 0 then map[]
    else
      var prefix := t[..|t| - 1];
      var last := t[|t| - 1];
      var idx' := BuildIndex(prefix);
      LastRowKeys(t);
      LastRowLists(t);
      match KeyOf(last)
      case None => idx'
      case Some(k) =>
        NoKeyNoNames(prefix, k);
        idx'[k := (if k in idx' then idx'[k] else []) + [last.name.value]]
  }

  /** A key no row is filed under lists no name. */
  lemma NoKeyNoNames(t: Table, k: string)
    ensures !HasKey(t, k) ==> NamesUnder(t, k) == []
  {
    var f := Seqs.Filter(t, FiledUnder(k));
    if f != [] {
      assert f[0] in f;
    }
  }

  /** The keys of a non-empty table are those of the rows before the last,
      plus the last row's key. */
  lemma LastRowKeys(t: Table)
    requires |t| > 0
    ensures forall k :: HasKey(t, k) <==> HasKey(t[..|t| - 1], k) || KeyOf(t[|t| - 1]) == Some(k)
  {
    var prefix, last := t[..|t| - 1], t[|t| - 1];
    forall k
      ensures HasKey(t, k) <==> HasKey(prefix, k) || KeyOf(last) == Some(k)
    {
      if HasKey(prefix, k) {
        var i :| 0 <= i < |prefix| && KeyOf(prefix[i]) == Some(k);
        assert t[i] == prefix[i];
      }
      if HasKey(t, k) && KeyOf(last) != Some(k) {
        var i :| 0 <= i < |t| && KeyOf(t[i]) == Some(k);
        assert prefix[i] == t[i];
      }
    }
  }

  /** The lists of a non-empty table are those of the rows before the last,
      with the last row's name appended to the list of its key. */
  lemma LastRowLists(t: Table)
    requires |t| > 0
    ensures forall k :: NamesUnder(t, k) == NamesUnder(t[..|t| - 1], k) +
              (if KeyOf(t[|t| - 1]) == Some(k) then [t[|t| - 1].name.value] else [])
  {
    var prefix, last := t[..|t| - 1], t[|t| - 1];
    forall k
      ensures NamesUnder(t, k) == NamesUnder(prefix, k) + (if KeyOf(last) == Some(k) then [last.name.value] else [])
    {
      var before := Seqs.Filter(prefix, FiledUnder(k));
      var extra := if KeyOf(last) == Some(k) then [last] else [];
      assert Seqs.Filter(t, FiledUnder(k)) == before + extra;
      NamesConcat(before, extra);
    }
  }

  /** Names of a concatenation are the names of each part. */
  lemma NamesConcat(a: seq<Record>, b: seq<Record>)
    requires forall r :: r in a ==> r.name.Some?
    requires forall r :: r in b ==> r.name.Some?
    ensures Names(a + b) == Names(a) + Names(b)
  {
    assert forall r :: r in a + b ==> r in a || r in b;
  }

  /** Every listed name is the name of some row, with its original case, and
      lies under the upper-cased form of its own first character; so no name is
      listed under two keys, and an empty name is listed nowhere. */
  lemma ListedNameBelongsToItsKey(t: Table, k: string, n: string)
    requires k in BuildIndex(t) && n in BuildIndex(t)[k]
    ensures |n| > 0 && UpperCase(n[0]) == k
    ensures exists i :: 0 <= i < |t| && t[i].name == Some(n)
  {
    var f := Seqs.Filter(t, FiledUnder(k));
    var j :| 0 <= j < |f| && Names(f)[j] == n;
    assert f[j] in f;
    var i :| 0 <= i < |t| && t[i] == f[j];
  }

  /** Every row with a present, non-empty name is listed under the upper-cased
      form of its first character. */
  lemma KeyedRowIsListed(t: Table, i: int)
    requires 0 <= i < |t| && KeyOf(t[i]).Some?
    ensures KeyOf(t[i]).value in BuildIndex(t)
    ensures t[i].name.value in BuildIndex(t)[KeyOf(t[i]).value]
  {
    var k := KeyOf(t[i]).value;
    assert HasKey(t, k);
    var f := Seqs.Filter(t, FiledUnder(k));
    assert t[i] in f;
    var j :| 0 <= j < |f| && f[j] == t[i];
    assert Names(f)[j] == t[i].name.value;
  }

  /** Each list keeps table order: the list for the rows of `a` followed by the
      rows of `b` is the list for `a` followed by the list for `b`. */
  lemma ListsKeepRowOrder(a: Table, b: Table, k: string)
    ensures NamesUnder(a + b, k) == NamesUnder(a, k) + NamesUnder(b, k)
  {
    Seqs.FilterConcat(a, b, FiledUnder(k));
    NamesConcat(Seqs.Filter(a, FiledUnder(k)), Seqs.Filter(b, FiledUnder(k)));
  }

  /** A list's length is the number of rows filed under its key. */
  lemma ListLengthCountsRows(t: Table, k: string)
    ensures |NamesUnder(t, k)| == |set i | 0 <= i < |t| && KeyOf(t[i]) == Some(k)|
  {
    Seqs.FilterCountsPositions(t, FiledUnder(k));
    assert Seqs.Positions(t, FiledUnder(k)) == set i | 0 <= i < |t| && KeyOf(t[i]) == Some(k);
  }

  /** A row whose name is missing or empty is filed nowhere. */
  lemma UnnamedRowIgnored(t: Table, r: Record)
    requires r.name.None? || r.name == Some("")
    ensures BuildIndex(t + [r]) == BuildIndex(t)
  {
    assert (t + [r])[..|t|] == t;
  }
}
