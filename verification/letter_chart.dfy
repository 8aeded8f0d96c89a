/** The per-letter counts behind the name page's bar chart: for each selected
    letter, the number of names the index lists under it, kept in an
    insertion-ordered dictionary, optionally rebuilt in ascending key order. */
module LetterChart {
  import opened Wrappers
  import opened Meteorites
  import NameIndex

  /** The letters the name page offers for selection. */
  const Letters: seq<string> := ["A", "B", "C", "D", "E", "F", "G", "H", "I", "J", "K", "L", "M",
                                 "N", "O", "P", "Q", "R", "S", "T", "U", "V", "W", "X", "Y", "Z"]

  /** A name starting with an ASCII letter, of either case, is filed under
      one of the letters the page offers. */
  lemma AsciiInitialIsOffered(r: Record)
    requires r.name.Some? && |r.name.value| > 0
    requires 'a' <= r.name.value[0] <= 'z' || 'A' <= r.name.value[0] <= 'Z'
    ensures NameIndex.KeyOf(r).Some? && NameIndex.KeyOf(r).value in Letters
  {
  }

  /** An insertion-ordered dictionary from letter to count, as a sequence of
      key/value pairs. */
  type Counts = seq<(string, nat)>

  /** The keys of a dictionary, in insertion order. */
  function Keys(d: Counts): (ks: seq<string>)
    ensures |ks| == |d|
  {
    if |d| == 0 then [] else [d[0].0] + Keys(d[1..])
  }

  /** No element occurs twice. */
  predicate Distinct(s: seq<string>) {
    forall i, j :: 0 <= i < j < |s| ==> s[i] != s[j]
  }

  /** No key occurs twice. */
  predicate DistinctKeys(d: Counts) {
    Distinct(Keys(d))
  }

  /** The value stored under `k`, if any. */
  function Get(d: Counts, k: string): (v: Option<nat>)
    ensures v.Some? <==> k in Keys(d)
  {
    if |d| == 0 then None
    else if d[0].0 == k then Some(d[0].1)
    else Get(d[1..], k)
  }

  /** Dictionary assignment: an existing key keeps its position and takes the
      new value; a new key is appended at the end. */
  function Assign(d: Counts, k: string, v: nat): (r: Counts)
    ensures Get(r, k) == Some(v)
    ensures forall k' :: k' != k ==> Get(r, k') == Get(d, k')
    ensures k in Keys(d) ==> Keys(r) == Keys(d)
    ensures k !in Keys(d) ==> Keys(r) == Keys(d) + [k]
    ensures DistinctKeys(d) ==> DistinctKeys(r)
  {
    if |d| == 0 then [(k, v)]
    else if d[0].0 == k then
      var r := [(k, v)] + d[1..];
      assert r[1..] == d[1..];
      r
    else
      var rest := Assign(d[1..], k, v);
      var r := [d[0]] + rest;
      assert r[1..] == rest;
      assert Keys(r) == [d[0].0] + Keys(rest);
      assert Keys(d) == [d[0].0] + Keys(d[1..]);
      DistinctCons(d[0].0, Keys(d[1..]));
      DistinctCons(d[0].0, Keys(rest));
      r
  }

  /** A sequence with a new element in front is free of repeats exactly when
      the element is new and the rest is free of repeats. */
  lemma DistinctCons(x: string, s: seq<string>)
    ensures Distinct([x] + s) <==> x !in s && Distinct(s)
  {
    var r := [x] + s;
    if x !in s && Distinct(s) {
      forall i, j | 0 <= i < j < |r|
        ensures r[i] != r[j]
      {
        if i == 0 {
          assert r[j] == s[j - 1];
        } else {
          assert r[i] == s[i - 1] && r[j] == s[j - 1];
        }
      }
    }
    if Distinct(r) {
      forall j | 0 <= j < |s|
        ensures s[j] != x
      {
        assert r[0] == x && r[j + 1] == s[j];
        assert r[0] != r[j + 1];
      }
      forall i, j | 0 <= i < j < |s|
        ensures s[i] != s[j]
      {
        assert r[i + 1] == s[i] && r[j + 1] == s[j];
      }
    }
  }

  /** The counts of the selected letters, in selection order. Fails at the
      first selected letter that the index does not contain. */
  function LetterCounts(idx: map<string, seq<string>>, letters: seq<string>): (r: Result<Counts, ReportError>)
    ensures r.Success? <==> forall i :: 0 <= i < |letters| ==> letters[i] in idx
    ensures r.Failure? ==>
              exists i :: (0 <= i < |letters| && letters[i] !in idx && r.error == MissingLetter(letters[i]) &&
                           forall j :: 0 <= j < i ==> letters[j] in idx)
    ensures r.Success? ==> DistinctKeys(r.value)
    ensures r.Success? ==> forall k :: k in Keys(r.value) <==> k in letters
    ensures r.Success? ==> forall k :: k in letters ==> Get(r.value, k) == Some(|idx[k]|)
    ensures r.Success? && Distinct(letters) ==> Keys(r.value) == letters
  {
    if |letters| == 0 then Success([])
    else
      var front := letters[..|letters| - 1];
      var l := letters[|letters| - 1];
      assert letters == front + [l];
      var prev := LetterCounts(idx, front);
      if prev.Failure? then
        Failure(prev.error)
      else if l !in idx then
        Failure(MissingLetter(l))
      else
        Success(Assign(prev.value, l, |idx[l]|))
  }

  /** Looking the selected letters up in the index of a table succeeds exactly
      when every letter has a name filed under it, and each count is the
      number of rows filed under that letter. */
  lemma LetterCountsOfTable(t: Table, letters: seq<string>)
    ensures LetterCounts(NameIndex.BuildIndex(t), letters).Success? <==>
              forall i :: 0 <= i < |letters| ==> NameIndex.HasKey(t, letters[i])
    ensures LetterCounts(NameIndex.BuildIndex(t), letters).Success? ==>
              forall k :: k in letters ==>
                Get(LetterCounts(NameIndex.BuildIndex(t), letters).value, k) ==
                Some(|set i | 0 <= i < |t| && NameIndex.KeyOf(t[i]) == Some(k)|)
  {
    var r := LetterCounts(NameIndex.BuildIndex(t), letters);
    if r.Success? {
      forall k | k in letters
        ensures Get(r.value, k) == Some(|set i | 0 <= i < |t| && NameIndex.KeyOf(t[i]) == Some(k)|)
      {
        NameIndex.ListLengthCountsRows(t, k);
      }
    }
  }

  /** The letter menu offers every capital letter, whether or not a name is
      filed under it; selecting one that no name starts with makes the lookup
      fail, as the source's index lookup raises on a missing key. */
  lemma UnusedLetterFails(t: Table, l: string)
    requires l in Letters && !NameIndex.HasKey(t, l)
    ensures LetterCounts(NameIndex.BuildIndex(t), [l]) == Failure(MissingLetter(l))
  {
    var letters := [l];
    assert letters[..0] == [];
  }

  /** The lookup with the evident intent: a selected letter without names
      counts zero instead of failing. */
  function LetterCountsOrZero(idx: map<string, seq<string>>, letters: seq<string>): (r: Counts)
    ensures DistinctKeys(r)
    ensures forall k :: k in Keys(r) <==> k in letters
    ensures forall k :: k in letters ==> Get(r, k) == Some(if k in idx then |idx[k]| else 0)
    ensures Distinct(letters) ==> Keys(r) == letters
  {
    if |letters| == 0 then []
    else
      var front := letters[..|letters| - 1];
      var l := letters[|letters| - 1];
      assert letters == front + [l];
      Assign(LetterCountsOrZero(idx, front), l, if l in idx then |idx[l]| else 0)
  }

  /** The corrected lookup never fails, counts each selected letter's rows, and
      agrees with the lookup as written wherever that one succeeds. */
  lemma {:induction false} OrZeroAgreesWhenFound(idx: map<string, seq<string>>, letters: seq<string>)
    ensures LetterCounts(idx, letters).Success? ==> LetterCounts(idx, letters).value == LetterCountsOrZero(idx, letters)
  {
    if |letters| > 0 {
      var front := letters[..|letters| - 1];
      OrZeroAgreesWhenFound(idx, front);
    }
  }

  // ----- Ordering of keys -----

  /** Python's ordering of strings: lexicographic by code point, a proper prefix
      before its extensions. */
  predicate LexLess(a: string, b: string) {
    if |a| == 0 then |b| > 0
    else if |b| == 0 then false
    else if a[0] != b[0] then a[0] < b[0]
    else LexLess(a[1..], b[1..])
  }

  lemma {:induction false} LexLessIrreflexive(a: string)
    ensures !LexLess(a, a)
  {
    if |a| > 0 {
      LexLessIrreflexive(a[1..]);
    }
  }

  lemma {:induction false} LexLessTransitive(a: string, b: string, c: string)
    requires LexLess(a, b) && LexLess(b, c)
    ensures LexLess(a, c)
  {
    if |a| > 0 && |b| > 0 && |c| > 0 && a[0] == b[0] && b[0] == c[0] {
      LexLessTransitive(a[1..], b[1..], c[1..]);
    }
  }

  lemma {:induction false} LexLessTotal(a: string, b: string)
    ensures a == b || LexLess(a, b) || LexLess(b, a)
  {
    if |a| > 0 && |b| > 0 && a[0] == b[0] {
      LexLessTotal(a[1..], b[1..]);
      if a[1..] == b[1..] {
        assert a == [a[0]] + a[1..] && b == [b[0]] + b[1..];
      }
    }
  }

  /** Strictly ascending in that ordering (so also free of repeats). */
  predicate Ascending(s: seq<string>) {
    forall i, j :: 0 <= i < j < |s| ==> LexLess(s[i], s[j])
  }

  /** Insert a new key into an ascending sequence of keys. */
  function Insert(x: string, s: seq<string>): (r: seq<string>)
    requires Ascending(s) && x !in s
    ensures |r| == |s| + 1
    ensures forall y :: y in r <==> y == x || y in s
    ensures Ascending(r)
  {
    if |s| == 0 then [x]
    else
      LexLessTotal(x, s[0]);
      if LexLess(x, s[0]) then
        var r := [x] + s;
        assert forall j :: 1 <= j < |r| ==> LexLess(x, r[j]) by {
          forall j | 1 <= j < |r|
            ensures LexLess(x, r[j])
          {
            if j > 1 {
              LexLessTransitive(x, s[0], r[j]);
            }
          }
        }
        r
      else
        var rest := Insert(x, s[1..]);
        var r := [s[0]] + rest;
        assert forall y :: y in rest ==> LexLess(s[0], y) by {
          forall y | y in rest
            ensures LexLess(s[0], y)
          {
            if y != x {
              var j :| 0 <= j < |s[1..]| && s[1..][j] == y;
              assert s[j + 1] == y;
            }
          }
        }
        assert forall i, j :: 0 <= i < j < |r| ==> LexLess(r[i], r[j]) by {
          forall i, j | 0 <= i < j < |r|
            ensures LexLess(r[i], r[j])
          {
            if i == 0 {
              assert r[j] in rest;
            } else {
              assert r[i] == rest[i - 1] && r[j] == rest[j - 1];
            }
          }
        }
        r
  }

  /** The keys in ascending order (Python's `sorted` on distinct keys). */
  function SortKeys(ks: seq<string>): (r: seq<string>)
    requires Distinct(ks)
    ensures |r| == |ks|
    ensures forall y :: y in r <==> y in ks
    ensures Ascending(r)
  {
    if |ks| == 0 then []
    else
      assert ks == [ks[0]] + ks[1..];
      DistinctCons(ks[0], ks[1..]);
      Insert(ks[0], SortKeys(ks[1..]))
  }

  /** A strictly ascending sequence has no repeats. */
  lemma AscendingDistinct(s: seq<string>)
    requires Ascending(s)
    ensures Distinct(s)
  {
    forall i, j | 0 <= i < j < |s|
      ensures s[i] != s[j]
    {
      LexLessIrreflexive(s[i]);
    }
  }

  // ----- The alphabetical reorder -----

  /** A new dictionary filled by assigning, key by key in the given order, the
      value each key has in `d`. */
  function Refill(keys: seq<string>, d: Counts): (r: Counts)
    requires forall k :: k in keys ==> k in Keys(d)
    ensures forall k :: Get(r, k) == (if k in keys then Get(d, k) else None)
    ensures DistinctKeys(r)
    ensures Distinct(keys) ==> Keys(r) == keys
  {
    if |keys| == 0 then []
    else
      var front := keys[..|keys| - 1];
      var k := keys[|keys| - 1];
      assert keys == front + [k];
      var prev := Refill(front, d);
      assert Distinct(keys) ==> Distinct(front) && k !in front by {
        if Distinct(keys) {
          forall i, j | 0 <= i < j < |front|
            ensures front[i] != front[j]
          {
            assert front[i] == keys[i] && front[j] == keys[j];
          }
          forall i | 0 <= i < |front|
            ensures front[i] != k
          {
            assert keys[i] != keys[|keys| - 1];
          }
        }
      }
      Assign(prev, k, Get(d, k).value)
  }

  /** The dictionary rebuilt in ascending key order: the same key/count pairs,
      with the keys now ascending. */
  function Alphabetize(d: Counts): (r: Counts)
    requires DistinctKeys(d)
    ensures Ascending(Keys(r))
    ensures forall k :: Get(r, k) == Get(d, k)
    ensures |r| == |d|
  {
    var sorted := SortKeys(Keys(d));
    AscendingDistinct(sorted);
    Refill(sorted, d)
  }

  /** The order the bar chart shows the counts in: alphabetical when the box is
      ticked, selection order otherwise. The pairs never change. */
  function ChartOrder(d: Counts, alphabetical: bool): (r: Counts)
    requires DistinctKeys(d)
    ensures forall k :: Get(r, k) == Get(d, k)
    ensures |r| == |d| && DistinctKeys(r)
    ensures alphabetical ==> Ascending(Keys(r))
    ensures !alphabetical ==> Keys(r) == Keys(d)
  {
    if alphabetical then
      var r := Alphabetize(d);
      AscendingDistinct(Keys(r));
      r
    else d
  }
}
