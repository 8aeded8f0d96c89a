/** Order-preserving selection over sequences, the building block of every
    grouping and counting the report engine does. */
module Seqs {

  /** The elements of `s` that satisfy `p`, kept in their original order. */
  function Filter<T(!new)>(s: seq<T>, p: T -> bool): (r: seq<T>)
    ensures |r| <= |s|
    ensures forall x :: x in r <==> x in s && p(x)
  {
    if |s| == 0 then []
    else
      assert s == s[..|s| - 1] + [s[|s| - 1]];
      Filter(s[..|s| - 1], p) + (if p(s[|s| - 1]) then [s[|s| - 1]] else [])
  }

  /** Selecting from a concatenation selects from each part, earlier part first:
      the selection keeps the relative order of the rows it keeps. */
  lemma {:induction false} FilterConcat<T(!new)>(a: seq<T>, b: seq<T>, p: T -> bool)
    ensures Filter(a + b, p) == Filter(a, p) + Filter(b, p)
    decreases |b|
  {
    if |b| == 0 {
      assert a + b == a;
    } else {
      var b' := b[..|b| - 1];
      assert (a + b)[..|a + b| - 1] == a + b';
      assert (a + b)[|a + b| - 1] == b[|b| - 1];
      FilterConcat(a, b', p);
    }
  }

  /** How often a value occurs in the selection: as often as in the input when it
      satisfies the predicate, never otherwise. */
  lemma {:induction false} FilterMultiplicity<T(!new)>(s: seq<T>, p: T -> bool, x: T)
    ensures multiset(Filter(s, p))[x] == if p(x) then multiset(s)[x] else 0
    decreases |s|
  {
    if |s| > 0 {
      var s' := s[..|s| - 1];
      assert s == s' + [s[|s| - 1]];
      FilterMultiplicity(s', p, x);
    }
  }

  /** The selection depends only on which elements the input holds, not on their
      order, up to reordering of the selection itself. */
  lemma FilterPermutation<T(!new)>(s1: seq<T>, s2: seq<T>, p: T -> bool)
    requires multiset(s1) == multiset(s2)
    ensures multiset(Filter(s1, p)) == multiset(Filter(s2, p))
    ensures |Filter(s1, p)| == |Filter(s2, p)|
  {
    forall x
      ensures multiset(Filter(s1, p))[x] == multiset(Filter(s2, p))[x]
    {
      FilterMultiplicity(s1, p, x);
      FilterMultiplicity(s2, p, x);
    }
    assert multiset(Filter(s1, p)) == multiset(Filter(s2, p));
    assert |multiset(Filter(s1, p))| == |Filter(s1, p)|;
    assert |multiset(Filter(s2, p))| == |Filter(s2, p)|;
  }

  /** The positions of `s` whose element satisfies `p`. */
  ghost function Positions<T(!new)>(s: seq<T>, p: T -> bool): set<int> {
    set i | 0 <= i < |s| && p(s[i])
  }

  /** The length of the selection is the number of positions that satisfy the
      predicate: a counting definition independent of `Filter`. */
  lemma {:induction false} FilterCountsPositions<T(!new)>(s: seq<T>, p: T -> bool)
    ensures |Filter(s, p)| == |Positions(s, p)|
    decreases |s|
  {
    if |s| == 0 {
      assert Positions(s, p) == {};
    } else {
      var n := |s| - 1;
      FilterCountsPositions(s[..n], p);
      PositionsOfLast(s, p);
    }
  }

  /** The positions of a non-empty sequence are those of all but its last
      element, plus the last position when its element qualifies. */
  lemma PositionsOfLast<T(!new)>(s: seq<T>, p: T -> bool)
    requires |s| > 0
    ensures Positions(s, p) == Positions(s[..|s| - 1], p) + (if p(s[|s| - 1]) then {|s| - 1} else {})
    ensures |s| - 1 !in Positions(s[..|s| - 1], p)
  {
    var n := |s| - 1;
    var s' := s[..n];
    var grown := if p(s[n]) then Positions(s', p) + {n} else Positions(s', p);
    forall i | i in Positions(s, p)
      ensures i in grown
    {
      if i < n {
        assert s'[i] == s[i];
      }
    }
    forall i | i in grown
      ensures i in Positions(s, p)
    {
      if i < n {
        assert s'[i] == s[i];
      }
    }
  }
}
