/** Stable sorting by a comparison, and lists in which nothing repeats in a row. */
module Sorting {

  ghost predicate TotalPreorder<T(!new)>(le: (T, T) -> bool) {
    (forall a, b :: le(a, b) || le(b, a)) && (forall a, b, c :: le(a, b) && le(b, c) ==> le(a, c))
  }

  ghost predicate SortedBy<T(!new)>(le: (T, T) -> bool, s: seq<T>) {
    forall i, j :: 0 <= i < j < |s| ==> le(s[i], s[j])
  }

  function InsertAfter<T>(le: (T, T) -> bool, s: seq<T>, x: T): seq<T> {
    if s == [] || le(s[|s| - 1], x) then s + [x]
    else InsertAfter(le, s[..|s| - 1], x) + [s[|s| - 1]]
  }

  /** What sort_by leaves: equal elements keep their order. */
  function StableSort<T>(le: (T, T) -> bool, s: seq<T>): seq<T> {
    if s == [] then [] else InsertAfter(le, StableSort(le, s[..|s| - 1]), s[|s| - 1])
  }

  lemma {:induction false} InsertKeepsMembers<T(!new)>(le: (T, T) -> bool, s: seq<T>, x: T)
    ensures multiset(InsertAfter(le, s, x)) == multiset(s) + multiset{x}
    ensures forall y :: y in InsertAfter(le, s, x) <==> y in s || y == x
  {
    if s != [] && !le(s[|s| - 1], x) {
      assert s == s[..|s| - 1] + [s[|s| - 1]];
      InsertKeepsMembers(le, s[..|s| - 1], x);
    }
  }

  lemma {:induction false} InsertKeepsSorted<T(!new)>(le: (T, T) -> bool, s: seq<T>, x: T)
    requires TotalPreorder(le) && SortedBy(le, s)
    ensures SortedBy(le, InsertAfter(le, s, x))
  {
    if s == [] {
    } else if le(s[|s| - 1], x) {
      var last := s[|s| - 1];
      forall i | 0 <= i < |s|
        ensures le(s[i], x)
      {
        assert i < |s| - 1 ==> le(s[i], last);
      }
    } else {
      var front, last := s[..|s| - 1], s[|s| - 1];
      InsertKeepsSorted(le, front, x);
      InsertKeepsMembers(le, front, x);
      var t := InsertAfter(le, front, x);
      forall k | 0 <= k < |t|
        ensures le(t[k], last)
      {
        assert t[k] in t;
        if t[k] in front {
          var m :| 0 <= m < |front| && front[m] == t[k];
          assert le(s[m], s[|s| - 1]);
        }
      }
    }
  }

  lemma {:induction false} SortSorts<T(!new)>(le: (T, T) -> bool, s: seq<T>)
    requires TotalPreorder(le)
    ensures SortedBy(le, StableSort(le, s))
    ensures multiset(StableSort(le, s)) == multiset(s)
  {
    if s != [] {
      assert s == s[..|s| - 1] + [s[|s| - 1]];
      SortSorts(le, s[..|s| - 1]);
      InsertKeepsSorted(le, StableSort(le, s[..|s| - 1]), s[|s| - 1]);
      InsertKeepsMembers(le, StableSort(le, s[..|s| - 1]), s[|s| - 1]);
    }
  }

  lemma {:induction false} SortedIsFixed<T(!new)>(le: (T, T) -> bool, s: seq<T>)
    requires SortedBy(le, s)
    ensures StableSort(le, s) == s
  {
    if s != [] {
      var front, last := s[..|s| - 1], s[|s| - 1];
      SortedIsFixed(le, front);
      assert s == front + [last];
      assert |front| > 0 ==> le(s[|s| - 2], s[|s| - 1]);
    }
  }

  /** A list is what sorting makes of it exactly when it is sorted. */
  lemma SortedExactlyWhenFixed<T(!new)>(le: (T, T) -> bool, s: seq<T>)
    requires TotalPreorder(le)
    ensures StableSort(le, s) == s <==> SortedBy(le, s)
  {
    SortSorts(le, s);
    if SortedBy(le, s) {
      SortedIsFixed(le, s);
    }
  }

  lemma SortKeepsMembers<T(!new)>(le: (T, T) -> bool, s: seq<T>)
    requires TotalPreorder(le)
    ensures |StableSort(le, s)| == |s| && forall x :: x in StableSort(le, s) <==> x in s
  {
    SortSorts(le, s);
    var t := StableSort(le, s);
    assert |t| == |multiset(t)| == |multiset(s)| == |s|;
    assert forall x :: x in t <==> x in multiset(t);
  }

  /** What dedup leaves: of equal neighbours, the first. */
  function Dedup<T(==)>(s: seq<T>): (d: seq<T>)
    ensures s != [] ==> d != [] && d[|d| - 1] == s[|s| - 1]
  {
    if |s| <= 1 then s
    else
      var front := Dedup(s[..|s| - 1]);
      if s[|s| - 2] == s[|s| - 1] then front else front + [s[|s| - 1]]
  }

  lemma LastIsGreatest<T(!new)>(le: (T, T) -> bool, s: seq<T>, x: T)
    requires TotalPreorder(le) && SortedBy(le, s) && x in s
    ensures le(x, s[|s| - 1])
  {
    var k :| 0 <= k < |s| && s[k] == x;
    if k < |s| - 1 {
      assert le(s[k], s[|s| - 1]);
    } else {
      assert le(x, x);
    }
  }

  /** Sorting and deduplicating leaves the same members, each once. */
  lemma {:induction false} DedupOfSorted<T(!new)>(le: (T, T) -> bool, s: seq<T>)
    requires TotalPreorder(le) && SortedBy(le, s)
    requires forall a, b :: le(a, b) && le(b, a) ==> a == b
    ensures var d := Dedup(s);
      SortedBy(le, d) && (forall i, j :: 0 <= i < j < |d| ==> d[i] != d[j]) && (forall x :: x in d <==> x in s)
  {
    if |s| > 1 {
      var front, last := s[..|s| - 1], s[|s| - 1];
      var next := s[|s| - 2];
      assert SortedBy(le, front);
      DedupOfSorted(le, front);
      var d := Dedup(front);
      assert s == front + [last] && next == front[|front| - 1];
      if next != last {
        forall x | x in front
          ensures le(x, last) && x != last
        {
          LastIsGreatest(le, front, x);
          assert le(s[|s| - 2], s[|s| - 1]);
        }
        AppendGreatest(le, d, last);
      }
    }
  }

  lemma AppendGreatest<T(!new)>(le: (T, T) -> bool, d: seq<T>, last: T)
    requires SortedBy(le, d) && (forall i, j :: 0 <= i < j < |d| ==> d[i] != d[j])
    requires forall x :: x in d ==> le(x, last) && x != last
    ensures var e := d + [last];
      SortedBy(le, e) && (forall i, j :: 0 <= i < j < |e| ==> e[i] != e[j]) && (forall x :: x in e <==> x in d || x == last)
  {
    assert forall i :: 0 <= i < |d| ==> d[i] in d;
  }

  /** Nothing is lost from a list that is already sorted without repetition. */
  lemma {:induction false} DedupKeepsDistinct<T(!new)>(s: seq<T>)
    requires forall i, j :: 0 <= i < j < |s| ==> s[i] != s[j]
    ensures Dedup(s) == s
  {
    if |s| > 1 {
      DedupKeepsDistinct(s[..|s| - 1]);
      assert s == s[..|s| - 1] + [s[|s| - 1]];
    }
  }
}
