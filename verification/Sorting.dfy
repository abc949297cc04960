/** Stable sorting of sequences by a total preorder, as Python's `sorted` and `list.sort`. */
module Sorting {
  import opened Sequences

  ghost predicate TotalPreorder<T(!new)>(le: (T, T) -> bool) {
    && (forall x, y :: le(x, y) || le(y, x))
    && (forall x, y, z :: le(x, y) && le(y, z) ==> le(x, z))
  }

  ghost predicate SortedBy<T>(s: seq<T>, le: (T, T) -> bool) {
    forall i, j :: 0 <= i < j < |s| ==> le(s[i], s[j])
  }

  function Insert<T>(x: T, s: seq<T>, le: (T, T) -> bool): (r: seq<T>)
    ensures multiset(r) == multiset(s) + multiset{x}
  {
    if s == [] || le(x, s[0]) then [x] + s
    else
      assert s == [s[0]] + s[1..];
      [s[0]] + Insert(x, s[1..], le)
  }

  function Sort<T>(s: seq<T>, le: (T, T) -> bool): (r: seq<T>)
    ensures multiset(r) == multiset(s)
    ensures |r| == |s|
  {
    if s == [] then []
    else
      assert s == [s[0]] + s[1..];
      var r := Insert(s[0], Sort(s[1..], le), le);
      assert |multiset(r)| == |multiset(s)|;
      r
  }

  lemma InSort<T>(s: seq<T>, le: (T, T) -> bool, x: T)
    ensures x in Sort(s, le) <==> x in s
  {
    assert x in Sort(s, le) <==> x in multiset(Sort(s, le));
  }

  lemma {:induction false} InsertSorted<T(!new)>(x: T, s: seq<T>, le: (T, T) -> bool)
    requires TotalPreorder(le) && SortedBy(s, le)
    ensures SortedBy(Insert(x, s, le), le)
  {
    if s != [] && !le(x, s[0]) {
      var rest := Insert(x, s[1..], le);
      InsertSorted(x, s[1..], le);
      forall y | y in rest ensures le(s[0], y) {
        assert y in multiset(rest);
      }
    }
  }

  lemma {:induction false} SortSorts<T(!new)>(s: seq<T>, le: (T, T) -> bool)
    requires TotalPreorder(le)
    ensures SortedBy(Sort(s, le), le)
  {
    if s != [] {
      SortSorts(s[1..], le);
      InsertSorted(s[0], Sort(s[1..], le), le);
    }
  }

  lemma SameHead<T>(s: seq<T>, r: seq<T>, le: (T, T) -> bool)
    requires SortedBy(s, le) && SortedBy(r, le) && s != [] && r != [] && s[0] in r && r[0] in s
    requires forall x, y :: x in s && y in s && le(x, y) && le(y, x) ==> x == y
    ensures s[0] == r[0]
  {
    var j :| 0 <= j < |r| && r[j] == s[0];
    var i :| 0 <= i < |s| && s[i] == r[0];
    if i > 0 && j > 0 {
      assert le(s[0], s[i]) && le(r[0], r[j]);
    }
  }

  lemma {:induction false} SortDistinct<T>(s: seq<T>, le: (T, T) -> bool)
    requires Distinct(s)
    ensures Distinct(Sort(s, le))
  {
    if s != [] {
      SortDistinct(s[1..], le);
      InSort(s[1..], le, s[0]);
      assert s[0] !in s[1..];
      InsertDistinct(s[0], Sort(s[1..], le), le);
    }
  }

  lemma {:induction false} InsertDistinct<T>(x: T, s: seq<T>, le: (T, T) -> bool)
    requires x !in s && Distinct(s)
    ensures Distinct(Insert(x, s, le))
  {
    if s == [] || le(x, s[0]) {
      ConsDistinct(x, s);
    } else {
      var rest := Insert(x, s[1..], le);
      InsertDistinct(x, s[1..], le);
      assert s[0] !in rest by { assert s[0] !in s[1..] && s[0] !in multiset(rest); }
      ConsDistinct(s[0], rest);
    }
  }

  lemma HeadAndTail<T>(s: seq<T>)
    requires s != []
    ensures multiset(s) == multiset{s[0]} + multiset(s[1..])
  {
    assert s == [s[0]] + s[1..];
  }

  lemma SameElements<T>(s: seq<T>, r: seq<T>)
    requires multiset(s) == multiset(r) && s != []
    ensures r != [] && s[0] in r && r[0] in s
    ensures s[0] == r[0] ==> multiset(s[1..]) == multiset(r[1..])
  {
    assert s[0] in multiset(r);
    assert r[0] in multiset(s);
    HeadAndTail(s);
    HeadAndTail(r);
    if s[0] == r[0] {
      assert multiset(s[1..]) == multiset(s) - multiset{s[0]};
    }
  }

  /** A sorted arrangement is unique when no two different members tie. */
  lemma {:induction false} SortedUnique<T>(s: seq<T>, r: seq<T>, le: (T, T) -> bool)
    requires SortedBy(s, le) && SortedBy(r, le) && multiset(s) == multiset(r)
    requires forall x, y :: x in s && y in s && le(x, y) && le(y, x) ==> x == y
    ensures s == r
  {
    if s == [] {
      assert |multiset(r)| == 0;
    } else {
      SameElements(s, r);
      SameHead(s, r, le);
      SortedUnique(s[1..], r[1..], le);
      assert s == [s[0]] + s[1..] && r == [r[0]] + r[1..];
    }
  }
}
