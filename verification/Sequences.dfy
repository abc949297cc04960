/** Sequences without repetition, and the list operations the sources use on them. */
module Sequences {

  ghost predicate Distinct<T>(s: seq<T>) {
    forall i, j :: 0 <= i < j < |s| ==> s[i] != s[j]
  }

  /** r is what remains of s after dropping some of its first members. */
  ghost predicate SuffixOf<T>(r: seq<T>, s: seq<T>) {
    r == s || (s != [] && SuffixOf(r, s[1..]))
  }

  lemma {:induction false} SuffixMeans<T>(r: seq<T>, s: seq<T>)
    ensures SuffixOf(r, s) <==> |r| <= |s| && r == s[|s| - |r|..]
  {
    if s != [] {
      SuffixMeans(r, s[1..]);
      assert |r| < |s| ==> s[1..][|s| - 1 - |r|..] == s[|s| - |r|..];
    }
  }

  lemma SuffixDrop<T>(r: seq<T>, s: seq<T>, n: nat)
    requires SuffixOf(r, s) && n <= |r|
    ensures SuffixOf(r[n..], s)
  {
    SuffixMeans(r, s);
    SuffixMeans(r[n..], s);
    assert s[|s| - |r|..][n..] == s[|s| - |r| + n..];
  }

  lemma SuffixTransitive<T>(r: seq<T>, s: seq<T>, t: seq<T>)
    requires SuffixOf(r, s) && SuffixOf(s, t)
    ensures SuffixOf(r, t)
  {
    SuffixMeans(r, s);
    SuffixDrop(s, t, |s| - |r|);
  }

  lemma ConsDistinct<T>(x: T, s: seq<T>)
    requires Distinct(s) && x !in s
    ensures Distinct([x] + s)
  {
  }

  lemma DistinctCard<T>(s: seq<T>)
    requires Distinct(s)
    ensures |set x | x in s| == |s|
  {
    if s != [] {
      DistinctCard(s[1..]);
      assert (set x | x in s) == {s[0]} + (set x | x in s[1..]);
    }
  }

  lemma DistinctCovers<T>(s: seq<T>, m: set<T>)
    requires Distinct(s) && forall x :: x in s <==> x in m
    ensures |s| == |m|
  {
    DistinctCard(s);
    assert (set x | x in s) == m;
  }

  lemma ConcatDistinct<T>(s: seq<T>, r: seq<T>)
    requires Distinct(s) && Distinct(r) && forall x :: x in s ==> x !in r
    ensures Distinct(s + r)
  {
    var both := s + r;
    forall i, j | 0 <= i < j < |both| ensures both[i] != both[j] {
      if i < |s| <= j { assert both[i] in s && both[j] in r; }
    }
  }

  /** Two arrangements of the same members without repetition. */
  lemma {:induction false} DistinctSame<T>(s: seq<T>, r: seq<T>)
    requires Distinct(s) && Distinct(r) && forall x :: x in s <==> x in r
    ensures multiset(s) == multiset(r)
  {
    forall x ensures multiset(s)[x] == multiset(r)[x] {
      DistinctCount(s, x);
      DistinctCount(r, x);
    }
  }

  lemma {:induction false} DistinctCount<T>(s: seq<T>, x: T)
    requires Distinct(s)
    ensures multiset(s)[x] == if x in s then 1 else 0
  {
    if s != [] {
      assert s == [s[0]] + s[1..];
      DistinctCount(s[1..], x);
      assert s[0] !in s[1..];
    }
  }

  lemma SubsetCard<T>(a: set<T>, b: set<T>)
    requires a <= b
    ensures |a| <= |b|
  {
    assert b == a + (b - a);
  }

  /** Python's list.remove: drops the first occurrence. */
  function RemoveFirst<T(==)>(s: seq<T>, x: T): (r: seq<T>)
    ensures |r| == if x in s then |s| - 1 else |s|
    ensures x !in s ==> r == s
    ensures forall y :: y in r ==> y in s
    ensures forall y :: y in s && y != x ==> y in r
  {
    if s == [] then []
    else if s[0] == x then s[1..]
    else [s[0]] + RemoveFirst(s[1..], x)
  }

  /** Only the first occurrence goes, and the rest keeps its order. */
  lemma {:induction false} RemoveFirstMeans<T>(s: seq<T>, x: T) returns (i: nat)
    requires x in s
    ensures i < |s| && s[i] == x && x !in s[..i] && RemoveFirst(s, x) == s[..i] + s[i + 1..]
  {
    if s[0] == x {
      i := 0;
    } else {
      var j := RemoveFirstMeans(s[1..], x);
      i := j + 1;
      assert s[..i] == [s[0]] + s[1..][..j] && s[i + 1..] == s[1..][j + 1..];
    }
  }

  lemma {:induction false} RemoveFirstDistinct<T>(s: seq<T>, x: T)
    requires Distinct(s)
    ensures Distinct(RemoveFirst(s, x)) && x !in RemoveFirst(s, x)
  {
    if s != [] && s[0] != x {
      RemoveFirstDistinct(s[1..], x);
      assert s[0] !in s[1..];
    }
  }

  /** s with the member at i replaced by two others. */
  function ReplaceByTwo<T>(s: seq<T>, i: nat, x: T, y: T): (r: seq<T>)
    requires i < |s|
    ensures |r| == |s| + 1
    ensures forall j :: 0 <= j < i ==> r[j] == s[j]
    ensures r[i] == x && r[i + 1] == y
    ensures forall j :: i + 1 < j < |r| ==> r[j] == s[j - 1]
  {
    s[..i] + [x, y] + s[i + 1..]
  }

  lemma ReplaceByTwoDistinct<T>(s: seq<T>, i: nat, x: T, y: T)
    requires i < |s| && Distinct(s) && x !in s && y !in s && x != y
    ensures Distinct(ReplaceByTwo(s, i, x, y))
  {
    var r := ReplaceByTwo(s, i, x, y);
    forall j, k | 0 <= j < k < |r| ensures r[j] != r[k] {
      assert j < i ==> r[j] in s;
      assert k > i + 1 ==> r[k] in s;
    }
  }
}
