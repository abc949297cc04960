/** hp2p/kademlia.py: the nodes of a table nearest to an id by XOR distance. */
module Neighbours {
  import opened Bits
  import opened Buckets
  import opened Sequences
  import opened Sorting

  function Nearer(t: nat): (nat, nat) -> bool {
    (x: nat, y: nat) => Xor(x, t) <= Xor(y, t)
  }

  function BucketNearer(t: nat): (Bucket, Bucket) -> bool {
    (b: Bucket, c: Bucket) => Xor(b.Midpoint(), t) <= Xor(c.Midpoint(), t)
  }

  /** Where Python's slice [:k] of a list of n members ends. */
  function SliceEnd(k: int, n: nat): nat {
    if k >= 0 then (if k < n then k else n) else if n + k >= 0 then n + k else 0
  }

  function AllNodes(bs: seq<Bucket>): seq<nat> {
    if bs == [] then [] else AllNodes(bs[..|bs| - 1]) + bs[|bs| - 1].nodes
  }

  /** The nodes bucket by bucket, each bucket by distance. */
  function SortedNodes(bs: seq<Bucket>, t: nat): (r: seq<nat>)
    ensures multiset(r) == multiset(AllNodes(bs))
  {
    if bs == [] then [] else SortedNodes(bs[..|bs| - 1], t) + Sort(bs[|bs| - 1].nodes, Nearer(t))
  }

  lemma {:induction false} InSortedNodes(bs: seq<Bucket>, t: nat, n: nat)
    ensures n in SortedNodes(bs, t) <==> exists b :: b in bs && n in b.nodes
  {
    if bs != [] {
      var init, last := bs[..|bs| - 1], bs[|bs| - 1];
      InSortedNodes(init, t, n);
      InSort(last.nodes, Nearer(t), n);
      assert forall b :: b in bs <==> b in init || b == last;
    }
  }

  /** Buckets in midpoint order, none overlapping another. */
  ghost predicate InMidpointOrder(bs: seq<Bucket>, t: nat) {
    && (forall b :: b in bs ==> WfBucket(b))
    && (forall i, j, id :: 0 <= i < j < |bs| ==> !(bs[i].InRange(id) && bs[j].InRange(id)))
    && SortedBy(bs, BucketNearer(t))
  }

  /** Nodes of an earlier bucket are nearer than nodes of a later one. */
  lemma BucketOrderDecides(b: Bucket, c: Bucket, x: nat, y: nat, t: nat)
    requires WfBucket(b) && WfBucket(c) && x in b.nodes && y in c.nodes
    requires forall id :: !(b.InRange(id) && c.InRange(id))
    requires BucketNearer(t)(b, c)
    ensures Xor(x, t) < Xor(y, t)
  {
    assert b.InRange(b.Midpoint()) && c.InRange(c.Midpoint());
    XorInjective(b.Midpoint(), c.Midpoint(), t);
    BlocksOrderedByDistance(b, c, b.Midpoint(), x, c.Midpoint(), y, t);
  }

  ghost predicate StrictlySorted(s: seq<nat>, t: nat) {
    forall i, j :: 0 <= i < j < |s| ==> Xor(s[i], t) < Xor(s[j], t)
  }

  lemma SortedBucket(b: Bucket, t: nat)
    requires Distinct(b.nodes)
    ensures StrictlySorted(Sort(b.nodes, Nearer(t)), t)
  {
    var s := Sort(b.nodes, Nearer(t));
    SortSorts(b.nodes, Nearer(t));
    SortDistinct(b.nodes, Nearer(t));
    forall i, j | 0 <= i < j < |s| ensures Xor(s[i], t) < Xor(s[j], t) {
      assert Nearer(t)(s[i], s[j]) && s[i] != s[j];
      XorInjective(s[i], s[j], t);
    }
  }

  lemma ConcatSorted(s: seq<nat>, r: seq<nat>, t: nat)
    requires StrictlySorted(s, t) && StrictlySorted(r, t)
    requires forall x, y :: x in s && y in r ==> Xor(x, t) < Xor(y, t)
    ensures StrictlySorted(s + r, t)
  {
    forall i, j | 0 <= i < j < |s + r| ensures Xor((s + r)[i], t) < Xor((s + r)[j], t) {
      if i < |s| <= j { assert s[i] in s && r[j - |s|] in r; }
    }
  }

  lemma {:induction false} SortedNodesSorted(bs: seq<Bucket>, t: nat)
    requires InMidpointOrder(bs, t)
    ensures StrictlySorted(SortedNodes(bs, t), t)
  {
    if bs != [] {
      var init, last := bs[..|bs| - 1], bs[|bs| - 1];
      assert forall b :: b in init ==> b in bs;
      SortedNodesSorted(init, t);
      assert last in bs;
      SortedBucket(last, t);
      var s, r := SortedNodes(init, t), Sort(last.nodes, Nearer(t));
      forall x, y | x in s && y in r ensures Xor(x, t) < Xor(y, t) {
        InSortedNodes(init, t, x);
        InSort(last.nodes, Nearer(t), y);
        var b :| b in init && x in b.nodes;
        var i :| 0 <= i < |init| && init[i] == b;
        assert bs[i] == b;
        BucketOrderDecides(b, last, x, y, t);
      }
      ConcatSorted(s, r, t);
    }
  }

  lemma NearerIsPreorder(t: nat)
    ensures TotalPreorder(Nearer(t)) && TotalPreorder(BucketNearer(t))
  {
  }

  /** Sorting the buckets of a table by midpoint distance separates them. */
  lemma TableInMidpointOrder(bs: seq<Bucket>, own: nat, t: nat)
    requires WfTable(bs, own)
    ensures InMidpointOrder(Sort(bs, BucketNearer(t)), t)
  {
    var os := Sort(bs, BucketNearer(t));
    NearerIsPreorder(t);
    SortSorts(bs, BucketNearer(t));
    assert Distinct(bs) by {
      forall i, j | 0 <= i < j < |bs| ensures bs[i] != bs[j] { Ordered(bs, i, j); }
    }
    SortDistinct(bs, BucketNearer(t));
    forall b ensures b in os <==> b in bs { InSort(bs, BucketNearer(t), b); }
    forall i, j, id | 0 <= i < j < |os| ensures !(os[i].InRange(id) && os[j].InRange(id)) {
      assert os[i] in bs && os[j] in bs && os[i] != os[j];
      NoOverlap(bs, os[i], os[j], id);
    }
  }

  lemma NoOverlap(bs: seq<Bucket>, b: Bucket, c: Bucket, id: nat)
    requires Partition(bs) && b in bs && c in bs && b != c
    ensures !(b.InRange(id) && c.InRange(id))
  {
    var i :| 0 <= i < |bs| && bs[i] == b;
    var j :| 0 <= j < |bs| && bs[j] == c;
    if i < j { Ordered(bs, i, j); } else { Ordered(bs, j, i); }
  }

  lemma StrictlySortedIsSort(s: seq<nat>, r: seq<nat>, t: nat)
    requires StrictlySorted(r, t) && multiset(s) == multiset(r)
    ensures Sort(s, Nearer(t)) == r
  {
    NearerIsPreorder(t);
    SortSorts(s, Nearer(t));
    forall x, y | x in r && y in r && Nearer(t)(x, y) && Nearer(t)(y, x) ensures x == y {
      XorInjective(x, y, t);
    }
    SortedUnique(r, Sort(s, Nearer(t)), Nearer(t));
  }

  lemma LastKept(bs: seq<Bucket>, i: nat)
    requires i < |bs| - 1
    ensures var init, rest := bs[..|bs| - 1], bs[..i] + bs[i + 1..];
            rest[..|rest| - 1] == init[..i] + init[i + 1..] && rest[|rest| - 1] == bs[|bs| - 1]
  {
  }

  lemma {:induction false} AllNodesWithout(bs: seq<Bucket>, i: nat)
    requires i < |bs|
    ensures multiset(AllNodes(bs)) == multiset(AllNodes(bs[..i] + bs[i + 1..])) + multiset(bs[i].nodes)
    decreases |bs|
  {
    var init, rest := bs[..|bs| - 1], bs[..i] + bs[i + 1..];
    if i == |bs| - 1 {
      assert rest == init;
    } else {
      LastKept(bs, i);
      AllNodesWithout(init, i);
      assert AllNodes(rest) == AllNodes(rest[..|rest| - 1]) + bs[|bs| - 1].nodes;
    }
  }

  lemma WithoutOne(os: seq<Bucket>, i: nat)
    requires i < |os|
    ensures multiset(os[..i] + os[i + 1..]) == multiset(os) - multiset{os[i]}
  {
    assert os == os[..i] + [os[i]] + os[i + 1..];
  }

  lemma {:induction false} NodesOfPermutation(bs: seq<Bucket>, os: seq<Bucket>)
    requires multiset(bs) == multiset(os)
    ensures multiset(AllNodes(bs)) == multiset(AllNodes(os))
    decreases |bs|
  {
    if bs == [] {
      assert |multiset(os)| == 0;
    } else {
      var init, last := bs[..|bs| - 1], bs[|bs| - 1];
      assert bs == init + [last];
      assert last in multiset(os);
      var i :| 0 <= i < |os| && os[i] == last;
      WithoutOne(os, i);
      NodesOfPermutation(init, os[..i] + os[i + 1..]);
      AllNodesWithout(os, i);
    }
  }

  /** Visiting the buckets by midpoint distance, and each bucket by distance, visits the whole table by distance. */
  lemma VisitOrder(bs: seq<Bucket>, own: nat, t: nat)
    requires WfTable(bs, own)
    ensures var visited := SortedNodes(Sort(bs, BucketNearer(t)), t);
            StrictlySorted(visited, t) && Sort(AllNodes(bs), Nearer(t)) == visited
  {
    var os := Sort(bs, BucketNearer(t));
    TableInMidpointOrder(bs, own, t);
    SortedNodesSorted(os, t);
    NodesOfPermutation(bs, os);
    StrictlySortedIsSort(AllNodes(bs), SortedNodes(os, t), t);
  }

  /** What the source has collected after visiting c: all of it, or its first 2k nodes and a tail. */
  ghost predicate Collected(c: seq<nat>, nodes: seq<nat>, k: int) {
    || nodes == c
    || (k > 0 && exists q :: 2 * k <= q <= |c| && nodes == c[..2 * k] + c[q..])
  }

  lemma CollectedGrows(c: seq<nat>, nodes: seq<nat>, s: seq<nat>, m: nat, k: int)
    requires Collected(c, nodes, k) && m <= |s|
    requires m < |s| ==> |nodes| + m == 2 * k && m > 0
    ensures Collected(c + s, nodes + s[..m], k)
  {
    var d := c + s;
    if nodes == c {
      if m < |s| {
        assert nodes + s[..m] == d[..2 * k] + d[|d|..];
      }
    } else {
      var q :| 2 * k <= q <= |c| && nodes == c[..2 * k] + c[q..];
      assert nodes + s == d[..2 * k] + d[q..];
    }
  }

  lemma GapSorted(c: seq<nat>, p: nat, q: nat, t: nat)
    requires StrictlySorted(c, t) && p <= q <= |c|
    ensures StrictlySorted(c[..p] + c[q..], t)
  {
    var s := c[..p] + c[q..];
    forall i, j | 0 <= i < j < |s| ensures Xor(s[i], t) < Xor(s[j], t) {
      var i', j' := if i < p then i else i - p + q, if j < p then j else j - p + q;
      assert s[i] == c[i'] && s[j] == c[j'];
    }
  }

  lemma CollectedSorted(c: seq<nat>, nodes: seq<nat>, k: int, t: nat)
    requires Collected(c, nodes, k) && StrictlySorted(c, t)
    ensures StrictlySorted(nodes, t)
  {
    if nodes != c {
      var q :| 2 * k <= q <= |c| && nodes == c[..2 * k] + c[q..];
      GapSorted(c, 2 * k, q, t);
    }
  }

  lemma CollectedPrefix(c: seq<nat>, nodes: seq<nat>, k: int)
    requires Collected(c, nodes, k)
    ensures nodes[..SliceEnd(k, |nodes|)] == c[..SliceEnd(k, |c|)]
  {
    if nodes != c {
      var q :| 2 * k <= q <= |c| && nodes == c[..2 * k] + c[q..];
      assert SliceEnd(k, |nodes|) == k == SliceEnd(k, |c|);
    }
  }

  lemma SliceOfCollected(c: seq<nat>, nodes: seq<nat>, k: int, t: nat)
    requires Collected(c, nodes, k) && StrictlySorted(c, t)
    ensures Sort(nodes, Nearer(t))[..SliceEnd(k, |nodes|)] == c[..SliceEnd(k, |c|)]
  {
    CollectedSorted(c, nodes, k, t);
    StrictlySortedIsSort(nodes, nodes, t);
    CollectedPrefix(c, nodes, k);
  }

  /** Appends the nodes of s until the list has exactly 2k members. */
  method TakeFrom(nodes: seq<nat>, s: seq<nat>, k: int) returns (r: seq<nat>, ghost m: nat)
    ensures m <= |s| && r == nodes + s[..m]
    ensures m < |s| ==> |r| == 2 * k && m > 0
  {
    r, m := nodes, 0;
    for i := 0 to |s|
      invariant m == i && r == nodes + s[..i]
    {
      r := r + [s[i]];
      m := i + 1;
      if |r| == k * 2 { return; }
    }
  }

  method Collect(os: seq<Bucket>, t: nat, k: int) returns (nodes: seq<nat>)
    ensures Collected(SortedNodes(os, t), nodes, k)
  {
    nodes := [];
    for j := 0 to |os|
      invariant Collected(SortedNodes(os[..j], t), nodes, k)
    {
      ghost var before, m := nodes, 0;
      var s := Sort(os[j].nodes, Nearer(t));
      nodes, m := TakeFrom(nodes, s, k);
      CollectedGrows(SortedNodes(os[..j], t), before, s, m, k);
      assert os[..j + 1][..j] == os[..j];
    }
    assert os[..|os|] == os;
  }

  /** At most k nodes of the table by distance to an id, as the source collects them. */
  method NeighboursOf(bs: seq<Bucket>, t: nat, k: int, ghost own: nat) returns (r: seq<nat>)
    requires WfTable(bs, own)
    ensures r == Sort(AllNodes(bs), Nearer(t))[..SliceEnd(k, |AllNodes(bs)|)]
  {
    var nodes := Collect(Sort(bs, BucketNearer(t)), t, k);
    r := Sort(nodes, Nearer(t))[..SliceEnd(k, |nodes|)];
    VisitOrder(bs, own, t);
    SliceOfCollected(SortedNodes(Sort(bs, BucketNearer(t)), t), nodes, k, t);
  }

  lemma SortedTable(bs: seq<Bucket>, own: nat, t: nat) returns (all: seq<nat>)
    requires WfTable(bs, own)
    ensures all == Sort(AllNodes(bs), Nearer(t)) && StrictlySorted(all, t)
    ensures forall n :: n in all <==> n in Members(bs)
    ensures |all| == |Members(bs)|
  {
    var os := Sort(bs, BucketNearer(t));
    all := SortedNodes(os, t);
    VisitOrder(bs, own, t);
    forall b ensures b in os <==> b in bs { InSort(bs, BucketNearer(t), b); }
    forall n ensures n in all <==> n in Members(bs) {
      InSortedNodes(os, t, n);
      assert n in Members(bs) <==> exists b :: b in bs && n in b.nodes;
    }
    StrictlySortedDistinct(all, t);
    DistinctCovers(all, Members(bs));
  }

  lemma PrefixIsNearest(all: seq<nat>, e: nat, t: nat)
    requires StrictlySorted(all, t) && e <= |all|
    ensures StrictlySorted(all[..e], t)
    ensures forall n :: n in all[..e] ==> n in all
    ensures forall n, m :: n in all[..e] && m in all && m !in all[..e] ==> Xor(n, t) < Xor(m, t)
  {
    var near, far := all[..e], all[e..];
    assert all == near + far;
    forall n, m | n in near && m in all && m !in near ensures Xor(n, t) < Xor(m, t) {
      var i :| 0 <= i < |near| && near[i] == n;
      var j :| 0 <= j < |far| && far[j] == m;
      assert all[i] == n && all[e + j] == m && Xor(all[i], t) < Xor(all[e + j], t);
    }
  }

  lemma StrictlySortedDistinct(s: seq<nat>, t: nat)
    requires StrictlySorted(s, t)
    ensures Distinct(s)
  {
    forall i, j | 0 <= i < j < |s| ensures s[i] != s[j] {
      assert Xor(s[i], t) < Xor(s[j], t);
    }
  }

  /** The answer is the k nearest nodes: sorted by distance, and every node left out is farther than all in it. */
  lemma NeighboursAreNearest(bs: seq<Bucket>, own: nat, t: nat, k: int, r: seq<nat>)
    requires WfTable(bs, own)
    requires r == Sort(AllNodes(bs), Nearer(t))[..SliceEnd(k, |AllNodes(bs)|)]
    ensures StrictlySorted(r, t)
    ensures forall n :: n in r ==> n in Members(bs)
    ensures forall n, m :: n in r && m in Members(bs) && m !in r ==> Xor(n, t) < Xor(m, t)
    ensures k >= 0 ==> |r| == if k < |Members(bs)| then k else |Members(bs)|
    ensures k < 0 ==> |r| == if |Members(bs)| + k >= 0 then |Members(bs)| + k else 0
  {
    var all := SortedTable(bs, own, t);
    PrefixIsNearest(all, SliceEnd(k, |all|), t);
  }
}
