/** Splitting a bucket at its midpoint, and which nodes a table refuses. */
module Splitting {
  import opened Bits
  import opened Buckets
  import opened Sequences

  /** The members of s within [lo, hi], in their order. */
  function Restrict(s: seq<nat>, lo: nat, hi: nat): (r: seq<nat>)
    ensures forall x :: x in r <==> x in s && lo <= x <= hi
    ensures |r| <= |s|
  {
    if s == [] then []
    else
      var x := s[|s| - 1];
      Restrict(s[..|s| - 1], lo, hi) + (if lo <= x <= hi then [x] else [])
  }

  lemma RestrictSnoc(t: seq<nat>, x: nat, lo: nat, hi: nat)
    ensures Restrict(t + [x], lo, hi) == if lo <= x <= hi then Restrict(t, lo, hi) + [x] else Restrict(t, lo, hi)
  {
    assert (t + [x])[..|t|] == t;
  }

  /** One more member of s: it was not there before, and goes where it belongs. */
  lemma RestrictStep(s: seq<nat>, i: nat, lo: nat, hi: nat)
    requires i < |s| && Distinct(s)
    ensures Restrict(s[..i + 1], lo, hi) == if lo <= s[i] <= hi then Restrict(s[..i], lo, hi) + [s[i]] else Restrict(s[..i], lo, hi)
    ensures s[i] !in Restrict(s[..i], lo, hi) && |Restrict(s[..i], lo, hi)| <= i
  {
    assert s[..i + 1] == s[..i] + [s[i]];
    RestrictSnoc(s[..i], s[i], lo, hi);
  }

  /** Two members that are kept keep their order. */
  lemma {:induction false} RestrictInOrder(s: seq<nat>, lo: nat, hi: nat, i: nat, j: nat) returns (k: nat, l: nat)
    requires i < j < |s| && lo <= s[i] <= hi && lo <= s[j] <= hi
    ensures k < l < |Restrict(s, lo, hi)| && Restrict(s, lo, hi)[k] == s[i] && Restrict(s, lo, hi)[l] == s[j]
    decreases |s|
  {
    var t := s[..|s| - 1];
    if j < |s| - 1 {
      k, l := RestrictInOrder(t, lo, hi, i, j);
    } else {
      assert t[i] in Restrict(t, lo, hi);
      k :| 0 <= k < |Restrict(t, lo, hi)| && Restrict(t, lo, hi)[k] == s[i];
      l := |Restrict(t, lo, hi)|;
    }
  }

  lemma {:induction false} RestrictDistinct(s: seq<nat>, lo: nat, hi: nat)
    requires Distinct(s)
    ensures Distinct(Restrict(s, lo, hi))
  {
    if s != [] {
      var t := s[..|s| - 1];
      assert s[|s| - 1] !in t;
      RestrictDistinct(t, lo, hi);
    }
  }

  lemma {:induction false} RestrictTwice(s: seq<nat>, lo: nat, hi: nat, lo': nat, hi': nat)
    requires lo <= lo' && hi' <= hi
    ensures Restrict(Restrict(s, lo, hi), lo', hi') == Restrict(s, lo', hi')
  {
    if s != [] {
      var t, x := s[..|s| - 1], s[|s| - 1];
      assert s == t + [x];
      RestrictTwice(t, lo, hi, lo', hi');
      RestrictSnoc(t, x, lo, hi);
      RestrictSnoc(t, x, lo', hi');
      if lo <= x <= hi { RestrictSnoc(Restrict(t, lo, hi), x, lo', hi'); }
    }
  }

  lemma {:induction false} RestrictAll(s: seq<nat>, lo: nat, hi: nat)
    requires forall i :: 0 <= i < |s| ==> lo <= s[i] <= hi
    ensures Restrict(s, lo, hi) == s
  {
    if s != [] {
      var t := s[..|s| - 1];
      RestrictAll(t, lo, hi);
      assert s == t + [s[|s| - 1]];
    }
  }

  lemma {:induction false} RestrictFull(s: seq<nat>, lo: nat, hi: nat)
    requires |Restrict(s, lo, hi)| == |s|
    ensures Restrict(s, lo, hi) == s
  {
    if s != [] {
      RestrictFull(s[..|s| - 1], lo, hi);
    }
  }

  function SplitBucket(b: Bucket): (Bucket, Bucket)
    requires b.start <= b.end
  {
    var mid := b.Midpoint();
    (Bucket(b.start, mid, Restrict(b.nodes, b.start, mid), Restrict(b.cache, b.start, mid)),
     Bucket(mid + 1, b.end, Restrict(b.nodes, mid + 1, b.end), Restrict(b.cache, mid + 1, b.end)))
  }

  lemma SplitBucketWf(b: Bucket)
    requires WfBucket(b) && b.start < b.end
    ensures WfBucket(SplitBucket(b).0) && WfBucket(SplitBucket(b).1)
  {
    HalveBlock(b.start, b.end);
    var mid := b.Midpoint();
    RestrictDistinct(b.nodes, b.start, mid);
    RestrictDistinct(b.nodes, mid + 1, b.end);
  }

  function SplitAt(bs: seq<Bucket>, i: nat): (r: seq<Bucket>)
    requires i < |bs| && bs[i].start <= bs[i].end
    ensures |r| == |bs| + 1
    ensures forall j :: 0 <= j < i ==> r[j] == bs[j]
    ensures r[i] == SplitBucket(bs[i]).0 && r[i + 1] == SplitBucket(bs[i]).1
    ensures forall j :: i + 1 < j < |r| ==> r[j] == bs[j - 1]
  {
    ReplaceByTwo(bs, i, SplitBucket(bs[i]).0, SplitBucket(bs[i]).1)
  }

  /** Each bucket of the new table is part of one old bucket and holds, in the old order, the old nodes
      of its range, and after them the node that was added. */
  ghost predicate Refines(bs: seq<Bucket>, bs': seq<Bucket>, node: nat, added: bool) {
    forall b' :: b' in bs' ==> exists b :: b in bs && PartOf(b, b', node, added)
  }

  ghost predicate PartOf(b: Bucket, b': Bucket, node: nat, added: bool) {
    && b.start <= b'.start <= b'.end <= b.end
    && b'.nodes == Restrict(b.nodes, b'.start, b'.end) + (if added && b'.InRange(node) then [node] else [])
  }

  lemma ReplacedPartition(bs: seq<Bucket>, i: nat, bs': seq<Bucket>)
    requires Partition(bs) && i < |bs| && |bs'| == |bs| + 1
    requires forall j :: 0 <= j < i ==> bs'[j] == bs[j]
    requires forall j :: i + 1 < j < |bs'| ==> bs'[j] == bs[j - 1]
    requires bs'[i].start == bs[i].start && bs'[i + 1].start == bs'[i].end + 1 && bs'[i + 1].end == bs[i].end
    requires Block(bs'[i].start, bs'[i].end) && Block(bs'[i + 1].start, bs'[i + 1].end)
    ensures Partition(bs')
  {
    forall j, k | 0 <= j < k < |bs'| && k == j + 1 ensures bs'[k].start == bs'[j].end + 1 {
      if j < i {
        assert bs[k].start == bs[j].end + 1;
      } else if j > i {
        assert bs[j].start == bs[j - 1].end + 1;
      }
    }
  }

  lemma SplitAtPartition(bs: seq<Bucket>, i: nat)
    requires Partition(bs) && i < |bs| && bs[i].start < bs[i].end
    ensures Partition(SplitAt(bs, i))
  {
    HalveBlock(bs[i].start, bs[i].end);
    var bs' := SplitAt(bs, i);
    ReplacedPartition(bs, i, bs');
  }

  lemma SplitAtBuckets(bs: seq<Bucket>, i: nat, own: nat)
    requires forall b :: b in bs ==> WfBucket(b) && own !in b.nodes
    requires i < |bs| && bs[i].start < bs[i].end
    ensures forall b :: b in SplitAt(bs, i) ==> WfBucket(b) && own !in b.nodes
  {
    assert bs[i] in bs;
    SplitBucketWf(bs[i]);
    forall b | b in SplitAt(bs, i) ensures WfBucket(b) && own !in b.nodes {
      if b !in bs {
        assert b == SplitBucket(bs[i]).0 || b == SplitBucket(bs[i]).1;
      }
    }
  }

  lemma SplitAtWf(bs: seq<Bucket>, i: nat, own: nat)
    requires WfTable(bs, own) && i < |bs| && bs[i].start < bs[i].end
    ensures WfTable(SplitAt(bs, i), own)
  {
    assert Partition(SplitAt(bs, i)) by {
      SplitAtPartition(bs, i);
    }
    SplitAtBuckets(bs, i, own);
  }

  lemma PartOfItself(b: Bucket, node: nat)
    requires WfBucket(b)
    ensures PartOf(b, b, node, false)
  {
    assert forall i :: 0 <= i < |b.nodes| ==> b.nodes[i] in b.nodes;
    RestrictAll(b.nodes, b.start, b.end);
  }

  lemma SplitAtRefines(bs: seq<Bucket>, i: nat, node: nat)
    requires (forall b :: b in bs ==> WfBucket(b)) && i < |bs| && bs[i].start < bs[i].end
    ensures Refines(bs, SplitAt(bs, i), node, false)
  {
    forall b' | b' in SplitAt(bs, i) ensures exists b :: b in bs && PartOf(b, b', node, false) {
      if b' in bs {
        PartOfItself(b', node);
      } else {
        assert bs[i] in bs;
        HalveBlock(bs[i].start, bs[i].end);
        assert PartOf(bs[i], b', node, false);
      }
    }
  }

  lemma PartOfTransitive(b: Bucket, b': Bucket, c: Bucket, node: nat, added: bool)
    requires PartOf(b, b', node, false) && PartOf(b', c, node, added)
    ensures PartOf(b, c, node, added)
  {
    assert b'.nodes == Restrict(b.nodes, b'.start, b'.end);
    RestrictTwice(b.nodes, b'.start, b'.end, c.start, c.end);
  }

  lemma RefinesTransitive(bs: seq<Bucket>, bs': seq<Bucket>, bs'': seq<Bucket>, node: nat, added: bool)
    requires Refines(bs, bs', node, false) && Refines(bs', bs'', node, added)
    ensures Refines(bs, bs'', node, added)
  {
    forall c | c in bs'' ensures exists b :: b in bs && PartOf(b, c, node, added) {
      var b' :| b' in bs' && PartOf(b', c, node, added);
      var b :| b in bs && PartOf(b, b', node, false);
      PartOfTransitive(b, b', c, node, added);
    }
  }

  ghost function Interval(lo: nat, hi: nat): (r: set<nat>)
    requires lo <= hi
    ensures forall x :: x in r <==> lo <= x <= hi
    ensures |r| == hi + 1 - lo
    decreases hi
  {
    if lo == hi then {lo} else {hi} + Interval(lo, hi - 1)
  }

  lemma DistinctFit(s: seq<nat>, lo: nat, hi: nat)
    requires Distinct(s) && lo <= hi && forall x :: x in s ==> lo <= x <= hi
    ensures |s| <= hi + 1 - lo
  {
    DistinctCard(s);
    SubsetCard((set x | x in s), Interval(lo, hi));
  }

  /** A full bucket that could still take another node of its range has at least 32 ids, so it can be split. */
  lemma FullBucketIsLarge(b: Bucket, node: nat)
    requires WfBucket(b) && |b.nodes| == BUCKET_SIZE && b.InRange(node) && node !in b.nodes
    ensures Level(b.start, b.end) >= 5
  {
    var n := Level(b.start, b.end);
    assert BUCKET_SIZE < Pow2(n) by {
      DistinctFit(b.nodes + [node], b.start, b.end);
      BlockSize(b.start, b.end);
    }
    assert Pow2(4) == 16;
    if n < 4 { Pow2Monotone(n, 4); }
  }

  /** All ids agree on their i leading bits. */
  predicate SamePrefix(ids: seq<nat>, i: nat)
    requires i <= ID_SIZE
  {
    forall j :: 0 <= j < |ids| ==> Shr(ids[j], ID_SIZE - i) == Shr(ids[0], ID_SIZE - i)
  }

  lemma SamePrefixShorter(ids: seq<nat>, i: nat, k: nat)
    requires k <= i <= ID_SIZE && SamePrefix(ids, i)
    ensures SamePrefix(ids, k)
  {
    forall j | 0 <= j < |ids| ensures Shr(ids[j], ID_SIZE - k) == Shr(ids[0], ID_SIZE - k) {
      ShrShr(ids[j], ID_SIZE - i, i - k);
      ShrShr(ids[0], ID_SIZE - i, i - k);
    }
  }

  /** d is the number of leading bits all ids share, counted as the source counts it. */
  ghost predicate IsDepth(ids: seq<nat>, d: nat) {
    if |ids| < 2 then d == ID_SIZE
    else d < ID_SIZE && SamePrefix(ids, d) && !SamePrefix(ids, d + 1)
  }

  lemma DepthUnique(ids: seq<nat>, d: nat, e: nat)
    requires IsDepth(ids, d) && IsDepth(ids, e)
    ensures d == e
  {
    if |ids| >= 2 && d < e { SamePrefixShorter(ids, e, d + 1); }
    if |ids| >= 2 && e < d { SamePrefixShorter(ids, d, e + 1); }
  }

  /** Some aligned block holds all of ids but not own. */
  ghost predicate Apart(ids: seq<nat>, own: nat) {
    exists i :: 0 <= i <= ID_SIZE && SamePrefix(ids, i) && !SamePrefix(ids + [own], i)
  }

  /** When a table keeps a new node out: its bucket is full, the bucket's nodes branch first at a
      multiple of BITS_PER_HOP bits, and our own id lies outside some aligned block around them all. */
  ghost predicate Refuses(b: Bucket, own: nat, node: nat) {
    && |b.nodes| == BUCKET_SIZE
    && node !in b.nodes
    && (exists d: nat :: IsDepth(b.nodes, d) && d % BITS_PER_HOP == 0)
    && Apart(b.nodes + [node], own)
  }

  lemma LevelBound(start: nat, end: nat)
    requires Block(start, end) && end <= MaxId()
    ensures Level(start, end) <= ID_SIZE
  {
    BlockSize(start, end);
    if Level(start, end) > ID_SIZE { Pow2Monotone(ID_SIZE, Level(start, end)); }
  }

  lemma InBlockSamePrefix(ids: seq<nat>, start: nat, end: nat, i: nat)
    requires Block(start, end) && i + Level(start, end) <= ID_SIZE
    requires forall x :: x in ids ==> start <= x <= end
    ensures SamePrefix(ids, i)
  {
    var n := Level(start, end);
    forall j | 0 <= j < |ids| ensures Shr(ids[j], ID_SIZE - i) == Shr(start, ID_SIZE - i) {
      assert ids[j] in ids;
      BlockIsPrefix(start, end, ids[j]);
      ShrShr(ids[j], n, ID_SIZE - i - n);
      ShrShr(start, n, ID_SIZE - i - n);
    }
  }

  /** Ids of both halves of a block share no more bits than the block itself. */
  lemma HalvesBranch(ids: seq<nat>, b: Bucket, x: nat, y: nat, i: nat)
    requires Block(b.start, b.end) && b.start < b.end && b.end <= MaxId()
    requires x in ids && y in ids && b.start <= x <= b.Midpoint() < y <= b.end
    requires i <= ID_SIZE && SamePrefix(ids, i)
    ensures i + Level(b.start, b.end) <= ID_SIZE
  {
    var n := Level(b.start, b.end);
    HalveBlock(b.start, b.end);
    BlockIsPrefix(b.start, b.Midpoint(), x);
    BlockIsPrefix(b.start, b.Midpoint(), y);
    if i + n > ID_SIZE {
      ShrShr(x, ID_SIZE - i, n - 1 - (ID_SIZE - i));
      ShrShr(y, ID_SIZE - i, n - 1 - (ID_SIZE - i));
    }
  }

  /** Splitting where the source splits does not change whether a node is refused. */
  lemma RefusalAfterSplit(b: Bucket, half: Bucket, own: nat, node: nat, d: nat)
    requires WfBucket(b) && b.end <= MaxId() && |b.nodes| == BUCKET_SIZE
    requires b.InRange(node) && node !in b.nodes && b.start < b.end
    requires half == SplitBucket(b).0 || half == SplitBucket(b).1
    requires half.InRange(node)
    requires IsDepth(b.nodes, d) && (b.InRange(own) || d % BITS_PER_HOP != 0)
    ensures Refuses(b, own, node) <==> Refuses(half, own, node)
  {
    if |half.nodes| == BUCKET_SIZE {
      RestrictFull(b.nodes, half.start, half.end);
      assert half.nodes == b.nodes;
    } else {
      var other := NotRestricted(b.nodes, half.start, half.end);
      BranchingTakes(b, half, own, node, other, d);
    }
  }

  /** A full bucket to be split whose nodes are not all on the side of the new one will take it. */
  lemma BranchingTakes(b: Bucket, half: Bucket, own: nat, node: nat, other: nat, d: nat)
    requires WfBucket(b) && b.end <= MaxId() && b.InRange(node) && node !in b.nodes && b.start < b.end
    requires half == SplitBucket(b).0 || half == SplitBucket(b).1
    requires half.InRange(node) && other in b.nodes && !half.InRange(other)
    requires IsDepth(b.nodes, d) && (b.InRange(own) || d % BITS_PER_HOP != 0)
    ensures !Refuses(b, own, node)
  {
    if Refuses(b, own, node) {
      var e: nat :| IsDepth(b.nodes, e) && e % BITS_PER_HOP == 0;
      DepthUnique(b.nodes, d, e);
      var ids := b.nodes + [node];
      var i :| 0 <= i <= ID_SIZE && SamePrefix(ids, i) && !SamePrefix(ids + [own], i);
      assert other in ids && node in ids;
      LevelBound(b.start, b.end);
      if node <= b.Midpoint() { HalvesBranch(ids, b, node, other, i); }
      else { HalvesBranch(ids, b, other, node, i); }
      InBlockSamePrefix(ids + [own], b.start, b.end, i);
    }
  }

  lemma NotRestricted(s: seq<nat>, lo: nat, hi: nat) returns (x: nat)
    requires Restrict(s, lo, hi) != s
    ensures x in s && !(lo <= x <= hi)
  {
    if forall i :: 0 <= i < |s| ==> lo <= s[i] <= hi { RestrictAll(s, lo, hi); }
    var i :| 0 <= i < |s| && !(lo <= s[i] <= hi);
    x := s[i];
  }

  /** A full bucket the source does not split is one that refuses the node. */
  lemma RefusalWithoutSplit(b: Bucket, own: nat, node: nat, d: nat)
    requires WfBucket(b) && b.end <= MaxId() && |b.nodes| == BUCKET_SIZE
    requires b.InRange(node) && node !in b.nodes
    requires IsDepth(b.nodes, d) && !b.InRange(own) && d % BITS_PER_HOP == 0
    ensures Refuses(b, own, node)
  {
    var ids, n := b.nodes + [node], Level(b.start, b.end);
    LevelBound(b.start, b.end);
    InBlockSamePrefix(ids, b.start, b.end, ID_SIZE - n);
    BlockIsPrefix(b.start, b.end, own);
    assert ids[0] in b.nodes;
    BlockIsPrefix(b.start, b.end, ids[0]);
    var all := ids + [own];
    assert all[|ids|] == own && all[0] == ids[0];
    assert !SamePrefix(all, ID_SIZE - n);
  }

  /** Distinct ids never agree on all their bits. */
  lemma DistinctBranch(ids: seq<nat>)
    requires |ids| >= 2 && Distinct(ids)
    ensures !SamePrefix(ids, ID_SIZE)
  {
    assert Shr(ids[1], 0) == ids[1] && Shr(ids[0], 0) == ids[0];
  }
}
