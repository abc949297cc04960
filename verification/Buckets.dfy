/** The value of a Kademlia routing table: an ordered list of k-buckets that partitions the
    id space into aligned power-of-two blocks. A node stands for its id: the source compares
    nodes by public key, and keccak is taken to map different keys to different ids. */
module Buckets {
  import opened Bits
  import opened Sequences

  const BUCKET_SIZE: nat := 16
  const BITS_PER_HOP: nat := 8
  const ID_SIZE: nat := 256

  function MaxId(): nat { Pow2(ID_SIZE) - 1 }

  /** nodes runs from the least to the most recently seen. */
  datatype Bucket = Bucket(start: nat, end: nat, nodes: seq<nat>, cache: seq<nat>) {
    predicate InRange(id: nat) { start <= id <= end }

    function Midpoint(): nat {
      if start <= end then start + (end - start) / 2 else start
    }
  }

  /** [start, end] is an aligned block: its ids are those with one common binary prefix. */
  predicate Block(start: nat, end: nat) {
    start == end || (start < end && start % 2 == 0 && end % 2 == 1 && Block(start / 2, end / 2))
  }

  /** The number of low bits in which the ids of a block may differ. */
  function Level(start: nat, end: nat): nat {
    if start >= end then 0 else 1 + Level(start / 2, end / 2)
  }

  lemma {:induction false} BlockSize(start: nat, end: nat)
    requires Block(start, end)
    ensures end + 1 == start + Pow2(Level(start, end))
  {
    if start < end { BlockSize(start / 2, end / 2); }
  }

  /** The whole id space is one block. */
  lemma {:induction false} WholeSpaceIsBlock(n: nat)
    ensures Block(0, Pow2(n) - 1) && Level(0, Pow2(n) - 1) == n
  {
    if n > 0 {
      WholeSpaceIsBlock(n - 1);
      assert (Pow2(n) - 1) / 2 == Pow2(n - 1) - 1;
    }
  }

  lemma {:induction false} BlockIsPrefix(start: nat, end: nat, x: nat)
    requires Block(start, end)
    ensures start <= x <= end <==> Shr(x, Level(start, end)) == Shr(start, Level(start, end))
  {
    if start < end { BlockIsPrefix(start / 2, end / 2, x / 2); }
  }

  lemma {:induction false} HalveBlockAt(start: nat, mid: nat, end: nat)
    requires Block(start, end) && start < end && 2 * mid + 1 == start + end
    ensures start <= mid < end
    ensures Block(start, mid) && Level(start, mid) == Level(start, end) - 1
    ensures Block(mid + 1, end) && Level(mid + 1, end) == Level(start, end) - 1
  {
    if start / 2 < end / 2 {
      HalveBlockAt(start / 2, mid / 2, end / 2);
    }
  }

  lemma HalveBlock(start: nat, end: nat)
    requires Block(start, end) && start < end
    ensures var mid := start + (end - start) / 2;
            && start <= mid < end
            && Block(start, mid) && Level(start, mid) == Level(start, end) - 1
            && Block(mid + 1, end) && Level(mid + 1, end) == Level(start, end) - 1
  {
    HalveBlockAt(start, start + (end - start) / 2, end);
  }

  /** Disjoint blocks are totally ordered by distance to any target: comparing one id of each decides. */
  lemma BlocksOrderedByDistance(b: Bucket, c: Bucket, x: nat, x': nat, y: nat, y': nat, t: nat)
    requires Block(b.start, b.end) && Block(c.start, c.end)
    requires forall id :: !(b.InRange(id) && c.InRange(id))
    requires b.InRange(x) && b.InRange(x') && c.InRange(y) && c.InRange(y')
    ensures Xor(x, t) < Xor(y, t) <==> Xor(x', t) < Xor(y', t)
  {
    var m, n := Level(b.start, b.end), Level(c.start, c.end);
    BlockIsPrefix(b.start, b.end, x); BlockIsPrefix(b.start, b.end, x'); BlockIsPrefix(b.start, b.end, y);
    BlockIsPrefix(c.start, c.end, y); BlockIsPrefix(c.start, c.end, y'); BlockIsPrefix(c.start, c.end, x);
    if m <= n {
      ShrShr(x, m, n - m); ShrShr(x', m, n - m);
      DistanceOrderAbove(x, x', y, y', t, n);
    } else {
      ShrShr(y, n, m - n); ShrShr(y', n, m - n);
      DistanceOrderAbove(x, x', y, y', t, m);
    }
  }

  ghost predicate WfBucket(b: Bucket) {
    && Block(b.start, b.end)
    && |b.nodes| <= BUCKET_SIZE
    && Distinct(b.nodes)
    && (forall n :: n in b.nodes ==> b.InRange(n))
    && (forall n :: n in b.cache ==> b.InRange(n))
  }

  /** The buckets are ordered, leave no gap, and cover the whole id space. */
  ghost predicate Partition(bs: seq<Bucket>) {
    && |bs| > 0
    && bs[0].start == 0
    && bs[|bs| - 1].end == MaxId()
    && (forall i :: 0 <= i < |bs| ==> Block(bs[i].start, bs[i].end))
    && (forall i, j :: 0 <= i < j < |bs| && j == i + 1 ==> bs[j].start == bs[i].end + 1)
  }

  ghost predicate WfTable(bs: seq<Bucket>, own: nat) {
    && Partition(bs)
    && forall b :: b in bs ==> WfBucket(b) && own !in b.nodes
  }

  ghost function Members(bs: seq<Bucket>): set<nat> {
    set b, n | b in bs && n in b.nodes :: n
  }

  lemma {:induction false} Ordered(bs: seq<Bucket>, i: nat, j: nat)
    requires Partition(bs) && i < j < |bs|
    ensures bs[i].end < bs[j].start
    decreases j
  {
    if i < j - 1 { Ordered(bs, i, j - 1); }
    assert bs[j - 1].end + 1 == bs[j].start;
  }

  lemma {:induction false} CoveredFrom(bs: seq<Bucket>, i: nat, id: nat)
    requires Partition(bs) && i < |bs| && bs[i].start <= id <= MaxId()
    ensures exists j :: i <= j < |bs| && bs[j].InRange(id)
    decreases |bs| - i
  {
    if id > bs[i].end {
      assert i + 1 < |bs| ==> bs[i + 1].start == bs[i].end + 1;
      CoveredFrom(bs, i + 1, id);
    }
  }

  /** The one bucket that covers an id. */
  ghost function Covering(bs: seq<Bucket>, id: nat): (i: nat)
    requires Partition(bs) && id <= MaxId()
    ensures i < |bs| && bs[i].InRange(id)
    ensures forall j :: 0 <= j < |bs| && bs[j].InRange(id) ==> j == i
  {
    CoveredFrom(bs, 0, id);
    var i :| 0 <= i < |bs| && bs[i].InRange(id);
    assert forall j :: 0 <= j < |bs| && bs[j].InRange(id) ==> j == i by {
      forall j | 0 <= j < |bs| && bs[j].InRange(id) ensures j == i {
        if j < i { Ordered(bs, j, i); } else if i < j { Ordered(bs, i, j); }
      }
    }
    i
  }
}
