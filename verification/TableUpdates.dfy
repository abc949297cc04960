/** What one update of a routing table keeps, on table values. */
module TableUpdates {
  import opened Buckets
  import opened Sequences
  import opened Splitting

  lemma InitialTableWf(own: nat)
    ensures WfTable([Bucket(0, MaxId(), [], [])], own)
  {
    WholeSpaceIsBlock(ID_SIZE);
    assert WfBucket(Bucket(0, MaxId(), [], []));
  }

  lemma UpdatePartition(bs: seq<Bucket>, i: nat, b': Bucket)
    requires Partition(bs) && i < |bs| && b'.start == bs[i].start && b'.end == bs[i].end
    ensures Partition(bs[i := b'])
  {
    var bs' := bs[i := b'];
    forall j, k | 0 <= j < k < |bs'| && k == j + 1 ensures bs'[k].start == bs'[j].end + 1 {
      assert bs[k].start == bs[j].end + 1;
    }
  }

  lemma UpdateWf(bs: seq<Bucket>, i: nat, b': Bucket, own: nat)
    requires WfTable(bs, own) && i < |bs|
    requires b'.start == bs[i].start && b'.end == bs[i].end && WfBucket(b') && own !in b'.nodes
    ensures WfTable(bs[i := b'], own)
  {
    UpdatePartition(bs, i, b');
    var bs' := bs[i := b'];
    forall b | b in bs' ensures WfBucket(b) && own !in b.nodes {
      assert b == b' || b in bs;
    }
  }

  lemma OneCovers(bs: seq<Bucket>, b: Bucket, c: Bucket, id: nat)
    requires Partition(bs) && b in bs && c in bs && b.InRange(id) && c.InRange(id) && id <= MaxId()
    ensures b == c
  {
    var i :| 0 <= i < |bs| && bs[i] == b;
    var j :| 0 <= j < |bs| && bs[j] == c;
    assert i == Covering(bs, id) == j;
  }

  lemma EndsWithin(bs: seq<Bucket>, b: Bucket)
    requires Partition(bs) && b in bs
    ensures b.end <= MaxId()
  {
    var i :| 0 <= i < |bs| && bs[i] == b;
    if i < |bs| - 1 { Ordered(bs, i, |bs| - 1); }
  }

  lemma MembersWithin(bs: seq<Bucket>, own: nat, n: nat)
    requires WfTable(bs, own) && n in Members(bs)
    ensures n <= MaxId() && n in bs[Covering(bs, n)].nodes && n != own
  {
    var b :| b in bs && n in b.nodes;
    EndsWithin(bs, b);
    OneCovers(bs, b, bs[Covering(bs, n)], n);
  }

  lemma CacheRefines(bs: seq<Bucket>, i: nat, cache: seq<nat>, node: nat)
    requires i < |bs| && forall b :: b in bs ==> WfBucket(b)
    ensures Refines(bs, bs[i := bs[i].(cache := cache)], node, false)
  {
    var bs' := bs[i := bs[i].(cache := cache)];
    forall b' | b' in bs' ensures exists b :: b in bs && PartOf(b, b', node, false) {
      var b := if b' in bs then b' else bs[i];
      PartOfItself(b, node);
      assert b in bs && PartOf(b, b', node, false);
    }
  }

  lemma AddedRefines(bs: seq<Bucket>, i: nat, own: nat, node: nat)
    requires WfTable(bs, own) && i < |bs| && bs[i].InRange(node) && node <= MaxId()
    ensures Refines(bs, bs[i := bs[i].(nodes := bs[i].nodes + [node])], node, true)
  {
    var grown := bs[i].(nodes := bs[i].nodes + [node]);
    var bs' := bs[i := grown];
    var covering := Covering(bs, node);
    forall j | 0 <= j < |bs'| ensures PartOf(bs[j], bs'[j], node, true) {
      assert bs[j] in bs;
      PartOfItself(bs[j], node);
      assert i == covering && (j != i ==> !bs[j].InRange(node));
    }
    forall b' | b' in bs' ensures exists b :: b in bs && PartOf(b, b', node, true) {
      var j :| 0 <= j < |bs'| && bs'[j] == b';
      assert bs[j] in bs && PartOf(bs[j], b', node, true);
    }
  }

  lemma RefinesKeeps(bs: seq<Bucket>, bs': seq<Bucket>, c: Bucket, n: nat, node: nat, added: bool)
    requires Partition(bs) && Partition(bs') && Refines(bs, bs', node, added)
    requires c in bs && n in c.nodes && c.InRange(n)
    ensures n in Members(bs')
  {
    EndsWithin(bs, c);
    var b' := bs'[Covering(bs', n)];
    assert b' in bs';
    var b :| b in bs && PartOf(b, b', node, added);
    OneCovers(bs, b, c, n);
    assert n in b'.nodes;
  }

  lemma RefinesBrings(bs: seq<Bucket>, bs': seq<Bucket>, n: nat, node: nat, added: bool)
    requires Refines(bs, bs', node, added) && n in Members(bs')
    ensures n in Members(bs) || (added && n == node)
  {
    var b' :| b' in bs' && n in b'.nodes;
    var b :| b in bs && PartOf(b, b', node, added);
    if n != node || !added { assert n in b.nodes; }
  }

  lemma RefinesAdds(bs: seq<Bucket>, bs': seq<Bucket>, node: nat)
    requires Partition(bs') && Refines(bs, bs', node, true) && node <= MaxId()
    ensures node in Members(bs')
  {
    var b' := bs'[Covering(bs', node)];
    assert b' in bs';
    var b :| b in bs && PartOf(b, b', node, true);
    assert node in b'.nodes;
  }

  /** A refined table has the same nodes, and the added one. */
  lemma RefinesMembers(bs: seq<Bucket>, bs': seq<Bucket>, own: nat, node: nat, added: bool)
    requires WfTable(bs, own) && Partition(bs') && Refines(bs, bs', node, added) && node <= MaxId()
    ensures Members(bs') == Members(bs) + (if added then {node} else {})
  {
    forall n | n in Members(bs') ensures n in Members(bs) || (added && n == node) {
      RefinesBrings(bs, bs', n, node, added);
    }
    forall n | n in Members(bs) ensures n in Members(bs') {
      var c :| c in bs && n in c.nodes;
      RefinesKeeps(bs, bs', c, n, node, added);
    }
    if added { RefinesAdds(bs, bs', node); }
  }

  lemma RemovedMembers(bs: seq<Bucket>, bs': seq<Bucket>, node: nat)
    requires |bs| == |bs'|
    requires forall j :: 0 <= j < |bs| ==> node !in bs'[j].nodes
    requires forall j, n :: 0 <= j < |bs| && n != node ==> (n in bs[j].nodes <==> n in bs'[j].nodes)
    ensures Members(bs') == Members(bs) - {node}
  {
    forall n | n in Members(bs') ensures n in Members(bs) && n != node {
      var c :| c in bs' && n in c.nodes;
      var j :| 0 <= j < |bs'| && bs'[j] == c;
      assert bs[j] in bs && n in bs[j].nodes;
    }
    forall n | n in Members(bs) && n != node ensures n in Members(bs') {
      var c :| c in bs && n in c.nodes;
      var j :| 0 <= j < |bs| && bs[j] == c;
      assert bs'[j] in bs' && n in bs'[j].nodes;
    }
  }

  lemma RemovedWf(bs: seq<Bucket>, i: nat, own: nat, node: nat)
    requires WfTable(bs, own) && node <= MaxId() && i == Covering(bs, node)
    ensures var bs' := bs[i := bs[i].(nodes := RemoveFirst(bs[i].nodes, node))];
            WfTable(bs', own) && Members(bs') == Members(bs) - {node}
  {
    var b' := bs[i].(nodes := RemoveFirst(bs[i].nodes, node));
    assert bs[i] in bs;
    RemoveFirstDistinct(bs[i].nodes, node);
    UpdateWf(bs, i, b', own);
    var bs' := bs[i := b'];
    forall j | 0 <= j < |bs| ensures node !in bs'[j].nodes {
      assert bs[j] in bs;
    }
    RemovedMembers(bs, bs', node);
  }

  /** The table after a full bucket took a node into its cache and was split. */
  function CacheAndSplit(bs: seq<Bucket>, i: nat, node: nat): seq<Bucket>
    requires i < |bs| && bs[i].start <= bs[i].end
  {
    SplitAt(bs[i := bs[i].(cache := bs[i].cache + [node])], i)
  }

  lemma CacheAndSplitWf(bs: seq<Bucket>, i: nat, own: nat, node: nat)
    requires WfTable(bs, own) && i < |bs| && bs[i].InRange(node) && bs[i].start < bs[i].end
    ensures WfTable(CacheAndSplit(bs, i, node), own)
    ensures Refines(bs, CacheAndSplit(bs, i, node), node, false)
  {
    var b' := bs[i].(cache := bs[i].cache + [node]);
    assert bs[i] in bs;
    UpdateWf(bs, i, b', own);
    SplitAtWf(bs[i := b'], i, own);
    CacheRefines(bs, i, b'.cache, node);
    SplitAtRefines(bs[i := b'], i, node);
    RefinesTransitive(bs, bs[i := b'], CacheAndSplit(bs, i, node), node, false);
  }

  lemma CoversAt(bs: seq<Bucket>, i: nat, node: nat)
    requires Partition(bs) && i < |bs| && bs[i].InRange(node) && node <= MaxId()
    ensures Covering(bs, node) == i
  {
  }

  lemma HalfLevel(b: Bucket, half: Bucket)
    requires Block(b.start, b.end) && b.start < b.end
    requires half == SplitBucket(b).0 || half == SplitBucket(b).1
    ensures Level(half.start, half.end) == Level(b.start, b.end) - 1
  {
    HalveBlock(b.start, b.end);
  }

  lemma HalfCovers(bs: seq<Bucket>, i: nat, node: nat) returns (half: Bucket)
    requires i < |bs| && bs[i].InRange(node) && bs[i].start < bs[i].end
    requires Partition(SplitAt(bs, i)) && node <= MaxId()
    ensures half == SplitAt(bs, i)[Covering(SplitAt(bs, i), node)] && half.InRange(node)
    ensures half == SplitBucket(bs[i]).0 || half == SplitBucket(bs[i]).1
  {
    var c := if node <= bs[i].Midpoint() then i else i + 1;
    half := SplitAt(bs, i)[c];
    CoversAt(SplitAt(bs, i), c, node);
  }

  /** After the split one half covers the node; it is half as large and refuses the node exactly if
      the whole bucket did, with the same candidate for eviction. */
  lemma CacheAndSplitCovers(bs: seq<Bucket>, i: nat, own: nat, node: nat, d: nat)
    requires WfTable(bs, own) && i < |bs| && bs[i].InRange(node) && bs[i].start < bs[i].end
    requires |bs[i].nodes| == BUCKET_SIZE && node !in bs[i].nodes && node <= MaxId()
    requires IsDepth(bs[i].nodes, d) && (bs[i].InRange(own) || d % BITS_PER_HOP != 0)
    requires Partition(CacheAndSplit(bs, i, node))
    ensures var bs' := CacheAndSplit(bs, i, node);
            var half := bs'[Covering(bs', node)];
            && node !in half.nodes
            && Level(half.start, half.end) == Level(bs[i].start, bs[i].end) - 1
            && (Refuses(bs[i], own, node) <==> Refuses(half, own, node))
            && (Refuses(half, own, node) ==> half.nodes == bs[i].nodes)
  {
    var b := bs[i].(cache := bs[i].cache + [node]);
    assert bs[i] in bs;
    EndsWithin(bs, bs[i]);
    assert WfBucket(b);
    var half := HalfCovers(bs[i := b], i, node);
    HalfLevel(b, half);
    RefusalAfterSplit(b, half, own, node, d);
    if Refuses(half, own, node) {
      RestrictFull(b.nodes, half.start, half.end);
    }
  }
}
