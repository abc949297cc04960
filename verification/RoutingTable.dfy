/** hp2p/kademlia.py: k-buckets and the routing table, updated in place. */
module RoutingTables {
  import opened Bits
  import opened Neighbours
  import opened Buckets
  import opened Options
  import opened Sequences
  import opened Splitting
  import opened TableUpdates

  class KBucket {
    const start: nat
    const end: nat
    var nodes: seq<nat>
    var replacementCache: seq<nat>

    constructor (start: nat, end: nat)
      ensures this.start == start && this.end == end
      ensures nodes == [] && replacementCache == []
    {
      this.start, this.end := start, end;
      nodes, replacementCache := [], [];
    }

    function View(): Bucket
      reads this
    {
      Bucket(start, end, nodes, replacementCache)
    }

    predicate InRange(id: nat) { start <= id <= end }

    /** The least recently seen node is offered for eviction when the bucket is full. */
    method Add(node: nat) returns (candidate: Option<nat>)
      modifies this
      ensures node in old(nodes) ==>
                nodes == RemoveFirst(old(nodes), node) + [node] && replacementCache == old(replacementCache) && candidate == None
      ensures node !in old(nodes) && |old(nodes)| < BUCKET_SIZE ==>
                nodes == old(nodes) + [node] && replacementCache == old(replacementCache) && candidate == None
      ensures node !in old(nodes) && |old(nodes)| >= BUCKET_SIZE ==>
                && nodes == old(nodes) && replacementCache == old(replacementCache) + [node]
                && candidate == Some(old(nodes)[0])
    {
      if node in nodes {
        nodes := RemoveFirst(nodes, node);
        nodes := nodes + [node];
      } else if |nodes| < BUCKET_SIZE {
        nodes := nodes + [node];
      } else {
        replacementCache := replacementCache + [node];
        return Some(nodes[0]);
      }
      return None;
    }

    method RemoveNode(node: nat)
      modifies this
      ensures nodes == RemoveFirst(old(nodes), node) && replacementCache == old(replacementCache)
    {
      if node !in nodes { return; }
      nodes := RemoveFirst(nodes, node);
    }

    method Split() returns (lower: KBucket, upper: KBucket)
      requires WfBucket(View())
      ensures fresh(lower) && fresh(upper) && lower != upper
      ensures (lower.View(), upper.View()) == SplitBucket(View())
    {
      var splitId := View().Midpoint();
      lower := new KBucket(start, splitId);
      upper := new KBucket(splitId + 1, end);
      ShareNodes(lower, upper);
      ShareCache(lower, upper);
    }

    /** Adds a node that is not there to a bucket with room. */
    method AddNew(node: nat)
      requires node !in nodes && |nodes| < BUCKET_SIZE
      modifies this
      ensures nodes == old(nodes) + [node] && replacementCache == old(replacementCache)
    {
      var _ := Add(node);
    }

    method ShareNodes(lower: KBucket, upper: KBucket)
      requires |nodes| <= BUCKET_SIZE && Distinct(nodes) && forall n :: n in nodes ==> InRange(n)
      requires lower != upper && lower != this && upper != this && lower.nodes == upper.nodes == []
      requires lower.start == start && upper.start == lower.end + 1 && upper.end == end
      modifies lower, upper
      ensures lower.nodes == Restrict(nodes, lower.start, lower.end) && lower.replacementCache == old(lower.replacementCache)
      ensures upper.nodes == Restrict(nodes, upper.start, upper.end) && upper.replacementCache == old(upper.replacementCache)
    {
      for i := 0 to |nodes|
        invariant lower.nodes == Restrict(nodes[..i], lower.start, lower.end)
        invariant upper.nodes == Restrict(nodes[..i], upper.start, upper.end)
        invariant lower.replacementCache == old(lower.replacementCache)
        invariant upper.replacementCache == old(upper.replacementCache)
      {
        RestrictStep(nodes, i, lower.start, lower.end);
        RestrictStep(nodes, i, upper.start, upper.end);
        assert InRange(nodes[i]);
        if nodes[i] <= lower.end { lower.AddNew(nodes[i]); } else { upper.AddNew(nodes[i]); }
      }
      assert nodes[..|nodes|] == nodes;
    }

    method ShareCache(lower: KBucket, upper: KBucket)
      requires forall n :: n in replacementCache ==> InRange(n)
      requires lower != upper && lower != this && upper != this
      requires lower.replacementCache == upper.replacementCache == []
      requires lower.start == start && upper.start == lower.end + 1 && upper.end == end
      modifies lower`replacementCache, upper`replacementCache
      ensures lower.replacementCache == Restrict(replacementCache, lower.start, lower.end)
      ensures upper.replacementCache == Restrict(replacementCache, upper.start, upper.end)
    {
      for i := 0 to |replacementCache|
        invariant lower.replacementCache == Restrict(replacementCache[..i], lower.start, lower.end)
        invariant upper.replacementCache == Restrict(replacementCache[..i], upper.start, upper.end)
      {
        var node := replacementCache[i];
        assert node in replacementCache && replacementCache[..i + 1] == replacementCache[..i] + [node];
        RestrictSnoc(replacementCache[..i], node, lower.start, lower.end);
        RestrictSnoc(replacementCache[..i], node, upper.start, upper.end);
        var bucket := if node <= lower.end then lower else upper;
        bucket.replacementCache := bucket.replacementCache + [node];
      }
      assert replacementCache[..|replacementCache|] == replacementCache;
    }
  }

  /** Python's bisect.bisect_left on a non-decreasing list. */
  method BisectLeft(a: seq<nat>, x: nat) returns (pos: nat)
    requires forall i, j :: 0 <= i < j < |a| ==> a[i] <= a[j]
    ensures pos <= |a|
    ensures forall i :: 0 <= i < pos ==> a[i] < x
    ensures forall i :: pos <= i < |a| ==> x <= a[i]
  {
    var lo, hi := 0, |a|;
    while lo < hi
      invariant 0 <= lo <= hi <= |a|
      invariant forall i :: 0 <= i < lo ==> a[i] < x
      invariant forall i :: hi <= i < |a| ==> x <= a[i]
    {
      var mid := (lo + hi) / 2;
      if a[mid] < x { lo := mid + 1; } else { hi := mid; }
    }
    pos := lo;
  }

  /** The index of the bucket for an id; None is the source's ValueError. */
  method BinaryGetBucketForNode(buckets: seq<KBucket>, id: nat) returns (r: Option<nat>)
    requires forall i :: 0 <= i < |buckets| ==> buckets[i].start <= buckets[i].end
    requires forall i, j :: 0 <= i < j < |buckets| ==> buckets[i].end < buckets[j].start
    ensures r.Some? ==> r.value < |buckets| && buckets[r.value].InRange(id)
    ensures r.None? ==> forall i :: 0 <= i < |buckets| ==> !buckets[i].InRange(id)
  {
    var ends := seq(|buckets|, i requires 0 <= i < |buckets| => buckets[i].end);
    var position := BisectLeft(ends, id);
    if position < |buckets| && buckets[position].InRange(id) {
      return Some(position);
    }
    forall i | 0 <= i < |buckets| ensures !buckets[i].InRange(id) {
      if i < position { assert ends[i] < id; }
      else if i > position { assert id <= ends[position]; }
    }
    return None;
  }

  /** How many leading bits all ids share; None is the source's AssertionError. */
  method ComputeSharedPrefixBits(ids: seq<nat>) returns (r: Option<nat>)
    requires forall id :: id in ids ==> id <= MaxId()
    ensures r.Some? ==> IsDepth(ids, r.value)
    ensures r.None? <==> |ids| >= 2 && forall i :: 0 <= i < |ids| ==> ids[i] == ids[0]
  {
    if |ids| < 2 { return Some(ID_SIZE); }
    forall j | 0 <= j < |ids| ensures Shr(ids[j], ID_SIZE) == 0 {
      assert ids[j] in ids;
      ShrAll(ids[j], ID_SIZE);
    }
    for i := 1 to ID_SIZE + 1
      invariant SamePrefix(ids, i - 1)
    {
      if !SamePrefix(ids, i) {
        assert exists j :: 0 <= j < |ids| && ids[j] != ids[0];
        return Some(i - 1);
      }
    }
    assert forall i :: 0 <= i < |ids| ==> Shr(ids[i], 0) == ids[i];
    return None;
  }

  /** What add_node reports: None, a node to ping and perhaps evict, or one of its ValueErrors. */
  datatype AddOutcome = Done | Full(candidate: nat) | IsThisNode | NoBucket

  ghost function CoverLevel(bs: seq<Bucket>, node: nat): nat {
    if Partition(bs) && node <= MaxId() then
      var b := bs[Covering(bs, node)]; Level(b.start, b.end)
    else 0
  }

  /** The bucket that covers the node does not cover our own id, and has the node last in its cache. */
  ghost predicate CachedWithout(bs: seq<Bucket>, node: nat, own: nat) {
    && Partition(bs) && node <= MaxId()
    && var b := bs[Covering(bs, node)];
    && !b.InRange(own) && b.cache != [] && b.cache[|b.cache| - 1] == node
  }

  /** The table bs' and report r that adding a node in range must give on the table bs. */
  ghost predicate AddedTo(bs: seq<Bucket>, bs': seq<Bucket>, node: nat, own: nat, r: AddOutcome) {
    Partition(bs) && node <= MaxId() &&
    var b := bs[Covering(bs, node)];
    && (r.Done? || r.Full?)
    && (r.Full? <==> Refuses(b, own, node))
    && (r.Full? ==> r.candidate == b.nodes[0] && CachedWithout(bs', node, own))
    && (node in b.nodes ==> bs' == bs)
    && (node !in b.nodes ==> Refines(bs, bs', node, r.Done?))
    && |bs'| <= |bs| + (if Level(b.start, b.end) >= 4 then Level(b.start, b.end) - 4 else 0)
  }

  /** Taking a node into a bucket, or into its cache when the bucket is full, keeps the table in order. */
  lemma AddedOrCached(bs: seq<Bucket>, i: nat, node: nat, own: nat)
    requires WfTable(bs, own) && node <= MaxId() && node != own && i == Covering(bs, node) && node !in bs[i].nodes
    ensures var b := bs[i];
            if |b.nodes| < BUCKET_SIZE then
              var bs' := bs[i := b.(nodes := b.nodes + [node])];
              WfTable(bs', own) && AddedTo(bs, bs', node, own, Done)
            else
              var bs' := bs[i := b.(cache := b.cache + [node])];
              WfTable(bs', own) && WfBucket(bs'[i]) && b.end <= MaxId()
  {
    var b := bs[i];
    assert b in bs;
    EndsWithin(bs, b);
    if |b.nodes| < BUCKET_SIZE {
      UpdateWf(bs, i, b.(nodes := b.nodes + [node]), own);
      AddedRefines(bs, i, own, node);
    } else {
      UpdateWf(bs, i, b.(cache := b.cache + [node]), own);
    }
  }

  /** The full bucket i must be split to make room for the node. */
  ghost predicate SplitCase(bs: seq<Bucket>, i: nat, node: nat, own: nat, d: nat) {
    && Partition(bs) && node <= MaxId() && i == Covering(bs, node)
    && |bs[i].nodes| == BUCKET_SIZE && node !in bs[i].nodes
    && IsDepth(bs[i].nodes, d) && (bs[i].InRange(own) || d % BITS_PER_HOP != 0)
    && bs[i].start <= bs[i].end
  }

  /** Adding a node either stores it or changes no membership, and splits at most 252 buckets. */
  lemma AddedMembers(bs: seq<Bucket>, bs': seq<Bucket>, node: nat, own: nat, r: AddOutcome)
    requires WfTable(bs, own) && Partition(bs') && AddedTo(bs, bs', node, own, r)
    ensures Members(bs') == if r.Done? then Members(bs) + {node} else Members(bs)
    ensures |bs'| <= |bs| + 252
  {
    var b := bs[Covering(bs, node)];
    EndsWithin(bs, b);
    LevelBound(b.start, b.end);
    if node in b.nodes {
      assert node in Members(bs);
    } else {
      RefinesMembers(bs, bs', own, node, r.Done?);
    }
  }

  lemma AddedPresent(bs: seq<Bucket>, node: nat, own: nat)
    requires Partition(bs) && node <= MaxId() && node in bs[Covering(bs, node)].nodes
    ensures AddedTo(bs, bs, node, own, Done)
  {
  }

  lemma RefusedWithoutSplit(bs: seq<Bucket>, i: nat, node: nat, own: nat, d: nat)
    requires WfTable(bs, own) && node <= MaxId() && i == Covering(bs, node)
    requires |bs[i].nodes| == BUCKET_SIZE && node !in bs[i].nodes
    requires IsDepth(bs[i].nodes, d) && !bs[i].InRange(own) && d % BITS_PER_HOP == 0
    ensures AddedTo(bs, bs[i := bs[i].(cache := bs[i].cache + [node])], node, own, Full(bs[i].nodes[0]))
  {
    assert bs[i] in bs;
    EndsWithin(bs, bs[i]);
    RefusalWithoutSplit(bs[i], own, node, d);
    CacheRefines(bs, i, bs[i].cache + [node], node);
    var cached := bs[i].(cache := bs[i].cache + [node]);
    UpdatePartition(bs, i, cached);
    CoversAt(bs[i := cached], i, node);
  }

  lemma AddedAfterSplit(bs: seq<Bucket>, i: nat, node: nat, own: nat, d: nat, bs': seq<Bucket>, r: AddOutcome)
    requires WfTable(bs, own) && SplitCase(bs, i, node, own, d)
    requires AddedTo(CacheAndSplit(bs, i, node), bs', node, own, r)
    ensures AddedTo(bs, bs', node, own, r)
  {
    var bs1 := CacheAndSplit(bs, i, node);
    assert bs[i] in bs;
    FullBucketIsLarge(bs[i], node);
    CacheAndSplitWf(bs, i, own, node);
    CacheAndSplitCovers(bs, i, own, node, d);
    RefinesTransitive(bs, bs1, bs', node, r.Done?);
  }

  lemma SplitShrinks(bs: seq<Bucket>, i: nat, node: nat, own: nat, d: nat)
    requires WfTable(bs, own) && SplitCase(bs, i, node, own, d)
    ensures bs[i].start < bs[i].end && WfTable(CacheAndSplit(bs, i, node), own)
    ensures CoverLevel(CacheAndSplit(bs, i, node), node) < CoverLevel(bs, node)
  {
    assert bs[i] in bs;
    FullBucketIsLarge(bs[i], node);
    CacheAndSplitWf(bs, i, own, node);
    CacheAndSplitCovers(bs, i, own, node, d);
  }

  class RoutingTable {
    const thisNode: nat
    var buckets: seq<KBucket>
    /** The buckets by value. */
    ghost var table: seq<Bucket>
    ghost var Repr: set<KBucket>

    ghost predicate Linked()
      reads this, Repr
    {
      && (forall i :: 0 <= i < |buckets| ==> buckets[i] in Repr)
      && Distinct(buckets)
      && |table| == |buckets|
      && forall i :: 0 <= i < |buckets| ==> buckets[i].View() == table[i]
    }

    ghost predicate Valid()
      reads this, Repr
    {
      Linked() && WfTable(table, thisNode)
    }

    constructor (node: nat)
      ensures Valid() && thisNode == node && fresh(Repr)
      ensures table == [Bucket(0, MaxId(), [], [])]
    {
      thisNode := node;
      var b := new KBucket(0, MaxId());
      buckets, Repr := [b], {b};
      table := [Bucket(0, MaxId(), [], [])];
      new;
      InitialTableWf(node);
    }

    lemma OrderedBuckets()
      requires Valid()
      ensures forall i :: 0 <= i < |buckets| ==> buckets[i].start <= buckets[i].end
      ensures forall i, j :: 0 <= i < j < |buckets| ==> buckets[i].end < buckets[j].start
    {
      forall i | 0 <= i < |buckets| ensures buckets[i].start <= buckets[i].end {
        assert Block(table[i].start, table[i].end) && buckets[i].View() == table[i];
      }
      forall i, j | 0 <= i < j < |buckets| ensures buckets[i].end < buckets[j].start {
        Ordered(table, i, j);
        assert buckets[i].View() == table[i] && buckets[j].View() == table[j];
      }
    }

    /** Bisection finds the bucket that covers an id, for every id of the space. */
    method BucketIndex(id: nat) returns (r: Option<nat>)
      requires Valid()
      ensures id <= MaxId() ==> r == Some(Covering(table, id))
      ensures id > MaxId() ==> r == None
    {
      OrderedBuckets();
      r := BinaryGetBucketForNode(buckets, id);
      if id <= MaxId() {
        ghost var i := Covering(table, id);
        assert buckets[i].View() == table[i];
      }
      if r.Some? {
        assert buckets[r.value].View() == table[r.value];
        EndsWithin(table, table[r.value]);
      }
    }

    method InBucket(index: nat, node: nat) returns (present: bool)
      requires Linked() && index < |buckets|
      ensures present <==> node in table[index].nodes
    {
      assert buckets[index].View() == table[index];
      present := node in buckets[index].nodes;
    }

    method RemoveNode(node: nat) returns (found: bool)
      requires Valid()
      modifies this, Repr
      ensures Valid() && buckets == old(buckets) && Repr == old(Repr)
      ensures found <==> node <= MaxId()
      ensures !found ==> table == old(table)
      ensures found ==>
                var i := Covering(old(table), node);
                table == old(table)[i := old(table)[i].(nodes := RemoveFirst(old(table)[i].nodes, node))]
      ensures Members(table) == Members(old(table)) - {node}
    {
      var index := BucketIndex(node);
      if index.None? {
        if node in Members(table) { MembersWithin(table, thisNode, node); }
        return false;
      }
      buckets[index.value].RemoveNode(node);
      RemovedWf(table, index.value, thisNode, node);
      table := table[index.value := buckets[index.value].View()];
      return true;
    }

    method SplitBucketAt(index: nat)
      requires Linked() && index < |buckets| && WfBucket(table[index]) && table[index].start < table[index].end
      modifies this
      ensures Linked()
      ensures table == SplitAt(old(table), index)
      ensures (forall o :: o in Repr ==> o in old(Repr) || fresh(o))
    {
      assert buckets[index].View() == table[index];
      var lower, upper := buckets[index].Split();
      ReplaceByTwoDistinct(buckets, index, lower, upper);
      buckets := ReplaceByTwo(buckets, index, lower, upper);
      table := SplitAt(table, index);
      Repr := Repr + {lower, upper};
      forall j | 0 <= j < |buckets| ensures buckets[j].View() == table[j] {
        if j > index + 1 { assert old(buckets)[j - 1].View() == old(table)[j - 1]; }
      }
    }

    method AddToBucket(index: nat, node: nat) returns (candidate: Option<nat>)
      requires Linked() && index < |buckets| && node !in table[index].nodes
      modifies this`table, buckets[index]
      ensures Linked()
      ensures var b := old(table)[index];
              if |b.nodes| < BUCKET_SIZE then
                candidate == None && table == old(table)[index := b.(nodes := b.nodes + [node])]
              else
                candidate == Some(b.nodes[0]) && table == old(table)[index := b.(cache := b.cache + [node])]
    {
      assert buckets[index].View() == table[index];
      candidate := buckets[index].Add(node);
      table := table[index := buckets[index].View()];
    }

    /** Whether a full bucket is to be split: it covers our own id, or its nodes branch off a hop boundary. */
    method MaySplit(index: nat) returns (split: bool, ghost depth: nat)
      requires Linked() && index < |buckets|
      requires WfBucket(table[index]) && table[index].end <= MaxId() && |table[index].nodes| >= 2
      ensures IsDepth(table[index].nodes, depth)
      ensures split <==> table[index].InRange(thisNode) || depth % BITS_PER_HOP != 0
    {
      assert buckets[index].View() == table[index];
      DistinctBranch(table[index].nodes);
      var d := ComputeSharedPrefixBits(buckets[index].nodes);
      depth := d.value;
      split := buckets[index].InRange(thisNode) || (d.value % BITS_PER_HOP != 0 && d.value != ID_SIZE);
    }

    /** The end of an attempt on a full bucket, which now has the node in its cache; None asks for a retry on the split bucket. */
    method SplitOrRefuse(index: nat, node: nat, candidate: nat, ghost bs: seq<Bucket>) returns (r: Option<AddOutcome>, ghost depth: nat)
      requires Linked() && node != thisNode && node <= MaxId()
      requires WfTable(bs, thisNode) && index == Covering(bs, node) && node !in bs[index].nodes
      requires |bs[index].nodes| == BUCKET_SIZE && candidate == bs[index].nodes[0] && bs[index].end <= MaxId()
      requires table == bs[index := bs[index].(cache := bs[index].cache + [node])] && WfTable(table, thisNode)
      requires WfBucket(table[index])
      modifies this, Repr
      ensures Valid()
      ensures (forall o :: o in Repr ==> o in old(Repr) || fresh(o))
      ensures r.Some? ==> AddedTo(bs, table, node, thisNode, r.value)
      ensures r.None? ==> SplitCase(bs, index, node, thisNode, depth) && table == CacheAndSplit(bs, index, node)
      ensures r.None? ==> CoverLevel(table, node) < CoverLevel(bs, node)
    {
      var split;
      split, depth := MaySplit(index);
      if !split {
        RefusedWithoutSplit(bs, index, node, thisNode, depth);
        return Some(Full(candidate)), depth;
      }
      SplitShrinks(bs, index, node, thisNode, depth);
      SplitBucketAt(index);
      return None, depth;
    }

    /** One attempt to add a new node to its bucket; None asks for a retry on the split bucket. */
    method TryAdd(index: nat, node: nat) returns (r: Option<AddOutcome>, ghost depth: nat)
      requires Valid() && node != thisNode && node <= MaxId()
      requires index == Covering(table, node) && node !in table[index].nodes
      modifies this, Repr
      ensures Valid()
      ensures (forall o :: o in Repr ==> o in old(Repr) || fresh(o))
      ensures r.Some? ==> AddedTo(old(table), table, node, thisNode, r.value)
      ensures r.None? ==> SplitCase(old(table), index, node, thisNode, depth)
      ensures r.None? ==> table == CacheAndSplit(old(table), index, node)
      ensures r.None? ==> CoverLevel(table, node) < CoverLevel(old(table), node)
    {
      ghost var bs := table;
      AddedOrCached(bs, index, node, thisNode);
      var candidate := AddToBucket(index, node);
      if candidate.None? { return Some(Done), 0; }
      r, depth := SplitOrRefuse(index, node, candidate.value, bs);
    }

    /** Where a node belongs, and whether it is there. */
    method Locate(node: nat) returns (index: nat, present: bool)
      requires Valid() && node <= MaxId()
      ensures index == Covering(table, node) && (present <==> node in table[index].nodes)
    {
      var i := BucketIndex(node);
      index := i.value;
      present := InBucket(index, node);
    }

    /** The retry on a table bs whose full bucket has just been split. */
    method Retry(index: nat, node: nat, ghost bs: seq<Bucket>, ghost depth: nat) returns (r: AddOutcome)
      requires Valid() && node != thisNode && node <= MaxId() && WfTable(bs, thisNode)
      requires SplitCase(bs, index, node, thisNode, depth) && table == CacheAndSplit(bs, index, node)
      modifies this, Repr
      ensures Valid() && (forall o :: o in Repr ==> o in old(Repr) || fresh(o))
      ensures AddedTo(bs, table, node, thisNode, r)
      decreases CoverLevel(table, node), 1
    {
      r := Insert(node);
      AddedAfterSplit(bs, index, node, thisNode, depth, table, r);
    }

    /** add_node for a node that passes its checks; the retry on a split bucket would pass them again. */
    method Insert(node: nat) returns (r: AddOutcome)
      requires Valid() && node != thisNode && node <= MaxId()
      modifies this, Repr
      ensures Valid() && (forall o :: o in Repr ==> o in old(Repr) || fresh(o))
      ensures AddedTo(old(table), table, node, thisNode, r)
      decreases CoverLevel(table, node), 0
    {
      var index, present := Locate(node);
      if present {
        AddedPresent(table, node, thisNode);
        return Done;
      }
      ghost var bs := table;
      var attempt, depth := TryAdd(index, node);
      if attempt.Some? { return attempt.value; }
      r := Retry(index, node, bs, depth);
    }

    /** Adds a node, splitting buckets until one takes it or refuses it. */
    method AddNode(node: nat) returns (r: AddOutcome)
      requires Valid()
      modifies this, Repr
      ensures Valid() && (forall o :: o in Repr ==> o in old(Repr) || fresh(o))
      ensures r == IsThisNode <==> node == thisNode
      ensures r == NoBucket <==> node != thisNode && node > MaxId()
      ensures r == IsThisNode || r == NoBucket ==> table == old(table)
      ensures r.Done? || r.Full? ==> AddedTo(old(table), table, node, thisNode, r)
    {
      if node == thisNode { return IsThisNode; }
      var index := BucketIndex(node);
      if index.None? { return NoBucket; }
      r := Insert(node);
    }

    /** The k nodes of the table nearest to an id, nearest first. */
    method NearestTo(id: nat, k: int := BUCKET_SIZE) returns (r: seq<nat>)
      requires Valid()
      ensures StrictlySorted(r, id)
      ensures k >= 0 ==> |r| == if k < |Members(table)| then k else |Members(table)|
      ensures k < 0 ==> |r| == if |Members(table)| + k >= 0 then |Members(table)| + k else 0
      ensures forall n :: n in r ==> n in Members(table)
      ensures forall n, m :: n in r && m in Members(table) && m !in r ==> Xor(n, id) < Xor(m, id)
    {
      var bs := seq(|buckets|, i requires 0 <= i < |buckets| reads this, buckets => buckets[i].View());
      assert bs == table;
      r := NeighboursOf(bs, id, k, thisNode);
      NeighboursAreNearest(table, thisNode, id, k, r);
    }
  }
}
