/** hp2p/kademlia.py: a bucket that covers our own id may still refuse a new node, once it has been split. */
module Refusal {
  import opened Bits
  import opened Buckets
  import opened Sequences
  import opened Splitting

  /** A twelve-bit prefix 0x800 + j above low zero bits: sixteen ids that share eight bits and branch at the ninth. */
  function CrowdedId(low: nat, j: nat): nat { Shl(0x800 + j, low) }

  lemma Pow2Twelve()
    ensures Pow2(12) == 4096
  {
    assert Pow2(6) == 64;
  }

  lemma CrowdedIdRange(low: nat, j: nat)
    requires low + 12 == ID_SIZE && j < 16
    ensures CrowdedId(low, j) % 2 == 0 && CrowdedId(low, j) + 1 <= MaxId()
  {
    Pow2Twelve();
    ShlBound(0x800 + j, 12, low);
    assert CrowdedId(low, j) == 2 * Shl(0x800 + j, low - 1);
    assert Pow2(12 + low) == 2 * Pow2(11 + low);
  }

  lemma ShrSmall(x: nat)
    requires 0x800 <= x < 0x810
    ensures Shr(x, 3) == (if x < 0x808 then 0x100 else 0x101) && Shr(x, 4) == 0x80 && Shr(x, 11) == 1
  {
    ShrShr(x, 1, 1);
    ShrShr(x, 2, 1);
    assert Shr(x, 2) == x / 2 / 2 && Shr(x, 3) == x / 2 / 2 / 2;
    ShrShr(x, 3, 1);
    ShrShr(x, 4, 7);
    assert Shr(0x80, 7) == 1;
  }

  lemma CrowdedIdBits(low: nat, j: nat)
    requires j < 16
    ensures Shr(CrowdedId(low, j), low) == 0x800 + j
    ensures Shr(CrowdedId(low, j), low + 3) == if j < 8 then 0x100 else 0x101
    ensures Shr(CrowdedId(low, j), low + 4) == 0x80 && Shr(CrowdedId(low, j), low + 11) == 1
  {
    ShrShl(0x800 + j, low);
    ShrShr(CrowdedId(low, j), low, 3);
    ShrShr(CrowdedId(low, j), low, 4);
    ShrShr(CrowdedId(low, j), low, 11);
    ShrSmall(0x800 + j);
  }

  function CrowdedNodes(low: nat): (ids: seq<nat>)
    ensures |ids| == BUCKET_SIZE
    ensures forall j :: 0 <= j < BUCKET_SIZE ==> ids[j] == CrowdedId(low, j)
  {
    seq(BUCKET_SIZE, j requires 0 <= j < BUCKET_SIZE => CrowdedId(low, j))
  }

  /** The ids of a table that share their first n bits with each other, as all have the same top. */
  lemma SameTop(ids: seq<nat>, n: nat, top: nat)
    requires n <= ID_SIZE && forall j :: 0 <= j < |ids| ==> Shr(ids[j], ID_SIZE - n) == top
    ensures SamePrefix(ids, n)
  {
  }

  lemma CrowdedDepth(low: nat, ids: seq<nat>)
    requires low + 12 == ID_SIZE && ids == CrowdedNodes(low)
    ensures IsDepth(ids, 8)
  {
    forall j | 0 <= j < |ids| ensures Shr(ids[j], ID_SIZE - 8) == 0x80 { CrowdedIdBits(low, j); }
    SameTop(ids, 8, 0x80);
    CrowdedIdBits(low, 0);
    CrowdedIdBits(low, 8);
    assert Shr(ids[8], ID_SIZE - 9) != Shr(ids[0], ID_SIZE - 9);
  }

  lemma CrowdedApart(low: nat, ids: seq<nat>, node: nat)
    requires low + 12 == ID_SIZE && ids == CrowdedNodes(low) && node == CrowdedId(low, 0) + 1
    ensures Apart(ids + [node], 0) && node !in ids
  {
    forall j | 0 <= j < |ids| ensures Shr(ids[j], ID_SIZE - 1) == 1 && node != ids[j] {
      CrowdedIdBits(low, j);
      CrowdedIdRange(low, j);
    }
    CrowdedIdRange(low, 0);
    CrowdedIdBits(low, 0);
    assert node / 2 == CrowdedId(low, 0) / 2;
    var all := ids + [node];
    SameTop(all, 1, 1);
    ShrAll(0, ID_SIZE - 1);
    assert (all + [0])[|all|] == 0 && (all + [0])[0] == ids[0];
    assert !SamePrefix(all + [0], 1);
  }

  lemma CrowdedBucketWf(low: nat, ids: seq<nat>)
    requires low + 12 == ID_SIZE && ids == CrowdedNodes(low)
    ensures WfBucket(Bucket(0, MaxId(), ids, [])) && 0 !in ids
  {
    WholeSpaceIsBlock(ID_SIZE);
    ShrAll(0, low);
    forall j | 0 <= j < |ids| ensures 0 < ids[j] <= MaxId() && Shr(ids[j], low) == 0x800 + j {
      CrowdedIdBits(low, j);
      CrowdedIdRange(low, j);
    }
    forall i, j | 0 <= i < j < |ids| ensures ids[i] != ids[j] {
      assert Shr(ids[i], low) != Shr(ids[j], low);
    }
  }

  /** One bucket over all ids covers our own id 0, and yet a new node is refused: splitting parts the two. */
  lemma OwnBucketRefuses() returns (b: Bucket, node: nat)
    ensures WfTable([b], 0) && b.InRange(0) && node <= MaxId() && Refuses(b, 0, node)
  {
    var low: nat :| low + 12 == ID_SIZE;
    var ids := CrowdedNodes(low);
    b, node := Bucket(0, MaxId(), ids, []), CrowdedId(low, 0) + 1;
    CrowdedBucketWf(low, ids);
    CrowdedDepth(low, ids);
    CrowdedApart(low, ids, node);
    CrowdedIdRange(low, 0);
    assert 8 % BITS_PER_HOP == 0;
  }
}
