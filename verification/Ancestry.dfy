/** Chains read downwards from their heads: which blocks are on a chain, and its last block before a time. */
module Ancestry {
  import opened Blocks
  import opened CanonicalChains
  import opened Options

  /** A block is above its parent in the same chain, and not older. */
  ghost predicate WfHeaders(headers: Headers) {
    GENESIS_PARENT !in headers && forall h :: h in headers ==> WfParent(headers, h)
  }

  ghost predicate WfParent(headers: Headers, h: Hash) {
    h in headers && headers[h].parent != GENESIS_PARENT ==>
      var p := headers[h].parent;
      && p in headers && headers[p].number < headers[h].number
      && headers[p].chain == headers[h].chain && headers[p].timestamp <= headers[h].timestamp
  }

  /** The parent to walk down to. */
  function Below(headers: Headers, h: Hash): Option<Hash> {
    if h in headers && headers[h].parent in headers && headers[headers[h].parent].number < headers[h].number
    then Some(headers[h].parent) else None
  }

  function Height(headers: Headers, h: Hash): nat {
    if h in headers then headers[h].number else 0
  }

  /** x is h or lies below it. */
  ghost predicate OnChain(headers: Headers, h: Hash, x: Hash)
    decreases Height(headers, h)
  {
    h in headers && (x == h || (Below(headers, h).Some? && OnChain(headers, Below(headers, h).value, x)))
  }

  /** The newest block of the chain under h that is older than t. */
  function LastBefore(headers: Headers, h: Hash, t: int): Option<Hash>
    decreases Height(headers, h)
  {
    if h !in headers then None
    else if headers[h].timestamp < t then Some(h)
    else if Below(headers, h).None? then None
    else LastBefore(headers, Below(headers, h).value, t)
  }

  lemma {:induction false} OnChainFacts(headers: Headers, h: Hash, x: Hash)
    requires WfHeaders(headers) && OnChain(headers, h, x)
    ensures x in headers && headers[x].chain == headers[h].chain
    ensures headers[x].timestamp <= headers[h].timestamp && headers[x].number <= headers[h].number
    ensures x != h ==> headers[x].number < headers[h].number
    decreases Height(headers, h)
  {
    assert WfParent(headers, h);
    if x != h { OnChainFacts(headers, Below(headers, h).value, x); }
  }

  lemma {:induction false} OnChainTransitive(headers: Headers, h: Hash, g: Hash, x: Hash)
    requires OnChain(headers, h, g) && OnChain(headers, g, x)
    ensures OnChain(headers, h, x)
    decreases Height(headers, h)
  {
    if g != h { OnChainTransitive(headers, Below(headers, h).value, g, x); }
  }

  lemma {:induction false} LastBeforeOnChain(headers: Headers, h: Hash, t: int)
    requires LastBefore(headers, h, t).Some?
    ensures OnChain(headers, h, LastBefore(headers, h, t).value)
    ensures LastBefore(headers, h, t).value in headers && headers[LastBefore(headers, h, t).value].timestamp < t
    decreases Height(headers, h)
  {
    if headers[h].timestamp >= t { LastBeforeOnChain(headers, Below(headers, h).value, t); }
  }

  /** The blocks older than t are those under the last block before t. */
  lemma {:induction false} LastBeforeSplits(headers: Headers, h: Hash, t: int, x: Hash)
    requires WfHeaders(headers) && h in headers
    ensures OnChain(headers, h, x) && x in headers && headers[x].timestamp < t <==>
            LastBefore(headers, h, t).Some? && OnChain(headers, LastBefore(headers, h, t).value, x)
    decreases Height(headers, h)
  {
    assert WfParent(headers, h);
    if OnChain(headers, h, x) { OnChainFacts(headers, h, x); }
    if headers[h].timestamp >= t && Below(headers, h).Some? {
      LastBeforeSplits(headers, Below(headers, h).value, t, x);
    }
  }

  /** Looking for the last block before t can go in two steps. */
  lemma {:induction false} LastBeforeTwice(headers: Headers, h: Hash, t: int, t': int)
    requires t <= t'
    ensures LastBefore(headers, h, t) ==
            match LastBefore(headers, h, t') { case Some(g) => LastBefore(headers, g, t) case None => None }
    decreases Height(headers, h)
  {
    if h in headers && headers[h].timestamp >= t' && Below(headers, h).Some? {
      LastBeforeTwice(headers, Below(headers, h).value, t, t');
    }
  }

  /** Each head is a block of its chain. */
  ghost predicate WfHeads(headers: Headers, heads: Heads) {
    forall c :: c in heads ==> heads[c] in headers && headers[heads[c]].chain == c
  }

  /** What the heads were at time t: each chain's last block before t, if it has one. */
  function HeadsAt(headers: Headers, heads: Heads, t: int): Heads {
    map c | c in heads && LastBefore(headers, heads[c], t).Some? :: LastBefore(headers, heads[c], t).value
  }

  /** x is on a chain with these heads. */
  ghost predicate Belongs(headers: Headers, heads: Heads, x: Hash) {
    x in headers && headers[x].chain in heads && OnChain(headers, heads[headers[x].chain], x)
  }

  lemma HeadsAtWf(headers: Headers, heads: Heads, t: int)
    requires WfHeaders(headers) && WfHeads(headers, heads)
    ensures WfHeads(headers, HeadsAt(headers, heads, t))
  {
    var at := HeadsAt(headers, heads, t);
    forall c | c in at ensures at[c] in headers && headers[at[c]].chain == c {
      LastBeforeOnChain(headers, heads[c], t);
      OnChainFacts(headers, heads[c], at[c]);
    }
  }

  lemma HeadsAtTwice(headers: Headers, heads: Heads, t: int, t': int)
    requires t <= t'
    ensures HeadsAt(headers, HeadsAt(headers, heads, t'), t) == HeadsAt(headers, heads, t)
  {
    forall c | c in heads
      ensures LastBefore(headers, heads[c], t) ==
              match LastBefore(headers, heads[c], t') { case Some(g) => LastBefore(headers, g, t) case None => None }
    {
      LastBeforeTwice(headers, heads[c], t, t');
    }
  }

  lemma BelongsBefore(headers: Headers, heads: Heads, t: int, x: Hash)
    requires WfHeaders(headers) && WfHeads(headers, heads)
    ensures Belongs(headers, HeadsAt(headers, heads, t), x) <==> Belongs(headers, heads, x) && headers[x].timestamp < t
  {
    if x in headers && headers[x].chain in heads {
      LastBeforeSplits(headers, heads[headers[x].chain], t, x);
    }
  }
}
