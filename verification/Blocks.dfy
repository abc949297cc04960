/** Blocks of the wallet chains and the child lookup between them (hvm/db/chain.py). A block depends on
    its parent in its chain, on the blocks that sent what it receives, and on the chain heads its reward
    proofs name; the lookup stores each block under every block it depends on. */
module Blocks {
  import opened Options

  type Hash = nat

  const GENESIS_PARENT: Hash := 0

  datatype Header = Header(
    chain: nat, number: nat, parent: Hash, timestamp: nat, senders: seq<Hash>, proofs: seq<Hash>)

  type Headers = map<Hash, Header>
  type Links = map<Hash, seq<Hash>>

  function Children(links: Links, h: Hash): seq<Hash> {
    if h in links then links[h] else []
  }

  function Deps(b: Header): set<Hash> {
    (if b.parent == GENESIS_PARENT then {} else {b.parent}) + (set s | s in b.senders) + (set p | p in b.proofs)
  }

  /** The parents under which remove_block_from_all_parent_child_lookups deletes a block: reward proofs are not among them. */
  function UnlinkedFrom(b: Header): set<Hash> {
    {b.parent} + set s | s in b.senders
  }

  /** x is reached from h over n + 1 child links. */
  ghost predicate DescendsIn(links: Links, h: Hash, x: Hash, n: nat)
    decreases n
  {
    if n == 0 then x in Children(links, h)
    else exists c :: c in Children(links, h) && DescendsIn(links, c, x, n - 1)
  }

  ghost predicate Descends(links: Links, h: Hash, x: Hash) {
    exists n: nat :: DescendsIn(links, h, x, n)
  }

  lemma DescendsFirst(links: Links, h: Hash, c: Hash)
    requires c in Children(links, h)
    ensures Descends(links, h, c)
  {
    assert DescendsIn(links, h, c, 0);
  }

  lemma DescendsCons(links: Links, h: Hash, c: Hash, x: Hash)
    requires c in Children(links, h) && Descends(links, c, x)
    ensures Descends(links, h, x)
  {
    var n: nat :| DescendsIn(links, c, x, n);
    assert DescendsIn(links, h, x, n + 1);
  }

  lemma {:induction false} DescendsInSnoc(links: Links, h: Hash, x: Hash, y: Hash, n: nat)
    requires DescendsIn(links, h, x, n) && y in Children(links, x)
    ensures DescendsIn(links, h, y, n + 1)
    decreases n
  {
    if n == 0 {
      assert DescendsIn(links, x, y, 0);
    } else {
      var c :| c in Children(links, h) && DescendsIn(links, c, x, n - 1);
      DescendsInSnoc(links, c, x, y, n - 1);
    }
  }

  lemma DescendsSnoc(links: Links, h: Hash, x: Hash, y: Hash)
    requires Descends(links, h, x) && y in Children(links, x)
    ensures Descends(links, h, y)
  {
    var n: nat :| DescendsIn(links, h, x, n);
    DescendsInSnoc(links, h, x, y, n);
  }

  lemma {:induction false} DescendsInLast(links: Links, h: Hash, x: Hash, n: nat) returns (p: Hash)
    requires DescendsIn(links, h, x, n)
    ensures x in Children(links, p)
    decreases n
  {
    p := h;
    if n > 0 {
      var c :| c in Children(links, h) && DescendsIn(links, c, x, n - 1);
      p := DescendsInLast(links, c, x, n - 1);
    }
  }

  lemma DescendsLast(links: Links, h: Hash, x: Hash) returns (p: Hash)
    requires Descends(links, h, x)
    ensures x in Children(links, p)
  {
    var n: nat :| DescendsIn(links, h, x, n);
    p := DescendsInLast(links, h, x, n);
  }

  /** r holds the children of h, and those of its own members, except where they are excluded. */
  ghost predicate Closed(links: Links, h: Hash, exclude: set<Hash>, r: set<Hash>) {
    && ChildrenIn(links, h, exclude, r)
    && (forall x :: x in r ==> ChildrenIn(links, x, exclude, r))
  }

  ghost predicate ChildrenIn(links: Links, h: Hash, exclude: set<Hash>, r: set<Hash>) {
    forall c :: c in Children(links, h) ==> c in exclude || c in r
  }

  lemma {:induction false} ClosedReaches(links: Links, h: Hash, r: set<Hash>, x: Hash, n: nat)
    requires Closed(links, h, {}, r) && DescendsIn(links, h, x, n)
    ensures x in r
    decreases n
  {
    assert ChildrenIn(links, h, {}, r);
    if n > 0 {
      var c :| c in Children(links, h) && DescendsIn(links, c, x, n - 1);
      ClosedReaches(links, c, r, x, n - 1);
    }
  }

  /** The recursive search behind get_all_descendant_block_hashes: found by one of the children,
      a block is not looked for again below the next ones. None stands for no children. */
  method DescendantsExcept(links: Links, h: Hash, exclude: set<Hash>, ghost universe: set<Hash>)
    returns (r: Option<set<Hash>>)
    requires forall p :: ChildrenIn(links, p, {}, universe)
    ensures r.None? <==> Children(links, h) == []
    ensures r.Some? ==> Closed(links, h, exclude, r.value) && forall x :: x in r.value ==> Descends(links, h, x)
    decreases universe - exclude
  {
    var children := Children(links, h);
    if children == [] { return None; }
    var found: set<Hash> := {};
    for i := 0 to |children|
      invariant forall c :: c in children[..i] ==> c in exclude || c in found
      invariant forall x :: x in found ==> ChildrenIn(links, x, exclude, found) && Descends(links, h, x)
    {
      var c := children[i];
      assert c in Children(links, h);
      if c !in exclude {
        ghost var before := found;
        found := found + {c};
        assert ChildrenIn(links, h, {}, universe);
        assert c in universe - exclude && c !in universe - (exclude + found);
        var below := DescendantsExcept(links, c, exclude + found, universe);
        DescendsFirst(links, h, c);
        if below.Some? {
          forall x | x in below.value ensures Descends(links, h, x) { DescendsCons(links, h, c, x); }
          found := found + below.value;
          ClosedUnion(links, c, exclude, before, below.value);
        } else {
          ClosedLeaf(links, c, exclude, before);
        }
      }
      assert children[..i + 1] == children[..i] + [c];
    }
    assert children[..|children|] == children;
    r := Some(found);
  }

  lemma ClosedUnion(links: Links, c: Hash, exclude: set<Hash>, before: set<Hash>, below: set<Hash>)
    requires forall x :: x in before ==> ChildrenIn(links, x, exclude, before)
    requires Closed(links, c, exclude + (before + {c}), below)
    ensures forall x :: x in before + {c} + below ==> ChildrenIn(links, x, exclude, before + {c} + below)
  {
    forall x | x in before + {c} + below ensures ChildrenIn(links, x, exclude, before + {c} + below) {
      assert x in before ==> ChildrenIn(links, x, exclude, before);
      assert x !in before ==> ChildrenIn(links, x, exclude + (before + {c}), below);
    }
  }

  lemma ClosedLeaf(links: Links, c: Hash, exclude: set<Hash>, before: set<Hash>)
    requires forall x :: x in before ==> ChildrenIn(links, x, exclude, before)
    requires Children(links, c) == []
    ensures forall x :: x in before + {c} ==> ChildrenIn(links, x, exclude, before + {c})
  {
    forall x | x in before + {c} ensures ChildrenIn(links, x, exclude, before + {c}) {
      assert x in before ==> ChildrenIn(links, x, exclude, before);
    }
  }

  /** The descendants are the least set that holds what is stored under h and under its members. */
  lemma LeastBelow(links: Links, h: Hash, r: set<Hash>)
    requires Closed(links, h, {}, r) && forall x :: x in r ==> Descends(links, h, x)
    ensures HoldsBelow(links, h, r) && forall s :: HoldsBelow(links, h, s) ==> r <= s
  {
    forall p, c | p in links && c in links[p] && (p == h || p in r) ensures c in r {
      assert c in Children(links, p) && ChildrenIn(links, p, {}, r);
    }
    forall s, x | HoldsBelow(links, h, s) && x in r ensures x in s {
      forall p | p == h || p in s ensures ChildrenIn(links, p, {}, s) {}
      var n: nat :| DescendsIn(links, h, x, n);
      ClosedReaches(links, h, s, x, n);
    }
  }

  /** s holds what is stored under h, and under its own members. */
  ghost predicate HoldsBelow(links: Links, h: Hash, s: set<Hash>) {
    forall p, c :: p in links && c in links[p] && (p == h || p in s) ==> c in s
  }

  /** get_all_descendant_block_hashes: exactly the blocks reached by child links, on cyclic links too. */
  method AllDescendants(links: Links, h: Hash) returns (r: Option<set<Hash>>)
    ensures r.None? <==> h !in links || links[h] == []
    ensures forall x :: Descends(links, h, x) <==> r.Some? && x in r.value
    ensures r.Some? ==> HoldsBelow(links, h, r.value) && forall s :: HoldsBelow(links, h, s) ==> r.value <= s
  {
    ghost var universe := set p, c | p in links && c in links[p] :: c;
    forall p ensures ChildrenIn(links, p, {}, universe) {}
    r := DescendantsExcept(links, h, {}, universe);
    forall x ensures Descends(links, h, x) <==> r.Some? && x in r.value {
      if Descends(links, h, x) {
        var n: nat :| DescendsIn(links, h, x, n);
        if r.Some? { ClosedReaches(links, h, r.value, x, n); }
      }
    }
    if r.Some? {
      LeastBelow(links, h, r.value);
    }
  }
}
