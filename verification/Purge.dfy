/** hvm/chains/base.py: purging a block with everything that descends from it. */
module Purging {
  import opened Blocks
  import opened CanonicalChains
  import opened Options
  import opened PurgeStates
  import opened Sequences

  /** The blocks of list put into their slots, the last one first. */
  ghost function Stacked(headers: Headers, list: seq<Hash>, slots: Canonical): Canonical {
    if list == [] then slots
    else
      var below := Stacked(headers, list[1..], slots);
      if list[0] in headers then below[(headers[list[0]].chain, headers[list[0]].number) := list[0]] else below
  }

  lemma {:induction false} StackedSnoc(headers: Headers, list: seq<Hash>, h: Hash, slots: Canonical)
    requires h in headers
    ensures Stacked(headers, list + [h], slots) == Stacked(headers, list, slots[(headers[h].chain, headers[h].number) := h])
  {
    if list == [] {
      assert (list + [h])[1..] == [];
    } else {
      assert (list + [h])[1..] == list[1..] + [h];
      StackedSnoc(headers, list[1..], h, slots);
    }
  }

  class Chain {
    const headers: Headers
    /** chaindb: the block at each number of each chain, and the head of each chain. */
    var canonical: Canonical
    var canonicalHead: Heads
    /** chain_head_db: the heads whose trie root is the current root hash. */
    var heads: Heads
    var children: Links
    var unprocessed: set<Hash>

    constructor (headers: Headers, canonical: Canonical, heads: Heads, children: Links, unprocessed: set<Hash>)
      ensures this.headers == headers && this.canonical == canonical && canonicalHead == heads && this.heads == heads
      ensures this.children == children && this.unprocessed == unprocessed
    {
      this.headers, this.canonical, canonicalHead, this.heads := headers, canonical, heads, heads;
      this.children, this.unprocessed := children, unprocessed;
    }

    function State(): Chains
      reads this
    {
      Chains(canonical, canonicalHead)
    }

    /** Removes the slots of chain c from number n up to its head. */
    method RemoveSlots(c: nat, n: nat)
      requires Filled(headers, State()) && c in canonicalHead
      requires canonicalHead[c] in headers && n <= headers[canonicalHead[c]].number + 1
      modifies `canonical
      ensures canonical == CutChain(old(canonical), c, n)
    {
      var top := headers[canonicalHead[c]].number;
      for i := n to top + 1
        invariant canonical == map k | k in old(canonical) && !(k.0 == c && n <= k.1 < i) :: old(canonical)[k]
      {
        assert FilledAt(headers, old(State()), c, i);
        canonical := canonical - {(c, i)};
      }
      forall k | k in old(canonical) && k.0 == c ensures k.1 <= top {
        assert FilledAt(headers, old(State()), k.0, k.1);
      }
    }

    /** delete_canonical_chain */
    method DeleteCanonicalChain(c: nat)
      requires Filled(headers, State()) && heads == canonicalHead
      modifies `canonical, `canonicalHead, `heads
      ensures State() == Chains(CutChain(old(canonical), c, 0), old(canonicalHead) - {c})
      ensures heads == canonicalHead && forall k :: k in canonical <==> k in old(canonical) && k.0 != c
    {
      heads := heads - {c};
      if c in canonicalHead {
        assert HeadOf(headers, canonicalHead, c);
        RemoveSlots(c, 0);
        canonicalHead := canonicalHead - {c};
      } else {
        forall k | k in canonical ensures k.0 != c {
          assert FilledAt(headers, State(), k.0, k.1);
        }
        assert canonicalHead == canonicalHead - {c};
      }
    }

    /** _find_new_ancestors: h and the blocks below it, down to the first that is canonical. */
    method FindNewAncestors(h: Hash) returns (list: seq<Hash>)
      requires Rooted(headers) && h in headers
      ensures Stacked(headers, list, canonical) == Extend(headers, canonical, h)
      ensures forall x :: x in list ==> x in headers
    {
      list := [];
      var g := h;
      while !IsCanonical(headers, canonical, g)
        invariant g in headers && forall x :: x in list ==> x in headers
        invariant Stacked(headers, list, Extend(headers, canonical, g)) == Extend(headers, canonical, h)
        decreases headers[g].number
      {
        assert RootedAt(headers, g);
        var b := headers[g];
        if b.parent == GENESIS_PARENT {
          StackedSnoc(headers, list, g, canonical);
          list := list + [g];
          return;
        }
        StackedSnoc(headers, list, g, Extend(headers, canonical, b.parent));
        list := list + [g];
        g := b.parent;
      }
    }

    /** Puts new canonical blocks into their slots, from the lowest up. */
    method AddSlots(list: seq<Hash>)
      requires forall x :: x in list ==> x in headers
      modifies `canonical
      ensures canonical == Stacked(headers, list, old(canonical))
    {
      for i := |list| downto 0
        invariant canonical == Stacked(headers, list[i..], old(canonical))
      {
        var h := list[i];
        assert h in list && list[i..][1..] == list[i + 1..];
        canonical := canonical[(headers[h].chain, headers[h].number) := h];
      }
      assert list[0..] == list;
    }

    /** _set_as_canonical_chain_head; false is its error on an unknown block. */
    method SetAsCanonicalChainHead(h: Hash) returns (ok: bool)
      requires Rooted(headers) && Filled(headers, State())
      modifies `canonical, `canonicalHead
      ensures ok <==> h in headers
      ensures State() == if ok then SetHead(headers, old(State()), h) else old(State())
    {
      if h !in headers { return false; }
      var c, n := headers[h].chain, headers[h].number;
      assert HeadOf(headers, canonicalHead, c);
      if c in canonicalHead && n <= headers[canonicalHead[c]].number {
        RemoveSlots(c, n + 1);
      } else {
        var list := FindNewAncestors(h);
        AddSlots(list);
      }
      canonicalHead := canonicalHead[c := h];
      return true;
    }

    /** set_parent_as_canonical_head */
    method SetParentAsCanonicalHead(x: Hash)
      requires Rooted(headers) && Filled(headers, State()) && heads == canonicalHead
      requires x in headers && headers[x].number > 0 && headers[x].parent in headers
      modifies `canonical, `canonicalHead, `heads
      ensures State() == SetHead(headers, old(State()), headers[x].parent) && heads == canonicalHead
    {
      var parent := headers[x].parent;
      heads := heads[headers[parent].chain := parent];
      var ok := SetAsCanonicalChainHead(parent);
    }

    /** What the purge does with a block whose chain is to be cut. */
    method CutChainBelow(x: Hash)
      requires Rooted(headers) && Filled(headers, State()) && heads == canonicalHead
      requires x in headers && (headers[x].number > 0 ==> headers[x].parent in headers)
      modifies `canonical, `canonicalHead, `heads
      ensures State() == CutBelow(headers, old(State()), x) && heads == canonicalHead
      ensures Filled(headers, State())
    {
      CutBelowFills(headers, State(), x);
      if headers[x].number == 0 {
        DeleteCanonicalChain(headers[x].chain);
      } else {
        SetParentAsCanonicalHead(x);
      }
    }

    /** The first loop over the descendants, which are a set: it meets them in some order. */
    method CutDescendants(gone: set<Hash>, skip: nat) returns (ghost order: seq<Hash>)
      requires Rooted(headers) && Filled(headers, State()) && heads == canonicalHead && gone <= headers.Keys
      modifies `canonical, `canonicalHead, `heads
      ensures Arranged(order, gone) && Filled(headers, State()) && heads == canonicalHead
      ensures State() == CutInOrder(headers, unprocessed, gone, skip, order, old(State()))
    {
      var rest := gone;
      order := [];
      while rest != {}
        invariant rest <= gone && Arranged(order, gone - rest)
        invariant Filled(headers, State()) && heads == canonicalHead
        invariant State() == CutInOrder(headers, unprocessed, gone, skip, order, old(State()))
        decreases rest
      {
        var x :| x in rest;
        rest := rest - {x};
        assert x !in order;
        ConcatDistinct(order, [x]);
        assert (order + [x])[..|order|] == order;
        assert RootedAt(headers, x);
        if x !in unprocessed && headers[x].parent !in gone && headers[x].chain != skip {
          CutChainBelow(x);
        }
        order := order + [x];
      }
    }

    /** remove_block_child */
    method RemoveBlockChild(parent: Hash, x: Hash)
      requires Unrepeated(children)
      modifies `children
      ensures Unrepeated(children)
      ensures forall p, y :: LinkCut(old(children), children, {parent}, x, p, y)
    {
      if parent in children && x in children[parent] {
        RemoveFirstDistinct(children[parent], x);
        children := children[parent := RemoveFirst(children[parent], x)];
      }
    }

    /** remove_block_from_all_parent_child_lookups */
    method RemoveFromParents(x: Hash)
      requires Unrepeated(children) && x in headers
      modifies `children
      ensures Unrepeated(children)
      ensures forall p, y :: LinkCut(old(children), children, UnlinkedFrom(headers[x]), x, p, y)
    {
      var senders := headers[x].senders;
      ghost var parents: set<Hash> := {};
      for i := 0 to |senders|
        invariant Unrepeated(children)
        invariant parents == set s | s in senders[..i]
        invariant forall p, y :: LinkCut(old(children), children, parents, x, p, y)
      {
        ghost var before := children;
        RemoveBlockChild(senders[i], x);
        CutCompose(old(children), parents, before, {senders[i]}, children, x);
        parents := parents + {senders[i]};
        assert senders[..i + 1] == senders[..i] + [senders[i]];
      }
      assert senders[..|senders|] == senders;
      ghost var before := children;
      RemoveBlockChild(headers[x].parent, x);
      CutCompose(old(children), parents, before, {headers[x].parent}, children, x);
      assert parents + {headers[x].parent} == UnlinkedFrom(headers[x]);
    }

    /** revert_block */
    method RevertBlock(x: Hash)
      requires Unrepeated(children) && x in headers
      modifies `children, `canonical
      ensures Unrepeated(children)
      ensures LinksAfter(headers, old(children), {x}, children)
      ensures canonical == if IsCanonical(headers, old(canonical), x) then old(canonical) - {(headers[x].chain, headers[x].number)}
                           else old(canonical)
    {
      RemoveFromParents(x);
      ghost var before := children;
      children := children - {x};
      forall p, y ensures LinkAfter(headers, old(children), {x}, children, p, y) {
        assert LinkCut(old(children), before, UnlinkedFrom(headers[x]), x, p, y);
      }
      var slot := (headers[x].chain, headers[x].number);
      if slot in canonical && canonical[slot] == x {
        canonical := canonical - {slot};
      }
    }

    /** The second loop over the descendants: it reverts the processed ones and forgets the unprocessed ones. */
    method RevertDescendants(gone: set<Hash>)
      requires Unrepeated(children) && gone <= headers.Keys
      requires forall k :: k in canonical ==> Placed(headers, canonical, k)
      modifies `children, `canonical, `unprocessed
      ensures Unrepeated(children)
      ensures LinksAfter(headers, old(children), gone - old(unprocessed), children)
      ensures canonical == Without(old(canonical), gone - old(unprocessed))
      ensures unprocessed == old(unprocessed) - gone
    {
      var rest := gone;
      ghost var rev: set<Hash> := {};
      while rest != {}
        invariant rest <= gone && Unrepeated(children) && rev == gone - rest - old(unprocessed)
        invariant LinksAfter(headers, old(children), rev, children)
        invariant canonical == Without(old(canonical), rev)
        invariant unprocessed == old(unprocessed) - (gone - rest)
        decreases rest
      {
        var x :| x in rest;
        ghost var children0 := children;
        rest := rest - {x};
        if x in unprocessed {
          unprocessed := unprocessed - {x};
        } else {
          RevertBlock(x);
          LinksCompose(headers, old(children), rev, children0, {x}, children);
          WithoutOne(headers, old(canonical), rev, x);
          rev := rev + {x};
        }
      }
      assert rev == gone - old(unprocessed);
    }

    ghost predicate Valid()
      reads this
    {
      && ValidState(headers, canonical, canonicalHead, children, unprocessed)
      && heads == canonicalHead && Unrepeated(children)
    }

    /** The purge of a canonical block, on any child links. */
    method PurgeCanonical(b: Hash) returns (ghost gone: set<Hash>, ghost order: seq<Hash>)
      requires Valid() && IsCanonical(headers, canonical, b)
      modifies `canonical, `canonicalHead, `heads, `children, `unprocessed
      ensures IsDescendants(old(children), b, gone) && Arranged(order, gone)
      ensures State() == PurgedChains(headers, old(State()), old(unprocessed), b, gone, order)
      ensures unprocessed == old(unprocessed) - gone
      ensures heads == canonicalHead && Unrepeated(children)
      ensures LinksAfter(headers, old(children), gone - old(unprocessed) + {b}, children)
    {
      assert RootedAt(headers, b);
      ContiguousFilled(headers, canonical, canonicalHead);
      CutChainBelow(b);
      var descendants := AllDescendants(children, b);
      gone, order := if descendants.Some? then descendants.value else {}, [];
      DescendantsKnown(headers, children, b, gone);
      if descendants.Some? {
        order := CutDescendants(descendants.value, headers[b].chain);
      }
      FilledPlaced(headers, State());
      ghost var cut := canonical;
      if descendants.Some? {
        RevertDescendants(descendants.value);
      } else {
        assert canonical == Without(canonical, gone - unprocessed);
      }
      ghost var children1 := children;
      WithoutOne(headers, cut, gone - old(unprocessed), b);
      RevertBlock(b);
      LinksCompose(headers, old(children), gone - old(unprocessed), children1, {b}, children);
    }

    /** purge_block_and_all_children_and_set_parent_as_chain_head. Where the first loop finds only harmless targets,
        as it does on live links, b and all its descendants go, and nothing else. */
    method Purge(b: Hash) returns (ghost gone: set<Hash>, ghost order: seq<Hash>)
      requires Valid()
      modifies `canonical, `canonicalHead, `heads, `children, `unprocessed
      ensures !old(IsCanonical(headers, canonical, b)) ==>
                && canonical == old(canonical) && canonicalHead == old(canonicalHead) && heads == old(heads)
                && children == old(children) && unprocessed == old(unprocessed)
      ensures old(IsCanonical(headers, canonical, b)) ==>
                && IsDescendants(old(children), b, gone) && Arranged(order, gone)
                && State() == PurgedChains(headers, old(State()), old(unprocessed), b, gone, order) && heads == canonicalHead
                && unprocessed == old(unprocessed) - gone
                && LinksAfter(headers, old(children), gone - old(unprocessed) + {b}, children)
      ensures old(IsCanonical(headers, canonical, b)) && AllHarmless(headers, old(canonical), old(unprocessed), b, gone) ==>
                && canonical == Without(old(canonical), gone + {b})
                && (forall k :: k in canonical <==> k in old(canonical) && old(canonical)[k] !in gone + {b})
                && (forall k :: k in canonical ==> canonical[k] == old(canonical)[k])
                && (Valid() <==> ParentStays(headers, b, gone))
                && (ParentStays(headers, b, gone) ==> forall c, n :: HeadAfter(headers, old(canonical), State(), c, n))
                && (old(Supported(headers, canonical)) ==> Supported(headers, canonical))
      ensures old(IsCanonical(headers, canonical, b) && Live(headers, children, canonical, unprocessed)) ==>
                && AllHarmless(headers, old(canonical), old(unprocessed), b, gone)
                && (Live(headers, children, canonical, unprocessed) <==>
                    forall p, x :: Detached(headers, old(children), old(unprocessed), b, gone, p, x))
    {
      gone, order := {}, [];
      if IsCanonical(headers, canonical, b) {
        gone, order := PurgeCanonical(b);
        PurgedState(headers, old(State()), State(), old(children), children, old(unprocessed), b, gone, order);
      }
    }
  }
}
