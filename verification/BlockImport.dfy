/** hvm/chains/base.py: receiving blocks that may arrive before the blocks they depend on. A block that
    cannot be imported yet is kept as unprocessed; importing a block retries what waited for it. */
module BlockImport {
  import opened Blocks
  import opened CanonicalChains

  /** Every block x depends on is processed. */
  predicate Ready(headers: Headers, processed: set<Hash>, x: Hash) {
    x in headers && Deps(headers[x]) <= processed
  }

  /** The chain parent, all blocks received from and all reward proofs of a block are processed. */
  ghost predicate HasAll(b: Header, processed: set<Hash>) {
    && (b.parent == GENESIS_PARENT || b.parent in processed)
    && (forall p :: p in b.senders ==> p in processed)
    && (forall p :: p in b.proofs ==> p in processed)
  }

  lemma ReadyIff(headers: Headers, processed: set<Hash>, x: Hash)
    requires x in headers
    ensures Ready(headers, processed, x) <==> HasAll(headers[x], processed)
  {
    var b := headers[x];
    if HasAll(b, processed) {
      forall p | p in Deps(b) ensures p in processed {}
    } else {
      assert exists p :: p in Deps(b) && p !in processed;
    }
  }

  /** An unprocessed block is stored as a child of p, and p is flagged while it is missing. */
  ghost predicate Waits(headers: Headers, links: Links, processed: set<Hash>, unprocessed: set<Hash>, flags: set<Hash>, p: Hash, x: Hash) {
    x in unprocessed && x in headers && p in Deps(headers[x]) ==>
      x in Children(links, p) && (p in processed || p in flags)
  }

  /** all is closed under importing blocks of accepted. */
  ghost predicate ImportClosed(headers: Headers, accepted: set<Hash>, all: set<Hash>) {
    forall x :: x in accepted && Ready(headers, all, x) ==> x in all
  }

  ghost predicate Within(headers: Headers, accepted: set<Hash>, processed: set<Hash>, all: set<Hash>) {
    ImportClosed(headers, accepted, all) ==> processed <= all
  }

  /** A block on top of others is only kept when its parent is here. */
  ghost predicate ParentKnown(headers: Headers, processed: set<Hash>, unprocessed: set<Hash>, x: Hash) {
    x in unprocessed && x in headers ==> headers[x].parent == GENESIS_PARENT || headers[x].parent in processed + unprocessed
  }

  /** The state of a node that keeps every accepted block either processed or unprocessed. */
  ghost predicate Sound(headers: Headers, links: Links, processed: set<Hash>, unprocessed: set<Hash>, flags: set<Hash>) {
    && GENESIS_PARENT !in headers && processed !! unprocessed && processed + unprocessed <= headers.Keys
    && (forall x :: ParentKnown(headers, processed, unprocessed, x))
    && (forall p, x :: Waits(headers, links, processed, unprocessed, flags, p, x))
    && (forall x :: x in processed ==> Ready(headers, processed, x))
    && (forall all :: Within(headers, processed + unprocessed, processed, all))
  }

  /** No unprocessed block could be imported. */
  ghost predicate Saturated(headers: Headers, processed: set<Hash>, unprocessed: set<Hash>) {
    forall x :: x in unprocessed ==> !Ready(headers, processed, x)
  }

  /** Which blocks are processed depends only on which were accepted, not on the order of their arrival. */
  lemma OrderIndependent(headers: Headers, links: Links, processed: set<Hash>, unprocessed: set<Hash>, flags: set<Hash>,
                         links': Links, processed': set<Hash>, unprocessed': set<Hash>, flags': set<Hash>)
    requires Sound(headers, links, processed, unprocessed, flags) && Saturated(headers, processed, unprocessed)
    requires Sound(headers, links', processed', unprocessed', flags') && Saturated(headers, processed', unprocessed')
    requires processed + unprocessed == processed' + unprocessed'
    ensures processed == processed' && unprocessed == unprocessed'
  {
    assert Within(headers, processed + unprocessed, processed, processed');
    assert Within(headers, processed' + unprocessed', processed', processed);
  }

  /** An accepted block is imported exactly if its parent, its senders and its reward proofs are. */
  lemma ImportedIff(headers: Headers, links: Links, processed: set<Hash>, unprocessed: set<Hash>, flags: set<Hash>, x: Hash)
    requires Sound(headers, links, processed, unprocessed, flags) && Saturated(headers, processed, unprocessed)
    requires x in processed + unprocessed
    ensures x in processed <==> HasAll(headers[x], processed)
  {
    ReadyIff(headers, processed, x);
  }

  /** Importing a ready block keeps the state sound, as long as no flag with a waiting child is lost. */
  lemma ImportedSound(headers: Headers, links: Links, processed: set<Hash>, unprocessed: set<Hash>, flags: set<Hash>, x: Hash,
                      links': Links, flags': set<Hash>)
    requires Sound(headers, links, processed, unprocessed, flags) && Ready(headers, processed, x) && x !in processed
    requires forall p, y :: y in Children(links, p) ==> y in Children(links', p)
    requires forall p, y :: FlagKept(links, unprocessed - {x}, flags, flags', p, y)
    ensures Sound(headers, links', processed + {x}, unprocessed - {x}, flags')
  {
    var processed', unprocessed' := processed + {x}, unprocessed - {x};
    forall y ensures ParentKnown(headers, processed', unprocessed', y) {
      assert ParentKnown(headers, processed, unprocessed, y);
    }
    forall p, y ensures Waits(headers, links', processed', unprocessed', flags', p, y) {
      assert Waits(headers, links, processed, unprocessed, flags, p, y);
      assert FlagKept(links, unprocessed', flags, flags', p, y);
    }
    forall all ensures Within(headers, processed' + unprocessed', processed', all) {
      if ImportClosed(headers, processed' + unprocessed', all) {
        assert Within(headers, processed + unprocessed, processed, all);
        assert Ready(headers, all, x);
      }
    }
  }

  lemma UnflaggedSound(headers: Headers, links: Links, processed: set<Hash>, unprocessed: set<Hash>, flags: set<Hash>, x: Hash)
    requires Sound(headers, links, processed, unprocessed, flags) && x in processed
    ensures Sound(headers, links, processed, unprocessed, flags - {x})
  {
    var flags' := flags - {x};
    forall p, y ensures Waits(headers, links, processed, unprocessed, flags', p, y) {
      assert Waits(headers, links, processed, unprocessed, flags, p, y);
    }
  }

  ghost predicate FlagKept(links: Links, unprocessed: set<Hash>, flags: set<Hash>, flags': set<Hash>, p: Hash, y: Hash) {
    p in flags && y in Children(links, p) && y in unprocessed ==> p in flags'
  }

  /** A flag stays unless it belongs to dropped and no child of it is unprocessed. */
  ghost predicate FlagAfter(links: Links, unprocessed: set<Hash>, flags: set<Hash>, dropped: set<Hash>, flags': set<Hash>, p: Hash) {
    p in flags' <==> p in flags && (p in dropped ==> exists c :: c in Children(links, p) && c in unprocessed)
  }

  lemma AllFlagsKept(links: Links, unprocessed: set<Hash>, flags: set<Hash>, dropped: set<Hash>, flags': set<Hash>)
    requires forall p :: FlagAfter(links, unprocessed, flags, dropped, flags', p)
    ensures forall p, y :: FlagKept(links, unprocessed, flags, flags', p, y)
  {
    forall p, y ensures FlagKept(links, unprocessed, flags, flags', p, y) {
      assert FlagAfter(links, unprocessed, flags, dropped, flags', p);
    }
  }

  lemma SavedSound(headers: Headers, links: Links, processed: set<Hash>, unprocessed: set<Hash>, flags: set<Hash>, x: Hash,
                   links': Links, flags': set<Hash>)
    requires Sound(headers, links, processed, unprocessed, flags) && x in headers && x !in processed
    requires forall p, y :: LinkAdded(headers, links, links', x, p, y)
    requires flags <= flags' && Deps(headers[x]) <= processed + flags'
    requires headers[x].parent == GENESIS_PARENT || headers[x].parent in processed + unprocessed
    ensures Sound(headers, links', processed, unprocessed + {x}, flags')
  {
    var unprocessed' := unprocessed + {x};
    forall y ensures ParentKnown(headers, processed, unprocessed', y) {
      assert ParentKnown(headers, processed, unprocessed, y);
    }
    forall p, y ensures Waits(headers, links', processed, unprocessed', flags', p, y) {
      assert Waits(headers, links, processed, unprocessed, flags, p, y);
      assert LinkAdded(headers, links, links', x, p, y);
    }
    forall all ensures Within(headers, processed + unprocessed', processed, all) {
      assert Within(headers, processed + unprocessed, processed, all);
    }
  }

  ghost predicate LinkAdded(headers: Headers, links: Links, links': Links, x: Hash, p: Hash, y: Hash) {
    y in Children(links', p) <==> y in Children(links, p) || (y == x && x in headers && p in Deps(headers[x]))
  }

  /** All unprocessed blocks that could be imported are in the queue. */
  ghost predicate ReadyQueued(headers: Headers, processed: set<Hash>, unprocessed: set<Hash>, queue: seq<Hash>) {
    forall x :: x in unprocessed && Ready(headers, processed, x) ==> x in queue
  }

  /** Whatever importing x makes ready waits under x, which is flagged. */
  lemma NewlyReady(headers: Headers, links: Links, processed: set<Hash>, unprocessed: set<Hash>, flags: set<Hash>, x: Hash, y: Hash)
    requires Sound(headers, links, processed, unprocessed, flags) && x !in processed
    requires y in unprocessed && Ready(headers, processed + {x}, y) && !Ready(headers, processed, y)
    ensures y in Children(links, x) && x in flags
  {
    assert Waits(headers, links, processed, unprocessed, flags, x, y);
    assert x in Deps(headers[y]);
  }

  /** y is stored under p as before, or because it is x and p is among ps. */
  ghost predicate AddedUnder(links: Links, links': Links, ps: set<Hash>, x: Hash, p: Hash, y: Hash) {
    y in Children(links', p) <==> y in Children(links, p) || (y == x && p in ps)
  }

  lemma AddedCompose(links: Links, ps: set<Hash>, links': Links, ps': set<Hash>, links'': Links, x: Hash)
    requires forall p, y :: AddedUnder(links, links', ps, x, p, y)
    requires forall p, y :: AddedUnder(links', links'', ps', x, p, y)
    ensures forall p, y :: AddedUnder(links, links'', ps + ps', x, p, y)
  {
    var all := ps + ps';
    forall p, y ensures AddedUnder(links, links'', all, x, p, y) {
      assert AddedUnder(links, links', ps, x, p, y) && AddedUnder(links', links'', ps', x, p, y);
    }
  }

  lemma AddedKept(headers: Headers, links: Links, links': Links, unprocessed: set<Hash>, flags: set<Hash>, flags': set<Hash>, x: Hash)
    requires forall p, y :: LinkAdded(headers, links, links', x, p, y)
    requires forall p, y :: FlagKept(links', unprocessed, flags, flags', p, y)
    ensures forall p, y :: FlagKept(links, unprocessed, flags, flags', p, y)
    ensures forall p, y :: y in Children(links, p) ==> y in Children(links', p)
  {
    forall p, y ensures FlagKept(links, unprocessed, flags, flags', p, y) {
      assert LinkAdded(headers, links, links', x, p, y) && FlagKept(links', unprocessed, flags, flags', p, y);
    }
    forall p, y | y in Children(links, p) ensures y in Children(links', p) {
      assert LinkAdded(headers, links, links', x, p, y);
    }
  }

  lemma RetryQueued(headers: Headers, links: Links, processed: set<Hash>, unprocessed: set<Hash>, flags: set<Hash>,
                    links': Links, flags': set<Hash>, x: Hash, queue: seq<Hash>, queue': seq<Hash>)
    requires Sound(headers, links, processed, unprocessed, flags) && x in unprocessed
    requires ReadyQueued(headers, processed, unprocessed, queue + [x])
    requires forall p, y :: FlagKept(links, unprocessed - {x}, flags, flags', p, y)
    requires forall p, y :: y in Children(links, p) ==> y in Children(links', p)
    requires queue' == if x in flags' then Reversed(Children(links', x)) + queue else queue
    ensures ReadyQueued(headers, processed + {x}, unprocessed - {x}, queue')
  {
    forall y | y in unprocessed - {x} && Ready(headers, processed + {x}, y) ensures y in queue' {
      if Ready(headers, processed, y) {
        assert y in queue + [x];
      } else {
        NewlyReady(headers, links, processed, unprocessed, flags, x, y);
        assert FlagKept(links, unprocessed - {x}, flags, flags', x, y);
        InReversed(Children(links', x), y);
      }
    }
  }

  /** After a first import, only what waits for the imported block can have become ready. */
  lemma ReceivedReady(headers: Headers, links: Links, processed: set<Hash>, unprocessed: set<Hash>, flags: set<Hash>,
                      links': Links, flags': set<Hash>, x: Hash)
    requires Sound(headers, links, processed, unprocessed, flags) && Saturated(headers, processed, unprocessed)
    requires x !in processed + unprocessed
    requires forall p, y :: FlagKept(links, unprocessed - {x}, flags, flags', p, y)
    requires forall p, y :: y in Children(links, p) ==> y in Children(links', p)
    ensures forall y :: y in unprocessed - {x} && Ready(headers, processed + {x}, y) ==> x in flags' && y in Children(links', x)
  {
    forall y | y in unprocessed - {x} && Ready(headers, processed + {x}, y) ensures x in flags' && y in Children(links', x) {
      NewlyReady(headers, links, processed, unprocessed, flags, x, y);
      assert FlagKept(links, unprocessed - {x}, flags, flags', x, y);
    }
  }

  /** The order in which extendleft puts a list in front of a deque. */
  function Reversed(s: seq<Hash>): seq<Hash> {
    if s == [] then [] else Reversed(s[1..]) + [s[0]]
  }

  lemma {:induction false} InReversed(s: seq<Hash>, x: Hash)
    ensures x in Reversed(s) <==> x in s
    ensures |Reversed(s)| == |s| && forall i :: 0 <= i < |s| ==> Reversed(s)[i] == s[|s| - 1 - i]
  {
    if s != [] { InReversed(s[1..], x); }
  }

  function Elements(s: seq<Hash>): set<Hash> { set x | x in s }

  /** Two blocks that would have the same place in the same chain. */
  predicate SameSlot(headers: Headers, x: Hash, y: Hash) {
    x in headers && y in headers && headers[x].chain == headers[y].chain && headers[x].number == headers[y].number
  }

  /** No two accepted blocks compete for a slot. */
  ghost predicate OnePerSlot(headers: Headers, accepted: set<Hash>) {
    forall x, y :: Competing(headers, accepted, x, y) ==> x == y
  }

  ghost predicate Competing(headers: Headers, accepted: set<Hash>, x: Hash, y: Hash) {
    x in accepted && y in accepted && SameSlot(headers, x, y)
  }

  /** Another accepted block has the place of x. */
  predicate Taken(headers: Headers, accepted: set<Hash>, x: Hash) {
    exists y :: y in accepted && y != x && SameSlot(headers, x, y)
  }

  /** y is another block of the set with the chain and number of x. */
  ghost predicate OtherInSlot(headers: Headers, blocks: set<Hash>, x: Hash, y: Hash)
    requires x in headers && blocks <= headers.Keys
  {
    y in blocks && y != x && headers[y].chain == headers[x].chain && headers[y].number == headers[x].number
  }

  lemma TakenIff(headers: Headers, accepted: set<Hash>, x: Hash)
    requires x in headers && accepted <= headers.Keys
    ensures Taken(headers, accepted, x) <==> exists y :: OtherInSlot(headers, accepted, x, y)
  {
    if Taken(headers, accepted, x) {
      var y :| y in accepted && y != x && SameSlot(headers, x, y);
      assert OtherInSlot(headers, accepted, x, y);
    }
  }

  lemma AcceptOne(headers: Headers, accepted: set<Hash>, x: Hash)
    requires OnePerSlot(headers, accepted) && !Taken(headers, accepted, x)
    ensures OnePerSlot(headers, accepted + {x})
  {
    var all := accepted + {x};
    forall y, z | Competing(headers, all, y, z) ensures y == z {
      assert Competing(headers, accepted, y, z) || y == x || z == x;
    }
  }

  /** The imported blocks of a chain are a run from number 0 up, each on top of the one below, and no fork. */
  lemma ImportedRuns(headers: Headers, links: Links, processed: set<Hash>, unprocessed: set<Hash>, flags: set<Hash>, x: Hash, y: Hash)
    requires Rooted(headers) && Sound(headers, links, processed, unprocessed, flags)
    requires OnePerSlot(headers, processed + unprocessed) && x in processed
    ensures headers[x].number > 0 ==>
              headers[x].parent in processed && headers[headers[x].parent].number == headers[x].number - 1
    ensures y in processed && headers[x].chain == headers[y].chain && headers[x].number == headers[y].number ==> x == y
  {
    assert RootedAt(headers, x) && Ready(headers, processed, x);
    assert y in processed && SameSlot(headers, x, y) ==> Competing(headers, processed + unprocessed, x, y);
  }

  /** What happens to a block that is received when no block may be replaced. */
  datatype Outcome = ReplacementRefused | ParentMissing | Known | Saved | Imported

  class Node {
    const headers: Headers
    var children: Links
    /** The canonical blocks, and those kept until their dependencies arrive. */
    var processed: set<Hash>
    var unprocessed: set<Hash>
    /** has_unprocessed_children: the blocks something unprocessed may be waiting for. */
    var flags: set<Hash>

    ghost predicate Valid()
      reads this
    {
      && Rooted(headers) && Sound(headers, children, processed, unprocessed, flags)
      && Saturated(headers, processed, unprocessed) && OnePerSlot(headers, processed + unprocessed)
    }

    constructor (headers: Headers)
      requires Rooted(headers)
      ensures Valid() && this.headers == headers && processed == {} && unprocessed == {}
    {
      this.headers, children, processed, unprocessed, flags := headers, map[], {}, {}, {};
    }

    /** add_block_child */
    method AddBlockChild(p: Hash, x: Hash)
      modifies `children
      ensures forall q, y :: AddedUnder(old(children), children, {p}, x, q, y)
    {
      if x !in Children(children, p) {
        children := children[p := Children(children, p) + [x]];
      }
    }

    method AddBlockChildren(parents: seq<Hash>, x: Hash)
      modifies `children
      ensures forall p, y :: AddedUnder(old(children), children, Elements(parents), x, p, y)
    {
      ghost var done: set<Hash> := {};
      for i := 0 to |parents|
        invariant done == Elements(parents[..i])
        invariant forall p, y :: AddedUnder(old(children), children, done, x, p, y)
      {
        ghost var before := children;
        AddBlockChild(parents[i], x);
        AddedCompose(old(children), done, before, {parents[i]}, children, x);
        done := done + {parents[i]};
        assert parents[..i + 1] == parents[..i] + [parents[i]];
      }
      assert parents[..|parents|] == parents;
    }

    /** The child links that persist_block and persist_non_canonical_block add. */
    method AddToParents(x: Hash)
      requires x in headers
      modifies `children
      ensures forall p, y :: LinkAdded(headers, old(children), children, x, p, y)
    {
      var b := headers[x];
      AddBlockChildren(b.senders, x);
      ghost var children1 := children;
      AddBlockChildren(b.proofs, x);
      AddedCompose(old(children), Elements(b.senders), children1, Elements(b.proofs), children, x);
      ghost var children2 := children;
      var parents := if b.parent == GENESIS_PARENT then [] else [b.parent];
      AddBlockChildren(parents, x);
      AddedCompose(old(children), Elements(b.senders) + Elements(b.proofs), children2, Elements(parents), children, x);
      assert Deps(b) == Elements(b.senders) + Elements(b.proofs) + Elements(parents);
      forall p, y ensures LinkAdded(headers, old(children), children, x, p, y) {
        assert AddedUnder(old(children), children, Elements(b.senders) + Elements(b.proofs) + Elements(parents), x, p, y);
      }
    }

    /** check_all_children_blocks_to_see_if_any_unprocessed */
    predicate AnyChildUnprocessed(p: Hash)
      reads this
    {
      p in flags && exists c :: c in Children(children, p) && c in unprocessed
    }

    /** Drops the flag of p unless one of its children is unprocessed; dropped are the parents seen so far. */
    method DropFlag(p: Hash, ghost flags0: set<Hash>, ghost dropped: set<Hash>)
      requires forall q :: FlagAfter(children, unprocessed, flags0, dropped, flags, q)
      modifies `flags
      ensures forall q :: FlagAfter(children, unprocessed, flags0, dropped + {p}, flags, q)
    {
      ghost var before, both := flags, dropped + {p};
      if !AnyChildUnprocessed(p) { flags := flags - {p}; }
      forall q ensures FlagAfter(children, unprocessed, flags0, both, flags, q) {
        assert FlagAfter(children, unprocessed, flags0, dropped, before, q);
      }
    }

    /** remove_block_from_unprocessed: the flag of a parent goes when no other child of it waits. */
    method RemoveFromUnprocessed(x: Hash)
      requires x in headers
      modifies `unprocessed, `flags
      ensures unprocessed == old(unprocessed) - {x}
      ensures x !in old(unprocessed) ==> flags == old(flags)
      ensures x in old(unprocessed) ==>
                forall p :: FlagAfter(children, unprocessed, old(flags), UnlinkedFrom(headers[x]), flags, p)
      ensures forall p :: p in flags ==> p in old(flags)
      ensures forall p :: p in old(flags) && p !in flags ==> p in headers[x].senders || p == headers[x].parent
    {
      if x !in unprocessed {
        assert unprocessed - {x} == unprocessed;
        return;
      }
      unprocessed := unprocessed - {x};
      var senders := headers[x].senders;
      ghost var dropped: set<Hash> := {};
      for i := 0 to |senders|
        invariant unprocessed == old(unprocessed) - {x} && dropped == Elements(senders[..i])
        invariant forall p :: FlagAfter(children, unprocessed, old(flags), dropped, flags, p)
      {
        DropFlag(senders[i], old(flags), dropped);
        dropped := dropped + {senders[i]};
        assert senders[..i + 1] == senders[..i] + [senders[i]];
      }
      assert senders[..|senders|] == senders;
      DropFlag(headers[x].parent, old(flags), dropped);
      assert dropped + {headers[x].parent} == UnlinkedFrom(headers[x]);
      forall p ensures p in flags ==> p in old(flags) {
        assert FlagAfter(children, unprocessed, old(flags), UnlinkedFrom(headers[x]), flags, p);
      }
      forall p | p in old(flags) && p !in flags ensures p in headers[x].senders || p == headers[x].parent {
        assert FlagAfter(children, unprocessed, old(flags), UnlinkedFrom(headers[x]), flags, p);
      }
    }

    /** save_block_as_unprocessed: flags what the block waits for, and stores it as a child. */
    method SaveAsUnprocessed(x: Hash)
      requires Sound(headers, children, processed, unprocessed, flags) && x in headers && x !in processed
      requires headers[x].parent == GENESIS_PARENT || headers[x].parent in processed + unprocessed
      modifies `children, `unprocessed, `flags
      ensures Sound(headers, children, processed, unprocessed, flags)
      ensures unprocessed == old(unprocessed) + {x}
      ensures x !in old(unprocessed) ==>
                && flags == old(flags) + (Deps(headers[x]) - processed)
                && forall p, y :: LinkAdded(headers, old(children), children, x, p, y)
      ensures x in old(unprocessed) ==> flags == old(flags) && children == old(children)
    {
      if x in unprocessed { return; }
      var b := headers[x];
      var missing := set p | p in Elements(b.senders) + Elements(b.proofs) && p !in processed;
      AddToParents(x);
      flags := flags + (if b.parent in unprocessed then {b.parent} else {}) + missing;
      assert Deps(b) <= processed + flags;
      SavedSound(headers, old(children), processed, unprocessed, old(flags), x, children, flags);
      unprocessed := unprocessed + {x};
    }

    /** _import_block: a block whose dependencies are all processed is imported, another one is kept. */
    method ImportBlock(x: Hash)
      requires Sound(headers, children, processed, unprocessed, flags) && x in headers && x !in processed
      requires headers[x].parent == GENESIS_PARENT || headers[x].parent in processed + unprocessed
      modifies `children, `processed, `unprocessed, `flags
      ensures Sound(headers, children, processed, unprocessed, flags)
      ensures Ready(headers, old(processed), x) ==>
                && processed == old(processed) + {x} && unprocessed == old(unprocessed) - {x}
                && (forall p, y :: FlagKept(old(children), unprocessed, old(flags), flags, p, y))
                && (forall p, y :: y in Children(old(children), p) ==> y in Children(children, p))
      ensures !Ready(headers, old(processed), x) ==> processed == old(processed) && unprocessed == old(unprocessed) + {x}
      ensures x in processed <==> HasAll(headers[x], old(processed))
    {
      ReadyIff(headers, processed, x);
      if headers[x].parent !in unprocessed && Ready(headers, processed, x) {
        AddToParents(x);
        assert flags == old(flags) && unprocessed == old(unprocessed);
        RemoveFromUnprocessed(x);
        if x in old(unprocessed) {
          AllFlagsKept(children, unprocessed, old(flags), UnlinkedFrom(headers[x]), flags);
        }
        processed := processed + {x};
        AddedKept(headers, old(children), children, unprocessed, old(flags), flags, x);
        ImportedSound(headers, old(children), old(processed), old(unprocessed), old(flags), x, children, flags);
      } else {
        SaveAsUnprocessed(x);
      }
    }

    /** One retry: an imported block puts its own children at the far end of the queue. */
    method Retry(x: Hash, queue: seq<Hash>) returns (queue': seq<Hash>)
      requires Sound(headers, children, processed, unprocessed, flags) && x in unprocessed
      requires ReadyQueued(headers, processed, unprocessed, queue + [x])
      modifies `children, `processed, `unprocessed, `flags
      ensures Sound(headers, children, processed, unprocessed, flags)
      ensures ReadyQueued(headers, processed, unprocessed, queue')
      ensures old(processed) <= processed && processed + unprocessed == old(processed) + old(unprocessed)
      ensures unprocessed <= old(unprocessed) && (unprocessed == old(unprocessed) ==> queue' == queue)
    {
      queue' := queue;
      assert ParentKnown(headers, processed, unprocessed, x);
      ImportBlock(x);
      if x !in unprocessed {
        if x in flags { queue' := Reversed(Children(children, x)) + queue; }
        RetryQueued(headers, old(children), old(processed), old(unprocessed), old(flags), children, flags, x, queue, queue');
        UnflaggedSound(headers, children, processed, unprocessed, flags, x);
        flags := flags - {x};
      }
    }

    /** import_all_unprocessed_descendants: it retries what waited for root, then what waited for that, until
        no unprocessed block could be imported. */
    method ImportDescendants(root: Hash)
      requires Sound(headers, children, processed, unprocessed, flags) && root in processed
      requires forall x :: x in unprocessed && Ready(headers, processed, x) ==> root in flags && x in Children(children, root)
      modifies `children, `processed, `unprocessed, `flags
      ensures Sound(headers, children, processed, unprocessed, flags) && Saturated(headers, processed, unprocessed)
      ensures old(processed) <= processed && processed + unprocessed == old(processed) + old(unprocessed)
    {
      if root in flags {
        var queue := Children(children, root);
        if queue != [] {
          RetryAll(queue);
          return;
        }
      }
      UnflaggedSound(headers, children, processed, unprocessed, flags, root);
      flags := flags - {root};
    }

    /** The loop of it: blocks are taken from the right end of the queue until it is empty. */
    method RetryAll(queue0: seq<Hash>)
      requires Sound(headers, children, processed, unprocessed, flags) && queue0 != []
      requires ReadyQueued(headers, processed, unprocessed, queue0)
      modifies `children, `processed, `unprocessed, `flags
      ensures Sound(headers, children, processed, unprocessed, flags) && Saturated(headers, processed, unprocessed)
      ensures old(processed) <= processed && processed + unprocessed == old(processed) + old(unprocessed)
    {
      var queue := queue0;
      while true
        invariant queue != []
        invariant Sound(headers, children, processed, unprocessed, flags)
        invariant ReadyQueued(headers, processed, unprocessed, queue)
        invariant old(processed) <= processed && processed + unprocessed == old(processed) + old(unprocessed)
        decreases unprocessed, |queue|
      {
        var x := queue[|queue| - 1];
        assert queue == queue[..|queue| - 1] + [x];
        queue := queue[..|queue| - 1];
        if x in unprocessed { queue := Retry(x, queue); }
        if queue == [] { return; }
      }
    }

    /** Receiving one block, as import_block does when it may not replace blocks. */
    method Receive(x: Hash) returns (r: Outcome)
      requires Valid() && x in headers
      modifies `children, `processed, `unprocessed, `flags
      ensures Valid()
      ensures r == ReplacementRefused <==> x in old(processed) || exists y :: OtherInSlot(headers, old(processed) + old(unprocessed), x, y)
      ensures r == Known <==> x in old(unprocessed)
      ensures r == ParentMissing <==>
                && r != ReplacementRefused && x !in old(unprocessed)
                && headers[x].number > 0 && headers[x].parent !in old(processed) + old(unprocessed)
      ensures r.ReplacementRefused? || r.Known? || r.ParentMissing? ==>
                processed == old(processed) && unprocessed == old(unprocessed)
      ensures r == Saved ==> !HasAll(headers[x], old(processed)) && processed == old(processed) && unprocessed == old(unprocessed) + {x}
      ensures r == Imported ==>
                HasAll(headers[x], old(processed)) && old(processed) + {x} <= processed && processed + unprocessed == old(processed) + old(unprocessed) + {x}
    {
      assert RootedAt(headers, x);
      TakenIff(headers, processed + unprocessed, x);
      if x in processed || Taken(headers, processed + unprocessed, x) {
        forall y | x in unprocessed && y in processed + unprocessed && SameSlot(headers, x, y) ensures y == x {
          assert Competing(headers, processed + unprocessed, x, y);
        }
        return ReplacementRefused;
      }
      if x in unprocessed { return Known; }
      var parent := headers[x].parent;
      if parent != GENESIS_PARENT && parent !in processed + unprocessed { return ParentMissing; }
      AcceptOne(headers, processed + unprocessed, x);
      ImportBlock(x);
      assert processed + unprocessed == old(processed) + old(unprocessed) + {x};
      if x in unprocessed { return Saved; }
      ReceivedReady(headers, old(children), old(processed), old(unprocessed), old(flags), children, flags, x);
      ImportDescendants(x);
      return Imported;
    }
  }
}
