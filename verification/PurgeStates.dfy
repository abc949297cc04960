/** What purging a block does to the canonical chains and the child links, as values. */
module PurgeStates {
  import opened Blocks
  import opened CanonicalChains
  import opened Sequences

  /** Every child link leads to a block that is canonical or unprocessed, never both. */
  ghost predicate Live(headers: Headers, links: Links, canonical: Canonical, unprocessed: set<Hash>) {
    && (forall p, x :: LiveLink(headers, links, canonical, unprocessed, p, x))
    && (forall x :: x in unprocessed ==> x in headers && !IsCanonical(headers, canonical, x))
  }

  ghost predicate LiveLink(headers: Headers, links: Links, canonical: Canonical, unprocessed: set<Hash>, p: Hash, x: Hash) {
    x in Children(links, p) ==> x in unprocessed || IsCanonical(headers, canonical, x)
  }

  /** A canonical block is stored as a child of every block it depends on. */
  ghost predicate Linked(headers: Headers, links: Links, canonical: Canonical) {
    forall p, x :: LinkedTo(headers, links, canonical, p, x)
  }

  ghost predicate LinkedTo(headers: Headers, links: Links, canonical: Canonical, p: Hash, x: Hash) {
    IsCanonical(headers, canonical, x) && p in Deps(headers[x]) ==> x in Children(links, p)
  }

  ghost predicate Unrepeated(links: Links) {
    forall p :: p in links ==> Distinct(links[p])
  }

  /** The canonical blocks are closed under dependencies. */
  ghost predicate Supported(headers: Headers, canonical: Canonical) {
    forall p, x :: SupportedBy(headers, canonical, p, x)
  }

  ghost predicate SupportedBy(headers: Headers, canonical: Canonical, p: Hash, x: Hash) {
    IsCanonical(headers, canonical, x) && p in Deps(headers[x]) ==> IsCanonical(headers, canonical, p)
  }

  /** Reverting the blocks rev leaves of the child links those that LinkAfter says. */
  ghost predicate LinksAfter(headers: Headers, links: Links, rev: set<Hash>, links': Links) {
    forall p, x :: LinkAfter(headers, links, rev, links', p, x)
  }

  ghost predicate LinkAfter(headers: Headers, links: Links, rev: set<Hash>, links': Links, p: Hash, x: Hash) {
    x in Children(links', p) <==>
    x in Children(links, p) && p !in rev && !(x in rev && x in headers && (p in headers[x].senders || p == headers[x].parent))
  }

  ghost predicate LinkCut(links: Links, links': Links, parents: set<Hash>, x: Hash, p: Hash, y: Hash) {
    y in Children(links', p) <==> y in Children(links, p) && !(y == x && p in parents)
  }

  lemma CutCompose(links: Links, parents: set<Hash>, links': Links, parents': set<Hash>, links'': Links, x: Hash)
    requires forall p, y :: LinkCut(links, links', parents, x, p, y)
    requires forall p, y :: LinkCut(links', links'', parents', x, p, y)
    ensures forall p, y :: LinkCut(links, links'', parents + parents', x, p, y)
  {
    var all := parents + parents';
    forall p, y ensures LinkCut(links, links'', all, x, p, y) {
      assert LinkCut(links, links', parents, x, p, y) && LinkCut(links', links'', parents', x, p, y);
    }
  }

  lemma LinksCompose(headers: Headers, links: Links, rev: set<Hash>, links': Links, rev': set<Hash>, links'': Links)
    requires LinksAfter(headers, links, rev, links') && LinksAfter(headers, links', rev', links'')
    ensures LinksAfter(headers, links, rev + rev', links'')
  {
    forall p, x ensures LinkAfter(headers, links, rev + rev', links'', p, x) {
      assert LinkAfter(headers, links, rev, links', p, x) && LinkAfter(headers, links', rev', links'', p, x);
    }
  }

  /** The slots whose blocks are not in gone. */
  function Without(canonical: Canonical, gone: set<Hash>): Canonical {
    map k | k in canonical && canonical[k] !in gone :: canonical[k]
  }

  /** The block of a slot belongs there. */
  ghost predicate Placed(headers: Headers, canonical: Canonical, k: (nat, nat)) {
    k in canonical ==> canonical[k] in headers && k == (headers[canonical[k]].chain, headers[canonical[k]].number)
  }

  lemma WithoutOne(headers: Headers, canonical: Canonical, gone: set<Hash>, x: Hash)
    requires forall k :: k in canonical ==> Placed(headers, canonical, k)
    requires x in headers
    ensures var rest := Without(canonical, gone);
            Without(canonical, gone + {x}) ==
            if IsCanonical(headers, rest, x) then rest - {(headers[x].chain, headers[x].number)} else rest
  {
    forall k | k in canonical && canonical[k] == x ensures k == (headers[x].chain, headers[x].number) {
      assert Placed(headers, canonical, k);
    }
  }

  /** What lies above a block of gone in its chain is in gone too. */
  ghost predicate UpClosed(canonical: Canonical, gone: set<Hash>) {
    forall c, n :: UpClosedAt(canonical, gone, c, n)
  }

  ghost predicate UpClosedAt(canonical: Canonical, gone: set<Hash>, c: nat, n: nat) {
    (c, n) in canonical && (c, n + 1) in canonical && canonical[(c, n)] in gone ==> canonical[(c, n + 1)] in gone
  }

  lemma {:induction false} AllAbove(headers: Headers, canonical: Canonical, head: Heads, gone: set<Hash>, c: nat, m: nat, n: nat)
    requires Contiguous(headers, canonical, head) && UpClosed(canonical, gone)
    requires m <= n && (c, m) in canonical && (c, n) in canonical && canonical[(c, m)] in gone
    ensures canonical[(c, n)] in gone
    decreases n
  {
    if m < n {
      SlotBlock(headers, canonical, head, c, n);
      AllAbove(headers, canonical, head, gone, c, m, n - 1);
      assert UpClosedAt(canonical, gone, c, n - 1);
    }
  }

  /** The lowest block of a chain that is in gone. */
  ghost predicate Lowest(headers: Headers, canonical: Canonical, gone: set<Hash>, x: Hash) {
    x in gone && IsCanonical(headers, canonical, x) && headers[x].parent !in gone
  }

  lemma {:induction false} LowestExists(headers: Headers, canonical: Canonical, head: Heads, gone: set<Hash>, c: nat, n: nat)
      returns (m: nat)
    requires Contiguous(headers, canonical, head) && GENESIS_PARENT !in gone
    requires (c, n) in canonical && canonical[(c, n)] in gone
    ensures m <= n && (c, m) in canonical && Lowest(headers, canonical, gone, canonical[(c, m)])
    decreases n
  {
    SlotBlock(headers, canonical, head, c, n);
    m := n;
    if n > 0 && canonical[(c, n - 1)] in gone {
      m := LowestExists(headers, canonical, head, gone, c, n - 1);
    }
  }

  /** The first loop cuts the chain of x: a processed descendant of another chain, whose parent is no descendant. */
  ghost predicate IsTarget(headers: Headers, unprocessed: set<Hash>, gone: set<Hash>, skip: nat, x: Hash) {
    x in gone && x !in unprocessed && x in headers && headers[x].parent !in gone && headers[x].chain != skip
  }

  /** Cutting below x is right: its parent is canonical, and what has its place in the chain is a descendant too. */
  ghost predicate Harmless(headers: Headers, canonical: Canonical, gone: set<Hash>, x: Hash)
    requires x in headers
  {
    var slot := (headers[x].chain, headers[x].number);
    && (headers[x].number > 0 ==> IsCanonical(headers, canonical, headers[x].parent))
    && (slot in canonical ==> canonical[slot] in gone)
  }

  ghost predicate HarmlessTarget(headers: Headers, canonical: Canonical, unprocessed: set<Hash>, gone: set<Hash>, skip: nat, x: Hash) {
    IsTarget(headers, unprocessed, gone, skip, x) ==> Harmless(headers, canonical, gone, x)
  }

  /** Cutting a chain at a harmless target removes exactly its blocks of gone. */
  lemma CutAtTarget(headers: Headers, canonical: Canonical, head: Heads, gone: set<Hash>, x: Hash, n: nat)
    requires Rooted(headers) && Contiguous(headers, canonical, head) && UpClosed(canonical, gone)
    requires x in headers && headers[x].parent !in gone && Harmless(headers, canonical, gone, x)
    requires (headers[x].chain, n) in canonical
    ensures n >= headers[x].number <==> canonical[(headers[x].chain, n)] in gone
  {
    var c, m := headers[x].chain, headers[x].number;
    assert RootedAt(headers, x);
    if n >= m {
      SlotsBelow(headers, canonical, head, c, m, n);
      AllAbove(headers, canonical, head, gone, c, m, n);
    } else if canonical[(c, n)] in gone {
      AllAbove(headers, canonical, head, gone, c, n, m - 1);
    }
  }

  ghost predicate CutSlot(canonical: Canonical, canonical': Canonical, gone: set<Hash>, skip: nat, k: (nat, nat)) {
    && (k in canonical' <==> k in canonical && (k.0 == skip || canonical[k] !in gone))
    && (k in canonical' ==> canonical'[k] == canonical[k])
  }

  ghost predicate CutSlotOf(canonical: Canonical, canonical': Canonical, gone: set<Hash>, done: set<nat>, k: (nat, nat)) {
    && (k in canonical' <==> k in canonical && (k.0 !in done || canonical[k] !in gone))
    && (k in canonical' ==> canonical'[k] == canonical[k])
  }

  /** The first loop of the purge when it meets the descendants in the given order. */
  ghost function CutInOrder(headers: Headers, unprocessed: set<Hash>, gone: set<Hash>, skip: nat, order: seq<Hash>, s: Chains): Chains
    requires Rooted(headers)
  {
    if order == [] then s
    else
      var s' := CutInOrder(headers, unprocessed, gone, skip, order[..|order| - 1], s);
      CutNext(headers, unprocessed, gone, skip, order[|order| - 1], s')
  }

  ghost function CutNext(headers: Headers, unprocessed: set<Hash>, gone: set<Hash>, skip: nat, x: Hash, s: Chains): Chains
    requires Rooted(headers)
  {
    if IsTarget(headers, unprocessed, gone, skip, x) then assert RootedAt(headers, x); CutBelow(headers, s, x) else s
  }

  /** In every order the slots stay filled. */
  lemma {:induction false} CutInOrderFills(headers: Headers, unprocessed: set<Hash>, gone: set<Hash>, skip: nat, order: seq<Hash>, s: Chains)
    requires Rooted(headers) && Filled(headers, s)
    ensures Filled(headers, CutInOrder(headers, unprocessed, gone, skip, order, s))
  {
    if order != [] {
      var init, x := order[..|order| - 1], order[|order| - 1];
      CutInOrderFills(headers, unprocessed, gone, skip, init, s);
      if IsTarget(headers, unprocessed, gone, skip, x) {
        assert RootedAt(headers, x);
        CutBelowFills(headers, CutInOrder(headers, unprocessed, gone, skip, init, s), x);
      }
    }
  }

  /** The chains that were cut. */
  ghost function TargetChains(headers: Headers, unprocessed: set<Hash>, gone: set<Hash>, skip: nat, order: seq<Hash>): set<nat> {
    set x | x in order && IsTarget(headers, unprocessed, gone, skip, x) :: headers[x].chain
  }

  /** One more harmless target: its chain loses its blocks of gone. */
  lemma CutNextSlots(headers: Headers, canonical: Canonical, head: Heads, gone: set<Hash>, done: set<nat>, x: Hash, s: Chains)
    requires Rooted(headers) && Contiguous(headers, canonical, head) && UpClosed(canonical, gone)
    requires x in headers && headers[x].parent !in gone && Harmless(headers, canonical, gone, x)
    requires headers[x].number > 0 ==> headers[x].parent in headers
    requires Contiguous(headers, s.slots, s.heads) && forall k :: CutSlotOf(canonical, s.slots, gone, done, k)
    ensures var s' := CutBelow(headers, s, x);
            Contiguous(headers, s'.slots, s'.heads) && forall k :: CutSlotOf(canonical, s'.slots, gone, done + {headers[x].chain}, k)
  {
    var c, n := headers[x].chain, headers[x].number;
    assert RootedAt(headers, x);
    if n > 0 { assert CutSlotOf(canonical, s.slots, gone, done, (c, n - 1)); }
    CutBelowCanonical(headers, s.slots, s.heads, x);
    var s', done' := CutBelow(headers, s, x), done + {c};
    forall k ensures CutSlotOf(canonical, s'.slots, gone, done', k) {
      assert CutSlotOf(canonical, s.slots, gone, done, k);
      if k in canonical && k.0 == c {
        assert k == (c, k.1);
        CutAtTarget(headers, canonical, head, gone, x, k.1);
      }
    }
  }

  /** In any order, harmless targets cut their chains right. */
  lemma {:induction false} CutInOrderSlots(headers: Headers, canonical: Canonical, head: Heads, unprocessed: set<Hash>, gone: set<Hash>, skip: nat, order: seq<Hash>)
    requires Rooted(headers) && Contiguous(headers, canonical, head) && UpClosed(canonical, gone)
    requires forall x :: HarmlessTarget(headers, canonical, unprocessed, gone, skip, x)
    ensures var s := CutInOrder(headers, unprocessed, gone, skip, order, Chains(canonical, head));
            var done := TargetChains(headers, unprocessed, gone, skip, order);
            Contiguous(headers, s.slots, s.heads) && forall k :: CutSlotOf(canonical, s.slots, gone, done, k)
  {
    if order != [] {
      var init, x := order[..|order| - 1], order[|order| - 1];
      CutInOrderSlots(headers, canonical, head, unprocessed, gone, skip, init);
      assert order == init + [x];
      var s := CutInOrder(headers, unprocessed, gone, skip, init, Chains(canonical, head));
      var done := TargetChains(headers, unprocessed, gone, skip, init);
      var done' := TargetChains(headers, unprocessed, gone, skip, order);
      if IsTarget(headers, unprocessed, gone, skip, x) {
        assert RootedAt(headers, x) && HarmlessTarget(headers, canonical, unprocessed, gone, skip, x);
        CutNextSlots(headers, canonical, head, gone, done, x, s);
        assert done' == done + {headers[x].chain};
      } else {
        assert done' == done;
      }
    }
  }

  /** order lists the members of s. */
  ghost predicate Arranged(order: seq<Hash>, s: set<Hash>) {
    Distinct(order) && forall x :: x in order <==> x in s
  }

  lemma {:induction false} ArrangementExists(s: set<Hash>) returns (order: seq<Hash>)
    ensures Arranged(order, s)
  {
    order := [];
    if s != {} {
      var x :| x in s;
      var rest := ArrangementExists(s - {x});
      ConcatDistinct(rest, [x]);
      order := rest + [x];
    }
  }

  /** In every order of the descendants, harmless targets make the first loop remove exactly the descendants of the other chains. */
  lemma FirstLoopExact(headers: Headers, canonical: Canonical, head: Heads, unprocessed: set<Hash>, gone: set<Hash>, skip: nat, order: seq<Hash>)
    requires Rooted(headers) && Contiguous(headers, canonical, head) && UpClosed(canonical, gone) && GENESIS_PARENT !in gone
    requires forall x :: HarmlessTarget(headers, canonical, unprocessed, gone, skip, x)
    requires forall x :: x in unprocessed ==> !IsCanonical(headers, canonical, x)
    requires Arranged(order, gone)
    ensures var s := CutInOrder(headers, unprocessed, gone, skip, order, Chains(canonical, head));
            Contiguous(headers, s.slots, s.heads) && forall k :: CutSlot(canonical, s.slots, gone, skip, k)
  {
    CutInOrderSlots(headers, canonical, head, unprocessed, gone, skip, order);
    var s := CutInOrder(headers, unprocessed, gone, skip, order, Chains(canonical, head));
    var done := TargetChains(headers, unprocessed, gone, skip, order);
    forall k ensures CutSlot(canonical, s.slots, gone, skip, k) {
      assert CutSlotOf(canonical, s.slots, gone, done, k);
      if k in canonical && canonical[k] in gone && k.0 != skip {
        assert k == (k.0, k.1);
        var m := LowestExists(headers, canonical, head, gone, k.0, k.1);
        SlotBlock(headers, canonical, head, k.0, m);
        var x := canonical[(k.0, m)];
        assert x in order && IsTarget(headers, unprocessed, gone, skip, x);
      }
    }
  }

  /** gone is what descends from b. */
  ghost predicate IsDescendants(links: Links, b: Hash, gone: set<Hash>) {
    forall x :: x in gone <==> Descends(links, b, x)
  }

  lemma DescendantsClosed(links: Links, b: Hash, gone: set<Hash>, p: Hash, x: Hash)
    requires IsDescendants(links, b, gone) && p in gone + {b} && x in Children(links, p)
    ensures x in gone
  {
    if p in gone { DescendsSnoc(links, b, p, x); } else { DescendsFirst(links, b, x); }
  }

  /** A canonical block that depends on b or on a descendant of b is itself a descendant. */
  lemma DependentsGone(headers: Headers, links: Links, canonical: Canonical, b: Hash, gone: set<Hash>, p: Hash, x: Hash)
    requires Linked(headers, links, canonical) && IsDescendants(links, b, gone)
    requires IsCanonical(headers, canonical, x) && p in Deps(headers[x]) && p in gone + {b}
    ensures x in gone
  {
    assert LinkedTo(headers, links, canonical, p, x);
    DescendantsClosed(links, b, gone, p, x);
  }

  lemma DescendantsUpClosed(headers: Headers, links: Links, canonical: Canonical, head: Heads, b: Hash, gone: set<Hash>, c: nat, n: nat)
    requires Contiguous(headers, canonical, head) && Linked(headers, links, canonical) && GENESIS_PARENT !in headers
    requires IsDescendants(links, b, gone)
    requires (c, n) in canonical && (c, n + 1) in canonical && canonical[(c, n)] in gone + {b}
    ensures canonical[(c, n + 1)] in gone
  {
    SlotBlock(headers, canonical, head, c, n);
    SlotBlock(headers, canonical, head, c, n + 1);
    DependentsGone(headers, links, canonical, b, gone, canonical[(c, n)], canonical[(c, n + 1)]);
  }

  /** What the purge needs of the state before it: no child link need be live. */
  ghost predicate ValidState(headers: Headers, canonical: Canonical, head: Heads, links: Links, unprocessed: set<Hash>) {
    && Rooted(headers)
    && Contiguous(headers, canonical, head)
    && Linked(headers, links, canonical)
    && (forall p, x :: KnownLink(headers, links, p, x))
    && (forall x :: x in unprocessed ==> x in headers && !IsCanonical(headers, canonical, x))
  }

  /** A child link leads to a block whose header was saved. */
  ghost predicate KnownLink(headers: Headers, links: Links, p: Hash, x: Hash) {
    x in Children(links, p) ==> x in headers
  }

  /** A state with b canonical, and gone what descends from it. */
  ghost predicate PurgeOf(headers: Headers, canonical: Canonical, head: Heads, links: Links, unprocessed: set<Hash>, b: Hash, gone: set<Hash>) {
    ValidState(headers, canonical, head, links, unprocessed) && IsCanonical(headers, canonical, b) && IsDescendants(links, b, gone)
  }

  lemma DescendantsKnown(headers: Headers, links: Links, b: Hash, gone: set<Hash>)
    requires forall p, x :: KnownLink(headers, links, p, x)
    requires IsDescendants(links, b, gone)
    ensures gone <= headers.Keys
  {
    forall x | x in gone ensures x in headers {
      var p := DescendsLast(links, b, x);
      assert KnownLink(headers, links, p, x);
    }
  }

  /** The chains after the purge, when its first loop meets the descendants in the given order. */
  ghost function PurgedChains(headers: Headers, s: Chains, unprocessed: set<Hash>, b: Hash, gone: set<Hash>, order: seq<Hash>): Chains
    requires Rooted(headers) && b in headers
  {
    assert RootedAt(headers, b);
    var cut := CutInOrder(headers, unprocessed, gone, headers[b].chain, order, CutBelow(headers, s, b));
    Chains(Without(cut.slots, gone - unprocessed + {b}), cut.heads)
  }

  /** All targets of the first loop are harmless. */
  ghost predicate AllHarmless(headers: Headers, canonical: Canonical, unprocessed: set<Hash>, b: Hash, gone: set<Hash>)
    requires b in headers
  {
    forall x :: HarmlessTarget(headers, canonical, unprocessed, gone, headers[b].chain, x)
  }

  /** Live links make every target canonical, so harmless. */
  lemma LiveHarmless(headers: Headers, canonical: Canonical, head: Heads, links: Links, unprocessed: set<Hash>, b: Hash, gone: set<Hash>)
    requires PurgeOf(headers, canonical, head, links, unprocessed, b, gone) && Live(headers, links, canonical, unprocessed)
    ensures AllHarmless(headers, canonical, unprocessed, b, gone)
  {
    forall x ensures HarmlessTarget(headers, canonical, unprocessed, gone, headers[b].chain, x) {
      if IsTarget(headers, unprocessed, gone, headers[b].chain, x) {
        var p := DescendsLast(links, b, x);
        assert LiveLink(headers, links, canonical, unprocessed, p, x);
        SlotBlock(headers, canonical, head, headers[x].chain, headers[x].number);
        if headers[x].number > 0 { SlotBlock(headers, canonical, head, headers[x].chain, headers[x].number - 1); }
      }
    }
  }

  lemma CanonicalParent(headers: Headers, canonical: Canonical, head: Heads, b: Hash)
    requires Contiguous(headers, canonical, head) && IsCanonical(headers, canonical, b)
    ensures headers[b].number > 0 ==> IsCanonical(headers, canonical, headers[b].parent)
  {
    SlotBlock(headers, canonical, head, headers[b].chain, headers[b].number);
    if headers[b].number > 0 { SlotBlock(headers, canonical, head, headers[b].chain, headers[b].number - 1); }
  }

  /** Once the chain of b is cut, the first loop over the descendants can start. */
  lemma ReadyToCut(headers: Headers, canonical: Canonical, head: Heads, links: Links, unprocessed: set<Hash>, b: Hash, gone: set<Hash>)
    requires PurgeOf(headers, canonical, head, links, unprocessed, b, gone)
    ensures GENESIS_PARENT !in gone
    ensures var cut := CutChain(canonical, headers[b].chain, headers[b].number);
            && UpClosed(cut, gone)
            && (forall x :: x in unprocessed ==> !IsCanonical(headers, cut, x))
            && (AllHarmless(headers, canonical, unprocessed, b, gone) ==> AllHarmless(headers, cut, unprocessed, b, gone))
  {
    DescendantsKnown(headers, links, b, gone);
    var cut := CutChain(canonical, headers[b].chain, headers[b].number);
    forall c: nat, n: nat ensures UpClosedAt(cut, gone, c, n) {
      if (c, n) in cut && (c, n + 1) in cut && cut[(c, n)] in gone {
        DescendantsUpClosed(headers, links, canonical, head, b, gone, c, n);
      }
    }
    if AllHarmless(headers, canonical, unprocessed, b, gone) {
      forall x ensures HarmlessTarget(headers, cut, unprocessed, gone, headers[b].chain, x) {
        assert HarmlessTarget(headers, canonical, unprocessed, gone, headers[b].chain, x);
        assert x in headers ==> RootedAt(headers, x);
      }
    }
  }

  /** The two loops together remove b and its descendants, and no other block. */
  lemma PurgedSlots(headers: Headers, canonical: Canonical, head: Heads, links: Links, unprocessed: set<Hash>,
                    b: Hash, gone: set<Hash>, canonical': Canonical)
    requires PurgeOf(headers, canonical, head, links, unprocessed, b, gone)
    requires forall k :: CutSlot(CutChain(canonical, headers[b].chain, headers[b].number), canonical', gone, headers[b].chain, k)
    ensures Without(canonical', gone - unprocessed + {b}) == Without(canonical', gone) == Without(canonical, gone + {b})
  {
    var c, n := headers[b].chain, headers[b].number;
    var cut := CutChain(canonical, c, n);
    forall k ensures k in Without(canonical', gone) <==> k in Without(canonical, gone + {b}) {
      assert CutSlot(cut, canonical', gone, c, k);
      if k in canonical {
        assert k == (k.0, k.1);
        SlotBlock(headers, canonical, head, k.0, k.1);
        if k.0 == c && k.1 >= n { AboveBlock(headers, canonical, head, links, b, gone, k.1); }
      }
    }
    forall k | k in canonical' ensures k in canonical && canonical'[k] == canonical[k] && canonical[k] != b && canonical[k] !in unprocessed {
      assert CutSlot(cut, canonical', gone, c, k);
      assert k == (k.0, k.1);
      SlotBlock(headers, canonical, head, k.0, k.1);
    }
  }

  /** The parent that the purge makes the head of b's chain is not removed afterwards. */
  ghost predicate ParentStays(headers: Headers, b: Hash, gone: set<Hash>)
    requires b in headers
  {
    headers[b].number == 0 || headers[b].parent !in gone
  }

  /** After the purge the chains are contiguous exactly when the parent of b is no descendant of b. */
  lemma PurgedContiguous(headers: Headers, canonical: Canonical, head: Heads, links: Links, unprocessed: set<Hash>,
                         b: Hash, gone: set<Hash>, canonical': Canonical, head': Heads)
    requires PurgeOf(headers, canonical, head, links, unprocessed, b, gone)
    requires forall k :: CutSlot(CutChain(canonical, headers[b].chain, headers[b].number), canonical', gone, headers[b].chain, k)
    requires Contiguous(headers, canonical', head')
    ensures Contiguous(headers, Without(canonical', gone), head') <==> ParentStays(headers, b, gone)
  {
    var c, n := headers[b].chain, headers[b].number;
    SlotBlock(headers, canonical, head, c, n);
    if ParentStays(headers, b, gone) {
      forall k | k in canonical' ensures canonical'[k] !in gone {
        assert CutSlot(CutChain(canonical, c, n), canonical', gone, c, k);
        if k.0 == c && canonical[k] in gone {
          assert k == (c, k.1);
          BelowBlock(headers, canonical, head, links, b, gone, k.1);
        }
      }
      assert Without(canonical', gone) == canonical';
    } else {
      assert CutSlot(CutChain(canonical, c, n), canonical', gone, c, (c, n - 1));
      assert CutSlot(CutChain(canonical, c, n), canonical', gone, c, (c, n));
      assert SlotAt(headers, canonical', head', c, n - 1) && SlotAt(headers, canonical', head', c, n);
      assert HeadOf(headers, head', c);
      assert !SlotAt(headers, Without(canonical', gone), head', c, n - 1);
    }
  }

  /** The purge is right: just b and its descendants are gone, and the chains are contiguous up to their heads. */
  ghost predicate Right(headers: Headers, canonical: Canonical, b: Hash, gone: set<Hash>, s: Chains) {
    s.slots == Without(canonical, gone + {b}) && Contiguous(headers, s.slots, s.heads)
  }

  /** With harmless targets, every order removes just b and its descendants, and the parent of b decides the rest. */
  lemma HarmlessPurge(headers: Headers, canonical: Canonical, head: Heads, links: Links, unprocessed: set<Hash>,
                      b: Hash, gone: set<Hash>, order: seq<Hash>)
    requires PurgeOf(headers, canonical, head, links, unprocessed, b, gone) && Arranged(order, gone)
    requires AllHarmless(headers, canonical, unprocessed, b, gone)
    ensures var s := PurgedChains(headers, Chains(canonical, head), unprocessed, b, gone, order);
            && s.slots == Without(canonical, gone + {b})
            && (Contiguous(headers, s.slots, s.heads) <==> ParentStays(headers, b, gone))
  {
    var c, n := headers[b].chain, headers[b].number;
    assert RootedAt(headers, b);
    CanonicalParent(headers, canonical, head, b);
    CutBelowCanonical(headers, canonical, head, b);
    ReadyToCut(headers, canonical, head, links, unprocessed, b, gone);
    var s1 := CutBelow(headers, Chains(canonical, head), b);
    FirstLoopExact(headers, s1.slots, s1.heads, unprocessed, gone, c, order);
    var s2 := CutInOrder(headers, unprocessed, gone, c, order, s1);
    PurgedSlots(headers, canonical, head, links, unprocessed, b, gone, s2.slots);
    PurgedContiguous(headers, canonical, head, links, unprocessed, b, gone, s2.slots, s2.heads);
  }

  /** What a harmful target x does when it is met last: the block in its place is lost, or the head is left wrong. */
  lemma HarmfulLast(headers: Headers, canonical: Canonical, head: Heads, links: Links, unprocessed: set<Hash>,
                    b: Hash, gone: set<Hash>, init: seq<Hash>, x: Hash)
    requires PurgeOf(headers, canonical, head, links, unprocessed, b, gone)
    requires IsTarget(headers, unprocessed, gone, headers[b].chain, x) && !Harmless(headers, canonical, gone, x)
    ensures var s := PurgedChains(headers, Chains(canonical, head), unprocessed, b, gone, init + [x]);
            var slot := (headers[x].chain, headers[x].number);
            && !Right(headers, canonical, b, gone, s)
            && (slot in canonical && canonical[slot] !in gone ==> slot in Without(canonical, gone + {b}) && slot !in s.slots)
  {
    var s0, c, n := Chains(canonical, head), headers[x].chain, headers[x].number;
    assert RootedAt(headers, x) && RootedAt(headers, b);
    ContiguousFilled(headers, canonical, head);
    CutBelowFills(headers, s0, b);
    var order := init + [x];
    assert order[..|order| - 1] == init;
    CutInOrderFills(headers, unprocessed, gone, headers[b].chain, init, CutBelow(headers, s0, b));
    var s1 := CutInOrder(headers, unprocessed, gone, headers[b].chain, init, CutBelow(headers, s0, b));
    CutBelowFills(headers, s1, x);
    var s := PurgedChains(headers, s0, unprocessed, b, gone, order);
    assert (c, n) !in s.slots && (n > 0 ==> c in s.heads && s.heads[c] == headers[x].parent);
    if (c, n) in canonical && canonical[(c, n)] !in gone {
      SlotBlock(headers, canonical, head, c, n);
    } else if Contiguous(headers, s.slots, s.heads) {
      assert SlotAt(headers, s.slots, s.heads, c, n - 1);
    }
  }

  ghost predicate RightInOrder(headers: Headers, canonical: Canonical, head: Heads, unprocessed: set<Hash>, b: Hash, gone: set<Hash>, order: seq<Hash>)
    requires Rooted(headers) && b in headers
  {
    Arranged(order, gone) ==>
      Right(headers, canonical, b, gone, PurgedChains(headers, Chains(canonical, head), unprocessed, b, gone, order))
  }

  /** When the purge is right, whatever the order of the set of descendants: exactly if its targets are harmless and
      the parent of b is no descendant. */
  lemma PurgeRightIff(headers: Headers, canonical: Canonical, head: Heads, links: Links, unprocessed: set<Hash>, b: Hash, gone: set<Hash>)
    requires PurgeOf(headers, canonical, head, links, unprocessed, b, gone)
    ensures (forall order :: RightInOrder(headers, canonical, head, unprocessed, b, gone, order)) <==>
            AllHarmless(headers, canonical, unprocessed, b, gone) && ParentStays(headers, b, gone)
  {
    if AllHarmless(headers, canonical, unprocessed, b, gone) {
      forall order | Arranged(order, gone)
        ensures RightInOrder(headers, canonical, head, unprocessed, b, gone, order) <==> ParentStays(headers, b, gone)
      {
        HarmlessPurge(headers, canonical, head, links, unprocessed, b, gone, order);
      }
      var order := ArrangementExists(gone);
      assert RightInOrder(headers, canonical, head, unprocessed, b, gone, order) <==> ParentStays(headers, b, gone);
    } else {
      var x :| !HarmlessTarget(headers, canonical, unprocessed, gone, headers[b].chain, x);
      var init := ArrangementExists(gone - {x});
      ConcatDistinct(init, [x]);
      HarmfulLast(headers, canonical, head, links, unprocessed, b, gone, init, x);
      assert Arranged(init + [x], gone) && !RightInOrder(headers, canonical, head, unprocessed, b, gone, init + [x]);
    }
  }

  /** A descendant below b in its chain makes the parent of b a descendant. */
  lemma BelowBlock(headers: Headers, canonical: Canonical, head: Heads, links: Links, b: Hash, gone: set<Hash>, m: nat)
    requires Contiguous(headers, canonical, head) && Linked(headers, links, canonical) && GENESIS_PARENT !in headers
    requires IsDescendants(links, b, gone) && IsCanonical(headers, canonical, b)
    requires m < headers[b].number && (headers[b].chain, m) in canonical && canonical[(headers[b].chain, m)] in gone
    ensures headers[b].parent in gone
  {
    var c, n := headers[b].chain, headers[b].number;
    SlotBlock(headers, canonical, head, c, n);
    assert UpClosed(canonical, gone) by {
      forall d: nat, i: nat ensures UpClosedAt(canonical, gone, d, i) {
        if (d, i) in canonical && (d, i + 1) in canonical && canonical[(d, i)] in gone {
          DescendantsUpClosed(headers, links, canonical, head, b, gone, d, i);
        }
      }
    }
    AllAbove(headers, canonical, head, gone, c, m, n - 1);
  }

  /** What is left depends only on what is left. */
  lemma PurgedSupported(headers: Headers, links: Links, canonical: Canonical, b: Hash, gone: set<Hash>)
    requires Linked(headers, links, canonical) && IsDescendants(links, b, gone) && Supported(headers, canonical)
    ensures Supported(headers, Without(canonical, gone + {b}))
  {
    var canonical' := Without(canonical, gone + {b});
    forall p, x ensures SupportedBy(headers, canonical', p, x) {
      if IsCanonical(headers, canonical', x) && p in Deps(headers[x]) {
        assert SupportedBy(headers, canonical, p, x);
        if p in gone + {b} { DependentsGone(headers, links, canonical, b, gone, p, x); }
      }
    }
  }

  lemma PurgedLinked(headers: Headers, links: Links, canonical: Canonical, b: Hash, gone: set<Hash>, rev: set<Hash>, links': Links)
    requires Linked(headers, links, canonical) && IsDescendants(links, b, gone) && rev <= gone + {b}
    requires LinksAfter(headers, links, rev, links')
    ensures Linked(headers, links', Without(canonical, gone + {b}))
  {
    var canonical' := Without(canonical, gone + {b});
    forall p, x ensures LinkedTo(headers, links', canonical', p, x) {
      if IsCanonical(headers, canonical', x) && p in Deps(headers[x]) {
        assert LinkedTo(headers, links, canonical, p, x) && LinkAfter(headers, links, rev, links', p, x);
        if p in gone + {b} { DependentsGone(headers, links, canonical, b, gone, p, x); }
      }
    }
  }

  /** The purge deletes the child link from p to x: p is reverted, or x is and the link is no reward proof's. */
  ghost predicate Detached(headers: Headers, links: Links, unprocessed: set<Hash>, b: Hash, gone: set<Hash>, p: Hash, x: Hash) {
    x in Children(links, p) && x in gone + {b} && (p in unprocessed || p !in gone + {b}) ==>
      x !in unprocessed && x in headers && (p in headers[x].senders || p == headers[x].parent)
  }

  /** After the purge the child links are live exactly when every link to a purged block was detached. */
  lemma PurgedLive(headers: Headers, canonical: Canonical, head: Heads, links: Links, unprocessed: set<Hash>,
                   b: Hash, gone: set<Hash>, links': Links)
    requires PurgeOf(headers, canonical, head, links, unprocessed, b, gone) && Live(headers, links, canonical, unprocessed)
    requires LinksAfter(headers, links, gone - unprocessed + {b}, links')
    ensures Live(headers, links', Without(canonical, gone + {b}), unprocessed - gone) <==>
            forall p, x :: Detached(headers, links, unprocessed, b, gone, p, x)
  {
    var canonical', unprocessed' := Without(canonical, gone + {b}), unprocessed - gone;
    forall p, x ensures LiveLink(headers, links', canonical', unprocessed', p, x) <==> Detached(headers, links, unprocessed, b, gone, p, x) {
      assert LinkAfter(headers, links, gone - unprocessed + {b}, links', p, x);
      assert LiveLink(headers, links, canonical, unprocessed, p, x);
    }
  }

  lemma {:induction false} AboveBlock(headers: Headers, canonical: Canonical, head: Heads, links: Links, b: Hash, gone: set<Hash>, n: nat)
    requires Contiguous(headers, canonical, head) && Linked(headers, links, canonical) && GENESIS_PARENT !in headers
    requires IsDescendants(links, b, gone) && IsCanonical(headers, canonical, b)
    requires headers[b].number <= n && (headers[b].chain, n) in canonical
    ensures canonical[(headers[b].chain, n)] in gone + {b}
    decreases n
  {
    var c := headers[b].chain;
    if headers[b].number < n {
      SlotBlock(headers, canonical, head, c, n);
      AboveBlock(headers, canonical, head, links, b, gone, n - 1);
      DescendantsUpClosed(headers, links, canonical, head, b, gone, c, n - 1);
    }
  }

  /** Where the links have no cycle through b, its parent always stays. */
  lemma AcyclicParentStays(headers: Headers, canonical: Canonical, head: Heads, links: Links, unprocessed: set<Hash>, b: Hash, gone: set<Hash>)
    requires PurgeOf(headers, canonical, head, links, unprocessed, b, gone) && !Descends(links, b, b)
    ensures ParentStays(headers, b, gone)
  {
    if headers[b].number > 0 && headers[b].parent in gone {
      SlotBlock(headers, canonical, head, headers[b].chain, headers[b].number);
      SlotBlock(headers, canonical, head, headers[b].chain, headers[b].number - 1);
      DependentsGone(headers, links, canonical, b, gone, headers[b].parent, b);
    }
  }

  lemma FilledPlaced(headers: Headers, s: Chains)
    requires Filled(headers, s)
    ensures forall k :: k in s.slots ==> Placed(headers, s.slots, k)
  {
    forall k | k in s.slots ensures Placed(headers, s.slots, k) {
      assert FilledAt(headers, s, k.0, k.1);
    }
  }

  /** The head of a chain that lost its blocks from number n on is the parent of the lowest of them; a chain that lost
      its first block is gone. */
  ghost predicate HeadAfter(headers: Headers, canonical: Canonical, s: Chains, c: nat, n: nat) {
    (c, n) in canonical && (c, n) !in s.slots && (n > 0 ==> (c, n - 1) in s.slots) ==>
      if n == 0 then c !in s.heads
      else canonical[(c, n)] in headers && c in s.heads && s.heads[c] == headers[canonical[(c, n)]].parent
  }

  lemma RightHeads(headers: Headers, canonical: Canonical, head: Heads, b: Hash, gone: set<Hash>, s: Chains)
    requires Contiguous(headers, canonical, head) && Right(headers, canonical, b, gone, s)
    ensures forall c, n :: HeadAfter(headers, canonical, s, c, n)
  {
    forall c: nat, n: nat ensures HeadAfter(headers, canonical, s, c, n) {
      if (c, n) in canonical && (c, n) !in s.slots && (n > 0 ==> (c, n - 1) in s.slots) {
        HeadBelowRemoved(headers, canonical, head, s.slots, s.heads, c, n);
      }
    }
  }

  lemma PurgedKnown(headers: Headers, links: Links, rev: set<Hash>, links': Links)
    requires LinksAfter(headers, links, rev, links') && forall p, x :: KnownLink(headers, links, p, x)
    ensures forall p, x :: KnownLink(headers, links', p, x)
  {
    forall p, x ensures KnownLink(headers, links', p, x) {
      assert LinkAfter(headers, links, rev, links', p, x) && KnownLink(headers, links, p, x);
    }
  }

  /** Everything the purge promises, of the state before and after it. */
  lemma PurgedState(headers: Headers, s: Chains, s': Chains, links: Links, links': Links, unprocessed: set<Hash>,
                    b: Hash, gone: set<Hash>, order: seq<Hash>)
    requires PurgeOf(headers, s.slots, s.heads, links, unprocessed, b, gone) && Arranged(order, gone)
    requires s' == PurgedChains(headers, s, unprocessed, b, gone, order)
    requires LinksAfter(headers, links, gone - unprocessed + {b}, links')
    ensures AllHarmless(headers, s.slots, unprocessed, b, gone) ==>
              && s'.slots == Without(s.slots, gone + {b})
              && (ValidState(headers, s'.slots, s'.heads, links', unprocessed - gone) <==> ParentStays(headers, b, gone))
              && (ParentStays(headers, b, gone) ==> forall c, n :: HeadAfter(headers, s.slots, s', c, n))
              && (Supported(headers, s.slots) ==> Supported(headers, s'.slots))
    ensures Live(headers, links, s.slots, unprocessed) ==>
              && AllHarmless(headers, s.slots, unprocessed, b, gone)
              && (Live(headers, links', s'.slots, unprocessed - gone) <==>
                  forall p, x :: Detached(headers, links, unprocessed, b, gone, p, x))
  {
    if Live(headers, links, s.slots, unprocessed) {
      LiveHarmless(headers, s.slots, s.heads, links, unprocessed, b, gone);
      PurgedLive(headers, s.slots, s.heads, links, unprocessed, b, gone, links');
    }
    if AllHarmless(headers, s.slots, unprocessed, b, gone) {
      assert s == Chains(s.slots, s.heads);
      HarmlessPurge(headers, s.slots, s.heads, links, unprocessed, b, gone, order);
      PurgedLinked(headers, links, s.slots, b, gone, gone - unprocessed + {b}, links');
      PurgedKnown(headers, links, gone - unprocessed + {b}, links');
      if ParentStays(headers, b, gone) { RightHeads(headers, s.slots, s.heads, b, gone, s'); }
      if Supported(headers, s.slots) { PurgedSupported(headers, links, s.slots, b, gone); }
    }
  }

  /** Not every purge detaches all links: block 3 is unprocessed and receives from 1 and 2, so that after
      purging 1 it is forgotten but still stored as a child of 2. */
  lemma StaleLinkExample()
    ensures var headers := map[1 := Header(1, 0, GENESIS_PARENT, 0, [], []), 2 := Header(2, 0, GENESIS_PARENT, 0, [], []),
                               3 := Header(3, 0, GENESIS_PARENT, 0, [1, 2], [])];
            var canonical := map[(1, 0) := 1, (2, 0) := 2];
            var head := map[1 := 1, 2 := 2];
            var links := map[1 := [3], 2 := [3]];
            && PurgeOf(headers, canonical, head, links, {3}, 1, {3}) && Live(headers, links, canonical, {3})
            && ParentStays(headers, 1, {3}) && !Detached(headers, links, {3}, 1, {3}, 2, 3)
  {
    OneDescendant(map[1 := [3], 2 := [3]], 1, 3);
  }

  lemma OneDescendant(links: Links, b: Hash, x: Hash)
    requires Children(links, b) == [x] && Children(links, x) == []
    ensures IsDescendants(links, b, {x})
  {
    assert x in Children(links, b);
    DescendsFirst(links, b, x);
    forall y | Descends(links, b, y) ensures y == x {
      var n: nat :| DescendsIn(links, b, y, n);
      assert Closed(links, b, {}, {x});
      ClosedReaches(links, b, {x}, y, n);
    }
  }

  /** What a stale link leads to: 3 was forgotten by an earlier purge but is still stored as a child of 2, and purging 2
      deletes the chain of 3 with the unrelated block 4 in it. */
  lemma StaleLinkDamage()
    ensures var headers := map[2 := Header(2, 0, GENESIS_PARENT, 0, [], []), 3 := Header(3, 0, GENESIS_PARENT, 0, [1, 2], []),
                               4 := Header(3, 0, GENESIS_PARENT, 0, [], [])];
            var canonical := map[(2, 0) := 2, (3, 0) := 4];
            var head := map[2 := 2, 3 := 4];
            var links := map[2 := [3]];
            && PurgeOf(headers, canonical, head, links, {}, 2, {3}) && Arranged([3], {3})
            && (3, 0) in Without(canonical, {3} + {2})
            && (3, 0) !in PurgedChains(headers, Chains(canonical, head), {}, 2, {3}, [3]).slots
  {
    var headers: Headers := map[2 := Header(2, 0, GENESIS_PARENT, 0, [], []), 3 := Header(3, 0, GENESIS_PARENT, 0, [1, 2], []),
                                4 := Header(3, 0, GENESIS_PARENT, 0, [], [])];
    var links: Links := map[2 := [3]];
    OneDescendant(links, 2, 3);
    assert [] + [3] == [3];
    HarmfulLast(headers, map[(2, 0) := 2, (3, 0) := 4], map[2 := 2, 3 := 4], links, {}, 2, {3}, [], 3);
  }
}
