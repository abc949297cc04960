/** The canonical chains: which block is at which number of which wallet chain, and each chain's head. */
module CanonicalChains {
  import opened Blocks

  type Canonical = map<(nat, nat), Hash>
  type Heads = map<nat, Hash>

  /** is_in_canonical_chain */
  predicate IsCanonical(headers: Headers, canonical: Canonical, x: Hash) {
    x in headers && (headers[x].chain, headers[x].number) in canonical
    && canonical[(headers[x].chain, headers[x].number)] == x
  }

  ghost predicate HeadOf(headers: Headers, head: Heads, c: nat) {
    c in head ==> head[c] in headers && headers[head[c]].chain == c
  }

  /** The slot (c, n) holds a block linked to the one below it up to the head of chain c, and nothing above. */
  ghost predicate SlotAt(headers: Headers, canonical: Canonical, head: Heads, c: nat, n: nat) {
    if c in head && head[c] in headers && n <= headers[head[c]].number then
      && (c, n) in canonical
      && BlockAt(headers, canonical, c, n)
      && (n == headers[head[c]].number ==> canonical[(c, n)] == head[c])
    else (c, n) !in canonical
  }

  ghost predicate BlockAt(headers: Headers, canonical: Canonical, c: nat, n: nat)
    requires (c, n) in canonical
  {
    var h := canonical[(c, n)];
    && h in headers && headers[h].chain == c && headers[h].number == n
    && (n == 0 ==> headers[h].parent == GENESIS_PARENT)
    && (n > 0 ==> (c, n - 1) in canonical && headers[h].parent == canonical[(c, n - 1)])
  }

  /** Every chain is a run of linked blocks from number 0 to its head. */
  ghost predicate Contiguous(headers: Headers, canonical: Canonical, head: Heads) {
    && (forall c :: HeadOf(headers, head, c))
    && (forall c, n :: SlotAt(headers, canonical, head, c, n))
  }

  lemma SlotBlock(headers: Headers, canonical: Canonical, head: Heads, c: nat, n: nat)
    requires Contiguous(headers, canonical, head) && (c, n) in canonical
    ensures BlockAt(headers, canonical, c, n) && IsCanonical(headers, canonical, canonical[(c, n)])
  {
    assert SlotAt(headers, canonical, head, c, n);
  }

  /** In contiguous chains a block is canonical exactly if some slot holds it. */
  lemma CanonicalIff(headers: Headers, canonical: Canonical, head: Heads, x: Hash)
    requires Contiguous(headers, canonical, head)
    ensures IsCanonical(headers, canonical, x) <==> exists k :: k in canonical && canonical[k] == x
  {
    if k :| k in canonical && canonical[k] == x { SlotBlock(headers, canonical, head, k.0, k.1); }
  }

  lemma {:induction false} SlotsBelow(headers: Headers, canonical: Canonical, head: Heads, c: nat, m: nat, n: nat)
    requires Contiguous(headers, canonical, head) && (c, n) in canonical && m <= n
    ensures (c, m) in canonical
    decreases n
  {
    if m < n {
      SlotBlock(headers, canonical, head, c, n);
      SlotsBelow(headers, canonical, head, c, m, n - 1);
    }
  }

  /** The chain c without its blocks from number n on. */
  function CutChain(canonical: Canonical, c: nat, n: nat): Canonical {
    map k | k in canonical && !(k.0 == c && k.1 >= n) :: canonical[k]
  }

  lemma CutTo(headers: Headers, canonical: Canonical, head: Heads, c: nat, n: nat)
    requires Contiguous(headers, canonical, head) && (c, n) in canonical
    ensures Contiguous(headers, CutChain(canonical, c, n + 1), head[c := canonical[(c, n)]])
  {
    var canonical', head' := CutChain(canonical, c, n + 1), head[c := canonical[(c, n)]];
    SlotBlock(headers, canonical, head, c, n);
    forall d ensures HeadOf(headers, head', d) {
      assert HeadOf(headers, head, d);
    }
    forall d, m: nat ensures SlotAt(headers, canonical', head', d, m) {
      assert SlotAt(headers, canonical, head, d, m);
      if d == c && m <= n { SlotsBelow(headers, canonical, head, c, m, n); }
    }
  }

  lemma CutAll(headers: Headers, canonical: Canonical, head: Heads, c: nat)
    requires Contiguous(headers, canonical, head)
    ensures Contiguous(headers, CutChain(canonical, c, 0), head - {c})
  {
    var canonical', head' := CutChain(canonical, c, 0), head - {c};
    forall d ensures HeadOf(headers, head', d) {
      assert HeadOf(headers, head, d);
    }
    forall d, m: nat ensures SlotAt(headers, canonical', head', d, m) {
      assert SlotAt(headers, canonical, head, d, m);
    }
  }

  /** The head of a chain whose blocks from number n on were removed is the parent of the lowest of them. */
  lemma HeadBelowRemoved(headers: Headers, canonical: Canonical, head: Heads, canonical': Canonical, head': Heads, c: nat, n: nat)
    requires Contiguous(headers, canonical, head) && Contiguous(headers, canonical', head')
    requires (c, n) in canonical && (c, n) !in canonical'
    requires n > 0 ==> (c, n - 1) in canonical' && (c, n - 1) in canonical && canonical'[(c, n - 1)] == canonical[(c, n - 1)]
    ensures n == 0 ==> c !in head'
    ensures n > 0 ==> canonical[(c, n)] in headers && c in head' && head'[c] == headers[canonical[(c, n)]].parent
  {
    SlotBlock(headers, canonical, head, c, n);
    assert HeadOf(headers, head', c);
    assert SlotAt(headers, canonical', head', c, n);
    if n > 0 { assert SlotAt(headers, canonical', head', c, n - 1); }
  }

  /** The slots determine the heads. */
  lemma HeadsDetermined(headers: Headers, canonical: Canonical, head: Heads, head': Heads)
    requires Contiguous(headers, canonical, head) && Contiguous(headers, canonical, head')
    ensures head == head'
  {
    forall c ensures c in head <==> c in head' {
      assert HeadOf(headers, head, c) && HeadOf(headers, head', c);
      assert SlotAt(headers, canonical, head, c, 0) && SlotAt(headers, canonical, head', c, 0);
    }
    forall c | c in head ensures head[c] == head'[c] {
      assert HeadOf(headers, head, c) && HeadOf(headers, head', c);
      var n, n' := headers[head[c]].number, headers[head'[c]].number;
      assert SlotAt(headers, canonical, head, c, n) && SlotAt(headers, canonical, head', c, n);
      assert SlotAt(headers, canonical, head, c, n') && SlotAt(headers, canonical, head', c, n');
    }
  }

  /** Every block is on top of a known parent in its chain, or is the first of its chain. */
  ghost predicate Rooted(headers: Headers) {
    GENESIS_PARENT !in headers && forall h :: h in headers ==> RootedAt(headers, h)
  }

  ghost predicate RootedAt(headers: Headers, h: Hash)
    requires h in headers
  {
    var b := headers[h];
    if b.number == 0 then b.parent == GENESIS_PARENT
    else b.parent in headers && headers[b.parent].chain == b.chain && headers[b.parent].number == b.number - 1
  }

  /** The slots of the chains, and their heads. */
  datatype Chains = Chains(slots: Canonical, heads: Heads)

  /** Every chain has all slots up to the number of its head, each with a block of that number; the blocks need not be linked. */
  ghost predicate Filled(headers: Headers, s: Chains) {
    && (forall c :: HeadOf(headers, s.heads, c))
    && (forall c, n :: FilledAt(headers, s, c, n))
  }

  ghost predicate FilledAt(headers: Headers, s: Chains, c: nat, n: nat) {
    && ((c, n) in s.slots <==> c in s.heads && s.heads[c] in headers && n <= headers[s.heads[c]].number)
    && ((c, n) in s.slots ==>
          var h := s.slots[(c, n)]; h in headers && headers[h].chain == c && headers[h].number == n)
  }

  lemma ContiguousFilled(headers: Headers, canonical: Canonical, head: Heads)
    requires Contiguous(headers, canonical, head)
    ensures Filled(headers, Chains(canonical, head))
  {
    var s := Chains(canonical, head);
    forall c, n: nat ensures FilledAt(headers, s, c, n) {
      assert SlotAt(headers, canonical, head, c, n);
    }
  }

  /** The slots with h and its ancestors in them, down to the first that is there already. */
  function Extend(headers: Headers, slots: Canonical, h: Hash): Canonical
    decreases if h in headers then headers[h].number else 0
  {
    if h !in headers || IsCanonical(headers, slots, h) then slots
    else
      var b := headers[h];
      var below := if b.parent in headers && headers[b.parent].number < b.number then Extend(headers, slots, b.parent) else slots;
      below[(b.chain, b.number) := h]
  }

  ghost predicate ExtendedAt(headers: Headers, s: Chains, slots: Canonical, h: Hash, c: nat, n: nat)
    requires h in headers
  {
    && ((c, n) in slots <==> (c, n) in s.slots || (c == headers[h].chain && n <= headers[h].number))
    && ((c, n) in slots ==>
          var g := slots[(c, n)]; g in headers && headers[g].chain == c && headers[g].number == n)
  }

  lemma {:induction false} ExtendFills(headers: Headers, s: Chains, h: Hash, c: nat, n: nat)
    requires Rooted(headers) && Filled(headers, s) && h in headers
    ensures ExtendedAt(headers, s, Extend(headers, s.slots, h), h, c, n)
    decreases headers[h].number
  {
    assert FilledAt(headers, s, c, n) && FilledAt(headers, s, headers[h].chain, headers[h].number);
    assert RootedAt(headers, h);
    if !IsCanonical(headers, s.slots, h) && headers[h].number > 0 {
      ExtendFills(headers, s, headers[h].parent, c, n);
    }
  }

  /** The slot (c, n) holds what it held before, or a block new there on top of its parent, up to h in the chain of h. */
  ghost predicate PlacedAt(headers: Headers, slots: Canonical, slots': Canonical, h: Hash, c: nat, n: nat)
    requires h in headers
  {
    (c, n) in slots' && !((c, n) in slots && slots'[(c, n)] == slots[(c, n)]) ==>
      var g := slots'[(c, n)];
      && c == headers[h].chain && n <= headers[h].number
      && g in headers && headers[g].chain == c && headers[g].number == n
      && (n > 0 ==> IsCanonical(headers, slots', headers[g].parent))
  }

  /** The block and its ancestors, down to the first that was canonical, get their slots; the others keep theirs. */
  lemma {:induction false} ExtendPlaces(headers: Headers, slots: Canonical, h: Hash)
    requires Rooted(headers) && h in headers
    ensures var slots' := Extend(headers, slots, h);
            IsCanonical(headers, slots', h) && slots.Keys <= slots'.Keys && forall c, n :: PlacedAt(headers, slots, slots', h, c, n)
    decreases headers[h].number
  {
    assert RootedAt(headers, h);
    var slots' := Extend(headers, slots, h);
    if !IsCanonical(headers, slots, h) && headers[h].number > 0 {
      var p := headers[h].parent;
      ExtendPlaces(headers, slots, p);
      var below := Extend(headers, slots, p);
      assert slots' == below[(headers[h].chain, headers[h].number) := h];
      forall c: nat, n: nat ensures PlacedAt(headers, slots, slots', h, c, n) {
        assert PlacedAt(headers, slots, below, p, c, n);
        if (c, n) in below && !((c, n) in slots && below[(c, n)] == slots[(c, n)]) {
          assert RootedAt(headers, below[(c, n)]);
        }
      }
    }
  }

  /** _set_as_canonical_chain_head: truncates the chain, or extends it with the block and its new ancestors. */
  function SetHead(headers: Headers, s: Chains, h: Hash): Chains
    requires h in headers
  {
    var c, n := headers[h].chain, headers[h].number;
    if c in s.heads && s.heads[c] in headers && n <= headers[s.heads[c]].number
    then Chains(CutChain(s.slots, c, n + 1), s.heads[c := h])
    else Chains(Extend(headers, s.slots, h), s.heads[c := h])
  }

  /** Whatever block is made head, the slots stay filled up to it, and the other chains are left alone. A block above
      the old head becomes canonical. */
  lemma SetHeadFills(headers: Headers, s: Chains, h: Hash)
    requires Rooted(headers) && Filled(headers, s) && h in headers
    ensures var s', c, n := SetHead(headers, s, h), headers[h].chain, headers[h].number;
            && Filled(headers, s') && s'.heads == s.heads[c := h]
            && (forall k: (nat, nat) :: k.0 != c ==> (k in s'.slots <==> k in s.slots) && (k in s.slots ==> s'.slots[k] == s.slots[k]))
            && ((c, n) !in s.slots ==> IsCanonical(headers, s'.slots, h))
            && ((c, n) in s.slots ==> forall m: nat :: m <= n && (c, m) in s.slots ==> (c, m) in s'.slots && s'.slots[(c, m)] == s.slots[(c, m)])
  {
    ExtendPlaces(headers, s.slots, h);
    assert FilledAt(headers, s, headers[h].chain, headers[h].number);
    var slots := Extend(headers, s.slots, h);
    forall k: (nat, nat) | k.0 != headers[h].chain
      ensures (k in slots <==> k in s.slots) && (k in s.slots ==> slots[k] == s.slots[k])
    {
      assert PlacedAt(headers, s.slots, slots, h, k.0, k.1) && k == (k.0, k.1);
    }
    var s' := SetHead(headers, s, h);
    forall d ensures HeadOf(headers, s'.heads, d) {
      assert HeadOf(headers, s.heads, d);
    }
    forall d, m: nat ensures FilledAt(headers, s', d, m) {
      assert FilledAt(headers, s, d, m);
      ExtendFills(headers, s, h, d, m);
    }
  }

  lemma DeleteFills(headers: Headers, s: Chains, c: nat)
    requires Filled(headers, s)
    ensures Filled(headers, Chains(CutChain(s.slots, c, 0), s.heads - {c}))
  {
    var s' := Chains(CutChain(s.slots, c, 0), s.heads - {c});
    forall d ensures HeadOf(headers, s'.heads, d) {
      assert HeadOf(headers, s.heads, d);
    }
    forall d, m: nat ensures FilledAt(headers, s', d, m) {
      assert FilledAt(headers, s, d, m);
    }
  }

  /** Making the parent of x the head of its chain, or deleting the chain if x is its first block. */
  function CutBelow(headers: Headers, s: Chains, x: Hash): Chains
    requires x in headers && (headers[x].number > 0 ==> headers[x].parent in headers)
  {
    if headers[x].number == 0
    then Chains(CutChain(s.slots, headers[x].chain, 0), s.heads - {headers[x].chain})
    else SetHead(headers, s, headers[x].parent)
  }

  /** Afterwards the chain has no slot from x on, and its head, if any, is the parent of x. */
  lemma CutBelowFills(headers: Headers, s: Chains, x: Hash)
    requires Rooted(headers) && Filled(headers, s) && x in headers
    requires headers[x].number > 0 ==> headers[x].parent in headers
    ensures var s' := CutBelow(headers, s, x);
            && Filled(headers, s') && (headers[x].chain, headers[x].number) !in s'.slots
            && (headers[x].number > 0 ==> headers[x].chain in s'.heads && s'.heads[headers[x].chain] == headers[x].parent)
  {
    assert RootedAt(headers, x);
    if headers[x].number == 0 {
      DeleteFills(headers, s, headers[x].chain);
    } else {
      SetHeadFills(headers, s, headers[x].parent);
    }
    assert FilledAt(headers, CutBelow(headers, s, x), headers[x].chain, headers[x].number);
  }

  /** Below a canonical parent, the chain is cut at the number of x and all chains stay contiguous. */
  lemma CutBelowCanonical(headers: Headers, canonical: Canonical, head: Heads, x: Hash)
    requires Rooted(headers) && Contiguous(headers, canonical, head) && x in headers
    requires headers[x].number > 0 ==> headers[x].parent in headers && IsCanonical(headers, canonical, headers[x].parent)
    ensures var s' := CutBelow(headers, Chains(canonical, head), x);
            s'.slots == CutChain(canonical, headers[x].chain, headers[x].number) && Contiguous(headers, s'.slots, s'.heads)
  {
    assert RootedAt(headers, x);
    var c, n := headers[x].chain, headers[x].number;
    if n == 0 {
      CutAll(headers, canonical, head, c);
    } else {
      assert SlotAt(headers, canonical, head, c, n - 1);
      CutTo(headers, canonical, head, c, n - 1);
    }
  }
}
