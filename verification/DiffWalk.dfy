/** hvm/chains/base.py: the blocks that are new in one historical root, found by walking down from the heads
    that differ from the root before it. */
module DiffWalking {
  import opened Ancestry
  import opened Blocks
  import opened CanonicalChains
  import opened Options
  import opened Rebuilding
  import opened Sequences
  import opened Sorting

  function Earlier(): (Entry, Entry) -> bool {
    (a: Entry, b: Entry) => a.0 < b.0 || (a.0 == b.0 && a.1 <= b.1)
  }

  /** Oldest first, and blocks of one time by their hash. */
  ghost predicate Chronological(es: seq<Entry>) {
    forall i, j :: 0 <= i < j < |es| ==> es[i].0 < es[j].0 || (es[i].0 == es[j].0 && es[i].1 <= es[j].1)
  }

  lemma EarlierIsChronological(es: seq<Entry>)
    requires SortedBy(es, Earlier())
    ensures Chronological(es)
  {
    forall i, j | 0 <= i < j < |es| ensures es[i].0 < es[j].0 || (es[i].0 == es[j].0 && es[i].1 <= es[j].1) {
      assert Earlier()(es[i], es[j]);
    }
  }

  /** A loaded window is in order, with the entries that were stored. */
  lemma LoadedInOrder(windows: Windows, t: int)
    requires t in windows
    ensures LoadWindow(windows, t).Some? && Chronological(LoadWindow(windows, t).value)
    ensures multiset(LoadWindow(windows, t).value) == multiset(windows[t])
  {
    EarlierTotal();
    SortSorts(windows[t], Earlier());
    EarlierIsChronological(Sort(windows[t], Earlier()));
  }

  /** load_chronological_block_window: the window in order, or None if it was never saved. */
  function LoadWindow(windows: Windows, t: int): Option<seq<Entry>> {
    if t in windows then Some(Sort(windows[t], Earlier())) else None
  }

  /** The walk from h collects h, and what lies below it down to the time start. */
  ghost predicate Collects(headers: Headers, h: Hash, start: int, e: Entry) {
    OnChain(headers, h, e.1) && e.1 in headers && e.0 == headers[e.1].timestamp && (e.1 == h || e.0 >= start)
  }

  /** So far it has collected the part above g. */
  ghost predicate CollectsAbove(headers: Headers, h: Hash, g: Hash, es: seq<Entry>, e: Entry) {
    e in es <==> OnChain(headers, h, e.1) && e.1 in headers && e.0 == headers[e.1].timestamp
                 && (e.1 == g || !OnChain(headers, g, e.1))
  }

  method WalkDown(headers: Headers, h: Hash, start: int) returns (es: seq<Entry>)
    requires WfHeaders(headers) && h in headers
    ensures Distinct(es) && forall e :: e in es <==> Collects(headers, h, start, e)
  {
    var g := h;
    es := [(headers[h].timestamp, h)];
    assert forall e :: CollectsAbove(headers, h, g, es, e);
    while headers[g].parent != GENESIS_PARENT
      invariant OnChain(headers, h, g) && g in headers && Distinct(es)
      invariant g == h || headers[g].timestamp >= start
      invariant forall e :: CollectsAbove(headers, h, g, es, e)
      decreases headers[g].number
    {
      assert WfParent(headers, g);
      var p := headers[g].parent;
      if p !in headers || headers[p].timestamp < start { break; }
      StepDown(headers, h, g, es);
      es := es + [(headers[p].timestamp, p)];
      g := p;
    }
    forall e ensures e in es <==> Collects(headers, h, start, e) {
      assert CollectsAbove(headers, h, g, es, e);
      WalkEnd(headers, h, g, start, e);
    }
  }

  lemma StepDown(headers: Headers, h: Hash, g: Hash, es: seq<Entry>)
    requires WfHeaders(headers) && OnChain(headers, h, g) && g in headers && Below(headers, g).Some? && Distinct(es)
    requires forall e :: CollectsAbove(headers, h, g, es, e)
    ensures var p := Below(headers, g).value;
            var es' := es + [(headers[p].timestamp, p)];
            OnChain(headers, h, p) && Distinct(es') && forall e :: CollectsAbove(headers, h, p, es', e)
  {
    var p := Below(headers, g).value;
    var es' := es + [(headers[p].timestamp, p)];
    assert OnChain(headers, g, p);
    OnChainTransitive(headers, h, g, p);
    assert CollectsAbove(headers, h, g, es, (headers[p].timestamp, p));
    forall e ensures CollectsAbove(headers, h, p, es', e) {
      assert CollectsAbove(headers, h, g, es, e);
      if OnChain(headers, p, e.1) { OnChainFacts(headers, p, e.1); }
    }
  }

  /** Where the walk stops, nothing below is young enough. */
  lemma WalkEnd(headers: Headers, h: Hash, g: Hash, start: int, e: Entry)
    requires WfHeaders(headers) && OnChain(headers, h, g) && g in headers
    requires g == h || headers[g].timestamp >= start
    requires Below(headers, g).None? || headers[Below(headers, g).value].timestamp < start
    ensures Collects(headers, h, start, e) <==>
            OnChain(headers, h, e.1) && e.1 in headers && e.0 == headers[e.1].timestamp
            && (e.1 == g || !OnChain(headers, g, e.1))
  {
    if OnChain(headers, h, e.1) && e.1 in headers && e.0 == headers[e.1].timestamp {
      Comparable(headers, h, g, e.1);
      if OnChain(headers, g, e.1) && e.1 != g {
        OnChainFacts(headers, Below(headers, g).value, e.1);
        OnChainFacts(headers, g, e.1);
        OnChainFacts(headers, h, g);
      } else if !OnChain(headers, g, e.1) {
        OnChainFacts(headers, e.1, g);
      }
    }
  }

  /** A chain is a line: of two blocks on it, one lies below the other. */
  lemma {:induction false} Comparable(headers: Headers, h: Hash, g: Hash, x: Hash)
    requires OnChain(headers, h, g) && OnChain(headers, h, x)
    ensures OnChain(headers, g, x) || OnChain(headers, x, g)
    decreases Height(headers, h)
  {
    if g != h && x != h { Comparable(headers, Below(headers, h).value, g, x); }
  }

  /** Unchanged is the source's None, InvalidRoot its exception, and NothingNew its failing assertion. */
  datatype NewBlocks = Unchanged | InvalidRoot | NothingNew | Found(entries: seq<Entry>)

  function NewHeads(base: Heads, root: Heads): set<Hash> {
    root.Values - base.Values
  }

  ghost predicate CollectedFrom(headers: Headers, hs: set<Hash>, start: int, e: Entry) {
    exists h :: h in hs && Collects(headers, h, start, e)
  }

  ghost predicate CollectedIn(headers: Headers, hs: set<Hash>, start: int, es: seq<Entry>, e: Entry) {
    e in es <==> CollectedFrom(headers, hs, start, e)
  }

  /** What the walk gives for two roots. */
  ghost predicate DiffResult(headers: Headers, base: Option<Heads>, root: Option<Heads>, start: int, r: NewBlocks) {
    if base == root then r == Unchanged
    else if base.None? || root.None? then r == InvalidRoot
    else
      var hs := NewHeads(base.value, root.value);
      if hs == {} then r == NothingNew
      else
        && r.Found? && SortedBy(r.entries, Earlier()) && Distinct(r.entries)
        && forall e :: CollectedIn(headers, hs, start, r.entries, e)
  }

  lemma EarlierTotal()
    ensures TotalPreorder(Earlier())
  {
  }

  /** The walks from two heads meet no block twice, as they are on different chains. */
  lemma AddWalk(headers: Headers, heads: Heads, hs: set<Hash>, h: Hash, start: int, es: seq<Entry>, es': seq<Entry>)
    requires WfHeaders(headers) && WfHeads(headers, heads) && hs + {h} <= heads.Values && h !in hs
    requires Distinct(es) && forall e :: CollectedIn(headers, hs, start, es, e)
    requires Distinct(es') && forall e :: e in es' <==> Collects(headers, h, start, e)
    ensures Distinct(es + es') && forall e :: CollectedIn(headers, hs + {h}, start, es + es', e)
  {
    var both, all := es + es', hs + {h};
    forall e | e in es ensures e !in es' {
      assert CollectedIn(headers, hs, start, es, e);
      var g :| g in hs && Collects(headers, g, start, e);
      OnChainFacts(headers, g, e.1);
      if Collects(headers, h, start, e) { OnChainFacts(headers, h, e.1); }
    }
    ConcatDistinct(es, es');
    forall e ensures CollectedIn(headers, all, start, both, e) {
      assert CollectedIn(headers, hs, start, es, e);
      if Collects(headers, h, start, e) { assert CollectedFrom(headers, all, start, e); }
      if CollectedFrom(headers, hs, start, e) {
        var g :| g in hs && Collects(headers, g, start, e);
        assert g in all;
      }
    }
  }

  /** get_block_hashes_that_are_new_for_this_historical_root_hash_timestamp, given the two roots. */
  method NewInRoot(headers: Headers, base: Option<Heads>, root: Option<Heads>, start: int) returns (r: NewBlocks)
    requires WfHeaders(headers) && (root.Some? ==> WfHeads(headers, root.value))
    ensures DiffResult(headers, base, root, start, r)
    ensures r.Found? ==> Chronological(r.entries)
  {
    if base == root { return Unchanged; }
    if base.None? || root.None? { return InvalidRoot; }
    var hs := NewHeads(base.value, root.value);
    var es := CollectAll(headers, root.value, hs, start);
    if hs == {} { return NothingNew; }
    r := Found(Sort(es, Earlier()));
    EarlierTotal();
    SortSorts(es, Earlier());
    SortDistinct(es, Earlier());
    EarlierIsChronological(r.entries);
    forall e ensures CollectedIn(headers, hs, start, r.entries, e) {
      assert CollectedIn(headers, hs, start, es, e);
      InSort(es, Earlier(), e);
    }
  }

  method CollectAll(headers: Headers, root: Heads, hs: set<Hash>, start: int) returns (es: seq<Entry>)
    requires WfHeaders(headers) && WfHeads(headers, root) && hs <= root.Values
    ensures Distinct(es) && forall e :: CollectedIn(headers, hs, start, es, e)
  {
    es := [];
    var rest := hs;
    ghost var done: set<Hash> := {};
    while rest != {}
      invariant rest <= hs && done == hs - rest && Distinct(es)
      invariant forall e :: CollectedIn(headers, done, start, es, e)
      decreases rest
    {
      var h :| h in rest;
      assert h in root.Values;
      var es' := WalkDown(headers, h, start);
      AddWalk(headers, root, done, h, start, es, es');
      es := es + es';
      rest, done := rest - {h}, done + {h};
    }
    assert done == hs;
  }

  /** e is a block of the window from start on. */
  ghost predicate InSpan(headers: Headers, saved: Heads, start: int, e: Entry) {
    Belongs(headers, saved, e.1) && e.0 == headers[e.1].timestamp && start <= e.0 < start + WINDOW
  }

  /** A block of the window is reached from a head that is new. */
  lemma SpanCollected(headers: Headers, saved: Heads, start: int, e: Entry)
    requires WfHeaders(headers) && WfHeads(headers, saved) && InSpan(headers, saved, start, e)
    ensures CollectedFrom(headers, NewHeads(HeadsAt(headers, saved, start), HeadsAt(headers, saved, start + WINDOW)), start, e)
  {
    var c, t := headers[e.1].chain, start + WINDOW;
    var base, root := HeadsAt(headers, saved, start), HeadsAt(headers, saved, t);
    LastBeforeSplits(headers, saved[c], t, e.1);
    var h := root[c];
    LastBeforeOnChain(headers, saved[c], t);
    OnChainFacts(headers, saved[c], h);
    OnChainFacts(headers, h, e.1);
    HeadsAtWf(headers, saved, start);
    assert h in root.Values;
    if h in base.Values {
      LastBeforeOnChain(headers, saved[c], start);
    }
    assert Collects(headers, h, start, e);
  }

  /** A head that is new lies in the window, and so does all that is collected from it. */
  lemma CollectedSpan(headers: Headers, saved: Heads, start: int, c: nat, e: Entry)
    requires WfHeaders(headers) && WfHeads(headers, saved)
    requires c in HeadsAt(headers, saved, start + WINDOW)
    requires var h := HeadsAt(headers, saved, start + WINDOW)[c];
             h !in HeadsAt(headers, saved, start).Values && Collects(headers, h, start, e)
    ensures InSpan(headers, saved, start, e)
  {
    var t := start + WINDOW;
    var base, root := HeadsAt(headers, saved, start), HeadsAt(headers, saved, t);
    var h := root[c];
    LastBeforeOnChain(headers, saved[c], t);
    OnChainFacts(headers, saved[c], h);
    OnChainFacts(headers, h, e.1);
    OnChainTransitive(headers, saved[c], h, e.1);
    LastBeforeTwice(headers, saved[c], start, t);
    assert c in base ==> base[c] in base.Values;
  }

  /** The two roots differ exactly when the window has a block. */
  lemma RootsDiffer(headers: Headers, saved: Heads, start: int) returns (e: Entry)
    requires WfHeaders(headers) && WfHeads(headers, saved)
    requires HeadsAt(headers, saved, start) != HeadsAt(headers, saved, start + WINDOW)
    ensures InSpan(headers, saved, start, e)
  {
    var t := start + WINDOW;
    var base, root := HeadsAt(headers, saved, start), HeadsAt(headers, saved, t);
    forall c | c in base ensures c in root {
      LastBeforeTwice(headers, saved[c], start, t);
    }
    var c :| c in root && (c !in base || base[c] != root[c]);
    var h := root[c];
    LastBeforeOnChain(headers, saved[c], t);
    OnChainFacts(headers, saved[c], h);
    HeadsAtWf(headers, saved, start);
    assert h !in base.Values;
    e := (headers[h].timestamp, h);
    CollectedSpan(headers, saved, start, c, e);
  }

  /** Two independent algorithms agree: between rebuilt roots the walk finds exactly the rebuilt window, in order. */
  lemma WalkIsWindow(headers: Headers, saved: Heads, cutoff: int, windows: Windows, start: int, r: NewBlocks)
    requires WfHeaders(headers) && WfHeads(headers, saved) && cutoff <= start
    requires WindowExact(headers, saved, cutoff, windows, start)
    requires DiffResult(headers, Some(HeadsAt(headers, saved, start)), Some(HeadsAt(headers, saved, start + WINDOW)), start, r)
    ensures r == match LoadWindow(windows, start) { case None => Unchanged case Some(es) => Found(es) }
    ensures r.Found? ==> Chronological(r.entries)
  {
    if r.Found? { EarlierIsChronological(r.entries); }
    var base, root := HeadsAt(headers, saved, start), HeadsAt(headers, saved, start + WINDOW);
    if base != root {
      var e := RootsDiffer(headers, saved, start);
      SpanCollected(headers, saved, start, e);
      assert EntryExact(headers, saved, cutoff, windows, start, e);
      WalkEntries(headers, saved, cutoff, windows, start, r.entries);
    } else if start in windows {
      var e := windows[start][0];
      assert EntryExact(headers, saved, cutoff, windows, start, e);
      SpanCollected(headers, saved, start, e);
    }
  }

  lemma WalkEntries(headers: Headers, saved: Heads, cutoff: int, windows: Windows, start: int, es: seq<Entry>)
    requires WfHeaders(headers) && WfHeads(headers, saved) && cutoff <= start && start in windows
    requires WindowExact(headers, saved, cutoff, windows, start)
    requires SortedBy(es, Earlier()) && Distinct(es)
    requires var hs := NewHeads(HeadsAt(headers, saved, start), HeadsAt(headers, saved, start + WINDOW));
             forall e :: CollectedIn(headers, hs, start, es, e)
    ensures es == Sort(windows[start], Earlier())
  {
    var hs := NewHeads(HeadsAt(headers, saved, start), HeadsAt(headers, saved, start + WINDOW));
    var sorted := Sort(windows[start], Earlier());
    EarlierTotal();
    SortSorts(windows[start], Earlier());
    SortDistinct(windows[start], Earlier());
    forall e ensures e in es <==> e in sorted {
      assert CollectedIn(headers, hs, start, es, e);
      assert EntryExact(headers, saved, cutoff, windows, start, e);
      InSort(windows[start], Earlier(), e);
      if e in sorted { SpanCollected(headers, saved, start, e); }
      if e in es {
        var h :| h in hs && Collects(headers, h, start, e);
        var c :| c in HeadsAt(headers, saved, start + WINDOW) && HeadsAt(headers, saved, start + WINDOW)[c] == h;
        CollectedSpan(headers, saved, start, c, e);
      }
    }
    DistinctSame(es, sorted);
    SortedUnique(es, sorted, Earlier());
  }

  /** After the rebuild, for every pair of neighbouring roots that can still be looked up, the walk gives the window. */
  lemma RebuiltWindow(headers: Headers, saved: Heads, cutoff: int, windows: Windows, current: int, n: nat,
                      roots: seq<(int, Heads)>, i: nat, r: NewBlocks)
    requires WfHeaders(headers) && WfHeads(headers, saved)
    requires RootsAfter(headers, saved, current, n, roots) && i + 1 < n && i + 1 < MAX_ROOTS
    requires WindowExact(headers, saved, cutoff, windows, GridTime(current, i + 1)) && cutoff <= GridTime(current, i + 1)
    requires DiffResult(headers, LatestRoot(Newest(roots), GridTime(current, i + 1)),
                        LatestRoot(Newest(roots), GridTime(current, i)), GridTime(current, i + 1), r)
    ensures r == match LoadWindow(windows, GridTime(current, i + 1)) { case None => Unchanged case Some(es) => Found(es) }
    ensures r.Found? ==> Chronological(r.entries)
  {
    RebuiltRoot(headers, saved, current, n, roots, i);
    RebuiltRoot(headers, saved, current, n, roots, i + 1);
    WalkIsWindow(headers, saved, cutoff, windows, GridTime(current, i + 1), r);
  }
}
