/** hvm/chains/base.py: rebuilding the historical roots and the chronological block windows from the saved
    heads, and the walk that finds the blocks of one window from two roots. A root hash stands for the
    heads it commits to. */
module Rebuilding {
  import opened Ancestry
  import opened Blocks
  import opened CanonicalChains
  import opened Options
  import opened Sequences

  const WINDOW := 1000
  const MAX_ROOTS := 1000

  type Entry = (nat, Hash)
  type Windows = map<int, seq<Entry>>

  function WindowAt(windows: Windows, w: int): seq<Entry> {
    if w in windows then windows[w] else []
  }

  /** The window a time falls into. */
  function WindowOf(t: int): int { t / WINDOW * WINDOW }

  lemma WindowOfBounds(t: int, w: int)
    requires w % WINDOW == 0
    ensures WindowOf(t) == w <==> w <= t < w + WINDOW
    ensures w <= t <==> w <= WindowOf(t)
  {
    assert w == w / WINDOW * WINDOW;
  }

  /** e is filed in window w: it is a block with its timestamp, recent enough to be kept. */
  ghost predicate Filed(headers: Headers, cutoff: int, w: int, e: Entry) {
    e.1 in headers && e.0 == headers[e.1].timestamp && e.0 >= cutoff && WindowOf(e.0) == w
  }

  /** Walking down from h, the blocks before g have been filed. */
  ghost predicate Passed(headers: Headers, h: Hash, g: Option<Hash>, x: Hash) {
    OnChain(headers, h, x) && (g.None? || !OnChain(headers, g.value, x))
  }

  ghost predicate PassedFiled(headers: Headers, cutoff: int, h: Hash, g: Option<Hash>, windows: Windows, windows': Windows, w: int, e: Entry) {
    e in WindowAt(windows', w) <==>
    e in WindowAt(windows, w) || (Passed(headers, h, g, e.1) && Filed(headers, cutoff, w, e))
  }

  /** add_block_hash_to_chronological_window; cutoff is the oldest time for which windows are kept. */
  function FileBlock(headers: Headers, cutoff: int, windows: Windows, x: Hash): Windows
    requires x in headers
  {
    var t := headers[x].timestamp;
    if t < cutoff then windows else windows[WindowOf(t) := WindowAt(windows, WindowOf(t)) + [(t, x)]]
  }

  /** Only the windows from t up to the time of h are touched. */
  ghost predicate Untouched(headers: Headers, h: Hash, t: int, windows: Windows, windows': Windows, w: int) {
    (w < t || (h in headers && w > headers[h].timestamp)) ==>
      (w in windows <==> w in windows') && WindowAt(windows', w) == WindowAt(windows, w)
  }

  /** Window t is without repetition, and not there when empty. */
  ghost predicate Tidy(windows: Windows, t: int) {
    Distinct(WindowAt(windows, t)) && (t in windows ==> windows[t] != [])
  }

  ghost predicate NoneOf(headers: Headers, windows: Windows, t: int, c: nat) {
    forall e :: e in WindowAt(windows, t) ==> e.1 in headers && headers[e.1].chain != c
  }

  /** The windows after walking down from h to g, keeping t. */
  ghost predicate Walked(headers: Headers, cutoff: int, h: Hash, t: int, g: Option<Hash>, windows: Windows, windows': Windows) {
    && (forall w, e :: PassedFiled(headers, cutoff, h, g, windows, windows', w, e))
    && (forall w :: Untouched(headers, h, t, windows, windows', w))
    && (h in headers && NoneOf(headers, windows, t, headers[h].chain) && Tidy(windows, t) ==> Tidy(windows', t))
  }

  lemma PassOne(headers: Headers, cutoff: int, h: Hash, g: Hash, windows: Windows, windows': Windows, w: int, e: Entry)
    requires WfHeaders(headers) && OnChain(headers, h, g) && g in headers
    requires PassedFiled(headers, cutoff, h, Some(g), windows, windows', w, e)
    ensures PassedFiled(headers, cutoff, h, Below(headers, g), windows, FileBlock(headers, cutoff, windows', g), w, e)
  {
    if Below(headers, g).Some? && OnChain(headers, Below(headers, g).value, e.1) {
      OnChainFacts(headers, Below(headers, g).value, e.1);
    }
    assert Passed(headers, h, Below(headers, g), e.1) <==> Passed(headers, h, Some(g), e.1) || e.1 == g;
  }

  /** Filing one more block while walking down. */
  lemma WalkOne(headers: Headers, cutoff: int, h: Hash, t: int, g: Hash, windows: Windows, windows': Windows)
    requires WfHeaders(headers) && OnChain(headers, h, g) && g in headers && t % WINDOW == 0 && headers[g].timestamp >= t
    requires Walked(headers, cutoff, h, t, Some(g), windows, windows')
    ensures Walked(headers, cutoff, h, t, Below(headers, g), windows, FileBlock(headers, cutoff, windows', g))
  {
    var windows'' := FileBlock(headers, cutoff, windows', g);
    OnChainFacts(headers, h, g);
    forall w, e ensures PassedFiled(headers, cutoff, h, Below(headers, g), windows, windows'', w, e) {
      assert PassedFiled(headers, cutoff, h, Some(g), windows, windows', w, e);
      PassOne(headers, cutoff, h, g, windows, windows', w, e);
    }
    WindowOfBounds(headers[g].timestamp, t);
    forall w ensures Untouched(headers, h, t, windows, windows'', w) {
      assert Untouched(headers, h, t, windows, windows', w);
    }
    var e := (headers[g].timestamp, g);
    assert PassedFiled(headers, cutoff, h, Some(g), windows, windows', t, e);
  }

  /** The blocks not older than t of the chains outside todo have been filed. */
  ghost predicate RoundFiled(headers: Headers, cutoff: int, heads: Heads, t: int, todo: set<nat>, windows: Windows, windows': Windows, w: int, e: Entry) {
    e in WindowAt(windows', w) <==>
    || e in WindowAt(windows, w)
    || (Belongs(headers, heads, e.1) && headers[e.1].chain !in todo && headers[e.1].timestamp >= t && Filed(headers, cutoff, w, e))
  }

  ghost predicate UntouchedBy(headers: Headers, heads: Heads, t: int, windows: Windows, windows': Windows, w: int) {
    (w < t || forall c :: c in heads ==> heads[c] in headers && headers[heads[c]].timestamp < w) ==>
      (w in windows <==> w in windows') && WindowAt(windows', w) == WindowAt(windows, w)
  }

  ghost predicate HeadDone(headers: Headers, heads: Heads, t: int, todo: set<nat>, heads': Heads, c: nat) {
    var at := HeadsAt(headers, heads, t);
    if c in todo then c in heads && c in heads' && heads'[c] == heads[c]
    else (c in heads' <==> c in at) && (c in at ==> c in heads' && heads'[c] == at[c])
  }

  /** Part of a round: the chains of todo are still to be walked. */
  ghost predicate InRound(headers: Headers, cutoff: int, heads: Heads, t: int, todo: set<nat>, windows: Windows, windows': Windows, heads': Heads) {
    && (forall w, e :: RoundFiled(headers, cutoff, heads, t, todo, windows, windows', w, e))
    && (forall w :: UntouchedBy(headers, heads, t, windows, windows', w))
    && (forall c :: HeadDone(headers, heads, t, todo, heads', c))
    && Tidy(windows', t)
  }

  lemma RoundOneFiled(headers: Headers, cutoff: int, heads: Heads, t: int, todo: set<nat>, c: nat,
                      windows: Windows, windows': Windows, windows'': Windows, w: int, e: Entry)
    requires WfHeaders(headers) && WfHeads(headers, heads) && c in todo && c in heads
    requires RoundFiled(headers, cutoff, heads, t, todo, windows, windows', w, e)
    requires PassedFiled(headers, cutoff, heads[c], LastBefore(headers, heads[c], t), windows', windows'', w, e)
    ensures RoundFiled(headers, cutoff, heads, t, todo - {c}, windows, windows'', w, e)
  {
    LastBeforeSplits(headers, heads[c], t, e.1);
    if OnChain(headers, heads[c], e.1) { OnChainFacts(headers, heads[c], e.1); }
  }

  /** No block of a chain that is still to be walked is in window t. */
  lemma RoundNoneOf(headers: Headers, cutoff: int, heads: Heads, t: int, todo: set<nat>, windows: Windows, windows': Windows, c: nat)
    requires t !in windows && c in todo
    requires forall w, e :: RoundFiled(headers, cutoff, heads, t, todo, windows, windows', w, e)
    ensures NoneOf(headers, windows', t, c)
  {
    forall e | e in WindowAt(windows', t) ensures e.1 in headers && headers[e.1].chain != c {
      assert RoundFiled(headers, cutoff, heads, t, todo, windows, windows', t, e);
    }
  }

  /** Walking one more chain. */
  lemma RoundOne(headers: Headers, cutoff: int, heads: Heads, t: int, todo: set<nat>, c: nat,
                 windows: Windows, windows': Windows, heads': Heads, windows'': Windows, heads'': Heads)
    requires WfHeaders(headers) && WfHeads(headers, heads) && c in todo && c in heads && t !in windows
    requires InRound(headers, cutoff, heads, t, todo, windows, windows', heads')
    requires Walked(headers, cutoff, heads[c], t, LastBefore(headers, heads[c], t), windows', windows'')
    requires heads'' == var g := LastBefore(headers, heads[c], t); if g.Some? then heads'[c := g.value] else heads' - {c}
    ensures InRound(headers, cutoff, heads, t, todo - {c}, windows, windows'', heads'')
  {
    var todo' := todo - {c};
    forall w, e ensures RoundFiled(headers, cutoff, heads, t, todo', windows, windows'', w, e) {
      assert RoundFiled(headers, cutoff, heads, t, todo, windows, windows', w, e);
      assert PassedFiled(headers, cutoff, heads[c], LastBefore(headers, heads[c], t), windows', windows'', w, e);
      RoundOneFiled(headers, cutoff, heads, t, todo, c, windows, windows', windows'', w, e);
    }
    forall w ensures UntouchedBy(headers, heads, t, windows, windows'', w) {
      assert UntouchedBy(headers, heads, t, windows, windows', w) && Untouched(headers, heads[c], t, windows', windows'', w);
    }
    forall d ensures HeadDone(headers, heads, t, todo', heads'', d) {
      assert HeadDone(headers, heads, t, todo, heads', d);
    }
    RoundNoneOf(headers, cutoff, heads, t, todo, windows, windows', c);
  }

  /** Window t holds the blocks of t <= timestamp < t + 1000, each once, as far back as windows are kept. */
  ghost predicate WindowExact(headers: Headers, saved: Heads, cutoff: int, windows: Windows, t: int) {
    Tidy(windows, t) && forall e :: EntryExact(headers, saved, cutoff, windows, t, e)
  }

  ghost predicate EntryExact(headers: Headers, saved: Heads, cutoff: int, windows: Windows, t: int, e: Entry) {
    e in WindowAt(windows, t) <==>
    && Belongs(headers, saved, e.1) && e.0 == headers[e.1].timestamp
    && t <= e.0 < t + 1000 && e.0 >= cutoff
  }

  /** The heads when window t is rebuilt. */
  ghost predicate HeadsFor(headers: Headers, saved: Heads, t: int, heads: Heads) {
    heads == saved || heads == HeadsAt(headers, saved, t + WINDOW)
  }

  lemma RoundExact(headers: Headers, saved: Heads, cutoff: int, heads: Heads, t: int, windows: Windows, windows': Windows, heads': Heads)
    requires WfHeaders(headers) && WfHeads(headers, saved) && t % WINDOW == 0
    requires HeadsFor(headers, saved, t, heads)
    requires InRound(headers, cutoff, heads, t, {}, windows - {t}, windows', heads')
    ensures WindowExact(headers, saved, cutoff, windows', t)
  {
    forall e ensures EntryExact(headers, saved, cutoff, windows', t, e) {
      assert RoundFiled(headers, cutoff, heads, t, {}, windows - {t}, windows', t, e);
      BelongsBefore(headers, saved, t + WINDOW, e.1);
      WindowOfBounds(e.0, t);
    }
  }

  /** Later rounds leave the windows of earlier ones alone. */
  lemma RoundKeeps(headers: Headers, saved: Heads, cutoff: int, t: int, windows: Windows, windows': Windows, heads': Heads, w: int)
    requires WfHeaders(headers) && WfHeads(headers, saved)
    requires InRound(headers, cutoff, HeadsAt(headers, saved, t + WINDOW), t, {}, windows - {t}, windows', heads')
    requires WindowExact(headers, saved, cutoff, windows, w) && w >= t + WINDOW
    ensures WindowExact(headers, saved, cutoff, windows', w)
  {
    var heads := HeadsAt(headers, saved, t + WINDOW);
    forall c | c in heads ensures heads[c] in headers && headers[heads[c]].timestamp < w {
      LastBeforeOnChain(headers, saved[c], t + WINDOW);
    }
    assert UntouchedBy(headers, heads, t, windows - {t}, windows', w);
    assert WindowAt(windows', w) == WindowAt(windows, w);
    forall e ensures EntryExact(headers, saved, cutoff, windows', w, e) {
      assert EntryExact(headers, saved, cutoff, windows, w, e);
    }
  }

  function InsertRoot(roots: seq<(int, Heads)>, t: int, heads: Heads): seq<(int, Heads)> {
    if roots == [] || t < roots[0].0 then [(t, heads)] + roots
    else if t == roots[0].0 then [(t, heads)] + roots[1..]
    else [roots[0]] + InsertRoot(roots[1..], t, heads)
  }

  ghost predicate TimesRise(roots: seq<(int, Heads)>) {
    forall i, j :: 0 <= i < j < |roots| ==> roots[i].0 < roots[j].0
  }

  /** A root is inserted at its place, or replaces the one of its time. */
  lemma {:induction false} InsertRootMeans(roots: seq<(int, Heads)>, t: int, heads: Heads)
    requires TimesRise(roots)
    ensures TimesRise(InsertRoot(roots, t, heads))
    ensures forall e :: e in InsertRoot(roots, t, heads) <==> e == (t, heads) || (e in roots && e.0 != t)
  {
    var r := InsertRoot(roots, t, heads);
    if roots == [] || t < roots[0].0 {
      assert r == [(t, heads)] + roots;
    } else {
      var rest := roots[1..];
      assert roots == [roots[0]] + rest;
      if t > roots[0].0 {
        InsertRootMeans(rest, t, heads);
        var r1 := InsertRoot(rest, t, heads);
        forall j | 0 <= j < |r1| ensures roots[0].0 < r1[j].0 { assert r1[j] in r1; }
      }
    }
  }

  /** get_historical_root_hashes: the newest thousand. */
  function Newest(roots: seq<(int, Heads)>): seq<(int, Heads)> {
    if |roots| > MAX_ROOTS then roots[|roots| - MAX_ROOTS..] else roots
  }

  /** save_single_historical_root_hash */
  function SaveRoot(roots: seq<(int, Heads)>, t: int, heads: Heads): seq<(int, Heads)> {
    InsertRoot(Newest(roots), t, heads)
  }

  /** get_historical_root_hash: the newest root that is not newer than t. */
  function LatestRoot(roots: seq<(int, Heads)>, t: int): Option<Heads> {
    if roots == [] then None
    else if roots[|roots| - 1].0 <= t then Some(roots[|roots| - 1].1)
    else LatestRoot(roots[..|roots| - 1], t)
  }

  /** It is the root of the last entry whose time is not above t, and none where there is no such entry. */
  lemma {:induction false} LatestRootMeans(roots: seq<(int, Heads)>, t: int)
    ensures LatestRoot(roots, t).None? <==> forall i :: 0 <= i < |roots| ==> roots[i].0 > t
    ensures forall i :: 0 <= i < |roots| && roots[i].0 <= t && (forall j :: i < j < |roots| ==> roots[j].0 > t) ==>
              LatestRoot(roots, t) == Some(roots[i].1)
  {
    if roots != [] && roots[|roots| - 1].0 > t {
      var init := roots[..|roots| - 1];
      LatestRootMeans(init, t);
      assert forall i :: 0 <= i < |init| ==> init[i] == roots[i];
    }
  }

  /** The i-th historical root timestamp, counted back from the window current. */
  function GridTime(current: int, i: int): int { current - WINDOW * i }

  lemma GridTimeMod(current: int, i: int)
    requires current % WINDOW == 0
    ensures GridTime(current, i) % WINDOW == 0
  {
    assert current == current / WINDOW * WINDOW;
    assert GridTime(current, i) == (current / WINDOW - i) * WINDOW;
  }

  /** The multiples of 1000 from current down to earliest, but not past the genesis time. */
  ghost predicate OnGrid(current: int, earliest: int, genesis: int, t: int) {
    t % 1000 == 0 && earliest - 1000 < t <= current && t >= genesis
  }

  lemma GridIndex(current: int, t: int)
    requires current % 1000 == 0 && t % 1000 == 0 && t <= current
    ensures var i := (current - t) / 1000; i >= 0 && GridTime(current, i) == t
  {
    assert current == current / 1000 * 1000 && t == t / 1000 * 1000;
    assert (current - t) / 1000 == current / 1000 - t / 1000;
  }

  /** What holds of the first rounds' windows, where the next round would leave the grid, holds on the whole grid. */
  lemma GridCovered(headers: Headers, saved: Heads, cutoff: int, windows: Windows, current: int, earliest: int, genesis: int, rounds: nat)
    requires current % 1000 == 0
    requires forall i :: 0 <= i < rounds ==> WindowExact(headers, saved, cutoff, windows, GridTime(current, i))
    requires GridTime(current, rounds) <= earliest - 1000 || GridTime(current, rounds) < genesis
    ensures forall t :: OnGrid(current, earliest, genesis, t) ==> WindowExact(headers, saved, cutoff, windows, t)
  {
    forall t | OnGrid(current, earliest, genesis, t) ensures WindowExact(headers, saved, cutoff, windows, t) {
      GridIndex(current, t);
    }
  }

  function RootFor(headers: Headers, saved: Heads, current: int, i: int): (int, Heads) {
    (GridTime(current, i), HeadsAt(headers, saved, GridTime(current, i)))
  }

  ghost predicate RootBack(headers: Headers, saved: Heads, current: int, roots: seq<(int, Heads)>, i: int) {
    0 <= i < |roots| - 1 ==> roots[|roots| - 1 - i] == RootFor(headers, saved, current, i)
  }

  /** The roots after n rounds from the window current down: the newest thousand, and the last one. */
  ghost predicate RootsAfter(headers: Headers, saved: Heads, current: int, n: nat, roots: seq<(int, Heads)>) {
    && |roots| == (if n <= 1001 then n else 1001)
    && (roots != [] ==> roots[0] == RootFor(headers, saved, current, n - 1))
    && (forall i :: RootBack(headers, saved, current, roots, i))
  }

  lemma InsertFirst(roots: seq<(int, Heads)>, t: int, heads: Heads)
    requires roots != [] ==> t < roots[0].0
    ensures InsertRoot(roots, t, heads) == [(t, heads)] + roots
  {
  }

  lemma RootsAfterOne(headers: Headers, saved: Heads, current: int, n: nat, roots: seq<(int, Heads)>)
    requires RootsAfter(headers, saved, current, n, roots)
    ensures RootsAfter(headers, saved, current, n + 1, SaveRoot(roots, GridTime(current, n), HeadsAt(headers, saved, GridTime(current, n))))
  {
    var t, heads := GridTime(current, n), HeadsAt(headers, saved, GridTime(current, n));
    var kept := Newest(roots);
    assert kept == if n <= MAX_ROOTS then roots else roots[1..];
    assert RootBack(headers, saved, current, roots, MAX_ROOTS - 1);
    InsertFirst(kept, t, heads);
    var roots' := SaveRoot(roots, t, heads);
    forall i ensures RootBack(headers, saved, current, roots', i) {
      assert RootBack(headers, saved, current, roots, i);
      if 0 <= i < |roots'| - 1 {
        assert roots'[|roots'| - 1 - i] == roots[|roots| - 1 - i];
      }
    }
  }

  ghost predicate BackFrom(headers: Headers, saved: Heads, current: int, roots: seq<(int, Heads)>, k: int, j: int) {
    0 <= j - k < |roots| ==> roots[|roots| - 1 - (j - k)] == RootFor(headers, saved, current, j)
  }

  lemma {:induction false} LatestRootBack(headers: Headers, saved: Heads, current: int, roots: seq<(int, Heads)>, k: int, i: int)
    requires 0 <= i - k < |roots|
    requires forall j :: k <= j <= i ==> BackFrom(headers, saved, current, roots, k, j)
    ensures LatestRoot(roots, GridTime(current, i)) == Some(HeadsAt(headers, saved, GridTime(current, i)))
    decreases i - k
  {
    assert BackFrom(headers, saved, current, roots, k, k);
    if k < i {
      var older, k' := roots[..|roots| - 1], k + 1;
      forall j | k' <= j <= i ensures BackFrom(headers, saved, current, older, k', j) {
        assert BackFrom(headers, saved, current, roots, k, j);
      }
      LatestRootBack(headers, saved, current, older, k', i);
    }
  }

  /** After the rebuild, looking up one of the newest thousand root timestamps gives the heads of that time. */
  lemma RebuiltRoot(headers: Headers, saved: Heads, current: int, n: nat, roots: seq<(int, Heads)>, i: nat)
    requires RootsAfter(headers, saved, current, n, roots) && i < n && i < MAX_ROOTS
    ensures LatestRoot(Newest(roots), GridTime(current, i)) == Some(HeadsAt(headers, saved, GridTime(current, i)))
  {
    var kept := Newest(roots);
    forall j | 0 <= j <= i ensures BackFrom(headers, saved, current, kept, 0, j) {
      assert RootBack(headers, saved, current, roots, j);
      assert kept[|kept| - 1 - j] == roots[|roots| - 1 - j];
    }
    LatestRootBack(headers, saved, current, kept, 0, i);
  }

  class ChainHeads {
    const headers: Headers
    /** The heads under the saved root hash, and the current ones. */
    const saved: Heads
    var heads: Heads
    var windows: Windows
    /** The historical roots, oldest first. */
    var roots: seq<(int, Heads)>

    constructor (headers: Headers, saved: Heads, windows: Windows)
      ensures this.headers == headers && this.saved == saved && heads == saved && this.windows == windows
    {
      this.headers, this.saved, heads, this.windows, roots := headers, saved, saved, windows, [];
    }

    /** Files the blocks of one chain that are not older than t, and makes the first older one its head. */
    method WalkChain(h: Hash, t: int, cutoff: int)
      requires WfHeaders(headers) && h in headers && t % WINDOW == 0
      modifies `heads, `windows
      ensures var c, g := headers[h].chain, LastBefore(headers, h, t);
              heads == if g.Some? then old(heads)[c := g.value] else old(heads) - {c}
      ensures Walked(headers, cutoff, h, t, LastBefore(headers, h, t), old(windows), windows)
    {
      var g := h;
      while true
        invariant OnChain(headers, h, g) && g in headers && headers[g].chain == headers[h].chain
        invariant LastBefore(headers, h, t) == LastBefore(headers, g, t)
        invariant heads == old(heads)
        invariant Walked(headers, cutoff, h, t, Some(g), old(windows), windows)
        decreases headers[g].number
      {
        assert WfParent(headers, g);
        if headers[g].timestamp < t {
          heads := heads[headers[g].chain := g];
          break;
        }
        WalkOne(headers, cutoff, h, t, g, old(windows), windows);
        windows := FileBlock(headers, cutoff, windows, g);
        if headers[g].parent == GENESIS_PARENT {
          heads := heads - {headers[g].chain};
          break;
        }
        var p := headers[g].parent;
        assert OnChain(headers, g, p);
        OnChainTransitive(headers, h, g, p);
        g := p;
      }
    }

    /** One historical root: window t is rebuilt, and the heads go back to what they were at t. */
    method Round(t: int, cutoff: int)
      requires WfHeaders(headers) && WfHeads(headers, heads) && t % WINDOW == 0
      modifies `heads, `windows
      ensures heads == HeadsAt(headers, old(heads), t)
      ensures InRound(headers, cutoff, old(heads), t, {}, old(windows) - {t}, windows, heads)
    {
      windows := windows - {t};
      ghost var windows0 := windows;
      var hashes := heads;
      var todo := heads.Keys;
      while todo != {}
        invariant todo <= hashes.Keys && hashes == old(heads)
        invariant InRound(headers, cutoff, hashes, t, todo, windows0, windows, heads)
        decreases todo
      {
        var c :| c in todo;
        ghost var windows1, heads1 := windows, heads;
        WalkChain(hashes[c], t, cutoff);
        RoundOne(headers, cutoff, hashes, t, todo, c, windows0, windows1, heads1, windows, heads);
        todo := todo - {c};
      }
      ghost var at := HeadsAt(headers, hashes, t);
      forall c ensures (c in heads <==> c in at) && (c in at ==> heads[c] == at[c]) {
        assert HeadDone(headers, hashes, t, {}, heads, c);
      }
    }

    /** initialize_historical_root_hashes_and_chronological_blocks: from the window current down to earliest,
        but not past the genesis block. */
    method Rebuild(current: int, earliest: int, genesis: int, cutoff: int) returns (rounds: nat)
      requires WfHeaders(headers) && WfHeads(headers, saved) && current % WINDOW == 0
      modifies `heads, `windows, `roots
      ensures heads == saved
      ensures forall i :: 0 <= i < rounds ==> WindowExact(headers, saved, cutoff, windows, GridTime(current, i))
      ensures RootsAfter(headers, saved, current, rounds, roots)
      ensures forall i :: 0 <= i < rounds ==> GridTime(current, i) > earliest - WINDOW && GridTime(current, i) >= genesis
      ensures GridTime(current, rounds) <= earliest - WINDOW || GridTime(current, rounds) < genesis
      ensures forall t :: OnGrid(current, earliest, genesis, t) ==> WindowExact(headers, saved, cutoff, windows, t)
    {
      heads, roots, rounds := saved, [], 0;
      while GridTime(current, rounds) > earliest - WINDOW
        invariant heads == if rounds == 0 then saved else HeadsAt(headers, saved, GridTime(current, rounds - 1))
        invariant forall i :: 0 <= i < rounds ==> WindowExact(headers, saved, cutoff, windows, GridTime(current, i))
        invariant RootsAfter(headers, saved, current, rounds, roots)
        invariant forall i :: 0 <= i < rounds ==> GridTime(current, i) > earliest - WINDOW && GridTime(current, i) >= genesis
        decreases GridTime(current, rounds) - earliest + WINDOW
      {
        var t := GridTime(current, rounds);
        if t < genesis { break; }
        RoundAt(current, rounds, cutoff);
        RootsAfterOne(headers, saved, current, rounds, roots);
        roots := SaveRoot(roots, t, heads);
        rounds := rounds + 1;
      }
      GridCovered(headers, saved, cutoff, windows, current, earliest, genesis, rounds);
      heads := saved;
    }

    method RoundAt(current: int, i: nat, cutoff: int)
      requires WfHeaders(headers) && WfHeads(headers, saved) && current % WINDOW == 0
      requires heads == if i == 0 then saved else HeadsAt(headers, saved, GridTime(current, i - 1))
      requires forall j :: 0 <= j < i ==> WindowExact(headers, saved, cutoff, windows, GridTime(current, j))
      modifies `heads, `windows
      ensures heads == HeadsAt(headers, saved, GridTime(current, i))
      ensures forall j :: 0 <= j <= i ==> WindowExact(headers, saved, cutoff, windows, GridTime(current, j))
    {
      var t := GridTime(current, i);
      ghost var windows0, heads0 := windows, heads;
      GridTimeMod(current, i);
      assert HeadsFor(headers, saved, t, heads);
      HeadsAtWf(headers, saved, t + WINDOW);
      Round(t, cutoff);
      RoundExact(headers, saved, cutoff, heads0, t, windows0, windows, heads);
      HeadsAtTwice(headers, saved, t, t + WINDOW);
      forall j | 0 <= j < i ensures WindowExact(headers, saved, cutoff, windows, GridTime(current, j)) {
        RoundKeeps(headers, saved, cutoff, t, windows0, windows, heads, GridTime(current, j));
      }
    }
  }
}
