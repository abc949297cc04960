/** hp2p/consensus.py: the stake that peers give to each choice, kept up to date by the difference between
    a peer's last message and its new one. A choice is a key (a timestamp, or a chain and a block number)
    and a hash. */
module Votes {
  import opened Sequences

  type Hash = nat
  type Peer = nat

  datatype Choice<K> = Choice(key: K, hash: Hash)
  datatype Message<K> = Message(stake: int, choices: seq<Choice<K>>)

  type Totals<K> = map<K, map<Hash, int>>

  function Total<K>(totals: Totals<K>, c: Choice<K>): int {
    if c.key in totals && c.hash in totals[c.key] then totals[c.key][c.hash] else 0
  }

  /** No key is left without a hash. */
  ghost predicate NoBlanks<K>(totals: Totals<K>) {
    forall k :: k in totals ==> totals[k] != map[]
  }

  /** n times s. */
  function Times(s: int, n: nat): int {
    if n == 0 then 0 else Times(s, n - 1) + s
  }

  lemma {:induction false} TimesMeans(s: int, n: nat)
    ensures Times(s, n) == s * n
  {
    if n > 0 { TimesMeans(s, n - 1); }
  }

  lemma {:induction false} TimesSign(s: int, n: nat)
    ensures Times(-s, n) == -Times(s, n) && (s >= 0 ==> Times(s, n) >= 0)
  {
    if n > 0 { TimesSign(s, n - 1); }
  }

  lemma {:induction false} TimesZero(s: int, n: nat)
    ensures Times(s, n) == 0 <==> s == 0 || n == 0
    ensures s > 0 ==> Times(s, n) >= n
    ensures s < 0 ==> Times(s, n) + n <= 0
  {
    if n > 0 { TimesZero(s, n - 1); }
  }

  /** How much one message gives to a choice. */
  function Weight<K(==)>(m: Message<K>, c: Choice<K>): int {
    Times(m.stake, multiset(m.choices)[c])
  }

  /** The stake for c recomputed from the last message of every peer. */
  ghost function Recomputed<K>(last: map<Peer, Message<K>>, peers: set<Peer>, c: Choice<K>): int {
    if peers == {} then 0
    else
      var p :| p in peers;
      WeightOf(last, p, c) + Recomputed(last, peers - {p}, c)
  }

  function WeightOf<K(==)>(last: map<Peer, Message<K>>, p: Peer, c: Choice<K>): int {
    if p in last then Weight(last[p], c) else 0
  }

  lemma {:induction false} RecomputedSplit<K>(last: map<Peer, Message<K>>, peers: set<Peer>, p: Peer, c: Choice<K>)
    requires p in peers
    ensures Recomputed(last, peers, c) == WeightOf(last, p, c) + Recomputed(last, peers - {p}, c)
    decreases peers
  {
    var q :| q in peers && Recomputed(last, peers, c) == WeightOf(last, q, c) + Recomputed(last, peers - {q}, c);
    if q != p {
      RecomputedSplit(last, peers - {q}, p, c);
      RecomputedSplit(last, peers - {p}, q, c);
      assert peers - {q} - {p} == peers - {p} - {q};
    }
  }

  lemma {:induction false} RecomputedSame<K>(last: map<Peer, Message<K>>, last': map<Peer, Message<K>>, peers: set<Peer>, c: Choice<K>)
    requires forall p :: p in peers ==> WeightOf(last, p, c) == WeightOf(last', p, c)
    ensures Recomputed(last, peers, c) == Recomputed(last', peers, c)
    decreases peers
  {
    if peers != {} {
      var p :| p in peers;
      RecomputedSplit(last, peers, p, c);
      RecomputedSplit(last', peers, p, c);
      RecomputedSame(last, last', peers - {p}, c);
    }
  }

  lemma {:induction false} RecomputedNonNegative<K>(last: map<Peer, Message<K>>, peers: set<Peer>, c: Choice<K>)
    requires forall p :: p in last ==> last[p].stake >= 0
    ensures Recomputed(last, peers, c) >= 0
    decreases peers
  {
    if peers != {} {
      var p :| p in peers;
      RecomputedSplit(last, peers, p, c);
      RecomputedNonNegative(last, peers - {p}, c);
      if p in last { TimesSign(last[p].stake, multiset(last[p].choices)[c]); }
    }
  }

  /** What one more message of p changes in the recomputed stake. */
  lemma RecomputedChange<K>(last: map<Peer, Message<K>>, p: Peer, m: Message<K>, c: Choice<K>)
    ensures var last' := last[p := m];
            Recomputed(last', last'.Keys, c) - Recomputed(last, last.Keys, c) ==
            Weight(m, c) - WeightOf(last, p, c)
  {
    var last' := last[p := m];
    RecomputedSplit(last', last'.Keys, p, c);
    RecomputedSame(last, last', last.Keys - {p}, c);
    assert last'.Keys - {p} == last.Keys - {p};
    if p in last {
      RecomputedSplit(last, last.Keys, p, c);
    } else {
      assert last.Keys - {p} == last.Keys;
    }
  }

  /** effecient_diff: what of b is not in a, in the order of b. */
  function Difference<K(==)>(a: seq<Choice<K>>, b: seq<Choice<K>>): seq<Choice<K>> {
    if b == [] then []
    else if b[0] in a then Difference(a, b[1..])
    else [b[0]] + Difference(a, b[1..])
  }

  lemma {:induction false} DifferenceCount<K>(a: seq<Choice<K>>, b: seq<Choice<K>>, c: Choice<K>)
    ensures multiset(Difference(a, b))[c] == if c in a then 0 else multiset(b)[c]
  {
    if b != [] {
      assert b == [b[0]] + b[1..];
      DifferenceCount(a, b[1..], c);
    }
  }

  /** The change the update makes to the total of c: what left is taken at the old stake, what came is given at add. */
  function Change<K(==)>(prev: Message<K>, choices: seq<Choice<K>>, add: int, c: Choice<K>): int {
    (if c in choices then 0 else -Weight(prev, c)) + (if c in prev.choices then 0 else Weight(Message(add, choices), c))
  }

  /** A choice of the new message has the weight it had before, or for a new choice the weight at add. */
  ghost predicate Steady<K>(prev: Message<K>, m: Message<K>, add: int, c: Choice<K>) {
    c in m.choices ==> Weight(m, c) == if c in prev.choices then Weight(prev, c) else Weight(Message(add, m.choices), c)
  }

  /** The update of one total is right exactly for the steady choices. */
  lemma SteadyIff<K>(prev: Message<K>, m: Message<K>, add: int, c: Choice<K>)
    ensures Change(prev, m.choices, add, c) == Weight(m, c) - Weight(prev, c) <==> Steady(prev, m, add, c)
  {
    assert c !in m.choices ==> multiset(m.choices)[c] == 0;
    assert c !in prev.choices ==> multiset(prev.choices)[c] == 0;
  }

  lemma DistinctWeight<K>(m: Message<K>, c: Choice<K>)
    requires Distinct(m.choices)
    ensures Weight(m, c) == if c in m.choices then m.stake else 0
  {
    DistinctCount(m.choices, c);
    assert Times(m.stake, 1) == Times(m.stake, 0) + m.stake;
  }

  /** Root hashes are added at the old stake: that is right exactly if the stake is the same, or nothing is reported. */
  lemma SteadyRoots<K>(prev: Message<K>, m: Message<K>)
    requires Distinct(prev.choices) && Distinct(m.choices)
    ensures (forall c :: Steady(prev, m, prev.stake, c)) <==> m.choices == [] || m.stake == prev.stake
  {
    forall c ensures Steady(prev, m, prev.stake, c) <==> (c in m.choices ==> m.stake == prev.stake) {
      DistinctWeight(prev, c);
      DistinctWeight(m, c);
      DistinctWeight(Message(prev.stake, m.choices), c);
    }
    if m.choices != [] { assert m.choices[0] in m.choices && (Steady(prev, m, prev.stake, m.choices[0]) ==> m.stake == prev.stake); }
  }

  /** Block choices are added at the new stake: that is right exactly if the stake is the same, or no choice is repeated. */
  lemma SteadyBlocks<K>(prev: Message<K>, m: Message<K>)
    requires Distinct(prev.choices) && Distinct(m.choices)
    ensures (forall c :: Steady(prev, m, m.stake, c)) <==>
            m.stake == prev.stake || forall c :: c in m.choices ==> c !in prev.choices
  {
    forall c ensures Steady(prev, m, m.stake, c) <==> (c in m.choices && c in prev.choices ==> m.stake == prev.stake) {
      DistinctWeight(prev, c);
      DistinctWeight(m, c);
    }
  }

  /** The stored totals are those recomputed from the last messages. */
  ghost predicate Exact<K(!new)>(totals: Totals<K>, last: map<Peer, Message<K>>) {
    forall c :: ExactAt(totals, last, c)
  }

  ghost predicate ExactAt<K>(totals: Totals<K>, last: map<Peer, Message<K>>, c: Choice<K>) {
    Total(totals, c) == Recomputed(last, last.Keys, c)
  }

  /** The totals changed by d for each occurrence in list. */
  ghost predicate Shifted<K>(totals: Totals<K>, totals': Totals<K>, list: seq<Choice<K>>, d: int, c: Choice<K>) {
    Total(totals', c) == Total(totals, c) + Times(d, multiset(list)[c])
  }

  lemma ShiftOne<K>(totals: Totals<K>, totals': Totals<K>, totals'': Totals<K>, list: seq<Choice<K>>, k: nat, d: int, c: Choice<K>)
    requires k < |list| && Shifted(totals, totals', list[..k], d, c)
    requires Total(totals'', c) == Total(totals', c) + (if c == list[k] then d else 0)
    ensures Shifted(totals, totals'', list[..k + 1], d, c)
  {
    assert list[..k + 1] == list[..k] + [list[k]];
    var n := multiset(list[..k])[c];
    assert multiset(list[..k + 1])[c] == n + (if c == list[k] then 1 else 0);
  }

  /** After both differences are applied, the total of c is right exactly if c is steady. */
  lemma ReplacedTotal<K>(totals: Totals<K>, totals': Totals<K>, totals'': Totals<K>, last: map<Peer, Message<K>>, p: Peer,
                         m: Message<K>, add: int, c: Choice<K>)
    requires p in last && ExactAt(totals, last, c)
    requires Shifted(totals, totals', Difference(m.choices, last[p].choices), -last[p].stake, c)
    requires Shifted(totals', totals'', Difference(last[p].choices, m.choices), add, c)
    ensures ExactAt(totals'', last[p := m], c) <==> Steady(last[p], m, add, c)
  {
    ChangedTotal(totals, totals', totals'', last[p], m.choices, add, c);
    RecomputedChange(last, p, m, c);
    SteadyIff(last[p], m, add, c);
  }

  lemma ChangedTotal<K>(totals: Totals<K>, totals': Totals<K>, totals'': Totals<K>, prev: Message<K>, choices: seq<Choice<K>>,
                        add: int, c: Choice<K>)
    requires Shifted(totals, totals', Difference(choices, prev.choices), -prev.stake, c)
    requires Shifted(totals', totals'', Difference(prev.choices, choices), add, c)
    ensures Total(totals'', c) == Total(totals, c) + Change(prev, choices, add, c)
  {
    DifferenceCount(choices, prev.choices, c);
    DifferenceCount(prev.choices, choices, c);
    TimesSign(prev.stake, multiset(prev.choices)[c]);
  }

  /** The stake of some peers and that of the others add up. */
  lemma {:induction false} RecomputedPart<K>(last: map<Peer, Message<K>>, peers: set<Peer>, part: set<Peer>, c: Choice<K>)
    requires part <= peers
    ensures Recomputed(last, peers, c) == Recomputed(last, part, c) + Recomputed(last, peers - part, c)
    decreases part
  {
    if part == {} {
      assert peers - part == peers;
    } else {
      var p :| p in part;
      RecomputedSplit(last, peers, p, c);
      RecomputedSplit(last, part, p, c);
      RecomputedPart(last, peers - {p}, part - {p}, c);
      assert peers - {p} - (part - {p}) == peers - part;
    }
  }

  /** Non-negative stakes add up to nothing only if each is nothing. */
  lemma {:induction false} RecomputedZero<K>(last: map<Peer, Message<K>>, peers: set<Peer>, c: Choice<K>)
    requires forall p :: p in last ==> last[p].stake >= 0
    ensures Recomputed(last, peers, c) == 0 <==> forall p :: p in peers ==> WeightOf(last, p, c) == 0
    decreases peers
  {
    if peers != {} {
      var p :| p in peers;
      RecomputedSplit(last, peers, p, c);
      RecomputedZero(last, peers - {p}, c);
      RecomputedNonNegative(last, peers - {p}, c);
      if p in last { TimesSign(last[p].stake, multiset(last[p].choices)[c]); }
      assert forall q :: q in peers <==> q == p || q in peers - {p};
    }
  }

  /** A message that gives no stake to anything. */
  predicate Silent<K>(m: Message<K>) {
    m.stake == 0 || m.choices == []
  }

  lemma SilentWeight<K(!new)>(m: Message<K>)
    ensures Silent(m) <==> forall c :: Weight(m, c) == 0
  {
    forall c ensures Weight(m, c) == 0 <==> m.stake == 0 || c !in m.choices {
      TimesZero(m.stake, multiset(m.choices)[c]);
    }
    if !Silent(m) { assert m.choices[0] in m.choices && Weight(m, m.choices[0]) != 0; }
  }

  lemma ForgottenAt<K>(totals: Totals<K>, last: map<Peer, Message<K>>, gone: set<Peer>, c: Choice<K>)
    requires ExactAt(totals, last, c) && gone <= last.Keys
    ensures ExactAt(totals, last - gone, c) <==> Recomputed(last, gone, c) == 0
  {
    var last' := last - gone;
    RecomputedPart(last, last.Keys, gone, c);
    assert last'.Keys == last.Keys - gone;
    RecomputedSame(last, last', last'.Keys, c);
  }

  lemma {:induction false} SilentPeers<K(!new)>(last: map<Peer, Message<K>>, peers: set<Peer>, c: Choice<K>)
    requires peers <= last.Keys && forall p :: p in peers ==> Silent(last[p])
    ensures Recomputed(last, peers, c) == 0
    decreases peers
  {
    if peers != {} {
      var p :| p in peers;
      RecomputedSplit(last, peers, p, c);
      SilentWeight(last[p]);
      SilentPeers(last, peers - {p}, c);
    }
  }

  /** Forgetting peers that gave no stake is right, and where no stake is negative only that. */
  lemma ForgottenAllExact<K(!new)>(totals: Totals<K>, last: map<Peer, Message<K>>, gone: set<Peer>)
    requires Exact(totals, last) && gone <= last.Keys
    ensures (forall p :: p in gone ==> Silent(last[p])) ==> Exact(totals, last - gone)
    ensures (forall p :: p in last ==> last[p].stake >= 0) && Exact(totals, last - gone) ==> forall p :: p in gone ==> Silent(last[p])
  {
    var last' := last - gone;
    forall c ensures ExactAt(totals, last', c) <==> Recomputed(last, gone, c) == 0 {
      assert ExactAt(totals, last, c);
      ForgottenAt(totals, last, gone, c);
    }
    if forall p :: p in gone ==> Silent(last[p]) {
      forall c ensures ExactAt(totals, last', c) { SilentPeers(last, gone, c); }
    }
    if (forall p :: p in last ==> last[p].stake >= 0) && Exact(totals, last') {
      forall p | p in gone ensures Silent(last[p]) {
        forall c ensures Weight(last[p], c) == 0 {
          assert ExactAt(totals, last', c);
          RecomputedZero(last, gone, c);
          assert WeightOf(last, p, c) == 0;
        }
        SilentWeight(last[p]);
      }
    }
  }

  datatype Kind = Roots | BlockChoices

  /** The message has the peer's one stake, and no choice twice. */
  ghost predicate Fair<K>(stakeOf: Peer -> int, p: Peer, m: Message<K>) {
    m.stake == stakeOf(p) && Distinct(m.choices)
  }

  /** The last message of every peer. */
  function Latest<K>(messages: seq<(Peer, Message<K>)>): map<Peer, Message<K>> {
    if messages == [] then map[]
    else
      var (p, m) := messages[|messages| - 1];
      Latest(messages[..|messages| - 1])[p := m]
  }

  /** It is the one that no later message of the peer follows. */
  lemma {:induction false} LatestMeans<K>(messages: seq<(Peer, Message<K>)>, p: Peer)
    ensures p in Latest(messages) <==> exists i :: IsLatest(messages, p, i)
    ensures forall i :: IsLatest(messages, p, i) ==> Latest(messages)[p] == messages[i].1
  {
    if messages != [] {
      var init := messages[..|messages| - 1];
      LatestMeans(init, p);
      if messages[|messages| - 1].0 == p {
        assert IsLatest(messages, p, |messages| - 1);
      } else {
        forall i ensures IsLatest(messages, p, i) <==> IsLatest(init, p, i) {
          assert IsLatest(init, p, i) ==> forall j :: i < j < |messages| ==> messages[j].0 != p;
        }
      }
    }
  }

  ghost predicate IsLatest<K>(messages: seq<(Peer, Message<K>)>, p: Peer, i: int) {
    0 <= i < |messages| && messages[i].0 == p && forall j :: i < j < |messages| ==> messages[j].0 != p
  }

  /** The stakes of some peers together. */
  ghost function StakeTogether(stakeOf: Peer -> int, peers: set<Peer>): int {
    if peers == {} then 0
    else
      var p :| p in peers;
      stakeOf(p) + StakeTogether(stakeOf, peers - {p})
  }

  lemma {:induction false} StakeSplit(stakeOf: Peer -> int, peers: set<Peer>, p: Peer)
    requires p in peers
    ensures StakeTogether(stakeOf, peers) == stakeOf(p) + StakeTogether(stakeOf, peers - {p})
    decreases peers
  {
    var q :| q in peers && StakeTogether(stakeOf, peers) == stakeOf(q) + StakeTogether(stakeOf, peers - {q});
    if q != p {
      StakeSplit(stakeOf, peers - {q}, p);
      StakeSplit(stakeOf, peers - {p}, q);
      assert peers - {q} - {p} == peers - {p} - {q};
    }
  }

  ghost function PeersFor<K>(last: map<Peer, Message<K>>, peers: set<Peer>, c: Choice<K>): set<Peer> {
    set p | p in peers && p in last && c in last[p].choices
  }

  /** While every peer keeps its stake and repeats no choice, a recomputed total is what the peers that chose c have together. */
  lemma {:induction false} RecomputedIsStake<K>(last: map<Peer, Message<K>>, peers: set<Peer>, c: Choice<K>, stakeOf: Peer -> int)
    requires forall p :: p in last ==> Fair(stakeOf, p, last[p])
    ensures Recomputed(last, peers, c) == StakeTogether(stakeOf, PeersFor(last, peers, c))
    decreases peers
  {
    if peers == {} {
      assert PeersFor(last, peers, c) == {};
    } else {
      var p :| p in peers;
      RecomputedSplit(last, peers, p, c);
      RecomputedIsStake(last, peers - {p}, c, stakeOf);
      if p in last { DistinctWeight(last[p], c); }
      var with := PeersFor(last, peers, c);
      assert PeersFor(last, peers - {p}, c) == with - {p};
      if p in with { StakeSplit(stakeOf, with, p); } else { assert with - {p} == with; }
    }
  }

  /** Exact totals are sums of stakes, so never negative while no stake is. */
  lemma ExactNonNegative<K(!new)>(totals: Totals<K>, last: map<Peer, Message<K>>, c: Choice<K>)
    requires Exact(totals, last) && forall p :: p in last ==> last[p].stake >= 0
    ensures Total(totals, c) >= 0
  {
    assert ExactAt(totals, last, c);
    RecomputedNonNegative(last, last.Keys, c);
  }

  /** Forgetting a peer without taking off its stake is right exactly if its last message gave no stake. */
  lemma ForgottenExact<K(!new)>(totals: Totals<K>, last: map<Peer, Message<K>>, p: Peer)
    requires Exact(totals, last) && p in last
    ensures Exact(totals, last - {p}) <==> Silent(last[p])
  {
    var last' := last - {p};
    forall c ensures ExactAt(totals, last', c) <==> last[p].stake == 0 || c !in last[p].choices {
      assert ExactAt(totals, last, c);
      RecomputedSplit(last, last.Keys, p, c);
      assert last'.Keys == last.Keys - {p};
      RecomputedSame(last, last', last'.Keys, c);
      TimesZero(last[p].stake, multiset(last[p].choices)[c]);
    }
    if last[p].choices != [] {
      assert last[p].choices[0] in last[p].choices;
      assert ExactAt(totals, last', last[p].choices[0]) <==> last[p].stake == 0;
    }
  }

  class VoteStatistics<K(==,!new)> {
    var totals: Totals<K>
    /** The last message of every peer. */
    var last: map<Peer, Message<K>>

    constructor ()
      ensures Exact(totals, last) && totals == map[] && last == map[]
    {
      totals, last := map[], map[];
    }

    /** delta_block_choice_statistics, delta_root_hash_timestamp_statistics */
    method Delta(c: Choice<K>, d: int)
      modifies `totals
      ensures forall c' :: Total(totals, c') == Total(old(totals), c') + (if c' == c then d else 0)
      ensures NoBlanks(old(totals)) ==> NoBlanks(totals)
    {
      var inner: map<Hash, int> := if c.key in totals then totals[c.key] else map[];
      var changed := if c.hash in inner then inner[c.hash] + d else d;
      inner := inner[c.hash := changed];
      totals := totals[c.key := inner];
      assert c.hash in totals[c.key];
    }

    method DeltaAll(list: seq<Choice<K>>, d: int)
      modifies `totals
      ensures forall c :: Shifted(old(totals), totals, list, d, c)
      ensures NoBlanks(old(totals)) ==> NoBlanks(totals)
    {
      for i := 0 to |list|
        invariant forall c :: Shifted(old(totals), totals, list[..i], d, c)
        invariant NoBlanks(old(totals)) ==> NoBlanks(totals)
      {
        ghost var before := totals;
        Delta(list[i], d);
        ghost var part := list[..i + 1];
        forall c ensures Shifted(old(totals), totals, part, d, c) {
          ShiftOne(old(totals), before, totals, list, i, d, c);
        }
      }
      assert list[..|list|] == list;
    }

    /** Replaces the last message of a peer: the difference is taken off at the old stake and put on at add. */
    method Replace(p: Peer, m: Message<K>, add: int)
      requires Exact(totals, last) && NoBlanks(totals) && p in last
      modifies `totals, `last
      ensures last == old(last)[p := m] && NoBlanks(totals)
      ensures Exact(totals, last) <==> forall c :: Steady(old(last)[p], m, add, c)
    {
      var prev := last[p];
      var gone := Difference(m.choices, prev.choices);
      var came := Difference(prev.choices, m.choices);
      DeltaAll(gone, -prev.stake);
      ghost var totals1 := totals;
      DeltaAll(came, add);
      last := last[p := m];
      forall c ensures ExactAt(totals, last, c) <==> Steady(prev, m, add, c) {
        assert Shifted(old(totals), totals1, gone, -prev.stake, c) && Shifted(totals1, totals, came, add, c);
        ReplacedTotal(old(totals), totals1, totals, old(last), p, m, add, c);
      }
    }

    /** The first message of a peer: everything in it is added. */
    method AddFirst(p: Peer, m: Message<K>)
      requires Exact(totals, last) && NoBlanks(totals) && p !in last
      modifies `totals, `last
      ensures last == old(last)[p := m] && NoBlanks(totals) && Exact(totals, last)
    {
      DeltaAll(m.choices, m.stake);
      last := last[p := m];
      forall c ensures ExactAt(totals, last, c) {
        assert ExactAt(old(totals), old(last), c) && Shifted(old(totals), totals, m.choices, m.stake, c);
        RecomputedChange(old(last), p, m, c);
      }
    }

    /** One turn of receive_peer_chain_head_root_hash_timestamps_loop. */
    method ReceiveRoots(p: Peer, m: Message<K>)
      requires Exact(totals, last) && NoBlanks(totals)
      modifies `totals, `last
      ensures last == old(last)[p := m] && NoBlanks(totals)
      ensures p !in old(last) ==> Exact(totals, last)
      ensures p in old(last) ==> (Exact(totals, last) <==> forall c :: Steady(old(last)[p], m, old(last)[p].stake, c))
    {
      if p in last { Replace(p, m, last[p].stake); } else { AddFirst(p, m); }
    }

    /** One turn of receive_peer_block_choices_loop. */
    method ReceiveBlockChoices(p: Peer, m: Message<K>)
      requires Exact(totals, last) && NoBlanks(totals)
      modifies `totals, `last
      ensures last == old(last)[p := m] && NoBlanks(totals)
      ensures p !in old(last) ==> Exact(totals, last)
      ensures p in old(last) ==> (Exact(totals, last) <==> forall c :: Steady(old(last)[p], m, m.stake, c))
    {
      if p in last { Replace(p, m, m.stake); } else { AddFirst(p, m); }
    }

    /** A whole run of one of the two loops. While every peer keeps its stake, the totals are exact after every message. */
    method Run(kind: Kind, messages: seq<(Peer, Message<K>)>, ghost stakeOf: Peer -> int)
      requires last == map[] && totals == map[]
      requires forall i :: 0 <= i < |messages| ==> Fair(stakeOf, messages[i].0, messages[i].1)
      modifies `totals, `last
      ensures last == Latest(messages)
      ensures Exact(totals, last) && NoBlanks(totals)
      ensures forall c :: Total(totals, c) == StakeTogether(stakeOf, PeersFor(last, last.Keys, c))
    {
      for i := 0 to |messages|
        invariant last == Latest(messages[..i])
        invariant Exact(totals, last) && NoBlanks(totals)
        invariant forall p :: p in last ==> Fair(stakeOf, p, last[p])
      {
        var (p, m) := messages[i];
        if p in last {
          SteadyRoots(last[p], m);
          SteadyBlocks(last[p], m);
        }
        if kind == Roots { ReceiveRoots(p, m); } else { ReceiveBlockChoices(p, m); }
        assert messages[..i + 1] == messages[..i] + [messages[i]];
      }
      assert messages[..|messages|] == messages;
      forall c ensures Total(totals, c) == StakeTogether(stakeOf, PeersFor(last, last.Keys, c)) {
        assert ExactAt(totals, last, c);
        RecomputedIsStake(last, last.Keys, c, stakeOf);
      }
    }

    /** _remove_data_for_disconnected_peers: the messages of the others are forgotten, their stake stays in the totals. */
    method RemoveDisconnected(connected: set<Peer>)
      requires Exact(totals, last)
      modifies `last
      ensures last == old(last) - (old(last).Keys - connected)
      ensures (forall p :: p in old(last) && p !in connected ==> Silent(old(last)[p])) ==> Exact(totals, last)
      ensures (forall p :: p in old(last) ==> old(last)[p].stake >= 0) && Exact(totals, last) ==>
                forall p :: p in old(last) && p !in connected ==> Silent(old(last)[p])
    {
      var rest := last.Keys;
      ghost var gone: set<Peer> := {};
      while rest != {}
        invariant rest <= old(last).Keys && gone == old(last).Keys - rest - connected
        invariant last == old(last) - gone
        decreases rest
      {
        var p :| p in rest;
        rest := rest - {p};
        if p !in connected {
          last := last - {p};
          gone := gone + {p};
        }
      }
      assert gone == old(last).Keys - connected;
      ForgottenAllExact(totals, old(last), gone);
    }
  }
}
