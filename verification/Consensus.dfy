/** hp2p/consensus.py: choosing the hash with the most stake, and where to synchronise from. Hashes are
    compared as numbers. */
module Consensus {
  import opened Options
  import opened Votes

  /** (hash, stake) is at most (hash', stake'): less stake, or equal stake and no greater hash. */
  predicate AtMost(hash: Hash, stake: int, hash': Hash, stake': int) {
    stake < stake' || (stake == stake' && hash <= hash')
  }

  /** h has the greatest stake, ties going to the greater hash. */
  ghost predicate IsWinner(stakes: map<Hash, int>, h: Hash) {
    h in stakes && forall g :: g in stakes ==> AtMost(g, stakes[g], h, stakes[h])
  }

  /** There is one winner, whatever the order of the dictionary. */
  lemma WinnerUnique(stakes: map<Hash, int>, h: Hash, h': Hash)
    requires IsWinner(stakes, h) && IsWinner(stakes, h')
    ensures h == h'
  {
    assert AtMost(h, stakes[h], h', stakes[h']) && AtMost(h', stakes[h'], h, stakes[h]);
  }

  /** determine_stake_winner on a dictionary, in any order of its items; None is its failing assertion. */
  method DetermineStakeWinner(stakes: map<Hash, int>) returns (r: Option<(Hash, int)>)
    ensures r.None? <==> stakes == map[]
    ensures r.Some? ==> IsWinner(stakes, r.value.0) && r.value.1 == stakes[r.value.0]
  {
    var rest := stakes.Keys;
    r := None;
    while rest != {}
      invariant rest <= stakes.Keys
      invariant r.None? <==> rest == stakes.Keys
      invariant r.Some? ==>
                  && r.value.0 in stakes && r.value.1 == stakes[r.value.0]
                  && forall g :: g in stakes && g !in rest ==> AtMost(g, stakes[g], r.value.0, r.value.1)
      decreases rest
    {
      var h :| h in rest;
      if r.None? || stakes[h] > r.value.1 || (stakes[h] == r.value.1 && h > r.value.0) {
        r := Some((h, stakes[h]));
      }
      rest := rest - {h};
    }
  }

  /** determine_stake_winner on a list of items and stakes. */
  method DetermineStakeWinnerOfList(items: seq<(Hash, int)>) returns (r: Option<(Hash, int)>)
    ensures r.None? <==> items == []
    ensures r.Some? ==> r.value in items && forall e :: e in items ==> AtMost(e.0, e.1, r.value.0, r.value.1)
  {
    r := None;
    for i := 0 to |items|
      invariant r.None? <==> i == 0
      invariant r.Some? ==>
                  r.value in items && forall j :: 0 <= j < i ==> AtMost(items[j].0, items[j].1, r.value.0, r.value.1)
    {
      var (h, stake) := items[i];
      if r.None? || stake > r.value.1 || (stake == r.value.1 && h > r.value.0) {
        r := Some((h, stake));
      }
    }
  }

  /** get_winner_stake_binary_compare */
  function WinnerOfTwo(h: Hash, stake: int, h': Hash, stake': int): (r: Hash)
    ensures if AtMost(h, stake, h', stake') then r == h' else r == h
  {
    if stake > stake' then h
    else if stake < stake' then h'
    else if h > h' then h
    else h'
  }

  /** The stakes with our own added to our local hash. */
  function WithOwnStake(stakes: map<Hash, int>, local: Hash, own: int): map<Hash, int> {
    stakes[local := (if local in stakes then stakes[local] else 0) + own]
  }

  /** The stake behind a hash: that of the peers, and ours once if it is our local hash. */
  ghost function Backing(stakes: map<Hash, int>, local: Hash, own: int, h: Hash): int {
    (if h in stakes then stakes[h] else 0) + (if h == local then own else 0)
  }

  lemma OwnStakeBacks(stakes: map<Hash, int>, local: Hash, own: int, h: Hash)
    requires IsWinner(WithOwnStake(stakes, local, own), h)
    ensures h in stakes || h == local
    ensures forall g :: g in stakes || g == local ==>
              var mine, other := Backing(stakes, local, own, h), Backing(stakes, local, own, g);
              other < mine || (other == mine && g <= h)
  {
    var all := WithOwnStake(stakes, local, own);
    forall g | g in stakes || g == local
      ensures AtMost(g, Backing(stakes, local, own, g), h, Backing(stakes, local, own, h))
    {
      assert g in all && AtMost(g, all[g], h, all[h]);
    }
  }

  /** coro_get_root_hash_consensus for the stakes of one timestamp, if there are any; None is NoPeerStatistics. */
  method RootHashConsensus(stakes: Option<map<Hash, int>>, local: Option<Hash>, own: Option<int>) returns (r: Option<Hash>)
    requires stakes.Some? ==> stakes.value != map[]
    requires own.Some? ==> own.value >= 0
    ensures r.Some? ==> stakes.Some?
    ensures r.Some? && local.None? ==> IsWinner(stakes.value, r.value)
    ensures r.Some? && local.Some? && own.Some? ==> IsWinner(WithOwnStake(stakes.value, local.value, own.value), r.value)
    ensures r.Some? && local.Some? && own.Some? ==>
              && (r.value in stakes.value || r == local)
              && forall g :: g in stakes.value || g == local.value ==>
                   var mine, other := Backing(stakes.value, local.value, own.value, r.value), Backing(stakes.value, local.value, own.value, g);
                   other < mine || (other == mine && g <= r.value)
    ensures r.Some? && local.Some? && own.None? ==> r == local && IsWinner(stakes.value, r.value)
    ensures r.None? && stakes.Some? ==> local.Some? && own.None? && !IsWinner(stakes.value, local.value)
  {
    if stakes.None? { return None; }
    var winner := DetermineStakeWinner(stakes.value);
    var (h, stake) := winner.value;
    if local.None? { return Some(h); }
    if h == local.value {
      if own.Some? {
        OwnStakeKeepsWinner(stakes.value, h, own.value);
        OwnStakeBacks(stakes.value, h, own.value, h);
      }
      return Some(h);
    }
    if own.None? {
      if IsWinner(stakes.value, local.value) { WinnerUnique(stakes.value, h, local.value); }
      return None;
    }
    var mine := (if local.value in stakes.value then stakes.value[local.value] else 0) + own.value;
    var best := WinnerOfTwo(h, stake, local.value, mine);
    BetterOfTwoWins(stakes.value, h, local.value, own.value);
    OwnStakeBacks(stakes.value, local.value, own.value, best);
    return Some(best);
  }

  lemma OwnStakeKeepsWinner(stakes: map<Hash, int>, h: Hash, own: int)
    requires IsWinner(stakes, h) && own >= 0
    ensures IsWinner(WithOwnStake(stakes, h, own), h)
  {
    forall g | g in stakes ensures AtMost(g, WithOwnStake(stakes, h, own)[g], h, stakes[h] + own) {
      assert AtMost(g, stakes[g], h, stakes[h]);
    }
  }

  /** With our stake on the local hash, it and the peers' winner decide between them. */
  lemma BetterOfTwoWins(stakes: map<Hash, int>, h: Hash, local: Hash, own: int)
    requires IsWinner(stakes, h) && h != local
    ensures var all := WithOwnStake(stakes, local, own);
            IsWinner(all, WinnerOfTwo(h, all[h], local, all[local]))
  {
    var all := WithOwnStake(stakes, local, own);
    var best := WinnerOfTwo(h, all[h], local, all[local]);
    forall g | g in all ensures AtMost(g, all[g], best, all[best]) {
      if g != local { assert AtMost(g, stakes[g], h, stakes[h]); }
    }
  }
}
