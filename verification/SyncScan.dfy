/** hp2p/consensus.py: the scan from the newest local window back to the point where the peers agree. */
module SyncScan {
  import opened Options
  import opened Votes

  const BLANK_ROOT_HASH: Hash := 0

  /** A window's timestamp and our root hash for it. */
  type Window = (int, Hash)

  datatype SyncOutcome =
    | FullySynced
    | NoEligiblePeers
    | Sync(time: int, local: Hash, consensus: Hash, peers: seq<Peer>, fast: bool)

  /** A fixed snapshot: the consensus root hash of a window, None where statistics are missing, and what each
      peer reports for it. */
  datatype Snapshot = Snapshot(consensus: int -> Option<Hash>, reports: (Peer, int) -> Option<Hash>, peers: seq<Peer>)

  predicate Agrees(s: Snapshot, w: Window) { s.consensus(w.0) == Some(w.1) }

  predicate Disagrees(s: Snapshot, w: Window) { s.consensus(w.0).Some? && s.consensus(w.0).value != w.1 }

  /** The sorted dictionary of the local windows: newest first. */
  ghost predicate NewestFirst(windows: seq<Window>) {
    forall i, j :: 0 <= i < j < |windows| ==> windows[i].0 > windows[j].0
  }

  /** The newest n windows disagree, and the next older one, if there is one, does not. */
  ghost predicate NewestRun(s: Snapshot, windows: seq<Window>, n: nat) {
    && n <= |windows|
    && (forall i :: 0 <= i < n ==> Disagrees(s, windows[i]))
    && (n < |windows| ==> !Disagrees(s, windows[n]))
  }

  ghost predicate PeersWith(s: Snapshot, time: int, hash: Hash, peers: seq<Peer>) {
    forall p :: p in peers <==> p in s.peers && s.reports(p, time) == Some(hash)
  }

  ghost predicate SyncWith(s: Snapshot, time: int, local: Hash, hash: Hash, fast: bool, r: SyncOutcome) {
    if exists p :: p in s.peers && s.reports(p, time) == Some(hash)
    then r.Sync? && r == Sync(time, local, hash, r.peers, fast) && PeersWith(s, time, hash, r.peers)
    else r == NoEligiblePeers
  }

  method FindPeers(s: Snapshot, time: int, hash: Hash) returns (peers: seq<Peer>)
    ensures PeersWith(s, time, hash, peers)
  {
    peers := [];
    for i := 0 to |s.peers|
      invariant forall p :: p in peers <==> p in s.peers[..i] && s.reports(p, time) == Some(hash)
    {
      if s.reports(s.peers[i], time) == Some(hash) { peers := peers + [s.peers[i]]; }
    }
    assert s.peers[..|s.peers|] == s.peers;
  }

  method SyncOrFail(s: Snapshot, time: int, local: Hash, hash: Hash, fast: bool) returns (r: SyncOutcome)
    ensures SyncWith(s, time, local, hash, fast, r)
  {
    var peers := FindPeers(s, time, hash);
    if peers == [] { return NoEligiblePeers; }
    assert peers[0] in peers;
    return Sync(time, local, hash, peers, fast);
  }

  /** Our root hash for a time. */
  function LocalHash(windows: seq<Window>, time: int): (r: Hash)
    ensures (time, r) in windows || (r == BLANK_ROOT_HASH && forall h :: (time, h) !in windows)
  {
    if windows == [] then BLANK_ROOT_HASH
    else if windows[0].0 == time then windows[0].1
    else LocalHash(windows[1..], time)
  }

  /** A disagreement without an agreeing window that is recent enough needs a fast sync. */
  predicate NeedsFastSync(local: Option<seq<Window>>, n: nat, earliest: int) {
    local.None? || (n > 0 && (n >= |local.value| || local.value[n].0 <= earliest))
  }

  ghost predicate FastSyncOutcome(s: Snapshot, local: Option<seq<Window>>, fastTime: int, r: SyncOutcome) {
    var hash := if local.None? then BLANK_ROOT_HASH else LocalHash(local.value, fastTime);
    if s.consensus(fastTime).None? then r == FullySynced
    else SyncWith(s, fastTime, hash, s.consensus(fastTime).value, true, r)
  }

  /** What the scan decides when the newest run of disagreement has n windows. */
  ghost predicate Decides(s: Snapshot, local: Option<seq<Window>>, n: nat, earliest: int, fastTime: int, r: SyncOutcome) {
    if NeedsFastSync(local, n, earliest) then FastSyncOutcome(s, local, fastTime, r)
    else if local.Some? && 0 < n < |local.value| && s.consensus(local.value[n - 1].0).Some? && Agrees(s, local.value[n]) then
      var w := local.value[n - 1];
      SyncWith(s, w.0, w.1, s.consensus(w.0).value, false, r)
    else r == FullySynced
  }

  method FastSync(s: Snapshot, local: Option<seq<Window>>, fastTime: int) returns (r: SyncOutcome)
    ensures FastSyncOutcome(s, local, fastTime, r)
  {
    var hash := if local.None? then BLANK_ROOT_HASH else LocalHash(local.value, fastTime);
    var consensus := s.consensus(fastTime);
    if consensus.None? { return FullySynced; }
    r := SyncOrFail(s, fastTime, hash, consensus.value, true);
  }

  /** get_blockchain_sync_parameters on a fixed snapshot. */
  method SyncParameters(s: Snapshot, local: Option<seq<Window>>, earliest: int, fastTime: int)
      returns (r: SyncOutcome, ghost n: nat)
    ensures local.Some? ==> NewestRun(s, local.value, n)
    ensures Decides(s, local, n, earliest, fastTime, r)
  {
    n := 0;
    if local.Some? {
      var windows := local.value;
      var disagreementFound, checked := false, 0;
      var i := 0;
      while i < |windows|
        invariant i <= |windows| && i == n
        invariant forall j :: 0 <= j < i ==> Disagrees(s, windows[j])
        invariant disagreementFound <==> i > 0
        invariant checked == i
      {
        var consensus := s.consensus(windows[i].0);
        if consensus.None? {
          if disagreementFound && windows[i].0 <= earliest { break; }
          return FullySynced, n;
        }
        if consensus.value == windows[i].1 {
          if !disagreementFound || windows[i].0 <= earliest { break; }
          var w := windows[i - 1];
          r := SyncOrFail(s, w.0, w.1, s.consensus(w.0).value, false);
          return r, n;
        }
        disagreementFound := true;
        checked := checked + 1;
        n := n + 1;
        if checked >= 10 && !disagreementFound { break; }
        i := i + 1;
      }
      if !disagreementFound { return FullySynced, n; }
    }
    r := FastSync(s, local, fastTime);
  }

  /** Parameters that are not for a fast sync name the oldest window of the newest run of disagreement: it and all newer
      windows disagree, the next older one agrees, and the peers are those that report the consensus hash there, at least one. */
  lemma SyncNamesRun(s: Snapshot, local: Option<seq<Window>>, n: nat, earliest: int, fastTime: int, r: SyncOutcome)
    requires local.Some? ==> NewestRun(s, local.value, n) && NewestFirst(local.value)
    requires Decides(s, local, n, earliest, fastTime, r) && r.Sync? && !r.fast
    ensures local.Some? && 0 < n < |local.value| && (r.time, r.local) == local.value[n - 1]
    ensures s.consensus(r.time) == Some(r.consensus)
    ensures forall w :: w in local.value && w.0 >= r.time ==> Disagrees(s, w)
    ensures Agrees(s, local.value[n]) && earliest < local.value[n].0 < r.time
    ensures forall w :: w in local.value && w.0 < r.time ==> w.0 <= local.value[n].0
    ensures r.peers != [] && PeersWith(s, r.time, r.consensus, r.peers)
  {
    var w := local.value[n - 1];
    assert SyncWith(s, w.0, w.1, s.consensus(w.0).value, false, r);
    var p :| p in s.peers && s.reports(p, w.0) == Some(s.consensus(w.0).value);
    assert p in r.peers;
  }

  /** The node counts as synced only without local windows to doubt, when the newest one agrees, or when
      statistics are missing: for the newest window, for the one below the run, or for the fast sync. */
  lemma SyncedOnlyIf(s: Snapshot, local: Option<seq<Window>>, n: nat, earliest: int, fastTime: int, r: SyncOutcome)
    requires local.Some? ==> NewestRun(s, local.value, n)
    requires Decides(s, local, n, earliest, fastTime, r) && r == FullySynced
    ensures || (local.Some? && local.value == [])
            || (local.Some? && Agrees(s, local.value[0]))
            || (local.Some? && n < |local.value| && s.consensus(local.value[n].0).None?)
            || s.consensus(fastTime).None?
  {
    if local.Some? && n > 0 { assert Disagrees(s, local.value[n - 1]); }
  }

  /** Which of the decisions is taken, and with what: an agreeing window newer than earliest below the run gives its oldest
      window without a fast sync, no such window gives a fast sync, and no run, or a newer window without statistics
      below it, none. */
  lemma DecisionOf(s: Snapshot, local: Option<seq<Window>>, n: nat, earliest: int, fastTime: int, r: SyncOutcome, p: Peer, hash: Hash)
    requires local.Some? ==> NewestRun(s, local.value, n)
    requires Decides(s, local, n, earliest, fastTime, r) && p in s.peers
    ensures local.Some? && n == 0 ==> r == FullySynced
    ensures local.Some? && 0 < n < |local.value| && local.value[n].0 > earliest ==>
              var w, below := local.value[n - 1], local.value[n];
              && (s.consensus(below.0).None? ==> r == FullySynced)
              && (s.consensus(below.0) == Some(below.1) && s.consensus(w.0) == Some(hash) && s.reports(p, w.0) == Some(hash) ==>
                    r.Sync? && p in r.peers && r == Sync(w.0, w.1, hash, r.peers, false))
    ensures local.None? || (n > 0 && (n == |local.value| || local.value[n].0 <= earliest)) ==>
              && (s.consensus(fastTime).None? ==> r == FullySynced)
              && (s.consensus(fastTime) == Some(hash) && s.reports(p, fastTime) == Some(hash) ==>
                    r.Sync? && p in r.peers && r == Sync(fastTime, r.local, hash, r.peers, true))
  {
  }

  /** The run is determined by the snapshot. */
  lemma RunUnique(s: Snapshot, windows: seq<Window>, n: nat, n': nat)
    requires NewestRun(s, windows, n) && NewestRun(s, windows, n')
    ensures n == n'
  {
  }
}
