/** helios/utils/datastructures.py: TaskQueue, a bounded priority queue whose tasks are checked out
    in batches. Each coroutine runs as atomic steps between its awaits. */
module TaskQueues {
  import opened JobPlaces
  import opened Options
  import opened Sequences
  import opened Sorting

  function ByPriority(): (Job, Job) -> bool {
    (a: Job, b: Job) => a.priority <= b.priority
  }

  /** What is left to insert for the suspended add() calls: never a task that is already queued,
      and no task twice. */
  ghost predicate Waiting(suspended: map<nat, seq<Job>>, tasks: set<Job>) {
    && (forall a :: WaitingAt(suspended, tasks, a))
    && (forall a, b, j :: NoSharing(suspended, a, b, j))
  }

  ghost predicate WaitingAt(suspended: map<nat, seq<Job>>, tasks: set<Job>, a: nat) {
    a in suspended ==> suspended[a] != [] && NoRepeat(suspended[a]) && JobSet(suspended[a]) !! tasks
  }

  ghost predicate NoSharing(suspended: map<nat, seq<Job>>, a: nat, b: nat, j: Job) {
    a in suspended && b in suspended && j in suspended[a] && j in suspended[b] ==> a == b
  }

  /** The tasks rest of a running add() are new, and no waiting add() has one of them. */
  ghost predicate Fresh(rest: seq<Job>, tasks: set<Job>, suspended: map<nat, seq<Job>>) {
    NoRepeat(rest) && JobSet(rest) !! tasks && forall a :: FreshFor(rest, suspended, a)
  }

  ghost predicate FreshFor(rest: seq<Job>, suspended: map<nat, seq<Job>>, a: nat) {
    a in suspended ==> JobSet(rest) !! JobSet(suspended[a])
  }

  lemma JobSetSplit(js: seq<Job>, n: nat)
    requires n <= |js|
    ensures JobSet(js[..n]) + JobSet(js[n..]) == JobSet(js)
  {
    assert js == js[..n] + js[n..];
  }

  /** Inserting the first n tasks leaves the others fresh, and every waiting add() waiting. */
  lemma SplitFresh(rest: seq<Job>, n: nat, tasks: set<Job>, suspended: map<nat, seq<Job>>)
    requires n <= |rest| && Fresh(rest, tasks, suspended) && Waiting(suspended, tasks)
    ensures NoRepeat(rest[..n]) && JobSet(rest[..n]) !! tasks
    ensures Fresh(rest[n..], tasks + JobSet(rest[..n]), suspended)
    ensures Waiting(suspended, tasks + JobSet(rest[..n]))
    ensures JobSet(rest[..n]) == JobSet(rest) - JobSet(rest[n..])
  {
    JobSetSplit(rest, n);
    NoRepeatDistinct(rest);
    NoRepeatDistinct(rest[..n]);
    NoRepeatDistinct(rest[n..]);
    assert JobSet(rest[n..]) !! JobSet(rest[..n]) by {
      assert forall i, j :: 0 <= i < n <= j < |rest| ==> rest[i] != rest[j];
    }
    forall a ensures FreshFor(rest[n..], suspended, a) {
      assert FreshFor(rest, suspended, a);
    }
    forall a ensures WaitingAt(suspended, tasks + JobSet(rest[..n]), a) {
      assert WaitingAt(suspended, tasks, a) && FreshFor(rest, suspended, a);
    }
  }

  lemma SuspendWaiting(suspended: map<nat, seq<Job>>, adder: nat, rest: seq<Job>, tasks: set<Job>)
    requires Waiting(suspended, tasks) && adder !in suspended && rest != [] && Fresh(rest, tasks, suspended)
    ensures Waiting(suspended[adder := rest], tasks)
  {
    var s' := suspended[adder := rest];
    forall a ensures WaitingAt(s', tasks, a) {
      assert WaitingAt(suspended, tasks, a);
    }
    forall a, b, j ensures NoSharing(s', a, b, j) {
      assert NoSharing(suspended, a, b, j);
      assert FreshFor(rest, suspended, a) && FreshFor(rest, suspended, b);
      assert j in rest ==> j in JobSet(rest);
      assert a in suspended && j in suspended[a] ==> j in JobSet(suspended[a]);
      assert b in suspended && j in suspended[b] ==> j in JobSet(suspended[b]);
    }
  }

  lemma SortFresh(js: seq<Job>, tasks: set<Job>, suspended: map<nat, seq<Job>>)
    requires NoRepeat(js) && JobSet(js) !! tasks && forall a :: FreshFor(js, suspended, a)
    ensures Fresh(Sort(js, ByPriority()), tasks, suspended)
    ensures JobSet(Sort(js, ByPriority())) == JobSet(js)
  {
    var s := Sort(js, ByPriority());
    forall j ensures j in s <==> j in js { InSort(js, ByPriority(), j); }
    assert JobSet(s) == JobSet(js);
    forall a ensures FreshFor(s, suspended, a) {
      assert FreshFor(js, suspended, a);
    }
  }

  /** A later round inserts what the earlier one left, as far as it gets. */
  lemma SuffixInserted(rest: seq<Job>, rest0: seq<Job>, remaining: seq<Job>, tasks: set<Job>, tasks0: set<Job>)
    requires SuffixOf(rest, rest0) && SuffixOf(rest0, remaining)
    requires tasks0 == tasks + (JobSet(remaining) - JobSet(rest0))
    ensures tasks0 + (JobSet(rest0) - JobSet(rest)) == tasks + (JobSet(remaining) - JobSet(rest))
  {
    SuffixMeans(rest, rest0);
    SuffixMeans(rest0, remaining);
    assert JobSet(rest) <= JobSet(rest0) <= JobSet(remaining);
  }

  lemma LaterLessUrgent(s: seq<Job>, n: nat, x: Job, y: Job)
    requires n <= |s| && SortedBy(s, ByPriority()) && x in s[..n] && y in s[n..]
    ensures x.priority <= y.priority
  {
    var i :| 0 <= i < n && s[..n][i] == x;
    var j :| 0 <= j < |s| - n && s[n..][j] == y;
    assert ByPriority()(s[i], s[n + j]);
  }

  /** What add() has inserted of the sorted tasks is at least as urgent as what is left. */
  lemma SuffixLessUrgent(js: seq<Job>, rest: seq<Job>, x: Job, y: Job)
    requires SuffixOf(rest, Sort(js, ByPriority())) && x in js && x !in rest && y in rest
    ensures x.priority <= y.priority
  {
    var s := Sort(js, ByPriority());
    SuffixMeans(rest, s);
    InSort(js, ByPriority(), x);
    SortSorts(js, ByPriority());
    var n := |s| - |rest|;
    assert s == s[..n] + s[n..];
    LaterLessUrgent(s, n, x, y);
  }

  lemma WakeFresh(suspended: map<nat, seq<Job>>, adder: nat, tasks: set<Job>)
    requires Waiting(suspended, tasks) && adder in suspended
    ensures Fresh(suspended[adder], tasks, suspended - {adder}) && Waiting(suspended - {adder}, tasks)
  {
    var s' := suspended - {adder};
    assert WaitingAt(suspended, tasks, adder);
    forall a ensures FreshFor(suspended[adder], s', a) && WaitingAt(s', tasks, a) {
      assert WaitingAt(suspended, tasks, a);
      if a in s' {
        forall j | j in JobSet(suspended[adder]) ensures j !in JobSet(s'[a]) {
          assert NoSharing(suspended, adder, a, j);
        }
      }
    }
    forall a, b, j ensures NoSharing(s', a, b, j) {
      assert NoSharing(suspended, a, b, j);
    }
  }

  lemma {:induction false} MostUrgent(js: set<Job>)
    requires js != {}
    ensures exists j :: j in js && forall k :: k in js ==> j.priority <= k.priority
  {
    var x :| x in js;
    if js != {x} {
      MostUrgent(js - {x});
      var y :| y in js - {x} && forall k :: k in js - {x} ==> y.priority <= k.priority;
      var m := if x.priority <= y.priority then x else y;
      assert m in js && forall k :: k in js ==> m.priority <= k.priority by {
        assert forall k :: k in js ==> k == x || k in js - {x};
      }
    }
  }

  /** How many of the available tasks a batch gets: a limit is never exceeded, and reached if there are enough. */
  function BatchSize(available: nat, maxResults: Option<int>): (n: nat)
    ensures n <= available && (maxResults.None? ==> n == available)
    ensures maxResults.Some? && maxResults.value >= 0 ==> n <= maxResults.value && (n == maxResults.value || n == available)
    ensures maxResults.Some? && maxResults.value < 0 ==> n == 0
  {
    if maxResults.None? || maxResults.value >= available then available
    else if maxResults.value >= 0 then maxResults.value
    else 0
  }

  /** batch was taken from open0, leaving open: its tasks are in order of priority, and none left is more urgent. */
  ghost predicate Taken(open0: set<Job>, open: set<Job>, batch: seq<Job>) {
    && NoRepeat(batch) && JobSet(batch) <= open0 && open == open0 - JobSet(batch)
    && SortedBy(batch, ByPriority())
    && (forall x, y :: x in batch && y in open ==> x.priority <= y.priority)
  }

  lemma TakenSnoc(open0: set<Job>, open: set<Job>, batch: seq<Job>, j: Job)
    requires Taken(open0, open, batch) && j in open && forall k :: k in open ==> j.priority <= k.priority
    ensures Taken(open0, open - {j}, batch + [j])
  {
    var b := batch + [j];
    assert JobSet(b) == JobSet(batch) + {j};
    forall i, k | 0 <= i < k < |b| ensures ByPriority()(b[i], b[k]) {
      assert i < |batch| ==> b[i] in batch;
      if k < |batch| { assert ByPriority()(batch[i], batch[k]); }
    }
  }

  lemma TakenCons(open0: set<Job>, open1: set<Job>, open2: set<Job>, j: Job, batch: seq<Job>)
    requires j in open0 && open1 == open0 - {j} && (forall k :: k in open1 ==> j.priority <= k.priority)
    requires Taken(open1, open2, batch)
    ensures Taken(open0, open2, [j] + batch)
  {
    var b := [j] + batch;
    assert JobSet(b) == JobSet(batch) + {j};
    assert j !in JobSet(batch);
    forall i, k | 0 <= i < k < |b| ensures ByPriority()(b[i], b[k]) {
      assert batch[k - 1] in JobSet(batch);
      if i > 0 { assert ByPriority()(batch[i - 1], batch[k - 1]); }
    }
  }

  lemma FewerTasks(suspended: map<nat, seq<Job>>, tasks: set<Job>, done: set<Job>)
    requires Waiting(suspended, tasks)
    ensures Waiting(suspended, tasks - done)
  {
    forall a ensures WaitingAt(suspended, tasks - done, a) {
      assert WaitingAt(suspended, tasks, a);
    }
  }

  /** An add() that is accepted is over when nothing is left to insert, and waits for room otherwise. */
  datatype AddResult = Rejected | Accepted(rest: seq<Job>)

  class TaskQueue {
    const maxsize: int
    var open: set<Job>
    var inProgress: map<nat, seq<Job>>
    var tasks: set<Job>
    var nextId: nat
    /** The lock that add() waits on, and whether its first waiter has been woken. */
    var locked: bool
    var woken: bool
    /** The tasks still to be inserted by each add() that waits for room. */
    var suspended: map<nat, seq<Job>>
    ghost var place: map<Job, Place>

    predicate HasRoom()
      reads this
    {
      maxsize <= 0 || |tasks| < maxsize
    }

    ghost predicate Sound()
      reads this
    {
      && Placed(open, inProgress, tasks, place)
      && (forall b :: b in inProgress ==> b < nextId)
      && (maxsize > 0 ==> |tasks| <= maxsize)
      && Waiting(suspended, tasks)
    }

    /** The lock is held only while the queue is full, and when it is free a waiting add() has been woken:
        nobody sleeps while there is room. */
    ghost predicate Valid()
      reads this
    {
      && Sound()
      && (locked ==> !HasRoom())
      && (suspended.Keys != {} ==> maxsize > 0)
      && (suspended.Keys != {} && !locked ==> woken)
    }

    constructor (maxsize: int)
      ensures Valid() && this.maxsize == maxsize && tasks == {} && suspended == map[]
    {
      this.maxsize := maxsize;
      open, inProgress, tasks, nextId, locked, woken, suspended, place := {}, map[], {}, 0, false, false, map[], map[];
    }

    /** asyncio's put_nowait; false is QueueFull. */
    method PutNowait(job: Job) returns (ok: bool)
      modifies `open
      ensures ok <==> maxsize <= 0 || |old(open)| < maxsize
      ensures open == if ok then old(open) + {job} else old(open)
    {
      if maxsize > 0 && |open| >= maxsize { return false; }
      open := open + {job};
      return true;
    }

    /** Releases the lock if there is room again; the first waiter, if any, is woken. */
    method ReleaseIfRoom()
      modifies `locked, `woken
      ensures locked <==> old(locked) && !(|tasks| < maxsize)
      ensures woken == if old(locked) && !locked then suspended.Keys != {} else old(woken)
    {
      if locked && |tasks| < maxsize {
        locked := false;
        woken := suspended.Keys != {};
      }
    }

    /** Puts tasks into the open queue one by one; it never overflows. */
    method PutAll(js: seq<Job>)
      requires Distinct(js) && JobSet(js) !! open
      requires maxsize > 0 ==> |open| + |js| <= maxsize
      modifies `open
      ensures open == old(open) + JobSet(js)
    {
      for k := 0 to |js|
        invariant open == old(open) + JobSet(js[..k]) && |open| == |old(open)| + k
      {
        assert js[k] in JobSet(js);
        JobSetSnoc(js, k);
        var ok := PutNowait(js[k]);
        assert ok;
      }
      assert js[..|js|] == js;
    }

    /** Inserts a run of new tasks. */
    method Enqueue(js: seq<Job>)
      requires Placed(open, inProgress, tasks, place)
      requires NoRepeat(js) && JobSet(js) !! tasks
      requires maxsize > 0 ==> |tasks| + |js| <= maxsize
      modifies `open, `tasks, `place
      ensures Placed(open, inProgress, tasks, place)
      ensures tasks == old(tasks) + JobSet(js) && |tasks| == |old(tasks)| + |js|
    {
      OpenAreTasks(open, inProgress, tasks, place);
      SubsetCard(open, tasks);
      AddPlaced(open, inProgress, tasks, place, JobSet(js));
      NoRepeatDistinct(js);
      PutAll(js);
      tasks := tasks + JobSet(js);
      place := PlaceAll(place, JobSet(js), Open);
    }

    /** Puts the tasks of an abandoned batch back; they were counted all along, so there is room. */
    method Reopen(incomplete: set<Job>, ghost left: set<Job>, ghost place': map<Job, Place>)
      requires Placed(open + incomplete, inProgress, left, place') && incomplete !! open
      requires maxsize > 0 ==> |left| <= maxsize
      modifies `open
      ensures open == old(open) + incomplete
    {
      var rest := incomplete;
      OpenAreTasks(open + incomplete, inProgress, left, place');
      while rest != {}
        invariant rest <= incomplete && open == old(open) + (incomplete - rest)
        decreases rest
      {
        var j :| j in rest;
        assert j !in open && open + {j} <= left;
        SubsetCard(open + {j}, left);
        var ok := PutNowait(j);
        assert ok;
        rest := rest - {j};
      }
    }

    /** One round of the loop in add(): inserts the next tasks into the free slots. */
    method InsertSlots(rest: seq<Job>, slots: nat) returns (rest': seq<Job>, ghost n: nat)
      requires Sound() && Fresh(rest, tasks, suspended)
      requires maxsize > 0 ==> slots <= maxsize - |tasks|
      modifies `open, `tasks, `place, `locked, `woken
      ensures Sound() && Fresh(rest', tasks, suspended)
      ensures n == (if slots <= |rest| then slots else |rest|) && rest' == rest[n..]
      ensures tasks == old(tasks) + (JobSet(rest) - JobSet(rest'))
      ensures |tasks| + |rest'| == |old(tasks)| + |rest|
      ensures locked <==> old(locked) && !(|tasks| < maxsize)
      ensures woken == if old(locked) && !locked then suspended.Keys != {} else old(woken)
    {
      var count := if slots <= |rest| then slots else |rest|;
      n := count;
      SplitFresh(rest, n, tasks, suspended);
      Enqueue(rest[..count]);
      ReleaseIfRoom();
      rest' := rest[count..];
    }

    /** How many tasks add() may insert now; None if it has to wait for the lock. */
    method FreeSlots(wanted: nat) returns (slots: Option<nat>)
      requires maxsize > 0 ==> |tasks| <= maxsize
      modifies `locked
      ensures slots.Some? && maxsize > 0 ==> slots.value == maxsize - |tasks|
      ensures slots.Some? && maxsize <= 0 ==> slots.value == wanted
      ensures slots.None? ==> !HasRoom() && locked == old(locked) && (locked || suspended.Keys != {})
      ensures locked ==> old(locked) || !HasRoom()
      ensures slots.Some? && slots.value == 0 && wanted > 0 ==> locked && !old(locked)
    {
      if maxsize <= 0 { return Some(wanted); }
      if |tasks| < maxsize { return Some(maxsize - |tasks|); }
      if !locked && suspended.Keys == {} {
        locked := true;
        return Some(maxsize - |tasks|);
      }
      return None;
    }

    method Suspend(adder: nat, rest: seq<Job>)
      requires Valid() && Fresh(rest, tasks, suspended) && rest != [] && adder !in suspended
      requires !HasRoom() && (locked || suspended.Keys != {})
      modifies `suspended
      ensures Valid() && suspended == old(suspended)[adder := rest]
    {
      SuspendWaiting(suspended, adder, rest, tasks);
      suspended := suspended[adder := rest];
    }

    /** One turn of the loop in add(); it ends the call when the task must wait for room. */
    method AddRound(adder: nat, rest: seq<Job>) returns (rest': seq<Job>, wait: bool, ghost n: nat)
      requires Valid() && Fresh(rest, tasks, suspended) && adder !in suspended && rest != []
      modifies `open, `tasks, `place, `locked, `woken, `suspended
      ensures Valid()
      ensures wait ==> !HasRoom() && rest' == rest && suspended == old(suspended)[adder := rest] && tasks == old(tasks)
      ensures !wait ==>
                && n <= |rest| && rest' == rest[n..] && Fresh(rest', tasks, suspended)
                && suspended == old(suspended) && tasks == old(tasks) + (JobSet(rest) - JobSet(rest'))
                && (n == 0 ==> locked && !old(locked))
    {
      var slots := FreeSlots(|rest|);
      if slots.None? {
        Suspend(adder, rest);
        return rest, true, 0;
      }
      rest', n := InsertSlots(rest, slots.value);
      wait := false;
    }

    /** The body of add() from its loop on, until all tasks are inserted or it must wait for room. */
    method RunAdd(adder: nat, remaining: seq<Job>) returns (rest: seq<Job>)
      requires Valid() && Fresh(remaining, tasks, suspended) && adder !in suspended
      modifies `open, `tasks, `place, `locked, `woken, `suspended
      ensures Valid()
      ensures SuffixOf(rest, remaining)
      ensures tasks == old(tasks) + (JobSet(remaining) - JobSet(rest))
      ensures rest == [] ==> suspended == old(suspended)
      ensures rest != [] ==> !HasRoom() && suspended == old(suspended)[adder := rest]
    {
      rest := remaining;
      while rest != []
        invariant Valid() && Fresh(rest, tasks, suspended) && suspended == old(suspended)
        invariant SuffixOf(rest, remaining)
        invariant tasks == old(tasks) + (JobSet(remaining) - JobSet(rest))
        decreases |rest|, if locked then 0 else 1
      {
        var wait; ghost var n;
        ghost var rest0, tasks0 := rest, tasks;
        rest, wait, n := AddRound(adder, rest);
        if wait { return; }
        SuffixDrop(rest0, remaining, n);
        SuffixDrop(rest0, rest0, n);
        SuffixInserted(rest, rest0, remaining, old(tasks), tasks0);
      }
    }

    /** add(): rejects tasks that are already queued, and otherwise inserts them, the most urgent first,
        until there is no more room. The caller does not repeat a task, nor one that another add() is
        still inserting. */
    method Add(adder: nat, js: seq<Job>) returns (r: AddResult)
      requires Valid() && adder !in suspended && NoRepeat(js)
      requires forall a :: FreshFor(js, suspended, a)
      modifies `open, `tasks, `place, `locked, `woken, `suspended
      ensures Valid()
      ensures r == Rejected <==> exists j :: j in js && j in old(tasks)
      ensures r == Rejected ==> tasks == old(tasks) && open == old(open) && suspended == old(suspended)
      ensures r.Accepted? ==>
                && SuffixOf(r.rest, Sort(js, ByPriority()))
                && tasks == old(tasks) + (JobSet(js) - JobSet(r.rest))
                && (r.rest == [] ==> suspended == old(suspended))
                && (r.rest != [] ==> 0 < maxsize <= |tasks| && suspended == old(suspended)[adder := r.rest])
                && (forall x, y :: x in js && x !in r.rest && y in r.rest ==> x.priority <= y.priority)
    {
      if exists j :: j in js && j in tasks { return Rejected; }
      var remaining := Sort(js, ByPriority());
      SortFresh(js, tasks, suspended);
      var rest := RunAdd(adder, remaining);
      forall x, y | x in js && x !in rest && y in rest ensures x.priority <= y.priority {
        SuffixLessUrgent(js, rest, x, y);
      }
      r := Accepted(rest);
    }

    /** A waiting add() that was woken takes the lock and inserts into the slots that are free now. */
    method TakeLock(adder: nat) returns (rest: seq<Job>, ghost n: nat)
      requires Valid() && adder in suspended && woken && !locked
      modifies `open, `tasks, `place, `locked, `woken, `suspended
      ensures Valid() && suspended == old(suspended) - {adder} && Fresh(rest, tasks, suspended)
      ensures n <= |old(suspended)[adder]| && rest == old(suspended)[adder][n..]
      ensures tasks == old(tasks) + (JobSet(old(suspended)[adder]) - JobSet(rest))
    {
      WakeFresh(suspended, adder, tasks);
      var remaining := suspended[adder];
      suspended := suspended - {adder};
      locked, woken := true, false;
      rest, n := InsertSlots(remaining, maxsize - |tasks|);
    }

    /** It then goes on with its loop, until all its tasks are inserted or it must wait again. */
    method Resume(adder: nat) returns (rest: seq<Job>)
      requires Valid() && adder in suspended && woken && !locked
      modifies `open, `tasks, `place, `locked, `woken, `suspended
      ensures Valid()
      ensures SuffixOf(rest, old(suspended)[adder])
      ensures tasks == old(tasks) + (JobSet(old(suspended)[adder]) - JobSet(rest))
      ensures rest == [] ==> suspended == old(suspended) - {adder}
      ensures rest != [] ==> 0 < maxsize <= |tasks| && suspended == (old(suspended) - {adder})[adder := rest]
    {
      ghost var remaining := suspended[adder];
      ghost var n;
      rest, n := TakeLock(adder);
      ghost var rest0, tasks0 := rest, tasks;
      SuffixDrop(remaining, remaining, n);
      rest := RunAdd(adder, rest);
      SuffixTransitive(rest, rest0, remaining);
      SuffixInserted(rest, rest0, remaining, old(tasks), tasks0);
    }

    /** asyncio's get_nowait on a priority queue: takes out one of the most urgent tasks. */
    method PopMostUrgent() returns (j: Job)
      requires open != {}
      modifies `open
      ensures j in old(open) && open == old(open) - {j}
      ensures forall k :: k in open ==> j.priority <= k.priority
    {
      MostUrgent(open);
      j :| j in open && forall k :: k in open ==> j.priority <= k.priority;
      open := open - {j};
    }

    /** queue_get_nowait: takes out up to maxResults tasks, all of them if no limit is given. */
    method QueueGetNowait(maxResults: Option<int>) returns (batch: seq<Job>)
      modifies `open
      ensures Taken(old(open), open, batch)
      ensures |batch| == BatchSize(|old(open)|, maxResults)
    {
      batch := [];
      var n := BatchSize(|open|, maxResults);
      for k := 0 to n
        invariant Taken(old(open), open, batch) && |batch| == k && |open| == |old(open)| - k
      {
        ghost var before := open;
        var j := PopMostUrgent();
        TakenSnoc(old(open), before, batch, j);
        batch := batch + [j];
      }
    }

    method CheckOut(batch: seq<Job>, ghost open0: set<Job>) returns (id: nat)
      requires Placed(open0, inProgress, tasks, place) && Taken(open0, open, batch)
      requires forall b :: b in inProgress ==> b < nextId
      modifies `inProgress, `nextId, `place
      ensures Placed(open, inProgress, tasks, place)
      ensures forall b :: b in inProgress ==> b < nextId
      ensures id == old(nextId) && inProgress == old(inProgress)[id := batch]
    {
      id := nextId;
      NoRepeatDistinct(batch);
      CheckOutPlaced(open0, inProgress, tasks, place, id, batch);
      nextId := nextId + 1;
      inProgress := inProgress[id := batch];
      place := PlaceAll(place, JobSet(batch), Batch(id));
    }

    /** get_nowait(): a batch of the most urgent tasks; None is the source's error on an empty queue. */
    method GetNowait(maxResults: Option<int>) returns (r: Option<(nat, seq<Job>)>)
      requires Valid()
      modifies `open, `inProgress, `nextId, `place
      ensures Valid()
      ensures r.None? <==> old(open) == {}
      ensures r.None? ==> open == old(open) && inProgress == old(inProgress)
      ensures r.Some? ==>
                && r.value.0 !in old(inProgress) && inProgress == old(inProgress)[r.value.0 := r.value.1]
                && Taken(old(open), open, r.value.1) && |r.value.1| == BatchSize(|old(open)|, maxResults)
    {
      if open == {} { return None; }
      ghost var open0 := open;
      var batch := QueueGetNowait(maxResults);
      var id := CheckOut(batch, open0);
      return Some((id, batch));
    }

    /** get(): the same, resumed once the queue is not empty; None is the source's error on a limit below one,
        for which it does not wait. */
    method Get(maxResults: Option<int>) returns (r: Option<(nat, seq<Job>)>)
      requires Valid() && (open != {} || (maxResults.Some? && maxResults.value < 1))
      modifies `open, `inProgress, `nextId, `place
      ensures Valid()
      ensures r.None? <==> maxResults.Some? && maxResults.value < 1
      ensures r.None? ==> open == old(open) && inProgress == old(inProgress)
      ensures r.Some? ==>
                && r.value.0 !in old(inProgress) && inProgress == old(inProgress)[r.value.0 := r.value.1]
                && Taken(old(open), open, r.value.1) && |r.value.1| == BatchSize(|old(open)|, maxResults)
    {
      if maxResults.Some? && maxResults.value < 1 { return None; }
      ghost var open0 := open;
      var first := PopMostUrgent();
      ghost var open1 := open;
      var rest := QueueGetNowait(if maxResults.None? then None else Some(maxResults.value - 1));
      TakenCons(open0, open1, open, first, rest);
      var id := CheckOut([first] + rest, open0);
      return Some((id, [first] + rest));
    }

    /** Ends a batch: what of it is not done goes back, and left is what stays pending. */
    method EndBatch(batchId: nat, incomplete: set<Job>, left: set<Job>, ghost place': map<Job, Place>)
      requires Sound() && batchId in inProgress && incomplete !! open
      requires Placed(open + incomplete, inProgress - {batchId}, left, place')
      requires Waiting(suspended, left) && |left| <= |tasks|
      modifies `open, `inProgress, `tasks, `place
      ensures Sound()
      ensures inProgress == old(inProgress) - {batchId} && open == old(open) + incomplete && tasks == left
    {
      inProgress := inProgress - {batchId};
      Reopen(incomplete, left, place');
      tasks, place := left, place';
    }

    /** complete(): ends a batch; tasks of it that are not completed return to the open queue. False is the
        source's error on an unknown batch or a task outside it, and changes nothing. */
    method Complete(batchId: nat, completed: seq<Job>) returns (ok: bool)
      requires Valid()
      modifies `open, `inProgress, `tasks, `place, `locked, `woken
      ensures Valid()
      ensures ok <==> batchId in old(inProgress) && JobSet(completed) <= JobSet(old(inProgress)[batchId])
      ensures !ok ==> open == old(open) && inProgress == old(inProgress) && tasks == old(tasks) && locked == old(locked)
      ensures ok ==>
                && inProgress == old(inProgress) - {batchId}
                && open == old(open) + (JobSet(old(inProgress)[batchId]) - JobSet(completed))
                && tasks == old(tasks) - JobSet(completed)
                && (locked <==> old(locked) && !(|tasks| < maxsize))
    {
      if batchId !in inProgress { return false; }
      var attempted, done := JobSet(inProgress[batchId]), JobSet(completed);
      if !(done <= attempted) { return false; }
      CompletePlaced(open, inProgress, tasks, place, batchId, done, attempted - done);
      FewerTasks(suspended, tasks, done);
      SubsetCard(tasks - done, tasks);
      EndBatch(batchId, attempted - done, tasks - done, PlaceAll(place, attempted - done, Open) - done);
      ReleaseIfRoom();
      return true;
    }
  }
}
