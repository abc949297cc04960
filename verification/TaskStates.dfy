/** The state of helios/utils/datastructures.py OrderedTaskPreparation, and a record of its whole run. */
module TaskStates {
  import opened Sequences

  /** A task with what the source's extractors read from it. */
  datatype Task = Task(id: nat, dependency: nat, payload: nat)

  datatype Tracker = Tracker(task: Task, completed: set<nat>)

  /** The run so far: every task ever registered or declared finished with its completed prerequisites,
      pruned or not; which of them were declared finished; and when each was entered. */
  datatype Record = Record(prereqs: set<nat>, history: map<nat, Tracker>, finished: set<nat>, rank: map<nat, nat>) {
    ghost predicate Registered(i: nat) { i in history && i !in finished }

    ghost predicate Complete(i: nat) { i in history && prereqs <= history[i].completed }

    ghost function DependencyOf(i: nat): nat { if i in history then history[i].task.dependency else 0 }

    ghost function RankOf(i: nat): nat { if i in rank then rank[i] else 0 }
  }

  /** What pruning has left. */
  datatype Live = Live(tasks: map<nat, Tracker>, dependencies: map<nat, set<nat>>, depths: map<nat, nat>, oldestDepth: nat) {
    function Dependents(d: nat): set<nat> {
      if d in dependencies then dependencies[d] else {}
    }

    ghost predicate SameKeys() { dependencies.Keys <= tasks.Keys == depths.Keys }
  }

  /** Tasks that became ready: all of them in order, how many were handed out, and the queue of the rest. */
  datatype Output = Output(emitted: seq<nat>, taken: nat, queue: seq<Task>)

  ghost predicate Recorded(r: Record) {
    r.prereqs != {} && r.finished <= r.history.Keys && forall i :: RecordedAt(r, i)
  }

  ghost predicate RecordedAt(r: Record, i: nat) {
    && (i in r.history ==> r.history[i].task.id == i && r.history[i].completed <= r.prereqs)
    && (i in r.finished ==> r.Complete(i))
    && (r.Registered(i) ==> r.DependencyOf(i) in r.history && r.RankOf(r.DependencyOf(i)) < r.RankOf(i))
  }

  /** The live tasks are part of the record, and each has a depth no smaller than the oldest kept. */
  ghost predicate Stored(r: Record, l: Live) {
    l.SameKeys() && (l.depths.Keys == {} ==> l.oldestDepth == 0) && forall i :: StoredAt(r, l, i)
  }

  ghost predicate StoredAt(r: Record, l: Live, i: nat) {
    && (i in l.tasks ==> i in r.history && r.history[i] == l.tasks[i])
    && (i in l.depths ==> l.depths[i] >= l.oldestDepth)
  }

  /** A dependency lists exactly its dependents, each one deeper, and none of them is pruned before it. */
  ghost predicate Linked(r: Record, l: Live) {
    && l.SameKeys()
    && (forall i :: IsListed(r, l, i))
    && (forall d, i :: IsDependent(r, l, d, i))
  }

  ghost predicate IsListed(r: Record, l: Live, i: nat) {
    r.Registered(i) && r.DependencyOf(i) in l.tasks ==> i in l.Dependents(r.DependencyOf(i))
  }

  ghost predicate IsDependent(r: Record, l: Live, d: nat, i: nat)
    requires l.SameKeys()
  {
    d in l.tasks && i in l.Dependents(d) ==>
      r.Registered(i) && r.DependencyOf(i) == d && i in l.tasks && l.depths[i] == l.depths[d] + 1
  }

  /** A registered task, pruned or not, is unready exactly if a prerequisite is missing, its dependency
      is unready, or it waits in the running cascade. */
  ghost predicate Settled(r: Record, unready: set<nat>, pending: set<nat>) {
    forall i :: SettledAt(r, unready, pending, i)
  }

  ghost predicate SettledAt(r: Record, unready: set<nat>, pending: set<nat>, i: nat) {
    && (i in unready ==> r.Registered(i))
    && (r.Registered(i) ==> (i in unready <==> !r.Complete(i) || r.DependencyOf(i) in unready || i in pending))
    && (i in pending ==> r.Registered(i) && r.Complete(i) && r.DependencyOf(i) !in unready)
  }

  /** Every registered task is either unready or was made ready once, after its dependency. */
  ghost predicate EmittedOnce(r: Record, unready: set<nat>, emitted: seq<nat>) {
    && Distinct(emitted)
    && (forall i :: EmittedIff(r, unready, emitted, i))
    && (forall k: nat :: DependencyFirst(r, emitted, k))
  }

  ghost predicate EmittedIff(r: Record, unready: set<nat>, emitted: seq<nat>, i: nat) {
    i in emitted <==> r.Registered(i) && i !in unready
  }

  ghost predicate DependencyFirst(r: Record, emitted: seq<nat>, k: nat) {
    k < |emitted| ==> r.DependencyOf(emitted[k]) in r.finished || r.DependencyOf(emitted[k]) in emitted[..k]
  }

  /** The queue holds the tasks that were made ready and not handed out yet, in order. */
  ghost predicate Queued(r: Record, o: Output) {
    o.taken + |o.queue| == |o.emitted| && forall k: nat :: QueuedAt(r, o, k)
  }

  ghost predicate QueuedAt(r: Record, o: Output, k: nat)
    requires o.taken + |o.queue| == |o.emitted|
  {
    k < |o.queue| ==> o.emitted[o.taken + k] in r.history && o.queue[k] == r.history[o.emitted[o.taken + k]].task
  }

  ghost predicate Mid(r: Record, l: Live, unready: set<nat>, o: Output, pending: set<nat>) {
    && Recorded(r) && Stored(r, l) && Linked(r, l)
    && Settled(r, unready, pending) && pending <= l.tasks.Keys
    && EmittedOnce(r, unready, o.emitted) && Queued(r, o)
  }

  // ----- making one task ready

  /** Drops every task shallower than d. */
  ghost function KeepFrom(l: Live, d: nat): Live
    requires l.SameKeys()
  {
    Live(map i | i in l.tasks && l.depths[i] >= d :: l.tasks[i],
         map i | i in l.dependencies && l.depths[i] >= d :: l.dependencies[i],
         map i | i in l.depths && l.depths[i] >= d :: l.depths[i],
         d)
  }

  /** The depth from which tasks are kept when a task of depth finished becomes ready. */
  function CutDepth(oldest: nat, finished: nat, maxDepth: nat): nat {
    if finished - maxDepth > oldest then finished - maxDepth else oldest
  }

  ghost function Pruned(l: Live, t: nat, maxDepth: nat): Live
    requires l.SameKeys() && t in l.depths
  {
    KeepFrom(l, CutDepth(l.oldestDepth, l.depths[t], maxDepth))
  }

  /** The dependents of t that only waited for t. */
  ghost function Released(r: Record, l: Live, t: nat): set<nat> {
    set i | i in l.Dependents(t) && r.Complete(i)
  }

  lemma KeepFromFacts(l: Live, d: nat)
    requires l.SameKeys()
    ensures var l' := KeepFrom(l, d);
            && l'.SameKeys()
            && (forall i :: i in l'.tasks <==> i in l.tasks && l.depths[i] >= d)
            && (forall i :: i in l'.tasks ==> l'.tasks[i] == l.tasks[i] && l'.depths[i] == l.depths[i])
            && (forall i :: i in l'.tasks ==> l'.Dependents(i) == l.Dependents(i))
  {
  }

  lemma KeepFromLinked(r: Record, l: Live, d: nat)
    requires Linked(r, l)
    ensures Linked(r, KeepFrom(l, d))
  {
    KeepFromFacts(l, d);
    forall i ensures IsListed(r, KeepFrom(l, d), i) {
      assert IsListed(r, l, i) && IsDependent(r, l, r.DependencyOf(i), i);
    }
    forall c, i ensures IsDependent(r, KeepFrom(l, d), c, i) {
      assert IsDependent(r, l, c, i);
    }
  }

  lemma KeepFromStored(r: Record, l: Live, d: nat, t: nat)
    requires Stored(r, l) && t in l.tasks && l.depths[t] >= d
    ensures Stored(r, KeepFrom(l, d))
  {
    KeepFromFacts(l, d);
    assert t in KeepFrom(l, d).depths;
    forall i ensures StoredAt(r, KeepFrom(l, d), i) {
      assert StoredAt(r, l, i);
    }
  }

  /** Pruning keeps exactly the tasks at most maxDepth shallower than the one just made ready, and changes none it keeps. */
  lemma PrunedKeeps(r: Record, l: Live, t: nat, maxDepth: nat, i: nat)
    requires Stored(r, l) && t in l.tasks
    ensures var l' := Pruned(l, t, maxDepth);
            && l'.SameKeys()
            && (i in l'.tasks <==> i in l.tasks && l.depths[i] >= l.depths[t] - maxDepth)
            && l'.oldestDepth == (if l.depths[t] - maxDepth > l.oldestDepth then l.depths[t] - maxDepth else l.oldestDepth)
            && (i in l'.tasks ==> l'.tasks[i] == l.tasks[i] && l'.depths[i] == l.depths[i] && l'.Dependents(i) == l.Dependents(i))
  {
    KeepFromFacts(l, CutDepth(l.oldestDepth, l.depths[t], maxDepth));
    assert StoredAt(r, l, i);
  }

  /** No live task that was made ready is more than maxDepth deeper than what was forgotten. */
  ghost predicate Trimmed(depths: map<nat, nat>, oldestDepth: nat, emitted: seq<nat>, maxDepth: nat) {
    forall i :: TrimmedAt(depths, oldestDepth, emitted, maxDepth, i)
  }

  ghost predicate TrimmedAt(depths: map<nat, nat>, oldestDepth: nat, emitted: seq<nat>, maxDepth: nat, i: nat) {
    i in emitted && i in depths ==> depths[i] - maxDepth <= oldestDepth
  }

  lemma PrunedTrimmed(l: Live, emitted: seq<nat>, maxDepth: nat, t: nat)
    requires l.SameKeys() && t in l.depths && Trimmed(l.depths, l.oldestDepth, emitted, maxDepth)
    ensures var l' := Pruned(l, t, maxDepth); Trimmed(l'.depths, l'.oldestDepth, emitted + [t], maxDepth)
  {
    var l', e := Pruned(l, t, maxDepth), emitted + [t];
    forall i ensures TrimmedAt(l'.depths, l'.oldestDepth, e, maxDepth, i) {
      assert TrimmedAt(l.depths, l.oldestDepth, emitted, maxDepth, i);
    }
  }

  /** Entering a task that was never emitted. */
  lemma EnteredTrimmed(depths: map<nat, nat>, oldestDepth: nat, emitted: seq<nat>, maxDepth: nat, t: nat, depth: nat)
    requires Trimmed(depths, oldestDepth, emitted, maxDepth) && t !in emitted
    ensures Trimmed(depths[t := depth], oldestDepth, emitted, maxDepth)
  {
    var depths' := depths[t := depth];
    forall i ensures TrimmedAt(depths', oldestDepth, emitted, maxDepth, i) {
      assert TrimmedAt(depths, oldestDepth, emitted, maxDepth, i);
    }
  }

  /** The task waits for all its prerequisites, one below its dependency. */
  ghost predicate Waiting(l: Live, unready: set<nat>, task: Task) {
    && task.id in l.tasks && l.tasks[task.id] == Tracker(task, {}) && task.id in unready
    && task.dependency in l.depths && task.id in l.depths
    && l.depths[task.id] == l.depths[task.dependency] + 1
    && task.dependency in l.dependencies && task.id in l.dependencies[task.dependency]
  }

  lemma WaitingStays(l: Live, unready: set<nat>, ts: seq<Task>, k: nat)
    requires l.SameKeys() && k < |ts| && ts[k].dependency in l.tasks && ts[k].id !in l.tasks
    requires forall i :: 0 <= i < k ==> Waiting(l, unready, ts[i])
    ensures forall i :: 0 <= i <= k ==> Waiting(WithDependent(l, ts[k]), unready + {ts[k].id}, ts[i])
  {}

  lemma ReleasedSettled(r: Record, l: Live, unready: set<nat>, pending: set<nat>, t: nat)
    requires Recorded(r) && Linked(r, l) && Settled(r, unready, pending) && t in pending && t in l.tasks
    ensures Settled(r, unready - {t}, pending - {t} + Released(r, l, t))
  {
    forall i ensures SettledAt(r, unready - {t}, pending - {t} + Released(r, l, t), i) {
      assert SettledAt(r, unready, pending, i) && SettledAt(r, unready, pending, t);
      assert RecordedAt(r, i) && RecordedAt(r, t);
      assert IsListed(r, l, i) && IsDependent(r, l, t, i);
    }
  }

  lemma EmitReady(r: Record, unready: set<nat>, pending: set<nat>, emitted: seq<nat>, t: nat)
    requires Settled(r, unready, pending) && t in pending && EmittedOnce(r, unready, emitted) && Recorded(r)
    ensures EmittedOnce(r, unready - {t}, emitted + [t])
  {
    var e := emitted + [t];
    assert SettledAt(r, unready, pending, t) && EmittedIff(r, unready, emitted, t) && RecordedAt(r, t);
    forall i ensures EmittedIff(r, unready - {t}, e, i) {
      assert EmittedIff(r, unready, emitted, i);
    }
    forall k: nat ensures DependencyFirst(r, e, k) {
      if k < |emitted| {
        assert DependencyFirst(r, emitted, k) && e[..k] == emitted[..k];
      } else if k == |emitted| {
        assert e[..k] == emitted;
        assert EmittedIff(r, unready, emitted, r.DependencyOf(t));
      }
    }
  }

  function Appended(o: Output, t: Task): Output {
    Output(o.emitted + [t.id], o.taken, o.queue + [t])
  }

  lemma AppendedQueued(r: Record, o: Output, task: Task)
    requires Queued(r, o) && task.id in r.history && r.history[task.id].task == task
    ensures Queued(r, Appended(o, task))
  {
    var o' := Appended(o, task);
    forall k: nat ensures QueuedAt(r, o', k) {
      assert QueuedAt(r, o, k);
    }
  }

  /** No task that waits in the cascade is pruned by it. */
  lemma PendingKept(r: Record, l: Live, pending: set<nat>, t: nat, maxDepth: nat)
    requires Stored(r, l) && Linked(r, l) && t in l.tasks && pending <= l.tasks.Keys
    requires forall i :: i in pending ==> l.depths[i] >= l.depths[t]
    ensures pending + Released(r, l, t) <= Pruned(l, t, maxDepth).tasks.Keys
  {
    forall i | i in pending + Released(r, l, t) ensures i in Pruned(l, t, maxDepth).tasks {
      assert IsDependent(r, l, t, i);
      PrunedKeeps(r, l, t, maxDepth, i);
    }
  }

  /** Making one pending task ready keeps everything, and releases the complete dependents of that task. */
  lemma MarkOneMid(r: Record, l: Live, unready: set<nat>, o: Output, pending: set<nat>, t: nat, maxDepth: nat)
    requires Mid(r, l, unready, o, pending) && t in pending
    requires forall i :: i in pending ==> l.depths[i] >= l.depths[t]
    ensures Mid(r, Pruned(l, t, maxDepth), unready - {t}, Appended(o, l.tasks[t].task), pending - {t} + Released(r, l, t))
  {
    var d := CutDepth(l.oldestDepth, l.depths[t], maxDepth);
    assert StoredAt(r, l, t) && RecordedAt(r, t);
    KeepFromLinked(r, l, d);
    KeepFromStored(r, l, d, t);
    ReleasedSettled(r, l, unready, pending, t);
    EmitReady(r, unready, pending, o.emitted, t);
    AppendedQueued(r, o, l.tasks[t].task);
    PendingKept(r, l, pending, t, maxDepth);
  }

  lemma MarkOneFacts(r: Record, l: Live, unready: set<nat>, pending: set<nat>, t: nat, maxDepth: nat)
    requires Recorded(r) && Stored(r, l) && Linked(r, l) && Settled(r, unready, pending)
    requires t in pending && pending <= l.tasks.Keys
    requires forall i :: i in pending ==> l.depths[i] >= l.depths[t]
    ensures t in unready
    ensures Released(r, l, t) !! pending
    ensures var l' := Pruned(l, t, maxDepth);
            && l'.SameKeys()
            && l'.Dependents(t) == l.Dependents(t) <= l'.tasks.Keys
            && (forall i :: i in l.Dependents(t) ==> l'.depths[i] == l.depths[t] + 1)
            && (forall i :: i in l.Dependents(t) ==> (i in Released(r, l, t) <==> r.prereqs <= l'.tasks[i].completed))
            && (forall i :: i in pending ==> i in l'.depths && l'.depths[i] == l.depths[i])
  {
    var l' := Pruned(l, t, maxDepth);
    assert SettledAt(r, unready, pending, t);
    PrunedKeeps(r, l, t, maxDepth, t);
    forall i | i in l.Dependents(t)
      ensures i in l'.tasks && i in r.history && l'.depths[i] == l.depths[t] + 1 && l'.tasks[i] == r.history[i] && i !in pending
    {
      assert IsDependent(r, l, t, i) && SettledAt(r, unready, pending, i) && StoredAt(r, l, i);
      PrunedKeeps(r, l, t, maxDepth, i);
    }
    forall i | i in pending ensures i in l'.depths && l'.depths[i] == l.depths[i] {
      PrunedKeeps(r, l, t, maxDepth, i);
    }
  }

  // ----- what a caller sees between calls

  /** The whole dependency chain of i, down to a task declared finished, is complete. */
  ghost predicate ChainComplete(r: Record, i: nat)
    requires Recorded(r) && i in r.history
    decreases r.RankOf(i)
  {
    assert RecordedAt(r, i);
    r.Registered(i) ==> r.Complete(i) && ChainComplete(r, r.DependencyOf(i))
  }

  /** Between calls the ready tasks are exactly those whose whole chain is complete, pruned tasks included. */
  lemma {:induction false} ReadyIffChainComplete(r: Record, unready: set<nat>, i: nat)
    requires Recorded(r) && Settled(r, unready, {}) && i in r.history
    ensures i !in unready <==> ChainComplete(r, i)
    decreases r.RankOf(i)
  {
    assert RecordedAt(r, i) && SettledAt(r, unready, {}, i);
    if r.Registered(i) {
      ReadyIffChainComplete(r, unready, r.DependencyOf(i));
    }
  }

  /** So what was completed decides what is ready, whatever the order in which it was completed. */
  lemma ReadinessIsDetermined(r: Record, unready: set<nat>, unready': set<nat>)
    requires Recorded(r) && Settled(r, unready, {}) && Settled(r, unready', {})
    ensures unready == unready'
  {
    forall i ensures i in unready <==> i in unready' {
      assert SettledAt(r, unready, {}, i) && SettledAt(r, unready', {}, i);
      if i in r.history {
        ReadyIffChainComplete(r, unready, i);
        ReadyIffChainComplete(r, unready', i);
      }
    }
  }

  /** A task is emitted once its chain is complete, and only then. */
  lemma EmittedIffChainComplete(r: Record, unready: set<nat>, emitted: seq<nat>, i: nat)
    requires Recorded(r) && Settled(r, unready, {}) && EmittedOnce(r, unready, emitted) && r.Registered(i)
    ensures i in emitted <==> ChainComplete(r, i)
  {
    assert EmittedIff(r, unready, emitted, i);
    ReadyIffChainComplete(r, unready, i);
  }

  // ----- entering tasks

  function WithTask(r: Record, task: Task, finished: bool, rank: nat): Record {
    r.(history := r.history[task.id := Tracker(task, if finished then r.prereqs else {})],
       finished := if finished then r.finished + {task.id} else r.finished,
       rank := r.rank[task.id := rank])
  }

  lemma WithTaskFacts(r: Record, task: Task, finished: bool, rank: nat, i: nat)
    requires Recorded(r) && task.id !in r.history
    ensures var r' := WithTask(r, task, finished, rank);
            && (i != task.id ==> r'.Registered(i) == r.Registered(i) && r'.Complete(i) == r.Complete(i)
                                 && r'.DependencyOf(i) == r.DependencyOf(i) && r'.RankOf(i) == r.RankOf(i))
            && (i == task.id ==> r'.Registered(i) == !finished && r'.Complete(i) == finished
                                 && r'.DependencyOf(i) == task.dependency && r'.RankOf(i) == rank)
            && (r.Registered(i) ==> i != task.id && r.DependencyOf(i) != task.id)
  {
    assert RecordedAt(r, i);
  }

  lemma WithTaskRecorded(r: Record, task: Task, finished: bool, rank: nat)
    requires Recorded(r) && task.id !in r.history
    requires !finished ==> task.dependency in r.history && r.RankOf(task.dependency) < rank
    ensures Recorded(WithTask(r, task, finished, rank))
  {
    forall i ensures RecordedAt(WithTask(r, task, finished, rank), i) {
      assert RecordedAt(r, i);
      WithTaskFacts(r, task, finished, rank, i);
    }
  }

  lemma WithTaskSettled(r: Record, unready: set<nat>, task: Task, finished: bool, rank: nat)
    requires Recorded(r) && Settled(r, unready, {}) && task.id !in r.history
    ensures Settled(WithTask(r, task, finished, rank), if finished then unready else unready + {task.id}, {})
  {
    var u' := if finished then unready else unready + {task.id};
    forall i ensures SettledAt(WithTask(r, task, finished, rank), u', {}, i) {
      assert SettledAt(r, unready, {}, i) && SettledAt(r, unready, {}, task.id);
      WithTaskFacts(r, task, finished, rank, i);
    }
  }

  lemma WithTaskEmitted(r: Record, unready: set<nat>, o: Output, task: Task, finished: bool, rank: nat)
    requires Recorded(r) && EmittedOnce(r, unready, o.emitted) && Queued(r, o) && task.id !in r.history
    ensures EmittedOnce(WithTask(r, task, finished, rank), if finished then unready else unready + {task.id}, o.emitted)
    ensures Queued(WithTask(r, task, finished, rank), o)
  {
    var r', u' := WithTask(r, task, finished, rank), if finished then unready else unready + {task.id};
    forall i ensures EmittedIff(r', u', o.emitted, i) {
      assert EmittedIff(r, unready, o.emitted, i);
      WithTaskFacts(r, task, finished, rank, i);
    }
    forall k: nat ensures DependencyFirst(r', o.emitted, k) {
      assert DependencyFirst(r, o.emitted, k);
      if k < |o.emitted| {
        assert EmittedIff(r, unready, o.emitted, o.emitted[k]);
        WithTaskFacts(r, task, finished, rank, o.emitted[k]);
      }
    }
    forall k: nat ensures QueuedAt(r', o, k) {
      assert QueuedAt(r, o, k);
    }
  }

  function WithDependent(l: Live, task: Task): Live
    requires task.dependency in l.depths
  {
    Live(l.tasks[task.id := Tracker(task, {})],
         l.dependencies[task.dependency := l.Dependents(task.dependency) + {task.id}],
         l.depths[task.id := l.depths[task.dependency] + 1],
         l.oldestDepth)
  }

  lemma WithDependentLinked(r: Record, l: Live, task: Task, rank: nat)
    requires Recorded(r) && Linked(r, l) && task.id !in r.history && task.id !in l.tasks && task.dependency in l.tasks
    ensures Linked(WithTask(r, task, false, rank), WithDependent(l, task))
  {
    var r', l' := WithTask(r, task, false, rank), WithDependent(l, task);
    forall i ensures IsListed(r', l', i) {
      assert IsListed(r, l, i);
      WithTaskFacts(r, task, false, rank, i);
    }
    forall d, i ensures IsDependent(r', l', d, i) {
      assert IsDependent(r, l, d, i);
      WithTaskFacts(r, task, false, rank, i);
    }
  }

  lemma WithDependentStored(r: Record, l: Live, task: Task, rank: nat)
    requires Stored(r, l) && task.id !in r.history && task.dependency in l.tasks
    ensures Stored(WithTask(r, task, false, rank), WithDependent(l, task))
  {
    assert task.id in WithDependent(l, task).depths;
    forall i ensures StoredAt(WithTask(r, task, false, rank), WithDependent(l, task), i) {
      assert StoredAt(r, l, i) && StoredAt(r, l, task.dependency);
    }
  }

  /** Registering a new task whose dependency is live. */
  lemma RegisterMid(r: Record, l: Live, unready: set<nat>, o: Output, task: Task)
    requires Mid(r, l, unready, o, {}) && task.id !in r.history && task.dependency in l.tasks
    ensures Mid(WithTask(r, task, false, r.RankOf(task.dependency) + 1), WithDependent(l, task), unready + {task.id}, o, {})
  {
    var rank := r.RankOf(task.dependency) + 1;
    assert StoredAt(r, l, task.dependency) && StoredAt(r, l, task.id);
    WithTaskRecorded(r, task, false, rank);
    WithDependentLinked(r, l, task, rank);
    WithDependentStored(r, l, task, rank);
    WithTaskSettled(r, unready, task, false, rank);
    WithTaskEmitted(r, unready, o, task, false, rank);
  }

  function WithFinished(r: Record, l: Live, task: Task, depth: nat): Live {
    l.(tasks := l.tasks[task.id := Tracker(task, r.prereqs)], depths := l.depths[task.id := depth])
  }

  lemma WithFinishedLinked(r: Record, l: Live, task: Task, depth: nat)
    requires Recorded(r) && Linked(r, l) && task.id !in r.history && task.id !in l.tasks
    ensures Linked(WithTask(r, task, true, 0), WithFinished(r, l, task, depth))
  {
    var r', l' := WithTask(r, task, true, 0), WithFinished(r, l, task, depth);
    forall i ensures IsListed(r', l', i) {
      assert IsListed(r, l, i);
      WithTaskFacts(r, task, true, 0, i);
    }
    forall d, i ensures IsDependent(r', l', d, i) {
      assert IsDependent(r, l, d, i);
      WithTaskFacts(r, task, true, 0, i);
    }
  }

  lemma WithFinishedStored(r: Record, l: Live, task: Task, depth: nat)
    requires Stored(r, l) && task.id !in r.history && depth >= l.oldestDepth
    ensures Stored(WithTask(r, task, true, 0), WithFinished(r, l, task, depth))
  {
    assert task.id in WithFinished(r, l, task, depth).depths;
    forall i ensures StoredAt(WithTask(r, task, true, 0), WithFinished(r, l, task, depth), i) {
      assert StoredAt(r, l, i);
    }
  }

  /** Declaring a task finished. */
  lemma FinishedMid(r: Record, l: Live, unready: set<nat>, o: Output, task: Task, depth: nat)
    requires Mid(r, l, unready, o, {}) && task.id !in r.history && depth >= l.oldestDepth
    ensures Mid(WithTask(r, task, true, 0), WithFinished(r, l, task, depth), unready, o, {})
  {
    assert StoredAt(r, l, task.id);
    WithTaskRecorded(r, task, true, 0);
    WithFinishedLinked(r, l, task, depth);
    WithFinishedStored(r, l, task, depth);
    WithTaskSettled(r, unready, task, true, 0);
    WithTaskEmitted(r, unready, o, task, true, 0);
  }

  // ----- finishing a prerequisite

  function WithPrereq(m: map<nat, Tracker>, t: nat, p: nat): map<nat, Tracker>
    requires t in m
  {
    m[t := m[t].(completed := m[t].completed + {p})]
  }

  /** The task that a finished prerequisite makes ready, if any. */
  ghost function Woken(r: Record, unready: set<nat>, t: nat): set<nat> {
    if r.Complete(t) && r.DependencyOf(t) !in unready then {t} else {}
  }

  lemma PrereqFacts(r: Record, t: nat, p: nat, i: nat)
    requires r.Registered(t)
    ensures var r' := r.(history := WithPrereq(r.history, t, p));
            && r'.Registered(i) == r.Registered(i) && r'.DependencyOf(i) == r.DependencyOf(i) && r'.RankOf(i) == r.RankOf(i)
            && (i != t ==> r'.Complete(i) == r.Complete(i))
  {
  }

  lemma PrereqLive(r: Record, l: Live, t: nat, p: nat)
    requires Stored(r, l) && Linked(r, l) && t in l.tasks && r.Registered(t)
    ensures var r', l' := r.(history := WithPrereq(r.history, t, p)), l.(tasks := WithPrereq(l.tasks, t, p));
            Stored(r', l') && Linked(r', l')
  {
    var r', l' := r.(history := WithPrereq(r.history, t, p)), l.(tasks := WithPrereq(l.tasks, t, p));
    forall i ensures StoredAt(r', l', i) {
      assert StoredAt(r, l, i);
    }
    forall i ensures IsListed(r', l', i) {
      assert IsListed(r, l, i);
      PrereqFacts(r, t, p, i);
    }
    forall d, i ensures IsDependent(r', l', d, i) {
      assert IsDependent(r, l, d, i);
      PrereqFacts(r, t, p, i);
    }
  }

  lemma PrereqOutput(r: Record, unready: set<nat>, o: Output, t: nat, p: nat)
    requires EmittedOnce(r, unready, o.emitted) && Queued(r, o) && r.Registered(t)
    ensures var r' := r.(history := WithPrereq(r.history, t, p));
            EmittedOnce(r', unready, o.emitted) && Queued(r', o)
  {
    var r' := r.(history := WithPrereq(r.history, t, p));
    forall i ensures EmittedIff(r', unready, o.emitted, i) {
      assert EmittedIff(r, unready, o.emitted, i);
      PrereqFacts(r, t, p, i);
    }
    forall k: nat ensures DependencyFirst(r', o.emitted, k) {
      assert DependencyFirst(r, o.emitted, k);
      if k < |o.emitted| { PrereqFacts(r, t, p, o.emitted[k]); }
    }
    forall k: nat ensures QueuedAt(r', o, k) {
      assert QueuedAt(r, o, k);
    }
  }

  lemma PrereqSettled(r: Record, unready: set<nat>, t: nat, p: nat)
    requires Recorded(r) && Settled(r, unready, {}) && t in unready && p in r.prereqs && r.Registered(t)
    ensures var r' := r.(history := WithPrereq(r.history, t, p));
            Recorded(r') && Settled(r', unready, Woken(r', unready, t))
  {
    var r' := r.(history := WithPrereq(r.history, t, p));
    forall i ensures RecordedAt(r', i) {
      assert RecordedAt(r, i);
      PrereqFacts(r, t, p, i);
      PrereqFacts(r, t, p, r.DependencyOf(i));
    }
    forall i ensures SettledAt(r', unready, Woken(r', unready, t), i) {
      assert SettledAt(r, unready, {}, i) && SettledAt(r, unready, {}, t);
      PrereqFacts(r, t, p, i);
      PrereqFacts(r, t, p, t);
    }
  }

  /** A newly completed prerequisite leaves at most its own task to be made ready. */
  lemma PrereqMid(r: Record, l: Live, unready: set<nat>, o: Output, t: nat, p: nat)
    requires Mid(r, l, unready, o, {}) && t in l.tasks && t in unready && p in r.prereqs
    ensures t in r.history
    ensures var r' := r.(history := WithPrereq(r.history, t, p));
            Mid(r', l.(tasks := WithPrereq(l.tasks, t, p)), unready, o, Woken(r', unready, t))
  {
    assert SettledAt(r, unready, {}, t);
    PrereqSettled(r, unready, t, p);
    PrereqLive(r, l, t, p);
    PrereqOutput(r, unready, o, t, p);
  }
}
