/** helios/utils/datastructures.py: OrderedTaskPreparation, which makes tasks ready once their
    prerequisites are complete and their dependency is ready, and forgets old tasks. */
module TaskPreparation {
  import opened Sequences
  import opened TaskStates

  datatype RegisterResult = Registered | Duplicates | MissingDependency

  ghost function ToSet(s: seq<nat>): set<nat> { set i | i in s }

  lemma StepDown(l: Live, d: nat)
    requires l.SameKeys()
    ensures var k := KeepFrom(l, d);
            var shallow := set i | i in k.tasks && i in k.depths && k.depths[i] == d;
            KeepFrom(l, d + 1) == Live(k.tasks - shallow, k.dependencies - shallow, k.depths - shallow, d + 1)
  {
    KeepFromFacts(l, d);
    var k := KeepFrom(l, d);
    var shallow := set i | i in k.tasks && i in k.depths && k.depths[i] == d;
    var m := KeepFrom(l, d + 1);
    assert m.tasks == k.tasks - shallow;
    assert m.dependencies == k.dependencies - shallow;
    assert m.depths == k.depths - shallow;
  }

  ghost function Enter(r: Record, task: Task): Record {
    WithTask(r, task, false, r.RankOf(task.dependency) + 1)
  }

  ghost function EnterAll(r: Record, ts: seq<Task>): Record {
    if ts == [] then r else Enter(EnterAll(r, ts[..|ts| - 1]), ts[|ts| - 1])
  }

  /** The record after a prerequisite of each task of ts was completed. */
  ghost function CompleteAll(r: Record, ts: seq<Task>, prereq: nat): Record {
    if ts == [] then r
    else
      var m, t := CompleteAll(r, ts[..|ts| - 1], prereq), ts[|ts| - 1].id;
      if t in m.history then m.(history := WithPrereq(m.history, t, prereq)) else m
  }

  // ----- the order of finish calls

  /** r with the marked prerequisites completed; a mark is a prerequisite and a task. */
  ghost function Marked(r: Record, marks: set<(nat, nat)>): Record {
    r.(history := map i | i in r.history :: r.history[i].(completed := r.history[i].completed + MarksOf(marks, i)))
  }

  ghost function MarksOf(marks: set<(nat, nat)>, i: nat): set<nat> {
    set m | m in marks && m.1 == i :: m.0
  }

  lemma MarkedTwice(r: Record, marks: set<(nat, nat)>, marks': set<(nat, nat)>)
    ensures Marked(Marked(r, marks), marks') == Marked(r, marks + marks')
  {
    forall i | i in r.history
      ensures r.history[i].completed + MarksOf(marks, i) + MarksOf(marks', i) == r.history[i].completed + MarksOf(marks + marks', i)
    {
      MarksOfUnion(marks, marks', i);
    }
  }

  lemma MarksOfUnion(marks: set<(nat, nat)>, marks': set<(nat, nat)>, i: nat)
    ensures MarksOf(marks + marks', i) == MarksOf(marks, i) + MarksOf(marks', i)
  {
    forall p | p in MarksOf(marks, i) + MarksOf(marks', i) ensures p in MarksOf(marks + marks', i) {
      assert (p, i) in marks + marks';
    }
  }

  lemma MarkedOne(r: Record, t: nat, p: nat)
    ensures Marked(r, {(p, t)}) == if t in r.history then r.(history := WithPrereq(r.history, t, p)) else r
  {
    forall i ensures MarksOf({(p, t)}, i) == if i == t then {p} else {} {
      assert i == t ==> (p, t) in {(p, t)};
    }
    var m := Marked(r, {(p, t)});
    forall i | i in r.history && i != t ensures m.history[i] == r.history[i] {
      assert r.history[i].completed + {} == r.history[i].completed;
    }
    assert m.history == if t in r.history then WithPrereq(r.history, t, p) else r.history;
  }

  lemma MarkedNone(r: Record)
    ensures Marked(r, {}) == r
  {
    forall i | i in r.history ensures Marked(r, {}).history[i] == r.history[i] {
      assert r.history[i].completed + MarksOf({}, i) == r.history[i].completed;
    }
    assert Marked(r, {}).history == r.history;
  }

  ghost function CallMarks(ts: seq<Task>, prereq: nat): set<(nat, nat)> {
    set t | t in ts :: (prereq, t.id)
  }

  lemma {:induction false} CompleteAllMarks(r: Record, ts: seq<Task>, prereq: nat)
    ensures CompleteAll(r, ts, prereq) == Marked(r, CallMarks(ts, prereq))
  {
    if ts == [] {
      assert CallMarks(ts, prereq) == {};
      MarkedNone(r);
    } else {
      var init, t := ts[..|ts| - 1], ts[|ts| - 1];
      CompleteAllMarks(r, init, prereq);
      MarkedOne(Marked(r, CallMarks(init, prereq)), t.id, prereq);
      MarkedTwice(r, CallMarks(init, prereq), {(prereq, t.id)});
      assert ts == init + [t];
      assert CallMarks(ts, prereq) == CallMarks(init, prereq) + {(prereq, t.id)} by {
        assert t in ts;
        forall x | x in init ensures x in ts {}
      }
    }
  }

  /** A run of finish_prereq calls: each a prerequisite and the tasks it is finished for. */
  ghost function FinishAll(r: Record, calls: seq<(nat, seq<Task>)>): Record {
    if calls == [] then r
    else
      var last := calls[|calls| - 1];
      CompleteAll(FinishAll(r, calls[..|calls| - 1]), last.1, last.0)
  }

  ghost function AllMarks(calls: seq<(nat, seq<Task>)>): set<(nat, nat)> {
    if calls == [] then {}
    else AllMarks(calls[..|calls| - 1]) + CallMarks(calls[|calls| - 1].1, calls[|calls| - 1].0)
  }

  lemma {:induction false} FinishAllMarks(r: Record, calls: seq<(nat, seq<Task>)>)
    ensures FinishAll(r, calls) == Marked(r, AllMarks(calls))
  {
    if calls == [] {
      MarkedNone(r);
    } else {
      var init, last := calls[..|calls| - 1], calls[|calls| - 1];
      FinishAllMarks(r, init);
      CompleteAllMarks(FinishAll(r, init), last.1, last.0);
      MarkedTwice(r, AllMarks(init), CallMarks(last.1, last.0));
    }
  }

  /** Two runs of finish calls that complete the same prerequisites of the same tasks, in whatever order and grouping,
      leave the same tasks unready and have emitted the same tasks. */
  lemma FinishOrderIrrelevant(r: Record, calls: seq<(nat, seq<Task>)>, calls': seq<(nat, seq<Task>)>,
                              unready: set<nat>, unready': set<nat>, emitted: seq<nat>, emitted': seq<nat>)
    requires AllMarks(calls) == AllMarks(calls')
    requires Recorded(FinishAll(r, calls)) && Settled(FinishAll(r, calls), unready, {}) && Settled(FinishAll(r, calls'), unready', {})
    requires EmittedOnce(FinishAll(r, calls), unready, emitted) && EmittedOnce(FinishAll(r, calls'), unready', emitted')
    ensures FinishAll(r, calls) == FinishAll(r, calls') && unready == unready'
    ensures forall i :: i in emitted <==> i in emitted'
  {
    FinishAllMarks(r, calls);
    FinishAllMarks(r, calls');
    ReadinessIsDetermined(FinishAll(r, calls), unready, unready');
    forall i ensures i in emitted <==> i in emitted' {
      assert EmittedIff(FinishAll(r, calls), unready, emitted, i) && EmittedIff(FinishAll(r, calls'), unready', emitted', i);
    }
  }

  // ----- levels of the cascade

  lemma TakeOne(level: seq<nat>, k: nat, next: seq<nat>)
    requires k < |level| && Distinct(level) && ToSet(level[k..]) !! ToSet(next)
    ensures level[k] in ToSet(level[k..])
    ensures ToSet(level[k..]) + ToSet(next) - {level[k]} == ToSet(level[k + 1..]) + ToSet(next)
  {
    assert level[k..] == [level[k]] + level[k + 1..];
  }

  lemma NextLevel(level: seq<nat>, k: nat, next: seq<nat>, released: seq<nat>)
    requires k < |level| && Distinct(level) && ToSet(level[k..]) !! ToSet(next)
    requires Distinct(next) && Distinct(released) && ToSet(released) !! ToSet(level[k..]) + ToSet(next)
    ensures Distinct(next + released)
    ensures ToSet(level[k + 1..]) <= ToSet(level[k..])
    ensures ToSet(next + released) == ToSet(next) + ToSet(released)
    ensures ToSet(level[k + 1..]) !! ToSet(next + released)
    ensures ToSet(level[k + 1..]) + ToSet(next + released) == ToSet(level[k..]) + ToSet(next) - {level[k]} + ToSet(released)
  {
    TakeOne(level, k, next);
    assert forall i :: i in level[k + 1..] ==> i in level[k..];
    forall i, j | 0 <= i < j < |next + released| ensures (next + released)[i] != (next + released)[j] {
      if i < |next| <= j {
        assert next[i] in ToSet(next) && released[j - |next|] in ToSet(released);
      }
    }
  }

  class OrderedTaskPreparation {
    const prereqs: set<nat>
    const maxDepth: nat
    var tasks: map<nat, Tracker>
    var dependencies: map<nat, set<nat>>
    var unready: set<nat>
    var readyTasks: seq<Task>
    var depths: map<nat, nat>
    var oldestDepth: nat

    /** The run so far. */
    ghost var record: Record
    ghost var emitted: seq<nat>
    ghost var taken: nat

    ghost function L(): Live
      reads this
    {
      Live(tasks, dependencies, depths, oldestDepth)
    }

    ghost function O(): Output
      reads this
    {
      Output(emitted, taken, readyTasks)
    }

    /** What holds while the tasks in pending wait to be made ready. */
    ghost predicate Cascading(pending: set<nat>)
      reads this
    {
      record.prereqs == prereqs && Mid(record, L(), unready, O(), pending) && Trimmed(depths, oldestDepth, emitted, maxDepth)
    }

    ghost predicate Valid()
      reads this
    {
      Cascading({})
    }

    constructor (prerequisites: set<nat>, maxDepth: nat)
      requires prerequisites != {}
      ensures Valid() && record == Record(prerequisites, map[], {}, map[]) && emitted == []
      ensures prereqs == prerequisites && this.maxDepth == if maxDepth < 10000 then maxDepth else 10000
    {
      prereqs := prerequisites;
      this.maxDepth := if maxDepth < 10000 then maxDepth else 10000;
      tasks, dependencies, unready, readyTasks, depths, oldestDepth := map[], map[], {}, [], map[], 0;
      record, emitted, taken := Record(prerequisites, map[], {}, map[]), [], 0;
    }

    /** Forgets the tasks more than maxDepth shallower than the one that became ready. */
    method Prune(taskId: nat)
      requires dependencies.Keys <= tasks.Keys == depths.Keys && taskId in depths
      requires forall i :: i in depths ==> depths[i] >= oldestDepth
      modifies `tasks, `dependencies, `depths, `oldestDepth
      ensures L() == Pruned(old(L()), taskId, maxDepth)
      ensures forall i :: i in tasks <==> i in old(tasks) && old(depths)[i] >= old(depths)[taskId] - maxDepth
    {
      ghost var l := L();
      assert KeepFrom(l, oldestDepth) == l by {
        assert KeepFrom(l, oldestDepth).tasks == tasks && KeepFrom(l, oldestDepth).depths == depths;
        assert KeepFrom(l, oldestDepth).dependencies == dependencies;
      }
      var pruneDepth := depths[taskId] - maxDepth;
      if pruneDepth > oldestDepth {
        for depth := oldestDepth to pruneDepth
          invariant Live(tasks, dependencies, depths, depth) == KeepFrom(l, depth)
        {
          PruneLevel(depth);
          StepDown(l, depth);
        }
        oldestDepth := pruneDepth;
      }
    }

    method PruneLevel(depth: nat)
      requires tasks.Keys == depths.Keys
      modifies `tasks, `dependencies, `depths
      ensures var shallow := set i | i in old(tasks) && i in old(depths) && old(depths)[i] == depth;
              && tasks == old(tasks) - shallow
              && dependencies == old(dependencies) - shallow
              && depths == old(depths) - shallow
    {
      var pruneTasks := set i | i in tasks && i in depths && depths[i] == depth;
      var rest := pruneTasks;
      while rest != {}
        invariant rest <= pruneTasks
        invariant tasks == old(tasks) - (pruneTasks - rest)
        invariant dependencies == old(dependencies) - (pruneTasks - rest)
        invariant depths == old(depths) - (pruneTasks - rest)
        decreases rest
      {
        var id :| id in rest;
        rest := rest - {id};
        assert pruneTasks - rest == (pruneTasks - (rest + {id})) + {id};
        tasks := tasks - {id};
        depths := depths - {id};
        dependencies := dependencies - {id};
      }
      assert pruneTasks - rest == pruneTasks;
    }

    /** The members of a set that are complete, in some order. */
    method CompleteAmong(ids: set<nat>) returns (r: seq<nat>)
      requires ids <= tasks.Keys
      ensures Distinct(r) && forall i :: i in r <==> i in ids && prereqs <= tasks[i].completed
    {
      r := [];
      var rest := ids;
      while rest != {}
        invariant rest <= ids && Distinct(r)
        invariant forall i :: i in r <==> i in ids && i !in rest && prereqs <= tasks[i].completed
        decreases rest
      {
        var id :| id in rest;
        rest := rest - {id};
        if prereqs <= tasks[id].completed { r := r + [id]; }
      }
    }

    /** Queues a task as ready and prunes. */
    method MakeReady(taskId: nat)
      requires dependencies.Keys <= tasks.Keys == depths.Keys && taskId in depths
      requires forall i :: i in depths ==> depths[i] >= oldestDepth
      modifies `tasks, `dependencies, `depths, `oldestDepth, `readyTasks, `emitted, `unready
      ensures L() == Pruned(old(L()), taskId, maxDepth) && unready == old(unready) - {taskId}
      ensures emitted == old(emitted) + [taskId] && readyTasks == old(readyTasks) + [old(tasks)[taskId].task]
    {
      readyTasks := readyTasks + [tasks[taskId].task];
      emitted := emitted + [taskId];
      unready := unready - {taskId};
      Prune(taskId);
    }

    /** Makes one pending task ready and returns the dependents that became ready with it. */
    method MarkOneTaskComplete(taskId: nat, ghost pending: set<nat>) returns (released: seq<nat>)
      requires Cascading(pending) && taskId in pending
      requires forall i :: i in pending ==> depths[i] >= depths[taskId]
      modifies this
      ensures Cascading(pending - {taskId} + ToSet(released))
      ensures Distinct(released) && ToSet(released) !! pending
      ensures record == old(record) && unready == old(unready) - {taskId}
      ensures emitted == old(emitted) + [taskId] && taken == old(taken)
      ensures L() == Pruned(old(L()), taskId, maxDepth)
      ensures |unready| < |old(unready)|
      ensures forall i :: i in released ==> i in depths && depths[i] == old(depths)[taskId] + 1
      ensures forall i :: i in pending - {taskId} ==> i in depths && depths[i] == old(depths)[i]
    {
      ghost var r, l, u, o := record, L(), unready, O();
      MarkOneFacts(r, l, u, pending, taskId, maxDepth);
      assert StoredAt(r, l, taskId) && RecordedAt(r, taskId);
      assert forall i :: i in depths ==> StoredAt(r, l, i);
      MakeReady(taskId);
      var dependents := if taskId in dependencies then dependencies[taskId] else {};
      released := CompleteAmong(dependents);
      assert ToSet(released) == Released(r, l, taskId);
      MarkOneMid(r, l, u, o, pending, taskId, maxDepth);
      PrunedTrimmed(l, o.emitted, maxDepth, taskId);
    }

    /** One level of the cascade: makes every task of the level ready and returns the next level. */
    method MarkLevel(level: seq<nat>) returns (next: seq<nat>)
      requires Cascading(ToSet(level)) && Distinct(level)
      requires forall i, j :: i in level && j in level ==> depths[i] == depths[j]
      modifies this
      ensures Cascading(ToSet(next)) && Distinct(next)
      ensures forall i, j :: i in next && j in next ==> depths[i] == depths[j]
      ensures record == old(record) && old(emitted) <= emitted && taken == old(taken)
      ensures |unready| + |level| <= |old(unready)| && unready <= old(unready)
    {
      next := [];
      ghost var depth := if level == [] then 0 else depths[level[0]];
      assert level[0..] == level && ToSet(level) + ToSet(next) == ToSet(level);
      for k := 0 to |level|
        invariant Cascading(ToSet(level[k..]) + ToSet(next)) && Distinct(next) && ToSet(level[k..]) !! ToSet(next)
        invariant forall i :: i in ToSet(level[k..]) ==> i in depths && depths[i] == depth
        invariant forall i :: i in ToSet(next) ==> i in depths && depths[i] == depth + 1
        invariant record == old(record) && old(emitted) <= emitted && taken == old(taken)
        invariant |unready| + k <= |old(unready)| && unready <= old(unready)
      {
        ghost var pending := ToSet(level[k..]) + ToSet(next);
        TakeOne(level, k, next);
        var released := MarkOneTaskComplete(level[k], pending);
        NextLevel(level, k, next, released);
        next := next + released;
      }
      assert ToSet(level[|level|..]) + ToSet(next) == ToSet(next);
    }

    method MarkComplete(taskId: nat)
      requires Cascading({taskId})
      modifies this
      ensures Valid() && unready <= old(unready)
      ensures record == old(record) && old(emitted) <= emitted && taken == old(taken)
    {
      var qualified := [taskId];
      assert ToSet(qualified) == {taskId};
      while qualified != []
        invariant Cascading(ToSet(qualified)) && Distinct(qualified)
        invariant forall i, j :: i in qualified && j in qualified ==> depths[i] == depths[j]
        invariant record == old(record) && old(emitted) <= emitted && taken == old(taken) && unready <= old(unready)
        decreases |unready|
      {
        qualified := MarkLevel(qualified);
      }
      assert ToSet([]) == {};
    }

    /** The largest depth in use. */
    method MaxDepthValue() returns (m: nat)
      requires depths.Keys != {}
      ensures forall i :: i in depths ==> depths[i] <= m
      ensures exists i :: i in depths && depths[i] == m
    {
      var rest := depths.Keys;
      var id :| id in rest;
      rest, m := rest - {id}, depths[id];
      ghost var deepest := id;
      while rest != {}
        invariant rest <= depths.Keys && deepest in depths && depths[deepest] == m
        invariant forall i :: i in depths && i !in rest ==> depths[i] <= m
        decreases rest
      {
        id :| id in rest;
        rest := rest - {id};
        if depths[id] > m { m, deepest := depths[id], id; }
      }
    }

    /** Declares a task finished, so that others may depend on it; false is the source's DuplicateTasks. */
    method SetFinishedDependency(task: Task) returns (ok: bool)
      requires Valid() && (task.id in tasks || task.id !in record.history)
      modifies this
      ensures Valid() && emitted == old(emitted) && taken == old(taken) && unready == old(unready)
      ensures ok <==> task.id !in old(tasks)
      ensures record == if ok then WithTask(old(record), task, true, 0) else old(record)
      ensures !ok ==> L() == old(L())
      ensures ok ==>
                && tasks == old(tasks)[task.id := Tracker(task, prereqs)] && task.id in depths
                && depths == old(depths)[task.id := depths[task.id]]
                && (forall i :: i in old(depths) ==> old(depths)[i] <= depths[task.id])
                && (old(depths) == map[] ==> depths[task.id] == 0)
                && (old(depths) != map[] ==> exists i :: i in old(depths) && old(depths)[i] == depths[task.id])
    {
      if task.id in tasks { return false; }
      ghost var r, l := record, L();
      var depth := 0;
      if depths.Keys != {} {
        depth := MaxDepthValue();
        ghost var i :| i in depths && depths[i] == depth;
        assert StoredAt(r, l, i);
      }
      FinishedMid(r, l, unready, O(), task, depth);
      assert EmittedIff(r, unready, emitted, task.id);
      EnteredTrimmed(depths, oldestDepth, emitted, maxDepth, task.id, depth);
      tasks := tasks[task.id := Tracker(task, prereqs)];
      depths := depths[task.id := depth];
      record := WithTask(record, task, true, 0);
      return true;
    }

    method StoreTask(task: Task)
      requires L().SameKeys() && task.dependency in tasks
      modifies `tasks, `unready, `dependencies, `depths
      ensures L() == WithDependent(old(L()), task) && unready == old(unready) + {task.id}
    {
      tasks := tasks[task.id := Tracker(task, {})];
      unready := unready + {task.id};
      var dependents := if task.dependency in dependencies then dependencies[task.dependency] else {};
      dependencies := dependencies[task.dependency := dependents + {task.id}];
      depths := depths[task.id := depths[task.dependency] + 1];
    }

    method RegisterTask(task: Task)
      requires Valid() && task.id !in record.history && task.dependency in tasks
      modifies this
      ensures Valid() && emitted == old(emitted) && taken == old(taken)
      ensures record == Enter(old(record), task)
      ensures L() == WithDependent(old(L()), task) && unready == old(unready) + {task.id}
    {
      RegisterMid(record, L(), unready, O(), task);
      assert EmittedIff(record, unready, emitted, task.id);
      EnteredTrimmed(depths, oldestDepth, emitted, maxDepth, task.id, depths[task.dependency] + 1);
      StoreTask(task);
      record := Enter(record, task);
    }

    /** Registers tasks in order; the source raises at the first one whose dependency is not live,
        keeping those before it. */
    method RegisterTasks(ts: seq<Task>) returns (r: RegisterResult, n: nat)
      requires Valid()
      requires forall i, j :: 0 <= i < j < |ts| ==> ts[i].id != ts[j].id
      requires forall i :: 0 <= i < |ts| ==> ts[i].id in tasks || ts[i].id !in record.history
      modifies this
      ensures Valid() && emitted == old(emitted) && taken == old(taken)
      ensures n <= |ts| && record == EnterAll(old(record), ts[..n])
      ensures old(tasks).Keys <= tasks.Keys && old(unready) <= unready
      ensures forall i :: 0 <= i < n ==> Waiting(L(), unready, ts[i])
      ensures r.Duplicates? <==> exists i :: 0 <= i < |ts| && ts[i].id in old(tasks)
      ensures r.Duplicates? ==> n == 0 && L() == old(L()) && unready == old(unready)
      ensures r.MissingDependency? ==> n < |ts| && ts[n].dependency !in tasks
      ensures r.Registered? ==> n == |ts|
    {
      if exists i :: 0 <= i < |ts| && ts[i].id in tasks { return Duplicates, 0; }
      for k := 0 to |ts|
        invariant Valid() && emitted == old(emitted) && taken == old(taken)
        invariant record == EnterAll(old(record), ts[..k])
        invariant old(tasks).Keys <= tasks.Keys && old(unready) <= unready
        invariant forall i :: 0 <= i < k ==> Waiting(L(), unready, ts[i])
        invariant forall i :: k <= i < |ts| ==> ts[i].id !in record.history
      {
        if ts[k].dependency !in tasks { return MissingDependency, k; }
        assert ts[..k + 1][..k] == ts[..k];
        assert StoredAt(record, L(), ts[k].id);
        WaitingStays(L(), unready, ts, k);
        RegisterTask(ts[k]);
      }
      assert ts[..|ts|] == ts;
      return Registered, |ts|;
    }

    predicate CanFinish(prereq: nat, task: Task)
      reads this
    {
      task.id in tasks && task.id in unready && prereq in prereqs && prereq !in tasks[task.id].completed
    }

    ghost predicate More(r: Record, r': Record) {
      r.history.Keys == r'.history.Keys && forall i :: i in r.history ==> r.history[i].completed <= r'.history[i].completed
    }

    /** The task was waiting for this prerequisite and waits for it no more. */
    ghost predicate Supplied(r: Record, unready: set<nat>, r': Record, prereq: nat, task: Task) {
      && prereq in prereqs && task.id in unready && task.id in r.history && task.id in r'.history
      && prereq !in r.history[task.id].completed && prereq in r'.history[task.id].completed
    }

    method FinishOne(prereq: nat, task: Task)
      requires Valid() && CanFinish(prereq, task)
      requires task.id in record.history ==> record.history[task.id].task.dependency == task.dependency
      modifies this
      ensures Valid() && old(emitted) <= emitted && taken == old(taken)
      ensures task.id in old(record).history
      ensures record == old(record).(history := WithPrereq(old(record).history, task.id, prereq))
      ensures prereq in record.history[task.id].completed && prereq !in old(record).history[task.id].completed
      ensures unready <= old(unready) && More(old(record), record)
    {
      PrereqMid(record, L(), unready, O(), task.id, prereq);
      assert StoredAt(record, L(), task.id);
      tasks := WithPrereq(tasks, task.id, prereq);
      record := record.(history := WithPrereq(record.history, task.id, prereq));
      assert Cascading(Woken(record, unready, task.id));
      if prereqs <= tasks[task.id].completed && task.dependency !in unready {
        MarkComplete(task.id);
      }
    }

    /** Marks one prerequisite of several tasks complete; the source raises at the first task that is
        unknown, ready, or already has the prerequisite, keeping those before it. */
    method FinishPrereq(prereq: nat, ts: seq<Task>) returns (ok: bool, n: nat)
      requires Valid()
      requires forall i :: 0 <= i < |ts| && ts[i].id in record.history ==> record.history[ts[i].id].task.dependency == ts[i].dependency
      modifies this
      ensures Valid() && old(emitted) <= emitted && taken == old(taken)
      ensures n <= |ts| && record == CompleteAll(old(record), ts[..n], prereq)
      ensures forall i :: 0 <= i < n ==> Supplied(old(record), old(unready), record, prereq, ts[i])
      ensures ok ==> n == |ts|
      ensures !ok ==> tasks == map[] || n < |ts|
      ensures !ok && tasks != map[] && ts[n].id in tasks && ts[n].id in unready && prereq in prereqs ==> prereq in tasks[ts[n].id].completed
    {
      if tasks == map[] { return false, 0; }
      for k := 0 to |ts|
        invariant Valid() && old(emitted) <= emitted && taken == old(taken)
        invariant record == CompleteAll(old(record), ts[..k], prereq)
        invariant unready <= old(unready) && More(old(record), record)
        invariant forall i :: 0 <= i < k ==> Supplied(old(record), old(unready), record, prereq, ts[i])
        invariant forall i :: k <= i < |ts| && ts[i].id in record.history ==> record.history[ts[i].id].task.dependency == ts[i].dependency
      {
        if !CanFinish(prereq, ts[k]) { return false, k; }
        assert ts[..k + 1][..k] == ts[..k];
        FinishOne(prereq, ts[k]);
      }
      assert ts[..|ts|] == ts;
      return true, |ts|;
    }

    /** Hands out all tasks that are ready; the coroutine resumes only when there is one. */
    method ReadyTasks() returns (batch: seq<Task>)
      requires Valid() && readyTasks != []
      modifies `readyTasks, `taken
      ensures Valid()
      ensures batch == old(readyTasks) && readyTasks == [] && taken == |emitted|
      ensures Queued(record, Output(emitted, old(taken), batch))
    {
      batch := readyTasks;
      taken := taken + |readyTasks|;
      readyTasks := [];
      assert forall k: nat :: QueuedAt(record, O(), k);
    }
  }
}
