/**
 * base/gfsptqueue: the task queues. GfSpTQueue is GfSpTQueueWithLimit without the limit test, so
 * one class models both; `limit` is then None. The callbacks may answer anything at any time, so
 * their answers are parameters of each call: a function where one call asks about many tasks, each
 * at most once, a boolean where it asks about one task again. A missing retire callback is one
 * that always answers no, a missing filter one that always answers yes.
 */
module TaskQueue {
  import opened Options
  import opened Resources
  import opened Sorting

  datatype Task = Task(key: string, createTime: int, estimate: Limit)

  datatype PushResult = Pushed | Repeated | Exceeded

  type TaskMap = map<string, Task>

  /** GfSpLimit.NotLess. */
  predicate NotLess(m: Limit, x: Limit) {
    && m.memory >= x.memory && m.fd >= x.fd && m.tasks >= x.tasks
    && m.connsOut >= x.connsOut && m.connsIn >= x.connsIn && m.conns >= x.conns
    && m.tasksHigh >= x.tasksHigh && m.tasksMedium >= x.tasksMedium && m.tasksLow >= x.tasksLow
  }

  predicate Runs(limit: Option<Limit>, t: Task) {
    limit.None? || NotLess(limit.value, t.estimate)
  }

  ghost predicate KeyOk(tasks: TaskMap) {
    forall k :: k in tasks ==> tasks[k].key == k
  }

  /** The tasks a call may return. */
  ghost function Eligible(tasks: TaskMap, limit: Option<Limit>, retire: Task -> bool, filter: Task -> bool): set<Task> {
    set k | k in tasks && !retire(tasks[k]) && Runs(limit, tasks[k]) && filter(tasks[k]) :: tasks[k]
  }

  function Kept(tasks: TaskMap, retire: Task -> bool): TaskMap {
    map k | k in tasks && !retire(tasks[k]) :: tasks[k]
  }

  ghost function Retired(tasks: TaskMap, retire: Task -> bool): set<Task> {
    set k | k in tasks && retire(tasks[k]) :: tasks[k]
  }

  /** t is created first after `current` among the tasks E, or first of all if none is created after it. */
  ghost predicate IsNext(E: set<Task>, current: int, t: Task) {
    && t in E
    && if exists u :: u in E && u.createTime > current
       then t.createTime > current && forall u :: u in E && u.createTime > current ==> t.createTime <= u.createTime
       else forall u :: u in E ==> t.createTime <= u.createTime
  }

  /** A call over the tasks E returned r and moved the cursor: nothing only if there was nothing. */
  ghost predicate Chosen(E: set<Task>, current: int, r: Option<Task>, current': int) {
    match r
    case None => E == {} && current' == current
    case Some(t) => IsNext(E, current, t) && current' == t.createTime
  }

  /** In the fields: what a call may return, and when it returns nothing. */
  lemma ChosenInFields(tasks: TaskMap, limit: Option<Limit>, retire: Task -> bool, filter: Task -> bool,
                       current: int, r: Option<Task>, current': int)
    requires Chosen(Eligible(tasks, limit, retire, filter), current, r, current')
    ensures r.Some? ==>
              var t := r.value;
              && (exists k :: k in tasks && tasks[k] == t) && !retire(t) && filter(t)
              && (limit.Some? ==>
                  var e, m := t.estimate, limit.value;
                  && e.memory <= m.memory && e.fd <= m.fd
                  && e.connsIn <= m.connsIn && e.connsOut <= m.connsOut && e.conns <= m.conns
                  && e.tasksHigh <= m.tasksHigh && e.tasksMedium <= m.tasksMedium && e.tasksLow <= m.tasksLow
                  && e.tasks <= m.tasks)
    ensures r.None? <==>
            forall k :: k in tasks ==>
              || retire(tasks[k]) || !filter(tasks[k])
              || (limit.Some? &&
                  var e, m := tasks[k].estimate, limit.value;
                  || e.memory > m.memory || e.fd > m.fd
                  || e.connsIn > m.connsIn || e.connsOut > m.connsOut || e.conns > m.conns
                  || e.tasksHigh > m.tasksHigh || e.tasksMedium > m.tasksMedium || e.tasksLow > m.tasksLow
                  || e.tasks > m.tasks)
  {
    if r.None? {
      forall k | k in tasks
        ensures retire(tasks[k]) || !filter(tasks[k]) || !Runs(limit, tasks[k])
      {
        assert tasks[k] !in Eligible(tasks, limit, retire, filter);
      }
    }
  }

  /** What stays queued, and what a call books as retired. */
  lemma KeptInFields(tasks: TaskMap, retire: Task -> bool, k: string, t: Task)
    ensures k in Kept(tasks, retire) <==> k in tasks && !retire(tasks[k])
    ensures k in Kept(tasks, retire) ==> Kept(tasks, retire)[k] == tasks[k]
    ensures t in Retired(tasks, retire) <==> retire(t) && exists j :: j in tasks && tasks[j] == t
  {
  }

  /**
   * In the fields: the next task is the one created first after the cursor, or first of all if all
   * were created at or before the cursor.
   */
  lemma NextInFields(E: set<Task>, current: int, t: Task, u: Task)
    requires IsNext(E, current, t) && u in E
    ensures t in E
    ensures current < t.createTime && current < u.createTime ==> t.createTime <= u.createTime
    ensures t.createTime <= current ==> u.createTime <= current && t.createTime <= u.createTime
  {
  }

  /** ScopeStat of a limit: what is asked for when a task is to run. */
  function StatOf(e: Limit): ScopeStat {
    ScopeStat(e.memory, e.tasksHigh, e.tasksMedium, e.tasksLow, e.connsIn, e.connsOut, e.fd)
  }

  /**
   * A task got with what a scope has remaining as the limit asks for no more than that, for nothing
   * of connections and descriptors, and the scope then accepts it.
   */
  lemma GotFitsScope(tasks: TaskMap, l: Limit, u: ScopeStat, retire: Task -> bool, filter: Task -> bool, t: Task)
    requires ValidLimit(l) && InBounds(l, u) && t in Eligible(tasks, Some(Remaining(l, u)), retire, filter)
    ensures var e := t.estimate;
            && u.memory + e.memory <= l.memory
            && u.tasksHigh + e.tasksHigh <= l.tasksHigh && u.tasksMedium + e.tasksMedium <= l.tasksMedium
            && u.tasksLow + e.tasksLow <= l.tasksLow
            && u.tasksHigh + u.tasksMedium + u.tasksLow + e.tasks <= l.tasks
            && e.fd <= 0 && e.connsIn <= 0 && e.connsOut <= 0 && e.conns <= 0
    ensures var e := t.estimate;
            ValidLimit(e) && e.tasksHigh + e.tasksMedium + e.tasksLow <= e.tasks ==> Do(l, u, All(StatOf(e))).Some?
  {
    RemainingInNumbers(l, u);
    var e := t.estimate;
    if ValidLimit(e) && e.tasksHigh + e.tasksMedium + e.tasksLow <= e.tasks {
      AcceptsAllInNumbers(l, u, StatOf(e));
    }
  }

  ghost function Elements(s: seq<Task>): set<Task> {
    set t | t in s
  }

  ghost function Content(tasks: TaskMap): set<Task> {
    set k | k in tasks :: tasks[k]
  }

  ghost function Queued(tasks: TaskMap): multiset<Task> {
    multiset(Content(tasks))
  }

  lemma QueuedWithout(tasks: TaskMap, k: string)
    requires KeyOk(tasks) && k in tasks
    ensures Queued(tasks) == Queued(tasks - {k}) + multiset{tasks[k]}
    ensures KeyOk(tasks - {k})
  {
    forall t | t in Content(tasks)
      ensures t in Content(tasks - {k}) + {tasks[k]}
    {
      var j :| j in tasks && tasks[j] == t;
      if j != k {
        assert j in tasks - {k} && (tasks - {k})[j] == t;
      }
    }
    assert Content(tasks) == Content(tasks - {k}) + {tasks[k]};
    assert tasks[k] !in Content(tasks - {k});
  }

  lemma QueuedWith(tasks: TaskMap, t: Task)
    requires KeyOk(tasks) && t.key !in tasks
    ensures Queued(tasks[t.key := t]) == Queued(tasks) + multiset{t}
    ensures KeyOk(tasks[t.key := t])
  {
    var tasks' := tasks[t.key := t];
    assert tasks' - {t.key} == tasks;
    QueuedWithout(tasks', t.key);
  }

  lemma QueuedSplit(tasks: TaskMap, retire: Task -> bool)
    requires KeyOk(tasks)
    ensures Queued(tasks) == Queued(Kept(tasks, retire)) + multiset(Retired(tasks, retire))
    ensures KeyOk(Kept(tasks, retire)) && |Kept(tasks, retire)| <= |tasks|
  {
    var kept := Kept(tasks, retire);
    forall t | t in Content(tasks)
      ensures t in Content(kept) + Retired(tasks, retire)
    {
      var k :| k in tasks && tasks[k] == t;
      if !retire(t) {
        assert k in kept && kept[k] == t;
      }
    }
    assert Content(tasks) == Content(kept) + Retired(tasks, retire);
    assert Content(kept) !! Retired(tasks, retire);
    assert kept.Keys <= tasks.Keys;
    SmallerSet(kept.Keys, tasks.Keys);
  }

  lemma SmallerSet<T>(a: set<T>, b: set<T>)
    requires a <= b
    ensures |a| <= |b|
  {
    assert b == a + (b - a);
  }

  /** Above `current` starts at `index` of a list sorted by creation time. */
  lemma NextInSorted(sorted: seq<Task>, current: int, index: nat)
    requires index <= |sorted| && sorted != []
    requires forall i, j :: 0 <= i < j < |sorted| ==> sorted[i].createTime <= sorted[j].createTime
    requires forall i :: 0 <= i < index ==> sorted[i].createTime <= current
    requires forall i :: index <= i < |sorted| ==> current < sorted[i].createTime
    ensures IsNext(Elements(sorted), current, sorted[if index == |sorted| then 0 else index])
  {
    if index < |sorted| {
      assert sorted[index] in Elements(sorted);
    }
  }

  ghost predicate Room(tasks: TaskMap, cap: int) {
    |tasks| <= cap || tasks == map[]
  }

  ghost predicate Booked(tasks: TaskMap, pushed: multiset<Task>, popped: multiset<Task>, retired: multiset<Task>) {
    pushed == Queued(tasks) + popped + retired
  }

  /** Taking a task out keeps the queue in order, once the task is booked as popped or as retired. */
  lemma TakeOut(tasks: TaskMap, k: string, cap: int,
                pushed: multiset<Task>, popped: multiset<Task>, retired: multiset<Task>)
    requires KeyOk(tasks) && Room(tasks, cap) && Booked(tasks, pushed, popped, retired) && k in tasks
    ensures KeyOk(tasks - {k}) && Room(tasks - {k}, cap) && |tasks - {k}| < cap
    ensures Booked(tasks - {k}, pushed, popped + multiset{tasks[k]}, retired)
    ensures Booked(tasks - {k}, pushed, popped, retired + multiset{tasks[k]})
  {
    QueuedWithout(tasks, k);
    CountWithout(tasks, k);
  }

  /** Putting a task in below capacity keeps the queue in order, once the task is booked as pushed. */
  lemma PutIn(tasks: TaskMap, t: Task, cap: int,
              pushed: multiset<Task>, popped: multiset<Task>, retired: multiset<Task>)
    requires KeyOk(tasks) && Booked(tasks, pushed, popped, retired) && t.key !in tasks && |tasks| < cap
    ensures KeyOk(tasks[t.key := t]) && Room(tasks[t.key := t], cap)
    ensures Booked(tasks[t.key := t], pushed + multiset{t}, popped, retired)
  {
    QueuedWith(tasks, t);
    CountWith(tasks, t);
  }

  class TQueue {
    const cap: int
    var current: int
    var tasks: TaskMap

    // What happened so far: successful pushes, tasks returned by pops, tasks given up to the callback.
    ghost var pushed: multiset<Task>
    ghost var popped: multiset<Task>
    ghost var retired: multiset<Task>

    /** Every task ever pushed is queued, or was popped, or was retired, once; and there is room for all. */
    ghost predicate Valid()
      reads this
    {
      && KeyOk(tasks)
      && Room(tasks, cap)
      && Booked(tasks, pushed, popped, retired)
    }

    constructor (cap: int)
      ensures Valid() && this.cap == cap && tasks == map[] && current == 0
      ensures pushed == popped == retired == multiset{}
    {
      this.cap, current, tasks := cap, 0, map[];
      pushed, popped, retired := multiset{}, multiset{}, multiset{};
    }

    // ----- the unexported operations -----------------------------------------------------------

    /** has: asks the callback about a task that is there, and drops the task on a yes. */
    method HasKey(key: string, answer: bool) returns (present: bool)
      requires KeyOk(tasks)
      modifies this`tasks
      ensures present <==> key in old(tasks) && !answer
      ensures tasks == if key in old(tasks) && answer then old(tasks) - {key} else old(tasks)
    {
      present := key in tasks;
      if present && answer {
        tasks := tasks - {tasks[key].key};
        return false;
      }
    }

    /** delete: asks again, and drops the task whatever the answer. */
    method Delete(task: Task, again: bool)
      requires KeyOk(tasks)
      modifies this`tasks
      ensures tasks == old(tasks) - {task.key}
    {
      var present := HasKey(task.key, again);
      if !present {
        assert task.key !in old(tasks) ==> old(tasks) - {task.key} == old(tasks);
        return;
      }
      tasks := tasks - {task.key};
    }

    /** top and topByLimit: scan, sort, search; the tasks the callback gives up are dropped at the end. */
    method Select(limit: Option<Limit>, retire: Task -> bool, filter: Task -> bool) returns (r: Option<Task>)
      requires KeyOk(tasks)
      modifies this`tasks, this`current
      ensures tasks == Kept(old(tasks), retire)
      ensures Chosen(Eligible(old(tasks), limit, retire, filter), old(current), r, current)
      ensures r.Some? ==>
                var t := r.value;
                && (exists k :: k in old(tasks) && old(tasks)[k] == t) && !retire(t) && filter(t)
                && (limit.Some? ==>
                    var e, m := t.estimate, limit.value;
                    && e.memory <= m.memory && e.fd <= m.fd
                    && e.connsIn <= m.connsIn && e.connsOut <= m.connsOut && e.conns <= m.conns
                    && e.tasksHigh <= m.tasksHigh && e.tasksMedium <= m.tasksMedium && e.tasksLow <= m.tasksLow
                    && e.tasks <= m.tasks)
      ensures r.None? <==>
              forall k :: k in old(tasks) ==>
                || retire(old(tasks)[k]) || !filter(old(tasks)[k])
                || (limit.Some? &&
                    var e, m := old(tasks)[k].estimate, limit.value;
                    || e.memory > m.memory || e.fd > m.fd
                    || e.connsIn > m.connsIn || e.connsOut > m.connsOut || e.conns > m.conns
                    || e.tasksHigh > m.tasksHigh || e.tasksMedium > m.tasksMedium || e.tasksLow > m.tasksLow
                    || e.tasks > m.tasks)
    {
      var backup, gc := Scan(limit, retire, filter);
      if backup == [] {
        r := None;
      } else {
        var t := PickNext(backup);
        current := t.createTime;
        r := Some(t);
        NextOfAll(backup, Eligible(old(tasks), limit, retire, filter), old(current), t);
      }
      DropAll(gc);
      DroppedIsRetired(old(tasks), retire, gc);
      ChosenInFields(old(tasks), limit, retire, filter, old(current), r, current);
    }

    /** The loop over the map, in whatever order. */
    method Scan(limit: Option<Limit>, retire: Task -> bool, filter: Task -> bool)
      returns (backup: seq<Task>, gc: seq<Task>)
      requires KeyOk(tasks)
      ensures forall t :: t in backup <==> t in Eligible(tasks, limit, retire, filter)
      ensures forall t :: t in gc <==> t in Retired(tasks, retire)
    {
      backup, gc := [], [];
      var rest := tasks.Keys;
      ghost var seen: set<string> := {};
      while rest != {}
        invariant seen + rest == tasks.Keys
        invariant forall t :: t in backup <==>
                    exists k :: k in seen && k in tasks && tasks[k] == t && !retire(t) && Runs(limit, t) && filter(t)
        invariant forall t :: t in gc <==> exists k :: k in seen && k in tasks && tasks[k] == t && retire(t)
      {
        var key :| key in rest;
        var t := tasks[key];
        rest, seen := rest - {key}, seen + {key};
        if retire(t) {
          gc := gc + [t];
        } else if Runs(limit, t) && filter(t) {
          backup := backup + [t];
        }
      }
      assert seen == tasks.Keys;
    }

    method PickNext(backup: seq<Task>) returns (t: Task)
      requires backup != []
      ensures IsNext(Elements(backup), current, t)
    {
      var byTime := (a: Task, b: Task) => a.createTime <= b.createTime;
      var sorted := Sort(backup, byTime);
      SameElements(sorted, backup);
      assert forall i, j :: 0 <= i < j < |sorted| ==> byTime(sorted[i], sorted[j]);
      var times := seq(|sorted|, i requires 0 <= i < |sorted| => sorted[i].createTime);
      assert forall i :: 0 <= i < |sorted| ==> times[i] == sorted[i].createTime;
      var index := SearchAbove(times, current);
      assert forall i :: 0 <= i < index ==> times[i] <= current;
      NextInSorted(sorted, current, index);
      if index == |sorted| {
        index := 0;
      }
      t := sorted[index];
    }

    method DropAll(gc: seq<Task>)
      modifies this`tasks
      ensures tasks == Without(old(tasks), gc)
    {
      for n := 0 to |gc|
        invariant tasks == Without(old(tasks), gc[..n])
      {
        tasks := tasks - {gc[n].key};
        assert gc[..n + 1] == gc[..n] + [gc[n]];
        WithoutNext(old(tasks), gc[..n], gc[n]);
      }
      assert gc[..|gc|] == gc;
    }

    /** The loop of Push over the sorted keys, which ends with the first task the callback gives up. */
    method RetireOne(retire: Task -> bool, again: bool) returns (victim: Option<Task>)
      requires KeyOk(tasks)
      modifies this`tasks
      ensures victim.None? ==> tasks == old(tasks) && forall k :: k in tasks ==> !retire(tasks[k])
      ensures victim.Some? ==>
                var v := victim.value;
                && v.key in old(tasks) && old(tasks)[v.key] == v && retire(v)
                && tasks == old(tasks) - {v.key}
                && forall k :: k in old(tasks) && retire(old(tasks)[k]) ==> StringLe(v.key, k)
    {
      var keys := SortedKeys(tasks);
      for n := 0 to |keys|
        invariant tasks == old(tasks)
        invariant forall i :: 0 <= i < n ==> keys[i] in tasks && !retire(tasks[keys[i]])
      {
        assert keys[n] in tasks;
        var t := tasks[keys[n]];
        if retire(t) {
          Delete(t, again);
          forall k | k in old(tasks) && retire(old(tasks)[k])
            ensures StringLe(t.key, k)
          {
            var i :| 0 <= i < |keys| && keys[i] == k;
            if i == n {
              StringLeTotal(k, k);
            }
          }
          return Some(t);
        }
      }
      assert forall k :: k in tasks ==> k in keys;
      return None;
    }

    // ----- the queue ---------------------------------------------------------------------------

    /** Has: a retired task is not there. */
    method Has(key: string, answer: bool) returns (present: bool)
      requires Valid()
      modifies this
      ensures Valid() && pushed == old(pushed) && popped == old(popped) && current == old(current)
      ensures present <==> key in old(tasks) && !answer
      ensures tasks == if key in old(tasks) && answer then old(tasks) - {key} else old(tasks)
      ensures retired == if key in old(tasks) && answer then old(retired) + multiset{old(tasks)[key]} else old(retired)
      ensures key in old(tasks) && answer ==> |tasks| < cap
    {
      present := HasKey(key, answer);
      if key in old(tasks) && answer {
        TakeOut(old(tasks), key, cap, pushed, popped, retired);
        retired := retired + multiset{old(tasks)[key]};
      }
    }

    /** Top and TopByLimit. */
    method Top(limit: Option<Limit>, retire: Task -> bool, filter: Task -> bool) returns (r: Option<Task>)
      requires Valid()
      modifies this
      ensures Valid() && pushed == old(pushed) && popped == old(popped)
      ensures tasks == Kept(old(tasks), retire)
      ensures retired == old(retired) + multiset(Retired(old(tasks), retire))
      ensures Chosen(Eligible(old(tasks), limit, retire, filter), old(current), r, current)
      ensures r.Some? ==>
                var t := r.value;
                && (exists k :: k in old(tasks) && old(tasks)[k] == t) && !retire(t) && filter(t)
                && (limit.Some? ==>
                    var e, m := t.estimate, limit.value;
                    && e.memory <= m.memory && e.fd <= m.fd
                    && e.connsIn <= m.connsIn && e.connsOut <= m.connsOut && e.conns <= m.conns
                    && e.tasksHigh <= m.tasksHigh && e.tasksMedium <= m.tasksMedium && e.tasksLow <= m.tasksLow
                    && e.tasks <= m.tasks)
      ensures r.None? <==>
              forall k :: k in old(tasks) ==>
                || retire(old(tasks)[k]) || !filter(old(tasks)[k])
                || (limit.Some? &&
                    var e, m := old(tasks)[k].estimate, limit.value;
                    || e.memory > m.memory || e.fd > m.fd
                    || e.connsIn > m.connsIn || e.connsOut > m.connsOut || e.conns > m.conns
                    || e.tasksHigh > m.tasksHigh || e.tasksMedium > m.tasksMedium || e.tasksLow > m.tasksLow
                    || e.tasks > m.tasks)
    {
      r := Select(limit, retire, filter);
      QueuedSplit(old(tasks), retire);
      retired := retired + multiset(Retired(old(tasks), retire));
    }

    /** Pop and PopByLimit: what Top would return, and that task is gone. */
    method Pop(limit: Option<Limit>, retire: Task -> bool, filter: Task -> bool, again: bool) returns (r: Option<Task>)
      requires Valid()
      modifies this
      ensures Valid() && pushed == old(pushed)
      ensures retired == old(retired) + multiset(Retired(old(tasks), retire))
      ensures popped == if r.Some? then old(popped) + multiset{r.value} else old(popped)
      ensures tasks == if r.Some? then Kept(old(tasks), retire) - {r.value.key} else Kept(old(tasks), retire)
      ensures Chosen(Eligible(old(tasks), limit, retire, filter), old(current), r, current)
      ensures r.Some? ==>
                var t := r.value;
                && (exists k :: k in old(tasks) && old(tasks)[k] == t) && !retire(t) && filter(t)
                && (limit.Some? ==>
                    var e, m := t.estimate, limit.value;
                    && e.memory <= m.memory && e.fd <= m.fd
                    && e.connsIn <= m.connsIn && e.connsOut <= m.connsOut && e.conns <= m.conns
                    && e.tasksHigh <= m.tasksHigh && e.tasksMedium <= m.tasksMedium && e.tasksLow <= m.tasksLow
                    && e.tasks <= m.tasks)
      ensures r.None? <==>
              forall k :: k in old(tasks) ==>
                || retire(old(tasks)[k]) || !filter(old(tasks)[k])
                || (limit.Some? &&
                    var e, m := old(tasks)[k].estimate, limit.value;
                    || e.memory > m.memory || e.fd > m.fd
                    || e.connsIn > m.connsIn || e.connsOut > m.connsOut || e.conns > m.conns
                    || e.tasksHigh > m.tasksHigh || e.tasksMedium > m.tasksMedium || e.tasksLow > m.tasksLow
                    || e.tasks > m.tasks)
    {
      r := Top(limit, retire, filter);
      if r.Some? {
        assert r.value in Eligible(old(tasks), limit, retire, filter);
        Take(r.value, again);
      }
    }

    /** PopByKey: the callback may give the task up instead. */
    method PopByKey(key: string, answer: bool, again: bool) returns (r: Option<Task>)
      requires Valid()
      modifies this
      ensures Valid() && pushed == old(pushed) && current == old(current)
      ensures tasks == old(tasks) - {key}
      ensures r == if key in old(tasks) && !answer then Some(old(tasks)[key]) else None
      ensures popped == if r.Some? then old(popped) + multiset{r.value} else old(popped)
      ensures retired == if key in old(tasks) && answer then old(retired) + multiset{old(tasks)[key]} else old(retired)
    {
      var present := Has(key, answer);
      if !present {
        assert key !in old(tasks) ==> old(tasks) - {key} == old(tasks);
        return None;
      }
      r := Some(tasks[key]);
      Take(tasks[key], again);
    }

    method Take(t: Task, again: bool)
      requires Valid() && t.key in tasks && tasks[t.key] == t
      modifies this`tasks, this`popped
      ensures Valid() && tasks == old(tasks) - {t.key} && popped == old(popped) + multiset{t}
    {
      TakeOut(tasks, t.key, cap, pushed, popped, retired);
      Delete(t, again);
      popped := popped + multiset{t};
    }

    /** add: the callback is not asked, as there is no task of that key. */
    method Add(t: Task)
      requires Valid() && t.key !in tasks && |tasks| < cap
      modifies this`tasks, this`pushed
      ensures Valid() && tasks == old(tasks)[t.key := t] && pushed == old(pushed) + multiset{t}
    {
      PutIn(tasks, t, cap, pushed, popped, retired);
      tasks := tasks[t.key := t];
      pushed := pushed + multiset{t};
    }

    /**
     * Push: refused for a key that stays in the queue, and for a full queue in which the callback
     * gives nothing up; otherwise the task is queued, and at most one other, given up, is gone.
     */
    method Push(task: Task, answer: bool, retire: Task -> bool, again: bool) returns (r: PushResult)
      requires Valid()
      modifies this
      ensures Valid() && popped == old(popped) && current == old(current)
      ensures r == Repeated <==> task.key in old(tasks) && !answer
      ensures r == Exceeded <==>
              task.key !in old(tasks) && |old(tasks)| >= cap && forall k :: k in old(tasks) ==> !retire(old(tasks)[k])
      ensures r != Pushed ==> tasks == old(tasks) && pushed == old(pushed) && retired == old(retired)
      ensures r == Pushed ==> pushed == old(pushed) + multiset{task}
      ensures r == Pushed ==>
                Replaced(old(tasks), tasks, task, old(retired), retired, retire, |old(tasks)| >= cap)
    {
      var present := Has(task.key, answer);
      if present {
        return Repeated;
      }
      ghost var tasks0, retired0 := tasks, retired;
      r := PushAbsent(task, retire, again);
      if r == Pushed {
        ReplacedTwice(old(tasks), tasks0, tasks, task, old(retired), retired0, retired, retire, cap);
      }
    }

    /** The rest of Push, when no task of that key is there. */
    method PushAbsent(task: Task, retire: Task -> bool, again: bool) returns (r: PushResult)
      requires Valid() && task.key !in tasks
      modifies this`tasks, this`retired, this`pushed
      ensures Valid() && r != Repeated
      ensures r == Exceeded <==> |old(tasks)| >= cap && forall k :: k in old(tasks) ==> !retire(old(tasks)[k])
      ensures r == Exceeded ==> tasks == old(tasks) && pushed == old(pushed) && retired == old(retired)
      ensures r == Pushed ==> pushed == old(pushed) + multiset{task}
      ensures r == Pushed ==> Replaced(old(tasks), tasks, task, old(retired), retired, retire, |old(tasks)| >= cap)
    {
      if |tasks| < cap {
        Add(task);
        return Pushed;
      }
      ghost var k;
      var freed;
      freed, k := MakeRoom(retire, again);
      if freed {
        Add(task);
        assert Gave(old(tasks), tasks, task, old(retired), retired, retire, k);
        r := Pushed;
      } else {
        r := Exceeded;
      }
    }

    /** A full queue gives one task up, if the callback lets it. */
    method MakeRoom(retire: Task -> bool, again: bool) returns (freed: bool, ghost k: string)
      requires Valid() && |tasks| >= cap
      modifies this`tasks, this`retired
      ensures Valid()
      ensures freed <==> exists k :: k in old(tasks) && retire(old(tasks)[k])
      ensures !freed ==> tasks == old(tasks) && retired == old(retired)
      ensures freed ==>
                && |tasks| < cap && IsVictim(old(tasks), retire, k)
                && tasks == old(tasks) - {k} && retired == old(retired) + multiset{old(tasks)[k]}
    {
      k := "";
      var victim := RetireOne(retire, again);
      freed := victim.Some?;
      if freed {
        k := victim.value.key;
        TakeOut(old(tasks), k, cap, pushed, popped, retired);
        retired := retired + multiset{victim.value};
      }
    }
  }

  /**
   * The task is in. The one of its own key is retired if there was one, else the first in key order
   * that the callback gives up if the queue was full, and otherwise none; all others are where they were.
   */
  ghost predicate Replaced(tasks: TaskMap, tasks': TaskMap, t: Task, retired: multiset<Task>, retired': multiset<Task>,
                           retire: Task -> bool, full: bool) {
    if t.key in tasks then
      tasks' == tasks[t.key := t] && retired' == retired + multiset{tasks[t.key]}
    else if full then
      exists k :: Gave(tasks, tasks', t, retired, retired', retire, k)
    else
      tasks' == tasks[t.key := t] && retired' == retired
  }

  ghost predicate Gave(tasks: TaskMap, tasks': TaskMap, t: Task, retired: multiset<Task>, retired': multiset<Task>,
                       retire: Task -> bool, k: string) {
    IsVictim(tasks, retire, k) && tasks' == (tasks - {k})[t.key := t] && retired' == retired + multiset{tasks[k]}
  }

  /** k is the least key whose task the callback gives up. */
  ghost predicate IsVictim(tasks: TaskMap, retire: Task -> bool, k: string) {
    && k in tasks && retire(tasks[k])
    && forall j :: j in tasks && retire(tasks[j]) ==> StringLe(k, j)
  }

  lemma ReplacedTwice(tasks: TaskMap, tasks0: TaskMap, tasks': TaskMap, t: Task,
                      retired: multiset<Task>, retired0: multiset<Task>, retired': multiset<Task>,
                      retire: Task -> bool, cap: int)
    requires if t.key in tasks
             then tasks0 == tasks - {t.key} && retired0 == retired + multiset{tasks[t.key]} && |tasks0| < cap
             else tasks0 == tasks && retired0 == retired
    requires Replaced(tasks0, tasks', t, retired0, retired', retire, |tasks0| >= cap)
    ensures Replaced(tasks, tasks', t, retired, retired', retire, |tasks| >= cap)
  {
    AddAgain(tasks, t);
  }

  lemma AddAgain(tasks: TaskMap, t: Task)
    ensures (tasks - {t.key})[t.key := t] == tasks[t.key := t]
  {
  }

  lemma CountWithout(tasks: TaskMap, k: string)
    requires k in tasks
    ensures |tasks - {k}| == |tasks| - 1
  {
    assert (tasks - {k}).Keys == tasks.Keys - {k};
  }

  lemma CountWith(tasks: TaskMap, t: Task)
    requires t.key !in tasks
    ensures |tasks[t.key := t]| == |tasks| + 1
  {
    assert tasks[t.key := t].Keys == tasks.Keys + {t.key};
  }

  /** maps.SortKeys. */
  method SortedKeys(tasks: TaskMap) returns (keys: seq<string>)
    ensures forall k :: k in keys <==> k in tasks
    ensures SortedBy(keys, StringLe)
  {
    var rest, found := tasks.Keys, [];
    while rest != {}
      invariant forall k :: k in tasks <==> k in rest || k in found
    {
      var k :| k in rest;
      rest, found := rest - {k}, found + [k];
    }
    StringOrder();
    keys := Sort(found, StringLe);
    assert forall k :: k in keys <==> k in multiset(keys);
    assert forall k :: k in found <==> k in multiset(found);
  }

  lemma WithoutNext(tasks: TaskMap, gc: seq<Task>, t: Task)
    ensures Without(tasks, gc + [t]) == Without(tasks, gc) - {t.key}
  {
    var gc' := gc + [t];
    assert gc'[|gc|] == t;
    assert forall i :: 0 <= i < |gc| ==> gc'[i] == gc[i];
  }

  function Without(tasks: TaskMap, gc: seq<Task>): TaskMap {
    map k | k in tasks && (forall i :: 0 <= i < |gc| ==> gc[i].key != k) :: tasks[k]
  }

  lemma DroppedIsRetired(tasks: TaskMap, retire: Task -> bool, gc: seq<Task>)
    requires KeyOk(tasks)
    requires forall t :: t in gc <==> t in Retired(tasks, retire)
    ensures Without(tasks, gc) == Kept(tasks, retire)
  {
    forall k | k in tasks
      ensures retire(tasks[k]) <==> exists i :: 0 <= i < |gc| && gc[i].key == k
    {
      if retire(tasks[k]) {
        assert tasks[k] in gc;
      }
      if i :| 0 <= i < |gc| && gc[i].key == k {
        assert gc[i] in Retired(tasks, retire);
      }
    }
  }

  lemma SameElements(a: seq<Task>, b: seq<Task>)
    requires multiset(a) == multiset(b)
    ensures Elements(a) == Elements(b) && |a| == |b|
  {
    assert |multiset(a)| == |a| && |multiset(b)| == |b|;
    assert forall t :: t in a <==> t in multiset(a);
    assert forall t :: t in b <==> t in multiset(b);
  }

  lemma NextOfAll(backup: seq<Task>, E: set<Task>, current: int, t: Task)
    requires forall u :: u in backup <==> u in E
    requires IsNext(Elements(backup), current, t)
    ensures IsNext(E, current, t)
  {
    assert Elements(backup) == E;
  }
}
