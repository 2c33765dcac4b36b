/** The books of a queue over whole runs: any calls, in any order, with any answers of the callbacks. */
module QueueRuns {
  import opened Options
  import opened Resources
  import opened TaskQueue

  datatype Call =
    | CallHas(key: string, answer: bool)
    | CallTop(limit: Option<Limit>, retire: Task -> bool, filter: Task -> bool)
    | CallPop(limit: Option<Limit>, retire: Task -> bool, filter: Task -> bool, again: bool)
    | CallPopByKey(key: string, answer: bool, again: bool)
    | CallPush(task: Task, answer: bool, retire: Task -> bool, again: bool)

  datatype Reply = Present(b: bool) | Got(r: Option<Task>) | PushReply(p: PushResult)

  /** The callback gave this task up when asked in the course of the call. */
  predicate Accepts(c: Call, t: Task) {
    match c
    case CallHas(key, answer) => answer && t.key == key
    case CallTop(_, retire, _) => retire(t)
    case CallPop(_, retire, _, _) => retire(t)
    case CallPopByKey(key, answer, _) => answer && t.key == key
    case CallPush(task, answer, retire, _) => (answer && t.key == task.key) || retire(t)
  }

  /** What one call put into the queue, as its reply says. */
  ghost function In(c: Call, r: Reply): multiset<Task> {
    if c.CallPush? && r == PushReply(Pushed) then multiset{c.task} else multiset{}
  }

  /** What one call took out of the queue and handed to the caller, as its reply says. */
  ghost function Out(c: Call, r: Reply): multiset<Task> {
    if (c.CallPop? || c.CallPopByKey?) && r.Got? && r.r.Some? then multiset{r.r.value} else multiset{}
  }

  ghost function AllIn(calls: seq<Call>, replies: seq<Reply>): multiset<Task>
    requires |replies| <= |calls|
  {
    if replies == [] then multiset{}
    else
      var n := |replies| - 1;
      AllIn(calls, replies[..n]) + In(calls[n], replies[n])
  }

  ghost function AllOut(calls: seq<Call>, replies: seq<Reply>): multiset<Task>
    requires |replies| <= |calls|
  {
    if replies == [] then multiset{}
    else
      var n := |replies| - 1;
      AllOut(calls, replies[..n]) + Out(calls[n], replies[n])
  }

  datatype Books = Books(pushed: multiset<Task>, popped: multiset<Task>, retired: multiset<Task>)

  ghost function BooksOf(q: TQueue): Books
    reads q
  {
    Books(q.pushed, q.popped, q.retired)
  }

  /** The books change by what the reply says, and by tasks the callback gave up. */
  ghost predicate Entered(c: Call, r: Reply, b: Books, b': Books) {
    && b'.pushed == b.pushed + In(c, r)
    && b'.popped == b.popped + Out(c, r)
    && forall t :: t in b'.retired ==> t in b.retired || Accepts(c, t)
  }

  /** One call: the queue stays in order. */
  method Perform(q: TQueue, c: Call) returns (r: Reply)
    requires q.Valid()
    modifies q
    ensures q.Valid() && Entered(c, r, old(BooksOf(q)), BooksOf(q))
  {
    match c {
      case CallHas(_, _) => r := PerformHas(q, c);
      case CallTop(_, _, _) => r := PerformTop(q, c);
      case CallPop(_, _, _, _) => r := PerformPop(q, c);
      case CallPopByKey(_, _, _) => r := PerformPopByKey(q, c);
      case CallPush(_, _, _, _) => r := PerformPush(q, c);
    }
  }

  method PerformHas(q: TQueue, c: Call) returns (r: Reply)
    requires q.Valid() && c.CallHas?
    modifies q
    ensures q.Valid() && Entered(c, r, old(BooksOf(q)), BooksOf(q))
  {
    var b := q.Has(c.key, c.answer);
    r := Present(b);
  }

  method PerformTop(q: TQueue, c: Call) returns (r: Reply)
    requires q.Valid() && c.CallTop?
    modifies q
    ensures q.Valid() && Entered(c, r, old(BooksOf(q)), BooksOf(q))
  {
    var t := q.Top(c.limit, c.retire, c.filter);
    r := Got(t);
  }

  method PerformPop(q: TQueue, c: Call) returns (r: Reply)
    requires q.Valid() && c.CallPop?
    modifies q
    ensures q.Valid() && Entered(c, r, old(BooksOf(q)), BooksOf(q))
  {
    var t := q.Pop(c.limit, c.retire, c.filter, c.again);
    r := Got(t);
    assert In(c, r) == multiset{} && Out(c, r) == if t.Some? then multiset{t.value} else multiset{};
  }

  method PerformPopByKey(q: TQueue, c: Call) returns (r: Reply)
    requires q.Valid() && c.CallPopByKey?
    modifies q
    ensures q.Valid() && Entered(c, r, old(BooksOf(q)), BooksOf(q))
  {
    ghost var tasks := q.tasks;
    var t := q.PopByKey(c.key, c.answer, c.again);
    r := Got(t);
    assert In(c, r) == multiset{} && Out(c, r) == if t.Some? then multiset{t.value} else multiset{};
    assert c.key in tasks && c.answer ==> Accepts(c, tasks[c.key]);
  }

  method PerformPush(q: TQueue, c: Call) returns (r: Reply)
    requires q.Valid() && c.CallPush?
    modifies q
    ensures q.Valid() && Entered(c, r, old(BooksOf(q)), BooksOf(q))
  {
    ghost var tasks, b := q.tasks, BooksOf(q);
    var p := q.Push(c.task, c.answer, c.retire, c.again);
    r := PushReply(p);
    if p == Pushed {
      PushAccepts(c, tasks, q.tasks, b.retired, q.retired, |tasks| >= q.cap);
    }
  }

  lemma PushAccepts(c: Call, tasks: TaskMap, tasks': TaskMap,
                    retired: multiset<Task>, retired': multiset<Task>, full: bool)
    requires c.CallPush? && KeyOk(tasks) && (c.task.key in tasks ==> c.answer)
    requires Replaced(tasks, tasks', c.task, retired, retired', c.retire, full)
    ensures forall t :: t in retired' ==> t in retired || Accepts(c, t)
  {
    if c.task.key in tasks {
      assert tasks[c.task.key].key == c.task.key;
    }
  }

  /**
   * After any run from an empty queue, what was pushed with success is, each time it was pushed,
   * still queued, or was handed to a caller of a pop, or was retired; and what was retired the
   * callback gave up in one of the calls. No more than `cap` tasks are queued, and none if it is
   * negative.
   */
  method RunAll(calls: seq<Call>, cap: int) returns (q: TQueue, replies: seq<Reply>)
    ensures q.Valid() && q.cap == cap && Room(q.tasks, cap) && |replies| == |calls|
    ensures AllIn(calls, replies) == Queued(q.tasks) + AllOut(calls, replies) + q.retired
    ensures forall t :: t in q.retired ==> exists i :: 0 <= i < |calls| && Accepts(calls[i], t)
  {
    q := new TQueue(cap);
    replies := [];
    for n := 0 to |calls|
      invariant q.Valid() && fresh(q) && q.cap == cap && |replies| == n
      invariant q.pushed == AllIn(calls, replies) && q.popped == AllOut(calls, replies)
      invariant forall t :: t in q.retired ==> exists i :: 0 <= i < n && Accepts(calls[i], t)
    {
      var r := Perform(q, calls[n]);
      assert (replies + [r])[..n] == replies;
      replies := replies + [r];
    }
  }

  /** So what was pushed once and popped is not queued any more, and nobody gets it twice. */
  lemma PoppedIsGone(calls: seq<Call>, replies: seq<Reply>, tasks: TaskMap, retired: multiset<Task>, t: Task)
    requires |replies| <= |calls|
    requires AllIn(calls, replies) == Queued(tasks) + AllOut(calls, replies) + retired
    requires AllIn(calls, replies)[t] == 1 && t in AllOut(calls, replies)
    ensures t !in Content(tasks) && t !in retired && AllOut(calls, replies)[t] == 1
  {
    assert AllIn(calls, replies)[t] == Queued(tasks)[t] + AllOut(calls, replies)[t] + retired[t];
  }
}
