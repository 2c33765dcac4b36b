/**
 * base/gfsprcmgr/resource.go: the counters of one scope and the local arithmetic on them.
 * `resources` is embedded by value in a scope, so it is a value here (ScopeStat, which is also
 * what stat() returns) and the scope class reassigns the field that holds it.
 */
module Resources {
  import opened MachineInt
  import opened Options

  datatype Limit = Limit(
    memory: int, fd: int, connsIn: int, connsOut: int, conns: int,
    tasksHigh: int, tasksMedium: int, tasksLow: int, tasks: int)

  datatype ScopeStat = ScopeStat(
    memory: int, tasksHigh: int, tasksMedium: int, tasksLow: int,
    connsIn: int, connsOut: int, fd: int)

  datatype TaskPriority = UnknownPriority | High | Medium | Low

  datatype Direction = UnknownDirection | Inbound | Outbound

  const ALWAYS: int := 255  // ReservationPriorityAlways, core/rcmgr/rcmgr.go

  const NO_USE := ScopeStat(0, 0, 0, 0, 0, 0, 0)

  /** Limits as configured: int32 counts, and a memory limit other than the MaxInt64 escape. */
  predicate ValidLimit(l: Limit) {
    && 0 <= l.memory < MAX_INT64
    && 0 <= l.fd <= MAX_INT32
    && 0 <= l.connsIn <= MAX_INT32
    && 0 <= l.connsOut <= MAX_INT32
    && 0 <= l.conns <= MAX_INT32
    && 0 <= l.tasksHigh <= MAX_INT32
    && 0 <= l.tasksMedium <= MAX_INT32
    && 0 <= l.tasksLow <= MAX_INT32
    && 0 <= l.tasks <= MAX_INT32
  }

  predicate NonNegative(u: ScopeStat) {
    && 0 <= u.memory
    && 0 <= u.tasksHigh && 0 <= u.tasksMedium && 0 <= u.tasksLow
    && 0 <= u.connsIn && 0 <= u.connsOut && 0 <= u.fd
  }

  /** The hard limits: what a scope may ever hold. */
  predicate InBounds(l: Limit, u: ScopeStat) {
    && NonNegative(u)
    && u.memory <= l.memory
    && u.tasksHigh <= l.tasksHigh && u.tasksMedium <= l.tasksMedium && u.tasksLow <= l.tasksLow
    && u.tasksHigh + u.tasksMedium + u.tasksLow <= l.tasks
    && u.connsIn <= l.connsIn && u.connsOut <= l.connsOut && u.connsIn + u.connsOut <= l.conns
    && u.fd <= l.fd
  }

  function Plus(u: ScopeStat, d: ScopeStat): ScopeStat {
    ScopeStat(u.memory + d.memory,
              u.tasksHigh + d.tasksHigh, u.tasksMedium + d.tasksMedium, u.tasksLow + d.tasksLow,
              u.connsIn + d.connsIn, u.connsOut + d.connsOut, u.fd + d.fd)
  }

  function Monus(a: int, b: int): int {
    if a < b then 0 else a - b
  }

  /** Release, stopping at zero in every counter. */
  function Minus(u: ScopeStat, d: ScopeStat): ScopeStat {
    ScopeStat(Monus(u.memory, d.memory),
              Monus(u.tasksHigh, d.tasksHigh), Monus(u.tasksMedium, d.tasksMedium),
              Monus(u.tasksLow, d.tasksLow),
              Monus(u.connsIn, d.connsIn), Monus(u.connsOut, d.connsOut), Monus(u.fd, d.fd))
  }

  // ----- memory --------------------------------------------------------------------------------

  datatype MemoryCheck = Accepted | NegativeRequest | LimitExceeded

  /** checkMemory, lines 83-96: int64 product when it fits, big.Int otherwise. */
  function Threshold(limit: int, prio: int): int
    requires IsInt64(limit) && 0 <= prio <= 255
  {
    var (product, fits) := MulWithOverflow(1 + prio, limit);
    if fits then
      Div64(product, 256)
    else
      var big := limit * (1 + prio) / 256;
      if IsInt64(big) then big else limit
  }

  function CheckMemory(limit: int, memory: int, rsvp: int, prio: int): MemoryCheck
    requires IsInt64(limit) && IsInt64(memory) && IsInt64(rsvp) && 0 <= prio <= 255
  {
    if rsvp < 0 then NegativeRequest
    else if limit == MAX_INT64 then Accepted
    else
      var (newMem, addOk) := AddWithOverflow(memory, rsvp);
      if !addOk || newMem > Threshold(limit, prio) then LimitExceeded else Accepted
  }

  /**
   * Both threshold paths compute floor(limit * (1 + prio) / 256) over unbounded integers, that
   * value never exceeds the limit, and so the fallback to the limit itself is never needed.
   */
  lemma ThresholdExact(limit: int, prio: int)
    requires 0 <= limit <= MAX_INT64 && 0 <= prio <= 255
    ensures Threshold(limit, prio) == limit * (1 + prio) / 256
    ensures MulWithOverflow(1 + prio, limit).1 <==> (1 + prio) * limit <= MAX_INT64
    ensures 0 <= limit * (1 + prio) / 256 <= limit
    ensures IsInt64(limit * (1 + prio) / 256)
    ensures prio == ALWAYS ==> Threshold(limit, prio) == limit
  {
    var p := (1 + prio) * limit;
    assert 0 <= p <= 256 * limit by { ShareOfLimit(limit, prio); }
    assert limit * (1 + prio) == p;
    MulWithOverflowExact(1 + prio, limit);
  }

  lemma ShareOfLimit(limit: int, prio: int)
    requires 0 <= limit && 0 <= prio <= 255
    ensures 0 <= (1 + prio) * limit <= 256 * limit
  {
    assert 256 * limit - (1 + prio) * limit == (255 - prio) * limit;
  }

  /**
   * checkMemory decides the unbounded-integer inequality, for every request and priority; with the
   * limit MaxInt64 it only looks at the sign.
   */
  lemma CheckMemoryExact(limit: int, memory: int, rsvp: int, prio: int)
    requires 0 <= limit <= MAX_INT64
    requires 0 <= memory <= MAX_INT64 && IsInt64(rsvp) && 0 <= prio <= 255
    ensures CheckMemory(limit, memory, rsvp, prio) == NegativeRequest <==> rsvp < 0
    ensures CheckMemory(limit, memory, rsvp, prio) == Accepted <==>
            0 <= rsvp && (limit == MAX_INT64 || memory + rsvp <= limit * (1 + prio) / 256)
  {
    ThresholdExact(limit, prio);
  }

  /** The documented rule: (1 + prio) / 256 of the limit is still available. */
  predicate ShareAvailable(limit: int, memory: int, prio: int) {
    (limit - memory) * 256 >= limit * (1 + prio)
  }

  /**
   * A reservation is documented to fail if less than that share is available. It does so for every
   * request exactly if the share is available anyway, or so much is in use that nothing is accepted.
   */
  lemma AvailableRuleIff(limit: int, memory: int, prio: int)
    requires 0 <= limit <= MAX_INT64 && 0 <= memory <= MAX_INT64 && 0 <= prio <= 255
    ensures (forall r :: IsInt64(r) && CheckMemory(limit, memory, r, prio) == Accepted ==>
               ShareAvailable(limit, memory, prio)) <==>
            || ShareAvailable(limit, memory, prio)
            || (limit < MAX_INT64 && memory > limit * (1 + prio) / 256)
  {
    CheckMemoryExact(limit, memory, 0, prio);
    forall r | IsInt64(r) && CheckMemory(limit, memory, r, prio) == Accepted
      ensures limit == MAX_INT64 || memory <= limit * (1 + prio) / 256
    {
      CheckMemoryExact(limit, memory, r, prio);
    }
  }

  /** At the highest priority the last 56 of 256 bytes are granted, though all would have to be available. */
  lemma AvailableRuleFails()
    ensures CheckMemory(256, 200, 56, 255) == Accepted && !ShareAvailable(256, 200, 255)
  {
    CheckMemoryExact(256, 200, 56, 255);
  }

  function ReserveMemory(l: Limit, u: ScopeStat, size: int, prio: int): Option<ScopeStat>
    requires IsInt64(l.memory) && IsInt64(u.memory) && IsInt64(size) && 0 <= prio <= 255
  {
    if CheckMemory(l.memory, u.memory, size, prio) == Accepted
    then Some(u.(memory := Wrap64(u.memory + size)))
    else None
  }

  function Drop(a: int, b: int): int {
    var c := Wrap64(a - b);
    if c < 0 then 0 else c
  }

  function ReleaseMemory(u: ScopeStat, size: int): ScopeStat {
    u.(memory := Drop(u.memory, size))
  }

  /**
   * A release of any amount, negative ones included, leaves a counter within its limit exactly when
   * the difference is, or when it overflows int64 and is then set to zero.
   */
  lemma DropWithinLimit(limit: int, a: int, b: int)
    requires 0 <= a <= limit <= MAX_INT64 && IsInt64(b)
    ensures 0 <= Drop(a, b) <= limit <==> a - b <= limit || a - b > MAX_INT64
  {
    assert Wrap64(a - b) == if a - b > MAX_INT64 then a - b - TWO_64 else a - b;
  }

  // ----- tasks ---------------------------------------------------------------------------------

  function AddTasks(l: Limit, u: ScopeStat, high: int, medium: int, low: int): Option<ScopeStat> {
    if Wrap64(u.tasksHigh + u.tasksMedium + u.tasksLow + high + medium + low) > l.tasks then None
    else if Wrap64(high + u.tasksHigh) > l.tasksHigh then None
    else if Wrap64(medium + u.tasksMedium) > l.tasksMedium then None
    else if Wrap64(low + u.tasksLow) > l.tasksLow then None
    else Some(u.(tasksHigh := Wrap64(u.tasksHigh + high),
                 tasksMedium := Wrap64(u.tasksMedium + medium),
                 tasksLow := Wrap64(u.tasksLow + low)))
  }

  /** Every priority other than high and medium is counted as low ... */
  function AddTask(l: Limit, u: ScopeStat, num: int, prio: TaskPriority): Option<ScopeStat> {
    match prio
    case High => AddTasks(l, u, num, 0, 0)
    case Medium => AddTasks(l, u, 0, num, 0)
    case _ => AddTasks(l, u, 0, 0, num)
  }

  function RemoveTasks(u: ScopeStat, high: int, medium: int, low: int): ScopeStat {
    u.(tasksHigh := Drop(u.tasksHigh, high),
       tasksMedium := Drop(u.tasksMedium, medium),
       tasksLow := Drop(u.tasksLow, low))
  }

  /** ... but only the three named priorities are ever removed. */
  function RemoveTask(u: ScopeStat, num: int, prio: TaskPriority): ScopeStat {
    match prio
    case High => RemoveTasks(u, num, 0, 0)
    case Medium => RemoveTasks(u, 0, num, 0)
    case Low => RemoveTasks(u, 0, 0, num)
    case UnknownPriority => u
  }

  function TaskCount(u: ScopeStat, prio: TaskPriority): int {
    match prio
    case High => u.tasksHigh
    case Medium => u.tasksMedium
    case _ => u.tasksLow
  }

  /**
   * addTasks does not guard its sums against int64 overflow, nor against negative numbers. The scope
   * stays inside its hard limits exactly when the counter it adds to neither overflows nor gets
   * negative.
   */
  lemma AddTaskOverflow(l: Limit, u: ScopeStat, num: int, prio: TaskPriority)
    requires ValidLimit(l) && InBounds(l, u) && IsInt64(num)
    ensures (AddTask(l, u, num, prio).Some? ==> InBounds(l, AddTask(l, u, num, prio).value))
            <==> 0 <= TaskCount(u, prio) + num <= MAX_INT64
  {
    if num < 0 {
      NegativeAccepted(l, u, num, prio);
    } else if TaskCount(u, prio) + num <= MAX_INT64 {
      NoOverflow(l, u, num, prio);
    } else {
      OverflowAccepted(l, u, num, prio);
    }
  }

  lemma NegativeAccepted(l: Limit, u: ScopeStat, num: int, prio: TaskPriority)
    requires ValidLimit(l) && InBounds(l, u) && MIN_INT64 <= num < 0
    ensures AddTask(l, u, num, prio).Some?
    ensures InBounds(l, AddTask(l, u, num, prio).value) <==> TaskCount(u, prio) + num >= 0
  {
  }

  lemma NoOverflow(l: Limit, u: ScopeStat, num: int, prio: TaskPriority)
    requires ValidLimit(l) && InBounds(l, u) && 0 <= num && TaskCount(u, prio) + num <= MAX_INT64
    ensures AddTask(l, u, num, prio).Some? ==> InBounds(l, AddTask(l, u, num, prio).value)
  {
    match prio
    case High => OneCounterOverflow(l.tasks, l.tasksHigh, u.tasksHigh, u.tasksMedium + u.tasksLow, num);
    case Medium => OneCounterOverflow(l.tasks, l.tasksMedium, u.tasksMedium, u.tasksHigh + u.tasksLow, num);
    case _ => OneCounterOverflow(l.tasks, l.tasksLow, u.tasksLow, u.tasksHigh + u.tasksMedium, num);
  }

  lemma OverflowAccepted(l: Limit, u: ScopeStat, num: int, prio: TaskPriority)
    requires ValidLimit(l) && InBounds(l, u) && num <= MAX_INT64 < TaskCount(u, prio) + num
    ensures AddTask(l, u, num, prio).Some? && TaskCount(AddTask(l, u, num, prio).value, prio) < 0
  {
    var total := u.tasksHigh + u.tasksMedium + u.tasksLow;
    OneCounterOverflow(l.tasks, MAX_INT32, TaskCount(u, prio), total - TaskCount(u, prio), num);
    assert Wrap64(total + num) < 0 && Wrap64(TaskCount(u, prio) + num) < 0;
  }

  lemma OneCounterOverflow(totalLimit: int, limit: int, before: int, others: int, num: int)
    requires 0 <= limit <= MAX_INT32 && 0 <= totalLimit <= MAX_INT32
    requires 0 <= before <= limit && 0 <= others && before + others <= totalLimit && 0 <= num <= MAX_INT64
    ensures before + num > MAX_INT64 ==>
            && Wrap64(before + others + num) < 0
            && Wrap64(before + num) < 0
    ensures before + num <= MAX_INT64 && before + others + num > MAX_INT64 ==> before + num > limit
  {
    assert Wrap64(before + num) == if before + num > MAX_INT64 then before + num - TWO_64 else before + num;
    var total := before + others + num;
    assert Wrap64(total) == if total > MAX_INT64 then total - TWO_64 else total;
  }

  // ----- connections ---------------------------------------------------------------------------

  function AddConns(l: Limit, u: ScopeStat, inCount: int, outCount: int, fdCount: int): Option<ScopeStat> {
    if inCount > 0 && Wrap64(u.connsIn + inCount) > l.connsIn then None
    else if outCount > 0 && Wrap64(u.connsOut + outCount) > l.connsOut then None
    else if Wrap64(u.connsIn + inCount + u.connsOut + outCount) > l.conns then None
    else if fdCount > 0 && Wrap64(u.fd + fdCount) > l.fd then None
    else Some(u.(connsIn := Wrap64(u.connsIn + inCount),
                 connsOut := Wrap64(u.connsOut + outCount),
                 fd := Wrap64(u.fd + fdCount)))
  }

  /** A sum of two int64 gets past its limit check: it is within the limit once it has wrapped around. */
  predicate Passes(sum: int, limit: int) {
    if sum > MAX_INT64 then sum - TWO_64 <= limit
    else if sum < MIN_INT64 then sum + TWO_64 <= limit
    else sum <= limit
  }

  /** What addConns checks; only what is asked for, and the total. */
  predicate ConnsPass(l: Limit, u: ScopeStat, inCount: int, outCount: int, fdCount: int) {
    var i, o, f := u.connsIn + inCount, u.connsOut + outCount, u.fd + fdCount;
    && (inCount > 0 ==> Passes(i, l.connsIn)) && (outCount > 0 ==> Passes(o, l.connsOut))
    && (fdCount > 0 ==> Passes(f, l.fd)) && Passes(i + o, l.conns)
  }

  /**
   * Nor does addConns guard its sums. Exactly which requests it accepts, and that an accepted one
   * keeps the hard limits exactly when no counter overflows or gets negative.
   */
  lemma AddConnsOverflow(l: Limit, u: ScopeStat, inCount: int, outCount: int, fdCount: int)
    requires ValidLimit(l) && InBounds(l, u) && IsInt64(inCount) && IsInt64(outCount) && IsInt64(fdCount)
    ensures AddConns(l, u, inCount, outCount, fdCount).Some? <==> ConnsPass(l, u, inCount, outCount, fdCount)
    ensures AddConns(l, u, inCount, outCount, fdCount).Some? ==>
              (InBounds(l, AddConns(l, u, inCount, outCount, fdCount).value) <==>
               && 0 <= u.connsIn + inCount <= MAX_INT64
               && 0 <= u.connsOut + outCount <= MAX_INT64
               && 0 <= u.fd + fdCount <= MAX_INT64)
  {
    ConnsAccepted(l, u, inCount, outCount, fdCount);
    WrapOnce(u.connsIn + inCount);
    WrapOnce(u.connsOut + outCount);
    WrapOnce(u.fd + fdCount);
  }

  lemma ConnsAccepted(l: Limit, u: ScopeStat, inCount: int, outCount: int, fdCount: int)
    requires ValidLimit(l) && InBounds(l, u) && IsInt64(inCount) && IsInt64(outCount) && IsInt64(fdCount)
    ensures AddConns(l, u, inCount, outCount, fdCount).Some? <==> ConnsPass(l, u, inCount, outCount, fdCount)
  {
    var i, o, f := u.connsIn + inCount, u.connsOut + outCount, u.fd + fdCount;
    WrapOnce(i);
    WrapOnce(o);
    WrapOnce(f);
    WrapOnce(i + o);
  }

  lemma WrapOnce(x: int)
    requires 2 * MIN_INT64 <= x <= 2 * (MAX_INT64 + MAX_INT32)
    ensures Wrap64(x) == if x > MAX_INT64 then x - TWO_64 else if x < MIN_INT64 then x + TWO_64 else x
  {
  }

  /** For instance the greatest int64 of inbound connections, where there is one already. */
  lemma AddConnsOverflowWitness(l: Limit, u: ScopeStat)
    requires ValidLimit(l) && InBounds(l, u) && u.connsIn > 0
    ensures AddConns(l, u, MAX_INT64, 0, 0).Some? && AddConns(l, u, MAX_INT64, 0, 0).value.connsIn < 0
  {
    AddConnsOverflow(l, u, MAX_INT64, 0, 0);
    WrapOnce(u.connsIn + MAX_INT64);
  }

  function AddConn(l: Limit, u: ScopeStat, dir: Direction): Option<ScopeStat> {
    if dir == Inbound then AddConns(l, u, 1, 0, 1) else AddConns(l, u, 0, 1, 1)
  }

  function RemoveConns(u: ScopeStat, inCount: int, outCount: int, fdCount: int): ScopeStat {
    u.(connsIn := Drop(u.connsIn, inCount),
       connsOut := Drop(u.connsOut, outCount),
       fd := Drop(u.fd, fdCount))
  }

  /** The inbound case has no return, so it goes on to remove an outbound connection too. */
  function RemoveConn(u: ScopeStat, dir: Direction): ScopeStat {
    var v := if dir == Inbound then RemoveConns(u, 1, 0, 1) else u;
    RemoveConns(v, 0, 1, 1)
  }

  // ----- requests ------------------------------------------------------------------------------

  /** What a scope is asked for: the arguments of ReserveMemory, AddTask, AddConn, ReserveResources. */
  datatype Request =
    | Memory(size: int, prio: int)
    | Tasks(num: int, taskPrio: TaskPriority)
    | Conn(dir: Direction)
    | All(stat: ScopeStat)

  /** The largest request that cannot overflow any counter within 32-bit limits. */
  const MAX_COUNT: int := MAX_INT64 - MAX_INT32

  predicate ValidCounts(st: ScopeStat) {
    && 0 <= st.tasksHigh <= MAX_COUNT && 0 <= st.tasksMedium <= MAX_COUNT && 0 <= st.tasksLow <= MAX_COUNT
    && 0 <= st.connsIn <= MAX_COUNT && 0 <= st.connsOut <= MAX_COUNT && 0 <= st.fd <= MAX_COUNT
  }

  /** Any memory size, negative ones included; counts that are not negative and cannot overflow. */
  predicate ValidRequest(req: Request) {
    match req
    case Memory(size, prio) => IsInt64(size) && 0 <= prio <= 255
    case Tasks(num, _) => 0 <= num <= MAX_COUNT
    case Conn(_) => true
    case All(st) => IsInt64(st.memory) && ValidCounts(st)
  }

  /** A release is of a non-negative amount. */
  predicate ValidRelease(req: Request) {
    ValidRequest(req) && NonNegative(UndoAmount(req))
  }

  /** One request against one scope, as the code performs it. */
  function Do(l: Limit, u: ScopeStat, req: Request): Option<ScopeStat>
    requires IsInt64(l.memory) && IsInt64(u.memory) && ValidRequest(req)
  {
    match req
    case Memory(size, prio) => ReserveMemory(l, u, size, prio)
    case Tasks(num, prio) => AddTask(l, u, num, prio)
    case Conn(dir) => AddConn(l, u, dir)
    case All(st) =>
      match ReserveMemory(l, u, st.memory, ALWAYS)
      case None => None
      case Some(u1) =>
        match AddConns(l, u1, st.connsIn, st.connsOut, st.fd)
        case None => None
        case Some(u2) => AddThreePriorities(l, u2, st)
  }

  function AddThreePriorities(l: Limit, u: ScopeStat, st: ScopeStat): Option<ScopeStat> {
    match AddTask(l, u, st.tasksHigh, High)
    case None => None
    case Some(u1) =>
      match AddTask(l, u1, st.tasksMedium, Medium)
      case None => None
      case Some(u2) => AddTask(l, u2, st.tasksLow, Low)
  }

  /** The release that goes with a request, as the code performs it. */
  function Undo(u: ScopeStat, req: Request): ScopeStat {
    match req
    case Memory(size, _) => ReleaseMemory(u, size)
    case Tasks(num, prio) => RemoveTask(u, num, prio)
    case Conn(dir) => RemoveConn(u, dir)
    case All(st) =>
      var u1 := RemoveConns(ReleaseMemory(u, st.memory), st.connsIn, st.connsOut, st.fd);
      RemoveTask(RemoveTask(RemoveTask(u1, st.tasksHigh, High), st.tasksMedium, Medium), st.tasksLow, Low)
  }

  function TaskStat(num: int, prio: TaskPriority): ScopeStat {
    match prio
    case High => NO_USE.(tasksHigh := num)
    case Medium => NO_USE.(tasksMedium := num)
    case _ => NO_USE.(tasksLow := num)
  }

  /** What an accepted request adds. */
  function DoAmount(req: Request): ScopeStat {
    match req
    case Memory(size, _) => NO_USE.(memory := size)
    case Tasks(num, prio) => TaskStat(num, prio)
    case Conn(dir) => if dir == Inbound then NO_USE.(connsIn := 1, fd := 1) else NO_USE.(connsOut := 1, fd := 1)
    case All(st) => st
  }

  /** What the matching release takes away. */
  function UndoAmount(req: Request): ScopeStat {
    match req
    case Tasks(num, UnknownPriority) => NO_USE
    case Conn(Inbound) => NO_USE.(connsIn := 1, connsOut := 1, fd := 2)
    case _ => DoAmount(req)
  }

  /** Release takes back what reservation gave. Fails for inbound connections and unknown task priorities. */
  predicate Balanced(req: Request) {
    UndoAmount(req) == DoAmount(req)
  }

  /** The request leaves the scope inside its hard limits, and memory below its priority's share. */
  predicate Admits(l: Limit, u: ScopeStat, req: Request) {
    && NonNegative(DoAmount(req))
    && InBounds(l, Plus(u, DoAmount(req)))
    && (req.Memory? ==> u.memory + req.size <= l.memory * (1 + req.prio) / 256)
  }

  /** What is added and what is taken away, in numbers. */
  lemma AmountsInNumbers(req: Request)
    ensures match req
            case Memory(size, _) => DoAmount(req) == UndoAmount(req) == ScopeStat(size, 0, 0, 0, 0, 0, 0)
            case Tasks(num, prio) =>
              if prio == High then DoAmount(req) == UndoAmount(req) == ScopeStat(0, num, 0, 0, 0, 0, 0)
              else if prio == Medium then DoAmount(req) == UndoAmount(req) == ScopeStat(0, 0, num, 0, 0, 0, 0)
              else DoAmount(req) == ScopeStat(0, 0, 0, num, 0, 0, 0) &&
                   UndoAmount(req) == ScopeStat(0, 0, 0, if prio == Low then num else 0, 0, 0, 0)
            case Conn(dir) =>
              if dir == Inbound
              then DoAmount(req) == ScopeStat(0, 0, 0, 0, 1, 0, 1) && UndoAmount(req) == ScopeStat(0, 0, 0, 0, 1, 1, 2)
              else DoAmount(req) == UndoAmount(req) == ScopeStat(0, 0, 0, 0, 0, 1, 1)
            case All(st) => DoAmount(req) == UndoAmount(req) == st
  {
  }

  /** When the code accepts memory in a scope within its limits, and what it then has, in numbers. */
  lemma MemoryInNumbers(l: Limit, u: ScopeStat, size: int, prio: int)
    requires ValidLimit(l) && InBounds(l, u) && ValidRequest(Memory(size, prio))
    ensures Do(l, u, Memory(size, prio)) ==
            if size < 0 || u.memory + size > l.memory * (1 + prio) / 256 then None
            else Some(u.(memory := u.memory + size))
  {
    DoExact(l, u, Memory(size, prio));
    ShareBelowLimit(l.memory, prio);
  }

  /** The same for tasks; an unknown priority is low. */
  lemma TasksInNumbers(l: Limit, u: ScopeStat, num: int, prio: TaskPriority)
    requires ValidLimit(l) && InBounds(l, u) && ValidRequest(Tasks(num, prio))
    ensures Do(l, u, Tasks(num, prio)) ==
            if u.tasksHigh + u.tasksMedium + u.tasksLow + num > l.tasks then None
            else if prio == High then
              if u.tasksHigh + num > l.tasksHigh then None else Some(u.(tasksHigh := u.tasksHigh + num))
            else if prio == Medium then
              if u.tasksMedium + num > l.tasksMedium then None else Some(u.(tasksMedium := u.tasksMedium + num))
            else
              if u.tasksLow + num > l.tasksLow then None else Some(u.(tasksLow := u.tasksLow + num))
  {
    DoExact(l, u, Tasks(num, prio));
  }

  /** The same for connections; an unknown direction is outbound. */
  lemma ConnInNumbers(l: Limit, u: ScopeStat, dir: Direction)
    requires ValidLimit(l) && InBounds(l, u)
    ensures Do(l, u, Conn(dir)) ==
            if u.connsIn + u.connsOut + 1 > l.conns || u.fd + 1 > l.fd then None
            else if dir == Inbound then
              if u.connsIn + 1 > l.connsIn then None else Some(u.(connsIn := u.connsIn + 1, fd := u.fd + 1))
            else
              if u.connsOut + 1 > l.connsOut then None else Some(u.(connsOut := u.connsOut + 1, fd := u.fd + 1))
  {
    DoExact(l, u, Conn(dir));
  }

  lemma ShareBelowLimit(limit: int, prio: int)
    requires 0 <= limit && 0 <= prio <= 255
    ensures limit * (1 + prio) / 256 <= limit
  {
    assert limit * (1 + prio) <= limit * 256;
  }

  /** The same for all kinds at once. */
  lemma AcceptsAllInNumbers(l: Limit, u: ScopeStat, st: ScopeStat)
    requires ValidLimit(l) && InBounds(l, u) && ValidRequest(All(st))
    ensures Do(l, u, All(st)).Some? <==>
            && st.memory >= 0 && u.memory + st.memory <= l.memory
            && u.tasksHigh + st.tasksHigh <= l.tasksHigh
            && u.tasksMedium + st.tasksMedium <= l.tasksMedium
            && u.tasksLow + st.tasksLow <= l.tasksLow
            && u.tasksHigh + u.tasksMedium + u.tasksLow + st.tasksHigh + st.tasksMedium + st.tasksLow <= l.tasks
            && u.connsIn + st.connsIn <= l.connsIn && u.connsOut + st.connsOut <= l.connsOut
            && u.connsIn + u.connsOut + st.connsIn + st.connsOut <= l.conns
            && u.fd + st.fd <= l.fd
    ensures Do(l, u, All(st)).Some? ==>
              Do(l, u, All(st)).value ==
              ScopeStat(u.memory + st.memory, u.tasksHigh + st.tasksHigh, u.tasksMedium + st.tasksMedium,
                        u.tasksLow + st.tasksLow, u.connsIn + st.connsIn, u.connsOut + st.connsOut, u.fd + st.fd)
  {
    DoExact(l, u, All(st));
  }

  /**
   * The local code, with its separate checks in sequence, accepts exactly the requests whose whole
   * sum is admissible, and then adds exactly the amount asked for.
   */
  lemma DoExact(l: Limit, u: ScopeStat, req: Request)
    requires ValidLimit(l) && InBounds(l, u) && ValidRequest(req)
    ensures Do(l, u, req) == if Admits(l, u, req) then Some(Plus(u, DoAmount(req))) else None
  {
    match req
    case Memory(size, prio) => ReserveMemoryExact(l, u, size, prio);
    case Tasks(num, prio) => AddTaskExact(l, u, num, prio);
    case Conn(dir) =>
      if dir == Inbound { AddConnsExact(l, u, 1, 0, 1); } else { AddConnsExact(l, u, 0, 1, 1); }
    case All(st) => StagesExact(l, u, st);
  }

  lemma ReserveMemoryExact(l: Limit, u: ScopeStat, size: int, prio: int)
    requires ValidLimit(l) && InBounds(l, u) && IsInt64(size) && 0 <= prio <= 255
    ensures ReserveMemory(l, u, size, prio) ==
            if 0 <= size && u.memory + size <= l.memory * (1 + prio) / 256
            then Some(u.(memory := u.memory + size)) else None
    ensures l.memory * (1 + prio) / 256 <= l.memory
    ensures prio == ALWAYS ==> l.memory * (1 + prio) / 256 == l.memory
  {
    CheckMemoryExact(l.memory, u.memory, size, prio);
    ThresholdExact(l.memory, prio);
  }

  lemma AddTaskExact(l: Limit, u: ScopeStat, num: int, prio: TaskPriority)
    requires ValidLimit(l) && InBounds(l, u) && 0 <= num <= MAX_COUNT
    ensures AddTask(l, u, num, prio) ==
            if InBounds(l, Plus(u, TaskStat(num, prio))) then Some(Plus(u, TaskStat(num, prio))) else None
  {
  }

  lemma AddConnsExact(l: Limit, u: ScopeStat, inCount: int, outCount: int, fdCount: int)
    requires ValidLimit(l) && InBounds(l, u)
    requires 0 <= inCount <= MAX_COUNT && 0 <= outCount <= MAX_COUNT && 0 <= fdCount <= MAX_COUNT
    ensures var v := u.(connsIn := u.connsIn + inCount, connsOut := u.connsOut + outCount, fd := u.fd + fdCount);
            AddConns(l, u, inCount, outCount, fdCount) == if InBounds(l, v) then Some(v) else None
  {
  }

  /** The five stages of ReserveResources, each checked against the state the ones before it left. */
  lemma StagesExact(l: Limit, u: ScopeStat, st: ScopeStat)
    requires ValidLimit(l) && InBounds(l, u) && IsInt64(st.memory) && ValidCounts(st)
    ensures Do(l, u, All(st)) == if Admits(l, u, All(st)) then Some(Plus(u, st)) else None
  {
    ReserveMemoryExact(l, u, st.memory, ALWAYS);
    if 0 <= st.memory && u.memory + st.memory <= l.memory {
      var u1 := u.(memory := u.memory + st.memory);
      assert InBounds(l, u1);
      LaterStagesExact(l, u1, st);
      assert Plus(u1, st.(memory := 0)) == Plus(u, st);
    }
  }

  lemma LaterStagesExact(l: Limit, u: ScopeStat, st: ScopeStat)
    requires ValidLimit(l) && InBounds(l, u) && ValidCounts(st)
    ensures var w := Plus(u, st.(memory := 0));
            (match AddConns(l, u, st.connsIn, st.connsOut, st.fd)
             case None => None
             case Some(u1) => AddThreePriorities(l, u1, st)) == if InBounds(l, w) then Some(w) else None
  {
    AddConnsExact(l, u, st.connsIn, st.connsOut, st.fd);
    var v := u.(connsIn := u.connsIn + st.connsIn, connsOut := u.connsOut + st.connsOut, fd := u.fd + st.fd);
    if InBounds(l, v) {
      TaskStagesExact(l, v, st);
    }
  }

  lemma TaskStagesExact(l: Limit, u: ScopeStat, st: ScopeStat)
    requires ValidLimit(l) && InBounds(l, u) && ValidCounts(st)
    ensures var v := u.(tasksHigh := u.tasksHigh + st.tasksHigh, tasksMedium := u.tasksMedium + st.tasksMedium,
                        tasksLow := u.tasksLow + st.tasksLow);
            AddThreePriorities(l, u, st) == if InBounds(l, v) then Some(v) else None
  {
    AddTaskExact(l, u, st.tasksHigh, High);
    var u1 := Plus(u, TaskStat(st.tasksHigh, High));
    if InBounds(l, u1) {
      AddTaskExact(l, u1, st.tasksMedium, Medium);
      var u2 := Plus(u1, TaskStat(st.tasksMedium, Medium));
      if InBounds(l, u2) {
        AddTaskExact(l, u2, st.tasksLow, Low);
      }
    }
  }

  /**
   * The stages as ReserveResources and ReserveForChild run them on the counters, each failing
   * stage undoing the ones before it: everything or nothing.
   */
  method ReserveStages(l: Limit, u: ScopeStat, st: ScopeStat) returns (ok: bool, rc: ScopeStat)
    requires ValidLimit(l) && InBounds(l, u) && IsInt64(st.memory) && ValidCounts(st)
    ensures ok <==> Admits(l, u, All(st))
    ensures rc == if ok then Plus(u, st) else u
  {
    rc := u;
    StagesExact(l, u, st);
    ReserveMemoryExact(l, rc, st.memory, ALWAYS);
    var r := ReserveMemory(l, rc, st.memory, ALWAYS);
    if r.None? {
      return false, rc;
    }
    rc := r.value;
    AddConnsExact(l, rc, st.connsIn, st.connsOut, st.fd);
    r := AddConns(l, rc, st.connsIn, st.connsOut, st.fd);
    if r.None? {
      rc := ReleaseMemory(rc, st.memory);
      return false, rc;
    }
    rc := r.value;
    ok, rc := AddThreeStages(l, rc, st);
    if !ok {
      rc := RemoveConns(ReleaseMemory(rc, st.memory), st.connsIn, st.connsOut, st.fd);
    }
  }

  method AddThreeStages(l: Limit, u: ScopeStat, st: ScopeStat) returns (ok: bool, rc: ScopeStat)
    requires ValidLimit(l) && InBounds(l, u) && ValidCounts(st)
    ensures ok == AddThreePriorities(l, u, st).Some?
    ensures rc == if ok then AddThreePriorities(l, u, st).value else u
  {
    rc := u;
    AddTaskExact(l, rc, st.tasksHigh, High);
    var r := AddTask(l, rc, st.tasksHigh, High);
    if r.None? {
      return false, rc;
    }
    rc := r.value;
    AddTaskExact(l, rc, st.tasksMedium, Medium);
    r := AddTask(l, rc, st.tasksMedium, Medium);
    if r.None? {
      rc := RemoveTask(rc, st.tasksHigh, High);
      return false, rc;
    }
    rc := r.value;
    AddTaskExact(l, rc, st.tasksLow, Low);
    r := AddTask(l, rc, st.tasksLow, Low);
    if r.None? {
      rc := RemoveTask(RemoveTask(rc, st.tasksHigh, High), st.tasksMedium, Medium);
      return false, rc;
    }
    return true, r.value;
  }

  /** Whatever the source's release code does, it is a subtraction that stops at zero. */
  lemma UndoExact(l: Limit, u: ScopeStat, req: Request)
    requires ValidLimit(l) && InBounds(l, u) && ValidRelease(req)
    ensures Undo(u, req) == Minus(u, UndoAmount(req))
  {
    match req
    case All(st) => UndoStagesExact(l, u, st);
    case _ =>
  }

  lemma UndoStagesExact(l: Limit, u: ScopeStat, st: ScopeStat)
    requires ValidLimit(l) && InBounds(l, u) && ValidRelease(All(st))
    ensures Undo(u, All(st)) == Minus(u, st)
  {
    var u1 := RemoveConns(ReleaseMemory(u, st.memory), st.connsIn, st.connsOut, st.fd);
    assert u1 == Minus(u, st.(tasksHigh := 0, tasksMedium := 0, tasksLow := 0));
    var u2 := RemoveTask(u1, st.tasksHigh, High);
    assert u2 == Minus(u, st.(tasksMedium := 0, tasksLow := 0));
  }

  function AtLeastZero(x: int): int {
    if x < 0 then 0 else x
  }

  /**
   * What each kind of release leaves, in numbers. An inbound connection takes an outbound one and two
   * descriptors along.
   */
  lemma ReleasesInNumbers(l: Limit, u: ScopeStat, req: Request)
    requires ValidLimit(l) && InBounds(l, u) && ValidRelease(req)
    ensures Undo(u, req) ==
            match req
            case Memory(size, _) => u.(memory := AtLeastZero(u.memory - size))
            case Tasks(num, prio) =>
              if prio == High then u.(tasksHigh := AtLeastZero(u.tasksHigh - num))
              else if prio == Medium then u.(tasksMedium := AtLeastZero(u.tasksMedium - num))
              else if prio == Low then u.(tasksLow := AtLeastZero(u.tasksLow - num))
              else u
            case Conn(dir) =>
              if dir == Inbound then
                u.(connsIn := AtLeastZero(u.connsIn - 1), connsOut := AtLeastZero(u.connsOut - 1),
                   fd := AtLeastZero(u.fd - 2))
              else u.(connsOut := AtLeastZero(u.connsOut - 1), fd := AtLeastZero(u.fd - 1))
            case All(st) =>
              ScopeStat(AtLeastZero(u.memory - st.memory),
                        AtLeastZero(u.tasksHigh - st.tasksHigh), AtLeastZero(u.tasksMedium - st.tasksMedium),
                        AtLeastZero(u.tasksLow - st.tasksLow), AtLeastZero(u.connsIn - st.connsIn),
                        AtLeastZero(u.connsOut - st.connsOut), AtLeastZero(u.fd - st.fd))
  {
    UndoExact(l, u, req);
  }

  /** Releasing right after reserving restores the scope exactly when no counter is over-released. */
  lemma UndoAfterDo(l: Limit, u: ScopeStat, req: Request)
    requires ValidLimit(l) && InBounds(l, u) && ValidRequest(req) && Admits(l, u, req)
    ensures ValidRelease(req)
    ensures InBounds(l, Undo(Plus(u, DoAmount(req)), req))
    ensures Balanced(req) ==> Undo(Plus(u, DoAmount(req)), req) == u
    ensures req.Tasks? && !Balanced(req) ==> Undo(Plus(u, DoAmount(req)), req) == Plus(u, DoAmount(req))
    ensures Undo(Plus(u, DoAmount(req)), req) == u <==>
            Balanced(req) || (req.Conn? && u.connsOut == 0 && u.fd == 0)
  {
    UndoExact(l, Plus(u, DoAmount(req)), req);
  }

  // ----- remaining -----------------------------------------------------------------------------

  function ToInt32(x: int): int {
    if -0x8000_0000 <= x <= MAX_INT32 then x else (x + 0x8000_0000) % 0x1_0000_0000 - 0x8000_0000
  }

  function Remaining(l: Limit, u: ScopeStat): Limit {
    var total := u.tasksHigh + u.tasksMedium + u.tasksLow;
    Limit(if l.memory > u.memory then l.memory - u.memory else 0, 0, 0, 0, 0,
          if l.tasksHigh > u.tasksHigh then ToInt32(l.tasksHigh - u.tasksHigh) else 0,
          if l.tasksMedium > u.tasksMedium then ToInt32(l.tasksMedium - u.tasksMedium) else 0,
          if l.tasksLow > u.tasksLow then ToInt32(l.tasksLow - u.tasksLow) else 0,
          if l.tasks > total then ToInt32(l.tasks - total) else 0)
  }

  /** remaining() in numbers; it leaves connections and descriptors at zero. */
  lemma RemainingInNumbers(l: Limit, u: ScopeStat)
    requires ValidLimit(l) && InBounds(l, u)
    ensures Remaining(l, u) ==
            Limit(l.memory - u.memory, 0, 0, 0, 0,
                  l.tasksHigh - u.tasksHigh, l.tasksMedium - u.tasksMedium, l.tasksLow - u.tasksLow,
                  l.tasks - (u.tasksHigh + u.tasksMedium + u.tasksLow))
  {
  }

  /** A scope accepts a request without connections exactly when remaining() covers it. */
  lemma RemainingExact(l: Limit, u: ScopeStat, st: ScopeStat)
    requires ValidLimit(l) && InBounds(l, u)
    requires 0 <= st.memory <= MAX_INT64 && ValidCounts(st)
    requires st.connsIn == 0 && st.connsOut == 0 && st.fd == 0
    ensures var r := Remaining(l, u);
            Do(l, u, All(st)).Some? <==>
            && st.memory <= r.memory
            && st.tasksHigh <= r.tasksHigh && st.tasksMedium <= r.tasksMedium && st.tasksLow <= r.tasksLow
            && st.tasksHigh + st.tasksMedium + st.tasksLow <= r.tasks
  {
    StagesExact(l, u, st);
    assert Admits(l, u, All(st)) <==> InBounds(l, Plus(u, st));
  }
}
