# Verified model of the storage provider's accounting, queues and group management

The project models four parts of the storage provider in Dafny and proves what they keep over
every input and every run.

* **Resource scopes** (`base/gfsprcmgr`). `MachineInt` and `Resources` hold the arithmetic of one
  scope, with Go's 64-bit wrap-around written out. `ScopeLaws` states, scope by scope, what each
  operation does to all scopes at once. `Scopes` has the scopes as objects that climb to their
  owners and edges, undo on refusal, and close in any order, and proves them equal to the laws.
  `ScopeRuns` proves the hard limits over every run and when a refusal leaves a trace;
  `Conservation` proves that nothing is lost or counted twice; `ScopeLife` what new scopes accept and
  closed ones report; `ManagerRuns` performs whole runs on
  the objects and states all of this of them.
* **Task queues** (`base/gfsptqueue`). `TaskQueue` has the queue with its retire and filter
  callbacks, which may answer anything at any time; `QueueRuns` proves its books over whole runs,
  `RoundRobin` that it goes round; `Sorting` stands for Go's `sort` package.
* **Virtual groups** (`base/gfspvgmgr`). `GroupDeletion` (delayed deletion of empty groups),
  `SPHealth` (the health checker), `FreezePool` (providers set aside), `GroupPicker` (weighted
  picking among what health checker and freeze pool leave).
* **Piece keys, piece sizes, list codecs** (`base/gfsppieceop`, `util/string.go`). `PieceOp`,
  `ListCodecs`, and `Text` for what they use of Go's string packages.

How the model reads the source:

* A scope is numbered by its creation, so owners and edges have smaller numbers; `Path` lists the
  scopes a reservation passes. `w` in `Scopes` is the ghost list of all scopes. Mutexes become
  atomic calls.
* ReserveMemory, AddTask and AddConn are three copies of one climb, and ReleaseMemory, RemoveTask,
  RemoveConn and ReleaseResources of another; `Request` says which, and `DoAmount` and `UndoAmount`
  what is added and what is taken away.
* What a claim is about is spelled out in numbers, fields or codes in the members whose names end in
  InNumbers, InFields or InSets, so that it does not rest on a definition of the model.
* Clock, random draw, order of iteration of a map, chain and metadata answers, probe results, callback answers and the limits
  configured for a service are parameters.
* Limits are fixed per scope, with counts of 32 bits as in `base/types/gfsplimit`, and a memory
  limit other than MaxInt64, which switches the check off. Counts that are asked for are not
  negative and at most MaxInt64 - MaxInt32, the greatest uniform bound at which no counter can
  overflow int64; `AddTaskOverflow` and `AddConnsOverflow` say for all int64 counts, negative ones
  included, when the source keeps its limits. A negative amount of memory is refused, as in the source.
* Piece keys are strings of bytes (`ByteString`), since the source slices them by bytes. In the list
  codecs, where TrimSpace looks at whole characters, strings are of characters, that is, valid UTF-8.

Where code and documentation disagree the model follows the code:

* `core/rcmgr/rcmgr.go:144-146` calls ReserveResources atomic. On refusal by a scope above, the
  clean-up releases once more in every scope above; `ResourcesLaw` is the exact effect,
  `ResourcesRefusedIff` says when there is none, `ResourcesNotAtomic` and
  `ResourcesNotAtomicWitness` show that there can be one.
* `core/rcmgr/rcmgr.go:133-137` says that a refused AddTask reserves nothing. With an unknown
  priority it does, since such tasks are added as low and never removed (`RefusedIff`,
  `UnknownPriorityLeaks`).
* Removing an inbound connection removes an outbound one too (`base/gfsprcmgr/resource.go:261-266`),
  so `Balanced` excludes it.
* A service without a limit is a span that the system scope's reference count never included but
  that its Done takes off (`RefCountExact`).
* The comment at `base/gfspvgmgr/virtual_group_manager.go:577` says that groups that are no longer
  empty are forgotten. In every run the visits that were handed a group that is not empty change
  nothing (`RefillsIgnored`); what is forgotten is what is overdue (`NotEmptyForgottenIff`, `DeletesIff`;
  `DeletedThoughRefilled` is a run).
* `core/rcmgr/rcmgr.go:124-126` says that a reservation fails if less than (1+prio)/256 of the limit
  is available. The code bounds the memory in use by that share instead. `AvailableRuleIff` says
  when the documented rule holds all the same, `AvailableRuleFails` is an input for which it does not.
* The checks at `base/gfsprcmgr/resource.go:127-259` are there to hold tasks and connections within
  their limits. The sums are not guarded: one that overflows is accepted and leaves the counter
  negative (`AddTaskOverflow`, `AddConnsOverflow`, `AddConnsOverflowWitness`).
* `core/piecestore/piecestore.go:34-37` has ParseSegmentIdx and ParseChallengeIdx return an error
  for what they cannot read. `ParsePanicsIff` says exactly on which keys each of the parsers panics
  instead, `ParseOkIff` on which it returns numbers.

## Model

| member | source | states |
|---|---|---|
| MachineInt.AddWithOverflow | base/gfsprcmgr/resource.go:55-58 | the overflow test is exact for all pairs of int64, and the sum is right when it passes |
| MachineInt.MulWithOverflowExact | base/gfsprcmgr/resource.go:60-71 | the multiplication test is exact for all pairs of int64 if and only if the factors are not MaxInt64 or MinInt64 with -1 |
| MachineInt.Widths | base/gfsprcmgr/resource.go:55-71 | the bounds of Go's integers, in decimal |
| Resources.ThresholdExact | base/gfsprcmgr/resource.go:83-96 | the int64 and the big-integer path both give floor(limit(1+prio)/256), the first is taken exactly when the product fits, and the fallback to the limit is never needed |
| Resources.CheckMemoryExact | base/gfsprcmgr/resource.go:73-108 | a request is accepted if and only if it is not negative and memory + request is at most that threshold over unbounded integers, or the limit is MaxInt64 |
| Resources.AvailableRuleIff | core/rcmgr/rcmgr.go:124-126 | every accepted request meets the documented rule on available memory if and only if it is met by the memory in use, or so much is in use that nothing is accepted |
| Resources.AvailableRuleFails | base/gfsprcmgr/resource.go:73-108 | an accepted request that the documented rule excludes |
| Resources.DropWithinLimit | base/gfsprcmgr/resource.go:118-125 | a release of any int64 amount, negative ones included, leaves a counter within its limit if and only if the difference is, or it overflows and is set to zero |
| Resources.AddTaskOverflow | base/gfsprcmgr/resource.go:127-174 | for all int64 numbers, adding tasks keeps the hard limits if and only if the counter added to neither overflows nor gets negative |
| Resources.AddConnsOverflow | base/gfsprcmgr/resource.go:212-259 | for all int64 counts: exactly which requests are accepted, and that an accepted one keeps the hard limits if and only if no counter overflows or gets negative |
| Resources.AddConnsOverflowWitness | base/gfsprcmgr/resource.go:212-259 | MaxInt64 inbound connections are accepted where there is one, and leave the counter negative |
| Resources.DoExact | base/gfsprcmgr/resource.go:110-259 | each kind of request is accepted exactly if the whole sum stays within all limits and the priority's share, and then adds exactly the amount |
| Resources.AmountsInNumbers | base/gfsprcmgr/resource.go:110-285 | what each kind of request adds and its release takes away: inbound, one inbound connection and a descriptor against one of each kind and two descriptors |
| Resources.MemoryInNumbers | base/gfsprcmgr/resource.go:73-116 | memory is accepted if and only if memory + size is at most limit(1+prio)/256 and size not negative, and is then added |
| Resources.TasksInNumbers | base/gfsprcmgr/resource.go:127-174 | tasks are accepted if and only if the total and the priority's counter stay within their limits, unknown priorities counting as low |
| Resources.ConnInNumbers | base/gfsprcmgr/resource.go:205-259 | a connection is accepted if and only if total, direction and descriptors stay within their limits |
| Resources.AcceptsAllInNumbers | base/gfsprcmgr/scope.go:468-492 | all kinds at once are accepted if and only if each counter and each total stays within its limit |
| Resources.StagesExact | base/gfsprcmgr/scope.go:468-492 | the five checks in sequence, each against what the ones before left, accept exactly the admissible totals |
| Resources.ReserveStages | base/gfsprcmgr/scope.go:468-492 | with their step-by-step undo they are all or nothing within the scope |
| Resources.UndoExact | base/gfsprcmgr/resource.go:118-285 | every release is a subtraction that stops at zero, of the amounts UndoAmount names |
| Resources.ReleasesInNumbers | base/gfsprcmgr/resource.go:118-285 | what each kind of release leaves, field by field; an inbound connection takes an outbound one and two descriptors along |
| Resources.UndoAfterDo | base/gfsprcmgr/resource.go:110-285 | releasing right after reserving restores the scope exactly for balanced requests, or an inbound connection where nothing else is open; it never leaves the limits |
| Resources.RemainingExact | base/gfsprcmgr/resource.go:25-53 | a scope accepts a request without connections if and only if remaining() covers every component and the sum of tasks |
| Resources.RemainingInNumbers | base/gfsprcmgr/resource.go:25-53 | each component of remaining(), connections and descriptors being zero |
| ScopeLaws.Path | base/gfsprcmgr/scope.go:123-137 | the scopes of a reservation, starting at the caller, all distinct, none younger |
| ScopeLaws.FirstRefusal | base/gfsprcmgr/scope.go:123-137 | the first closed or full scope of a list: all before it accept, it refuses |
| ScopeLaws.PathLawStep | base/gfsprcmgr/scope.go:106-121 | reserving here, then above, and undoing here on refusal is the law of the whole path |
| ScopeLaws.ReleaseLawStep | base/gfsprcmgr/scope.go:395-418 | releasing here and then above reaches exactly the scopes up to the first closed one |
| ScopeLaws.ResourcesLawStep | base/gfsprcmgr/scope.go:494-508 | by induction on the chain: when a scope k levels up refuses, the scope j levels up ends at max(0, old - min(j,k)·st) in every counter |
| ScopeLaws.ResourcesLawTop | base/gfsprcmgr/scope.go:497-506 | the same where the chain ends and the first edge decides |
| ScopeLaws.DoneLawSpan | base/gfsprcmgr/scope.go:88-102 | closing a span takes all it accounts for from every open scope above, one reference from its owner, and leaves the rest |
| Scopes.ResourceScope.constructor | base/gfsprcmgr/scope.go:38-59 | a new scope is open and empty, below its owner or edges |
| Scopes.ResourceScope.ReserveForChild | base/gfsprcmgr/scope.go:147-158 | the local half: granted unless the scope is closed or full |
| Scopes.ResourceScope.ReleaseForChild | base/gfsprcmgr/scope.go:181-189 | the local half of a release; nothing on a closed scope |
| Scopes.ResourceScope.ReserveAllForChild | base/gfsprcmgr/scope.go:359-392 | all kinds of resources at once in one scope, or none |
| Scopes.ResourceScope.Reserve | base/gfsprcmgr/scope.go:276-314 | the climbing code with its undo loops changes the scopes exactly as ReserveLaw says, for every kind of request |
| Scopes.ResourceScope.ReserveForEdges | base/gfsprcmgr/scope.go:123-145 | the loop over the edges and the undo loop, up to any edge that refuses |
| Scopes.ResourceScope.ReserveMemory | base/gfsprcmgr/scope.go:105-121 | granted if and only if every scope of owner chain and edges is open and has room; each of them then gains the bytes, and on refusal every scope is as before |
| Scopes.ResourceScope.AddTask | base/gfsprcmgr/scope.go:191-230 | the same for tasks of a known priority |
| Scopes.ResourceScope.ReserveResources | base/gfsprcmgr/scope.go:456-508 | granted along the whole chain, or the exact effect of the clean-up that climbs again |
| Scopes.ResourceScope.Release | base/gfsprcmgr/scope.go:160-179 | each open scope up to the first closed one loses the amount, no other changes |
| Scopes.ResourceScope.ReleaseSelf | base/gfsprcmgr/scope.go:420-440 | everything the scope accounts for is released here and above |
| Scopes.ResourceScope.Close | base/gfsprcmgr/scope.go:72-103 | Done, on every scope: nothing if closed already; otherwise DoneLaw |
| Scopes.ResourceScope.BeginSpan | base/gfsprcmgr/scope.go:50-70 | no span of a closed scope; otherwise an empty one below this with the same limit, counted and numbered here |
| Scopes.ResourceManager.constructor | base/gfsprcmgr/rcmgr.go:22-31 | a system scope alone |
| Scopes.ResourceManager.OpenService | base/gfsprcmgr/rcmgr.go:33-46 | a span of the system scope with its limit and not counted there, or a scope with the given limit and a counted edge |
| ScopeRuns.GrantedIff | base/gfsprcmgr/scope.go:106-230 | a reservation is granted if and only if every scope on its path accepts, and then each gains exactly the amount |
| ScopeRuns.RefusedIff | base/gfsprcmgr/scope.go:106-230 | a refused one leaves all scopes as they were if and only if its release restores each scope below the refusal; always so for memory and known priorities |
| ScopeRuns.UnknownPriorityLeaks | base/gfsprcmgr/scope.go:192-207 | from a new manager, opening one service leads to a state in which a refused AddTask of unknown priority leaves tasks behind |
| ScopeRuns.ResourcesGrantedIff | base/gfsprcmgr/scope.go:456-508 | ReserveResources is granted if and only if every scope of its chain accepts, and then each gains exactly the amounts |
| ScopeRuns.ResourcesRefusedIff | base/gfsprcmgr/scope.go:494-508 | a refused ReserveResources has no effect if and only if the scope itself refuses or no scope the clean-up reaches has anything the request touches |
| ScopeRuns.RefusalDrains | base/gfsprcmgr/scope.go:456-508 | none closed and the scope k above refusing, the scope j above ends with max(0, old - min(j,k)·st) in each of the seven counters |
| ScopeRuns.ResourcesNotAtomic | base/gfsprcmgr/scope.go:494-508 | refused by the system, a span's request takes its amount from the service and twice that from the system |
| ScopeRuns.ResourcesNotAtomicWitness | base/gfsprcmgr/scope.go:494-508 | a run of a new manager leads to such a state, for all amounts that fit |
| ScopeRuns.StepHealthy | base/gfsprcmgr/scope.go:61-508 | every operation keeps every counter of every scope between zero and its limit, failed clean-ups included |
| ScopeRuns.HardLimits | base/gfsprcmgr/resource.go:110-285 | so each counter and each total is between zero and its limit, field by field, in every state that any run from a new manager reaches |
| ScopeLife.SpanGrants | base/gfsprcmgr/scope.go:50-70 | in every state a span just begun is granted any request, ReserveResources included, if and only if the scope it was begun on would be |
| ScopeLife.UnlimitedServiceGrants | base/gfsprcmgr/rcmgr.go:33-46 | a service opened without a limit is granted exactly what the system scope would be |
| ScopeLife.ServiceGrants | base/gfsprcmgr/rcmgr.go:33-46 | one opened with a limit exactly what its limit accepts of an empty scope and the system scope would be granted |
| ScopeLife.NewManagerGrants | base/gfsprcmgr/rcmgr.go:22-31 | the system scope of a new manager exactly what its limit accepts |
| ScopeLife.PathMembers | base/gfsprcmgr/scope.go:106-145 | whom a reservation passes: the scope, then whom its owner's passes or all its edges |
| ScopeLife.ResourcePathMembers | base/gfsprcmgr/scope.go:494-508 | ReserveResources passes the first edge only |
| ScopeLife.DoneReports | base/gfsprcmgr/scope.go:88-102 | a scope just closed reports no memory, connections or descriptors and the tasks it had |
| ScopeLife.ClosedForGood | base/gfsprcmgr/scope.go:72-103 | over every run a closed scope stays closed and reports the same |
| ScopeLife.RunClosedAreEmpty | base/gfsprcmgr/scope.go:72-103 | in every state of every run closed scopes report no memory, connections or descriptors |
| ScopeLife.SpanNumbersExact | base/gfsprcmgr/scope.go:61-70 | after every run a scope has given as many span numbers as it has had spans |
| Conservation.ClimbShift | base/gfsprcmgr/scope.go:160-189 | a climb changes what its first scope accounts for beyond its open children, and that of no other scope |
| Conservation.NoClamp | base/gfsprcmgr/resource.go:118-125 | releasing what one holds never meets a scope above that has less |
| Conservation.DoneAccounted | base/gfsprcmgr/scope.go:72-103 | closing a scope keeps the books of all others, children still open or not |
| Conservation.BookAccounted | base/gfsprcmgr/scope.go:61-508 | every call that releases no more than the scope holds, and every reservation that is granted or meets the condition of RefusedIff or ResourcesRefusedIff, keeps: account = held here + accounts of open children |
| Conservation.MemoryAndTasksFair | base/gfsprcmgr/scope.go:106-230 | reservations of memory, of tasks of a known priority and of outbound connections meet that condition in every state |
| Conservation.SameBooks | base/gfsprcmgr/scope.go:16-24 | what the open scopes hold determines what each accounts for |
| Conservation.RefusalFairIff | base/gfsprcmgr/scope.go:106-230 | a refused reservation keeps the books if and only if it meets the condition |
| Conservation.ResourcesFairIff | base/gfsprcmgr/scope.go:494-508 | so does a refused ReserveResources |
| Conservation.Conserved | base/gfsprcmgr/scope.go:16-24 | conservation in all seven counters after every run of such calls, whatever the order of closing |
| Conservation.BooksFollow | base/gfsprcmgr/scope.go:16-24 | the scopes in the books are those the run itself leads to |
| Conservation.OpeningAccounted | base/gfsprcmgr/rcmgr.go:22-31 | the books of a new manager |
| Conservation.RootHoldsAttached | base/gfsprcmgr/scope.go:16-24 | the system scope accounts for exactly what the scopes with an open way up to it hold, so each unit leaves it once |
| Conservation.StepCounted | base/gfsprcmgr/scope.go:61-103 | every legal call, fair or not, keeps the reference counts right |
| Conservation.RefCountExact | base/gfsprcmgr/scope.go:526-536 | after every legal run from a new manager a reference count is the number of open scopes that have this one as owner or edge, less, for the system, the services opened without a limit |
| Conservation.OpenChildren | base/gfsprcmgr/scope.go:526-536 | the sum behind it is the cardinality of that set |
| Conservation.FreeServicesCount | base/gfsprcmgr/rcmgr.go:33-46 | the services opened without a limit are the calls of that kind in the run |
| Conservation.CountersInFields | base/gfsprcmgr/resource.go:16-23 | the seven counters are the seven fields |
| ManagerRuns.Perform | base/gfsprcmgr/scope.go:61-508 | any legal call on any scope object changes all scope objects as Step says |
| ManagerRuns.PerformAll | base/gfsprcmgr/rcmgr.go:22-46 | any legal run on the objects of a new manager ends where Run ends; then each scope object is within its limits and has its exact reference count, and after a fair run its books balance and the system scope accounts for what is attached |
| Sorting.Sort | base/gfsptqueue/queue_limit.go:213-215 | some sorted arrangement of the same elements |
| Sorting.SearchAbove | base/gfsptqueue/queue_limit.go:216-216 | binary search finds the first element above the cursor |
| Sorting.StringLeIff | base/gfsptqueue/queue_limit.go:126-126 | keys are ordered by the first character in which they differ |
| TaskQueue.TQueue.HasKey | base/gfsptqueue/queue_limit.go:173-182 | present if queued and not given up by the callback, which else removes it |
| TaskQueue.TQueue.Delete | base/gfsptqueue/queue_limit.go:160-171 | gone, whatever the callback answers when asked again |
| TaskQueue.TQueue.Select | base/gfsptqueue/queue_limit.go:184-224 | scan, sort and search return an eligible entry with the least creation time above the cursor, or else the least of all; what is returned has each of its nine estimates at most the limit's; nothing comes if and only if every task is given up, filtered out or above the limit in one of the nine; what the callback gives up is gone |
| TaskQueue.ChosenInFields | base/types/gfsplimit/limit.go:57-86 | those two, of any choice, in the nine fields |
| TaskQueue.NextInFields | base/gfsptqueue/queue_limit.go:213-222 | the task returned was created first after the cursor, or first of all when none was created after it |
| TaskQueue.KeptInFields | base/gfsptqueue/queue_limit.go:184-202 | what stays and what is retired, task by task |
| TaskQueue.GotFitsScope | base/types/gfsplimit/limit.go:44-86 | a task got with remaining() as the limit asks for no more memory and tasks of any priority than the scope has left and for no connection or descriptor, and the scope accepts it |
| TaskQueue.TQueue.RetireOne | base/gfsptqueue/queue_limit.go:126-135 | the first in key order that the callback gives up, and only that |
| TaskQueue.TQueue.Has | base/gfsptqueue/queue_limit.go:52-62 | keeps the queue's invariant and says what was retired |
| TaskQueue.TQueue.Top | base/gfsptqueue/queue_limit.go:64-73 | as Select, and the invariant: pushed = queued + popped + retired, at most cap queued, filed under their own keys |
| TaskQueue.TQueue.Pop | base/gfsptqueue/queue_limit.go:75-89 | what Top returns, with the same conditions in the fields, is popped and no longer queued |
| TaskQueue.TQueue.PopByKey | base/gfsptqueue/queue_limit.go:91-108 | popped if queued and not given up; gone in any case |
| TaskQueue.TQueue.Push | base/gfsptqueue/queue_limit.go:110-143 | repeated, exceeded and pushed exactly when; a push retires at most one, which the callback gave up; for any answers of the callback |
| TaskQueue.QueuedSplit | base/gfsptqueue/queue.go:192-231 | what a scan drops and what it keeps make up the queue |
| TaskQueue.TakeOut | base/gfsptqueue/queue.go:168-179 | taking one out keeps the books once it is entered as popped or as retired |
| TaskQueue.PutIn | base/gfsptqueue/queue.go:157-166 | putting one in below capacity keeps them once it is entered as pushed |
| QueueRuns.Perform | base/gfsptqueue/queue_limit.go:52-143 | any call with any answers of the callbacks keeps the invariant and enters what its reply says |
| QueueRuns.RunAll | base/gfsptqueue/queue.go:85-231 | after any run from an empty queue, the successful pushes are exactly what is queued, what pops returned and what was retired; the callback gave up all of the latter; no more than the capacity asked for is queued |
| QueueRuns.PoppedIsGone | base/gfsptqueue/queue.go:84-116 | what was pushed once and popped is not queued, not retired, and was returned once |
| RoundRobin.OneMoreTime | base/gfsptqueue/queue_limit.go:216-222 | each call passes exactly one more creation time until all are passed |
| RoundRobin.EachTimeOnce | base/gfsptqueue/queue_limit.go:184-224 | from any cursor, as many calls as there are creation times visit each exactly once |
| RoundRobin.EachTaskOnce | base/gfsptqueue/queue_limit.go:184-224 | with distinct creation times n calls return each of n entries exactly once |
| RoundRobin.Stretch | base/gfsptqueue/queue_limit.go:184-224 | any stretch of consecutive calls is a round of its own |
| RoundRobin.TopRepeatedly | base/gfsptqueue/queue_limit.go:64-73 | with callbacks that keep their answers, every stretch of as many calls as there are creation times visits each of them, and each task if they are distinct, exactly once; nothing comes if and only if nothing is eligible, and what is given up goes with the first call |
| GroupDeletion.GroupMonitor.Monitor | base/gfspvgmgr/virtual_group_manager.go:567-659 | what is remembered, and exactly when a delete or a deposit is sent, succeeds or fails: deletes only for stored = 0 here and on the chain, deposits from 20·stored ≥ 19·staked on |
| GroupDeletion.GroupMonitor.Purge | base/gfspvgmgr/virtual_group_manager.go:577-584 | what is due for more than a minute is forgotten, nothing else |
| GroupDeletion.WaitingSince | base/gfspvgmgr/virtual_group_manager.go:599-605 | in every run a group waits since a confirmed empty observation of its own, after its last delete |
| GroupDeletion.DeletionIsDelayed | base/gfspvgmgr/virtual_group_manager.go:567-624 | in every run, for any clock, a delete at T follows a visit at t0 with 86400 <= T - t0 <= 86460, and at both the group has nothing stored, by the chain's word |
| GroupDeletion.DeletedOnce | base/gfspvgmgr/virtual_group_manager.go:606-623 | between two deletes of a group, the first successful, lies a new observation |
| GroupDeletion.WaitingHolds | base/gfspvgmgr/virtual_group_manager.go:576-605 | a waiting group was entered by a call that, read off the calls alone, is neither forgotten nor completed since |
| GroupDeletion.HoldsWaits | base/gfspvgmgr/virtual_group_manager.go:576-605 | and what such a call entered is waiting, with its time |
| GroupDeletion.EntersIff | base/gfspvgmgr/virtual_group_manager.go:599-605 | a call enters its group if and only if it confirms it empty and no earlier entry of it is kept |
| GroupDeletion.WaitingIff | base/gfspvgmgr/virtual_group_manager.go:576-605 | a group waits if and only if an entry of it holds |
| GroupDeletion.DeletesIff | base/gfspvgmgr/virtual_group_manager.go:567-624 | in every run, for any clock: a delete is sent if and only if nothing is stored by the chain's word and an entry, made with nothing stored by the chain's word, between 86400 and 86460 seconds old holds: no later empty visit past that time and no delete that went through in between |
| GroupDeletion.DeletedAfterADay | base/gfspvgmgr/virtual_group_manager.go:567-624 | conditions on the fields of the visits alone that are enough for a delete |
| GroupDeletion.DataOnChain | base/gfspvgmgr/virtual_group_manager.go:586-597 | a visit to which the chain does not say that nothing is stored sends no delete and enters nothing |
| GroupDeletion.MonitorAll | base/gfspvgmgr/virtual_group_manager.go:567-659 | over any run of visits the monitor object sends exactly these deletes |
| GroupDeletion.NeedDepositRatio | base/gfspvgmgr/virtual_group_manager.go:625-645 | the ratio of 95 percent in integers |
| GroupDeletion.NotEmptyForgottenIff | base/gfspvgmgr/virtual_group_manager.go:576-584 | a visit that does not confirm the group empty leaves it forgotten if and only if no entry held or the one that did was overdue and looked at |
| GroupDeletion.RefillsIgnored | base/gfspvgmgr/virtual_group_manager.go:576-584 | in every run, leaving out all visits that were handed a group that is not empty leaves the waiting list as it is |
| GroupDeletion.RefillsDelayNothing | base/gfspvgmgr/virtual_group_manager.go:567-624 | and whether the next visit sends a delete |
| GroupDeletion.DeletedThoughRefilled | base/gfspvgmgr/virtual_group_manager.go:576-584 | such a run: a group that was not empty in between is deleted all the same |
| SPHealth.HealthChecker.AddAllSP | base/gfspvgmgr/virtual_group_manager.go:675-682 | the list is replaced, the unhealthy set kept |
| SPHealth.HealthChecker.CheckAllSPHealth | base/gfspvgmgr/virtual_group_manager.go:734-780 | one round: failing ones replace the set only if enough are left, otherwise only recovered ones leave it |
| SPHealth.RoundInSets | base/gfspvgmgr/virtual_group_manager.go:734-780 | a round in plain sets: if a listed probe fails and enough listed probes succeed the set is exactly the failing ones, otherwise those that succeeded leave it |
| SPHealth.SetAsideInEveryRun | base/gfspvgmgr/virtual_group_manager.go:756-778 | so after every event of every run |
| SPHealth.EntersByOwnProbe | base/gfspvgmgr/virtual_group_manager.go:743-771 | in every run a provider gets into the set only in a round in which it is listed, its own probe fails and enough succeed |
| SPHealth.HealthChecker.IsGVGHealthy | base/gfspvgmgr/virtual_group_manager.go:701-712 | no secondary is both listed and unhealthy |
| SPHealth.HealthyInSets | base/gfspvgmgr/virtual_group_manager.go:684-712 | the same as an empty intersection of three sets |
| SPHealth.HealthChecker.IsVGFHealthy | base/gfspvgmgr/virtual_group_manager.go:714-732 | counting down decides: no group at all, or a healthy one |
| SPHealth.AlwaysEnoughLeft | base/gfspvgmgr/virtual_group_manager.go:756-778 | list and redundancy number fixed, the unhealthy set stays within the list and empty or leaving that many outside |
| SPHealth.EnoughLeftInEveryRun | base/gfspvgmgr/virtual_group_manager.go:669-780 | so in every run from the start |
| SPHealth.LeavesByOwnProbe | base/gfspvgmgr/virtual_group_manager.go:743-754 | in every run, lists changing or not, a provider leaves the set only through a round in which its own probe succeeded or it was not listed |
| SPHealth.LeavesByProbeAlone | base/gfspvgmgr/virtual_group_manager.go:743-754 | with list and redundancy number fixed, only through a round in which its own probe succeeded |
| GroupPicker.SumWithout | base/gfspvgmgr/virtual_group_manager.go:89-91 | the sum of weights does not depend on the order of the map |
| GroupPicker.FreeStorageSizeWeightPicker.Add | base/gfspvgmgr/virtual_group_manager.go:69-81 | the free share is the weight, which is positive; nothing unless 20·used < 19·staked |
| GroupPicker.SpaciousRatio | base/gfspvgmgr/virtual_group_manager.go:69-81 | the ratio of 95 percent in integers |
| GroupPicker.IntervalsInNumbers | base/gfspvgmgr/virtual_group_manager.go:93-98 | an interval is as long as the weight of its key, and the first starts at zero |
| GroupPicker.PrefixAll | base/gfspvgmgr/virtual_group_manager.go:89-98 | the weights of all keys, in any order, add up to the sum the draw is scaled by |
| GroupPicker.OnlyInterval | base/gfspvgmgr/virtual_group_manager.go:93-98 | the intervals of the keys do not overlap |
| GroupPicker.FreeStorageSizeWeightPicker.PickIndex | base/gfspvgmgr/virtual_group_manager.go:83-100 | for every order of the keys: the i-th is picked if and only if draw times the sum lies between the weight of the first i and of the first i + 1 keys, an interval as long as its weight that the draw has no part in; something is picked unless there is no key |
| GroupPicker.PickGroup | base/gfspvgmgr/virtual_group_manager.go:129-157 | on a known family succeeds if and only if a group is not frozen, not excluded, healthy and spacious, and returns one, each for exactly the draws of an interval in proportion to its free share; stale metadata otherwise |
| GroupPicker.CandidateInFields | base/gfspvgmgr/virtual_group_manager.go:139-149 | which groups those are, in sets and numbers |
| GroupPicker.GroupWeightsInFields | base/gfspvgmgr/virtual_group_manager.go:139-149 | and what they weigh |
| GroupPicker.CheckAllowed | core/vgmgr/virtual_group_manager.go:72-84 | counting down decides whether some group avoids the blacklist |
| GroupPicker.PickFamily | base/gfspvgmgr/virtual_group_manager.go:102-127 | succeeds if and only if a family passes all filters and has room, and returns one, each for exactly the draws of an interval in proportion to its free share |
| GroupPicker.FamilyCandidateInFields | base/gfspvgmgr/virtual_group_manager.go:109-121 | which families those are, in sets and numbers |
| GroupPicker.FamilyWeightsInFields | base/gfspvgmgr/virtual_group_manager.go:109-121 | and what they weigh |
| GroupPicker.PickGlobalVirtualGroup | base/gfspvgmgr/virtual_group_manager.go:442-448 | the same with frozen read off the freeze pool |
| GroupPicker.CandidateIff | base/gfspvgmgr/sp_freeze_pool.go:29-75 | in every run of the pool a group that could be picked otherwise is left out exactly while the freeze of a provider that joined it lasts |
| FreezePool.FreezeSPPool.Freeze | base/gfspvgmgr/sp_freeze_pool.go:29-36 | frozen for five minutes |
| FreezePool.FreezeSPPool.FrozenGroups | base/gfspvgmgr/sp_freeze_pool.go:47-58 | exactly the groups of the family that a frozen provider has joined |
| FreezePool.FreezeSPPool.Release | base/gfspvgmgr/sp_freeze_pool.go:60-68 | exactly those whose time is over are released |
| FreezePool.FreezeSPPool.ReleaseAll | base/gfspvgmgr/sp_freeze_pool.go:70-75 | all are released |
| FreezePool.InPoolSince | base/gfspvgmgr/sp_freeze_pool.go:29-75 | in every run who is in the pool was put there by a freeze that lasts |
| FreezePool.LastingInPool | base/gfspvgmgr/sp_freeze_pool.go:29-75 | and whose freeze lasts is in the pool |
| FreezePool.FrozenIff | base/gfspvgmgr/sp_freeze_pool.go:29-75 | in every run, for any clock: a group is frozen if and only if a freeze named it and there was since then no release later than 300 seconds after it, no release of all and no new freeze of the same provider |
| FreezePool.FrozenInFields | base/gfspvgmgr/sp_freeze_pool.go:29-75 | the same in the fields of the calls |
| PieceOp.SplitKey | base/gfsppieceop/piece_op.go:15-40 | a key falls into its parts at the underscores, for every version and redundancy index |
| PieceOp.KeyTexts | base/gfsppieceop/piece_op.go:15-40 | the text of every key, letter by letter around its numbers |
| PieceOp.KeyExamples | base/gfsppieceop/piece_op.go:15-40 | s12_s0 and e12_s0_p3_v-7 |
| PieceOp.ParseChallengeKey | base/gfsppieceop/piece_op.go:115-128 | every challenge key parses back to segment and redundancy index, negatives as -1 |
| PieceOp.KeysEqualIff | base/gfsppieceop/piece_op.go:15-40 | two keys are equal if and only if object, segment and version agree and the redundancy indices are equal or both negative |
| PieceOp.CeilBounds | base/gfsppieceop/piece_op.go:74-80 | the count is the least number of segments that hold the payload |
| PieceOp.CountBounds | base/gfsppieceop/piece_op.go:74-80 | the count as returned is that number modulo 2^32 |
| PieceOp.ParsePanicsIff | base/gfsppieceop/piece_op.go:82-128 | for every string of bytes, by its parts: exactly when ParseSegmentIdx, ParseECPieceKeyIdx and ParseChallengeIdx each panic |
| PieceOp.ParseOkIff | base/gfsppieceop/piece_op.go:82-128 | for every string of bytes, by its parts: exactly when each of them returns which numbers |
| PieceOp.ParsePanicExamples | base/gfsppieceop/piece_op.go:82-128 | the empty string and keys with an empty second part |
| PieceOp.SlicingDropsOneByte | base/gfsppieceop/piece_op.go:94-113 | any one byte before the segment number is skipped, so that an empty third part panics; of a longer character a byte is left, which is an error |
| PieceOp.SizeOfSegment | base/gfsppieceop/piece_op.go:49-58 | for all 64-bit sizes, the size of a counted segment is the maximum, or for the last what is left, as an int64 |
| PieceOp.FirstIsLargestIff | base/gfsppieceop/piece_op.go:42-58 | for all 64-bit sizes: the first segment has MaxSegmentPieceSize if and only if there is a payload and, when one segment is counted, it needs only one |
| PieceOp.SegmentBoundsIff | base/gfsppieceop/piece_op.go:42-58 | for all 64-bit sizes: segments are not empty and at most the maximum if and only if none is counted, or the count fits in 32 bits and one of the sizes in int64 |
| PieceOp.SegmentsPartitionIff | base/gfsppieceop/piece_op.go:49-58 | for all 64-bit sizes: the sizes of the counted segments add up to the payload if and only if it is empty, or some are counted and the last and, with several, the maximum fit in int64; with a count of 32 bits, if and only if one of the sizes fits in int64 |
| PieceOp.ECPiecesCover | base/gfsppieceop/piece_op.go:60-72 | for all sizes and segments, the data pieces cover the segment, and with a byte less each they would not |
| ListCodecs.SplitByComma | util/string.go:91-102 | the loop computes CommaParts |
| ListCodecs.SplitIsClean | util/string.go:86-102 | for every string the parts are not empty, trimmed and free of commas, and joining and splitting them again changes nothing |
| ListCodecs.SplitOfJoin | util/string.go:86-102 | splitting undoes joining for every such list |
| ListCodecs.SplitOfItems | util/string.go:91-102 | for every list of items without commas, spaces and all: each is trimmed, the blank ones dropped |
| ListCodecs.SplitOfPadded | util/string.go:91-102 | a clean list is read back from a text with any spaces around its parts |
| ListCodecs.ReadAllInFields | util/string.go:145-156 | a list is read part by part, in order, or not at all |
| ListCodecs.ToUint32Iff | util/string.go:46-55 | a part is a number below 2^32 if and only if it is its decimal text, after any number of zeros |
| ListCodecs.NumberListText | util/string.go:136-143 | the list 12, 3 is written 12,3 |
| ListCodecs.BytesListText | util/string.go:114-121 | the bytes ab and 01 are written ab,01 |
| ListCodecs.Uint32SliceToString | util/string.go:136-143 | the numbers in decimal (FormatIsDecimal), joined |
| ListCodecs.StringToUint32Slice | util/string.go:145-156 | every part read, or an error |
| ListCodecs.Uint32RoundTrip | util/string.go:136-156 | every list of numbers is read back as written |
| ListCodecs.BytesSliceToString | util/string.go:114-121 | the byte strings in hexadecimal, joined |
| ListCodecs.StringToBytesSlice | util/string.go:123-134 | every part decoded; or an error and a list of that length with what was decoded up to the first part that is not hexadecimal |
| ListCodecs.BytesRoundTrip | util/string.go:114-134 | every list of byte strings is read back in order with exactly its empty elements dropped |
| Text.ParseFormat | util/string.go:19-26 | a formatted number is parsed back if it fits and refused if it does not |
| Text.FormatIsDecimal | util/string.go:104-107 | the character i places from the right has the code 48 + n / 10^i % 10, there are as many as n needs, and the first is 0 only for zero |
| Text.FormatIntSign | base/gfsppieceop/piece_op.go:15-23 | a negative number has a minus sign in front |
| Text.ParseUintIff | util/string.go:19-26 | a text is read as n if and only if it is the decimal text of n, after any number of zeros, and n fits |
| Text.ParseIntIff | util/string.go:28-35 | the same with a sign or none |
| Text.HexCodes | util/string.go:123-134 | the hexadecimal digits by their codes |
| Text.EncodeHexDigits | util/string.go:114-121 | two lower-case digits for each byte, by their codes, the high half first |
| Text.DecodeHexIff | util/string.go:123-134 | a text decodes to b if and only if it has the two digits of each byte of b |
| Text.HexPrefixIs | util/string.go:123-134 | what comes with an error is the longest run of pairs from the start, decoded |
| Text.TrimSpaceCut | util/string.go:91-102 | trimming cuts off spaces at both ends, all of them and nothing else |
| Text.TrimPaddedSame | util/string.go:91-102 | spaces put around any text make no difference to it |
| Text.Spaces | util/string.go:91-102 | which characters of ASCII are spaces |
| Text.JoinCons | util/string.go:86-89 | joining is the first part, the separator and the rest |
| Text.JoinSplit | util/string.go:86-93 | joining the parts of any string gives it back |

## Left out

- Concurrency inside a call: each exported method is one atomic step; lock order and deadlock are not modelled.
- The memory limit MaxInt64 beyond `CheckMemoryExact`: it switches the check off, so there is no limit to keep.
- Task and connection requests below zero or above MaxInt64 - MaxInt32 beyond `AddTaskOverflow` and `AddConnsOverflow`: a counter may overflow or get negative, and the scope then is outside its limits.
- Releases of negative amounts beyond `DropWithinLimit`: they raise a counter without any check.
- Scopes with several edges in `Conservation`: the manager opens none; `ReserveLaw` and `ResourcesLaw` do cover them.
- NotLess aside, the arithmetic of `base/types/gfsplimit` (Add, Sub, Equal), which one line each settles.
- GroupPicker.FreeStorageSizeWeightPicker.PickIndex: real numbers for float64, so rounding is not modelled.
- Tasks are values with a fixed key and creation time; in the source they are shared pointers.
- Picking for bucket migration, generating new groups and refreshing the metadata, which repeat the same filters or only copy.
- HTTP probing with its retries, gRPC servers and clients, chain queries, logging and metrics.
