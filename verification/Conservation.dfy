/**
 * Conservation: over every run of the resource manager in which no one releases what is not his
 * and no refusal leaves a trace, what an open scope accounts for is what it holds
 * itself plus what its open children account for, in whatever order scopes are closed.
 */
module Conservation {
  import opened Options
  import opened Resources
  import opened ScopeLaws
  import opened ScopeRuns

  /** The seven counters of a scope, and the number of open children. */
  datatype Counter = Bytes | HighTasks | MediumTasks | LowTasks | ConnsIn | ConnsOut | Files | Heads

  function At(u: ScopeStat, k: Counter): int {
    match k
    case Bytes => u.memory
    case HighTasks => u.tasksHigh
    case MediumTasks => u.tasksMedium
    case LowTasks => u.tasksLow
    case ConnsIn => u.connsIn
    case ConnsOut => u.connsOut
    case Files => u.fd
    case Heads => 0
  }

  lemma CountersInFields(u: ScopeStat)
    ensures u == ScopeStat(At(u, Bytes), At(u, HighTasks), At(u, MediumTasks), At(u, LowTasks),
                           At(u, ConnsIn), At(u, ConnsOut), At(u, Files))
  {
  }

  /** What a child contributes to its parent; nothing once it is closed. */
  function Weight(x: Cell, k: Counter): int {
    if x.done then 0 else if k.Heads? then 1 else At(x.rc, k)
  }

  function Parent(g: seq<Node>, i: nat): Option<nat>
    requires i < |g|
  {
    if g[i].owner.Some? then g[i].owner
    else if g[i].edges == [] then None
    else Some(g[i].edges[0])
  }

  /** The topology OpenService and BeginSpan build: everything hangs below the system scope, number 0. */
  predicate Tree(g: seq<Node>) {
    && WellFormed(g)
    && 0 < |g|
    && forall i :: 0 <= i < |g| ==>
         if i == 0 then g[i].owner == None && g[i].edges == []
         else g[i].owner.Some? || g[i].edges == [0]
  }

  function ChildSum(g: seq<Node>, c: seq<Cell>, i: nat, k: Counter, n: nat): int
    requires n <= |c| == |g|
  {
    if n == 0 then 0
    else ChildSum(g, c, i, k, n - 1) + if Parent(g, n - 1) == Some(i) then Weight(c[n - 1], k) else 0
  }

  /** If at most the child j changes, the sum changes by as much. */
  lemma {:induction false} SumDelta(g: seq<Node>, c: seq<Cell>, g': seq<Node>, c': seq<Cell>,
                                    i: nat, k: Counter, n: nat, j: nat)
    requires n <= |c| == |g| && n <= |c'| == |g'|
    requires forall t :: 0 <= t < n ==> g'[t] == g[t]
    requires forall t :: 0 <= t < n && t != j && Parent(g, t) == Some(i) ==> Weight(c'[t], k) == Weight(c[t], k)
    ensures ChildSum(g', c', i, k, n) == ChildSum(g, c, i, k, n) +
            if j < n && Parent(g, j) == Some(i) then Weight(c'[j], k) - Weight(c[j], k) else 0
  {
    if n > 0 {
      SumDelta(g, c, g', c', i, k, n - 1, j);
    }
  }

  lemma {:induction false} SumAtLeast(g: seq<Node>, c: seq<Cell>, i: nat, k: Counter, n: nat, j: nat)
    requires Sound(g, c) && n <= |c|
    ensures ChildSum(g, c, i, k, n) >= 0
    ensures j < n && Parent(g, j) == Some(i) ==> ChildSum(g, c, i, k, n) >= Weight(c[j], k)
  {
    if n > 0 {
      SumAtLeast(g, c, i, k, n - 1, j);
      assert Weight(c[n - 1], k) >= 0;
    }
  }

  // ----- climbing in a tree --------------------------------------------------------------------

  lemma AboveIsReaches(g: seq<Node>, c: seq<Cell>, s: nat, i: nat)
    requires Tree(g) && |c| == |g| && s < |g|
    ensures Parent(g, s).Some? ==> Parent(g, s).value < s
    ensures Above(g, c, s, i) <==> Parent(g, s).Some? && Reaches(g, c, Parent(g, s).value, i)
  {
    assert NodeOk(g, s);
  }

  /** A climb that gets to j gets to an open parent of j. */
  lemma {:induction false} ClimbOn(g: seq<Node>, c: seq<Cell>, s: nat, j: nat)
    requires Tree(g) && |c| == |g| && s < |g| && j < |g|
    requires Reaches(g, c, s, j) && Parent(g, j).Some? && Parent(g, j).value < |c| && !c[Parent(g, j).value].done
    ensures Reaches(g, c, s, Parent(g, j).value)
    decreases s
  {
    AboveIsReaches(g, c, s, j);
    AboveIsReaches(g, c, s, Parent(g, j).value);
    if j != s {
      ClimbOn(g, c, Parent(g, s).value, j);
    }
  }

  /** A climb that gets to i from elsewhere passes through exactly one child of i. */
  lemma {:induction false} ClimbThrough(g: seq<Node>, c: seq<Cell>, s: nat, i: nat) returns (j: nat)
    requires Tree(g) && |c| == |g| && s < |g| && i != s && Reaches(g, c, s, i)
    ensures j < |g| && Parent(g, j) == Some(i) && Reaches(g, c, s, j)
    ensures forall t :: 0 <= t < |g| && Parent(g, t) == Some(i) && Reaches(g, c, s, t) ==> t == j
    decreases s
  {
    AboveIsReaches(g, c, s, i);
    var p := Parent(g, s).value;
    if i == p {
      j := s;
      forall t | 0 <= t < |g| && Parent(g, t) == Some(i) && Reaches(g, c, s, t)
        ensures t == s
      {
        AboveIsReaches(g, c, s, t);
        AboveIsReaches(g, c, t, i);
        ReachesOlder(g, c, p, t);
      }
    } else {
      j := ClimbThrough(g, c, p, i);
      AboveIsReaches(g, c, s, j);
      forall t | 0 <= t < |g| && Parent(g, t) == Some(i) && Reaches(g, c, s, t)
        ensures t == j
      {
        AboveIsReaches(g, c, s, t);
      }
    }
  }

  /** What scope i accounts for beyond its open children. */
  function Own(g: seq<Node>, c: seq<Cell>, i: nat, k: Counter): int
    requires i < |c| == |g|
  {
    At(c[i].rc, k) - ChildSum(g, c, i, k, |c|)
  }

  /** A climb from s by d at every scope it reaches changes only what s itself accounts for. */
  lemma ClimbShift(g: seq<Node>, c: seq<Cell>, c': seq<Cell>, s: nat, d: int, k: Counter, i: nat)
    requires Tree(g) && |c| == |g| && s < |g| && i < |g| && SameFlags(c, c') && !c[i].done
    requires k.Heads? ==> d == 0
    requires forall t :: 0 <= t < |c| ==> At(c'[t].rc, k) == At(c[t].rc, k) + if Reaches(g, c, s, t) then d else 0
    ensures Own(g, c', i, k) == Own(g, c, i, k) + if i == s then d else 0
  {
    if Reaches(g, c, s, i) && i != s {
      var j := ClimbThrough(g, c, s, i);
      ReachesOlder(g, c, s, j);
      SumDelta(g, c, g, c', i, k, |c|, j);
    } else {
      forall t | 0 <= t < |c| && Parent(g, t) == Some(i)
        ensures Weight(c'[t], k) == Weight(c[t], k)
      {
        if Reaches(g, c, s, t) {
          ReachesOlder(g, c, s, t);
          AboveIsReaches(g, c, t, i);
          ClimbOn(g, c, s, t);
        }
      }
      SumDelta(g, c, g, c', i, k, |c|, |c|);
    }
  }

  // ----- the ledger ----------------------------------------------------------------------------

  /** The scopes, and what each of them holds itself. */
  datatype Ledger = Ledger(m: System, held: seq<ScopeStat>)

  /** Each open scope accounts for what it holds and for its open children, in every counter. */
  predicate Accounted(l: Ledger) {
    && Healthy(l.m) && Tree(l.m.g) && |l.held| == |l.m.c|
    && (forall i :: 0 <= i < |l.held| ==> NonNegative(l.held[i]))
    && (forall i, k: Counter :: 0 <= i < |l.held| && !l.m.c[i].done && !k.Heads? ==>
          Own(l.m.g, l.m.c, i, k) == At(l.held[i], k))
  }

  /** The reservation is granted, or its refusal leaves no trace, as RefusedIff says. */
  predicate Traceless(m: System, s: nat, req: Request)
    requires Healthy(m) && s < |m.g|
  {
    var path := Path(m.g, s);
    || (forall i :: i in path ==> !Refuses(m.g, m.c, i, req))
    || (forall j :: 0 <= j < FirstRefusal(m.g, m.c, path, req) ==> Restores(m.c[path[j]].rc, req))
  }

  /** The same for ReserveResources, as ResourcesRefusedIff says. */
  predicate TracelessResources(m: System, s: nat, st: ScopeStat)
    requires Healthy(m) && s < |m.g|
  {
    || (forall i :: i in ResourcePath(m.g, s) ==> !Refuses(m.g, m.c, i, All(st)))
    || Refuses(m.g, m.c, s, All(st))
    || (forall i :: 0 <= i < |m.c| && Above(m.g, m.c, s, i) ==> Untouched(m.c[i].rc, st))
  }

  /**
   * The caller releases no more than the scope holds itself, and a reservation that some scope
   * refuses leaves nothing behind; always so for memory and known tasks (MemoryAndTasksFair).
   */
  predicate Fair(l: Ledger, op: Op)
    requires Accounted(l)
  {
    && Legal(l.m, op)
    && match op
       case Reserve(s, req) => Traceless(l.m, s, req)
       case Release(s, req) => l.m.c[s].done || AtMost(UndoAmount(req), l.held[s])
       case ReserveResources(s, st) => TracelessResources(l.m, s, st)
       case ReleaseSelf(s) => l.m.c[s].done || AtMost(l.m.c[s].rc, l.held[s])
       case _ => true
  }

  /** Reservations of memory, of tasks of a known priority and of outbound connections are fair in every state. */
  lemma MemoryAndTasksFair(l: Ledger, s: nat, req: Request)
    requires Accounted(l) && s < |l.m.g| && ValidRequest(req)
    requires req.Memory? || (req.Tasks? && req.taskPrio != UnknownPriority) || req == Conn(Outbound)
    ensures Fair(l, Reserve(s, req))
  {
    assert Balanced(req);
  }

  predicate AtMost(u: ScopeStat, v: ScopeStat) {
    && u.memory <= v.memory
    && u.tasksHigh <= v.tasksHigh && u.tasksMedium <= v.tasksMedium && u.tasksLow <= v.tasksLow
    && u.connsIn <= v.connsIn && u.connsOut <= v.connsOut && u.fd <= v.fd
  }

  function Book(l: Ledger, op: Op): Ledger
    requires Accounted(l) && Fair(l, op)
  {
    var m' := Step(l.m, op);
    match op
    case OpenService(limit) => Ledger(m', l.held + [NO_USE])
    case BeginSpan(s) =>
      l.(m := m', held := if l.m.c[s].done then l.held else l.held + [NO_USE])
    case Reserve(s, req) =>
      l.(m := m', held := if ReserveLaw(l.m.g, l.m.c, s, req).0
                          then l.held[s := Plus(l.held[s], DoAmount(req))] else l.held)
    case Release(s, req) =>
      l.(m := m', held := if l.m.c[s].done then l.held else l.held[s := Minus(l.held[s], UndoAmount(req))])
    case ReserveResources(s, st) =>
      l.(m := m', held := if ResourcesLaw(l.m.g, l.m.c, s, st).0
                          then l.held[s := Plus(l.held[s], st)] else l.held)
    case ReleaseSelf(s) =>
      l.(m := m', held := if l.m.c[s].done then l.held else l.held[s := NO_USE])
    case Done(s) => l.(m := m', held := l.held[s := NO_USE])
  }

  /** Climbing never meets less than it started from, so no release of one's own stops at zero. */
  lemma {:induction false} NoClamp(l: Ledger, s: nat, i: nat, k: Counter)
    requires Accounted(l) && s < |l.m.c| && Reaches(l.m.g, l.m.c, s, i) && !k.Heads?
    ensures i < |l.m.c| && At(l.m.c[i].rc, k) >= At(l.m.c[s].rc, k) >= At(l.held[s], k) >= 0
    decreases s
  {
    var g, c := l.m.g, l.m.c;
    ReachesOlder(g, c, s, i);
    SumAtLeast(g, c, s, k, |c|, 0);
    assert Own(g, c, s, k) == At(l.held[s], k);
    if i != s {
      AboveIsReaches(g, c, s, i);
      var p := Parent(g, s).value;
      NoClamp(l, p, i, k);
      SumAtLeast(g, c, p, k, |c|, s);
      assert Own(g, c, p, k) == At(l.held[p], k);
    }
  }

  /** From one ledger to the next by a climb from s. */
  lemma Shifted(l: Ledger, l': Ledger, s: nat, up: bool, d: ScopeStat)
    requires Accounted(l) && s < |l.m.c| && !l.m.c[s].done && NonNegative(d)
    requires l'.m.g == l.m.g && Healthy(l'.m) && SameFlags(l.m.c, l'.m.c)
    requires !up ==> AtMost(d, l.held[s])
    requires forall i :: 0 <= i < |l.m.c| ==>
               l'.m.c[i].rc == if !Reaches(l.m.g, l.m.c, s, i) then l.m.c[i].rc
                               else if up then Plus(l.m.c[i].rc, d) else Minus(l.m.c[i].rc, d)
    requires l'.held == l.held[s := if up then Plus(l.held[s], d) else Minus(l.held[s], d)]
    ensures Accounted(l')
  {
    var g, c, c' := l.m.g, l.m.c, l'.m.c;
    forall i, k: Counter | 0 <= i < |c| && !c'[i].done && !k.Heads?
      ensures Own(g, c', i, k) == At(l'.held[i], k)
    {
      var x := if up then At(d, k) else -At(d, k);
      forall t | 0 <= t < |c|
        ensures At(c'[t].rc, k) == At(c[t].rc, k) + if Reaches(g, c, s, t) then x else 0
      {
        if Reaches(g, c, s, t) {
          NoClamp(l, s, t, k);
          ShiftedCounter(c[t].rc, up, d, k);
        }
      }
      ClimbShift(g, c, c', s, x, k, i);
      assert Own(g, c, i, k) == At(l.held[i], k);
      ShiftedCounter(l.held[s], up, d, k);
    }
  }

  lemma ShiftedCounter(u: ScopeStat, up: bool, d: ScopeStat, k: Counter)
    requires !up ==> At(u, k) >= At(d, k)
    ensures At(if up then Plus(u, d) else Minus(u, d), k) == At(u, k) + if up then At(d, k) else -At(d, k)
  {
  }

  /** Where nothing is closed, the scopes a reservation passes are those a release would reach. */
  lemma {:induction false} PathIsClimb(g: seq<Node>, c: seq<Cell>, s: nat, i: nat)
    requires Tree(g) && |c| == |g| && s < |g|
    requires forall t :: t in Path(g, s) ==> t < |c| && !c[t].done
    ensures i in Path(g, s) <==> Reaches(g, c, s, i)
    ensures ResourcePath(g, s) == Path(g, s)
    decreases s
  {
    assert NodeOk(g, s);
    AboveIsReaches(g, c, s, i);
    assert s in Path(g, s);
    if g[s].owner.Some? {
      var o := g[s].owner.value;
      assert Path(g, s) == [s] + Path(g, o);
      PathIsClimb(g, c, o, i);
    } else if s != 0 {
      assert Path(g, s) == [s, 0];
      assert 0 in Path(g, s);
    }
  }

  /** A granted reservation adds d at every scope the climb from s reaches. */
  lemma GrantedShift(g: seq<Node>, c: seq<Cell>, s: nat, req: Request)
    requires Sound(g, c) && Tree(g) && s < |g| && FirstRefusal(g, c, Path(g, s), req) == |Path(g, s)|
    ensures !c[s].done && NonNegative(DoAmount(req)) && ResourcePath(g, s) == Path(g, s)
    ensures forall i :: 0 <= i < |c| ==>
              Charged(c, Path(g, s), DoAmount(req))[i].rc ==
              if Reaches(g, c, s, i) then Plus(c[i].rc, DoAmount(req)) else c[i].rc
  {
    var path := Path(g, s);
    assert !Refuses(g, c, path[0], req);
    forall t | t in path
      ensures t < |c| && !c[t].done
    {
      var j :| 0 <= j < |path| && path[j] == t;
      assert !Refuses(g, c, path[j], req);
    }
    forall i | 0 <= i < |c|
      ensures i in path <==> Reaches(g, c, s, i)
    {
      PathIsClimb(g, c, s, i);
    }
    PathIsClimb(g, c, s, s);
  }

  /** Traceless is what it says. */
  lemma TracelessIff(m: System, s: nat, req: Request)
    requires Healthy(m) && s < |m.g| && ValidRequest(req) && !req.All?
    ensures var (ok, c') := ReserveLaw(m.g, m.c, s, req);
            Traceless(m, s, req) <==> ok || c' == m.c
  {
    GrantedIff(m.g, m.c, s, req);
    if !ReserveLaw(m.g, m.c, s, req).0 {
      RefusedIff(m.g, m.c, s, req);
    }
  }

  lemma GrantedAccounted(l: Ledger, s: nat, req: Request, c': seq<Cell>)
    requires Accounted(l) && s < |l.m.g| && FirstRefusal(l.m.g, l.m.c, Path(l.m.g, s), req) == |Path(l.m.g, s)|
    requires c' == Charged(l.m.c, Path(l.m.g, s), DoAmount(req)) && Sound(l.m.g, c')
    ensures Accounted(Ledger(l.m.(c := c'), l.held[s := Plus(l.held[s], DoAmount(req))]))
  {
    GrantedShift(l.m.g, l.m.c, s, req);
    Shifted(l, Ledger(l.m.(c := c'), l.held[s := Plus(l.held[s], DoAmount(req))]), s, true, DoAmount(req));
  }

  lemma ReserveAccounted(l: Ledger, s: nat, req: Request)
    requires Accounted(l) && Fair(l, Reserve(s, req))
    ensures Accounted(Book(l, Reserve(s, req)))
  {
    ReserveHealthy(l.m.g, l.m.c, s, req);
    TracelessIff(l.m, s, req);
    if ReserveLaw(l.m.g, l.m.c, s, req).0 {
      GrantedAccounted(l, s, req, ReserveLaw(l.m.g, l.m.c, s, req).1);
    }
  }

  /** In a tree the two reservation paths are one. */
  lemma {:induction false} SamePath(g: seq<Node>, s: nat)
    requires Tree(g) && s < |g|
    ensures ResourcePath(g, s) == Path(g, s)
    decreases s
  {
    assert NodeOk(g, s);
    if g[s].owner.Some? {
      SamePath(g, g[s].owner.value);
    }
  }

  lemma TracelessResourcesIff(m: System, s: nat, st: ScopeStat)
    requires Healthy(m) && s < |m.g| && ValidRequest(All(st))
    ensures var (ok, c') := ResourcesLaw(m.g, m.c, s, st);
            TracelessResources(m, s, st) <==> ok || c' == m.c
  {
    ResourcesGrantedIff(m.g, m.c, s, st);
    if !ResourcesLaw(m.g, m.c, s, st).0 {
      ResourcesRefusedIff(m.g, m.c, s, st);
    }
  }

  lemma ResourcesAccounted(l: Ledger, s: nat, st: ScopeStat)
    requires Accounted(l) && Fair(l, ReserveResources(s, st))
    ensures Accounted(Book(l, ReserveResources(s, st)))
  {
    ResourcesHealthy(l.m.g, l.m.c, s, st);
    TracelessResourcesIff(l.m, s, st);
    SamePath(l.m.g, s);
    if ResourcesLaw(l.m.g, l.m.c, s, st).0 {
      GrantedAccounted(l, s, All(st), ResourcesLaw(l.m.g, l.m.c, s, st).1);
    }
  }

  lemma ReleaseAccounted(l: Ledger, s: nat, req: Request)
    requires Accounted(l) && s < |l.m.g| && NonNegative(UndoAmount(req)) && !l.m.c[s].done
    requires AtMost(UndoAmount(req), l.held[s])
    ensures Accounted(l.(m := l.m.(c := ReleaseLaw(l.m.g, l.m.c, s, req)),
                         held := l.held[s := Minus(l.held[s], UndoAmount(req))]))
  {
    ReleaseHealthy(l.m.g, l.m.c, s, req);
    var l' := l.(m := l.m.(c := ReleaseLaw(l.m.g, l.m.c, s, req)),
                 held := l.held[s := Minus(l.held[s], UndoAmount(req))]);
    Shifted(l, l', s, false, UndoAmount(req));
  }

  lemma ReleaseClosed(g: seq<Node>, c: seq<Cell>, s: nat, req: Request)
    requires WellFormed(g) && |c| == |g| && s < |g| && c[s].done
    ensures ReleaseLaw(g, c, s, req) == c
  {
  }

  /** Closing s: its whole account leaves the scopes above, and s leaves its parent's children. */
  lemma DoneAccounted(l: Ledger, s: nat)
    requires Accounted(l) && s < |l.m.g|
    ensures Accounted(Book(l, Done(s)))
  {
    var g, c := l.m.g, l.m.c;
    DoneHealthy(g, c, s);
    if !c[s].done {
      forall i, k: Counter | 0 <= i < |c| && !DoneLaw(g, c, s)[i].done && !k.Heads?
        ensures Own(g, DoneLaw(g, c, s), i, k) == At(l.held[i], k)
      {
        DoneOwn(l, s, i, k);
      }
    }
  }

  lemma DoneOwn(l: Ledger, s: nat, i: nat, k: Counter)
    requires Accounted(l) && s < |l.m.g| && !l.m.c[s].done && !k.Heads?
    requires i < |l.m.g| && i != s && !l.m.c[i].done
    ensures Own(l.m.g, DoneLaw(l.m.g, l.m.c, s), i, k) == At(l.held[i], k)
  {
    var g, c := l.m.g, l.m.c;
    var c' := DoneLaw(g, c, s);
    var c1 := c'[s := c[s]];
    assert Own(g, c, i, k) == At(l.held[i], k);
    AboveIsReaches(g, c, s, i);
    if Parent(g, s).Some? {
      forall t | 0 <= t < |c|
        ensures At(c1[t].rc, k) == At(c[t].rc, k) - if Reaches(g, c, Parent(g, s).value, t) then At(c[s].rc, k) else 0
        ensures c1[t].done == c[t].done
      {
        DoneCellAt(l, s, t, k);
      }
      ClimbShift(g, c, c1, Parent(g, s).value, -At(c[s].rc, k), k, i);
      SumDelta(g, c1, g, c', i, k, |c|, s);
    } else {
      assert g[s].owner == None && g[s].edges == [];
      SumDelta(g, c, g, c', i, k, |c|, s);
    }
  }

  lemma DoneCellAt(l: Ledger, s: nat, t: nat, k: Counter)
    requires Accounted(l) && s < |l.m.g| && !l.m.c[s].done && t < |l.m.g| && !k.Heads?
    requires Parent(l.m.g, s).Some?
    ensures Parent(l.m.g, s).value < s
    ensures var g, c := l.m.g, l.m.c;
            var x := DoneLaw(g, c, s)[s := c[s]][t];
            && x.done == c[t].done
            && At(x.rc, k) == At(c[t].rc, k) - if Reaches(g, c, Parent(g, s).value, t) then At(c[s].rc, k) else 0
  {
    var g, c := l.m.g, l.m.c;
    AboveIsReaches(g, c, s, t);
    ReachesOlder(g, c, s, t);
    ReachesOlder(g, c, Parent(g, s).value, t);
    if Above(g, c, s, t) {
      NoClamp(l, s, t, k);
    }
    ParentIsParent(g, s, t);
    if IsParent(g, s, t) && !c[t].done {
      assert Reaches(g, c, t, t);
    }
  }

  lemma ParentIsParent(g: seq<Node>, s: nat, i: nat)
    requires Tree(g) && s < |g|
    ensures IsParent(g, s, i) <==> Parent(g, s) == Some(i)
  {
    assert NodeOk(g, s);
  }

  // ----- growth --------------------------------------------------------------------------------

  /** m' is m with one more open and empty scope below p, the counters being as they were. */
  predicate Grown(m: System, m': System, p: nat) {
    && Healthy(m) && Healthy(m') && Tree(m.g) && Tree(m'.g)
    && |m'.g| == |m.g| + 1 && p < |m.g|
    && (forall i :: 0 <= i < |m.g| ==> m'.g[i] == m.g[i])
    && (forall i :: 0 <= i < |m.g| ==> m'.c[i].rc == m.c[i].rc && m'.c[i].done == m.c[i].done)
    && m'.c[|m.g|] == NEW_CELL && Parent(m'.g, |m.g|) == Some(p)
  }

  lemma OpenGrown(m: System, limit: Option<Limit>)
    requires Healthy(m) && Tree(m.g) && (limit.Some? ==> ValidLimit(limit.value))
    ensures Grown(m, OpenServiceLaw(m, limit), 0)
  {
    OpenHealthy(m, limit);
  }

  lemma SpanGrown(m: System, s: nat)
    requires Healthy(m) && Tree(m.g) && s < |m.g|
    ensures Grown(m, BeginSpanLaw(m, s), s)
  {
    SpanHealthy(m, s);
  }

  lemma {:induction false} NoChildren(g: seq<Node>, c: seq<Cell>, i: nat, k: Counter, n: nat)
    requires Tree(g) && n <= |c| == |g| && n <= i + 1
    ensures ChildSum(g, c, i, k, n) == 0
  {
    if n > 0 {
      AboveIsReaches(g, c, n - 1, 0);
      NoChildren(g, c, i, k, n - 1);
    }
  }

  lemma GrownSum(m: System, m': System, p: nat, i: nat, k: Counter)
    requires Grown(m, m', p) && i <= |m.g|
    ensures ChildSum(m'.g, m'.c, i, k, |m'.c|) ==
            if i == |m.g| then 0
            else ChildSum(m.g, m.c, i, k, |m.c|) + if i == p && k.Heads? then 1 else 0
  {
    var n := |m.g|;
    if i == n {
      NoChildren(m'.g, m'.c, i, k, n + 1);
    } else {
      SumDelta(m.g, m.c, m'.g, m'.c, i, k, n, n);
    }
  }

  lemma GrowAccounted(l: Ledger, m': System, p: nat)
    requires Accounted(l) && Grown(l.m, m', p)
    ensures Accounted(Ledger(m', l.held + [NO_USE]))
  {
    var held' := l.held + [NO_USE];
    forall i, k: Counter | 0 <= i < |m'.c| && !m'.c[i].done && !k.Heads?
      ensures Own(m'.g, m'.c, i, k) == At(held'[i], k)
    {
      GrownSum(l.m, m', p, i, k);
      if i < |l.held| {
        assert Own(l.m.g, l.m.c, i, k) == At(l.held[i], k);
      }
    }
  }

  /** Every call of a fair run keeps the books. */
  lemma BookAccounted(l: Ledger, op: Op)
    requires Accounted(l) && Fair(l, op)
    ensures Accounted(Book(l, op))
  {
    match op
    case OpenService(limit) =>
      OpenGrown(l.m, limit);
      GrowAccounted(l, OpenServiceLaw(l.m, limit), 0);
    case BeginSpan(s) =>
      if !l.m.c[s].done {
        SpanGrown(l.m, s);
        GrowAccounted(l, BeginSpanLaw(l.m, s), s);
      }
    case Reserve(s, req) => ReserveAccounted(l, s, req);
    case Release(s, req) =>
      if l.m.c[s].done { ReleaseClosed(l.m.g, l.m.c, s, req); } else { ReleaseAccounted(l, s, req); }
    case ReserveResources(s, st) => ResourcesAccounted(l, s, st);
    case ReleaseSelf(s) => SelfAccounted(l, s);
    case Done(s) => DoneAccounted(l, s);
  }

  lemma SelfAccounted(l: Ledger, s: nat)
    requires Accounted(l) && Fair(l, ReleaseSelf(s))
    ensures Accounted(Book(l, ReleaseSelf(s)))
  {
    var u := l.m.c[s].rc;
    if l.m.c[s].done {
      ReleaseClosed(l.m.g, l.m.c, s, All(u));
    } else {
      ReleaseAccounted(l, s, All(u));
      forall k: Counter | !k.Heads?
        ensures At(u, k) == At(l.held[s], k)
      {
        NoClamp(l, s, s, k);
      }
      assert At(u, Bytes) == u.memory && At(u, HighTasks) == u.tasksHigh && At(u, MediumTasks) == u.tasksMedium;
      assert At(u, LowTasks) == u.tasksLow && At(u, ConnsIn) == u.connsIn && At(u, ConnsOut) == u.connsOut;
      assert At(u, Files) == u.fd;
      assert Minus(l.held[s], u) == NO_USE;
    }
  }

  // ----- runs ----------------------------------------------------------------------------------

  predicate FairRun(l: Ledger, ops: seq<Op>)
    requires Accounted(l)
    decreases |ops|
  {
    ops == [] || (Fair(l, ops[0]) && (BookAccounted(l, ops[0]); FairRun(Book(l, ops[0]), ops[1..])))
  }

  function BookAll(l: Ledger, ops: seq<Op>): Ledger
    requires Accounted(l) && FairRun(l, ops)
    decreases |ops|
  {
    if ops == [] then l
    else
      BookAccounted(l, ops[0]);
      BookAll(Book(l, ops[0]), ops[1..])
  }

  function Opening(limit: Limit): Ledger {
    Ledger(SystemOf(limit), [NO_USE])
  }

  lemma OpeningAccounted(limit: Limit)
    requires ValidLimit(limit)
    ensures Accounted(Opening(limit))
  {
    var m := SystemOf(limit);
    assert NodeOk(m.g, 0);
    forall k: Counter
      ensures ChildSum(m.g, m.c, 0, k, 1) == 0
    {
      NoChildren(m.g, m.c, 0, k, 1);
    }
  }

  /** Conservation in every counter, at the end of every fair run from a new resource manager. */
  lemma {:induction false} Conserved(l: Ledger, ops: seq<Op>)
    requires Accounted(l) && FairRun(l, ops)
    ensures Accounted(BookAll(l, ops))
    ensures forall i, k: Counter ::
              0 <= i < |BookAll(l, ops).held| && !BookAll(l, ops).m.c[i].done && !k.Heads? ==>
              At(BookAll(l, ops).m.c[i].rc, k) ==
              At(BookAll(l, ops).held[i], k) +
              ChildSum(BookAll(l, ops).m.g, BookAll(l, ops).m.c, i, k, |BookAll(l, ops).m.c|)
    decreases |ops|
  {
    if ops == [] {
      forall i, k: Counter | 0 <= i < |l.held| && !l.m.c[i].done && !k.Heads?
        ensures At(l.m.c[i].rc, k) == At(l.held[i], k) + ChildSum(l.m.g, l.m.c, i, k, |l.m.c|)
      {
        assert Own(l.m.g, l.m.c, i, k) == At(l.held[i], k);
      }
    } else {
      BookAccounted(l, ops[0]);
      Conserved(Book(l, ops[0]), ops[1..]);
    }
  }

  /** The books follow the run. */
  lemma {:induction false} BooksFollow(l: Ledger, ops: seq<Op>)
    requires Accounted(l) && FairRun(l, ops)
    ensures LegalRun(l.m, ops) && BookAll(l, ops).m == Run(l.m, ops)
    decreases |ops|
  {
    if ops != [] {
      BookAccounted(l, ops[0]);
      StepHealthy(l.m, ops[0]);
      BooksFollow(Book(l, ops[0]), ops[1..]);
    }
  }

  // ----- the root ------------------------------------------------------------------------------

  /** i and every scope above it are open. */
  predicate Attached(m: System, i: nat)
    requires WellFormed(m.g) && i < |m.c| == |m.g|
  {
    Reaches(m.g, m.c, i, 0)
  }

  /** What the attached scopes among the first n hold themselves. */
  function HeldSum(l: Ledger, k: Counter, n: nat): int
    requires WellFormed(l.m.g) && n <= |l.held| == |l.m.c| == |l.m.g|
  {
    if n == 0 then 0
    else HeldSum(l, k, n - 1) + if Attached(l.m, n - 1) then At(l.held[n - 1], k) else 0
  }

  function UseSum(m: System, k: Counter, n: nat): int
    requires WellFormed(m.g) && n <= |m.c| == |m.g|
  {
    if n == 0 then 0
    else UseSum(m, k, n - 1) + if Attached(m, n - 1) then At(m.c[n - 1].rc, k) else 0
  }

  /** What the children numbered below b contribute to the attached scopes numbered below n. */
  function ContributionSum(m: System, k: Counter, n: nat, b: nat): int
    requires WellFormed(m.g) && n <= |m.c| == |m.g| && b <= |m.c|
  {
    if n == 0 then 0
    else ContributionSum(m, k, n - 1, b) + if Attached(m, n - 1) then ChildSum(m.g, m.c, n - 1, k, b) else 0
  }

  lemma {:induction false} OneMoreChild(m: System, k: Counter, n: nat, b: nat)
    requires WellFormed(m.g) && n <= |m.c| == |m.g| && b < |m.c|
    ensures var p := Parent(m.g, b);
            ContributionSum(m, k, n, b + 1) == ContributionSum(m, k, n, b) +
            if p.Some? && p.value < n && Attached(m, p.value) then Weight(m.c[b], k) else 0
  {
    if n > 0 {
      OneMoreChild(m, k, n - 1, b);
    }
  }

  /** Every attached scope but the root contributes all it has to exactly one attached scope. */
  lemma {:induction false} Telescope(m: System, k: Counter, b: nat)
    requires Tree(m.g) && b <= |m.c| == |m.g| && !k.Heads?
    ensures ContributionSum(m, k, |m.c|, b) ==
            UseSum(m, k, b) - if b > 0 && Attached(m, 0) then At(m.c[0].rc, k) else 0
  {
    if b == 0 {
      NothingBelow(m, k, |m.c|);
    } else {
      Telescope(m, k, b - 1);
      OneMoreChild(m, k, |m.c|, b - 1);
      AboveIsReaches(m.g, m.c, b - 1, 0);
    }
  }

  lemma {:induction false} NothingBelow(m: System, k: Counter, n: nat)
    requires WellFormed(m.g) && n <= |m.c| == |m.g|
    ensures ContributionSum(m, k, n, 0) == 0
  {
    if n > 0 {
      NothingBelow(m, k, n - 1);
    }
  }

  lemma {:induction false} HeldIsDifference(l: Ledger, k: Counter, n: nat)
    requires Accounted(l) && n <= |l.held| && !k.Heads?
    ensures HeldSum(l, k, n) == UseSum(l.m, k, n) - ContributionSum(l.m, k, n, |l.m.c|)
  {
    if n > 0 {
      HeldIsDifference(l, k, n - 1);
      if Attached(l.m, n - 1) {
        assert Own(l.m.g, l.m.c, n - 1, k) == At(l.held[n - 1], k);
      }
    }
  }

  /**
   * At any time the open system scope accounts for exactly what the scopes still attached to it
   * hold: each unit is there once from its reservation on, and gone once it is released or the
   * first scope on its way up is closed, never before and never twice.
   */
  lemma RootHoldsAttached(l: Ledger, k: Counter)
    requires Accounted(l) && !l.m.c[0].done && !k.Heads?
    ensures At(l.m.c[0].rc, k) == HeldSum(l, k, |l.held|)
  {
    HeldIsDifference(l, k, |l.held|);
    Telescope(l.m, k, |l.m.c|);
  }

  // ----- fairness is exact ---------------------------------------------------------------------

  /** The books determine the accounts: what each open scope holds fixes what each accounts for. */
  lemma {:induction false} SameBooks(g: seq<Node>, c: seq<Cell>, c': seq<Cell>, i: nat, k: Counter)
    requires Tree(g) && |c| == |g| && SameFlags(c, c') && i < |c| && !c[i].done && !k.Heads?
    requires forall t :: i <= t < |c| && !c[t].done ==> Own(g, c, t, k) == Own(g, c', t, k)
    ensures At(c[i].rc, k) == At(c'[i].rc, k)
    decreases |c| - i
  {
    forall t | 0 <= t < |c| && Parent(g, t) == Some(i)
      ensures Weight(c'[t], k) == Weight(c[t], k)
    {
      AboveIsReaches(g, c, t, 0);
      if !c[t].done {
        SameBooks(g, c, c', t, k);
      }
    }
    SumDelta(g, c, g, c', i, k, |c|, |c|);
    assert Own(g, c, i, k) == Own(g, c', i, k);
  }

  /** If a call enters nothing and the books are still right, the call changed no open scope. */
  lemma SameBooksSameScopes(l: Ledger, c': seq<Cell>)
    requires Accounted(l) && SameFlags(l.m.c, c') && SameHeads(l.m.c, c') && Accounted(l.(m := l.m.(c := c')))
    requires forall i :: 0 <= i < |c'| && l.m.c[i].done ==> c'[i] == l.m.c[i]
    ensures c' == l.m.c
  {
    var g, c := l.m.g, l.m.c;
    var l' := l.(m := l.m.(c := c'));
    forall i | 0 <= i < |c|
      ensures c'[i] == c[i]
    {
      if !c[i].done {
        forall k: Counter | !k.Heads?
          ensures At(c[i].rc, k) == At(c'[i].rc, k)
        {
          forall t | i <= t < |c| && !c[t].done
            ensures Own(g, c, t, k) == Own(g, c', t, k)
          {
            assert Own(l'.m.g, l'.m.c, t, k) == At(l'.held[t], k);
          }
          SameBooks(g, c, c', i, k);
        }
        SameCounters(c[i].rc, c'[i].rc);
      }
    }
  }

  lemma SameCounters(u: ScopeStat, v: ScopeStat)
    requires forall k: Counter :: !k.Heads? ==> At(u, k) == At(v, k)
    ensures u == v
  {
    assert At(u, Bytes) == At(v, Bytes) && At(u, HighTasks) == At(v, HighTasks);
    assert At(u, MediumTasks) == At(v, MediumTasks) && At(u, LowTasks) == At(v, LowTasks);
    assert At(u, ConnsIn) == At(v, ConnsIn) && At(u, ConnsOut) == At(v, ConnsOut) && At(u, Files) == At(v, Files);
  }

  /** A refused reservation keeps the books exactly if it is fair. */
  lemma RefusalFairIff(l: Ledger, s: nat, req: Request)
    requires Accounted(l) && Legal(l.m, Reserve(s, req)) && !ReserveLaw(l.m.g, l.m.c, s, req).0
    ensures Accounted(l.(m := Step(l.m, Reserve(s, req)))) <==> Fair(l, Reserve(s, req))
  {
    var g, c := l.m.g, l.m.c;
    var c' := ReserveLaw(g, c, s, req).1;
    TracelessIff(l.m, s, req);
    ReserveSameHeads(g, c, s, req);
    if Accounted(l.(m := l.m.(c := c'))) {
      SameBooksSameScopes(l, c');
    }
  }

  /** So does a refused ReserveResources. */
  lemma ResourcesFairIff(l: Ledger, s: nat, st: ScopeStat)
    requires Accounted(l) && Legal(l.m, ReserveResources(s, st)) && !ResourcesLaw(l.m.g, l.m.c, s, st).0
    ensures Accounted(l.(m := Step(l.m, ReserveResources(s, st)))) <==> Fair(l, ReserveResources(s, st))
  {
    var g, c := l.m.g, l.m.c;
    var c' := ResourcesLaw(g, c, s, st).1;
    TracelessResourcesIff(l.m, s, st);
    ResourcesSameHeads(g, c, s, st);
    if Accounted(l.(m := l.m.(c := c'))) && c' != c {
      forall i | 0 <= i < |c| && c[i].done
        ensures c'[i] == c[i]
      {
        DrainedOpen(g, c, s, st, i);
      }
      SameBooksSameScopes(l, c');
    }
  }

  lemma DrainedOpen(g: seq<Node>, c: seq<Cell>, s: nat, st: ScopeStat, i: nat)
    requires Sound(g, c) && s < |g| && i < |c| && c[i].done && ValidRequest(All(st)) && !ResourcesLaw(g, c, s, st).0
    ensures ResourcesLaw(g, c, s, st).1[i] == c[i]
  {
    var k := FirstRefusal(g, c, ResourcePath(g, s), All(st));
    if k == 0 {
      DrainedHere(g, c, s, st);
    } else {
      ReachesOlder(g, c, s, i);
      DrainedAtIff(g, c, s, k, st, i);
    }
  }

  // ----- reference counts ----------------------------------------------------------------------

  predicate Rooted(m: System) {
    Healthy(m) && Tree(m.g)
  }

  /** refCnt is the number of open children; the system's misses the services without their own limit. */
  predicate Counted(m: System, free: nat)
    requires Rooted(m)
  {
    forall i :: 0 <= i < |m.c| ==>
      m.c[i].refCnt + (if i == 0 then free else 0) == ChildSum(m.g, m.c, i, Heads, |m.c|)
  }

  predicate SameHeads(c: seq<Cell>, c': seq<Cell>) {
    |c| == |c'| && forall i :: 0 <= i < |c| ==>
      c[i].done == c'[i].done && c[i].refCnt == c'[i].refCnt && c[i].spanID == c'[i].spanID
  }

  lemma SameCounted(m: System, m': System, free: nat)
    requires Rooted(m) && Rooted(m') && Counted(m, free)
    requires m'.g == m.g && SameHeads(m.c, m'.c)
    ensures Counted(m', free)
  {
    forall i | 0 <= i < |m.c|
      ensures ChildSum(m'.g, m'.c, i, Heads, |m.c|) == ChildSum(m.g, m.c, i, Heads, |m.c|)
    {
      SumDelta(m.g, m.c, m'.g, m'.c, i, Heads, |m.c|, |m.c|);
    }
  }

  lemma GrownCounted(m: System, m': System, p: nat, free: nat, free': nat)
    requires Rooted(m) && Counted(m, free) && Grown(m, m', p)
    requires forall i :: 0 <= i < |m.c| ==>
               m'.c[i].refCnt + (if i == 0 then free' else 0) ==
               m.c[i].refCnt + (if i == 0 then free else 0) + (if i == p then 1 else 0)
    ensures Counted(m', free')
  {
    forall i | 0 <= i < |m'.c|
      ensures m'.c[i].refCnt + (if i == 0 then free' else 0) == ChildSum(m'.g, m'.c, i, Heads, |m'.c|)
    {
      GrownSum(m, m', p, i, Heads);
    }
  }

  lemma DoneCounted(m: System, s: nat, free: nat)
    requires Rooted(m) && Counted(m, free) && s < |m.g| && !m.c[s].done && Rooted(Step(m, Done(s)))
    ensures Counted(Step(m, Done(s)), free)
  {
    var g, c := m.g, m.c;
    var c' := DoneLaw(g, c, s);
    forall i | 0 <= i < |c|
      ensures c'[i].refCnt + (if i == 0 then free else 0) == ChildSum(g, c', i, Heads, |c|)
    {
      ParentIsParent(g, s, i);
      AboveIsReaches(g, c, s, 0);
      SumDelta(g, c, g, c', i, Heads, |c|, s);
    }
  }

  function Free(op: Op): nat {
    if op == OpenService(None) then 1 else 0
  }

  lemma OpenCounted(m: System, limit: Option<Limit>, free: nat)
    requires Rooted(m) && Counted(m, free) && Legal(m, OpenService(limit))
    ensures Rooted(Step(m, OpenService(limit))) && Counted(Step(m, OpenService(limit)), free + Free(OpenService(limit)))
  {
    OpenGrown(m, limit);
    GrownCounted(m, OpenServiceLaw(m, limit), 0, free, free + Free(OpenService(limit)));
  }

  lemma SpanCounted(m: System, s: nat, free: nat)
    requires Rooted(m) && Counted(m, free) && s < |m.g| && !m.c[s].done
    ensures Rooted(BeginSpanLaw(m, s)) && Counted(BeginSpanLaw(m, s), free)
  {
    SpanGrown(m, s);
    GrownCounted(m, BeginSpanLaw(m, s), s, free, free);
  }

  /** Every call, fair or not, keeps the reference counts. */
  lemma StepCounted(m: System, op: Op, free: nat)
    requires Rooted(m) && Counted(m, free) && Legal(m, op)
    ensures Rooted(Step(m, op)) && Counted(Step(m, op), free + Free(op))
  {
    match op
    case OpenService(limit) => OpenCounted(m, limit, free);
    case BeginSpan(s) => if !m.c[s].done { SpanCounted(m, s, free); }
    case Done(s) =>
      DoneHealthy(m.g, m.c, s);
      if !m.c[s].done { DoneCounted(m, s, free); }
    case _ =>
      StepHealthy(m, op);
      StepSameHeads(m, op);
      SameCounted(m, Step(m, op), free);
  }

  lemma StepSameHeads(m: System, op: Op)
    requires Healthy(m) && Legal(m, op)
    requires op.Reserve? || op.Release? || op.ReserveResources? || op.ReleaseSelf?
    ensures Step(m, op).g == m.g && SameHeads(m.c, Step(m, op).c)
  {
    match op
    case Reserve(s, req) => ReserveSameHeads(m.g, m.c, s, req);
    case Release(s, req) => ReleaseSameHeads(m.g, m.c, s, req);
    case ReserveResources(s, st) => ResourcesSameHeads(m.g, m.c, s, st);
    case ReleaseSelf(s) => ReleaseSameHeads(m.g, m.c, s, All(m.c[s].rc));
  }

  lemma ReserveSameHeads(g: seq<Node>, c: seq<Cell>, s: nat, req: Request)
    requires WellFormed(g) && |c| == |g| && s < |g|
    ensures SameHeads(c, ReserveLaw(g, c, s, req).1)
  {
  }

  lemma ReleaseSameHeads(g: seq<Node>, c: seq<Cell>, s: nat, req: Request)
    requires WellFormed(g) && |c| == |g| && s < |g|
    ensures SameHeads(c, ReleaseLaw(g, c, s, req))
  {
  }

  lemma ResourcesSameHeads(g: seq<Node>, c: seq<Cell>, s: nat, st: ScopeStat)
    requires WellFormed(g) && |c| == |g| && s < |g|
    ensures SameHeads(c, ResourcesLaw(g, c, s, st).1)
  {
  }

  /** The sum is the number of scopes that are open and have i as their owner or among their edges. */
  lemma {:induction false} OpenChildren(g: seq<Node>, c: seq<Cell>, i: nat, n: nat)
    requires Tree(g) && n <= |c| == |g|
    ensures ChildSum(g, c, i, Heads, n) ==
            |set j: nat | j < n && !c[j].done && (g[j].owner == Some(i) || i in g[j].edges)|
  {
    if n > 0 {
      OpenChildren(g, c, i, n - 1);
      ParentIsParent(g, n - 1, i);
      var before := set j: nat | j < n - 1 && !c[j].done && (g[j].owner == Some(i) || i in g[j].edges);
      var after := set j: nat | j < n && !c[j].done && (g[j].owner == Some(i) || i in g[j].edges);
      OneMoreIn(before, after, n - 1);
    }
  }

  lemma OneMoreIn(before: set<nat>, after: set<nat>, n: nat)
    requires n !in before && forall j :: j != n ==> (j in before <==> j in after)
    ensures |after| == |before| + if n in after then 1 else 0
  {
    assert after == if n in after then before + {n} else before;
  }

  /** The services opened without a limit. */
  function FreeServices(ops: seq<Op>): nat {
    if ops == [] then 0 else Free(ops[0]) + FreeServices(ops[1..])
  }

  lemma {:induction false} FreeServicesCount(ops: seq<Op>)
    ensures FreeServices(ops) == multiset(ops)[OpenService(None)]
  {
    if ops != [] {
      FreeServicesCount(ops[1..]);
      assert ops == [ops[0]] + ops[1..];
    }
  }

  lemma {:induction false} RunCounted(m: System, ops: seq<Op>, free: nat)
    requires Rooted(m) && Counted(m, free) && LegalRun(m, ops)
    ensures Rooted(Run(m, ops)) && Counted(Run(m, ops), free + FreeServices(ops))
    decreases |ops|
  {
    if ops != [] {
      StepHealthy(m, ops[0]);
      StepCounted(m, ops[0], free);
      RunCounted(Step(m, ops[0]), ops[1..], free + Free(ops[0]));
    }
  }

  /**
   * Reference counts after every run from a new manager, leaking refusals and releases of what is
   * not held included.
   */
  lemma RefCountExact(limit: Limit, ops: seq<Op>)
    requires ValidLimit(limit)
    ensures Healthy(SystemOf(limit))
    ensures LegalRun(SystemOf(limit), ops) ==>
              var m := Run(SystemOf(limit), ops);
              && Rooted(m)
              && forall i :: 0 <= i < |m.c| ==>
                   && m.c[i].refCnt == ChildSum(m.g, m.c, i, Heads, |m.c|) - (if i == 0 then FreeServices(ops) else 0)
                   && m.c[i].refCnt + (if i == 0 then FreeServices(ops) else 0) ==
                      |set j: nat | j < |m.c| && !m.c[j].done && (m.g[j].owner == Some(i) || i in m.g[j].edges)|
  {
    var m := SystemOf(limit);
    OpeningAccounted(limit);
    NoChildren(m.g, m.c, 0, Heads, 1);
    if LegalRun(m, ops) {
      RunCounted(m, ops, 0);
      var m' := Run(m, ops);
      forall i | 0 <= i < |m'.c|
        ensures ChildSum(m'.g, m'.c, i, Heads, |m'.c|) ==
                |set j: nat | j < |m'.c| && !m'.c[j].done && (m'.g[j].owner == Some(i) || i in m'.g[j].edges)|
      {
        OpenChildren(m'.g, m'.c, i, |m'.c|);
      }
    }
  }
}
