/** What holds of the scopes over every run of the resource manager. */
module ScopeRuns {
  import opened MachineInt
  import opened Options
  import opened Resources
  import opened ScopeLaws

  // ----- single operations ---------------------------------------------------------------------

  /** This scope is back where it was after a request that was granted and then undone. */
  predicate Restores(u: ScopeStat, req: Request) {
    Balanced(req) || (req.Conn? && u.connsOut == 0 && u.fd == 0)
  }

  /**
   * ReserveMemory, AddTask, AddConn are granted exactly when every scope on the path is open and
   * has room, and then each of them gains exactly the amount.
   */
  lemma GrantedIff(g: seq<Node>, c: seq<Cell>, s: nat, req: Request)
    requires Sound(g, c) && s < |g|
    ensures var (ok, c') := ReserveLaw(g, c, s, req);
            && (ok <==> forall i :: i in Path(g, s) ==> !Refuses(g, c, i, req))
            && (ok ==> c' == Charged(c, Path(g, s), DoAmount(req)))
  {
    var path := Path(g, s);
    var k := FirstRefusal(g, c, path, req);
    if k == |path| {
      forall i | i in path
        ensures !Refuses(g, c, i, req)
      {
        var j :| 0 <= j < |path| && path[j] == i;
      }
    } else {
      assert path[k] in path;
    }
  }

  /**
   * Refused, they leave every scope as it was exactly when the release that undoes the request
   * restores each scope below the refusal. A reservation of memory, or of tasks of a known
   * priority, therefore never leaves a trace; one of tasks of an unknown priority does unless the
   * first scope refuses.
   */
  lemma RefusedIff(g: seq<Node>, c: seq<Cell>, s: nat, req: Request)
    requires Sound(g, c) && s < |g| && ValidRequest(req) && !req.All?
    requires !ReserveLaw(g, c, s, req).0
    ensures var k := FirstRefusal(g, c, Path(g, s), req);
            var c' := ReserveLaw(g, c, s, req).1;
            && (c' == c <==> forall j :: 0 <= j < k ==> Restores(c[Path(g, s)[j]].rc, req))
            && (Balanced(req) ==> c' == c)
            && (req.Tasks? ==> (c' == c <==> Balanced(req) || k == 0))
  {
    var path := Path(g, s);
    var k := FirstRefusal(g, c, path, req);
    RefusedAt(g, c, path, k, req);
    if k > 0 {
      assert req.Tasks? ==> (Restores(c[path[0]].rc, req) <==> Balanced(req));
    }
  }

  lemma RefusedAt(g: seq<Node>, c: seq<Cell>, path: seq<nat>, k: nat, req: Request)
    requires Sound(g, c) && ValidRequest(req) && Within(path, |g|) && k <= |path|
    requires forall j :: 0 <= j < k ==> !Refuses(g, c, path[j], req)
    ensures Reverted(c, path[..k], req) == c <==> forall j :: 0 <= j < k ==> Restores(c[path[j]].rc, req)
  {
    var c' := Reverted(c, path[..k], req);
    forall j | 0 <= j < k
      ensures c'[path[j]] == c[path[j]] <==> Restores(c[path[j]].rc, req)
    {
      RevertedAt(g, c, path, k, j, req);
    }
    RevertedIff(c, path[..k], req);
  }

  lemma RevertedAt(g: seq<Node>, c: seq<Cell>, path: seq<nat>, k: nat, j: nat, req: Request)
    requires Sound(g, c) && ValidRequest(req) && Within(path, |g|) && j < k <= |path|
    requires !Refuses(g, c, path[j], req)
    ensures Reverted(c, path[..k], req)[path[j]] == c[path[j]] <==> Restores(c[path[j]].rc, req)
  {
    var i := path[j];
    assert path[..k][j] == i;
    assert NodeOk(g, i);
    UndoAfterDo(g[i].limit, c[i].rc, req);
  }

  lemma RevertedIff(c: seq<Cell>, ps: seq<nat>, req: Request)
    requires Within(ps, |c|)
    ensures Reverted(c, ps, req) == c <==> forall j :: 0 <= j < |ps| ==> Reverted(c, ps, req)[ps[j]] == c[ps[j]]
  {
    var r := Reverted(c, ps, req);
    if forall j :: 0 <= j < |ps| ==> r[ps[j]] == c[ps[j]] {
      forall i | 0 <= i < |c|
        ensures r[i] == c[i]
      {
        if i in ps {
          var j :| 0 <= j < |ps| && ps[j] == i;
        }
      }
    }
  }

  /** No counter that st touches is in use here. */
  predicate Untouched(u: ScopeStat, st: ScopeStat) {
    && (u.memory == 0 || st.memory == 0)
    && (u.tasksHigh == 0 || st.tasksHigh == 0)
    && (u.tasksMedium == 0 || st.tasksMedium == 0)
    && (u.tasksLow == 0 || st.tasksLow == 0)
    && (u.connsIn == 0 || st.connsIn == 0)
    && (u.connsOut == 0 || st.connsOut == 0)
    && (u.fd == 0 || st.fd == 0)
  }

  lemma ResourcesGrantedIff(g: seq<Node>, c: seq<Cell>, s: nat, st: ScopeStat)
    requires Sound(g, c) && s < |g|
    ensures var (ok, c') := ResourcesLaw(g, c, s, st);
            && (ok <==> forall i :: i in ResourcePath(g, s) ==> !Refuses(g, c, i, All(st)))
            && (ok ==> c' == Charged(c, ResourcePath(g, s), st))
  {
    var path := ResourcePath(g, s);
    var k := FirstRefusal(g, c, path, All(st));
    if k == |path| {
      forall i | i in path
        ensures !Refuses(g, c, i, All(st))
      {
        var j :| 0 <= j < |path| && path[j] == i;
      }
    } else {
      assert path[k] in path;
    }
  }

  /**
   * ReserveResources promises to be atomic, and is not: a refusal is without effect exactly when
   * the scope itself refuses, or when no scope above that the clean-up can reach has anything
   * that the request touches.
   */
  lemma ResourcesRefusedIff(g: seq<Node>, c: seq<Cell>, s: nat, st: ScopeStat)
    requires Sound(g, c) && s < |g| && ValidRequest(All(st)) && !ResourcesLaw(g, c, s, st).0
    ensures ResourcesLaw(g, c, s, st).1 == c <==>
            Refuses(g, c, s, All(st)) || forall i :: 0 <= i < |c| && Above(g, c, s, i) ==> Untouched(c[i].rc, st)
  {
    var k := FirstRefusal(g, c, ResourcePath(g, s), All(st));
    if k == 0 {
      DrainedHere(g, c, s, st);
    } else {
      var c' := Drained(g, c, s, k, st);
      forall i | 0 <= i < |c|
        ensures c'[i] == c[i] <==> (Above(g, c, s, i) ==> Untouched(c[i].rc, st))
      {
        DrainedAtIff(g, c, s, k, st, i);
      }
    }
  }

  lemma DrainedAtIff(g: seq<Node>, c: seq<Cell>, s: nat, k: nat, st: ScopeStat, i: nat)
    requires Sound(g, c) && s < |g| && i < |g| && !c[s].done && NonNegative(st) && k > 0
    ensures Drained(g, c, s, k, st)[i] == c[i] <==> (Above(g, c, s, i) ==> Untouched(c[i].rc, st))
  {
    ReachesOlder(g, c, s, i);
    if i == s {
      LoseNothing(c[s], st);
    } else if Above(g, c, s, i) {
      LoseScaleIff(c[i], Min(Level(g, s, i), k), st);
    }
  }

  lemma LoseScaleIff(x: Cell, n: nat, st: ScopeStat)
    requires NonNegative(x.rc) && NonNegative(st) && n > 0
    ensures Lose(x, Scale(n, st)) == x <==> Untouched(x.rc, st)
  {
    MonusIff(x.rc.memory, n, st.memory);
    MonusIff(x.rc.tasksHigh, n, st.tasksHigh);
    MonusIff(x.rc.tasksMedium, n, st.tasksMedium);
    MonusIff(x.rc.tasksLow, n, st.tasksLow);
    MonusIff(x.rc.connsIn, n, st.connsIn);
    MonusIff(x.rc.connsOut, n, st.connsOut);
    MonusIff(x.rc.fd, n, st.fd);
  }

  lemma MonusIff(a: nat, n: nat, y: nat)
    requires n > 0
    ensures Monus(a, n * y) == a <==> a == 0 || y == 0
  {
    if y > 0 {
      assert n * y > 0;
    }
  }

  /** Levels count along the path, and nothing closed, the clean-up reaches all of it. */
  lemma {:induction false} LevelIsPosition(g: seq<Node>, c: seq<Cell>, s: nat, j: nat)
    requires Sound(g, c) && s < |g| && j < |ResourcePath(g, s)|
    requires forall i :: 0 <= i < |ResourcePath(g, s)| ==> !c[ResourcePath(g, s)[i]].done
    ensures Level(g, s, ResourcePath(g, s)[j]) == j && Reaches(g, c, s, ResourcePath(g, s)[j])
    decreases s
  {
    var path := ResourcePath(g, s);
    assert NodeOk(g, s) && path[0] == s;
    if j > 0 && g[s].owner.Some? {
      var o := g[s].owner.value;
      assert path == [s] + ResourcePath(g, o);
      assert forall i :: 0 <= i < |ResourcePath(g, o)| ==> ResourcePath(g, o)[i] == path[i + 1];
      LevelIsPosition(g, c, o, j - 1);
    } else if j > 0 {
      assert path[j] == g[s].edges[0];
    }
  }

  /**
   * The exact law, in numbers: none being closed and the scope k above refusing, the scope j above
   * ends with max(0, old - min(j, k) * st) in every counter.
   */
  lemma RefusalDrains(g: seq<Node>, c: seq<Cell>, s: nat, st: ScopeStat, j: nat)
    requires Sound(g, c) && s < |g| && ValidRequest(All(st)) && !ResourcesLaw(g, c, s, st).0
    requires forall i :: 0 <= i < |ResourcePath(g, s)| ==> !c[ResourcePath(g, s)[i]].done
    requires j < |ResourcePath(g, s)|
    ensures var i := ResourcePath(g, s)[j];
            var u, u' := c[i].rc, ResourcesLaw(g, c, s, st).1[i].rc;
            var n := Min(j, FirstRefusal(g, c, ResourcePath(g, s), All(st)));
            && u'.memory == Monus(u.memory, n * st.memory)
            && u'.tasksHigh == Monus(u.tasksHigh, n * st.tasksHigh)
            && u'.tasksMedium == Monus(u.tasksMedium, n * st.tasksMedium)
            && u'.tasksLow == Monus(u.tasksLow, n * st.tasksLow)
            && u'.connsIn == Monus(u.connsIn, n * st.connsIn)
            && u'.connsOut == Monus(u.connsOut, n * st.connsOut)
            && u'.fd == Monus(u.fd, n * st.fd)
  {
    LevelIsPosition(g, c, s, j);
  }

  /** A system scope, a service with an edge to it, and a span of the service, all open. */
  predicate ThreeScopes(g: seq<Node>, c: seq<Cell>) {
    && Sound(g, c) && |g| == 3
    && g[0].owner == None && g[0].edges == []
    && g[1].owner == None && g[1].edges == [0]
    && g[2].owner == Some(1)
    && !c[0].done && !c[1].done && !c[2].done
  }

  /**
   * For instance: the system refuses what span and service have accepted. The service then loses
   * what it never gained, and the system twice that.
   */
  lemma ResourcesNotAtomic(g: seq<Node>, c: seq<Cell>, st: ScopeStat)
    requires ThreeScopes(g, c) && ValidRequest(All(st))
    requires !Refuses(g, c, 2, All(st)) && !Refuses(g, c, 1, All(st)) && Refuses(g, c, 0, All(st))
    ensures var (ok, c') := ResourcesLaw(g, c, 2, st);
            !ok && c'[0] == Lose(c[0], Scale(2, st)) && c'[1] == Lose(c[1], st) && c'[2] == c[2]
  {
    ThreeClimb(g, c);
    ThreeRefusal(g, c, st);
    ThreeDrained(g, c, st);
  }

  lemma ThreeDrained(g: seq<Node>, c: seq<Cell>, st: ScopeStat)
    requires ThreeScopes(g, c) && NonNegative(st)
    ensures var c' := Drained(g, c, 2, 2, st);
            c'[0] == Lose(c[0], Scale(2, st)) && c'[1] == Lose(c[1], st) && c'[2] == c[2]
  {
    ThreeClimb(g, c);
    LoseNothing(c[2], st);
    assert Scale(1, st) == st;
  }

  lemma ThreeRefusal(g: seq<Node>, c: seq<Cell>, st: ScopeStat)
    requires ThreeScopes(g, c) && ResourcePath(g, 2) == [2, 1, 0]
    requires !Refuses(g, c, 2, All(st)) && !Refuses(g, c, 1, All(st)) && Refuses(g, c, 0, All(st))
    ensures ResourcesLaw(g, c, 2, st) == (false, Drained(g, c, 2, 2, st))
  {
    FirstRefusalAt(g, c, ResourcePath(g, 2), 2, All(st));
  }

  lemma ThreeClimb(g: seq<Node>, c: seq<Cell>)
    requires ThreeScopes(g, c)
    ensures ResourcePath(g, 2) == [2, 1, 0]
    ensures Level(g, 2, 0) == 2 && Level(g, 2, 1) == 1
    ensures Reaches(g, c, 2, 0) && Reaches(g, c, 2, 1)
  {
    assert ResourcePath(g, 1) == [1, 0];
    assert Level(g, 1, 0) == 1;
    assert Reaches(g, c, 1, 0);
  }

  lemma FirstRefusalAt(g: seq<Node>, c: seq<Cell>, ps: seq<nat>, n: nat, req: Request)
    requires |c| == |g| && Within(ps, |g|) && n < |ps|
    requires forall j :: 0 <= j < n ==> !Refuses(g, c, ps[j], req)
    requires Refuses(g, c, ps[n], req)
    ensures FirstRefusal(g, c, ps, req) == n
  {
  }

  // ----- runs ----------------------------------------------------------------------------------

  datatype Op =
    | OpenService(limit: Option<Limit>)
    | BeginSpan(s: nat)
    | Reserve(s: nat, req: Request)
    | Release(s: nat, req: Request)
    | ReserveResources(s: nat, stat: ScopeStat)
    | ReleaseSelf(s: nat)
    | Done(s: nat)

  /** The call is one a user of an existing scope can make, with a non-negative amount to release. */
  predicate Legal(m: System, op: Op) {
    match op
    case OpenService(limit) => limit.Some? ==> ValidLimit(limit.value)
    case BeginSpan(s) => s < |m.g|
    case Reserve(s, req) => s < |m.g| && ValidRequest(req) && !req.All?
    case Release(s, req) => s < |m.g| && ValidRelease(req)
    case ReserveResources(s, st) => s < |m.g| && ValidRequest(All(st))
    case ReleaseSelf(s) => s < |m.g|
    case Done(s) => s < |m.g|
  }

  predicate Healthy(m: System) {
    0 < |m.g| && Sound(m.g, m.c)
  }

  function Step(m: System, op: Op): System
    requires Healthy(m) && Legal(m, op)
  {
    match op
    case OpenService(limit) => OpenServiceLaw(m, limit)
    case BeginSpan(s) => if m.c[s].done then m else BeginSpanLaw(m, s)
    case Reserve(s, req) => m.(c := ReserveLaw(m.g, m.c, s, req).1)
    case Release(s, req) => m.(c := ReleaseLaw(m.g, m.c, s, req))
    case ReserveResources(s, st) => m.(c := ResourcesLaw(m.g, m.c, s, st).1)
    case ReleaseSelf(s) => m.(c := ReleaseLaw(m.g, m.c, s, All(m.c[s].rc)))
    case Done(s) => m.(c := DoneLaw(m.g, m.c, s))
  }

  /** Hard limits are kept by every call, refused or not, failed clean-ups included. */
  lemma StepHealthy(m: System, op: Op)
    requires Healthy(m) && Legal(m, op)
    ensures Healthy(Step(m, op))
    ensures |m.g| <= |Step(m, op).g| && forall i :: 0 <= i < |m.g| ==> Step(m, op).g[i] == m.g[i]
  {
    var g, c := m.g, m.c;
    match op
    case OpenService(limit) => OpenHealthy(m, limit);
    case BeginSpan(s) => if !c[s].done { SpanHealthy(m, s); }
    case Reserve(s, req) => ReserveHealthy(g, c, s, req);
    case Release(s, req) => ReleaseHealthy(g, c, s, req);
    case ReserveResources(s, st) => ResourcesHealthy(g, c, s, st);
    case ReleaseSelf(s) => ReleaseHealthy(g, c, s, All(c[s].rc));
    case Done(s) => DoneHealthy(g, c, s);
  }

  lemma OpenHealthy(m: System, limit: Option<Limit>)
    requires Healthy(m) && (limit.Some? ==> ValidLimit(limit.value))
    ensures Healthy(OpenServiceLaw(m, limit))
  {
    assert NodeOk(m.g, 0);
    GrownHealthy(m, OpenServiceLaw(m, limit));
  }

  lemma SpanHealthy(m: System, s: nat)
    requires Healthy(m) && s < |m.g|
    ensures Healthy(BeginSpanLaw(m, s))
  {
    assert NodeOk(m.g, s);
    GrownHealthy(m, BeginSpanLaw(m, s));
  }

  lemma ReleaseHealthy(g: seq<Node>, c: seq<Cell>, s: nat, req: Request)
    requires Sound(g, c) && s < |g| && NonNegative(UndoAmount(req))
    ensures Sound(g, ReleaseLaw(g, c, s, req))
  {
    forall i | 0 <= i < |c|
      ensures InBounds(g[i].limit, ReleaseLaw(g, c, s, req)[i].rc)
    {
      LoseInBounds(g[i].limit, c[i], UndoAmount(req));
    }
  }

  lemma DoneHealthy(g: seq<Node>, c: seq<Cell>, s: nat)
    requires Sound(g, c) && s < |g|
    ensures Sound(g, DoneLaw(g, c, s))
  {
    forall i | 0 <= i < |c|
      ensures InBounds(g[i].limit, DoneLaw(g, c, s)[i].rc)
    {
      LoseInBounds(g[i].limit, c[i], c[s].rc);
    }
  }

  lemma LoseInBounds(l: Limit, x: Cell, d: ScopeStat)
    requires InBounds(l, x.rc) && NonNegative(d)
    ensures InBounds(l, Lose(x, d).rc)
  {
  }

  lemma GrownHealthy(m: System, m': System)
    requires Healthy(m) && |m'.g| == |m'.c| == |m.g| + 1 && m'.g[..|m.g|] == m.g
    requires NodeOk(m'.g, |m.g|) && m'.c[|m.g|] == NEW_CELL
    requires forall i :: 0 <= i < |m.g| ==> m'.c[i].rc == m.c[i].rc
    ensures Healthy(m')
  {
    forall i | 0 <= i < |m'.g|
      ensures NodeOk(m'.g, i) && InBounds(m'.g[i].limit, m'.c[i].rc)
    {
      if i < |m.g| {
        assert m'.g[i] == m.g[i] && NodeOk(m.g, i);
      }
    }
  }

  lemma ReserveHealthy(g: seq<Node>, c: seq<Cell>, s: nat, req: Request)
    requires Sound(g, c) && s < |g| && ValidRequest(req)
    ensures Sound(g, ReserveLaw(g, c, s, req).1)
  {
    var path := Path(g, s);
    var k := FirstRefusal(g, c, path, req);
    var c' := ReserveLaw(g, c, s, req).1;
    forall i | 0 <= i < |c|
      ensures InBounds(g[i].limit, c'[i].rc)
    {
      assert NodeOk(g, i);
      if i in path[..k] {
        var j :| 0 <= j < k && path[j] == i;
        assert !Refuses(g, c, i, req);
        UndoAfterDo(g[i].limit, c[i].rc, req);
      }
      assert path[..|path|] == path;
    }
  }

  lemma ResourcesHealthy(g: seq<Node>, c: seq<Cell>, s: nat, st: ScopeStat)
    requires Sound(g, c) && s < |g| && ValidRequest(All(st))
    ensures Sound(g, ResourcesLaw(g, c, s, st).1)
  {
    var path := ResourcePath(g, s);
    var k := FirstRefusal(g, c, path, All(st));
    var c' := ResourcesLaw(g, c, s, st).1;
    if k == 0 {
      DrainedHere(g, c, s, st);
    } else {
      forall i | 0 <= i < |c|
        ensures InBounds(g[i].limit, c'[i].rc)
      {
        if k == |path| {
          if i in path {
            var j :| 0 <= j < |path| && path[j] == i;
            assert !Refuses(g, c, i, All(st));
          }
        } else {
          var n := Min(Level(g, s, i), k);
          ScaleNonNegative(n, st);
          LoseInBounds(g[i].limit, c[i], Scale(n, st));
        }
      }
    }
  }

  lemma ScaleNonNegative(n: nat, st: ScopeStat)
    requires NonNegative(st)
    ensures NonNegative(Scale(n, st))
  {
    OneMore(n, st.memory); OneMore(n, st.tasksHigh); OneMore(n, st.tasksMedium); OneMore(n, st.tasksLow);
    OneMore(n, st.connsIn); OneMore(n, st.connsOut); OneMore(n, st.fd);
  }

  predicate LegalRun(m: System, ops: seq<Op>)
    requires Healthy(m)
    decreases |ops|
  {
    ops == [] || (Legal(m, ops[0]) && (StepHealthy(m, ops[0]); LegalRun(Step(m, ops[0]), ops[1..])))
  }

  function Run(m: System, ops: seq<Op>): System
    requires Healthy(m) && LegalRun(m, ops)
    decreases |ops|
  {
    if ops == [] then m
    else
      StepHealthy(m, ops[0]);
      Run(Step(m, ops[0]), ops[1..])
  }

  /** In every reachable state every counter of every scope is between zero and its limit. */
  lemma HardLimits(limit: Limit, ops: seq<Op>)
    requires ValidLimit(limit)
    ensures Healthy(SystemOf(limit))
    ensures LegalRun(SystemOf(limit), ops) ==> Healthy(Run(SystemOf(limit), ops))
    ensures LegalRun(SystemOf(limit), ops) ==>
              var m := Run(SystemOf(limit), ops);
              forall i :: 0 <= i < |m.c| ==>
                var l, u := m.g[i].limit, m.c[i].rc;
                && 0 <= u.memory <= l.memory && 0 <= u.fd <= l.fd
                && 0 <= u.tasksHigh <= l.tasksHigh && 0 <= u.tasksMedium <= l.tasksMedium
                && 0 <= u.tasksLow <= l.tasksLow && u.tasksHigh + u.tasksMedium + u.tasksLow <= l.tasks
                && 0 <= u.connsIn <= l.connsIn && 0 <= u.connsOut <= l.connsOut && u.connsIn + u.connsOut <= l.conns
  {
    assert NodeOk(SystemOf(limit).g, 0);
    if LegalRun(SystemOf(limit), ops) {
      RunHealthy(SystemOf(limit), ops);
    }
  }

  lemma {:induction false} RunHealthy(m: System, ops: seq<Op>)
    requires Healthy(m) && LegalRun(m, ops)
    ensures Healthy(Run(m, ops))
    decreases |ops|
  {
    if ops != [] {
      StepHealthy(m, ops[0]);
      RunHealthy(Step(m, ops[0]), ops[1..]);
    }
  }

  // ----- reachable states that a refusal changes -------------------------------------------------

  /** This run of a new manager is legal and ends in m'. */
  predicate Leads(m: System, ops: seq<Op>, m': System) {
    Healthy(m) && LegalRun(m, ops) && Run(m, ops) == m'
  }

  lemma {:induction false} LeadsThen(m: System, ops: seq<Op>, m': System, op: Op)
    requires Leads(m, ops, m') && Healthy(m') && Legal(m', op)
    ensures Leads(m, ops + [op], Step(m', op)) && Healthy(Step(m', op))
    decreases |ops|
  {
    StepHealthy(m', op);
    if ops == [] {
      assert (ops + [op])[1..] == [];
    } else {
      StepHealthy(m, ops[0]);
      LeadsThen(Step(m, ops[0]), ops[1..], m', op);
      assert (ops + [op])[1..] == ops[1..] + [op];
    }
  }

  lemma LeadsNowhere(limit: Limit)
    requires ValidLimit(limit)
    ensures Leads(SystemOf(limit), [], SystemOf(limit))
  {
    HardLimits(limit, []);
  }

  const NOTHING: Limit := Limit(0, 0, 0, 0, 0, 0, 0, 0, 0)

  /**
   * A new service with room for num low tasks, below a system scope with room for none: tasks of
   * unknown priority are refused, and the service keeps them.
   */
  lemma UnknownPriorityLeaks(num: int) returns (m: System)
    requires 0 < num <= MAX_INT32
    ensures Leads(SystemOf(NOTHING), [OpenService(Some(NOTHING.(tasksLow := num, tasks := num)))], m)
    ensures Healthy(m) && |m.g| == 2
    ensures var (ok, c') := ReserveLaw(m.g, m.c, 1, Tasks(num, UnknownPriority)); !ok && c' != m.c
  {
    var op := OpenService(Some(NOTHING.(tasksLow := num, tasks := num)));
    var req := Tasks(num, UnknownPriority);
    LeadsNowhere(NOTHING);
    LeadsThen(SystemOf(NOTHING), [], SystemOf(NOTHING), op);
    m := Step(SystemOf(NOTHING), op);
    assert [] + [op] == [op];
    assert Path(m.g, 1) == [1, 0];
    assert !Refuses(m.g, m.c, 1, req) && Refuses(m.g, m.c, 0, req);
    FirstRefusalAt(m.g, m.c, [1, 0], 1, req);
    RefusedIff(m.g, m.c, 1, req);
  }

  function MemoryLimit(m: int): Limit {
    Limit(m, 0, 0, 0, 0, 0, 0, 0, 0)
  }

  function MemoryUse(m: int): ScopeStat {
    ScopeStat(m, 0, 0, 0, 0, 0, 0)
  }

  lemma MemoryOnly(m: int, u: int, d: int)
    requires 0 <= u <= m < MAX_INT64 && 0 <= d <= MAX_INT64
    ensures ValidLimit(MemoryLimit(m)) && InBounds(MemoryLimit(m), MemoryUse(u))
    ensures ValidRequest(All(MemoryUse(d))) && ValidRequest(Memory(d, 255))
    ensures Admits(MemoryLimit(m), MemoryUse(u), All(MemoryUse(d))) <==> u + d <= m
    ensures Admits(MemoryLimit(m), MemoryUse(u), Memory(d, 255)) <==> u + d <= m
  {
  }

  /** Three scopes with the same memory limit, and what system and service have in use. */
  predicate Filled(m: System, full: int, u0: int, u1: int) {
    && ThreeScopes(m.g, m.c) && 0 <= u0 <= full && 0 <= u1 <= full < MAX_INT64
    && m.g[0].limit == MemoryLimit(full) && m.g[1].limit == MemoryLimit(full) && m.g[2].limit == MemoryLimit(full)
    && m.c[0].rc == MemoryUse(u0) && m.c[1].rc == MemoryUse(u1) && m.c[2].rc == MemoryUse(0)
  }

  lemma Built(full: int) returns (ops: seq<Op>, m: System)
    requires 0 <= full < MAX_INT64
    ensures Leads(SystemOf(MemoryLimit(full)), ops, m)
    ensures Filled(m, full, 0, 0)
  {
    var m0, op := SystemOf(MemoryLimit(full)), OpenService(Some(MemoryLimit(full)));
    MemoryOnly(full, 0, 0);
    LeadsNowhere(MemoryLimit(full));
    LeadsThen(m0, [], m0, op);
    var m1 := Step(m0, op);
    LeadsThen(m0, [] + [op], m1, BeginSpan(1));
    ops, m := [] + [op] + [BeginSpan(1)], Step(m1, BeginSpan(1));
  }

  lemma TwoPaths(g: seq<Node>, c: seq<Cell>)
    requires ThreeScopes(g, c)
    ensures Path(g, 0) == [0] && Path(g, 1) == [1, 0]
  {
  }

  lemma ChargedFilled(m: System, full: int, u0: int, u1: int, s: nat, size: int, c': seq<Cell>)
    requires Filled(m, full, u0, u1) && Fits(full, u0, u1, s, size)
    requires c' == Charged(m.c, Path(m.g, s), MemoryUse(size)) && Sound(m.g, c')
    ensures Filled(m.(c := c'), full, u0 + size, if s == 1 then u1 + size else u1)
  {
    TwoPaths(m.g, m.c);
  }

  predicate Fits(full: int, u0: int, u1: int, s: nat, size: int) {
    s < 2 && 0 <= size && u0 + size <= full && (s == 1 ==> u1 + size <= full)
  }

  lemma FillAccepted(m: System, full: int, u0: int, u1: int, s: nat, size: int)
    requires Filled(m, full, u0, u1) && Fits(full, u0, u1, s, size)
    ensures ValidRequest(Memory(size, 255))
    ensures forall i :: i in Path(m.g, s) ==> !Refuses(m.g, m.c, i, Memory(size, 255))
  {
    MemoryOnly(full, u0, size);
    MemoryOnly(full, u1, size);
    TwoPaths(m.g, m.c);
  }

  lemma FillGranted(m: System, full: int, u0: int, u1: int, s: nat, size: int)
    requires Filled(m, full, u0, u1) && Fits(full, u0, u1, s, size)
    ensures ReserveLaw(m.g, m.c, s, Memory(size, 255)).1 == Charged(m.c, Path(m.g, s), MemoryUse(size))
  {
    FillAccepted(m, full, u0, u1, s, size);
    GrantedIff(m.g, m.c, s, Memory(size, 255));
  }

  /** Memory that fits is added to the service and the system, or to the system alone. */
  lemma Fill(m: System, full: int, u0: int, u1: int, s: nat, size: int)
    requires Filled(m, full, u0, u1) && Fits(full, u0, u1, s, size)
    ensures Healthy(m) && Legal(m, Reserve(s, Memory(size, 255)))
    ensures Filled(Step(m, Reserve(s, Memory(size, 255))), full, u0 + size, if s == 1 then u1 + size else u1)
  {
    FillAccepted(m, full, u0, u1, s, size);
    FillGranted(m, full, u0, u1, s, size);
    ReserveHealthy(m.g, m.c, s, Memory(size, 255));
    ChargedFilled(m, full, u0, u1, s, size, ReserveLaw(m.g, m.c, s, Memory(size, 255)).1);
  }

  lemma FillThen(m0: System, ops: seq<Op>, m: System, full: int, u0: int, u1: int, s: nat, size: int)
    returns (ops': seq<Op>, m': System)
    requires Leads(m0, ops, m) && Filled(m, full, u0, u1) && Fits(full, u0, u1, s, size)
    ensures Leads(m0, ops', m')
    ensures Filled(m', full, u0 + size, if s == 1 then u1 + size else u1)
  {
    Fill(m, full, u0, u1, s, size);
    LeadsThen(m0, ops, m, Reserve(s, Memory(size, 255)));
    ops', m' := ops + [Reserve(s, Memory(size, 255))], Step(m, Reserve(s, Memory(size, 255)));
  }

  lemma FullRefuses(m: System, full: int, held: int, ask: int)
    requires Filled(m, full, full, held) && 0 < ask && held + ask <= full
    ensures ValidRequest(All(MemoryUse(ask)))
    ensures var req := All(MemoryUse(ask));
            !Refuses(m.g, m.c, 2, req) && !Refuses(m.g, m.c, 1, req) && Refuses(m.g, m.c, 0, req)
  {
    MemoryOnly(full, full, ask);
    MemoryOnly(full, held, ask);
    MemoryOnly(full, 0, ask);
  }

  /**
   * And ResourcesNotAtomic does happen: some run of a new manager leads to a service with `held`
   * bytes and a span below a full system scope, and then `ask` bytes are asked for.
   */
  lemma ResourcesNotAtomicWitness(full: int, held: int, ask: int) returns (ops: seq<Op>, m: System)
    requires 0 < ask && 0 <= held && held + ask <= full < MAX_INT64
    ensures Leads(SystemOf(MemoryLimit(full)), ops, m)
    ensures Filled(m, full, full, held) && ValidRequest(All(MemoryUse(ask)))
    ensures var req := All(MemoryUse(ask));
            !Refuses(m.g, m.c, 2, req) && !Refuses(m.g, m.c, 1, req) && Refuses(m.g, m.c, 0, req)
  {
    var m0 := SystemOf(MemoryLimit(full));
    ops, m := Built(full);
    ops, m := FillThen(m0, ops, m, full, 0, 0, 1, held);
    ops, m := FillThen(m0, ops, m, full, held, held, 0, full - held);
    FullRefuses(m, full, held, ask);
  }
}
