/** What a new scope accepts, what a closed one still reports, and how spans are numbered. */
module ScopeLife {
  import opened Options
  import opened Resources
  import opened ScopeLaws
  import opened ScopeRuns
  import Conservation

  // ----- new scopes ----------------------------------------------------------------------------

  lemma {:induction false} PathExtended(g: seq<Node>, x: Node, s: nat)
    requires WellFormed(g) && WellFormed(g + [x]) && s < |g|
    ensures Path(g + [x], s) == Path(g, s) && ResourcePath(g + [x], s) == ResourcePath(g, s)
    decreases s
  {
    assert NodeOk(g, s) && (g + [x])[s] == g[s];
    if g[s].owner.Some? {
      PathExtended(g, x, g[s].owner.value);
    }
  }

  lemma EmptierAdmits(l: Limit, u: ScopeStat, req: Request)
    requires NonNegative(u) && Admits(l, u, req)
    ensures Admits(l, NO_USE, req)
  {
  }

  /** m' has one more scope, open and empty, below s and with its limit; the others have what they had. */
  predicate SpanAdded(m: System, m': System, s: nat) {
    && Healthy(m) && Healthy(m') && s < |m.g|
    && m'.g == m.g + [Node(m.g[s].limit, Some(s), [])] && |m'.c| == |m.c| + 1 && m'.c[|m.c|] == NEW_CELL
    && forall i :: 0 <= i < |m.c| ==> m'.c[i].rc == m.c[i].rc && m'.c[i].done == m.c[i].done
  }

  lemma SpanRefuses(m: System, m': System, s: nat, req: Request)
    requires SpanAdded(m, m', s)
    ensures Path(m'.g, |m.g|) == [|m.g|] + Path(m.g, s) && ResourcePath(m'.g, |m.g|) == [|m.g|] + ResourcePath(m.g, s)
    ensures Refuses(m'.g, m'.c, |m.g|, req) ==> Refuses(m.g, m.c, s, req)
    ensures forall i :: 0 <= i < |m.g| ==> (Refuses(m'.g, m'.c, i, req) <==> Refuses(m.g, m.c, i, req))
  {
    PathExtended(m.g, m'.g[|m.g|], s);
    assert NodeOk(m'.g, |m.g|);
    if !Refuses(m.g, m.c, s, req) {
      EmptierAdmits(m.g[s].limit, m.c[s].rc, req);
    }
  }

  lemma SpanGrantsAs(m: System, m': System, s: nat, req: Request)
    requires SpanAdded(m, m', s)
    ensures ReserveLaw(m'.g, m'.c, |m.g|, req).0 <==> ReserveLaw(m.g, m.c, s, req).0
    ensures req.All? ==> (ResourcesLaw(m'.g, m'.c, |m.g|, req.stat).0 <==> ResourcesLaw(m.g, m.c, s, req.stat).0)
  {
    SpanRefuses(m, m', s, req);
    var p, p' := Path(m.g, s), Path(m'.g, |m.g|);
    assert s == p[0] && s in p && |m.g| in p';
    assert forall i :: i in p' <==> i == |m.g| || i in p;
    GrantedIff(m.g, m.c, s, req);
    GrantedIff(m'.g, m'.c, |m.g|, req);
    if req.All? {
      SpanGrantsAll(m, m', s, req.stat);
    }
  }

  lemma SpanGrantsAll(m: System, m': System, s: nat, st: ScopeStat)
    requires SpanAdded(m, m', s)
    ensures ResourcesLaw(m'.g, m'.c, |m.g|, st).0 <==> ResourcesLaw(m.g, m.c, s, st).0
  {
    SpanRefuses(m, m', s, All(st));
    var p, p' := ResourcePath(m.g, s), ResourcePath(m'.g, |m.g|);
    assert s == p[0] && s in p && |m.g| in p';
    assert forall i :: i in p' <==> i == |m.g| || i in p;
    ResourcesGrantedIff(m.g, m.c, s, st);
    ResourcesGrantedIff(m'.g, m'.c, |m.g|, st);
  }

  /** In every state, a span just begun is granted exactly what the scope it was begun on would be. */
  lemma SpanGrants(m: System, s: nat, req: Request)
    requires Healthy(m) && s < |m.g|
    ensures var m' := BeginSpanLaw(m, s);
            && Healthy(m')
            && (ReserveLaw(m'.g, m'.c, |m.g|, req).0 <==> ReserveLaw(m.g, m.c, s, req).0)
            && (req.All? ==>
                (ResourcesLaw(m'.g, m'.c, |m.g|, req.stat).0 <==> ResourcesLaw(m.g, m.c, s, req.stat).0))
  {
    SpanHealthy(m, s);
    SpanGrantsAs(m, BeginSpanLaw(m, s), s, req);
  }

  /** A service opened without a limit is granted exactly what the system scope would be. */
  lemma UnlimitedServiceGrants(m: System, req: Request)
    requires Healthy(m)
    ensures var m' := OpenServiceLaw(m, None);
            && Healthy(m')
            && (ReserveLaw(m'.g, m'.c, |m.g|, req).0 <==> ReserveLaw(m.g, m.c, 0, req).0)
            && (req.All? ==>
                (ResourcesLaw(m'.g, m'.c, |m.g|, req.stat).0 <==> ResourcesLaw(m.g, m.c, 0, req.stat).0))
  {
    OpenHealthy(m, None);
    SpanGrantsAs(m, OpenServiceLaw(m, None), 0, req);
  }

  /** A service opened with a limit is granted exactly what its limit and the system scope allow. */
  lemma ServiceGrants(m: System, l: Limit, req: Request)
    requires Healthy(m) && ValidLimit(l) && ValidRequest(req)
    ensures var m' := OpenServiceLaw(m, Some(l));
            var granted := Do(l, NO_USE, req).Some? && ReserveLaw(m.g, m.c, 0, req).0;
            && Healthy(m')
            && (ReserveLaw(m'.g, m'.c, |m.g|, req).0 <==> granted)
            && (req.All? ==> (ResourcesLaw(m'.g, m'.c, |m.g|, req.stat).0 <==> granted))
  {
    OpenHealthy(m, Some(l));
    var m', n := OpenServiceLaw(m, Some(l)), |m.g|;
    ServicePaths(m, l);
    DoExact(l, NO_USE, req);
    assert Refuses(m'.g, m'.c, 0, req) <==> Refuses(m.g, m.c, 0, req);
    GrantedIff(m.g, m.c, 0, req);
    GrantedIff(m'.g, m'.c, n, req);
    if req.All? {
      ResourcesGrantedIff(m'.g, m'.c, n, req.stat);
    }
  }

  lemma FirstHasNoEdges(g: seq<Node>)
    requires WellFormed(g) && 0 < |g|
    ensures g[0].owner == None && g[0].edges == []
  {
    assert NodeOk(g, 0);
    NoneBelow(g[0].edges, 0);
  }

  lemma NoneBelow(es: seq<nat>, n: nat)
    requires forall j :: 0 <= j < |es| ==> es[j] < n
    ensures n == 0 ==> es == []
  {
    if es != [] {
      assert es[0] < n;
    }
  }

  lemma ServicePaths(m: System, l: Limit)
    requires Healthy(m) && Healthy(OpenServiceLaw(m, Some(l)))
    ensures Path(m.g, 0) == [0]
    ensures Path(OpenServiceLaw(m, Some(l)).g, |m.g|) == [|m.g|, 0]
    ensures ResourcePath(OpenServiceLaw(m, Some(l)).g, |m.g|) == [|m.g|, 0]
  {
    FirstHasNoEdges(m.g);
    assert NodeOk(OpenServiceLaw(m, Some(l)).g, |m.g|);
  }

  /** A new manager's system scope is granted exactly what its limit allows. */
  lemma NewManagerGrants(l: Limit, req: Request)
    requires ValidLimit(l) && ValidRequest(req)
    ensures var m := SystemOf(l);
            && Healthy(m)
            && (ReserveLaw(m.g, m.c, 0, req).0 <==> Do(l, NO_USE, req).Some?)
            && (req.All? ==> (ResourcesLaw(m.g, m.c, 0, req.stat).0 <==> Do(l, NO_USE, req).Some?))
  {
    var m := SystemOf(l);
    HardLimits(l, []);
    DoExact(l, NO_USE, req);
    assert Path(m.g, 0) == [0] && ResourcePath(m.g, 0) == [0];
    GrantedIff(m.g, m.c, 0, req);
    if req.All? {
      ResourcesGrantedIff(m.g, m.c, 0, req.stat);
    }
  }

  /** Whom a reservation passes: the scope, then whom its owner's passes or, without an owner, its edges. */
  lemma PathMembers(g: seq<Node>, s: nat, i: nat)
    requires WellFormed(g) && s < |g|
    ensures NodeOk(g, s)
    ensures i in Path(g, s) <==>
            i == s || (if g[s].owner.Some? then i in Path(g, g[s].owner.value) else i in g[s].edges)
  {
    assert NodeOk(g, s);
  }

  /** ReserveResources passes only the first edge. */
  lemma ResourcePathMembers(g: seq<Node>, s: nat, i: nat)
    requires WellFormed(g) && s < |g|
    ensures NodeOk(g, s)
    ensures i in ResourcePath(g, s) <==>
            i == s || (if g[s].owner.Some? then i in ResourcePath(g, g[s].owner.value)
                       else g[s].edges != [] && i == g[s].edges[0])
  {
    assert NodeOk(g, s);
  }

  // ----- closed scopes -------------------------------------------------------------------------

  /** Right after Done a scope reports no memory, connections or descriptors, and the tasks it had. */
  lemma DoneReports(m: System, s: nat)
    requires Healthy(m) && s < |m.g| && !m.c[s].done
    ensures var x, x' := m.c[s].rc, Step(m, Done(s)).c[s];
            x'.done && x'.rc == ScopeStat(0, x.tasksHigh, x.tasksMedium, x.tasksLow, 0, 0, 0)
  {
  }

  /** No call changes what a closed scope reports, nor opens it again. */
  lemma StepClosed(m: System, op: Op, i: nat)
    requires Healthy(m) && Legal(m, op) && i < |m.c| && m.c[i].done
    ensures i < |Step(m, op).c| && Step(m, op).c[i].done && Step(m, op).c[i].rc == m.c[i].rc
  {
    var g, c := m.g, m.c;
    match op
    case Reserve(s, req) => ReserveClosed(g, c, s, req, i);
    case Release(s, req) => ReachesOlder(g, c, s, i);
    case ReserveResources(s, st) => ResourcesClosed(g, c, s, st, i);
    case ReleaseSelf(s) => ReachesOlder(g, c, s, i);
    case Done(s) => ReachesOlder(g, c, s, i);
    case _ =>
  }

  lemma ReserveClosed(g: seq<Node>, c: seq<Cell>, s: nat, req: Request, i: nat)
    requires Sound(g, c) && s < |g| && i < |c| && c[i].done
    ensures ReserveLaw(g, c, s, req).1[i] == c[i]
  {
    var path := Path(g, s);
    var k := FirstRefusal(g, c, path, req);
    if k == |path| {
      GrantedIff(g, c, s, req);
    }
  }

  lemma ResourcesClosed(g: seq<Node>, c: seq<Cell>, s: nat, st: ScopeStat, i: nat)
    requires Sound(g, c) && s < |g| && i < |c| && c[i].done && ValidRequest(All(st))
    ensures ResourcesLaw(g, c, s, st).1[i] == c[i]
  {
    var path := ResourcePath(g, s);
    var k := FirstRefusal(g, c, path, All(st));
    if k == |path| {
      ResourcesGrantedIff(g, c, s, st);
    } else if k == 0 {
      DrainedHere(g, c, s, st);
    } else {
      ReachesOlder(g, c, s, i);
      DrainedAtIff(g, c, s, k, st, i);
    }
  }

  /** So over every run. */
  lemma {:induction false} ClosedForGood(m: System, ops: seq<Op>, i: nat)
    requires Healthy(m) && LegalRun(m, ops) && i < |m.c| && m.c[i].done
    ensures i < |Run(m, ops).c| && Run(m, ops).c[i].done && Run(m, ops).c[i].rc == m.c[i].rc
    decreases |ops|
  {
    if ops != [] {
      StepHealthy(m, ops[0]);
      StepClosed(m, ops[0], i);
      ClosedForGood(Step(m, ops[0]), ops[1..], i);
    }
  }

  predicate ClosedAreEmpty(m: System) {
    forall i :: 0 <= i < |m.c| && m.c[i].done ==>
      m.c[i].rc.memory == 0 && m.c[i].rc.connsIn == 0 && m.c[i].rc.connsOut == 0 && m.c[i].rc.fd == 0
  }

  lemma OnlyDoneCloses(m: System, op: Op, i: nat)
    requires Healthy(m) && Legal(m, op) && i < |Step(m, op).c| && Step(m, op).c[i].done
    ensures i < |m.c| && (m.c[i].done || op == Done(i))
  {
    if op.Reserve? || op.Release? || op.ReserveResources? || op.ReleaseSelf? {
      Conservation.StepSameHeads(m, op);
    }
  }

  lemma StepClosedAreEmpty(m: System, op: Op)
    requires Healthy(m) && Legal(m, op) && ClosedAreEmpty(m)
    ensures ClosedAreEmpty(Step(m, op))
  {
    forall i | 0 <= i < |Step(m, op).c| && Step(m, op).c[i].done
      ensures var u := Step(m, op).c[i].rc; u.memory == 0 && u.connsIn == 0 && u.connsOut == 0 && u.fd == 0
    {
      OnlyDoneCloses(m, op, i);
      if m.c[i].done {
        StepClosed(m, op, i);
      } else {
        DoneReports(m, i);
      }
    }
  }

  /** In every state of every run a closed scope reports no memory, connections or descriptors. */
  lemma {:induction false} RunClosedAreEmpty(m: System, ops: seq<Op>)
    requires Healthy(m) && LegalRun(m, ops) && ClosedAreEmpty(m)
    ensures ClosedAreEmpty(Run(m, ops))
    decreases |ops|
  {
    if ops != [] {
      StepHealthy(m, ops[0]);
      StepClosedAreEmpty(m, ops[0]);
      RunClosedAreEmpty(Step(m, ops[0]), ops[1..]);
    }
  }

  // ----- span numbers --------------------------------------------------------------------------

  /** How many of the first n scopes are spans of i. */
  function Spans(g: seq<Node>, i: nat, n: nat): nat
    requires n <= |g|
  {
    if n == 0 then 0 else Spans(g, i, n - 1) + if g[n - 1].owner == Some(i) then 1 else 0
  }

  predicate Numbered(m: System)
    requires |m.c| == |m.g|
  {
    forall i :: 0 <= i < |m.c| ==> m.c[i].spanID == Spans(m.g, i, |m.g|)
  }

  lemma {:induction false} SpansSame(g: seq<Node>, g': seq<Node>, i: nat, n: nat)
    requires n <= |g| && n <= |g'| && forall j :: 0 <= j < n ==> g[j] == g'[j]
    ensures Spans(g, i, n) == Spans(g', i, n)
  {
    if n > 0 {
      SpansSame(g, g', i, n - 1);
    }
  }

  lemma {:induction false} NoSpansYet(g: seq<Node>, i: nat, n: nat)
    requires WellFormed(g) && n <= |g| && n <= i + 1
    ensures Spans(g, i, n) == 0
  {
    if n > 0 {
      assert NodeOk(g, n - 1);
      NoSpansYet(g, i, n - 1);
    }
  }

  lemma GrownNumbered(m: System, m': System)
    requires Healthy(m) && Healthy(m') && Numbered(m)
    requires |m'.g| == |m.g| + 1 && forall j :: 0 <= j < |m.g| ==> m'.g[j] == m.g[j]
    requires m'.c[|m.g|].spanID == 0
    requires forall i :: 0 <= i < |m.c| ==>
               m'.c[i].spanID == m.c[i].spanID + if m'.g[|m.g|].owner == Some(i) then 1 else 0
    ensures Numbered(m')
  {
    forall i | 0 <= i < |m'.c|
      ensures m'.c[i].spanID == Spans(m'.g, i, |m'.g|)
    {
      if i < |m.c| {
        SpansSame(m.g, m'.g, i, |m.g|);
      } else {
        NoSpansYet(m'.g, i, |m'.g|);
      }
    }
  }

  lemma SameNumbered(m: System, m': System)
    requires Healthy(m) && Healthy(m') && Numbered(m) && m'.g == m.g
    requires forall i :: 0 <= i < |m.c| ==> m'.c[i].spanID == m.c[i].spanID
    ensures Numbered(m')
  {
  }

  lemma NewNumbered(m: System, op: Op)
    requires Healthy(m) && Legal(m, op) && Numbered(m) && Healthy(Step(m, op))
    requires op.OpenService? || (op.BeginSpan? && !m.c[op.s].done)
    ensures Numbered(Step(m, op))
  {
    GrownNumbered(m, Step(m, op));
  }

  lemma StepNumbered(m: System, op: Op)
    requires Healthy(m) && Legal(m, op) && Numbered(m) && Healthy(Step(m, op))
    ensures Numbered(Step(m, op))
  {
    match op
    case OpenService(_) => NewNumbered(m, op);
    case BeginSpan(s) => if !m.c[s].done { NewNumbered(m, op); }
    case Done(s) => SameNumbered(m, Step(m, op));
    case _ =>
      Conservation.StepSameHeads(m, op);
      SameNumbered(m, Step(m, op));
  }

  lemma {:induction false} RunNumbered(m: System, ops: seq<Op>)
    requires Healthy(m) && LegalRun(m, ops) && Numbered(m)
    ensures Healthy(Run(m, ops)) && Numbered(Run(m, ops))
    decreases |ops|
  {
    if ops != [] {
      StepHealthy(m, ops[0]);
      StepNumbered(m, ops[0]);
      RunNumbered(Step(m, ops[0]), ops[1..]);
    }
  }

  /** After every run a scope has given as many span numbers as it has had spans, so no two spans share one. */
  lemma SpanNumbersExact(limit: Limit, ops: seq<Op>)
    requires ValidLimit(limit)
    ensures Healthy(SystemOf(limit))
    ensures LegalRun(SystemOf(limit), ops) ==>
              var m := Run(SystemOf(limit), ops);
              |m.c| == |m.g| && forall i :: 0 <= i < |m.c| ==> m.c[i].spanID == Spans(m.g, i, |m.g|)
  {
    HardLimits(limit, []);
    if LegalRun(SystemOf(limit), ops) {
      assert Spans(SystemOf(limit).g, 0, 1) == Spans(SystemOf(limit).g, 0, 0);
      RunNumbered(SystemOf(limit), ops);
    }
  }
}
