/**
 * base/gfsprcmgr/scope.go and rcmgr.go: scopes as objects that update themselves, their owners and
 * their edges. Mutexes become atomic calls. `w` lists every scope there is, in order of creation;
 * it is ghost and only serves to state what a call does to all of them.
 */
module Scopes {
  import opened MachineInt
  import opened Options
  import opened Resources
  import opened Sequences
  import opened ScopeLaws
  import ScopeRuns

  class ResourceScope {
    ghost const id: nat
    const limit: Limit
    const owner: ResourceScope?
    const edges: seq<ResourceScope>

    var done: bool
    var refCnt: int
    var spanID: int
    var rc: ScopeStat

    /** newResourceScope, without the IncRef on its edges, and newResourceScopeSpan. */
    constructor (limit: Limit, owner: ResourceScope?, edges: seq<ResourceScope>, ghost id: nat)
      ensures this.id == id && this.limit == limit && this.owner == owner && this.edges == edges
      ensures Cell() == NEW_CELL
    {
      this.id, this.limit, this.owner, this.edges := id, limit, owner, edges;
      done, refCnt, spanID, rc := false, 0, 0, NO_USE;
    }

    ghost function Node(): Node {
      ScopeLaws.Node(limit, if owner == null then None else Some(owner.id), Ids(edges))
    }

    ghost function Cell(): Cell
      reads this
    {
      ScopeLaws.Cell(done, refCnt, spanID, rc)
    }

    /** This scope stands at its own number in w, above it only older scopes of w. */
    ghost predicate Placed(w: seq<ResourceScope>) {
      && id < |w| && w[id] == this
      && (owner != null ==> owner.id < id && w[owner.id] == owner)
      && (forall j :: 0 <= j < |edges| ==> edges[j].id < id && w[edges[j].id] == edges[j])
    }

    /** Assigns the counters; the frame reasoning of every operation below is done here once. */
    method SetUsage(use: ScopeStat, ghost w: seq<ResourceScope>)
      requires Ready(w) && Placed(w) && InBounds(limit, use)
      modifies this`rc
      ensures Ready(w) && rc == use
      ensures Cells(w) == old(Cells(w))[id := old(Cell()).(rc := use)]
    {
      InPlace(this, w);
      rc := use;
      assert forall i :: 0 <= i < |w| && i != id ==> w[i].Cell() == old(w[i].Cell());
    }

    // ----- ForChild: the local half of an operation --------------------------------------------

    /** ReserveMemoryForChild, AddTaskForChild, AddConnForChild. */
    method ReserveForChild(req: Request, ghost w: seq<ResourceScope>) returns (ok: bool)
      requires Ready(w) && Placed(w) && ValidRequest(req) && !req.All?
      modifies this
      ensures Ready(w)
      ensures ok == !Refuses(Graph(w), old(Cells(w)), id, req)
      ensures Cells(w) == if ok then old(Cells(w))[id := Gain(old(Cell()), DoAmount(req))] else old(Cells(w))
    {
      InPlace(this, w);
      DoExact(limit, rc, req);
      if done {
        return false;
      }
      var r := Do(limit, rc, req);
      if r.None? {
        return false;
      }
      SetUsage(r.value, w);
      ok := true;
    }

    /** ReleaseMemoryForChild, RemoveTaskForChild, RemoveConnForChild, ReleaseForChild. */
    method ReleaseForChild(req: Request, ghost w: seq<ResourceScope>)
      requires Ready(w) && Placed(w) && ValidRelease(req)
      modifies this
      ensures Ready(w)
      ensures Cells(w) ==
              if old(done) then old(Cells(w)) else old(Cells(w))[id := Lose(old(Cell()), UndoAmount(req))]
    {
      if !done {
        InPlace(this, w);
        UndoExact(limit, rc, req);
        SetUsage(Undo(rc, req), w);
      }
    }

    /** ReserveForChild, and the local half of ReserveResources: five stages, each undoing those before it. */
    method ReserveAllForChild(st: ScopeStat, ghost w: seq<ResourceScope>) returns (ok: bool)
      requires Ready(w) && Placed(w) && ValidRequest(All(st))
      modifies this
      ensures Ready(w)
      ensures ok == !Refuses(Graph(w), old(Cells(w)), id, All(st))
      ensures Cells(w) == if ok then old(Cells(w))[id := Gain(old(Cell()), st)] else old(Cells(w))
    {
      InPlace(this, w);
      if done {
        return false;
      }
      var use;
      ok, use := ReserveStages(limit, rc, st);
      SetUsage(use, w);
    }

    // ----- reservations that climb -------------------------------------------------------------

    /** ReserveMemory, AddTask and AddConn, which differ only in the request. */
    method Reserve(req: Request, ghost w: seq<ResourceScope>) returns (ok: bool)
      requires Ready(w) && Placed(w) && ValidRequest(req) && !req.All?
      modifies w
      ensures Ready(w)
      ensures (ok, Cells(w)) == ReserveLaw(Graph(w), old(Cells(w)), id, req)
      decreases id
    {
      ghost var g, c := Graph(w), Cells(w);
      ghost var path := Path(g, id);
      InPlace(this, w);
      ok := ReserveForChild(req, w);
      if !ok {
        assert FirstRefusal(g, c, path, req) == 0;
        assert Reverted(c, path[..0], req) == c;
        return;
      }
      ghost var c1 := Cells(w);
      PathLawStep(g, c, path, req, c1);
      if owner != null {
        InPlace(owner, w);
        assert path[1..] == Path(g, owner.id);
        ok := owner.Reserve(req, w);
      } else {
        assert path[1..] == Ids(edges);
        ok := ReserveForEdges(req, w);
      }
      if !ok {
        InPlace(this, w);
        UndoAfterDo(limit, c[id].rc, req);
        SetUsage(Undo(rc, req), w);
      }
    }

    /** ReserveMemory: the bytes are in every scope of the path, or in none. */
    method ReserveMemory(size: int, prio: int, ghost w: seq<ResourceScope>) returns (ok: bool)
      requires Ready(w) && Placed(w) && IsInt64(size) && 0 <= prio <= 255
      modifies w
      ensures Ready(w)
      ensures ok <==> forall i :: i in Path(Graph(w), id) ==> !Refuses(Graph(w), old(Cells(w)), i, Memory(size, prio))
      ensures Cells(w) == if ok then Charged(old(Cells(w)), Path(Graph(w), id), NO_USE.(memory := size))
                          else old(Cells(w))
    {
      ScopeRuns.GrantedIff(Graph(w), Cells(w), id, Memory(size, prio));
      ghost var c := Cells(w);
      ok := Reserve(Memory(size, prio), w);
      if !ok {
        ScopeRuns.RefusedIff(Graph(w), c, id, Memory(size, prio));
      }
    }

    /** AddTask: the same, for the three known priorities. */
    method AddTask(num: int, prio: TaskPriority, ghost w: seq<ResourceScope>) returns (ok: bool)
      requires Ready(w) && Placed(w) && 0 <= num <= MAX_COUNT
      modifies w
      ensures Ready(w)
      ensures ok <==> forall i :: i in Path(Graph(w), id) ==> !Refuses(Graph(w), old(Cells(w)), i, Tasks(num, prio))
      ensures ok ==> Cells(w) == Charged(old(Cells(w)), Path(Graph(w), id), TaskStat(num, prio))
      ensures !ok && prio != UnknownPriority ==> Cells(w) == old(Cells(w))
    {
      ScopeRuns.GrantedIff(Graph(w), Cells(w), id, Tasks(num, prio));
      ghost var c := Cells(w);
      ok := Reserve(Tasks(num, prio), w);
      if !ok {
        ScopeRuns.RefusedIff(Graph(w), c, id, Tasks(num, prio));
      }
    }

    /** reserveMemoryForEdges, addTaskForEdges, addConnForEdges, for a scope without an owner. */
    method ReserveForEdges(req: Request, ghost w: seq<ResourceScope>) returns (ok: bool)
      requires Ready(w) && Placed(w) && ValidRequest(req) && !req.All? && owner == null
      modifies w
      ensures Ready(w) && Within(Ids(edges), |w|)
      ensures (ok, Cells(w)) == PathLaw(Graph(w), old(Cells(w)), Ids(edges), req)
    {
      ghost var g, c, ids := Graph(w), Cells(w), Ids(edges);
      InPlace(this, w);
      var reserved := ReserveEdges(req, w);
      ok := reserved == |edges|;
      if ok {
        assert ids[..reserved] == ids;
        assert PathLaw(g, c, ids, req) == (true, Charged(c, ids, DoAmount(req)));
      } else {
        UndoForEdges(req, reserved, c, w);
        assert PathLaw(g, c, ids, req) == (false, Reverted(c, ids[..reserved], req));
      }
    }

    /** The loop over the edges, up to the first that refuses. */
    method ReserveEdges(req: Request, ghost w: seq<ResourceScope>) returns (reserved: nat)
      requires Ready(w) && Placed(w) && ValidRequest(req) && !req.All? && Within(Ids(edges), |w|)
      modifies w
      ensures Ready(w)
      ensures reserved == FirstRefusal(Graph(w), old(Cells(w)), Ids(edges), req)
      ensures Cells(w) == Charged(old(Cells(w)), Ids(edges)[..reserved], DoAmount(req))
    {
      ghost var c, k := Cells(w), FirstRefusal(Graph(w), Cells(w), Ids(edges), req);
      assert Charged(c, Ids(edges)[..0], DoAmount(req)) == c;
      reserved := 0;
      while reserved < |edges|
        invariant 0 <= reserved <= k && Ready(w)
        invariant Cells(w) == Charged(c, Ids(edges)[..reserved], DoAmount(req))
      {
        AcceptsBelow(Graph(w), c, Ids(edges), reserved, req);
        var ok := ReserveForEdge(reserved, req, c, w);
        if !ok {
          break;
        }
        reserved := reserved + 1;
      }
    }

    /** The undo loop: the first n edges were reserved from the state c. */
    method UndoForEdges(req: Request, n: nat, ghost c: seq<Cell>, ghost w: seq<ResourceScope>)
      requires Ready(w) && Placed(w) && ValidRequest(req) && owner == null && n <= |edges|
      requires Sound(Graph(w), c) && Within(Ids(edges), |w|)
      requires n <= FirstRefusal(Graph(w), c, Ids(edges), req)
      requires Cells(w) == Charged(c, Ids(edges)[..n], DoAmount(req))
      modifies w
      ensures Ready(w)
      ensures Cells(w) == Reverted(c, Ids(edges)[..n], req)
    {
      UndoneAll(c, Ids(edges)[..n], req);
      for m := 0 to n
        invariant Ready(w)
        invariant Cells(w) == UndoneTo(c, Ids(edges)[..n], m, req)
      {
        UndoForEdge(m, n, req, c, w);
      }
    }

    method ReserveForEdge(n: nat, req: Request, ghost c: seq<Cell>, ghost w: seq<ResourceScope>) returns (ok: bool)
      requires Ready(w) && Placed(w) && ValidRequest(req) && !req.All?
      requires n < |edges| && |c| == |w| && Within(Ids(edges), |w|)
      requires Cells(w) == Charged(c, Ids(edges)[..n], DoAmount(req))
      modifies w
      ensures Ready(w) && ok == !Refuses(Graph(w), c, Ids(edges)[n], req)
      ensures Cells(w) == Charged(c, Ids(edges)[..if ok then n + 1 else n], DoAmount(req))
    {
      InPlace(this, w);
      InPlace(edges[n], w);
      ChargedNext(c, Ids(edges), n, DoAmount(req));
      ok := edges[n].ReserveForChild(req, w);
    }

    method UndoForEdge(m: nat, n: nat, req: Request, ghost c: seq<Cell>, ghost w: seq<ResourceScope>)
      requires Ready(w) && Placed(w) && ValidRequest(req) && m < n
      requires Sound(Graph(w), c) && Within(Ids(edges), |w|) && n <= FirstRefusal(Graph(w), c, Ids(edges), req)
      requires Cells(w) == UndoneTo(c, Ids(edges)[..n], m, req)
      modifies w
      ensures Ready(w)
      ensures Cells(w) == UndoneTo(c, Ids(edges)[..n], m + 1, req)
    {
      InPlace(this, w);
      InPlace(edges[m], w);
      AcceptsBelow(Graph(w), c, Ids(edges), m, req);
      UndoneNext(Graph(w), c, Ids(edges)[..n], m, req);
      edges[m].ReleaseForChild(req, w);
    }

    /** ReserveResources. */
    method ReserveResources(st: ScopeStat, ghost w: seq<ResourceScope>) returns (ok: bool)
      requires Ready(w) && Placed(w) && ValidRequest(All(st))
      modifies w
      ensures Ready(w)
      ensures (ok, Cells(w)) == ResourcesLaw(Graph(w), old(Cells(w)), id, st)
      decreases id
    {
      ghost var g, c := Graph(w), Cells(w);
      InPlace(this, w);
      ok := ReserveAllForChild(st, w);
      if !ok {
        assert FirstRefusal(g, c, ResourcePath(g, id), All(st)) == 0;
        DrainedHere(g, c, id, st);
        return;
      }
      if owner != null {
        InPlace(owner, w);
        ResourcesLawStep(g, c, id, st);
        ok := owner.ReserveResources(st, w);
      } else {
        ResourcesLawTop(g, c, id, st);
        if |edges| > 0 {
          assert g[id].edges[0] == edges[0].id;
          InPlace(edges[0], w);
          ok := edges[0].ReserveAllForChild(st, w);
        }
      }
      if !ok {
        Release(All(st), w);
      }
    }

    // ----- releases ----------------------------------------------------------------------------

    /** ReleaseMemory, RemoveTask, RemoveConn and ReleaseResources. */
    method Release(req: Request, ghost w: seq<ResourceScope>)
      requires Ready(w) && Placed(w) && ValidRelease(req)
      modifies w
      ensures Ready(w)
      ensures Cells(w) == ReleaseLaw(Graph(w), old(Cells(w)), id, req)
      decreases id
    {
      ghost var g, c := Graph(w), Cells(w);
      InPlace(this, w);
      if done {
        assert ReleaseLaw(g, c, id, req) == c;
        return;
      }
      ReleaseLawStep(g, c, id, req);
      ReleaseForChild(req, w);
      if owner != null {
        InPlace(owner, w);
        owner.Release(req, w);
      } else {
        ReleaseForEdges(req, w);
      }
    }

    method ReleaseForEdges(req: Request, ghost w: seq<ResourceScope>)
      requires Ready(w) && Placed(w) && ValidRelease(req)
      modifies w
      ensures Ready(w)
      ensures Cells(w) == EdgesLose(old(Cells(w)), Ids(edges), UndoAmount(req))
    {
      ghost var c, ids, d := Cells(w), Ids(edges), UndoAmount(req);
      InPlace(this, w);
      assert EdgesLose(c, ids[..0], d) == c;
      for n := 0 to |edges|
        invariant Ready(w)
        invariant Cells(w) == EdgesLose(c, ids[..n], d)
      {
        assert ids[n] == edges[n].id;
        EdgesLoseNext(c, ids, n, d);
        InPlace(edges[n], w);
        edges[n].ReleaseForChild(req, w);
      }
      assert ids[..|edges|] == ids;
    }

    /** Release: give back everything this scope accounts for, without closing it. */
    method ReleaseSelf(ghost w: seq<ResourceScope>)
      requires Ready(w) && Placed(w)
      modifies w
      ensures Ready(w)
      ensures Cells(w) == ReleaseLaw(Graph(w), old(Cells(w)), id, All(old(rc)))
    {
      InPlace(this, w);
      Release(All(rc), w);
    }

    // ----- opening and closing -----------------------------------------------------------------

    /** Done. */
    method Close(ghost w: seq<ResourceScope>)
      requires Ready(w) && Placed(w)
      modifies w
      ensures Ready(w)
      ensures Cells(w) == DoneLaw(Graph(w), old(Cells(w)), id)
      ensures done
    {
      InPlace(this, w);
      if done {
        return;
      }
      if owner != null {
        DesertOwner(w);
      } else {
        DesertEdges(w);
      }
      Shut(w);
    }

    /** What Done of a span does to the scopes above: only the span itself is then left to close. */
    method DesertOwner(ghost w: seq<ResourceScope>)
      requires Ready(w) && Placed(w) && !done && owner != null
      modifies w
      ensures Ready(w) && Cell() == old(Cell())
      ensures Cells(w)[id := Closed(Cell())] == DoneLaw(Graph(w), old(Cells(w)), id)
    {
      InPlace(this, w);
      DoneLawSpan(Graph(w), Cells(w), id);
      InPlace(owner, w);
      owner.Release(All(rc), w);
      InPlace(owner, w);
      owner.Count(-1, w);
      InPlace(this, w);
    }

    /** The same for a scope with edges. */
    method DesertEdges(ghost w: seq<ResourceScope>)
      requires Ready(w) && Placed(w) && !done && owner == null
      modifies w
      ensures Ready(w) && Cell() == old(Cell())
      ensures Cells(w)[id := Closed(Cell())] == DoneLaw(Graph(w), old(Cells(w)), id)
    {
      InPlace(this, w);
      DoneLawEdges(Graph(w), Cells(w), id);
      DesertEach(rc, w);
      InPlace(this, w);
    }

    method DesertEach(stat: ScopeStat, ghost w: seq<ResourceScope>)
      requires Ready(w) && Placed(w) && ValidRelease(All(stat))
      modifies w
      ensures Ready(w)
      ensures Cells(w) == EdgesDeserted(old(Cells(w)), Ids(edges), stat)
    {
      ghost var c, ids := Cells(w), Ids(edges);
      InPlace(this, w);
      assert EdgesDeserted(c, ids[..0], stat) == c;
      for n := 0 to |edges|
        invariant Ready(w)
        invariant Cells(w) == EdgesDeserted(c, ids[..n], stat)
      {
        assert ids[n] == edges[n].id;
        EdgesDesertedNext(c, ids, n, stat);
        InPlace(edges[n], w);
        edges[n].Desert(stat, w);
      }
      assert ids[..|edges|] == ids;
    }

    method Desert(stat: ScopeStat, ghost w: seq<ResourceScope>)
      requires Ready(w) && Placed(w) && ValidRelease(All(stat))
      modifies this
      ensures Ready(w) && Cells(w) == old(Cells(w))[id := Deserted(old(Cell()), stat)]
    {
      InPlace(this, w);
      ReleaseForChild(All(stat), w);
      InPlace(this, w);
      Count(-1, w);
    }

    method Shut(ghost w: seq<ResourceScope>)
      requires Ready(w) && Placed(w)
      modifies this`rc, this`done
      ensures Ready(w) && Cells(w) == old(Cells(w))[id := Closed(old(Cell()))]
    {
      InPlace(this, w);
      SetUsage(rc.(memory := 0, connsIn := 0, connsOut := 0, fd := 0), w);
      InPlace(this, w);
      done := true;
      assert forall i :: 0 <= i < |w| && i != id ==> w[i].Cell() == old(w[i].Cell());
    }

    /** IncRef and DecRef. */
    method Count(delta: int, ghost w: seq<ResourceScope>)
      requires Ready(w) && Placed(w)
      modifies this`refCnt
      ensures Ready(w) && Cells(w) == old(Cells(w))[id := old(Cell()).(refCnt := old(refCnt) + delta)]
    {
      InPlace(this, w);
      refCnt := refCnt + delta;
      assert forall i :: 0 <= i < |w| && i != id ==> w[i].Cell() == old(w[i].Cell());
    }

    method NextSpanID(ghost w: seq<ResourceScope>)
      requires Ready(w) && Placed(w)
      modifies this`spanID
      ensures Ready(w) && Cells(w) == old(Cells(w))[id := old(Cell()).(spanID := old(spanID) + 1)]
    {
      InPlace(this, w);
      spanID := spanID + 1;
      assert forall i :: 0 <= i < |w| && i != id ==> w[i].Cell() == old(w[i].Cell());
    }

    /** BeginSpan: no span from a closed scope. */
    method BeginSpan(ghost w: seq<ResourceScope>) returns (span: ResourceScope?, ghost w': seq<ResourceScope>)
      requires Ready(w) && Placed(w)
      modifies this
      ensures Ready(w')
      ensures old(done) ==> span == null && w' == w && Cells(w) == old(Cells(w))
      ensures !old(done) ==> span != null && fresh(span) && w' == w + [span] && span.Placed(w')
      ensures !old(done) ==> span.limit == limit && span.owner == this && span.edges == []
      ensures !old(done) ==> refCnt == old(refCnt) + 1 && spanID == old(spanID) + 1 && rc == old(rc) && !done
      ensures !old(done) ==>
              System(Graph(w'), Cells(w')) == BeginSpanLaw(System(Graph(w), old(Cells(w))), id)
    {
      InPlace(this, w);
      if done {
        return null, w;
      }
      Count(1, w);
      NextSpanID(w);
      span, w' := NewScope(limit, this, [], w);
    }
  }

  ghost function Ids(es: seq<ResourceScope>): (r: seq<nat>)
    ensures |r| == |es|
  {
    seq(|es|, i requires 0 <= i < |es| => es[i].id)
  }

  ghost function Graph(w: seq<ResourceScope>): (g: seq<Node>)
    ensures |g| == |w|
  {
    seq(|w|, i requires 0 <= i < |w| => w[i].Node())
  }

  ghost function Cells(w: seq<ResourceScope>): (c: seq<Cell>)
    reads w
    ensures |c| == |w|
  {
    seq(|w|, i requires 0 <= i < |w| reads w => w[i].Cell())
  }

  /** All scopes are in place, and within their hard limits. */
  ghost predicate Ready(w: seq<ResourceScope>)
    reads w
  {
    && (forall i :: 0 <= i < |w| ==> w[i].id == i && w[i].Placed(w))
    && Sound(Graph(w), Cells(w))
  }

  lemma InPlace(s: ResourceScope, w: seq<ResourceScope>)
    requires Ready(w) && s.Placed(w)
    ensures Graph(w)[s.id] == s.Node() && NodeOk(Graph(w), s.id)
    ensures Cells(w)[s.id] == s.Cell()
    ensures ValidLimit(s.limit) && InBounds(s.limit, s.rc) && ValidRelease(All(s.rc))
  {
  }

  /** A new scope with nothing in it, placed last, leaves all in order. */
  lemma Extended(w: seq<ResourceScope>, s: ResourceScope)
    requires Ready(w) && s !in w && s.id == |w| && s.Cell() == NEW_CELL && ValidLimit(s.limit)
    requires s.owner != null ==> s.owner.Placed(w) && s.edges == []
    requires forall j :: 0 <= j < |s.edges| ==> s.edges[j].Placed(w)
    requires Distinct(Ids(s.edges))
    ensures Ready(w + [s]) && s.Placed(w + [s])
  {
    var w', g := w + [s], Graph(w);
    assert Graph(w')[..|w|] == g && Cells(w')[..|w|] == Cells(w);
    forall i | 0 <= i < |w'|
      ensures w'[i].id == i && w'[i].Placed(w') && NodeOk(Graph(w'), i)
      ensures InBounds(Graph(w')[i].limit, Cells(w')[i].rc)
    {
      if i < |w| {
        InPlace(w[i], w);
      }
    }
  }

  method NewScope(limit: Limit, owner: ResourceScope?, edges: seq<ResourceScope>, ghost w: seq<ResourceScope>)
    returns (scope: ResourceScope, ghost w': seq<ResourceScope>)
    requires Ready(w) && ValidLimit(limit)
    requires owner != null ==> owner.Placed(w) && edges == []
    requires forall j :: 0 <= j < |edges| ==> edges[j].Placed(w)
    requires Distinct(Ids(edges))
    ensures fresh(scope) && w' == w + [scope] && Ready(w') && scope.Placed(w')
    ensures scope.limit == limit && scope.owner == owner && scope.edges == edges
    ensures Graph(w') == Graph(w) + [Node(limit, if owner == null then None else Some(owner.id), Ids(edges))]
    ensures Cells(w') == old(Cells(w)) + [NEW_CELL]
  {
    scope := new ResourceScope(limit, owner, edges, |w|);
    w' := w + [scope];
    Extended(w, scope);
    assert Graph(w') == Graph(w) + [scope.Node()];
    assert Cells(w') == Cells(w) + [NEW_CELL];
  }

  class ResourceManager {
    const system: ResourceScope
    var svc: map<string, ResourceScope>

    /** NewResourceManager. */
    constructor (limit: Limit)
      requires ValidLimit(limit)
      ensures fresh(system) && svc == map[]
      ensures Ready([system]) && system.Placed([system])
      ensures System(Graph([system]), Cells([system])) == SystemOf(limit)
    {
      system := new ResourceScope(limit, null, [], 0);
      svc := map[];
      new;
      Extended([], system);
      assert [] + [system] == [system];
    }

    /** OpenService; `limit` is what the limiter answers for this service. */
    method OpenService(name: string, limit: Option<Limit>, ghost w: seq<ResourceScope>)
      returns (scope: ResourceScope, ghost w': seq<ResourceScope>)
      requires Ready(w) && system.Placed(w) && system.id == 0
      requires limit.Some? ==> ValidLimit(limit.value)
      modifies this, system
      ensures Ready(w') && fresh(scope) && w' == w + [scope] && scope.Placed(w')
      ensures svc == old(svc)[name := scope]
      ensures limit.Some? ==> scope.limit == limit.value && scope.owner == null && scope.edges == [system]
      ensures limit.None? ==> scope.limit == system.limit && scope.owner == system && scope.edges == []
      ensures system.refCnt == old(system.refCnt) + if limit.None? then 0 else 1
      ensures system.rc == old(system.rc) && system.done == old(system.done)
      ensures System(Graph(w'), Cells(w')) == OpenServiceLaw(System(Graph(w), old(Cells(w))), limit)
    {
      match limit {
        case None => scope, w' := OpenSpan(w);
        case Some(l) => scope, w' := OpenScope(l, w);
      }
      svc := svc[name := scope];
    }

    method OpenSpan(ghost w: seq<ResourceScope>) returns (scope: ResourceScope, ghost w': seq<ResourceScope>)
      requires Ready(w) && system.Placed(w) && system.id == 0
      modifies system
      ensures Ready(w') && fresh(scope) && w' == w + [scope] && scope.Placed(w')
      ensures scope.limit == system.limit && scope.owner == system && scope.edges == []
      ensures system.refCnt == old(system.refCnt) && system.rc == old(system.rc) && system.done == old(system.done)
      ensures System(Graph(w'), Cells(w')) == OpenServiceLaw(System(Graph(w), old(Cells(w))), None)
    {
      InPlace(system, w);
      system.NextSpanID(w);
      assert Ids([]) == [];
      scope, w' := NewScope(system.limit, system, [], w);
    }

    method OpenScope(limit: Limit, ghost w: seq<ResourceScope>)
      returns (scope: ResourceScope, ghost w': seq<ResourceScope>)
      requires Ready(w) && system.Placed(w) && system.id == 0 && ValidLimit(limit)
      modifies system
      ensures Ready(w') && fresh(scope) && w' == w + [scope] && scope.Placed(w')
      ensures scope.limit == limit && scope.owner == null && scope.edges == [system]
      ensures system.refCnt == old(system.refCnt) + 1 && system.rc == old(system.rc) && system.done == old(system.done)
      ensures System(Graph(w'), Cells(w')) == OpenServiceLaw(System(Graph(w), old(Cells(w))), Some(limit))
    {
      InPlace(system, w);
      system.Count(1, w);
      assert Ids([system]) == [0];
      scope, w' := NewScope(limit, null, [system], w);
    }
  }
}
