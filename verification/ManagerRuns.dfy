/** Whole runs of the resource manager on the objects: what is proved of Run holds of them. */
module ManagerRuns {
  import opened Options
  import opened Resources
  import opened ScopeLaws
  import opened ScopeRuns
  import opened Conservation
  import opened Scopes

  ghost function State(w: seq<ResourceScope>): System
    reads w
  {
    System(Graph(w), Cells(w))
  }

  /** All scopes of this manager, its system scope first. */
  ghost predicate Manages(mgr: ResourceManager, w: seq<ResourceScope>)
    reads w
  {
    Ready(w) && 0 < |w| && w[0] == mgr.system
  }

  /** Any legal call on any scope there is; it may add a scope. */
  method Perform(mgr: ResourceManager, op: Op, name: string, w: seq<ResourceScope>) returns (w': seq<ResourceScope>)
    requires Manages(mgr, w) && Legal(State(w), op)
    modifies mgr, w
    ensures Manages(mgr, w') && w <= w' && forall i :: |w| <= i < |w'| ==> fresh(w'[i])
    ensures State(w') == Step(old(State(w)), op)
  {
    w' := w;
    match op {
      case OpenService(limit) =>
        var scope, _ := mgr.OpenService(name, limit, w);
        w' := w + [scope];
      case BeginSpan(s) =>
        var span, _ := w[s].BeginSpan(w);
        if span != null {
          w' := w + [span];
        }
      case Reserve(s, req) => var _ := w[s].Reserve(req, w);
      case Release(s, req) => w[s].Release(req, w);
      case ReserveResources(s, st) => var _ := w[s].ReserveResources(st, w);
      case ReleaseSelf(s) => w[s].ReleaseSelf(w);
      case Done(s) => w[s].Close(w);
    }
  }

  /** Each scope object is within its limits, and counts the references to it. */
  ghost predicate LimitsAndCounts(w: seq<ResourceScope>, free: nat)
    reads w
  {
    forall i :: 0 <= i < |w| ==>
      && InBounds(w[i].limit, w[i].rc)
      && w[i].refCnt == ChildSum(Graph(w), Cells(w), i, Heads, |w|) - if i == 0 then free else 0
  }

  /**
   * Each open scope object accounts for what it holds and for its open children, and the system
   * scope for what the scopes attached to it hold.
   */
  ghost predicate Balances(w: seq<ResourceScope>, l: Ledger)
    reads w
  {
    && Accounted(l) && l.m == State(w)
    && (forall i, k: Counter :: 0 <= i < |w| && !w[i].done && !k.Heads? ==>
          At(w[i].rc, k) == At(l.held[i], k) + ChildSum(Graph(w), Cells(w), i, k, |w|))
    && (forall k: Counter :: !w[0].done && !k.Heads? ==> At(w[0].rc, k) == HeldSum(l, k, |w|))
  }

  /**
   * Every legal run of a new manager, performed on the objects, ends where Run ends: each scope
   * within its limits, with its reference count, and after a fair run with its books balanced.
   */
  method PerformAll(limit: Limit, ops: seq<Op>, names: nat -> string)
    returns (mgr: ResourceManager, w: seq<ResourceScope>)
    requires ValidLimit(limit) && Healthy(SystemOf(limit)) && LegalRun(SystemOf(limit), ops)
    ensures Manages(mgr, w) && State(w) == Run(SystemOf(limit), ops)
    ensures LimitsAndCounts(w, FreeServices(ops))
    ensures Accounted(Opening(limit))
    ensures FairRun(Opening(limit), ops) ==> Balances(w, BookAll(Opening(limit), ops))
  {
    ghost var m := SystemOf(limit);
    mgr := new ResourceManager(limit);
    w := [mgr.system];
    for n := 0 to |ops|
      invariant fresh(mgr) && fresh(w) && Manages(mgr, w)
      invariant LegalRun(State(w), ops[n..]) && Run(State(w), ops[n..]) == Run(m, ops)
    {
      assert ops[n..][0] == ops[n] && ops[n..][1..] == ops[n + 1..];
      w := Perform(mgr, ops[n], names(n), w);
    }
    OpeningAccounted(limit);
    CountsOf(limit, ops, w);
    if FairRun(Opening(limit), ops) {
      BooksOf(limit, ops, w);
    }
  }

  lemma CountsOf(limit: Limit, ops: seq<Op>, w: seq<ResourceScope>)
    requires ValidLimit(limit) && Healthy(SystemOf(limit)) && LegalRun(SystemOf(limit), ops)
    requires Ready(w) && State(w) == Run(SystemOf(limit), ops)
    ensures LimitsAndCounts(w, FreeServices(ops))
  {
    RefCountExact(limit, ops);
    forall i | 0 <= i < |w|
      ensures InBounds(w[i].limit, w[i].rc) && Cells(w)[i].refCnt == w[i].refCnt
    {
      InPlace(w[i], w);
    }
  }

  lemma BooksOf(limit: Limit, ops: seq<Op>, w: seq<ResourceScope>)
    requires ValidLimit(limit) && Healthy(SystemOf(limit)) && LegalRun(SystemOf(limit), ops)
    requires Ready(w) && State(w) == Run(SystemOf(limit), ops)
    requires Accounted(Opening(limit)) && FairRun(Opening(limit), ops)
    ensures Balances(w, BookAll(Opening(limit), ops))
  {
    var l := BookAll(Opening(limit), ops);
    Conserved(Opening(limit), ops);
    BooksFollow(Opening(limit), ops);
    forall i, k: Counter | 0 <= i < |w| && !w[i].done && !k.Heads?
      ensures At(w[i].rc, k) == At(l.held[i], k) + ChildSum(Graph(w), Cells(w), i, k, |w|)
    {
      InPlace(w[i], w);
      assert !l.m.c[i].done;
    }
    forall k: Counter | !w[0].done && !k.Heads?
      ensures At(w[0].rc, k) == HeldSum(l, k, |w|)
    {
      InPlace(w[0], w);
      RootHoldsAttached(l, k);
    }
  }
}
