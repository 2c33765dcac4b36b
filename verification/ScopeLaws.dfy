/**
 * What the operations of base/gfsprcmgr/scope.go do to all scopes at once, stated outright for
 * each scope rather than by climbing. The classes in Scopes.dfy are proved to do just this.
 */
module ScopeLaws {
  import opened Options
  import opened Resources
  import opened Sequences

  /** What construction fixes. Scopes are numbered in order of creation. */
  datatype Node = Node(limit: Limit, owner: Option<nat>, edges: seq<nat>)

  /** What operations change. */
  datatype Cell = Cell(done: bool, refCnt: int, spanID: int, rc: ScopeStat)

  /** Owners and edges are older scopes; a span has an owner and no edges; edges are a set. */
  predicate NodeOk(g: seq<Node>, i: nat)
    requires i < |g|
  {
    && ValidLimit(g[i].limit)
    && (g[i].owner.Some? ==> g[i].owner.value < i && g[i].edges == [])
    && (forall j :: 0 <= j < |g[i].edges| ==> g[i].edges[j] < i)
    && Distinct(g[i].edges)
  }

  predicate WellFormed(g: seq<Node>) {
    forall i :: 0 <= i < |g| ==> NodeOk(g, i)
  }

  /** Every scope is within its hard limits. */
  predicate Sound(g: seq<Node>, c: seq<Cell>) {
    && WellFormed(g)
    && |c| == |g|
    && forall i :: 0 <= i < |c| ==> InBounds(g[i].limit, c[i].rc)
  }

  // ----- reservations --------------------------------------------------------------------------

  /** The scopes a reservation has to pass, in order: the owner chain, then the last owner's edges. */
  function Path(g: seq<Node>, s: nat): (p: seq<nat>)
    requires WellFormed(g) && s < |g|
    ensures |p| > 0 && p[0] == s
    ensures forall j :: 0 <= j < |p| ==> p[j] <= s
    ensures Distinct(p)
    decreases s
  {
    assert NodeOk(g, s);
    match g[s].owner
    case Some(o) => [s] + Path(g, o)
    case None => [s] + g[s].edges
  }

  predicate Refuses(g: seq<Node>, c: seq<Cell>, i: nat, req: Request)
    requires |c| == |g| && i < |g|
  {
    c[i].done || !Admits(g[i].limit, c[i].rc, req)
  }

  predicate Within(ps: seq<nat>, n: nat) {
    forall j :: 0 <= j < |ps| ==> ps[j] < n
  }

  /** The position of the first scope that is closed or too full; |ps| when every one accepts. */
  function FirstRefusal(g: seq<Node>, c: seq<Cell>, ps: seq<nat>, req: Request): (k: nat)
    requires |c| == |g| && Within(ps, |g|)
    ensures k <= |ps|
    ensures forall j :: 0 <= j < k ==> !Refuses(g, c, ps[j], req)
    ensures k < |ps| ==> Refuses(g, c, ps[k], req)
  {
    if ps == [] || Refuses(g, c, ps[0], req) then 0
    else
      assert Within(ps[1..], |g|);
      1 + FirstRefusal(g, c, ps[1..], req)
  }

  function Gain(x: Cell, d: ScopeStat): Cell {
    x.(rc := Plus(x.rc, d))
  }

  function Back(x: Cell, req: Request): Cell {
    x.(rc := Undo(x.rc, req))
  }

  /** Each scope in ps gains d. */
  function Charged(c: seq<Cell>, ps: seq<nat>, d: ScopeStat): (r: seq<Cell>)
    ensures |r| == |c|
  {
    seq(|c|, i requires 0 <= i < |c| => if i in ps then Gain(c[i], d) else c[i])
  }

  /** Each scope in ps gains the request and loses it again, by the release the code pairs with it. */
  function Reverted(c: seq<Cell>, ps: seq<nat>, req: Request): (r: seq<Cell>)
    ensures |r| == |c|
  {
    seq(|c|, i requires 0 <= i < |c| => if i in ps then Back(Gain(c[i], DoAmount(req)), req) else c[i])
  }

  /** Reserving along a list of scopes: all of them, or up to the first refusal and back. */
  function PathLaw(g: seq<Node>, c: seq<Cell>, ps: seq<nat>, req: Request): (bool, seq<Cell>)
    requires |c| == |g| && Within(ps, |g|)
  {
    var k := FirstRefusal(g, c, ps, req);
    if k == |ps| then (true, Charged(c, ps, DoAmount(req))) else (false, Reverted(c, ps[..k], req))
  }

  /** ReserveMemory, AddTask and AddConn. */
  function ReserveLaw(g: seq<Node>, c: seq<Cell>, s: nat, req: Request): (bool, seq<Cell>)
    requires WellFormed(g) && |c| == |g| && s < |g|
  {
    PathLaw(g, c, Path(g, s), req)
  }

  lemma FirstRefusalSame(g: seq<Node>, c: seq<Cell>, c': seq<Cell>, ps: seq<nat>, req: Request)
    requires |c| == |c'| == |g| && Within(ps, |g|)
    requires forall j :: 0 <= j < |ps| ==> c[ps[j]] == c'[ps[j]]
    ensures FirstRefusal(g, c, ps, req) == FirstRefusal(g, c', ps, req)
  {
    if ps != [] && !Refuses(g, c, ps[0], req) {
      FirstRefusalSame(g, c, c', ps[1..], req);
    }
  }

  lemma ChargedStep(c: seq<Cell>, s: nat, t: seq<nat>, d: ScopeStat)
    requires s < |c| && s !in t
    ensures Charged(c, [s] + t, d) == Charged(c[s := Gain(c[s], d)], t, d)
  {
  }

  lemma RevertedStep(c: seq<Cell>, s: nat, t: seq<nat>, req: Request)
    requires s < |c| && s !in t
    ensures var c1 := c[s := Gain(c[s], DoAmount(req))];
            Reverted(c, [s] + t, req) == Reverted(c1, t, req)[s := Back(c1[s], req)]
  {
  }

  /** Passing the first scope of a path and then the rest is passing the path. */
  lemma PathLawStep(g: seq<Node>, c: seq<Cell>, ps: seq<nat>, req: Request, c1: seq<Cell>)
    requires |c| == |g| && Within(ps, |g|) && ps != [] && Distinct(ps)
    requires !Refuses(g, c, ps[0], req)
    requires c1 == c[ps[0] := Gain(c[ps[0]], DoAmount(req))]
    ensures Within(ps[1..], |g|)
    ensures var (ok, c2) := PathLaw(g, c1, ps[1..], req);
            && |c2| == |c| && c2[ps[0]] == c1[ps[0]]
            && PathLaw(g, c, ps, req) == (ok, if ok then c2 else c2[ps[0] := Back(c1[ps[0]], req)])
  {
    var s, t := ps[0], ps[1..];
    var k := FirstRefusal(g, c1, t, req);
    FirstRefusalStep(g, c, ps, req, c1);
    if k == |t| {
      assert ps == [s] + t;
      ChargedStep(c, s, t, DoAmount(req));
    } else {
      assert ps[..1 + k] == [s] + t[..k];
      RevertedStep(c, s, t[..k], req);
    }
  }

  lemma FirstRefusalStep(g: seq<Node>, c: seq<Cell>, ps: seq<nat>, req: Request, c1: seq<Cell>)
    requires |c| == |c1| == |g| && Within(ps, |g|) && ps != [] && Distinct(ps)
    requires !Refuses(g, c, ps[0], req)
    requires forall i :: 0 <= i < |c| && i != ps[0] ==> c1[i] == c[i]
    ensures Within(ps[1..], |g|)
    ensures FirstRefusal(g, c, ps, req) == 1 + FirstRefusal(g, c1, ps[1..], req)
  {
    FirstRefusalSame(g, c, c1, ps[1..], req);
  }

  lemma AcceptsBelow(g: seq<Node>, c: seq<Cell>, ps: seq<nat>, n: nat, req: Request)
    requires |c| == |g| && Within(ps, |g|) && n < |ps| && n <= FirstRefusal(g, c, ps, req)
    ensures Refuses(g, c, ps[n], req) <==> n == FirstRefusal(g, c, ps, req)
  {
    var k := FirstRefusal(g, c, ps, req);
    if n == k {
      assert Refuses(g, c, ps[k], req);
    }
  }

  /** One more edge reserved. */
  lemma ChargedNext(c: seq<Cell>, ps: seq<nat>, n: nat, d: ScopeStat)
    requires n < |ps| && Within(ps, |c|) && Distinct(ps)
    ensures Charged(c, ps[..n], d)[ps[n]] == c[ps[n]]
    ensures Charged(c, ps[..n + 1], d) == Charged(c, ps[..n], d)[ps[n] := Gain(c[ps[n]], d)]
  {
    assert ps[..n + 1] == ps[..n] + [ps[n]];
  }

  /** The edges ps reserved, and the first m of them released again. */
  function UndoneTo(c: seq<Cell>, ps: seq<nat>, m: nat, req: Request): (r: seq<Cell>)
    requires m <= |ps|
    ensures |r| == |c|
  {
    seq(|c|, i requires 0 <= i < |c| =>
      if i in ps[..m] then Back(Gain(c[i], DoAmount(req)), req)
      else if i in ps then Gain(c[i], DoAmount(req))
      else c[i])
  }

  lemma UndoneNext(g: seq<Node>, c: seq<Cell>, ps: seq<nat>, m: nat, req: Request)
    requires Sound(g, c) && ValidRequest(req)
    requires m < |ps| && Within(ps, |c|) && Distinct(ps) && !Refuses(g, c, ps[m], req)
    ensures ValidRelease(req)
    ensures var r := UndoneTo(c, ps, m, req);
            !r[ps[m]].done && UndoneTo(c, ps, m + 1, req) == r[ps[m] := Lose(r[ps[m]], UndoAmount(req))]
  {
    var s := ps[m];
    var x := Gain(c[s], DoAmount(req));
    assert NodeOk(g, s);
    UndoAfterDo(g[s].limit, c[s].rc, req);
    assert Back(x, req) == Lose(x, UndoAmount(req)) by { UndoExact(g[s].limit, x.rc, req); }
    assert ps[..m + 1] == ps[..m] + [s];
    assert s !in ps[..m];
    UndoneUpdate(c, ps, m, req);
  }

  lemma UndoneUpdate(c: seq<Cell>, ps: seq<nat>, m: nat, req: Request)
    requires m < |ps| && Within(ps, |c|) && Distinct(ps)
    ensures UndoneTo(c, ps, m, req)[ps[m]] == Gain(c[ps[m]], DoAmount(req))
    ensures UndoneTo(c, ps, m + 1, req) ==
            UndoneTo(c, ps, m, req)[ps[m] := Back(Gain(c[ps[m]], DoAmount(req)), req)]
  {
    assert ps[..m + 1] == ps[..m] + [ps[m]];
  }

  lemma UndoneAll(c: seq<Cell>, ps: seq<nat>, req: Request)
    ensures UndoneTo(c, ps, |ps|, req) == Reverted(c, ps, req)
    ensures UndoneTo(c, ps, 0, req) == Charged(c, ps, DoAmount(req))
  {
    assert ps[..|ps|] == ps && ps[..0] == [];
  }

  // ----- releases ------------------------------------------------------------------------------

  /** A release that starts at s gets to i: every scope it climbs through, i included, is open. */
  predicate Reaches(g: seq<Node>, c: seq<Cell>, s: nat, i: nat)
    requires WellFormed(g) && |c| == |g| && s < |g|
    decreases s
  {
    !c[s].done && (i == s || Above(g, c, s, i))
  }

  /** The same, for a release that starts just above s. */
  predicate Above(g: seq<Node>, c: seq<Cell>, s: nat, i: nat)
    requires WellFormed(g) && |c| == |g| && s < |g|
    decreases s, 0
  {
    assert NodeOk(g, s);
    match g[s].owner
    case Some(o) => Reaches(g, c, o, i)
    case None => i in g[s].edges && i < |c| && !c[i].done
  }

  function Lose(x: Cell, d: ScopeStat): Cell {
    x.(rc := Minus(x.rc, d))
  }

  /** ReleaseMemory, RemoveTask, RemoveConn and ReleaseResources. */
  function ReleaseLaw(g: seq<Node>, c: seq<Cell>, s: nat, req: Request): (r: seq<Cell>)
    requires WellFormed(g) && |c| == |g| && s < |g|
    ensures |r| == |c|
  {
    seq(|c|, i requires 0 <= i < |c| => if Reaches(g, c, s, i) then Lose(c[i], UndoAmount(req)) else c[i])
  }

  /** Every open scope of a list of edges loses d. */
  function EdgesLose(c: seq<Cell>, es: seq<nat>, d: ScopeStat): (r: seq<Cell>)
    ensures |r| == |c|
  {
    seq(|c|, i requires 0 <= i < |c| => if i in es && !c[i].done then Lose(c[i], d) else c[i])
  }

  predicate SameFlags(c: seq<Cell>, c': seq<Cell>) {
    |c| == |c'| && forall i :: 0 <= i < |c| ==> c[i].done == c'[i].done
  }

  lemma ReachesSame(g: seq<Node>, c: seq<Cell>, c': seq<Cell>, s: nat, i: nat)
    requires WellFormed(g) && |c| == |g| && s < |g| && SameFlags(c, c')
    ensures Reaches(g, c, s, i) == Reaches(g, c', s, i)
    ensures Above(g, c, s, i) == Above(g, c', s, i)
    decreases s
  {
    assert NodeOk(g, s);
    if g[s].owner.Some? {
      ReachesSame(g, c, c', g[s].owner.value, i);
    }
  }

  lemma ReachesOlder(g: seq<Node>, c: seq<Cell>, s: nat, i: nat)
    requires WellFormed(g) && |c| == |g| && s < |g|
    ensures Above(g, c, s, i) ==> i < s && !c[i].done
    ensures Reaches(g, c, s, i) ==> i <= s && !c[i].done
    decreases s
  {
    assert NodeOk(g, s);
    if g[s].owner.Some? {
      ReachesOlder(g, c, g[s].owner.value, i);
    }
  }

  /** Releasing locally and then above is the release. */
  lemma ReleaseLawStep(g: seq<Node>, c: seq<Cell>, s: nat, req: Request)
    requires WellFormed(g) && |c| == |g| && s < |g| && !c[s].done
    ensures NodeOk(g, s)
    ensures var c1 := c[s := Lose(c[s], UndoAmount(req))];
            ReleaseLaw(g, c, s, req) ==
            if g[s].owner.Some? then ReleaseLaw(g, c1, g[s].owner.value, req)
            else EdgesLose(c1, g[s].edges, UndoAmount(req))
  {
    assert NodeOk(g, s);
    var c1 := c[s := Lose(c[s], UndoAmount(req))];
    var r := if g[s].owner.Some? then ReleaseLaw(g, c1, g[s].owner.value, req)
             else EdgesLose(c1, g[s].edges, UndoAmount(req));
    forall i | 0 <= i < |c|
      ensures r[i] == ReleaseLaw(g, c, s, req)[i]
    {
      ReachesSame(g, c, c1, s, i);
      ReachesOlder(g, c, s, i);
    }
    assert r == ReleaseLaw(g, c, s, req);
  }

  lemma EdgesLoseNext(c: seq<Cell>, es: seq<nat>, n: nat, d: ScopeStat)
    requires n < |es| && Within(es, |c|) && Distinct(es)
    ensures var r := EdgesLose(c, es[..n], d);
            && r[es[n]] == c[es[n]]
            && EdgesLose(c, es[..n + 1], d) == if c[es[n]].done then r else r[es[n] := Lose(c[es[n]], d)]
  {
    assert es[..n + 1] == es[..n] + [es[n]];
  }

  // ----- ReserveResources ----------------------------------------------------------------------

  /** ReserveResources stops after the first edge. */
  function ResourcePath(g: seq<Node>, s: nat): (p: seq<nat>)
    requires WellFormed(g) && s < |g|
    ensures |p| > 0 && p[0] == s
    ensures forall j :: 0 <= j < |p| ==> p[j] <= s
    ensures Distinct(p)
    decreases s
  {
    assert NodeOk(g, s);
    match g[s].owner
    case Some(o) => [s] + ResourcePath(g, o)
    case None => if g[s].edges == [] then [s] else [s, g[s].edges[0]]
  }

  /** How far above s a scope on its path stands; all edges stand on one level. */
  function Level(g: seq<Node>, s: nat, i: nat): nat
    requires WellFormed(g) && s < |g|
    decreases s
  {
    assert NodeOk(g, s);
    if i == s then 0
    else match g[s].owner
      case Some(o) => 1 + Level(g, o, i)
      case None => 1
  }

  function Min(a: nat, b: nat): nat {
    if a < b then a else b
  }

  function Scale(n: nat, st: ScopeStat): ScopeStat {
    ScopeStat(n * st.memory, n * st.tasksHigh, n * st.tasksMedium, n * st.tasksLow,
              n * st.connsIn, n * st.connsOut, n * st.fd)
  }

  /** After a refusal at level k: the scope j levels up has lost st min(j, k) times over. */
  function Drained(g: seq<Node>, c: seq<Cell>, s: nat, k: nat, st: ScopeStat): (r: seq<Cell>)
    requires WellFormed(g) && |c| == |g| && s < |g|
    ensures |r| == |c|
  {
    seq(|c|, i requires 0 <= i < |c| =>
      if Reaches(g, c, s, i) then Lose(c[i], Scale(Min(Level(g, s, i), k), st)) else c[i])
  }

  function ResourcesLaw(g: seq<Node>, c: seq<Cell>, s: nat, st: ScopeStat): (r: (bool, seq<Cell>))
    requires WellFormed(g) && |c| == |g| && s < |g|
    ensures |r.1| == |c|
  {
    var ps := ResourcePath(g, s);
    var k := FirstRefusal(g, c, ps, All(st));
    if k == |ps| then (true, Charged(c, ps, st)) else (false, Drained(g, c, s, k, st))
  }

  lemma DrainOnceMore(x: Cell, n: nat, st: ScopeStat)
    requires NonNegative(x.rc) && NonNegative(st)
    ensures Lose(Lose(x, Scale(n, st)), st) == Lose(x, Scale(n + 1, st))
  {
    OneMore(n, st.memory); OneMore(n, st.tasksHigh); OneMore(n, st.tasksMedium); OneMore(n, st.tasksLow);
    OneMore(n, st.connsIn); OneMore(n, st.connsOut); OneMore(n, st.fd);
  }

  lemma OneMore(n: nat, y: nat)
    ensures (n + 1) * y == n * y + y && n * y >= 0
  {
  }

  lemma LoseNothing(x: Cell, st: ScopeStat)
    requires NonNegative(x.rc)
    ensures Lose(x, Scale(0, st)) == x
  {
  }

  /** The refusal of the scope itself changes nothing. */
  lemma DrainedHere(g: seq<Node>, c: seq<Cell>, s: nat, st: ScopeStat)
    requires Sound(g, c) && s < |g|
    ensures Drained(g, c, s, 0, st) == c
  {
    forall i | 0 <= i < |c|
      ensures Drained(g, c, s, 0, st)[i] == c[i]
    {
      LoseNothing(c[i], st);
    }
  }

  lemma GainThenLose(x: Cell, d: ScopeStat)
    requires NonNegative(x.rc)
    ensures Lose(Gain(x, d), d) == x
  {
  }

  /** A refusal k levels above the owner, followed by a release from s, is one k + 1 levels above s. */
  lemma DrainedStep(g: seq<Node>, c: seq<Cell>, s: nat, k: nat, st: ScopeStat)
    requires Sound(g, c) && s < |g| && NodeOk(g, s) && g[s].owner.Some?
    requires !c[s].done && NonNegative(st)
    ensures var c1 := c[s := Gain(c[s], st)];
            ReleaseLaw(g, Drained(g, c1, g[s].owner.value, k, st), s, All(st)) == Drained(g, c, s, k + 1, st)
  {
    var c1 := c[s := Gain(c[s], st)];
    var c2 := Drained(g, c1, g[s].owner.value, k, st);
    var c3 := ReleaseLaw(g, c2, s, All(st));
    forall i | 0 <= i < |c|
      ensures c3[i] == Drained(g, c, s, k + 1, st)[i]
    {
      DrainedStepAt(g, c, s, k, st, i);
    }
  }

  lemma DrainedStepAt(g: seq<Node>, c: seq<Cell>, s: nat, k: nat, st: ScopeStat, i: nat)
    requires Sound(g, c) && s < |g| && NodeOk(g, s) && g[s].owner.Some? && i < |g|
    requires !c[s].done && NonNegative(st)
    ensures var c1 := c[s := Gain(c[s], st)];
            ReleaseLaw(g, Drained(g, c1, g[s].owner.value, k, st), s, All(st))[i] == Drained(g, c, s, k + 1, st)[i]
  {
    var o := g[s].owner.value;
    var c1 := c[s := Gain(c[s], st)];
    ReachesSame(g, c, c1, o, i);
    ReachesSame(g, c, Drained(g, c1, o, k, st), s, i);
    ReachesOlder(g, c, o, i);
    if i == s {
      assert Drained(g, c1, o, k, st)[s] == c1[s];
      GainThenLose(c[s], st);
      LoseNothing(c[s], st);
    } else {
      DrainOnceMore(c[i], Min(Level(g, o, i), k), st);
    }
  }

  /** A scope that accepts, and whose owner then refuses, adds its own release to the owner's. */
  lemma ResourcesLawStep(g: seq<Node>, c: seq<Cell>, s: nat, st: ScopeStat)
    requires Sound(g, c) && s < |g| && NodeOk(g, s) && g[s].owner.Some?
    requires !Refuses(g, c, s, All(st))
    ensures var c1 := c[s := Gain(c[s], st)];
            var (ok, c2) := ResourcesLaw(g, c1, g[s].owner.value, st);
            ResourcesLaw(g, c, s, st) == (ok, if ok then c2 else ReleaseLaw(g, c2, s, All(st)))
  {
    var o := g[s].owner.value;
    var c1 := c[s := Gain(c[s], st)];
    var t := ResourcePath(g, o);
    assert ResourcePath(g, s)[1..] == t;
    FirstRefusalSame(g, c, c1, t, All(st));
    var k := FirstRefusal(g, c1, t, All(st));
    if k == |t| {
      ChargedStep(c, s, t, st);
    } else {
      DrainedStep(g, c, s, k, st);
    }
  }

  /** The top of an owner chain, whose first edge refuses. */
  lemma ResourcesLawTop(g: seq<Node>, c: seq<Cell>, s: nat, st: ScopeStat)
    requires Sound(g, c) && s < |g| && NodeOk(g, s) && g[s].owner.None?
    requires !Refuses(g, c, s, All(st))
    ensures var c1 := c[s := Gain(c[s], st)];
            ResourcesLaw(g, c, s, st) ==
            if g[s].edges == [] then (true, c1)
            else
              var e := g[s].edges[0];
              if Refuses(g, c, e, All(st)) then (false, ReleaseLaw(g, c1, s, All(st)))
              else (true, c1[e := Gain(c1[e], st)])
  {
    if g[s].edges == [] {
      assert Charged(c, [s], st) == c[s := Gain(c[s], st)];
    } else {
      var e := g[s].edges[0];
      assert ResourcePath(g, s)[1..] == [e];
      if Refuses(g, c, e, All(st)) {
        assert FirstRefusal(g, c, [e], All(st)) == 0;
        DrainedTop(g, c, s, st);
      } else {
        assert FirstRefusal(g, c, [e], All(st)) == 1 + FirstRefusal(g, c, [], All(st));
        ChargedPair(c, s, e, st);
      }
    }
  }

  lemma ChargedPair(c: seq<Cell>, s: nat, e: nat, d: ScopeStat)
    requires s < |c| && e < |c| && s != e
    ensures var c1 := c[s := Gain(c[s], d)];
            Charged(c, [s, e], d) == c1[e := Gain(c1[e], d)]
  {
  }

  lemma DrainedTop(g: seq<Node>, c: seq<Cell>, s: nat, st: ScopeStat)
    requires Sound(g, c) && s < |g| && NodeOk(g, s) && g[s].owner.None?
    requires !c[s].done && NonNegative(st)
    ensures ReleaseLaw(g, c[s := Gain(c[s], st)], s, All(st)) == Drained(g, c, s, 1, st)
  {
    var c1 := c[s := Gain(c[s], st)];
    var c3 := ReleaseLaw(g, c1, s, All(st));
    forall i | 0 <= i < |c|
      ensures c3[i] == Drained(g, c, s, 1, st)[i]
    {
      ReachesSame(g, c, c1, s, i);
      DrainOnceMore(c[i], 0, st);
      LoseNothing(c[i], st);
      GainThenLose(c[i], st);
    }
  }

  // ----- BeginSpan, Done -----------------------------------------------------------------------

  /** Done clears connections, file descriptors and memory, and leaves the task counters behind. */
  function Closed(x: Cell): Cell {
    x.(done := true, rc := x.rc.(memory := 0, connsIn := 0, connsOut := 0, fd := 0))
  }

  predicate IsParent(g: seq<Node>, s: nat, i: nat)
    requires s < |g|
  {
    g[s].owner == Some(i) || i in g[s].edges
  }

  function DecRef(x: Cell): Cell {
    x.(refCnt := x.refCnt - 1)
  }

  /** A scope right above one that closes. */
  function Deserted(x: Cell, stat: ScopeStat): Cell {
    DecRef(if x.done then x else Lose(x, stat))
  }

  function DoneCell(g: seq<Node>, c: seq<Cell>, s: nat, i: nat): Cell
    requires WellFormed(g) && |c| == |g| && s < |g| && i < |c|
  {
    if i == s then Closed(c[i])
    else if IsParent(g, s, i) then Deserted(c[i], c[s].rc)
    else if Above(g, c, s, i) then Lose(c[i], c[s].rc)
    else c[i]
  }

  /** Done: a closed scope stays as it is; otherwise what it holds leaves every open scope above it. */
  function DoneLaw(g: seq<Node>, c: seq<Cell>, s: nat): (r: seq<Cell>)
    requires WellFormed(g) && |c| == |g| && s < |g|
    ensures |r| == |c|
  {
    if c[s].done then c else seq(|c|, i requires 0 <= i < |c| => DoneCell(g, c, s, i))
  }

  /** The edges es deserted, nothing else. */
  function EdgesDeserted(c: seq<Cell>, es: seq<nat>, stat: ScopeStat): (r: seq<Cell>)
    ensures |r| == |c|
  {
    seq(|c|, i requires 0 <= i < |c| => if i in es then Deserted(c[i], stat) else c[i])
  }

  lemma EdgesDesertedNext(c: seq<Cell>, es: seq<nat>, n: nat, stat: ScopeStat)
    requires n < |es| && Within(es, |c|) && Distinct(es)
    ensures var r := EdgesDeserted(c, es[..n], stat);
            && r[es[n]] == c[es[n]]
            && EdgesDeserted(c, es[..n + 1], stat) == r[es[n] := Deserted(c[es[n]], stat)]
  {
    assert es[..n + 1] == es[..n] + [es[n]];
  }

  /** Done of a span: the release above it, one reference less on the owner, and the scope closed. */
  lemma DoneLawSpan(g: seq<Node>, c: seq<Cell>, s: nat)
    requires WellFormed(g) && |c| == |g| && s < |g| && NodeOk(g, s)
    requires !c[s].done && g[s].owner.Some?
    ensures var o := g[s].owner.value;
            var c1 := ReleaseLaw(g, c, o, All(c[s].rc));
            c1[s] == c[s] && DoneLaw(g, c, s) == c1[o := DecRef(c1[o])][s := Closed(c[s])]
  {
    var o := g[s].owner.value;
    var c1 := ReleaseLaw(g, c, o, All(c[s].rc));
    var r := c1[o := DecRef(c1[o])][s := Closed(c[s])];
    ReachesOlder(g, c, o, s);
    forall i | 0 <= i < |c|
      ensures r[i] == DoneLaw(g, c, s)[i]
    {
      ReachesOlder(g, c, o, i);
    }
    assert r == DoneLaw(g, c, s);
  }

  lemma DoneLawEdges(g: seq<Node>, c: seq<Cell>, s: nat)
    requires WellFormed(g) && |c| == |g| && s < |g| && NodeOk(g, s)
    requires !c[s].done && g[s].owner.None?
    ensures var c1 := EdgesDeserted(c, g[s].edges, c[s].rc);
            c1[s] == c[s] && DoneLaw(g, c, s) == c1[s := Closed(c[s])]
  {
    var r := EdgesDeserted(c, g[s].edges, c[s].rc)[s := Closed(c[s])];
    forall i | 0 <= i < |c|
      ensures r[i] == DoneLaw(g, c, s)[i]
    {
    }
    assert r == DoneLaw(g, c, s);
  }

  // ----- new scopes ----------------------------------------------------------------------------

  datatype System = System(g: seq<Node>, c: seq<Cell>)

  const NEW_CELL := Cell(false, 0, 0, NO_USE)

  /** BeginSpan on an open scope. */
  function BeginSpanLaw(m: System, s: nat): System
    requires s < |m.g| == |m.c|
  {
    var x := m.c[s];
    System(m.g + [Node(m.g[s].limit, Some(s), [])],
           m.c[s := x.(refCnt := x.refCnt + 1, spanID := x.spanID + 1)] + [NEW_CELL])
  }

  /** NewResourceManager: the system scope, number 0. */
  function SystemOf(limit: Limit): System {
    System([Node(limit, None, [])], [NEW_CELL])
  }

  /**
   * OpenService: without a limit of its own the service is a span of the system scope, but one the
   * system's reference count does not know; with a limit it is a scope with an edge to the system.
   */
  function OpenServiceLaw(m: System, limit: Option<Limit>): System
    requires 0 < |m.g| == |m.c|
  {
    var x := m.c[0];
    match limit
    case None =>
      System(m.g + [Node(m.g[0].limit, Some(0), [])], m.c[0 := x.(spanID := x.spanID + 1)] + [NEW_CELL])
    case Some(l) =>
      System(m.g + [Node(l, None, [0])], m.c[0 := x.(refCnt := x.refCnt + 1)] + [NEW_CELL])
  }
}
