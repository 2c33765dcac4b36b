/**
 * base/gfspvgmgr/sp_freeze_pool.go: storage providers set aside for five minutes together with the
 * global virtual groups they have joined. The clock is an input.
 */
module FreezePool {
  const FREEZING_PERIOD: int := 5 * 60

  /** A group a frozen SP has joined. */
  datatype Joined = Joined(id: nat, family: nat)

  datatype SPStats = SPStats(joined: seq<Joined>, until: int)

  type Pool = map<nat, SPStats>

  datatype Event = FreezeSP(sp: nat, joined: seq<Joined>, now: int) | ReleaseSP(now: int) | ReleaseAllSP

  function After(pool: Pool, e: Event): Pool {
    match e
    case FreezeSP(sp, joined, now) => pool[sp := SPStats(joined, now + FREEZING_PERIOD)]
    case ReleaseSP(now) => map sp | sp in pool && now <= pool[sp].until :: pool[sp]
    case ReleaseAllSP => map[]
  }

  /** The groups of a family that the SPs in the pool have joined. */
  ghost function FrozenSet(pool: Pool, family: nat): set<nat> {
    set sp, g | sp in pool && g in pool[sp].joined && g.family == family :: g.id
  }

  class FreezeSPPool {
    var pool: Pool

    constructor ()
      ensures pool == map[]
    {
      pool := map[];
    }

    /** FreezeSPAndGVGs. */
    method Freeze(sp: nat, joined: seq<Joined>, now: int)
      modifies this
      ensures pool == After(old(pool), FreezeSP(sp, joined, now))
    {
      pool := pool[sp := SPStats(joined, now + FREEZING_PERIOD)];
    }

    /** ReleaseSP: those whose time is over. */
    method Release(now: int)
      modifies this
      ensures pool == After(old(pool), ReleaseSP(now))
    {
      var rest := pool.Keys;
      while rest != {}
        invariant rest <= old(pool).Keys
        invariant pool == map sp | sp in old(pool) && (sp in rest || now <= old(pool)[sp].until) :: old(pool)[sp]
      {
        var sp :| sp in rest;
        if now > pool[sp].until {
          pool := pool - {sp};
        }
        rest := rest - {sp};
      }
    }

    /** ReleaseAllSP. */
    method ReleaseAll()
      modifies this
      ensures pool == After(old(pool), ReleaseAllSP)
    {
      var rest := pool.Keys;
      while rest != {}
        invariant rest == pool.Keys
      {
        var sp :| sp in rest;
        pool := pool - {sp};
        rest := rest - {sp};
      }
    }

    /** GetFreezeGVGsInFamily. */
    method FrozenGroups(family: nat) returns (ids: set<nat>)
      ensures ids == FrozenSet(pool, family)
    {
      ids := {};
      var rest := pool.Keys;
      while rest != {}
        invariant rest <= pool.Keys
        invariant ids == set sp, g | sp in pool && sp !in rest && g in pool[sp].joined && g.family == family :: g.id
      {
        var sp :| sp in rest;
        var more := JoinedIn(pool[sp].joined, family);
        ids := ids + more;
        rest := rest - {sp};
      }
    }

    method JoinedIn(joined: seq<Joined>, family: nat) returns (ids: set<nat>)
      ensures ids == set g | g in joined && g.family == family :: g.id
    {
      ids := {};
      for n := 0 to |joined|
        invariant ids == set g | g in joined[..n] && g.family == family :: g.id
      {
        assert joined[..n + 1] == joined[..n] + [joined[n]];
        if joined[n].family == family {
          ids := ids + {joined[n].id};
        }
      }
      assert joined[..|joined|] == joined;
    }
  }

  // ----- whole runs ----------------------------------------------------------------------------

  /** The pool after the first n calls. */
  function PoolAt(es: seq<Event>, n: nat): Pool
    requires n <= |es|
  {
    if n == 0 then map[] else After(PoolAt(es, n - 1), es[n - 1])
  }

  predicate Freezes(e: Event, family: nat, id: nat) {
    e.FreezeSP? && Joined(id, family) in e.joined
  }

  /** Ends what a freeze of this SP at this time began; freezing it anew replaces its list of groups. */
  predicate Ends(e: Event, sp: nat, since: int) {
    match e
    case FreezeSP(sp', _, _) => sp' == sp
    case ReleaseSP(now) => now > since + 300
    case ReleaseAllSP => true
  }

  predicate Lasts(es: seq<Event>, i: nat, n: nat)
    requires i < n <= |es| && es[i].FreezeSP?
  {
    forall m :: i < m < n ==> !Ends(es[m], es[i].sp, es[i].now)
  }

  /** Whoever is in the pool was put there by a freeze that lasts. */
  lemma {:induction false} InPoolSince(es: seq<Event>, n: nat, sp: nat) returns (i: nat)
    requires n <= |es| && sp in PoolAt(es, n)
    ensures i < n && es[i].FreezeSP? && es[i].sp == sp && Lasts(es, i, n)
    ensures PoolAt(es, n)[sp] == SPStats(es[i].joined, es[i].now + FREEZING_PERIOD)
    decreases n
  {
    if es[n - 1].FreezeSP? && es[n - 1].sp == sp {
      i := n - 1;
    } else {
      i := InPoolSince(es, n - 1, sp);
    }
  }

  lemma {:induction false} LastingInPool(es: seq<Event>, n: nat, i: nat)
    requires i < n <= |es| && es[i].FreezeSP? && Lasts(es, i, n)
    ensures es[i].sp in PoolAt(es, n)
    ensures PoolAt(es, n)[es[i].sp] == SPStats(es[i].joined, es[i].now + FREEZING_PERIOD)
    decreases n
  {
    if i < n - 1 {
      LastingInPool(es, n - 1, i);
      assert !Ends(es[n - 1], es[i].sp, es[i].now);
    }
  }

  /**
   * In every run, with whatever clock: a group is frozen if and only if some freeze named it and
   * since then there was no release later than five minutes after it, no release of all, and no
   * other freeze of the same SP.
   */
  lemma FrozenIff(es: seq<Event>, n: nat, family: nat, id: nat)
    requires n <= |es|
    ensures id in FrozenSet(PoolAt(es, n), family) <==>
            exists i :: 0 <= i < n && Freezes(es[i], family, id) && Lasts(es, i, n)
  {
    var pool := PoolAt(es, n);
    if id in FrozenSet(pool, family) {
      var sp, g :| sp in pool && g in pool[sp].joined && g.family == family && g.id == id;
      assert g == Joined(id, family);
      var i := InPoolSince(es, n, sp);
      assert Freezes(es[i], family, id);
    }
    if i :| 0 <= i < n && Freezes(es[i], family, id) && Lasts(es, i, n) {
      LastingInPool(es, n, i);
      var sp, g := es[i].sp, Joined(id, family);
      assert sp in pool && g in pool[sp].joined && g.family == family;
    }
  }

  /** Spelled out. */
  lemma FrozenInFields(es: seq<Event>, n: nat, family: nat, id: nat)
    requires n <= |es|
    ensures id in FrozenSet(PoolAt(es, n), family) <==>
            exists i :: 0 <= i < n && es[i].FreezeSP? && Joined(id, family) in es[i].joined &&
              forall m :: i < m < n ==>
                && es[m] != ReleaseAllSP
                && (es[m].ReleaseSP? ==> es[m].now <= es[i].now + 300)
                && (es[m].FreezeSP? ==> es[m].sp != es[i].sp)
  {
    FrozenIff(es, n, family, id);
    forall i | 0 <= i < n && es[i].FreezeSP?
      ensures Lasts(es, i, n) <==>
              forall m :: i < m < n ==>
                && es[m] != ReleaseAllSP
                && (es[m].ReleaseSP? ==> es[m].now <= es[i].now + 300)
                && (es[m].FreezeSP? ==> es[m].sp != es[i].sp)
    {
      forall m | i < m < n
        ensures !Ends(es[m], es[i].sp, es[i].now) <==>
                && es[m] != ReleaseAllSP
                && (es[m].ReleaseSP? ==> es[m].now <= es[i].now + 300)
                && (es[m].FreezeSP? ==> es[m].sp != es[i].sp)
      {
      }
    }
  }
}
