/**
 * base/gfspvgmgr/virtual_group_manager.go, monitorGVGUsage: empty global virtual groups are
 * remembered for a day before they are deleted, nearly full ones get a deposit. The clock, what
 * the metadata service and the chain say, and whether a message goes through are inputs.
 */
module GroupDeletion {
  import opened Options

  const SAFE_DELETE_PERIOD: int := 60 * 60 * 24
  const MINUTE: int := 60

  /** What is known of a group at some source: bytes stored and bytes staked for. */
  datatype Usage = Usage(stored: nat, staked: nat)

  /** One call: the group as handed in, from the chain or not; the chain's own answer; the clock; the send result. */
  datatype Visit = Visit(id: nat, usage: Usage, byChain: bool, chain: Option<Usage>, now: int, sendOk: bool)

  datatype Message = Nothing | Deposit(id: nat) | Delete(id: nat)

  datatype Outcome = Outcome(sent: Message, deposited: bool, deleted: bool, failed: bool)

  predicate IsEmpty(u: Usage) {
    u.stored == 0
  }

  predicate NeedDeposit(u: Usage) {
    u.stored as real >= 0.95 * u.staked as real
  }

  lemma NeedDepositRatio(u: Usage)
    ensures NeedDeposit(u) <==> 20 * u.stored >= 19 * u.staked
  {
    assert 0.95 * u.staked as real * 20.0 == (19 * u.staked) as real;
    assert u.stored as real * 20.0 == (20 * u.stored) as real;
  }

  /** Groups waiting for deletion, and from when on it is safe. */
  type Waiting = map<nat, int>

  /** Entries that have been due for more than a minute are forgotten. */
  function Purged(w: Waiting, now: int): Waiting {
    map k | k in w && now <= w[k] + MINUTE :: w[k]
  }

  /** The chain says the group is empty, whoever asked it. */
  predicate ConfirmedEmpty(v: Visit) {
    IsEmpty(v.usage) && (v.byChain || (v.chain.Some? && IsEmpty(v.chain.value)))
  }

  /** When a delete is sent: the group is confirmed empty and its day was over at most a minute ago. */
  predicate DeleteDue(w: Waiting, v: Visit) {
    ConfirmedEmpty(v) && v.id in w && w[v.id] <= v.now <= w[v.id] + MINUTE
  }

  function WaitingAfter(w: Waiting, v: Visit): Waiting {
    if !IsEmpty(v.usage) then w
    else
      var p := Purged(w, v.now);
      if !ConfirmedEmpty(v) then p
      else if v.id !in p then p[v.id := v.now + SAFE_DELETE_PERIOD]
      else if DeleteDue(w, v) && v.sendOk then p - {v.id}
      else p
  }

  class GroupMonitor {
    var waiting: Waiting

    constructor ()
      ensures waiting == map[]
    {
      waiting := map[];
    }

    /** monitorGVGUsage. */
    method Monitor(v: Visit) returns (o: Outcome)
      modifies this
      ensures waiting == WaitingAfter(old(waiting), v)
      ensures o.sent == Delete(v.id) <==> DeleteDue(old(waiting), v)
      ensures o.deleted <==> DeleteDue(old(waiting), v) && v.sendOk
      ensures o.sent == Delete(v.id) ==>
              v.usage.stored == 0 && (v.byChain || (v.chain.Some? && v.chain.value.stored == 0))
      ensures o.sent == Deposit(v.id) <==>
              && v.usage.stored > 0 && 20 * v.usage.stored >= 19 * v.usage.staked
              && (v.byChain || (v.chain.Some? && 20 * v.chain.value.stored >= 19 * v.chain.value.staked))
      ensures o.deposited <==> o.sent.Deposit? && v.sendOk
      ensures o.sent.Nothing? || o.sent == Delete(v.id) || o.sent == Deposit(v.id)
      ensures o.failed <==> (!o.sent.Nothing? && !v.sendOk) ||
                            (!v.byChain && v.chain.None? &&
                             (v.usage.stored == 0 || 20 * v.usage.stored >= 19 * v.usage.staked))
    {
      NeedDepositRatio(v.usage);
      if v.chain.Some? {
        NeedDepositRatio(v.chain.value);
      }
      if IsEmpty(v.usage) {
        o := MonitorEmpty(v);
        return;
      }
      if !NeedDeposit(v.usage) {
        return Outcome(Nothing, false, false, false);
      }
      if !v.byChain {
        if v.chain.None? {
          return Outcome(Nothing, false, false, true);
        }
        if !NeedDeposit(v.chain.value) {
          return Outcome(Nothing, false, false, false);
        }
      }
      o := Outcome(Deposit(v.id), v.sendOk, false, !v.sendOk);
    }

    method MonitorEmpty(v: Visit) returns (o: Outcome)
      requires IsEmpty(v.usage)
      modifies this
      ensures waiting == WaitingAfter(old(waiting), v)
      ensures o.sent == if DeleteDue(old(waiting), v) then Delete(v.id) else Nothing
      ensures o.deleted <==> DeleteDue(old(waiting), v) && v.sendOk
      ensures !o.deposited
      ensures o.failed <==> (!o.sent.Nothing? && !v.sendOk) || (!v.byChain && v.chain.None?)
    {
      Purge(v.now);
      if !v.byChain {
        if v.chain.None? {
          return Outcome(Nothing, false, false, true);
        }
        if !IsEmpty(v.chain.value) {
          return Outcome(Nothing, false, false, false);
        }
      }
      if v.id !in waiting {
        waiting := waiting[v.id := v.now + SAFE_DELETE_PERIOD];
        return Outcome(Nothing, false, false, false);
      }
      if v.now < waiting[v.id] {
        return Outcome(Nothing, false, false, false);
      }
      if !v.sendOk {
        return Outcome(Delete(v.id), false, false, true);
      }
      waiting := waiting - {v.id};
      o := Outcome(Delete(v.id), false, true, false);
    }

    /** The loop over the map that drops what is long overdue. */
    method Purge(now: int)
      modifies this
      ensures waiting == Purged(old(waiting), now)
    {
      var rest := waiting.Keys;
      while rest != {}
        invariant rest <= old(waiting).Keys
        invariant waiting ==
                  map k | k in old(waiting) && (k in rest || now <= old(waiting)[k] + MINUTE) :: old(waiting)[k]
      {
        var k :| k in rest;
        if now > waiting[k] + MINUTE {
          waiting := waiting - {k};
        }
        rest := rest - {k};
      }
    }
  }

  // ----- whole runs ----------------------------------------------------------------------------

  /** The waiting list after the first n calls. */
  function WaitingAt(vs: seq<Visit>, n: nat): Waiting
    requires n <= |vs|
  {
    if n == 0 then map[] else WaitingAfter(WaitingAt(vs, n - 1), vs[n - 1])
  }

  predicate DeletesAt(vs: seq<Visit>, n: nat)
    requires n < |vs|
  {
    DeleteDue(WaitingAt(vs, n), vs[n])
  }

  /** Call j saw the group empty on the chain, and no delete of it has gone through between j and n. */
  predicate Observed(vs: seq<Visit>, id: nat, j: nat, n: nat)
    requires n <= |vs|
  {
    && j < n && vs[j].id == id && ConfirmedEmpty(vs[j])
    && forall i :: j <= i < n && vs[i].id == id ==> !(DeletesAt(vs, i) && vs[i].sendOk)
  }

  /** Every waiting group waits since an observation of its own. */
  lemma {:induction false} WaitingSince(vs: seq<Visit>, n: nat, id: nat) returns (j: nat)
    requires n <= |vs| && id in WaitingAt(vs, n)
    ensures Observed(vs, id, j, n) && WaitingAt(vs, n)[id] == vs[j].now + SAFE_DELETE_PERIOD
    decreases n
  {
    var w, v := WaitingAt(vs, n - 1), vs[n - 1];
    if v.id == id && ConfirmedEmpty(v) && id !in Purged(w, v.now) {
      j := n - 1;
    } else {
      assert id in w && WaitingAt(vs, n)[id] == w[id];
      j := WaitingSince(vs, n - 1, id);
      assert v.id == id ==> !(DeletesAt(vs, n - 1) && v.sendOk);
    }
  }

  /**
   * In every run, with whatever clock: a delete is only sent for a group that the chain confirms
   * empty at that call and confirmed empty between 24 hours and 24 hours and a minute before, in a
   * call after the last delete of that group that went through.
   */
  lemma DeletionIsDelayed(vs: seq<Visit>, n: nat) returns (j: nat)
    requires n < |vs| && DeletesAt(vs, n)
    ensures vs[n].usage.stored == 0 && (vs[n].byChain || (vs[n].chain.Some? && vs[n].chain.value.stored == 0))
    ensures j < n && vs[j].id == vs[n].id
    ensures vs[j].usage.stored == 0 && (vs[j].byChain || (vs[j].chain.Some? && vs[j].chain.value.stored == 0))
    ensures Observed(vs, vs[n].id, j, n)
    ensures 86400 <= vs[n].now - vs[j].now <= 86460
  {
    j := WaitingSince(vs, n, vs[n].id);
  }

  /** So no observation justifies two deletes that went through. */
  lemma DeletedOnce(vs: seq<Visit>, n: nat, n': nat)
    requires n < n' < |vs| && vs[n].id == vs[n'].id && vs[n].sendOk
    requires DeletesAt(vs, n) && DeletesAt(vs, n')
    ensures exists j :: n < j < n' && vs[j].id == vs[n].id && ConfirmedEmpty(vs[j])
                     && 86400 <= vs[n'].now - vs[j].now <= 86460
  {
    var j := DeletionIsDelayed(vs, n');
  }

  // ----- when a group is deleted, read off the calls alone ---------------------------------------

  /** Call m forgets what call i entered: an empty group comes in when the entry is long overdue. */
  predicate Forgets(m: Visit, i: Visit) {
    IsEmpty(m.usage) && m.now > i.now + 86460
  }

  /** Call m deletes the group that call i entered, if that entry still stands. */
  predicate Completes(m: Visit, i: Visit) {
    m.id == i.id && ConfirmedEmpty(m) && m.now >= i.now + 86400 && m.sendOk
  }

  /** Call i enters its group: it is confirmed empty and no earlier entry of it is kept. */
  predicate EntersAt(vs: seq<Visit>, i: nat)
    requires i < |vs|
    decreases i, 0
  {
    && ConfirmedEmpty(vs[i])
    && forall j :: 0 <= j < i && Holds(vs, j, i) && vs[j].id == vs[i].id ==> Forgets(vs[i], vs[j])
  }

  /** What call i entered has neither been forgotten nor deleted before call n. */
  predicate Holds(vs: seq<Visit>, i: nat, n: nat)
    requires i < n <= |vs|
    decreases i, 1
  {
    && EntersAt(vs, i)
    && forall m :: i < m < n ==> !Forgets(vs[m], vs[i]) && !Completes(vs[m], vs[i])
  }

  /** The entry of call i is the one for its group. */
  ghost predicate WaitsFrom(vs: seq<Visit>, i: nat, n: nat)
    requires i < n <= |vs|
  {
    vs[i].id in WaitingAt(vs, n) && WaitingAt(vs, n)[vs[i].id] == vs[i].now + SAFE_DELETE_PERIOD
  }

  /** Waiting means that some entry holds. */
  lemma {:induction false} WaitingHolds(vs: seq<Visit>, n: nat, id: nat) returns (i: nat)
    requires n <= |vs| && id in WaitingAt(vs, n)
    ensures i < n && vs[i].id == id && Holds(vs, i, n) && WaitsFrom(vs, i, n)
    decreases n, 0
  {
    var w, v := WaitingAt(vs, n - 1), vs[n - 1];
    if v.id == id && ConfirmedEmpty(v) && id !in Purged(w, v.now) {
      i := n - 1;
      EntersIff(vs, n - 1);
    } else {
      i := WaitingHolds(vs, n - 1, id);
    }
  }

  /** What holds is waiting. */
  lemma {:induction false} HoldsWaits(vs: seq<Visit>, i: nat, n: nat)
    requires i < n <= |vs| && Holds(vs, i, n)
    ensures WaitsFrom(vs, i, n)
    decreases n, 0
  {
    if i == n - 1 {
      EntersIff(vs, i);
    } else {
      HoldsWaits(vs, i, n - 1);
      assert !Forgets(vs[n - 1], vs[i]) && !Completes(vs[n - 1], vs[i]);
    }
  }

  /** Entering by the calls alone is entering in the list. */
  lemma {:induction false} EntersIff(vs: seq<Visit>, i: nat)
    requires i < |vs|
    ensures EntersAt(vs, i) <==> ConfirmedEmpty(vs[i]) && vs[i].id !in Purged(WaitingAt(vs, i), vs[i].now)
    decreases i, 1
  {
    var w, v := WaitingAt(vs, i), vs[i];
    forall j | 0 <= j < i && Holds(vs, j, i) && vs[j].id == v.id
      ensures WaitsFrom(vs, j, i)
    {
      HoldsWaits(vs, j, i);
    }
    if v.id in w {
      var j := WaitingHolds(vs, i, v.id);
    }
  }

  /**
   * In every run, with whatever clock: a delete is sent if and only if the chain confirms the group
   * empty and what a call between 24 hours and 24 hours and a minute before entered still holds.
   */
  lemma DeletesIff(vs: seq<Visit>, n: nat)
    requires n < |vs|
    ensures DeletesAt(vs, n) <==>
            && vs[n].usage.stored == 0 && (vs[n].byChain || (vs[n].chain.Some? && vs[n].chain.value.stored == 0))
            && exists j :: 0 <= j < n && vs[j].id == vs[n].id && Holds(vs, j, n)
                        && 86400 <= vs[n].now - vs[j].now <= 86460
                        && vs[j].usage.stored == 0
                        && (vs[j].byChain || (vs[j].chain.Some? && vs[j].chain.value.stored == 0))
  {
    if DeletesAt(vs, n) {
      var j := WaitingHolds(vs, n, vs[n].id);
    }
    if j :| 0 <= j < n && vs[j].id == vs[n].id && Holds(vs, j, n) && 86400 <= vs[n].now - vs[j].now <= 86460 {
      HoldsWaits(vs, j, n);
    }
  }

  /**
   * Enough for a delete, in the fields of the calls alone: call j is the first to see the group empty
   * with the chain's word, call n does so a day and at most a minute later, and in between nothing
   * came in too late and nobody had the group deleted.
   */
  lemma DeletedAfterADay(vs: seq<Visit>, j: nat, n: nat)
    requires j < n < |vs| && vs[j].id == vs[n].id && 86400 <= vs[n].now - vs[j].now <= 86460
    requires vs[j].usage.stored == 0 && (vs[j].byChain || (vs[j].chain.Some? && vs[j].chain.value.stored == 0))
    requires vs[n].usage.stored == 0 && (vs[n].byChain || (vs[n].chain.Some? && vs[n].chain.value.stored == 0))
    requires forall i :: 0 <= i < j && vs[i].id == vs[j].id ==>
               vs[i].usage.stored > 0 || (!vs[i].byChain && (vs[i].chain.None? || vs[i].chain.value.stored > 0))
    requires forall m :: j < m < n && vs[m].usage.stored == 0 ==> vs[m].now <= vs[j].now + 86460
    requires forall m :: j < m < n && vs[m].id == vs[j].id ==> vs[m].now < vs[j].now + 86400 || !vs[m].sendOk
    ensures DeletesAt(vs, n)
  {
    assert EntersAt(vs, j);
    assert Holds(vs, j, n);
    HoldsWaits(vs, j, n);
  }

  /** A call to which the chain says that the group has data deletes nothing and enters nothing. */
  lemma DataOnChain(vs: seq<Visit>, n: nat, id: nat)
    requires n < |vs| && !vs[n].byChain && (vs[n].chain.None? || vs[n].chain.value.stored > 0)
    ensures !DeletesAt(vs, n)
    ensures id in WaitingAt(vs, n + 1) ==> id in WaitingAt(vs, n) && WaitingAt(vs, n + 1)[id] == WaitingAt(vs, n)[id]
  {
  }

  /** A group waits if and only if what some call entered for it holds. */
  lemma WaitingIff(vs: seq<Visit>, n: nat, id: nat)
    requires n <= |vs|
    ensures id in WaitingAt(vs, n) <==> exists i :: 0 <= i < n && vs[i].id == id && Holds(vs, i, n)
  {
    if id in WaitingAt(vs, n) {
      var i := WaitingHolds(vs, n, id);
    }
    if i :| 0 <= i < n && vs[i].id == id && Holds(vs, i, n) {
      HoldsWaits(vs, i, n);
    }
  }

  /**
   * When a call that sees a group not empty, or not confirmed so, leaves it forgotten: exactly if
   * no entry of it held, or the one that did was overdue and the list was looked through.
   */
  lemma NotEmptyForgottenIff(vs: seq<Visit>, n: nat)
    requires n < |vs| && !ConfirmedEmpty(vs[n])
    ensures vs[n].id !in WaitingAt(vs, n + 1) <==>
            forall i :: 0 <= i < n && vs[i].id == vs[n].id && Holds(vs, i, n) ==> Forgets(vs[n], vs[i])
  {
    WaitingIff(vs, n, vs[n].id);
    forall i | 0 <= i < n && vs[i].id == vs[n].id && Holds(vs, i, n)
      ensures WaitsFrom(vs, i, n)
    {
      HoldsWaits(vs, i, n);
    }
  }

  /** The calls that were handed an empty group. */
  function EmptyVisits(vs: seq<Visit>): seq<Visit> {
    if vs == [] then []
    else if IsEmpty(vs[|vs| - 1].usage) then EmptyVisits(vs[..|vs| - 1]) + [vs[|vs| - 1]]
    else EmptyVisits(vs[..|vs| - 1])
  }

  /** The list after n calls depends on these alone. */
  lemma {:induction false} WaitingPrefix(vs: seq<Visit>, us: seq<Visit>, n: nat)
    requires n <= |vs| && n <= |us| && vs[..n] == us[..n]
    ensures WaitingAt(vs, n) == WaitingAt(us, n)
    decreases n
  {
    if n > 0 {
      assert vs[..n][n - 1] == us[..n][n - 1];
      assert vs[..n - 1] == vs[..n][..n - 1] && us[..n - 1] == us[..n][..n - 1];
      WaitingPrefix(vs, us, n - 1);
    }
  }

  /**
   * In every run, what is seen of groups that are not empty makes no difference: without those
   * calls the list is the same, and so is whether the next call sends a delete.
   */
  lemma {:induction false} RefillsIgnored(vs: seq<Visit>)
    ensures var es := EmptyVisits(vs); WaitingAt(vs, |vs|) == WaitingAt(es, |es|)
    decreases |vs|
  {
    if vs != [] {
      var init, last := vs[..|vs| - 1], vs[|vs| - 1];
      var es := EmptyVisits(init);
      RefillsIgnored(init);
      WaitingPrefix(vs, init, |init|);
      if IsEmpty(last.usage) {
        WaitingPrefix(es + [last], es, |es|);
      }
    }
  }

  lemma RefillsDelayNothing(vs: seq<Visit>, v: Visit)
    ensures DeletesAt(vs + [v], |vs|) <==> DeletesAt(EmptyVisits(vs) + [v], |EmptyVisits(vs)|)
  {
    var es := EmptyVisits(vs);
    RefillsIgnored(vs);
    WaitingPrefix(vs + [v], vs, |vs|);
    WaitingPrefix(es + [v], es, |es|);
  }

  /**
   * So a group need not stay empty for the day. Seen empty, full a second later, and empty again
   * when the day is over, it is deleted.
   */
  lemma DeletedThoughRefilled(id: nat, t: int, full: Usage)
    requires full.stored > 0
    ensures var empty := Usage(0, full.staked);
            DeletesAt([Visit(id, empty, true, None, t, true),
                       Visit(id, full, true, None, t + 1, true),
                       Visit(id, empty, true, None, t + SAFE_DELETE_PERIOD, true)], 2)
  {
    var empty := Usage(0, full.staked);
    var vs := [Visit(id, empty, true, None, t, true),
               Visit(id, full, true, None, t + 1, true),
               Visit(id, empty, true, None, t + SAFE_DELETE_PERIOD, true)];
    assert WaitingAt(vs, 1) == map[id := t + SAFE_DELETE_PERIOD];
    assert WaitingAt(vs, 2) == WaitingAt(vs, 1);
  }

  /** All of it of the object: the messages a monitor sends over any run of calls. */
  method MonitorAll(vs: seq<Visit>) returns (os: seq<Outcome>)
    ensures |os| == |vs|
    ensures forall n :: 0 <= n < |vs| ==>
              && (os[n].sent == Delete(vs[n].id) <==> DeletesAt(vs, n))
              && (os[n].deleted <==> DeletesAt(vs, n) && vs[n].sendOk)
  {
    var monitor := new GroupMonitor();
    os := [];
    for n := 0 to |vs|
      invariant |os| == n && fresh(monitor) && monitor.waiting == WaitingAt(vs, n)
      invariant forall i :: 0 <= i < n ==>
                  && (os[i].sent == Delete(vs[i].id) <==> DeletesAt(vs, i))
                  && (os[i].deleted <==> DeletesAt(vs, i) && vs[i].sendOk)
    {
      var o := monitor.Monitor(vs[n]);
      os := os + [o];
    }
  }
}
