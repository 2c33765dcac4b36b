/**
 * base/gfspvgmgr/virtual_group_manager.go, HealthChecker: which storage providers (SPs) are set
 * aside as unhealthy. Probe answers and the chain's redundancy number are inputs of a round.
 */
module SPHealth {
  import opened Options

  datatype Checked = Checked(sps: set<nat>, unhealthy: set<nat>)

  function Failing(sps: set<nat>, probe: nat -> bool): set<nat> {
    set id | id in sps && !probe(id)
  }

  function Recovered(sps: set<nat>, probe: nat -> bool): set<nat> {
    set id | id in sps && probe(id)
  }

  /**
   * One round. SPs whose probe succeeds are taken out; the failing ones replace the set only if
   * enough SPs are left. `needed` is the number of chunks of an object, None if the query failed.
   */
  function RoundLaw(c: Checked, probe: nat -> bool, needed: Option<int>): Checked {
    var failing := Failing(c.sps, probe);
    if failing != {} && needed.Some? && |c.sps| - |failing| >= needed.value
    then c.(unhealthy := failing)
    else c.(unhealthy := c.unhealthy - Recovered(c.sps, probe))
  }

  /** A round in numbers: enough probes of listed SPs succeed, and one at least fails. */
  lemma RoundInSets(c: Checked, probe: nat -> bool, needed: Option<int>)
    ensures var ok, bad := set id | id in c.sps && probe(id), set id | id in c.sps && !probe(id);
            var c' := RoundLaw(c, probe, needed);
            && c'.sps == c.sps
            && c'.unhealthy == if bad != {} && needed.Some? && |ok| >= needed.value then bad else c.unhealthy - ok
  {
    var ok, bad := set id | id in c.sps && probe(id), set id | id in c.sps && !probe(id);
    assert Failing(c.sps, probe) == bad && Recovered(c.sps, probe) == ok;
    assert c.sps == ok + bad && ok !! bad;
    assert |c.sps| == |ok| + |bad|;
  }

  predicate SPHealthy(c: Checked, id: nat) {
    !(id in c.sps && id in c.unhealthy)
  }

  predicate GVGHealthy(c: Checked, secondaries: seq<nat>) {
    forall i :: 0 <= i < |secondaries| ==> SPHealthy(c, secondaries[i])
  }

  /** No secondary is both listed and unhealthy. */
  lemma HealthyInSets(c: Checked, secondaries: seq<nat>)
    ensures GVGHealthy(c, secondaries) <==> (set id | id in secondaries) * c.sps * c.unhealthy == {}
  {
    var bad := (set id | id in secondaries) * c.sps * c.unhealthy;
    if bad == {} {
      forall i | 0 <= i < |secondaries|
        ensures SPHealthy(c, secondaries[i])
      {
        assert secondaries[i] !in bad;
      }
    }
  }

  class HealthChecker {
    var sps: set<nat>
    var unhealthy: set<nat>

    ghost function View(): Checked
      reads this
    {
      Checked(sps, unhealthy)
    }

    constructor ()
      ensures View() == Checked({}, {})
    {
      sps, unhealthy := {}, {};
    }

    /** addAllSP. */
    method AddAllSP(ids: seq<nat>)
      modifies this
      ensures View() == Checked(set id | id in ids, old(unhealthy))
    {
      sps := {};
      for n := 0 to |ids|
        invariant sps == (set id | id in ids[..n]) && unhealthy == old(unhealthy)
      {
        sps := sps + {ids[n]};
        assert ids[..n + 1] == ids[..n] + [ids[n]];
      }
      assert ids[..|ids|] == ids;
    }

    /** checkAllSPHealth. */
    method CheckAllSPHealth(probe: nat -> bool, needed: Option<int>)
      modifies this
      ensures View() == RoundLaw(old(View()), probe, needed)
    {
      var failing, count := ProbeAll(probe);
      if count == 0 {
        return;
      }
      if needed.None? {
        return;
      }
      if |sps| - count >= needed.value {
        unhealthy := failing;
      }
    }

    /** The loop over the SPs, in whatever order. */
    method ProbeAll(probe: nat -> bool) returns (failing: set<nat>, count: nat)
      modifies this`unhealthy
      ensures failing == Failing(sps, probe) && count == |failing|
      ensures unhealthy == old(unhealthy) - Recovered(sps, probe)
    {
      var rest := sps;
      failing, count := {}, 0;
      while rest != {}
        invariant rest <= sps && count == |failing|
        invariant forall x :: x in failing <==> x in sps && x !in rest && !probe(x)
        invariant forall x :: x in unhealthy <==> x in old(unhealthy) && !(x in sps && x !in rest && probe(x))
      {
        var id :| id in rest;
        rest := rest - {id};
        if !probe(id) {
          count := count + 1;
          failing := failing + {id};
        } else {
          unhealthy := unhealthy - {id};
        }
      }
    }

    method IsSPHealthy(id: nat) returns (r: bool)
      ensures r <==> SPHealthy(View(), id)
    {
      if id in sps {
        return id !in unhealthy;
      }
      return true;
    }

    /** isGVGHealthy: every secondary SP of the group is healthy. */
    method IsGVGHealthy(secondaries: seq<nat>) returns (r: bool)
      ensures r <==> GVGHealthy(View(), secondaries)
      ensures r <==> (set id | id in secondaries) * sps * unhealthy == {}
    {
      HealthyInSets(View(), secondaries);
      for n := 0 to |secondaries|
        invariant forall i :: 0 <= i < n ==> SPHealthy(View(), secondaries[i])
      {
        var healthy := IsSPHealthy(secondaries[n]);
        if !healthy {
          return false;
        }
      }
      return true;
    }

    /** isVGFHealthy: a family without groups, or with a healthy one; the code counts down. */
    method IsVGFHealthy(gvgs: map<nat, seq<nat>>) returns (r: bool)
      ensures r <==> gvgs == map[] || exists k :: k in gvgs && GVGHealthy(View(), gvgs[k])
    {
      if |gvgs| == 0 {
        return true;
      }
      var healthy := |gvgs|;
      var rest := gvgs.Keys;
      while rest != {}
        invariant rest <= gvgs.Keys && healthy >= |rest|
        invariant healthy > |rest| <==> exists k :: k in gvgs && k !in rest && GVGHealthy(View(), gvgs[k])
      {
        var k :| k in rest;
        var ok := IsGVGHealthy(gvgs[k]);
        ghost var before := rest;
        rest := rest - {k};
        if !ok {
          healthy := healthy - 1;
          assert forall j :: j in gvgs && j !in rest && GVGHealthy(View(), gvgs[j]) ==> j !in before;
        }
      }
      assert gvgs != map[];
      return healthy > 0;
    }
  }

  // ----- whole runs ----------------------------------------------------------------------------

  datatype Event = Refresh(sps: set<nat>) | Round(probe: nat -> bool, needed: Option<int>)

  function After(c: Checked, e: Event): Checked {
    match e
    case Refresh(sps) => c.(sps := sps)
    case Round(probe, needed) => RoundLaw(c, probe, needed)
  }

  function At(es: seq<Event>, n: nat): Checked
    requires n <= |es|
  {
    if n == 0 then Checked({}, {}) else After(At(es, n - 1), es[n - 1])
  }

  /** The unhealthy SPs are known ones, and either there are none or at least k others are left. */
  predicate EnoughLeft(c: Checked, k: int) {
    c.unhealthy <= c.sps && (c.unhealthy == {} || |c.sps| - |c.unhealthy| >= k)
  }

  lemma RoundKeepsEnough(c: Checked, probe: nat -> bool, needed: Option<int>, k: int)
    requires EnoughLeft(c, k) && (needed.Some? ==> needed.value == k)
    ensures EnoughLeft(RoundLaw(c, probe, needed), k)
  {
    var rest := c.unhealthy - Recovered(c.sps, probe);
    assert c.unhealthy == rest + (c.unhealthy - rest);
  }

  /** The list of SPs and the redundancy number stay what they are from event m on. */
  ghost predicate Fixed(es: seq<Event>, m: nat, sps: set<nat>, k: int) {
    forall i :: m <= i < |es| ==>
      match es[i]
      case Refresh(s) => s == sps
      case Round(_, needed) => needed.Some? ==> needed.value == k
  }

  /** While list and number stay fixed, enough SPs are left after every event. */
  lemma {:induction false} AlwaysEnoughLeft(es: seq<Event>, m: nat, n: nat, sps: set<nat>, k: int)
    requires m <= n <= |es| && Fixed(es, m, sps, k)
    requires At(es, m).sps == sps && EnoughLeft(At(es, m), k)
    ensures At(es, n).sps == sps && EnoughLeft(At(es, n), k)
    decreases n
  {
    if n > m {
      AlwaysEnoughLeft(es, m, n - 1, sps, k);
      if es[n - 1].Round? {
        RoundKeepsEnough(At(es, n - 1), es[n - 1].probe, es[n - 1].needed, k);
      }
    }
  }

  /** From the start, before any SP was found unhealthy, that is: in every run with one list and one number. */
  lemma EnoughLeftInEveryRun(es: seq<Event>, n: nat, sps: set<nat>, k: int)
    requires 0 < n <= |es| && es[0] == Refresh(sps) && Fixed(es, 1, sps, k)
    ensures EnoughLeft(At(es, n), k)
  {
    assert At(es, 1) == After(At(es, 0), es[0]) == Checked(sps, {});
    AlwaysEnoughLeft(es, 1, n, sps, k);
  }

  /**
   * In every run, lists changing as they may: an SP that was unhealthy after m events and is not
   * after n has had a round in between in which its own probe succeeded, or it was not listed.
   */
  lemma {:induction false} LeavesByOwnProbe(es: seq<Event>, m: nat, n: nat, id: nat) returns (r: nat)
    requires m <= n <= |es| && id in At(es, m).unhealthy && id !in At(es, n).unhealthy
    ensures m <= r < n && es[r].Round? && (es[r].probe(id) || id !in At(es, r).sps)
    decreases n
  {
    if id in At(es, n - 1).unhealthy {
      r := n - 1;
    } else {
      r := LeavesByOwnProbe(es, m, n - 1, id);
    }
  }

  /** While list and number stay fixed, only its own successful probe lets an SP leave. */
  lemma LeavesByProbeAlone(es: seq<Event>, m: nat, n: nat, sps: set<nat>, k: int, id: nat) returns (r: nat)
    requires m <= n <= |es| && Fixed(es, m, sps, k)
    requires At(es, m).sps == sps && EnoughLeft(At(es, m), k)
    requires id in At(es, m).unhealthy && id !in At(es, n).unhealthy
    ensures m <= r < n && es[r].Round? && es[r].probe(id)
  {
    r := LeavesByOwnProbe(es, m, n, id);
    AlwaysEnoughLeft(es, m, r, sps, k);
  }

  /**
   * In every run: after a round in which some listed probe fails and enough listed probes succeed,
   * the unhealthy SPs are exactly the listed ones whose probe failed. Any other round puts nobody in
   * and takes out those whose probe succeeded, and a new list changes nothing.
   */
  lemma SetAsideInEveryRun(es: seq<Event>, n: nat)
    requires n < |es|
    ensures match es[n]
            case Refresh(_) => At(es, n + 1).unhealthy == At(es, n).unhealthy
            case Round(probe, needed) =>
              var sps := At(es, n).sps;
              var ok, bad := set id | id in sps && probe(id), set id | id in sps && !probe(id);
              At(es, n + 1).unhealthy ==
              if bad != {} && needed.Some? && |ok| >= needed.value then bad else At(es, n).unhealthy - ok
  {
    if es[n].Round? {
      RoundInSets(At(es, n), es[n].probe, es[n].needed);
    }
  }

  /**
   * In every run: an SP that was not unhealthy after m events and is after n got there in a round in
   * which it was listed, its own probe failed, and enough others succeeded.
   */
  lemma {:induction false} EntersByOwnProbe(es: seq<Event>, m: nat, n: nat, id: nat) returns (r: nat)
    requires m <= n <= |es| && id !in At(es, m).unhealthy && id in At(es, n).unhealthy
    ensures m <= r < n && es[r].Round? && id in At(es, r).sps && !es[r].probe(id)
    ensures es[r].needed.Some? && |set x | x in At(es, r).sps && es[r].probe(x)| >= es[r].needed.value
    decreases n
  {
    if id !in At(es, n - 1).unhealthy {
      r := n - 1;
      if es[r].Round? {
        RoundInSets(At(es, r), es[r].probe, es[r].needed);
      }
    } else {
      r := EntersByOwnProbe(es, m, n - 1, id);
    }
  }
}
