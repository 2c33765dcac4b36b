/** Fairness of Top and TopByLimit: repeated over a fixed set of tasks, they go round. */
module RoundRobin {
  import opened Options
  import opened Resources
  import opened TaskQueue

  /** Where the cursor stands before the j-th call. */
  function Cursor(start: int, picks: seq<Task>, j: nat): int
    requires j <= |picks|
  {
    if j == 0 then start else picks[j - 1].createTime
  }

  /** The results of consecutive calls over the tasks E, with the cursor at `start` before the first. */
  ghost predicate Round(E: set<Task>, start: int, picks: seq<Task>) {
    forall j {:trigger Cursor(start, picks, j)} :: 0 <= j < |picks| ==> IsNext(E, Cursor(start, picks, j), picks[j])
  }

  ghost function Times(E: set<Task>): set<int> {
    set t | t in E :: t.createTime
  }

  ghost function TimesOf(picks: seq<Task>): set<int> {
    set t | t in picks :: t.createTime
  }

  /** The creation times the cursor has passed since `start`, before or after it went round. */
  ghost function Passed(T: set<int>, start: int, cur: int, wrapped: bool): set<int> {
    if wrapped then set x | x in T && (x > start || x <= cur) else set x | x in T && start < x <= cur
  }

  /** One more call passes exactly one more creation time, as long as any is left. */
  lemma OneMoreTime(E: set<Task>, start: int, cur: int, wrapped: bool, t: Task) returns (wrapped': bool)
    requires if wrapped then cur <= start else start <= cur
    requires Passed(Times(E), start, cur, wrapped) != Times(E)
    requires IsNext(E, cur, t)
    ensures if wrapped' then t.createTime <= start else start <= t.createTime
    ensures t.createTime !in Passed(Times(E), start, cur, wrapped)
    ensures Passed(Times(E), start, t.createTime, wrapped') ==
            Passed(Times(E), start, cur, wrapped) + {t.createTime}
  {
    var T := Times(E);
    var left :| left in T && left !in Passed(T, start, cur, wrapped);
    var u :| u in E && u.createTime == left;
    wrapped' := wrapped || !(exists v :: v in E && v.createTime > cur);
    var before, after := Passed(T, start, cur, wrapped), Passed(T, start, t.createTime, wrapped');
    forall x | x in T
      ensures x in after <==> x in before || x == t.createTime
    {
      var v :| v in E && v.createTime == x;
    }
    assert after == before + {t.createTime};
  }

  lemma TimesOfNext(picks: seq<Task>, j: nat)
    requires j < |picks|
    ensures TimesOf(picks[..j + 1]) == TimesOf(picks[..j]) + {picks[j].createTime}
  {
    assert picks[..j + 1] == picks[..j] + [picks[j]];
  }

  /** After j calls: the times passed are those returned, j of them. */
  ghost predicate SoFar(E: set<Task>, start: int, picks: seq<Task>, j: nat, wrapped: bool)
    requires j <= |picks|
  {
    var cur := Cursor(start, picks, j);
    && (if wrapped then cur <= start else start <= cur)
    && Passed(Times(E), start, cur, wrapped) == TimesOf(picks[..j])
    && |TimesOf(picks[..j])| == j
  }

  lemma {:induction false} PassedSoFar(E: set<Task>, start: int, picks: seq<Task>, j: nat) returns (wrapped: bool)
    requires Round(E, start, picks) && j <= |picks| <= |Times(E)|
    ensures SoFar(E, start, picks, j, wrapped)
    decreases j
  {
    if j == 0 {
      PassedNone(E, start, picks);
      wrapped := false;
    } else {
      var i := j - 1;
      var w := PassedSoFar(E, start, picks, i);
      wrapped := PassedNext(E, start, picks, i, w);
      assert SoFar(E, start, picks, i + 1, wrapped) && i + 1 == j;
    }
  }

  lemma PassedNone(E: set<Task>, start: int, picks: seq<Task>)
    ensures SoFar(E, start, picks, 0, false)
  {
    assert TimesOf(picks[..0]) == {};
  }

  lemma PassedNext(E: set<Task>, start: int, picks: seq<Task>, j: nat, w: bool) returns (wrapped: bool)
    requires Round(E, start, picks) && j < |picks| <= |Times(E)|
    requires SoFar(E, start, picks, j, w)
    ensures SoFar(E, start, picks, j + 1, wrapped)
    ensures picks[j].createTime !in TimesOf(picks[..j])
  {
    wrapped := OneMoreTime(E, start, Cursor(start, picks, j), w, picks[j]);
    TimesOfNext(picks, j);
  }

  /**
   * As many consecutive calls as there are creation times, from any cursor, return a task of each
   * creation time, none of them twice.
   */
  lemma EachTimeOnce(E: set<Task>, start: int, picks: seq<Task>)
    requires Round(E, start, picks) && |picks| == |Times(E)|
    ensures TimesOf(picks) == Times(E)
    ensures forall i, j :: 0 <= i < j < |picks| ==> picks[i].createTime != picks[j].createTime
  {
    var w := PassedSoFar(E, start, picks, |picks|);
    assert picks[..|picks|] == picks;
    SameSize(TimesOf(picks), Times(E));
    forall i, j | 0 <= i < j < |picks|
      ensures picks[i].createTime != picks[j].createTime
    {
      NoneTwice(E, start, picks, i, j);
    }
  }

  lemma NoneTwice(E: set<Task>, start: int, picks: seq<Task>, i: nat, j: nat)
    requires Round(E, start, picks) && |picks| == |Times(E)| && i < j < |picks|
    ensures picks[i].createTime != picks[j].createTime
  {
    var w := PassedSoFar(E, start, picks, j);
    var w' := PassedNext(E, start, picks, j, w);
    assert picks[..j][i] == picks[i];
  }

  lemma SameSize(a: set<int>, b: set<int>)
    requires a <= b && |a| == |b|
    ensures a == b
  {
    assert b == a + (b - a);
  }

  ghost predicate DistinctTimes(E: set<Task>) {
    forall t, u :: t in E && u in E && t.createTime == u.createTime ==> t == u
  }

  lemma {:induction false} AsManyTimes(E: set<Task>)
    requires DistinctTimes(E)
    ensures |Times(E)| == |E|
  {
    if E != {} {
      var t :| t in E;
      AsManyTimes(E - {t});
      assert Times(E) == Times(E - {t}) + {t.createTime};
    }
  }

  /** When no two tasks are created at one time, n calls over n tasks return each of them exactly once. */
  lemma EachTaskOnce(E: set<Task>, start: int, picks: seq<Task>)
    requires DistinctTimes(E) && Round(E, start, picks) && |picks| == |E|
    ensures forall t :: t in E <==> t in picks
    ensures forall i, j :: 0 <= i < j < |picks| ==> picks[i] != picks[j]
  {
    AsManyTimes(E);
    EachTimeOnce(E, start, picks);
    forall t | t in E
      ensures t in picks
    {
      assert t.createTime in TimesOf(picks);
      var u :| u in picks && u.createTime == t.createTime;
      var j :| 0 <= j < |picks| && picks[j] == u;
      assert IsNext(E, Cursor(start, picks, j), picks[j]);
    }
    forall t | t in picks
      ensures t in E
    {
      var j :| 0 <= j < |picks| && picks[j] == t;
      assert IsNext(E, Cursor(start, picks, j), picks[j]);
    }
  }

  /** As many calls as there are creation times, the first of them number i. */
  ghost function StretchAt(E: set<Task>, picks: seq<Task>, i: nat): seq<Task>
    requires i + |Times(E)| <= |picks|
  {
    picks[i..i + |Times(E)|]
  }

  /** Every creation time comes once, and every task too if no two are created at one time. */
  ghost predicate OnceAround(E: set<Task>, picks: seq<Task>) {
    && TimesOf(picks) == Times(E)
    && (forall i, j :: 0 <= i < j < |picks| ==> picks[i].createTime != picks[j].createTime)
    && (DistinctTimes(E) ==> forall t :: t in E <==> t in picks)
  }

  /** Any stretch of consecutive calls is a round of its own. */
  lemma Stretch(E: set<Task>, start: int, picks: seq<Task>, i: nat, j: nat)
    requires Round(E, start, picks) && i <= j <= |picks|
    ensures Round(E, Cursor(start, picks, i), picks[i..j])
  {
    var part := picks[i..j];
    forall m | 0 <= m < |part|
      ensures IsNext(E, Cursor(Cursor(start, picks, i), part, m), part[m])
    {
      assert IsNext(E, Cursor(start, picks, i + m), picks[i + m]);
    }
  }

  lemma StretchAround(E: set<Task>, start: int, picks: seq<Task>, i: nat)
    requires Round(E, start, picks) && i + |Times(E)| <= |picks|
    ensures OnceAround(E, StretchAt(E, picks, i))
  {
    var part := StretchAt(E, picks, i);
    Stretch(E, start, picks, i, i + |Times(E)|);
    EachTimeOnce(E, Cursor(start, picks, i), part);
    if DistinctTimes(E) {
      AsManyTimes(E);
      EachTaskOnce(E, Cursor(start, picks, i), part);
    }
  }

  /**
   * Consecutive calls on a queue that nothing else touches, with callbacks that keep their mind:
   * any stretch of as many calls as there are creation times goes once around. Nothing is ever
   * returned if and only if nothing is eligible; what is given up is gone with the first call.
   */
  method TopRepeatedly(q: TQueue, limit: Option<Limit>, retire: Task -> bool, filter: Task -> bool, n: nat)
    returns (picks: seq<Task>)
    requires q.Valid()
    modifies q
    ensures q.Valid() && q.tasks == if n == 0 then old(q.tasks) else Kept(old(q.tasks), retire)
    ensures var E := Eligible(old(q.tasks), limit, retire, filter);
            && |picks| == (if E == {} then 0 else n)
            && Round(E, old(q.current), picks)
            && forall i :: 0 <= i <= |picks| - |Times(E)| ==> OnceAround(E, StretchAt(E, picks, i))
  {
    ghost var E, start := Eligible(q.tasks, limit, retire, filter), q.current;
    picks := [];
    for i := 0 to n
      invariant q.Valid() && q.tasks == if i == 0 then old(q.tasks) else Kept(old(q.tasks), retire)
      invariant |picks| == if E == {} then 0 else i
      invariant q.current == Cursor(start, picks, |picks|)
      invariant Round(E, start, picks)
    {
      KeptEligible(old(q.tasks), limit, retire, filter);
      var r := q.Top(limit, retire, filter);
      if r.Some? {
        RoundOn(E, start, picks, r.value);
        picks := picks + [r.value];
      }
    }
    forall i | 0 <= i <= |picks| - |Times(E)|
      ensures OnceAround(E, StretchAt(E, picks, i))
    {
      StretchAround(E, start, picks, i);
    }
  }

  lemma RoundOn(E: set<Task>, start: int, picks: seq<Task>, t: Task)
    requires Round(E, start, picks) && IsNext(E, Cursor(start, picks, |picks|), t)
    ensures Round(E, start, picks + [t])
  {
    var picks' := picks + [t];
    forall j | 0 <= j < |picks'|
      ensures IsNext(E, Cursor(start, picks', j), picks'[j])
    {
      assert Cursor(start, picks', j) == Cursor(start, picks, j);
    }
  }

  lemma KeptEligible(tasks: TaskMap, limit: Option<Limit>, retire: Task -> bool, filter: Task -> bool)
    ensures Kept(Kept(tasks, retire), retire) == Kept(tasks, retire)
    ensures Eligible(Kept(tasks, retire), limit, retire, filter) == Eligible(tasks, limit, retire, filter)
  {
    var kept := Kept(tasks, retire);
    forall t | t in Eligible(tasks, limit, retire, filter)
      ensures t in Eligible(kept, limit, retire, filter)
    {
      var k :| k in tasks && !retire(tasks[k]) && tasks[k] == t;
      assert k in kept && kept[k] == t;
    }
  }
}
