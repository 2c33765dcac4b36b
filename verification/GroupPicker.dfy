/**
 * base/gfspvgmgr: picking a virtual group family or a global virtual group by free space, under
 * the filters in force. Real numbers stand for float64; the random draw is an input, and maps are
 * iterated in whatever order.
 */
module GroupPicker {
  import opened Options
  import opened Sequences
  import opened SPHealth
  import opened FreezePool

  const MAX_STORAGE_USAGE_RATIO: real := 0.95

  datatype Group = Group(id: nat, secondaries: seq<nat>, used: nat, staked: nat)

  datatype Family = Family(id: nat, used: nat, staked: nat, groups: map<nat, Group>)

  datatype PickError = FailedPickVGF | FailedPickGVG | StaledMetadata

  datatype Result<T> = Ok(value: T) | Err(error: PickError)

  /** What refreshGVGMeta builds: groups and families are filed under their own ids. */
  predicate WellFiled(f: Family) {
    forall k :: k in f.groups ==> f.groups[k].id == k
  }

  predicate Spacious(used: nat, staked: nat) {
    used as real < MAX_STORAGE_USAGE_RATIO * staked as real
  }

  lemma SpaciousRatio(used: nat, staked: nat)
    ensures Spacious(used, staked) <==> 20 * used < 19 * staked
  {
    assert 0.95 * staked as real * 20.0 == (19 * staked) as real;
    assert used as real * 20.0 == (20 * used) as real;
  }

  // ----- the weight picker ---------------------------------------------------------------------

  type Weights = map<nat, real>

  ghost predicate Positive(w: Weights) {
    forall k :: k in w ==> w[k] > 0.0
  }

  ghost function Sum(w: Weights): real {
    if w == map[] then 0.0
    else
      var k :| k in w;
      w[k] + Sum(w - {k})
  }

  /** The order of summation does not matter. */
  lemma {:induction false} SumWithout(w: Weights, k: nat)
    requires k in w
    ensures Sum(w) == w[k] + Sum(w - {k})
  {
    var j :| j in w && Sum(w) == w[j] + Sum(w - {j});
    if j != k {
      SumWithout(w - {j}, k);
      SumWithout(w - {k}, j);
      assert w - {j} - {k} == w - {k} - {j};
    }
  }

  lemma {:induction false} SumPositive(w: Weights)
    requires Positive(w)
    ensures Sum(w) >= 0.0 && (w != map[] ==> Sum(w) > 0.0)
  {
    if w != map[] {
      var k :| k in w && Sum(w) == w[k] + Sum(w - {k});
      SumPositive(w - {k});
    }
  }

  /** An order in which a map with these keys may be iterated. */
  ghost predicate Lists(order: seq<nat>, keys: set<nat>) {
    Distinct(order) && keys == set k | k in order
  }

  ghost function WeightOf(w: Weights, k: nat): real {
    if k in w then w[k] else 0.0
  }

  /** The weight of the first n keys. */
  ghost function Prefix(w: Weights, order: seq<nat>, n: nat): real
    requires n <= |order|
  {
    if n == 0 then 0.0 else Prefix(w, order, n - 1) + WeightOf(w, order[n - 1])
  }

  /** Where a draw from [0, 1) falls on the whole weight. */
  ghost function Point(w: Weights, draw: real): real {
    draw * Sum(w)
  }

  /** An interval is as long as the weight of its key, and they follow each other from zero. */
  lemma IntervalsInNumbers(w: Weights, order: seq<nat>, i: nat)
    requires i < |order| && order[i] in w
    ensures Prefix(w, order, i + 1) - Prefix(w, order, i) == w[order[i]]
    ensures Prefix(w, order, 0) == 0.0
  {
  }

  lemma PointInNumbers(w: Weights, draw: real)
    ensures Point(w, draw) == draw * Sum(w)
  {
  }

  /** What is picked is the key in whose interval the number lies, and no other. */
  ghost predicate InInterval(w: Weights, order: seq<nat>, r: Option<nat>, pick: real) {
    forall i :: 0 <= i < |order| ==>
      (r == Some(order[i]) <==> Prefix(w, order, i) <= pick < Prefix(w, order, i + 1))
  }

  /** The weight of a key drops out of the sum with it. */
  lemma SumMinus(w: Weights, k: nat)
    ensures Sum(w) == WeightOf(w, k) + Sum(w - {k})
  {
    if k in w {
      SumWithout(w, k);
    } else {
      assert w - {k} == w;
    }
  }

  ghost function Rest(w: Weights, order: seq<nat>, n: nat): Weights
    requires n <= |order|
  {
    if n == 0 then w else Rest(w, order, n - 1) - {order[n - 1]}
  }

  lemma {:induction false} RestKeys(w: Weights, order: seq<nat>, n: nat)
    requires n <= |order|
    ensures Rest(w, order, n) == map k | k in w && k !in order[..n] :: w[k]
    decreases n
  {
    if n > 0 {
      RestKeys(w, order, n - 1);
      assert order[..n] == order[..n - 1] + [order[n - 1]];
    }
  }

  lemma {:induction false} PrefixRest(w: Weights, order: seq<nat>, n: nat)
    requires n <= |order| && Distinct(order)
    ensures Prefix(w, order, n) + Sum(Rest(w, order, n)) == Sum(w)
    decreases n
  {
    if n > 0 {
      PrefixRest(w, order, n - 1);
      RestKeys(w, order, n - 1);
      SumMinus(Rest(w, order, n - 1), order[n - 1]);
    }
  }

  lemma PrefixAll(w: Weights, order: seq<nat>)
    requires Lists(order, w.Keys)
    ensures Prefix(w, order, |order|) == Sum(w)
  {
    PrefixRest(w, order, |order|);
    RestKeys(w, order, |order|);
    assert order[..|order|] == order;
    assert Rest(w, order, |order|) == map[];
  }

  lemma {:induction false} PrefixGrows(w: Weights, order: seq<nat>, i: nat, j: nat)
    requires i <= j <= |order| && Positive(w)
    ensures Prefix(w, order, i) <= Prefix(w, order, j)
    decreases j
  {
    if i < j {
      PrefixGrows(w, order, i, j - 1);
    }
  }

  /** The intervals do not overlap. */
  lemma OnlyInterval(w: Weights, order: seq<nat>, pick: real, n: nat)
    requires n < |order| && Distinct(order) && Positive(w)
    requires Prefix(w, order, n) <= pick < Prefix(w, order, n + 1)
    ensures InInterval(w, order, Some(order[n]), pick)
  {
    forall i | 0 <= i < |order|
      ensures order[n] == order[i] <==> Prefix(w, order, i) <= pick < Prefix(w, order, i + 1)
    {
      if i < n {
        PrefixGrows(w, order, i + 1, n);
      } else if n < i {
        PrefixGrows(w, order, n + 1, i);
      }
    }
  }

  class FreeStorageSizeWeightPicker {
    var weights: Weights

    constructor ()
      ensures weights == map[]
    {
      weights := map[];
    }

    /** addGlobalVirtualGroup and addVirtualGroupFamily: nothing for what is full beyond the ratio. */
    method Add(id: nat, used: nat, staked: nat)
      requires Positive(weights)
      modifies this
      ensures Positive(weights)
      ensures weights == if 20 * used < 19 * staked
                         then old(weights)[id := (staked - used) as real / staked as real] else old(weights)
    {
      SpaciousRatio(used, staked);
      if used as real >= MAX_STORAGE_USAGE_RATIO * staked as real || staked == 0 {
        return;
      }
      Share(used, staked);
      weights := weights[id := (staked - used) as real / staked as real];
    }

    /**
     * pickIndex, with the order in which the second loop happens to meet the keys: each key is
     * picked by exactly the draws of its own interval, which is as long as its weight's share of
     * the total. The intervals depend on the order alone and cover all draws.
     */
    method PickIndex(order: seq<nat>, draw: real) returns (r: Option<nat>)
      requires Positive(weights) && Lists(order, weights.Keys) && 0.0 <= draw < 1.0
      ensures r.Some? <==> weights != map[]
      ensures r.Some? ==> r.value in weights
      ensures Prefix(weights, order, |order|) == Sum(weights)
      ensures InInterval(weights, order, r, Point(weights, draw))
    {
      var pick := PickWeight(draw);
      PrefixAll(weights, order);
      r := PickAt(order, pick);
    }

    method PickWeight(draw: real) returns (pick: real)
      requires Positive(weights) && 0.0 <= draw < 1.0
      ensures pick == Point(weights, draw)
      ensures 0.0 <= pick && (weights != map[] ==> pick < Sum(weights))
    {
      var total := Total();
      pick := draw * total;
      SumPositive(weights);
      DrawBelow(draw, total, pick);
    }

    method PickAt(order: seq<nat>, pick: real) returns (r: Option<nat>)
      requires Positive(weights) && Lists(order, weights.Keys)
      requires 0.0 <= pick && (order != [] ==> pick < Prefix(weights, order, |order|))
      ensures r.Some? <==> order != []
      ensures r.Some? ==> r.value in weights
      ensures InInterval(weights, order, r, pick)
    {
      var soFar := 0.0;
      for n := 0 to |order|
        invariant soFar == Prefix(weights, order, n) && soFar <= pick
      {
        assert order[n] in weights.Keys;
        soFar := soFar + weights[order[n]];
        if soFar > pick {
          OnlyInterval(weights, order, pick, n);
          return Some(order[n]);
        }
      }
      return None;
    }

    method Total() returns (total: real)
      ensures total == Sum(weights)
    {
      total := 0.0;
      var rest := weights;
      while rest != map[]
        invariant rest.Keys <= weights.Keys
        invariant total + Sum(rest) == Sum(weights)
        decreases rest.Keys
      {
        var k :| k in rest;
        SumWithout(rest, k);
        total := total + rest[k];
        rest := rest - {k};
      }
    }
  }

  lemma Share(used: nat, staked: nat)
    requires used < staked
    ensures (staked - used) as real / staked as real > 0.0
  {
  }

  lemma DrawBelow(draw: real, total: real, pick: real)
    requires 0.0 <= draw < 1.0 && total >= 0.0 && pick == draw * total
    ensures 0.0 <= pick && (total > 0.0 ==> pick < total)
  {
    assert total - pick == (1.0 - draw) * total;
  }

  // ----- global virtual groups -----------------------------------------------------------------

  /** A group that may be picked: neither frozen nor excluded, healthy, and with room. */
  ghost predicate Candidate(g: Group, frozen: set<nat>, exclude: nat -> bool, health: Option<Checked>) {
    && g.id !in frozen && !exclude(g.id)
    && (health.Some? ==> GVGHealthy(health.value, g.secondaries))
    && Spacious(g.used, g.staked)
  }

  /** Spelled out: which groups may be picked. */
  lemma CandidateInFields(g: Group, frozen: set<nat>, exclude: nat -> bool, health: Option<Checked>)
    ensures Candidate(g, frozen, exclude, health) <==>
            && g.id !in frozen && !exclude(g.id) && 20 * g.used < 19 * g.staked
            && (health.Some? ==> (set id | id in g.secondaries) * health.value.sps * health.value.unhealthy == {})
  {
    SpaciousRatio(g.used, g.staked);
    if health.Some? {
      HealthyInSets(health.value, g.secondaries);
    }
  }

  /** The free share of each candidate. */
  ghost function GroupWeights(groups: map<nat, Group>, rest: set<nat>, frozen: set<nat>, exclude: nat -> bool,
                              health: Option<Checked>): Weights
  {
    map k | k in groups && k !in rest && Candidate(groups[k], frozen, exclude, health) ::
      (groups[k].staked - groups[k].used) as real / groups[k].staked as real
  }

  lemma GroupWeightsInFields(groups: map<nat, Group>, frozen: set<nat>, exclude: nat -> bool,
                             health: Option<Checked>, k: nat)
    ensures var w := GroupWeights(groups, {}, frozen, exclude, health);
            && (k in w <==> k in groups && Candidate(groups[k], frozen, exclude, health))
            && (k in w ==> w[k] == (groups[k].staked - groups[k].used) as real / groups[k].staked as real)
  {
  }

  lemma GroupWeightsStep(groups: map<nat, Group>, rest: set<nat>, k: nat, frozen: set<nat>, exclude: nat -> bool,
                         health: Option<Checked>)
    requires k in groups && k in rest
    ensures var w, g := GroupWeights(groups, rest, frozen, exclude, health), groups[k];
            GroupWeights(groups, rest - {k}, frozen, exclude, health) ==
            if Candidate(g, frozen, exclude, health) then w[k := (g.staked - g.used) as real / g.staked as real] else w
  {
  }

  lemma NoGroupWeights(groups: map<nat, Group>, frozen: set<nat>, exclude: nat -> bool, health: Option<Checked>)
    ensures GroupWeights(groups, groups.Keys, frozen, exclude, health) == map[]
    ensures GroupWeights(groups, {}, frozen, exclude, health) == map[] <==>
            forall k :: k in groups ==> !Candidate(groups[k], frozen, exclude, health)
  {
    var w := GroupWeights(groups, {}, frozen, exclude, health);
    if w == map[] {
      forall k | k in groups
        ensures !Candidate(groups[k], frozen, exclude, health)
      {
        assert k !in w;
      }
    }
  }

  /** The loop that gives each group that passes the filters to the picker. */
  method WeighGroups(groups: map<nat, Group>, frozen: set<nat>, exclude: nat -> bool, checker: HealthChecker?)
    returns (picker: FreeStorageSizeWeightPicker)
    requires forall k :: k in groups ==> groups[k].id == k
    ensures fresh(picker) && Positive(picker.weights)
    ensures picker.weights == GroupWeights(groups, {}, frozen, exclude, HealthOf(checker))
  {
    ghost var health := HealthOf(checker);
    picker := new FreeStorageSizeWeightPicker();
    var rest := groups.Keys;
    NoGroupWeights(groups, frozen, exclude, health);
    while rest != {}
      invariant rest <= groups.Keys && Positive(picker.weights) && fresh(picker) && HealthOf(checker) == health
      invariant picker.weights == GroupWeights(groups, rest, frozen, exclude, health)
    {
      var k :| k in rest;
      var g := groups[k];
      GroupWeightsStep(groups, rest, k, frozen, exclude, health);
      var healthy := true;
      if checker != null {
        healthy := checker.IsGVGHealthy(g.secondaries);
      }
      SpaciousRatio(g.used, g.staked);
      if g.id !in frozen && !exclude(g.id) && healthy {
        picker.Add(g.id, g.used, g.staked);
      }
      rest := rest - {k};
    }
  }

  ghost function HealthOf(checker: HealthChecker?): Option<Checked>
    reads checker
  {
    if checker == null then None else Some(checker.View())
  }

  /**
   * pickGlobalVirtualGroup on a known family: a candidate if there is one, each for exactly the draws
   * of an interval in proportion to its free share. `order` is how the map of weights is iterated.
   */
  method PickGroup(families: map<nat, Family>, familyID: nat, frozen: set<nat>, exclude: nat -> bool,
                   checker: HealthChecker?, order: seq<nat>, draw: real) returns (r: Result<Group>)
    requires 0.0 <= draw < 1.0
    requires forall k :: k in families ==> WellFiled(families[k])
    requires familyID in families ==>
               Lists(order, GroupWeights(families[familyID].groups, {}, frozen, exclude, HealthOf(checker)).Keys)
    ensures familyID !in families <==> r == Err(StaledMetadata)
    ensures familyID in families ==>
              var groups, health := families[familyID].groups, HealthOf(checker);
              var w := GroupWeights(groups, {}, frozen, exclude, health);
              && (r.Ok? <==> exists k :: k in groups && Candidate(groups[k], frozen, exclude, health))
              && (r.Ok? ==> r.value.id in groups && groups[r.value.id] == r.value)
              && (r.Ok? ==> Candidate(r.value, frozen, exclude, health))
              && (r.Ok? ==> InInterval(w, order, Some(r.value.id), Point(w, draw)))
              && (r.Err? ==> r.error == FailedPickGVG)
    ensures r.Ok? ==>
              && r.value.id !in frozen && !exclude(r.value.id) && 20 * r.value.used < 19 * r.value.staked
              && (checker != null ==> (set id | id in r.value.secondaries) * checker.sps * checker.unhealthy == {})
  {
    if familyID !in families {
      return Err(StaledMetadata);
    }
    var groups := families[familyID].groups;
    assert WellFiled(families[familyID]);
    var picker := WeighGroups(groups, frozen, exclude, checker);
    NoGroupWeights(groups, frozen, exclude, HealthOf(checker));
    var index := picker.PickIndex(order, draw);
    if index.None? {
      return Err(FailedPickGVG);
    }
    CandidateInFields(groups[index.value], frozen, exclude, HealthOf(checker));
    return Ok(groups[index.value]);
  }

  // ----- families ------------------------------------------------------------------------------

  /** PickVGFByGVGFilter.Check: some group has no secondary on the blacklist; the code counts down. */
  ghost predicate SomeGroupAllowed(groups: map<nat, Group>, blacklist: set<nat>) {
    exists k :: k in groups && Allowed(groups[k], blacklist)
  }

  predicate Allowed(g: Group, blacklist: set<nat>) {
    forall i :: 0 <= i < |g.secondaries| ==> g.secondaries[i] !in blacklist
  }

  method CheckAllowed(groups: map<nat, Group>, blacklist: set<nat>) returns (r: bool)
    ensures r <==> SomeGroupAllowed(groups, blacklist)
  {
    var valid := |groups|;
    var rest := groups.Keys;
    while rest != {}
      invariant rest <= groups.Keys && valid >= |rest|
      invariant valid > |rest| <==> exists k :: k in groups && k !in rest && Allowed(groups[k], blacklist)
    {
      var k :| k in rest;
      ghost var before := rest;
      rest := rest - {k};
      if exists i :: 0 <= i < |groups[k].secondaries| && groups[k].secondaries[i] in blacklist {
        valid := valid - 1;
        assert forall j :: j in groups && j !in rest && Allowed(groups[j], blacklist) ==> j !in before;
      }
    }
    return valid > 0;
  }

  ghost predicate FamilyHealthy(f: Family, health: Checked) {
    f.groups == map[] || exists k :: k in f.groups && GVGHealthy(health, f.groups[k].secondaries)
  }

  /** A family that may be picked. `available` is None when the chain did not say. */
  ghost predicate FamilyCandidate(f: Family, available: Option<set<nat>>, blacklist: set<nat>,
                                  health: Option<Checked>)
  {
    && (available.Some? ==> f.id in available.value)
    && SomeGroupAllowed(f.groups, blacklist)
    && (health.Some? ==> FamilyHealthy(f, health.value))
    && Spacious(f.used, f.staked)
  }

  /** Spelled out: which families may be picked. */
  lemma FamilyCandidateInFields(f: Family, available: Option<set<nat>>, blacklist: set<nat>, health: Option<Checked>)
    ensures FamilyCandidate(f, available, blacklist, health) <==>
            && (available.Some? ==> f.id in available.value)
            && 20 * f.used < 19 * f.staked
            && (exists k :: k in f.groups && (set id | id in f.groups[k].secondaries) * blacklist == {})
            && (health.Some? ==>
                f.groups == map[] ||
                exists k :: k in f.groups &&
                  (set id | id in f.groups[k].secondaries) * health.value.sps * health.value.unhealthy == {})
  {
    SpaciousRatio(f.used, f.staked);
    forall k | k in f.groups
      ensures Allowed(f.groups[k], blacklist) <==> (set id | id in f.groups[k].secondaries) * blacklist == {}
      ensures health.Some? ==>
                (GVGHealthy(health.value, f.groups[k].secondaries) <==>
                 (set id | id in f.groups[k].secondaries) * health.value.sps * health.value.unhealthy == {})
    {
      AllowedInSets(f.groups[k], blacklist);
      if health.Some? {
        HealthyInSets(health.value, f.groups[k].secondaries);
      }
    }
  }

  lemma AllowedInSets(g: Group, blacklist: set<nat>)
    ensures Allowed(g, blacklist) <==> (set id | id in g.secondaries) * blacklist == {}
  {
    if (set id | id in g.secondaries) * blacklist == {} {
      forall i | 0 <= i < |g.secondaries|
        ensures g.secondaries[i] !in blacklist
      {
        assert g.secondaries[i] !in (set id | id in g.secondaries) * blacklist;
      }
    }
  }

  /** The free share of each candidate. */
  ghost function FamilyWeights(families: map<nat, Family>, rest: set<nat>, available: Option<set<nat>>,
                               blacklist: set<nat>, health: Option<Checked>): Weights
  {
    map k | k in families && k !in rest && FamilyCandidate(families[k], available, blacklist, health) ::
      (families[k].staked - families[k].used) as real / families[k].staked as real
  }

  lemma FamilyWeightsInFields(families: map<nat, Family>, available: Option<set<nat>>, blacklist: set<nat>,
                              health: Option<Checked>, k: nat)
    ensures var w := FamilyWeights(families, {}, available, blacklist, health);
            && (k in w <==> k in families && FamilyCandidate(families[k], available, blacklist, health))
            && (k in w ==> w[k] == (families[k].staked - families[k].used) as real / families[k].staked as real)
  {
  }

  lemma FamilyWeightsStep(families: map<nat, Family>, rest: set<nat>, k: nat, available: Option<set<nat>>,
                          blacklist: set<nat>, health: Option<Checked>)
    requires k in families && k in rest
    ensures var w, f := FamilyWeights(families, rest, available, blacklist, health), families[k];
            FamilyWeights(families, rest - {k}, available, blacklist, health) ==
            if FamilyCandidate(f, available, blacklist, health)
            then w[k := (f.staked - f.used) as real / f.staked as real] else w
  {
  }

  lemma NoFamilyWeights(families: map<nat, Family>, available: Option<set<nat>>, blacklist: set<nat>,
                        health: Option<Checked>)
    ensures FamilyWeights(families, families.Keys, available, blacklist, health) == map[]
    ensures FamilyWeights(families, {}, available, blacklist, health) == map[] <==>
            forall k :: k in families ==> !FamilyCandidate(families[k], available, blacklist, health)
  {
    var w := FamilyWeights(families, {}, available, blacklist, health);
    if w == map[] {
      forall k | k in families
        ensures !FamilyCandidate(families[k], available, blacklist, health)
      {
        assert k !in w;
      }
    }
  }

  method PassesFilters(f: Family, available: Option<set<nat>>, blacklist: set<nat>, checker: HealthChecker?)
    returns (passed: bool)
    ensures passed && Spacious(f.used, f.staked) <==> FamilyCandidate(f, available, blacklist, HealthOf(checker))
  {
    if available.Some? && f.id !in available.value {
      return false;
    }
    passed := CheckAllowed(f.groups, blacklist);
    if passed && checker != null {
      passed := CheckFamilyHealth(checker, f);
    }
  }

  /** The loop that gives each family that passes the filters to the picker. */
  method WeighFamilies(families: map<nat, Family>, available: Option<set<nat>>, blacklist: set<nat>,
                       checker: HealthChecker?)
    returns (picker: FreeStorageSizeWeightPicker)
    requires forall k :: k in families ==> families[k].id == k
    ensures fresh(picker) && Positive(picker.weights)
    ensures picker.weights == FamilyWeights(families, {}, available, blacklist, HealthOf(checker))
  {
    ghost var health := HealthOf(checker);
    picker := new FreeStorageSizeWeightPicker();
    var rest := families.Keys;
    NoFamilyWeights(families, available, blacklist, health);
    while rest != {}
      invariant rest <= families.Keys && Positive(picker.weights) && fresh(picker) && HealthOf(checker) == health
      invariant picker.weights == FamilyWeights(families, rest, available, blacklist, health)
    {
      var k :| k in rest;
      var f := families[k];
      FamilyWeightsStep(families, rest, k, available, blacklist, health);
      var passed := PassesFilters(f, available, blacklist, checker);
      SpaciousRatio(f.used, f.staked);
      if passed {
        picker.Add(f.id, f.used, f.staked);
      }
      rest := rest - {k};
    }
  }

  method CheckFamilyHealth(checker: HealthChecker, f: Family) returns (r: bool)
    ensures r <==> FamilyHealthy(f, checker.View())
  {
    var gvgs := map k | k in f.groups :: f.groups[k].secondaries;
    r := checker.IsVGFHealthy(gvgs);
    assert gvgs.Keys == f.groups.Keys;
    if gvgs == map[] {
      assert f.groups == map[];
    }
    if k :| k in f.groups && GVGHealthy(checker.View(), f.groups[k].secondaries) {
      assert k in gvgs && GVGHealthy(checker.View(), gvgs[k]);
    }
    if k :| k in gvgs && GVGHealthy(checker.View(), gvgs[k]) {
      assert k in f.groups;
    }
  }

  /** pickVirtualGroupFamily, likewise. */
  method PickFamily(families: map<nat, Family>, available: Option<set<nat>>, blacklist: set<nat>,
                    checker: HealthChecker?, order: seq<nat>, draw: real) returns (r: Result<Family>)
    requires 0.0 <= draw < 1.0
    requires forall k :: k in families ==> families[k].id == k
    requires Lists(order, FamilyWeights(families, {}, available, blacklist, HealthOf(checker)).Keys)
    ensures var health := HealthOf(checker);
            var w := FamilyWeights(families, {}, available, blacklist, health);
            && (r.Ok? <==> exists k :: k in families && FamilyCandidate(families[k], available, blacklist, health))
            && (r.Ok? ==> r.value.id in families && families[r.value.id] == r.value)
            && (r.Ok? ==> FamilyCandidate(r.value, available, blacklist, health))
            && (r.Ok? ==> InInterval(w, order, Some(r.value.id), Point(w, draw)))
            && (r.Err? ==> r.error == FailedPickVGF)
  {
    var picker := WeighFamilies(families, available, blacklist, checker);
    NoFamilyWeights(families, available, blacklist, HealthOf(checker));
    var index := picker.PickIndex(order, draw);
    if index.None? {
      return Err(FailedPickVGF);
    }
    return Ok(families[index.value]);
  }

  // ----- with the freeze pool ------------------------------------------------------------------

  /** PickGlobalVirtualGroup: frozen is what an SP in the freeze pool has joined in this family. */
  method PickGlobalVirtualGroup(families: map<nat, Family>, familyID: nat, freezer: FreezeSPPool,
                                exclude: nat -> bool, checker: HealthChecker?, order: seq<nat>, draw: real)
    returns (r: Result<Group>)
    requires 0.0 <= draw < 1.0
    requires forall k :: k in families ==> WellFiled(families[k])
    requires familyID in families ==>
               Lists(order, GroupWeights(families[familyID].groups, {}, FrozenSet(freezer.pool, familyID), exclude,
                                         HealthOf(checker)).Keys)
    ensures familyID !in families <==> r == Err(StaledMetadata)
    ensures familyID in families ==>
              var groups, frozen := families[familyID].groups, FrozenSet(freezer.pool, familyID);
              var w := GroupWeights(groups, {}, frozen, exclude, HealthOf(checker));
              && (r.Ok? <==> exists k :: k in groups && Candidate(groups[k], frozen, exclude, HealthOf(checker)))
              && (r.Ok? ==> r.value.id in groups && groups[r.value.id] == r.value)
              && (r.Ok? ==> Candidate(r.value, frozen, exclude, HealthOf(checker)))
              && (r.Ok? ==> InInterval(w, order, Some(r.value.id), Point(w, draw)))
              && (r.Err? ==> r.error == FailedPickGVG)
    ensures r.Ok? ==>
              forall sp :: sp in freezer.pool ==> Joined(r.value.id, familyID) !in freezer.pool[sp].joined
  {
    var frozen := freezer.FrozenGroups(familyID);
    r := PickGroup(families, familyID, frozen, exclude, checker, order, draw);
  }

  /**
   * In every run of the pool: a group that is a candidate when nothing is frozen stays out of the
   * candidates exactly while some freeze of a provider that joined it lasts.
   */
  lemma CandidateIff(es: seq<FreezePool.Event>, n: nat, family: nat, g: Group,
                     exclude: nat -> bool, health: Option<Checked>)
    requires n <= |es|
    ensures Candidate(g, FrozenSet(PoolAt(es, n), family), exclude, health) <==>
            && Candidate(g, {}, exclude, health)
            && forall i :: 0 <= i < n && Freezes(es[i], family, g.id) ==> !Lasts(es, i, n)
  {
    FrozenIff(es, n, family, g.id);
  }
}
