/** What every plan guarantees, whatever graph it was made for. */
module PlanTheorems {
  import opened Dependencies
  import opened ProductGraph
  import opened Sorting
  import opened WavePlanner

  /** Wave `k` of the plan contains product `n`. */
  ghost predicate Scheduled(plan: WavePlan, k: int, n: int) {
    0 <= k < |plan.waves| && n in plan.waves[k].products
  }

  lemma ScheduledIsLayer(g: Deps, plan: WavePlan, k: nat, n: int)
    requires IsPlan(g, plan)
    ensures Scheduled(plan, k, n) <==> n in Layer(g, k)
  {
    if k < |plan.waves| {
      assert n in plan.waves[k].products <==> n in Elems(plan.waves[k].products);
    }
  }

  lemma CyclicIsDependsOnCycle(g: Deps, plan: WavePlan, n: int)
    requires IsPlan(g, plan)
    ensures n in plan.cyclic <==> n in g && DependsOnCycle(g, n)
  {
    assert n in plan.cyclic <==> n in Elems(plan.cyclic);
  }

  /** What IsPlan says of the waves, read for one product; the other theorems start from here. */
  lemma WaveIsLongestChain(g: Deps, plan: WavePlan, k: nat, n: int)
    requires IsPlan(g, plan)
    ensures Scheduled(plan, k, n) <==> n in g && LongestChain(g, n, k)
  {
    ScheduledIsLayer(g, plan, k, n);
  }

  /** Every product is in exactly one wave or in Cyclic, never in both. */
  lemma ExactlyOnePlace(g: Deps, plan: WavePlan, n: int)
    requires IsPlan(g, plan)
    ensures n in g <==> n in plan.cyclic || exists k :: Scheduled(plan, k, n)
    ensures n in plan.cyclic ==> forall k :: !Scheduled(plan, k, n)
    ensures forall j, k :: Scheduled(plan, j, n) && Scheduled(plan, k, n) ==> j == k
  {
    CyclicIsDependsOnCycle(g, plan, n);
    forall k | Scheduled(plan, k, n) ensures n in g && LongestChain(g, n, k) {
      WaveIsLongestChain(g, plan, k, n);
    }
    if n in g {
      Dichotomy(g, n);
      if !DependsOnCycle(g, n) {
        var k: nat :| LongestChain(g, n, k);
        WaveIsLongestChain(g, plan, k, n);
        assert Scheduled(plan, k, n);
      }
    }
  }

  // ---- Uniqueness ----

  /** A dependency relation has one plan only, so neither the order of map iteration nor
      repeated edges can show in the result. */
  lemma PlanUnique(g: Deps, p: WavePlan, q: WavePlan)
    requires IsPlan(g, p) && IsPlan(g, q)
    ensures p == q
  {
    IntLeqTotal();
    SameWaveCount(g, p, q);
    SameWaveCount(g, q, p);
    forall k | 0 <= k < |p.waves| ensures p.waves[k] == q.waves[k] {
      ListsUnique(IntLeq, p.waves[k].products, q.waves[k].products, Layer(g, k));
    }
    ListsUnique(IntLeq, p.cyclic, q.cyclic, CyclicProducts(g));
  }

  lemma SameWaveCount(g: Deps, p: WavePlan, q: WavePlan)
    requires IsPlan(g, p) && IsPlan(g, q)
    ensures |p.waves| >= |q.waves|
  {
    if |p.waves| < |q.waves| {
      LayerInhabited(g, q, |p.waves|);
    }
  }

  lemma LayerInhabited(g: Deps, plan: WavePlan, k: nat)
    requires IsPlan(g, plan) && k < |plan.waves|
    ensures Layer(g, k) != {}
  {
    assert plan.waves[k].products[0] in Elems(plan.waves[k].products);
  }

  // ---- Conservation ----

  ghost function Flatten(order: seq<seq<int>>): seq<int> {
    if order == [] then [] else Flatten(order[..|order| - 1]) + order[|order| - 1]
  }

  ghost function WaveLists(waves: seq<Wave>): seq<seq<int>> {
    seq(|waves|, k requires 0 <= k < |waves| => waves[k].products)
  }

  /** `order` runs the waves in sequence, each wave's products in any permutation. */
  ghost predicate RunsPlan(plan: WavePlan, order: seq<seq<int>>) {
    |order| == |plan.waves|
    && forall k :: 0 <= k < |order| ==> multiset(order[k]) == multiset(plan.waves[k].products)
  }

  /** Every product comes after all of its upstream products. */
  ghost predicate Topological(g: Deps, s: seq<int>) {
    Distinct(s) && forall i :: 0 <= i < |s| ==> s[i] in g && g[s[i]] <= Elems(s[..i])
  }

  lemma TopologicalAppend(g: Deps, s: seq<int>, t: seq<int>)
    requires Topological(g, s) && Distinct(t)
    requires forall n :: n in t ==> n in g && n !in s && g[n] <= Elems(s)
    ensures Topological(g, s + t)
    ensures Elems(s + t) == Elems(s) + Elems(t)
  {
    forall n | n in t ensures n !in s {}
    DistinctConcat(s, t);
    forall i | 0 <= i < |s + t| ensures (s + t)[i] in g && g[(s + t)[i]] <= Elems((s + t)[..i]) {
      if i < |s| {
        assert (s + t)[..i] == s[..i];
      } else {
        assert (s + t)[i] == t[i - |s|];
        assert (s + t)[..i] == s + t[..i - |s|];
      }
    }
  }

  lemma {:induction false} RunPrefix(g: Deps, plan: WavePlan, order: seq<seq<int>>, k: nat)
    requires Closed(g) && IsPlan(g, plan) && RunsPlan(plan, order) && k <= |order|
    ensures Topological(g, Flatten(order[..k]))
    ensures Elems(Flatten(order[..k])) == Below(g, k)
  {
    if k == 0 {
      BelowZero(g);
    } else {
      var s := Flatten(order[..k - 1]);
      var t := order[k - 1];
      var w := plan.waves[k - 1].products;
      RunPrefix(g, plan, order, k - 1);
      assert order[..k][..k - 1] == order[..k - 1];
      assert Flatten(order[..k]) == s + t;
      PermutationFacts(w, t);
      BelowGrows(g, k - 1);
      forall n | n in t ensures n in g && n !in s && g[n] <= Elems(s) {
        assert n in Elems(t) && n in Layer(g, k - 1);
        assert n !in Elems(s);
        BelowByUpstreams(g, n, k - 1);
      }
      TopologicalAppend(g, s, t);
    }
  }

  /** Running the waves in order puts every product after its upstreams, whatever the order
      inside a wave; exactly the products outside Cyclic are run, once each. */
  lemma RunIsTopological(g: Deps, plan: WavePlan, order: seq<seq<int>>)
    requires Closed(g) && IsPlan(g, plan) && RunsPlan(plan, order)
    ensures Topological(g, Flatten(order))
    ensures Elems(Flatten(order)) == g.Keys - Elems(plan.cyclic)
  {
    assert order[..|order|] == order;
    RunPrefix(g, plan, order, |order|);
    EmptyLayerEnds(g, |order|);
  }

  /** Conservation: waves and Cyclic together list every product exactly once. */
  lemma Conservation(g: Deps, plan: WavePlan)
    requires Closed(g) && IsPlan(g, plan)
    ensures multiset(Flatten(WaveLists(plan.waves)) + plan.cyclic) == multiset(g.Keys)
  {
    var run := Flatten(WaveLists(plan.waves));
    RunIsTopological(g, plan, WaveLists(plan.waves));
    forall n | n in plan.cyclic ensures n !in run {
      assert n in Elems(plan.cyclic) && n !in g.Keys - Elems(plan.cyclic);
    }
    DistinctConcat(run, plan.cyclic);
    assert Elems(run + plan.cyclic) == g.Keys;
    DistinctCount(run + plan.cyclic);
  }

  /** Nothing is left over exactly when the graph has no cycle, and then the run covers everything. */
  lemma CyclicEmptyIffAcyclic(g: Deps, plan: WavePlan)
    requires IsPlan(g, plan)
    ensures plan.cyclic == [] <==> Acyclic(g)
  {
    if m :| m in g && OnCycle(g, m) {
      OnCycleDepends(g, m);
      CyclicIsDependsOnCycle(g, plan, m);
    }
    if plan.cyclic != [] {
      var n := plan.cyclic[0];
      CyclicIsDependsOnCycle(g, plan, n);
      var m :| Reaches(g, n, m) && OnCycle(g, m);
      OnCycleDepends(g, m);
    }
  }

  // ---- The wave number as a recurrence ----

  /** Wave 0 iff there is no upstream; otherwise one more than the latest upstream wave. */
  lemma WaveIsOnePlusLatest(g: Deps, plan: WavePlan, k: nat, n: int)
    requires Closed(g) && IsPlan(g, plan) && n in g
    ensures Scheduled(plan, k, n) <==>
      && (forall u :: u in g[n] ==> exists j :: j < k && Scheduled(plan, j, u))
      && (k == 0 || exists u :: u in g[n] && Scheduled(plan, k - 1, u))
  {
    BelowGrows(g, k);
    BelowByUpstreams(g, n, k);
    ScheduledIsLayer(g, plan, k, n);
    forall u | u in g[n] ensures u in Below(g, k) <==> exists j :: j < k && Scheduled(plan, j, u) {
      BelowIsScheduled(g, plan, k, u);
    }
    SubsetByMembers(g[n], Below(g, k));
    if k == 0 {
      BelowZero(g);
    } else {
      BelowByUpstreams(g, n, k - 1);
      BelowGrows(g, k - 1);
      forall u | u in g[n] ensures Scheduled(plan, k - 1, u) <==> u in Layer(g, k - 1) {
        ScheduledIsLayer(g, plan, k - 1, u);
      }
      if g[n] <= Below(g, k) && !(g[n] <= Below(g, k - 1)) {
        var u :| u in g[n] && u !in Below(g, k - 1);
        assert u in Layer(g, k - 1);
      }
    }
  }

  lemma SubsetByMembers(a: set<int>, b: set<int>)
    ensures a <= b <==> forall u :: u in a ==> u in b
  {
    if forall u :: u in a ==> u in b {
      forall u | u in a ensures u in b {}
    }
  }

  lemma {:induction false} BelowIsScheduled(g: Deps, plan: WavePlan, k: nat, n: int)
    requires IsPlan(g, plan)
    ensures n in Below(g, k) <==> exists j :: j < k && Scheduled(plan, j, n)
  {
    if k == 0 {
      BelowZero(g);
    } else {
      BelowIsScheduled(g, plan, k - 1, n);
      BelowGrows(g, k - 1);
      ScheduledIsLayer(g, plan, k - 1, n);
    }
  }

  // ---- Optimality ----

  /** A schedule gives products a round each, every upstream of a scheduled product earlier. */
  ghost predicate IsSchedule(g: Deps, rounds: map<int, nat>) {
    forall n :: n in rounds ==> n in g && forall u :: u in g[n] ==> u in rounds && rounds[u] < rounds[n]
  }

  /** No schedule can run a product before its wave, and none can run a Cyclic product at all. */
  lemma PlanIsEarliest(g: Deps, plan: WavePlan, rounds: map<int, nat>, n: int)
    requires IsPlan(g, plan) && IsSchedule(g, rounds) && n in rounds
    ensures n !in plan.cyclic
    ensures exists k :: Scheduled(plan, k, n) && k <= rounds[n]
  {
    ScheduleBoundsChains(g, rounds, n, rounds[n] + 1);
    CycleIffLongChain(g, n);
    CyclicIsDependsOnCycle(g, plan, n);
    ExactlyOnePlace(g, plan, n);
    var k :| Scheduled(plan, k, n);
    WaveIsLongestChain(g, plan, k, n);
    if k > rounds[n] {
      ChainShorter(g, n, k, rounds[n] + 1);
    }
  }

  lemma {:induction false} ScheduleBoundsChains(g: Deps, rounds: map<int, nat>, n: int, k: nat)
    requires IsSchedule(g, rounds) && n in rounds && k > rounds[n]
    ensures !HasChain(g, n, k)
    decreases k
  {
    if HasChain(g, n, k) {
      ChainStep(g, n, k - 1);
      var u :| DependsOn(g, n, u) && HasChain(g, u, k - 1);
      ScheduleBoundsChains(g, rounds, u, k - 1);
    }
  }

  /** The plan's own wave numbers are such a schedule, of everything outside Cyclic. */
  lemma PlanIsSchedule(g: Deps, plan: WavePlan) returns (rounds: map<int, nat>)
    requires Closed(g) && IsPlan(g, plan)
    ensures IsSchedule(g, rounds)
    ensures rounds.Keys == g.Keys - Elems(plan.cyclic)
    ensures forall n :: n in rounds ==> Scheduled(plan, rounds[n], n)
  {
    var free := g.Keys - Elems(plan.cyclic);
    forall n | n in free ensures exists k: nat :: Scheduled(plan, k, n) {
      ExactlyOnePlace(g, plan, n);
      var k :| Scheduled(plan, k, n);
      assert k >= 0;
    }
    rounds := map n | n in free :: WaveOf(plan, n);
    forall n, u | n in rounds && u in g[n] ensures u in rounds && rounds[u] < rounds[n] {
      WaveIsOnePlusLatest(g, plan, rounds[n], n);
      var j :| j < rounds[n] && Scheduled(plan, j, u);
      ExactlyOnePlace(g, plan, u);
    }
  }

  ghost function WaveOf(plan: WavePlan, n: int): (k: nat)
    requires exists k: nat :: Scheduled(plan, k, n)
    ensures Scheduled(plan, k, n)
  {
    var k: nat :| Scheduled(plan, k, n);
    k
  }

  /** A dependency chain with one product per wave shows that fewer waves cannot do. */
  lemma ChainThroughAllWaves(g: Deps, plan: WavePlan) returns (chain: seq<int>)
    requires IsPlan(g, plan) && plan.waves != []
    ensures IsWalk(g, chain) && |chain| == |plan.waves|
    ensures forall rounds ::
      IsSchedule(g, rounds) && chain[0] in rounds ==> rounds[chain[0]] >= |plan.waves| - 1
  {
    var k := |plan.waves| - 1;
    var n := plan.waves[k].products[0];
    WaveIsLongestChain(g, plan, k, n);
    chain :| WalkFrom(g, n, chain) && |chain| == k + 1;
    forall rounds | IsSchedule(g, rounds) && n in rounds ensures rounds[n] >= k {
      PlanIsEarliest(g, plan, rounds, n);
      var j :| Scheduled(plan, j, n) && j <= rounds[n];
      ExactlyOnePlace(g, plan, n);
    }
  }

  // ---- Cyclic ----

  /** Every product on a cycle is in Cyclic, and every member of Cyclic has an upstream there. */
  lemma CyclicIsUpstreamClosed(g: Deps, plan: WavePlan, n: int)
    requires IsPlan(g, plan)
    ensures OnCycle(g, n) ==> n in plan.cyclic
    ensures n in g ==> (n in plan.cyclic <==> exists u :: u in g[n] && u in plan.cyclic)
  {
    if OnCycle(g, n) {
      OnCycleDepends(g, n);
    }
    CyclicIsDependsOnCycle(g, plan, n);
    if n in plan.cyclic {
      var u := CycleUpstream(g, n);
      assert u in g by {
        CycleHasChains(g, u, 0);
        ChainZero(g, u);
      }
      CyclicIsDependsOnCycle(g, plan, u);
    }
    if n in g {
      if u :| u in g[n] && u in plan.cyclic {
        CyclicIsDependsOnCycle(g, plan, u);
        assert DependsOn(g, n, u);
        DownstreamOfCycle(g, n, u);
      }
    }
  }

  /** A non-empty Cyclic contains all of some cycle. */
  lemma CyclicContainsCycle(g: Deps, plan: WavePlan) returns (cycle: seq<int>)
    requires IsPlan(g, plan) && plan.cyclic != []
    ensures IsWalk(g, cycle) && |cycle| > 1 && cycle[0] == cycle[|cycle| - 1]
    ensures forall n :: n in cycle ==> n in plan.cyclic
  {
    CyclicIsDependsOnCycle(g, plan, plan.cyclic[0]);
    var m :| Reaches(g, plan.cyclic[0], m) && OnCycle(g, m);
    cycle :| WalkFrom(g, m, cycle) && |cycle| > 1 && cycle[|cycle| - 1] == m;
    forall n | n in cycle ensures n in plan.cyclic {
      var i :| 0 <= i < |cycle| && cycle[i] == n;
      WalkSuffix(g, cycle, i);
      assert Reaches(g, n, m);
      CyclicIsDependsOnCycle(g, plan, n);
    }
  }

  /** When Cyclic holds only products that really take part in a cycle: exactly when nothing
      outside the cycles depends directly on a product on one. */
  lemma CyclicOnlyOnCycleIff(g: Deps, plan: WavePlan)
    requires IsPlan(g, plan)
    ensures (forall n :: n in plan.cyclic ==> OnCycle(g, n))
       <==> (forall d, u :: DependsOn(g, d, u) && OnCycle(g, u) ==> OnCycle(g, d))
  {
    if forall n :: n in plan.cyclic ==> OnCycle(g, n) {
      forall d, u | DependsOn(g, d, u) && OnCycle(g, u) ensures OnCycle(g, d) {
        OnCycleDepends(g, u);
        DownstreamOfCycle(g, d, u);
        CyclicIsDependsOnCycle(g, plan, d);
      }
    }
    if forall d, u :: DependsOn(g, d, u) && OnCycle(g, u) ==> OnCycle(g, d) {
      forall n | n in plan.cyclic ensures OnCycle(g, n) {
        CyclicIsDependsOnCycle(g, plan, n);
        var m :| Reaches(g, n, m) && OnCycle(g, m);
        var p :| WalkFrom(g, n, p) && p[|p| - 1] == m;
        BackAlong(g, p);
      }
    }
  }

  lemma {:induction false} BackAlong(g: Deps, p: seq<int>)
    requires IsWalk(g, p) && OnCycle(g, p[|p| - 1])
    requires forall d, u :: DependsOn(g, d, u) && OnCycle(g, u) ==> OnCycle(g, d)
    ensures OnCycle(g, p[0])
    decreases |p|
  {
    if |p| > 1 {
      WalkSuffix(g, p, 1);
      BackAlong(g, p[1..]);
      assert DependsOn(g, p[0], p[1]);
    }
  }
}
