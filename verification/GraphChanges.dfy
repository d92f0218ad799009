/** How plans of related graphs compare: sub-graphs, added edges, orders of construction. */
module GraphChanges {
  import opened Dependencies
  import opened PlanTheorems
  import opened ProductGraph
  import opened Sorting
  import opened WavePlanner

  // ---- Restriction ----

  /** `S` contains the upstreams of its members. */
  ghost predicate UpstreamClosed(g: Deps, S: set<int>) {
    S <= g.Keys && forall n, u :: n in S && u in g[n] ==> u in S
  }

  ghost function Restrict(g: Deps, S: set<int>): Deps
    requires S <= g.Keys
  {
    map n | n in S :: g[n]
  }

  lemma {:induction false} ChainsStayInside(g: Deps, S: set<int>, n: int, k: nat)
    requires UpstreamClosed(g, S) && n in S
    ensures HasChain(Restrict(g, S), n, k) <==> HasChain(g, n, k)
    decreases k
  {
    var h := Restrict(g, S);
    if k == 0 {
      ChainZero(g, n);
      ChainZero(h, n);
    } else {
      ChainStep(g, n, k - 1);
      ChainStep(h, n, k - 1);
      forall u | DependsOn(g, n, u) ensures DependsOn(h, n, u) && (HasChain(h, u, k - 1) <==> HasChain(g, u, k - 1)) {
        ChainsStayInside(g, S, u, k - 1);
      }
      forall u | DependsOn(h, n, u) ensures DependsOn(g, n, u) {}
    }
  }

  /** Planning an upstream-closed part gives its products the places they have in the whole. */
  lemma RestrictionKeepsPlaces(g: Deps, S: set<int>, whole: WavePlan, part: WavePlan, n: int)
    requires UpstreamClosed(g, S) && n in S
    requires IsPlan(g, whole) && IsPlan(Restrict(g, S), part)
    ensures n in part.cyclic <==> n in whole.cyclic
    ensures forall k :: Scheduled(part, k, n) <==> Scheduled(whole, k, n)
  {
    var h := Restrict(g, S);
    forall k: nat ensures HasChain(h, n, k) <==> HasChain(g, n, k) {
      ChainsStayInside(g, S, n, k);
    }
    CycleIffLongChain(g, n);
    CycleIffLongChain(h, n);
    CyclicIsDependsOnCycle(g, whole, n);
    CyclicIsDependsOnCycle(h, part, n);
    forall k ensures Scheduled(part, k, n) <==> Scheduled(whole, k, n) {
      if k >= 0 {
        WaveIsLongestChain(g, whole, k, n);
        WaveIsLongestChain(h, part, k, n);
      }
    }
  }

  // ---- Monotonicity ----

  /** `h` has every product and every dependency of `g`. */
  ghost predicate Extends(g: Deps, h: Deps) {
    forall n :: n in g ==> n in h && g[n] <= h[n]
  }

  lemma WalksSurvive(g: Deps, h: Deps, p: seq<int>)
    requires Extends(g, h) && IsWalk(g, p)
    ensures IsWalk(h, p)
  {
    forall i | 0 <= i < |p| ensures p[i] in h {
      var n := p[i];
      assert n in g;
    }
    forall i | 0 < i < |p| ensures DependsOn(h, p[i - 1], p[i]) {
      assert DependsOn(g, p[i - 1], p[i]);
    }
  }

  /** More dependencies never make a product earlier, and never break a product off a cycle. */
  lemma ExtensionOnlyDelays(g: Deps, h: Deps, before: WavePlan, after: WavePlan, n: int)
    requires Extends(g, h) && IsPlan(g, before) && IsPlan(h, after)
    ensures n in before.cyclic ==> n in after.cyclic
    ensures forall k :: Scheduled(before, k, n) ==>
      n in after.cyclic || exists j :: j >= k && Scheduled(after, j, n)
  {
    forall k: nat | HasChain(g, n, k) ensures HasChain(h, n, k) {
      var p :| WalkFrom(g, n, p) && |p| == k + 1;
      WalksSurvive(g, h, p);
    }
    CycleIffLongChain(g, n);
    CycleIffLongChain(h, n);
    CyclicIsDependsOnCycle(g, before, n);
    CyclicIsDependsOnCycle(h, after, n);
    ExactlyOnePlace(g, before, n);
    ExactlyOnePlace(h, after, n);
    forall k | Scheduled(before, k, n) && n !in after.cyclic
      ensures exists j :: j >= k && Scheduled(after, j, n)
    {
      WaveIsLongestChain(g, before, k, n);
      var j :| Scheduled(after, j, n);
      WaveIsLongestChain(h, after, j, n);
    }
  }

  lemma AddEdgeOnlyDelays(g: Deps, d: int, u: int, before: WavePlan, after: WavePlan, n: int)
    requires IsPlan(g, before) && IsPlan(WithEdge(g, d, u), after)
    ensures n in before.cyclic ==> n in after.cyclic
    ensures forall k :: Scheduled(before, k, n) ==>
      n in after.cyclic || exists j :: j >= k && Scheduled(after, j, n)
  {
    ExtensionOnlyDelays(g, WithEdge(g, d, u), before, after, n);
  }

  /** What AddEdge(d, u) cannot touch: every product that is not downstream of `d`. */
  lemma AddEdgeFrame(g: Deps, d: int, u: int, before: WavePlan, after: WavePlan, n: int)
    requires Closed(g) && IsPlan(g, before) && IsPlan(WithEdge(g, d, u), after)
    requires n in g && !Reaches(g, n, d)
    ensures n in after.cyclic <==> n in before.cyclic
    ensures forall k :: Scheduled(after, k, n) <==> Scheduled(before, k, n)
  {
    var h := WithEdge(g, d, u);
    var S := set m | m in g && !Reaches(g, m, d);
    assert S <= g.Keys;
    if d in g {
      ReachesSelf(g, d);
    }
    assert d !in S;
    forall m, v | m in S && v in g[m] ensures v in S {
      if Reaches(g, v, d) {
        var p :| WalkFrom(g, v, p) && p[|p| - 1] == d;
        assert DependsOn(g, m, v);
        WalkCons(g, m, p);
      }
    }
    assert UpstreamClosed(g, S) && UpstreamClosed(h, S);
    assert Restrict(h, S) == Restrict(g, S);
    var part := PlanExists(Restrict(g, S));
    RestrictionKeepsPlaces(g, S, before, part, n);
    RestrictionKeepsPlaces(h, S, after, part, n);
  }

  /** Every relation has a plan. */
  lemma PlanExists(g: Deps) returns (plan: WavePlan)
    requires Closed(g)
    ensures IsPlan(g, plan)
  {
    IntLeqTotal();
    var waves: seq<Wave> := [];
    while Layer(g, |waves|) != {}
      invariant IsWavePrefix(g, waves)
      decreases g.Keys - Below(g, |waves|)
    {
      BelowGrows(g, |waves|);
      var products := Listing(Layer(g, |waves|));
      AppendWave(g, waves, products);
      waves := waves + [Wave(|waves|, products)];
    }
    EmptyLayerEnds(g, |waves|);
    var cyclic := Listing(CyclicProducts(g));
    plan := WavePlan(waves, cyclic);
  }

  lemma {:induction false} Listing(S: set<int>) returns (s: seq<int>)
    ensures Lists(IntLeq, s, S)
    decreases |S|
  {
    if S == {} {
      s := [];
    } else {
      var top := Greatest(S);
      var rest := Listing(S - {top});
      assert top !in Elems(rest);
      forall i | 0 <= i < |rest| ensures rest[i] <= top {
        assert rest[i] in Elems(rest);
      }
      DistinctSnoc(rest, top);
      s := rest + [top];
    }
  }

  lemma {:induction false} Greatest(S: set<int>) returns (top: int)
    requires S != {}
    ensures top in S && forall n :: n in S ==> n <= top
    decreases |S|
  {
    var m := Inhabited(S);
    if S == {m} {
      top := m;
    } else {
      var rest := Greatest(S - {m});
      top := if m > rest then m else rest;
      assert forall n | n in S :: n == m || n in S - {m};
    }
  }

  // ---- When an edge closes a cycle ----

  /** On an acyclic graph AddEdge(d, u) makes a cycle exactly when u is d or u already
      depends, directly or not, on d. */
  lemma AddEdgeClosesCycleIff(g: Deps, d: int, u: int)
    requires Closed(g) && Acyclic(g)
    ensures Acyclic(WithEdge(g, d, u)) <==> d != u && !Reaches(g, u, d)
  {
    var h := WithEdge(g, d, u);
    assert DependsOn(h, d, u);
    if d == u {
      assert WalkFrom(h, d, [d, u]) && [d, u][|[d, u]| - 1] == d;
      assert OnCycle(h, d);
    }
    if Reaches(g, u, d) {
      var p :| WalkFrom(g, u, p) && p[|p| - 1] == d;
      WalksSurvive(g, h, p);
      WalkCons(h, d, p);
      assert OnCycle(h, d);
    }
    if m :| m in h && OnCycle(h, m) {
      var c :| WalkFrom(h, m, c) && |c| > 1 && c[|c| - 1] == m;
      if i :| 0 < i < |c| && c[i - 1] == d && c[i] == u {
        // The way round the cycle from u back to d, cut at the first d.
        WalkSuffix(h, c, i);
        WalkPrefix(h, c, i);
        WalkAppend(h, c[i..], c[..i]);
        FirstArrival(g, d, u, c[i..] + c[..i][1..]);
      } else {
        CycleWithoutEdge(g, d, u, c);
      }
    }
  }

  lemma CycleWithoutEdge(g: Deps, d: int, u: int, c: seq<int>)
    requires IsWalk(WithEdge(g, d, u), c) && |c| > 1 && c[|c| - 1] == c[0]
    requires forall i :: 0 < i < |c| ==> c[i - 1] != d || c[i] != u
    ensures c[0] in g && OnCycle(g, c[0])
  {
    var h := WithEdge(g, d, u);
    forall i | 0 < i < |c| ensures DependsOn(g, c[i - 1], c[i]) {
      assert DependsOn(h, c[i - 1], c[i]);
    }
    forall i | 0 <= i < |c| ensures c[i] in g {
      if i + 1 < |c| {
        assert DependsOn(g, c[i], c[i + 1]);
      } else {
        assert DependsOn(g, c[0], c[1]);
      }
    }
    assert WalkFrom(g, c[0], c);
  }

  /** A walk to `d` in the extended graph, cut where it first meets `d`, does not use the new edge. */
  lemma {:induction false} FirstArrival(g: Deps, d: int, u: int, p: seq<int>)
    requires Closed(g) && IsWalk(WithEdge(g, d, u), p) && p[|p| - 1] == d
    ensures p[0] == d || Reaches(g, p[0], d)
    decreases |p|
  {
    if p[0] != d {
      var h := WithEdge(g, d, u);
      WalkSuffix(h, p, 1);
      FirstArrival(g, d, u, p[1..]);
      assert DependsOn(h, p[0], p[1]);
      assert DependsOn(g, p[0], p[1]);
      var q: seq<int>;
      if p[1] == d {
        q := [d];
      } else {
        q :| WalkFrom(g, p[1], q) && q[|q| - 1] == d;
      }
      WalkCons(g, p[0], q);
    }
  }

  // ---- Construction order ----

  datatype Call = AddNode(id: int) | AddEdge(downstream: int, upstream: int)

  /** The relation after a sequence of calls on an empty graph. */
  ghost function Replay(calls: seq<Call>): Deps {
    if calls == [] then map[]
    else Perform(Replay(calls[..|calls| - 1]), calls[|calls| - 1])
  }

  ghost predicate Names(c: Call, n: int) {
    match c
    case AddNode(id) => n == id
    case AddEdge(d, u) => n == d || n == u
  }

  /** Some call names the product. */
  ghost predicate Mentions(calls: seq<Call>, n: int) {
    exists c :: c in calls && Names(c, n)
  }

  ghost function Perform(g: Deps, c: Call): Deps {
    match c
    case AddNode(id) => WithNode(g, id)
    case AddEdge(d, u) => WithEdge(g, d, u)
  }

  lemma PerformMeaning(g: Deps, c: Call)
    requires Closed(g)
    ensures Closed(Perform(g, c))
    ensures forall n :: n in Perform(g, c) <==> n in g || Names(c, n)
    ensures forall d, u :: DependsOn(Perform(g, c), d, u) <==> DependsOn(g, d, u) || c == AddEdge(d, u)
  {
  }

  /** The graph remembers which products and edges were named, and nothing else. */
  lemma {:induction false} ReplayMeaning(calls: seq<Call>)
    ensures Closed(Replay(calls))
    ensures forall n :: n in Replay(calls) <==> Mentions(calls, n)
    ensures forall d, u :: DependsOn(Replay(calls), d, u) <==> AddEdge(d, u) in calls
  {
    if calls != [] {
      var front := calls[..|calls| - 1];
      var last := calls[|calls| - 1];
      ReplayMeaning(front);
      PerformMeaning(Replay(front), last);
      assert calls == front + [last];
      forall n ensures Mentions(calls, n) <==> Mentions(front, n) || Names(last, n) {
        if c :| c in calls && Names(c, n) {
          assert c in front || c == last;
        }
      }
    }
  }

  /** Runs the calls on a graph object and plans it. */
  method BuildAndPlan(calls: seq<Call>) returns (g: DependencyGraph, plan: WavePlan)
    ensures fresh(g) && g.Valid() && g.View() == Replay(calls)
    ensures IsPlan(Replay(calls), plan)
  {
    g := new DependencyGraph();
    for i := 0 to |calls|
      invariant fresh(g) && g.Valid() && g.View() == Replay(calls[..i])
    {
      assert calls[..i + 1][..i] == calls[..i];
      match calls[i]
      case AddNode(id) => g.AddNode(id);
      case AddEdge(d, u) => g.AddEdge(d, u);
    }
    assert calls[..|calls|] == calls;
    ghost var work;
    plan, work := PlanWaves(g);
  }

  /** Canonical output: calls in any order, with any repetitions, that name the same products
      and the same edges give equal plans. */
  lemma CanonicalPlan(a: seq<Call>, b: seq<Call>, p: WavePlan, q: WavePlan)
    requires forall n :: Mentions(a, n) <==> Mentions(b, n)
    requires forall d, u :: AddEdge(d, u) in a <==> AddEdge(d, u) in b
    requires IsPlan(Replay(a), p) && IsPlan(Replay(b), q)
    ensures p == q
  {
    ReplayMeaning(a);
    ReplayMeaning(b);
    var g, h := Replay(a), Replay(b);
    forall n | n in g ensures n in h && g[n] == h[n] {
      assert Mentions(b, n);
      forall u ensures u in g[n] <==> u in h[n] {
        assert DependsOn(g, n, u) <==> DependsOn(h, n, u);
      }
    }
    forall n | n in h ensures n in g {
      assert Mentions(a, n);
    }
    assert g == h;
    PlanUnique(g, p, q);
  }

  // ---- An unvisited product that is on no cycle ----

  /** The smallest graph that has one: 1 depends on itself and 2 depends on 1. */
  lemma UnvisitedOffCycle(plan: WavePlan)
    requires IsPlan(Replay([AddEdge(1, 1), AddEdge(2, 1)]), plan)
    ensures plan == WavePlan([], [1, 2])
    ensures !OnCycle(Replay([AddEdge(1, 1), AddEdge(2, 1)]), 2)
  {
    var g: Deps := map[1 := {1}, 2 := {1}];
    TwoCalls(AddEdge(1, 1), AddEdge(2, 1));
    FirstEdge(map[], 1, 1);
    FirstEdge(map[1 := {1}], 2, 1);
    BehindLoop(g);
    PlanUnique(g, plan, WavePlan([], [1, 2]));
  }

  lemma FirstEdge(g: Deps, d: int, u: int)
    requires d !in g && (u == d || u in g)
    ensures WithEdge(g, d, u) == g[d := {u}]
  {
    var none: set<int> := {};
    assert none + {u} == {u};
  }

  lemma TwoCalls(a: Call, b: Call)
    ensures Replay([a, b]) == Perform(Perform(map[], a), b)
  {
    var calls := [a, b];
    assert calls[..1] == [a] && [a][..0] == [];
    assert Replay([a]) == Perform(Replay([a][..0]), a);
    assert Replay(calls) == Perform(Replay(calls[..1]), b);
  }

  lemma BehindLoop(g: Deps)
    requires g == map[1 := {1}, 2 := {1}]
    ensures IsPlan(g, WavePlan([], [1, 2])) && !OnCycle(g, 2)
  {
    assert DependsOn(g, 1, 1) && DependsOn(g, 2, 1);
    assert WalkFrom(g, 1, [1, 1]) && [1, 1][1] == 1;
    assert OnCycle(g, 1);
    OnCycleDepends(g, 1);
    DownstreamOfCycle(g, 2, 1);
    assert CyclicProducts(g) == {1, 2};
    assert Elems([1, 2]) == {1, 2};
    forall k: nat ensures Layer(g, k) == {} {
      forall n | n in g ensures !LongestChain(g, n, k) {
        Dichotomy(g, n);
      }
    }
    forall c | WalkFrom(g, 2, c) && |c| > 1 ensures c[|c| - 1] != 2 {
      assert DependsOn(g, c[|c| - 2], c[|c| - 1]);
    }
  }
}
