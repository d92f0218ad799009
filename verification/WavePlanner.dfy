/** The layered Kahn planner (pkg/costcalc/wave_planner.go) and what a plan has to be. */
module WavePlanner {
  import opened Dependencies
  import opened ProductGraph
  import opened Sorting

  datatype Wave = Wave(number: int, products: seq<int>)

  datatype WavePlan = WavePlan(waves: seq<Wave>, cyclic: seq<int>)

  /** The plan a dependency relation calls for: wave k lists, in ascending order, the
      products whose longest chain of upstreams has k steps; no wave is empty and none is
      missing; Cyclic lists the products from which some upstream walk meets a cycle. */
  ghost predicate IsPlan(g: Deps, plan: WavePlan) {
    && IsWavePrefix(g, plan.waves)
    && (forall k: nat :: k >= |plan.waves| ==> Layer(g, k) == {})
    && Lists(IntLeq, plan.cyclic, CyclicProducts(g))
  }

  ghost predicate IsWavePrefix(g: Deps, waves: seq<Wave>) {
    forall k :: 0 <= k < |waves| ==>
      && waves[k].number == k
      && waves[k].products != []
      && Lists(IntLeq, waves[k].products, Layer(g, k))
  }

  /** `rev` lists, for each upstream, every product depending on it exactly once. */
  ghost predicate IsReverse(g: Deps, rev: map<int, seq<int>>) {
    forall u :: Distinct(Lookup(rev, u)) && forall d :: d in Lookup(rev, u) <==> DependsOn(g, d, u)
  }

  /** `inDeg` counts the distinct upstreams that are not in `done`. */
  ghost predicate CountsMissing(g: Deps, inDeg: map<int, int>, done: set<int>) {
    inDeg.Keys == g.Keys && forall n :: n in g ==> inDeg[n] == |g[n] - done|
  }

  /** The distinct edges whose upstream is in `S`. */
  ghost function EdgesFrom(g: Deps, S: set<int>): set<(int, int)> {
    set d, u | d in g && u in g[d] && u in S :: (d, u)
  }

  // ---- In-degrees and reverse adjacency ----

  /** Each edge counted once, however often the graph stores it. */
  method CountEdges(g: DependencyGraph, allNodes: seq<int>)
    returns (inDeg: map<int, int>, rev: map<int, seq<int>>)
    requires g.Valid()
    requires Lists(IntLeq, allNodes, g.nodes)
    ensures CountsMissing(g.View(), inDeg, {})
    ensures IsReverse(g.View(), rev)
  {
    ghost var v := g.View();
    rev := map[];
    var seenEdge: set<(int, int)> := {};
    inDeg := ZeroDegrees(allNodes);
    StartCount(v, inDeg);
    assert Elems(allNodes[..0]) == {};
    for i := 0 to |allNodes|
      invariant Counted(Partial(v, Elems(allNodes[..i]), 0, {}), seenEdge, inDeg, rev)
    {
      var n := allNodes[i];
      var ups := g.Upstream(n);
      ghost var whole := Elems(allNodes[..i]);
      AtIndex(allNodes, i);
      StartRow(v, whole, n);
      seenEdge, inDeg, rev := CountRow(v, whole, n, ups, seenEdge, inDeg, rev);
      EndRow(v, allNodes, i, ups);
    }
    EndCount(v, allNodes, seenEdge, inDeg, rev);
  }

  method ZeroDegrees(allNodes: seq<int>) returns (inDeg: map<int, int>)
    ensures inDeg == map n | n in Elems(allNodes) :: 0
  {
    inDeg := map[];
    for i := 0 to |allNodes|
      invariant inDeg == map n | n in Elems(allNodes[..i]) :: 0
    {
      inDeg := inDeg[allNodes[i] := 0];
      assert allNodes[..i + 1] == allNodes[..i] + [allNodes[i]];
    }
    assert allNodes[..|allNodes|] == allNodes;
  }

  /** The inner loop over one product's upstream list. */
  method CountRow(ghost g: Deps, ghost whole: set<int>, n: int, ups: seq<int>,
                  seen0: set<(int, int)>, inDeg0: map<int, int>, rev0: map<int, seq<int>>)
    returns (seenEdge: set<(int, int)>, inDeg: map<int, int>, rev: map<int, seq<int>>)
    requires n in g && n !in whole
    requires Counted(Partial(g, whole, n, {}), seen0, inDeg0, rev0)
    ensures Counted(Partial(g, whole, n, Elems(ups[..|ups|])), seenEdge, inDeg, rev)
  {
    seenEdge, inDeg, rev := seen0, inDeg0, rev0;
    assert Elems(ups[..0]) == {};
    for j := 0 to |ups|
      invariant Counted(Partial(g, whole, n, Elems(ups[..j])), seenEdge, inDeg, rev)
    {
      var u := ups[j];
      CountStep(g, whole, n, ups, j, seenEdge, inDeg, rev);
      if (n, u) !in seenEdge {
        seenEdge := seenEdge + {(n, u)};
        inDeg := inDeg[n := inDeg[n] + 1];
        rev := rev[u := Lookup(rev, u) + [n]];
      }
    }
  }

  /** The relation restricted to the rows in `whole`, with row `n` known as far as `some`. */
  ghost function Partial(g: Deps, whole: set<int>, n: int, some: set<int>): Deps {
    map m | m in g :: if m in whole then g[m] else if m == n then some else {}
  }

  lemma StartCount(g: Deps, inDeg: map<int, int>)
    requires inDeg == map n | n in g :: 0
    ensures Counted(Partial(g, {}, 0, {}), {}, inDeg, map[])
  {
  }

  lemma EndCount(g: Deps, allNodes: seq<int>, seen: set<(int, int)>, inDeg: map<int, int>, rev: map<int, seq<int>>)
    requires Elems(allNodes) == g.Keys
    requires Counted(Partial(g, Elems(allNodes[..|allNodes|]), 0, {}), seen, inDeg, rev)
    ensures CountsMissing(g, inDeg, {}) && IsReverse(g, rev)
  {
    assert allNodes[..|allNodes|] == allNodes;
    assert Partial(g, Elems(allNodes), 0, {}) == g;
    forall n | n in g ensures inDeg[n] == |g[n] - {}| {
      assert g[n] - {} == g[n];
    }
  }

  lemma AtIndex(s: seq<int>, i: nat)
    requires Distinct(s) && i < |s|
    ensures s[i] in Elems(s) && s[i] !in Elems(s[..i])
  {
  }

  lemma StartRow(g: Deps, whole: set<int>, n: int)
    ensures Partial(g, whole, n, {}) == Partial(g, whole, 0, {})
  {
  }

  /** One pass of the inner loop: a new edge is counted, a repeated one changes nothing. */
  lemma CountStep(g: Deps, whole: set<int>, n: int, ups: seq<int>, j: nat,
                  seen: set<(int, int)>, inDeg: map<int, int>, rev: map<int, seq<int>>)
    requires n in g && n !in whole && j < |ups|
    requires Counted(Partial(g, whole, n, Elems(ups[..j])), seen, inDeg, rev)
    ensures n in inDeg
    ensures var u := ups[j]; var part := Partial(g, whole, n, Elems(ups[..j + 1]));
      if (n, u) in seen then Counted(part, seen, inDeg, rev)
      else Counted(part, seen + {(n, u)}, inDeg[n := inDeg[n] + 1], rev[u := Lookup(rev, u) + [n]])
  {
    var part := Partial(g, whole, n, Elems(ups[..j]));
    assert ups[..j + 1] == ups[..j] + [ups[j]];
    assert Elems(ups[..j + 1]) == Elems(ups[..j]) + {ups[j]};
    assert Partial(g, whole, n, Elems(ups[..j + 1])) == part[n := part[n] + {ups[j]}];
    if (n, ups[j]) in seen {
      assert DependsOn(part, n, ups[j]);
      assert part[n] + {ups[j]} == part[n];
      assert part[n := part[n]] == part;
    } else {
      CountOne(part, seen, inDeg, rev, n, ups[j]);
    }
  }

  lemma EndRow(g: Deps, allNodes: seq<int>, i: nat, ups: seq<int>)
    requires i < |allNodes| && allNodes[i] in g && g[allNodes[i]] == Elems(ups)
    ensures Partial(g, Elems(allNodes[..i]), allNodes[i], Elems(ups[..|ups|]))
         == Partial(g, Elems(allNodes[..i + 1]), 0, {})
  {
    assert ups[..|ups|] == ups;
    assert allNodes[..i + 1] == allNodes[..i] + [allNodes[i]];
  }

  /** The edges in `part` are the ones seen, counted and reversed so far. */
  ghost predicate Counted(part: Deps, seen: set<(int, int)>, inDeg: map<int, int>, rev: map<int, seq<int>>) {
    && (forall d, u :: (d, u) in seen <==> DependsOn(part, d, u))
    && inDeg.Keys == part.Keys
    && (forall n :: n in part ==> inDeg[n] == |part[n]|)
    && IsReverse(part, rev)
  }

  lemma CountOne(part: Deps, seen: set<(int, int)>, inDeg: map<int, int>, rev: map<int, seq<int>>, n: int, u: int)
    requires Counted(part, seen, inDeg, rev) && n in part && (n, u) !in seen
    ensures Counted(part[n := part[n] + {u}], seen + {(n, u)},
                    inDeg[n := inDeg[n] + 1], rev[u := Lookup(rev, u) + [n]])
  {
    var next := part[n := part[n] + {u}];
    var rev' := rev[u := Lookup(rev, u) + [n]];
    assert !DependsOn(part, n, u);
    forall v
      ensures Distinct(Lookup(rev', v)) && forall d :: d in Lookup(rev', v) <==> DependsOn(next, d, v)
    {
      assert Distinct(Lookup(rev, v)) && forall d :: d in Lookup(rev, v) <==> DependsOn(part, d, v);
    }
  }

  // ---- The first frontier ----

  /** The map is walked in no particular order; sorting makes the result one sequence. */
  method InitialWave(ghost g: Deps, inDeg: map<int, int>) returns (current: seq<int>)
    requires Closed(g) && CountsMissing(g, inDeg, {})
    ensures Lists(IntLeq, current, Layer(g, 0)) && Ascending(current)
  {
    current := [];
    var rest := inDeg.Keys;
    while rest != {}
      invariant rest <= inDeg.Keys
      invariant ZeroesOutside(inDeg, rest, current)
      decreases |rest|
    {
      ghost var some := Inhabited(rest);
      var n :| n in rest;
      ZeroesStep(inDeg, rest, n, current);
      rest := rest - {n};
      if inDeg[n] == 0 {
        current := current + [n];
      }
    }
    LayerZero(g, inDeg, current);
    current := SortIds(current);
  }

  /** The products of in-degree zero outside `rest`, each once. */
  ghost predicate ZeroesOutside(inDeg: map<int, int>, rest: set<int>, current: seq<int>) {
    && Distinct(current)
    && forall n :: n in current <==> n in inDeg && n !in rest && inDeg[n] == 0
  }

  lemma ZeroesStep(inDeg: map<int, int>, rest: set<int>, n: int, current: seq<int>)
    requires ZeroesOutside(inDeg, rest, current) && n in rest && n in inDeg
    ensures ZeroesOutside(inDeg, rest - {n}, if inDeg[n] == 0 then current + [n] else current)
  {
  }

  lemma LayerZero(g: Deps, inDeg: map<int, int>, current: seq<int>)
    requires Closed(g) && CountsMissing(g, inDeg, {}) && ZeroesOutside(inDeg, {}, current)
    ensures Elems(current) == Layer(g, 0)
  {
    forall n ensures n in Elems(current) <==> n in Layer(g, 0) {
      if n in g {
        NoneMissing(g[n], {});
        InLayerZero(g, n);
      }
    }
  }

  lemma InLayerZero(g: Deps, n: int)
    requires Closed(g) && n in g
    ensures n in Layer(g, 0) <==> g[n] <= {}
  {
    BelowZero(g);
    BelowGrows(g, 0);
    BelowByUpstreams(g, n, 0);
  }

  // ---- One round ----

  /** Releases the products whose last missing upstream is in `current`. */
  method Release(ghost g: Deps, ghost done: set<int>, current: seq<int>,
                 inDeg0: map<int, int>, rev: map<int, seq<int>>)
    returns (inDeg: map<int, int>, next: seq<int>, ghost decrements: nat)
    requires Closed(g) && CountsMissing(g, inDeg0, done) && IsReverse(g, rev)
    requires Distinct(current) && Elems(current) !! done
    ensures CountsMissing(g, inDeg, done + Elems(current))
    ensures Distinct(next)
    ensures forall d :: d in next <==> d in g && g[d] <= done + Elems(current) && !(g[d] <= done)
    ensures decrements == |EdgesFrom(g, Elems(current))|
  {
    inDeg, next, decrements := inDeg0, [], 0;
    StartRelease(g, done, inDeg);
    for i := 0 to |current|
      invariant Released(g, done, Elems(current[..i]), inDeg, next, decrements)
    {
      AtIndex(current, i);
      inDeg, next, decrements :=
        ReleaseRow(g, done, Elems(current[..i]), current[i], Lookup(rev, current[i]), inDeg, next, decrements);
      Snoc({}, current, i);
    }
    assert current[..|current|] == current;
    ReleaseDone(g, done, done + Elems(current), inDeg, next);
  }

  /** The products of `round` have been processed. */
  ghost predicate Released(g: Deps, done: set<int>, round: set<int>, inDeg: map<int, int>, next: seq<int>,
                           decrements: nat)
  {
    Releasing(g, done, done + round, 0, [], inDeg, next) && decrements == |EdgesFrom(g, round)|
  }

  /** The inner loop over one reverse list: one decrement for each entry. */
  method ReleaseRow(ghost g: Deps, ghost done: set<int>, ghost round: set<int>, ghost n: int, downs: seq<int>,
                    inDeg0: map<int, int>, next0: seq<int>, ghost decrements0: nat)
    returns (inDeg: map<int, int>, next: seq<int>, ghost decrements: nat)
    requires Released(g, done, round, inDeg0, next0, decrements0)
    requires Distinct(downs) && n !in round && n !in done
    requires forall d :: d in downs <==> DependsOn(g, d, n)
    ensures Released(g, done, round + {n}, inDeg, next, decrements)
  {
    inDeg, next, decrements := inDeg0, next0, decrements0;
    ghost var before := done + round;
    for j := 0 to |downs|
      invariant Releasing(g, done, before, n, downs[..j], inDeg, next)
      invariant decrements == decrements0 + j
    {
      var d := downs[j];
      ReleaseStep(g, done, before, n, downs, j, inDeg, next);
      inDeg := inDeg[d := inDeg[d] - 1];
      decrements := decrements + 1;
      if inDeg[d] == 0 {
        next := next + [d];
      }
    }
    RowReleased(g, done, round, n, downs, inDeg, next);
  }

  lemma RowReleased(g: Deps, done: set<int>, round: set<int>, n: int, downs: seq<int>,
                    inDeg: map<int, int>, next: seq<int>)
    requires Releasing(g, done, done + round, n, downs[..|downs|], inDeg, next)
    requires Distinct(downs) && n !in round && n !in done
    requires forall d :: d in downs <==> DependsOn(g, d, n)
    ensures Released(g, done, round + {n}, inDeg, next, |EdgesFrom(g, round)| + |downs|)
  {
    RowDone(g, done, done + round, n, downs, inDeg, next);
    EdgesFromGrows(g, round, n, downs);
    assert (done + round) + {n} == done + (round + {n});
  }

  lemma Snoc(done: set<int>, current: seq<int>, i: nat)
    requires i < |current|
    ensures Elems(current[..i + 1]) == Elems(current[..i]) + {current[i]}
    ensures done + Elems(current[..i + 1]) == done + Elems(current[..i]) + {current[i]}
  {
    assert current[..i + 1] == current[..i] + [current[i]];
  }

  /** The upstreams in `before` are accounted for everywhere, `n` for those in `visited`;
      `next` holds, once each, the products that have reached zero since `done`. */
  ghost predicate Releasing(g: Deps, done: set<int>, before: set<int>, n: int, visited: seq<int>,
                            inDeg: map<int, int>, next: seq<int>)
  {
    && inDeg.Keys == g.Keys
    && (forall d :: d in g ==> inDeg[d] == |g[d] - before| - if d in visited then 1 else 0)
    && Distinct(next)
    && (forall d :: d in next <==> d in g && inDeg[d] == 0 && !(g[d] <= done))
  }

  lemma StartRelease(g: Deps, done: set<int>, inDeg: map<int, int>)
    requires CountsMissing(g, inDeg, done)
    ensures Released(g, done, {}, inDeg, [], 0)
  {
    assert done + {} == done;
    assert EdgesFrom(g, {}) == {};
    forall d | d in g && inDeg[d] == 0 ensures g[d] <= done {
      assert |g[d] - done| == 0;
    }
  }

  lemma ReleaseStep(g: Deps, done: set<int>, before: set<int>, n: int, downs: seq<int>, j: nat,
                    inDeg: map<int, int>, next: seq<int>)
    requires j < |downs| && Releasing(g, done, before, n, downs[..j], inDeg, next)
    requires Distinct(downs) && n !in before && done <= before
    requires forall d :: d in downs <==> DependsOn(g, d, n)
    ensures downs[j] in inDeg && inDeg[downs[j]] > 0
    ensures var d := downs[j]; var inDeg' := inDeg[d := inDeg[d] - 1];
      Releasing(g, done, before, n, downs[..j + 1], inDeg', if inDeg'[d] == 0 then next + [d] else next)
  {
    var d := downs[j];
    StillMissing(g, before, n, d);
    assert d !in downs[..j];
    assert downs[..j + 1] == downs[..j] + [d];
    DistinctSnoc(next, d);
  }

  lemma StillMissing(g: Deps, before: set<int>, n: int, d: int)
    requires DependsOn(g, d, n) && n !in before
    ensures d in g && |g[d] - before| > 0
    ensures forall done | done <= before :: !(g[d] <= done)
  {
    assert n in g[d] - before;
  }

  lemma RowDone(g: Deps, done: set<int>, before: set<int>, n: int, downs: seq<int>,
                inDeg: map<int, int>, next: seq<int>)
    requires n !in before && Releasing(g, done, before, n, downs[..|downs|], inDeg, next)
    requires forall d :: d in downs <==> DependsOn(g, d, n)
    ensures Releasing(g, done, before + {n}, 0, [], inDeg, next)
  {
    assert downs[..|downs|] == downs;
    forall d | d in g ensures inDeg[d] == |g[d] - (before + {n})| {
      if n in g[d] {
        assert DependsOn(g, d, n);
        assert g[d] - before == (g[d] - (before + {n})) + {n};
      } else {
        assert g[d] - before == g[d] - (before + {n});
      }
    }
  }

  lemma ReleaseDone(g: Deps, done: set<int>, after: set<int>, inDeg: map<int, int>, next: seq<int>)
    requires Releasing(g, done, after, 0, [], inDeg, next)
    ensures CountsMissing(g, inDeg, after)
    ensures Distinct(next)
    ensures forall d :: d in next <==> d in g && g[d] <= after && !(g[d] <= done)
  {
    forall d | d in g ensures inDeg[d] == |g[d] - after| && (inDeg[d] == 0 <==> g[d] <= after) {
      NoneMissing(g[d], after);
    }
  }

  lemma NoneMissing(ups: set<int>, after: set<int>)
    ensures |ups - after| == 0 <==> ups <= after
  {
    if |ups - after| == 0 {
      forall u | u in ups ensures u in after {
        assert u !in ups - after;
      }
    }
    if ups <= after {
      assert ups - after == {};
    }
  }

  lemma EdgesFromGrows(g: Deps, S: set<int>, n: int, ds: seq<int>)
    requires n !in S && Distinct(ds)
    requires forall d :: d in ds <==> DependsOn(g, d, n)
    ensures |EdgesFrom(g, S + {n})| == |EdgesFrom(g, S)| + |ds|
  {
    var row := set d | d in ds :: (d, n);
    PairCount(ds, n);
    assert EdgesFrom(g, S + {n}) == EdgesFrom(g, S) + row;
    assert EdgesFrom(g, S) !! row;
  }

  lemma {:induction false} PairCount(ds: seq<int>, n: int)
    requires Distinct(ds)
    ensures |set d | d in ds :: (d, n)| == |ds|
  {
    if ds != [] {
      var z := |ds| - 1;
      PairCount(ds[..z], n);
      assert ds == ds[..z] + [ds[z]];
      assert (set d | d in ds :: (d, n)) == (set d | d in ds[..z] :: (d, n)) + {(ds[z], n)};
    }
  }

  // ---- The planner ----

  /** Always the plan the relation calls for. `decrements` counts the executions of the
      in-degree decrement: one for each distinct edge whose upstream was scheduled. */
  method PlanWaves(g: DependencyGraph) returns (plan: WavePlan, ghost decrements: nat)
    requires g.Valid()
    ensures IsPlan(g.View(), plan)
    ensures Ascending(plan.cyclic)
    ensures forall k :: 0 <= k < |plan.waves| ==> plan.waves[k].number == k && Ascending(plan.waves[k].products)
    ensures decrements == |EdgesFrom(g.View(), g.nodes - Elems(plan.cyclic))|
  {
    ghost var v := g.View();
    g.ViewMeaning();
    var allNodes := g.Nodes();
    var inDeg, rev := CountEdges(g, allNodes);
    var current := InitialWave(v, inDeg);

    plan := WavePlan([], []);
    var waveNo: nat := 0;
    var visited: set<int> := {};
    decrements := 0;
    BelowZero(v);
    assert EdgesFrom(v, {}) == {};
    while |current| > 0
      invariant waveNo == |plan.waves| && plan.cyclic == []
      invariant IsWavePrefix(v, plan.waves)
      invariant visited == Below(v, waveNo)
      invariant Lists(IntLeq, current, Layer(v, waveNo))
      invariant CountsMissing(v, inDeg, visited)
      invariant decrements == |EdgesFrom(v, visited)|
      decreases v.Keys - visited
    {
      ghost var done := visited;
      visited := Visit(visited, current);
      AppendWave(v, plan.waves, current);
      plan := plan.(waves := plan.waves + [Wave(waveNo, current)]);

      var next;
      ghost var work;
      BelowGrows(v, waveNo);
      inDeg, next, work := Release(v, done, current, inDeg, rev);
      EdgesFromUnion(v, done, Elems(current));
      decrements := decrements + work;
      NextLayer(v, waveNo, next);
      current := SortIds(next);
      waveNo := waveNo + 1;
    }

    assert Layer(v, waveNo) == Elems([]);
    EmptyLayerEnds(v, waveNo);
    var cyclic := Unvisited(allNodes, visited);
    plan := plan.(cyclic := cyclic);
    assert g.nodes - Elems(plan.cyclic) == visited;
    PlanAscending(v, plan);
  }

  lemma PlanAscending(g: Deps, plan: WavePlan)
    requires IsPlan(g, plan)
    ensures Ascending(plan.cyclic)
    ensures forall k :: 0 <= k < |plan.waves| ==> Ascending(plan.waves[k].products)
  {
    ListsAscending(plan.cyclic, CyclicProducts(g));
    forall k | 0 <= k < |plan.waves| ensures Ascending(plan.waves[k].products) {
      ListsAscending(plan.waves[k].products, Layer(g, k));
    }
  }

  method Visit(before: set<int>, current: seq<int>) returns (visited: set<int>)
    ensures visited == before + Elems(current)
  {
    visited := before;
    for i := 0 to |current|
      invariant visited == before + Elems(current[..i])
    {
      Snoc(before, current, i);
      visited := visited + {current[i]};
    }
    assert current[..|current|] == current;
  }

  method Unvisited(allNodes: seq<int>, visited: set<int>) returns (cyclic: seq<int>)
    requires Distinct(allNodes)
    ensures Lists(IntLeq, cyclic, Elems(allNodes) - visited) && Ascending(cyclic)
  {
    cyclic := [];
    for i := 0 to |allNodes|
      invariant Distinct(cyclic)
      invariant Elems(cyclic) == Elems(allNodes[..i]) - visited
    {
      var n := allNodes[i];
      Snoc({}, allNodes, i);
      if n !in visited {
        assert n !in Elems(allNodes[..i]) && n !in Elems(cyclic);
        DistinctSnoc(cyclic, n);
        cyclic := cyclic + [n];
      }
    }
    assert allNodes[..|allNodes|] == allNodes;
    cyclic := SortIds(cyclic);
  }

  lemma AppendWave(g: Deps, waves: seq<Wave>, current: seq<int>)
    requires IsWavePrefix(g, waves)
    requires current != [] && Lists(IntLeq, current, Layer(g, |waves|))
    ensures IsWavePrefix(g, waves + [Wave(|waves|, current)])
    ensures Layer(g, |waves|) != {}
  {
    assert current[0] in Elems(current);
  }

  lemma NextLayer(g: Deps, k: nat, next: seq<int>)
    requires Closed(g)
    requires forall d :: d in next <==> d in g && g[d] <= Below(g, k) + Layer(g, k) && !(g[d] <= Below(g, k))
    ensures Elems(next) == Layer(g, k + 1)
  {
    BelowGrows(g, k);
    BelowGrows(g, k + 1);
    forall d ensures d in Elems(next) <==> d in Layer(g, k + 1) {
      if d in g {
        BelowByUpstreams(g, d, k);
        BelowByUpstreams(g, d, k + 1);
      }
    }
  }

  lemma EdgesFromUnion(g: Deps, S: set<int>, T: set<int>)
    requires S !! T
    ensures |EdgesFrom(g, S + T)| == |EdgesFrom(g, S)| + |EdgesFrom(g, T)|
  {
    assert EdgesFrom(g, S + T) == EdgesFrom(g, S) + EdgesFrom(g, T);
    assert EdgesFrom(g, S) !! EdgesFrom(g, T);
  }
}
