/** Collecting the dependency graph of a calculation scope
    (services/finance-cost-orchestrator/internal/orchestrator/dag_builder.go). */
module DagBuilder {
  import opened Dependencies
  import opened GraphChanges
  import opened PlanTheorems
  import opened ProductGraph
  import opened Sorting
  import opened WavePlanner

  /** The route table as the edge query sees it: (downstream, upstream) rows, repeats allowed. */
  type Rows = seq<(int, int)>

  /** Every product the table or the starting set mentions, with its upstreams in the table. */
  ghost function Table(rows: Rows, initial: set<int>): Deps {
    map n | n in Universe(rows, initial) :: Ups(rows, n)
  }

  ghost function Universe(rows: Rows, initial: set<int>): set<int> {
    initial + (set e | e in rows :: e.0) + (set e | e in rows :: e.1)
  }

  ghost function Ups(rows: Rows, n: int): set<int> {
    set e | e in rows && e.0 == n :: e.1
  }

  /** The products some starting product depends on, directly or not, itself included. */
  ghost function Scope(rows: Rows, initial: set<int>): set<int> {
    set n | n in Universe(rows, initial) && exists i :: i in initial && Reaches(Table(rows, initial), i, n)
  }

  /** The rows whose downstream product is in the batch, as often as the table holds them. */
  method LoadEdges(rows: Rows, batch: seq<int>) returns (edges: Rows)
    ensures forall e :: multiset(edges)[e] == if e.0 in batch then multiset(rows)[e] else 0
    ensures forall e :: e in edges <==> e in rows && e.0 in batch
  {
    edges := [];
    for i := 0 to |rows|
      invariant forall e :: multiset(edges)[e] == if e.0 in batch then multiset(rows[..i])[e] else 0
    {
      assert rows[..i + 1] == rows[..i] + [rows[i]];
      if rows[i].0 in batch {
        edges := edges + [rows[i]];
      }
    }
    assert rows[..|rows|] == rows;
  }

  /** `after` is `before` with the products of the batch added and the same edges. */
  ghost predicate Registered(before: Deps, batch: seq<int>, after: Deps) {
    && (forall n :: n in after <==> n in before || n in batch)
    && (forall n, u :: DependsOn(after, n, u) <==> DependsOn(before, n, u))
  }

  lemma RegisterStep(before: Deps, batch: seq<int>, mid: Deps, pid: int)
    requires Registered(before, batch, mid)
    ensures Registered(before, batch + [pid], WithNode(mid, pid))
  {
    forall n, u ensures DependsOn(WithNode(mid, pid), n, u) <==> DependsOn(mid, n, u) {}
  }

  ghost predicate Endpoint(edges: Rows, n: int) {
    exists e :: e in edges && (n == e.0 || n == e.1)
  }

  ghost predicate Target(edges: Rows, u: int) {
    exists e :: e in edges && e.1 == u
  }

  /** `after` is `before` with the edges added. */
  ghost predicate Grown(before: Deps, edges: Rows, after: Deps) {
    && (forall n :: n in after <==> n in before || Endpoint(edges, n))
    && (forall n, u :: DependsOn(after, n, u) <==> DependsOn(before, n, u) || (n, u) in edges)
  }

  lemma TargetStep(edges: Rows, i: nat)
    requires i < |edges|
    ensures forall u :: Target(edges[..i + 1], u) <==> Target(edges[..i], u) || u == edges[i].1
  {
    assert edges[..i + 1] == edges[..i] + [edges[i]];
    forall u ensures Target(edges[..i + 1], u) <==> Target(edges[..i], u) || u == edges[i].1 {
      if u == edges[i].1 {
        assert edges[i] in edges[..i + 1];
      }
      if x :| x in edges[..i] && x.1 == u {
        assert x in edges[..i + 1];
      }
      if x :| x in edges[..i + 1] && x.1 == u {
        assert x in edges[..i] || x == edges[i];
      }
    }
  }

  lemma GrownStep(before: Deps, edges: Rows, i: nat, mid: Deps, after: Deps)
    requires i < |edges| && Grown(before, edges[..i], mid) && Closed(mid)
    requires after == WithEdge(mid, edges[i].0, edges[i].1)
    ensures Grown(before, edges[..i + 1], after)
  {
    var e := edges[i];
    PerformMeaning(mid, AddEdge(e.0, e.1));
    assert edges[..i + 1] == edges[..i] + [e];
    forall n ensures Endpoint(edges[..i + 1], n) <==> Endpoint(edges[..i], n) || n == e.0 || n == e.1 {
      if n == e.0 || n == e.1 {
        assert e in edges[..i + 1];
      }
      if x :| x in edges[..i] && (n == x.0 || n == x.1) {
        assert x in edges[..i + 1];
      }
      if x :| x in edges[..i + 1] && (n == x.0 || n == x.1) {
        assert x in edges[..i] || x == e;
      }
    }
    forall n, u ensures (n, u) in edges[..i + 1] <==> (n, u) in edges[..i] || (n, u) == e {}
  }

  // ---- The loop state ----

  /** Every edge of a visited product is known and no other; every upstream met so far is
      visited or waits in the frontier. */
  ghost predicate Explored(rows: Rows, initial: set<int>, visited: set<int>, frontier: set<int>, g: Deps) {
    && (forall n :: n in initial ==> n in visited || n in frontier)
    && (forall n :: n in visited || n in frontier ==> n in Scope(rows, initial))
    && (forall n :: n in g ==> n in visited || n in frontier)
    && (forall n :: n in visited ==> n in g)
    && (forall n, u :: DependsOn(g, n, u) <==> n in visited && (n, u) in rows)
    && (forall n, u :: n in visited && (n, u) in rows ==> u in visited || u in frontier)
  }

  lemma TableMeaning(rows: Rows, initial: set<int>)
    ensures forall n, u :: DependsOn(Table(rows, initial), n, u) <==> (n, u) in rows
    ensures forall n, u :: (n, u) in rows ==> n in Universe(rows, initial) && u in Universe(rows, initial)
    ensures Closed(Table(rows, initial))
  {
    forall n, u | (n, u) in rows
      ensures n in Universe(rows, initial) && u in Universe(rows, initial) && u in Ups(rows, n)
    {
      var e := (n, u);
      assert e in rows && e.0 == n && e.1 == u;
    }
  }

  lemma ScopeStart(rows: Rows, initial: set<int>, n: int)
    requires n in initial
    ensures n in Scope(rows, initial)
  {
    ReachesSelf(Table(rows, initial), n);
  }

  lemma ScopeStep(rows: Rows, initial: set<int>, n: int, u: int)
    requires n in Scope(rows, initial) && (n, u) in rows
    ensures u in Scope(rows, initial)
  {
    var t := Table(rows, initial);
    TableMeaning(rows, initial);
    var i :| i in initial && Reaches(t, i, n);
    var p :| WalkFrom(t, i, p) && p[|p| - 1] == n;
    assert DependsOn(t, n, u);
    ReachesSelf(t, u);
    WalkCons(t, n, [u]);
    WalkAppend(t, p, [n] + [u]);
    assert Reaches(t, i, u);
  }

  lemma {:induction false} WalkStays(rows: Rows, initial: set<int>, visited: set<int>, p: seq<int>)
    requires IsWalk(Table(rows, initial), p) && p[0] in visited
    requires forall n, u :: n in visited && (n, u) in rows ==> u in visited
    ensures p[|p| - 1] in visited
    decreases |p|
  {
    if |p| > 1 {
      TableMeaning(rows, initial);
      assert DependsOn(Table(rows, initial), p[0], p[1]);
      var n, u := p[0], p[1];
      assert (n, u) in rows && u in visited;
      WalkSuffix(Table(rows, initial), p, 1);
      WalkStays(rows, initial, visited, p[1..]);
    }
  }

  lemma RoundDone(rows: Rows, initial: set<int>, before: set<int>, frontier: set<int>, batch: seq<int>,
                  g0: Deps, g1: Deps, edges: Rows, g2: Deps, next: set<int>)
    requires Explored(rows, initial, before, frontier, g0)
    requires forall n :: n in batch <==> n in frontier && n !in before
    requires Registered(g0, batch, g1)
    requires forall e :: e in edges <==> e in rows && e.0 in batch
    requires Grown(g1, edges, g2)
    requires forall u :: u in next <==> u !in before + frontier && Target(edges, u)
    ensures Explored(rows, initial, before + frontier, next, g2)
    ensures batch != [] ==> Scope(rows, initial) - (before + frontier) < Scope(rows, initial) - before
  {
    var visited := before + frontier;
    if batch != [] {
      var b := batch[0];
      assert b in batch && b in Scope(rows, initial) - before && b !in Scope(rows, initial) - visited;
    }
    forall n, u ensures DependsOn(g2, n, u) <==> n in visited && (n, u) in rows {
      var e := (n, u);
      assert e in edges <==> e in rows && n in batch;
    }
    forall n, u | n in visited && (n, u) in rows ensures u in visited || u in next {
      if n !in before {
        var e := (n, u);
        assert e in edges && e.1 == u;
        assert Target(edges, u);
      }
    }
    forall u | u in next ensures u in Scope(rows, initial) {
      assert Target(edges, u);
      var e :| e in edges && e.1 == u;
      var n := e.0;
      assert e == (n, u);
      ScopeStep(rows, initial, n, u);
    }
    forall n | n in g2 ensures n in visited || n in next {
      if Endpoint(edges, n) {
        var e :| e in edges && (n == e.0 || n == e.1);
      }
    }
  }

  /** When nothing is left to visit the graph is the scope with all its edges. */
  lemma ExploredDone(rows: Rows, initial: set<int>, visited: set<int>, g: Deps)
    requires Explored(rows, initial, visited, {}, g)
    ensures g == ScopeGraph(rows, initial)
  {
    var h := ScopeGraph(rows, initial);
    forall n ensures n in g <==> n in h {
      if n in h {
        ScopeVisited(rows, initial, visited, n);
      }
    }
    forall n | n in g ensures g[n] == h[n] {
      UpsKnown(rows, initial, visited, g, n);
    }
  }

  lemma UpsKnown(rows: Rows, initial: set<int>, visited: set<int>, g: Deps, n: int)
    requires Explored(rows, initial, visited, {}, g) && n in g
    ensures g[n] == Ups(rows, n)
  {
    forall u ensures u in g[n] <==> u in Ups(rows, n) {
      var e := (n, u);
      assert DependsOn(g, n, u) <==> e in rows;
      assert e.0 == n && e.1 == u;
    }
  }

  lemma ScopeVisited(rows: Rows, initial: set<int>, visited: set<int>, n: int)
    requires n in Scope(rows, initial)
    requires forall m :: m in initial ==> m in visited
    requires forall m, u :: m in visited && (m, u) in rows ==> u in visited
    ensures n in visited
  {
    var i :| i in initial && Reaches(Table(rows, initial), i, n);
    var p :| WalkFrom(Table(rows, initial), i, p) && p[|p| - 1] == n;
    WalkStays(rows, initial, visited, p);
  }

  ghost function ScopeGraph(rows: Rows, initial: set<int>): Deps {
    map n | n in Scope(rows, initial) :: Ups(rows, n)
  }

  // ---- The builder ----

  /** The unvisited products of the frontier, each once; all of them become visited nodes. */
  method TakeBatch(g: DependencyGraph, frontier: seq<int>, before: set<int>)
    returns (batch: seq<int>, visited: set<int>)
    requires g.Valid()
    modifies g
    ensures g.Valid()
    ensures visited == before + Elems(frontier)
    ensures Distinct(batch) && forall n :: n in batch <==> n in frontier && n !in before
    ensures Registered(old(g.View()), batch, g.View())
  {
    batch, visited := [], before;
    for i := 0 to |frontier|
      invariant g.Valid()
      invariant visited == before + Elems(frontier[..i])
      invariant Distinct(batch) && forall n :: n in batch <==> n in frontier[..i] && n !in before
      invariant Registered(old(g.View()), batch, g.View())
    {
      var pid := frontier[i];
      Snoc(before, frontier, i);
      assert frontier[..i + 1] == frontier[..i] + [pid];
      if pid !in visited {
        visited := visited + {pid};
        RegisterStep(old(g.View()), batch, g.View(), pid);
        g.AddNode(pid);
        DistinctSnoc(batch, pid);
        batch := batch + [pid];
      }
    }
    assert frontier[..|frontier|] == frontier;
  }

  method AddEdges(g: DependencyGraph, edges: Rows, visited: set<int>) returns (next: seq<int>)
    requires g.Valid()
    modifies g
    ensures g.Valid() && Grown(old(g.View()), edges, g.View())
    ensures forall u :: u in next <==> u !in visited && Target(edges, u)
  {
    next := [];
    for i := 0 to |edges|
      invariant g.Valid() && Grown(old(g.View()), edges[..i], g.View())
      invariant forall u :: u in next <==> u !in visited && Target(edges[..i], u)
    {
      var e := edges[i];
      ghost var mid := g.View();
      g.ViewMeaning();
      g.AddEdge(e.0, e.1);
      GrownStep(old(g.View()), edges, i, mid, g.View());
      TargetStep(edges, i);
      if e.1 !in visited {
        next := next + [e.1];
      }
    }
    assert edges[..|edges|] == edges;
  }

  /** One round of the traversal; `batch` is empty when the frontier held nothing new. */
  method Round(rows: Rows, ghost initial: set<int>, g: DependencyGraph, frontier: seq<int>, before: set<int>)
    returns (visited: set<int>, batch: seq<int>, next: seq<int>)
    requires g.Valid() && Explored(rows, initial, before, Elems(frontier), g.View())
    modifies g
    ensures g.Valid() && Explored(rows, initial, visited, Elems(next), g.View())
    ensures batch == [] ==> next == []
    ensures batch != [] ==> Scope(rows, initial) - visited < Scope(rows, initial) - before
  {
    ghost var v0 := g.View();
    batch, visited := TakeBatch(g, frontier, before);
    ghost var v1 := g.View();
    if |batch| == 0 {
      next := [];
      RoundDone(rows, initial, before, Elems(frontier), batch, v0, v1, [], v1, {});
      return;
    }
    var edges := LoadEdges(rows, batch);
    next := AddEdges(g, edges, visited);
    RoundDone(rows, initial, before, Elems(frontier), batch, v0, v1, edges, g.View(), Elems(next));
  }

  /** The traversal loop, level by level. */
  method Traverse(rows: Rows, g: DependencyGraph, initial: seq<int>)
    requires g.Valid() && g.View() == map[]
    modifies g
    ensures g.Valid() && g.View() == ScopeGraph(rows, Elems(initial))
  {
    ghost var start := Elems(initial);
    StartExplored(rows, start);
    var visited: set<int> := {};
    var frontier := initial;
    while |frontier| > 0
      invariant g.Valid()
      invariant Explored(rows, start, visited, Elems(frontier), g.View())
      decreases Scope(rows, start) - visited
    {
      var batch;
      visited, batch, frontier := Round(rows, start, g, frontier, visited);
      if |batch| == 0 {
        break;
      }
    }
    assert Elems(frontier) == {};
    ExploredDone(rows, start, visited, g.View());
  }

  /** The graph of a scope is exactly the upstream closure of its starting products. */
  method Build(rows: Rows, initial: seq<int>) returns (g: DependencyGraph, products: seq<int>)
    ensures fresh(g) && g.Valid()
    ensures g.View() == ScopeGraph(rows, Elems(initial))
    ensures Lists(IntLeq, products, Scope(rows, Elems(initial))) && Ascending(products)
  {
    g := new DependencyGraph();
    Traverse(rows, g, initial);
    assert g.nodes == g.View().Keys;
    products := g.Nodes();
  }

  lemma StartExplored(rows: Rows, initial: set<int>)
    ensures Explored(rows, initial, {}, initial, map[])
  {
    forall n | n in initial ensures n in Scope(rows, initial) {
      ScopeStart(rows, initial, n);
    }
  }

  // ---- What the choice of scope cannot change ----

  /** Planning a narrower scope gives its products the places they have in a wider one. */
  lemma ScopeKeepsPlaces(rows: Rows, narrow: set<int>, wide: set<int>, p: WavePlan, q: WavePlan, n: int)
    requires forall i :: i in narrow ==> i in Scope(rows, wide)
    requires IsPlan(ScopeGraph(rows, narrow), p) && IsPlan(ScopeGraph(rows, wide), q)
    requires n in Scope(rows, narrow)
    ensures n in p.cyclic <==> n in q.cyclic
    ensures forall k :: Scheduled(p, k, n) <==> Scheduled(q, k, n)
  {
    var S := Scope(rows, narrow);
    var g := ScopeGraph(rows, wide);
    forall m | m in S ensures m in g {
      ScopeInside(rows, narrow, wide, m);
    }
    ScopeClosed(rows, narrow, g, S);
    RestrictToScope(rows, narrow, g, S);
    RestrictionKeepsPlaces(g, S, q, p, n);
  }

  lemma RestrictToScope(rows: Rows, initial: set<int>, g: Deps, S: set<int>)
    requires S == Scope(rows, initial) && S <= g.Keys
    requires forall m :: m in S ==> g[m] == Ups(rows, m)
    ensures Restrict(g, S) == ScopeGraph(rows, initial)
  {
  }

  lemma ScopeClosed(rows: Rows, initial: set<int>, g: Deps, S: set<int>)
    requires S == Scope(rows, initial)
    requires forall m :: m in S ==> m in g && g[m] == Ups(rows, m)
    ensures UpstreamClosed(g, S)
  {
    forall m, u | m in S && u in g[m] ensures u in S {
      var e :| e in rows && e.0 == m && e.1 == u;
      assert e == (m, u);
      ScopeStep(rows, initial, m, u);
    }
  }

  lemma ScopeInside(rows: Rows, narrow: set<int>, wide: set<int>, m: int)
    requires forall i :: i in narrow ==> i in Scope(rows, wide)
    requires m in Scope(rows, narrow)
    ensures m in Scope(rows, wide)
  {
    var t := Table(rows, narrow);
    var i :| i in narrow && Reaches(t, i, m);
    var p :| WalkFrom(t, i, p) && p[|p| - 1] == m;
    forall n, u | n in Scope(rows, wide) && (n, u) in rows ensures u in Scope(rows, wide) {
      ScopeStep(rows, wide, n, u);
    }
    WalkStays(rows, narrow, Scope(rows, wide), p);
  }
}
