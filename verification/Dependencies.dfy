/** The dependency relation a graph denotes, and what chains and cycles in it mean.
    Nothing here mentions the planner: these are the notions its result is judged by. */
module Dependencies {

  /** Each product with the set of its distinct upstream products. */
  type Deps = map<int, set<int>>

  /** Upstream products are products of the graph. */
  ghost predicate Closed(g: Deps) {
    forall n, u :: n in g && u in g[n] ==> u in g
  }

  /** `a` depends directly on `b`. */
  ghost predicate DependsOn(g: Deps, a: int, b: int) {
    a in g && b in g[a]
  }

  /** A walk goes from a product to one of its upstreams at every step. */
  ghost predicate IsWalk(g: Deps, p: seq<int>) {
    && p != []
    && (forall i :: 0 <= i < |p| ==> p[i] in g)
    && (forall i :: 0 < i < |p| ==> DependsOn(g, p[i - 1], p[i]))
  }

  ghost predicate WalkFrom(g: Deps, n: int, p: seq<int>) {
    IsWalk(g, p) && p[0] == n
  }

  /** Some chain of `k` upstream steps starts at `n`. */
  ghost predicate HasChain(g: Deps, n: int, k: nat) {
    exists p :: WalkFrom(g, n, p) && |p| == k + 1
  }

  /** The longest chain of upstream steps from `n` has exactly `k` steps. */
  ghost predicate LongestChain(g: Deps, n: int, k: nat) {
    HasChain(g, n, k) && forall j: nat :: j > k ==> !HasChain(g, n, j)
  }

  ghost predicate Reaches(g: Deps, n: int, m: int) {
    exists p :: WalkFrom(g, n, p) && p[|p| - 1] == m
  }

  /** `m` lies on a cycle: a walk of at least one step comes back to it. */
  ghost predicate OnCycle(g: Deps, m: int) {
    exists c :: WalkFrom(g, m, c) && |c| > 1 && c[|c| - 1] == m
  }

  ghost predicate DependsOnCycle(g: Deps, n: int) {
    exists m :: Reaches(g, n, m) && OnCycle(g, m)
  }

  ghost predicate Acyclic(g: Deps) {
    forall m :: m in g ==> !OnCycle(g, m)
  }

  // ---- Chains ----

  lemma WalkSuffix(g: Deps, p: seq<int>, i: nat)
    requires IsWalk(g, p) && i < |p|
    ensures WalkFrom(g, p[i], p[i..])
    ensures p[i..][|p[i..]| - 1] == p[|p| - 1]
  {
    var q := p[i..];
    forall j | 0 < j < |q| ensures DependsOn(g, q[j - 1], q[j]) {
      assert DependsOn(g, p[i + j - 1], p[i + j]);
    }
  }

  lemma WalkPrefix(g: Deps, p: seq<int>, i: nat)
    requires IsWalk(g, p) && 0 < i <= |p|
    ensures WalkFrom(g, p[0], p[..i]) && p[..i][|p[..i]| - 1] == p[i - 1]
  {
    var q := p[..i];
    forall j | 0 < j < |q| ensures DependsOn(g, q[j - 1], q[j]) {
      assert DependsOn(g, p[j - 1], p[j]);
    }
  }

  lemma WalkCons(g: Deps, n: int, p: seq<int>)
    requires IsWalk(g, p) && DependsOn(g, n, p[0])
    ensures WalkFrom(g, n, [n] + p)
    ensures ([n] + p)[|p|] == p[|p| - 1]
  {
    var q := [n] + p;
    forall j | 0 < j < |q| ensures DependsOn(g, q[j - 1], q[j]) {
      if j > 1 {
        assert DependsOn(g, p[j - 2], p[j - 1]);
      }
    }
  }

  lemma WalkAppend(g: Deps, p: seq<int>, q: seq<int>)
    requires IsWalk(g, p) && IsWalk(g, q) && p[|p| - 1] == q[0]
    ensures WalkFrom(g, p[0], p + q[1..])
    ensures (p + q[1..])[|p + q[1..]| - 1] == q[|q| - 1]
  {
    var r := p + q[1..];
    forall j | 0 < j < |r| ensures DependsOn(g, r[j - 1], r[j]) {
      if j < |p| {
        assert DependsOn(g, p[j - 1], p[j]);
      } else {
        assert DependsOn(g, q[j - |p|], q[j - |p| + 1]);
      }
    }
    forall j | 0 <= j < |r| ensures r[j] in g {
      if j >= |p| {
        assert r[j] == q[j - |p| + 1];
      }
    }
  }

  lemma ReachesSelf(g: Deps, n: int)
    requires n in g
    ensures Reaches(g, n, n)
  {
    assert WalkFrom(g, n, [n]) && [n][|[n]| - 1] == n;
  }

  lemma ChainZero(g: Deps, n: int)
    ensures HasChain(g, n, 0) <==> n in g
  {
    if n in g {
      assert WalkFrom(g, n, [n]);
    }
  }

  /** A chain of k+1 steps is one upstream step followed by a chain of k. */
  lemma ChainStep(g: Deps, n: int, k: nat)
    ensures HasChain(g, n, k + 1) <==> exists u :: DependsOn(g, n, u) && HasChain(g, u, k)
  {
    if HasChain(g, n, k + 1) {
      var p :| WalkFrom(g, n, p) && |p| == k + 2;
      WalkSuffix(g, p, 1);
      assert DependsOn(g, n, p[1]) && HasChain(g, p[1], k);
    }
    if u :| DependsOn(g, n, u) && HasChain(g, u, k) {
      var p :| WalkFrom(g, u, p) && |p| == k + 1;
      WalkCons(g, n, p);
    }
  }

  lemma ChainShorter(g: Deps, n: int, k: nat, j: nat)
    requires HasChain(g, n, k) && j <= k
    ensures HasChain(g, n, j)
  {
    var p :| WalkFrom(g, n, p) && |p| == k + 1;
    WalkPrefix(g, p, j + 1);
  }

  /** It is enough to refute the next longer chain. */
  lemma LongestByNext(g: Deps, n: int, k: nat)
    ensures LongestChain(g, n, k) <==> HasChain(g, n, k) && !HasChain(g, n, k + 1)
  {
    if HasChain(g, n, k) && !HasChain(g, n, k + 1) {
      forall j: nat | j > k ensures !HasChain(g, n, j) {
        if HasChain(g, n, j) {
          ChainShorter(g, n, j, k + 1);
        }
      }
    }
  }

  // ---- Cycles ----

  /** A product on or behind a cycle has an upstream on or behind a cycle. */
  lemma CycleUpstream(g: Deps, n: int) returns (u: int)
    requires DependsOnCycle(g, n)
    ensures DependsOn(g, n, u) && DependsOnCycle(g, u)
  {
    var m :| Reaches(g, n, m) && OnCycle(g, m);
    var p :| WalkFrom(g, n, p) && p[|p| - 1] == m;
    var c :| WalkFrom(g, m, c) && |c| > 1 && c[|c| - 1] == m;
    var w := if |p| > 1 then p else c;
    WalkSuffix(g, w, 1);
    u := w[1];
    assert DependsOn(g, w[0], w[1]);
    assert Reaches(g, u, m);
  }

  lemma DownstreamOfCycle(g: Deps, n: int, u: int)
    requires DependsOn(g, n, u) && DependsOnCycle(g, u)
    ensures DependsOnCycle(g, n)
  {
    var m :| Reaches(g, u, m) && OnCycle(g, m);
    var p :| WalkFrom(g, u, p) && p[|p| - 1] == m;
    WalkCons(g, n, p);
    assert Reaches(g, n, m);
  }

  lemma OnCycleDepends(g: Deps, m: int)
    requires OnCycle(g, m)
    ensures m in g && DependsOnCycle(g, m)
  {
    ReachesSelf(g, m);
  }

  /** Around a cycle a chain can be made as long as one likes. */
  lemma {:induction false} CycleHasChains(g: Deps, n: int, k: nat)
    requires DependsOnCycle(g, n)
    ensures HasChain(g, n, k)
    decreases k
  {
    var u := CycleUpstream(g, n);
    if k == 0 {
      ChainZero(g, n);
    } else {
      CycleHasChains(g, u, k - 1);
      ChainStep(g, n, k - 1);
    }
  }

  /** Pigeonhole: a sequence over `S` with more entries than `S` has members repeats one. */
  lemma {:induction false} Pigeonhole(p: seq<int>, S: set<int>) returns (i: nat, j: nat)
    requires forall i :: 0 <= i < |p| ==> p[i] in S
    requires |p| > |S|
    ensures i < j < |p| && p[i] == p[j]
    decreases |p|
  {
    var z := |p| - 1;
    if k :| 0 <= k < z && p[k] == p[z] {
      i, j := k, z;
    } else {
      assert p[z] in S && |S - {p[z]}| == |S| - 1;
      i, j := Pigeonhole(p[..z], S - {p[z]});
    }
  }

  /** A chain with as many steps as there are products must run into a cycle. */
  lemma LongChainCycles(g: Deps, n: int)
    requires HasChain(g, n, |g|)
    ensures DependsOnCycle(g, n)
  {
    var p :| WalkFrom(g, n, p) && |p| == |g| + 1;
    var i, j := Pigeonhole(p, g.Keys);
    WalkPrefix(g, p, i + 1);
    assert Reaches(g, n, p[i]);
    WalkPrefix(g, p, j + 1);
    var q := p[..j + 1];
    WalkSuffix(g, q, i);
    assert WalkFrom(g, p[i], q[i..]) && |q[i..]| > 1 && q[i..][|q[i..]| - 1] == p[i];
    assert OnCycle(g, p[i]);
  }

  /** Unbounded chains and dependence on a cycle are the same thing. */
  lemma CycleIffLongChain(g: Deps, n: int)
    ensures DependsOnCycle(g, n) <==> HasChain(g, n, |g|)
    ensures DependsOnCycle(g, n) <==> forall k: nat :: HasChain(g, n, k)
  {
    if DependsOnCycle(g, n) {
      forall k: nat ensures HasChain(g, n, k) {
        CycleHasChains(g, n, k);
      }
    }
    if HasChain(g, n, |g|) {
      LongChainCycles(g, n);
    }
  }

  /** Every product either has a longest chain or depends on a cycle, never both. */
  lemma {:induction false} Dichotomy(g: Deps, n: int)
    requires n in g
    ensures (exists k :: LongestChain(g, n, k)) <==> !DependsOnCycle(g, n)
  {
    CycleIffLongChain(g, n);
    if k: nat :| LongestChain(g, n, k) {
      assert !HasChain(g, n, k + 1);
    }
    if !DependsOnCycle(g, n) {
      ChainZero(g, n);
      var k := 0;
      while HasChain(g, n, k + 1)
        invariant HasChain(g, n, k) && k < |g|
        decreases |g| - k
      {
        assert k + 1 != |g|;
        k := k + 1;
      }
      LongestByNext(g, n, k);
    }
  }

  // ---- The layers ----

  /** The products whose chains all have fewer than `k` steps. */
  ghost function Below(g: Deps, k: nat): set<int> {
    set n | n in g && !HasChain(g, n, k)
  }

  /** The products whose longest chain has `k` steps. */
  ghost function Layer(g: Deps, k: nat): set<int> {
    set n | n in g && LongestChain(g, n, k)
  }

  ghost function CyclicProducts(g: Deps): set<int> {
    set n | n in g && DependsOnCycle(g, n)
  }

  lemma BelowZero(g: Deps)
    ensures Below(g, 0) == {}
  {
    forall n | n in g ensures HasChain(g, n, 0) { ChainZero(g, n); }
  }

  /** Layer k is what Below grows by. */
  lemma BelowGrows(g: Deps, k: nat)
    ensures Below(g, k + 1) == Below(g, k) + Layer(g, k)
    ensures Layer(g, k) == Below(g, k + 1) - Below(g, k)
  {
    forall n | n in g
      ensures n in Below(g, k + 1) <==> n in Below(g, k) || n in Layer(g, k)
    {
      LongestByNext(g, n, k);
      if HasChain(g, n, k + 1) {
        ChainShorter(g, n, k + 1, k);
      }
    }
  }

  /** A product is below k+1 exactly when all its upstreams are below k. */
  lemma BelowByUpstreams(g: Deps, n: int, k: nat)
    requires Closed(g) && n in g
    ensures n in Below(g, k + 1) <==> g[n] <= Below(g, k)
  {
    ChainStep(g, n, k);
    if u :| u in g[n] && u !in Below(g, k) {
      assert DependsOn(g, n, u);
    }
    forall u | u in g[n] && !HasChain(g, n, k + 1) ensures u in Below(g, k) {
      assert DependsOn(g, n, u);
    }
  }

  /** An empty layer leaves only products that depend on a cycle, and empties all later layers. */
  lemma {:induction false} EmptyLayerEnds(g: Deps, k: nat)
    requires Closed(g) && Layer(g, k) == {}
    ensures CyclicProducts(g) == g.Keys - Below(g, k)
    ensures forall j: nat :: j >= k ==> Layer(g, j) == {}
  {
    forall j: nat | j >= k ensures Below(g, j) == Below(g, k) {
      StableFrom(g, k, j);
    }
    forall j: nat | j >= k ensures Layer(g, j) == {} {
      BelowGrows(g, j);
    }
    forall n | n in g ensures DependsOnCycle(g, n) <==> n !in Below(g, k) {
      CycleIffLongChain(g, n);
      if n !in Below(g, k) {
        var j := if k > |g| then k else |g|;
        assert n !in Below(g, j);
        ChainShorter(g, n, j, |g|);
      }
    }
  }

  lemma {:induction false} StableFrom(g: Deps, k: nat, j: nat)
    requires Closed(g) && Layer(g, k) == {} && j >= k
    ensures Below(g, j) == Below(g, k)
    decreases j - k
  {
    if j > k {
      StableFrom(g, k, j - 1);
      BelowGrows(g, k);
      forall n | n in g ensures n in Below(g, j) <==> n in Below(g, k) {
        BelowByUpstreams(g, n, j - 1);
        BelowByUpstreams(g, n, k);
      }
    }
  }
}
