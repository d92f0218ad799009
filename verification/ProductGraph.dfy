/** The mutable product graph (pkg/costcalc/dependency_graph.go). */
module ProductGraph {
  import opened Dependencies
  import opened Sorting

  /** The upstream list of `id`; Go reads a missing map entry as the empty slice. */
  function Lookup(edges: map<int, seq<int>>, id: int): seq<int> {
    if id in edges then edges[id] else []
  }

  class DependencyGraph {
    var edges: map<int, seq<int>>
    var nodes: set<int>

    /** Edges only join products that were registered. */
    ghost predicate Valid()
      reads this
    {
      forall d :: d in edges ==> d in nodes && forall u :: u in edges[d] ==> u in nodes
    }

    /** The dependency relation this graph stands for, duplicates removed. */
    ghost function View(): (g: Deps)
      reads this
    {
      map n | n in nodes :: Elems(Lookup(edges, n))
    }

    constructor ()
      ensures Valid()
      ensures View() == map[]
      ensures edges == map[] && nodes == {}
    {
      edges, nodes := map[], {};
    }

    method AddNode(id: int)
      requires Valid()
      modifies this`nodes
      ensures Valid()
      ensures nodes == old(nodes) + {id}
      ensures View() == WithNode(old(View()), id)
    {
      nodes := nodes + {id};
      assert old(id !in nodes) ==> Elems(Lookup(edges, id)) == {};
    }

    method AddEdge(downstream: int, upstream: int)
      requires Valid()
      modifies this
      ensures Valid()
      ensures nodes == old(nodes) + {downstream, upstream}
      ensures edges == old(edges)[downstream := old(Lookup(edges, downstream)) + [upstream]]
      ensures View() == WithEdge(old(View()), downstream, upstream)
    {
      AddNode(downstream);
      AddNode(upstream);
      edges := edges[downstream := Lookup(edges, downstream) + [upstream]];
      assert Elems(Lookup(edges, downstream)) == old(Elems(Lookup(edges, downstream))) + {upstream};
    }

    /** All products, ascending. The map is walked in no particular order. */
    method Nodes() returns (out: seq<int>)
      ensures Lists(IntLeq, out, nodes) && Ascending(out)
    {
      out := [];
      var rest := nodes;
      while rest != {}
        invariant rest <= nodes
        invariant Distinct(out) && Elems(out) == nodes - rest
        decreases |rest|
      {
        ghost var some := Inhabited(rest);
        var id :| id in rest;
        rest := rest - {id};
        DistinctSnoc(out, id);
        out := out + [id];
      }
      out := SortIds(out);
    }

    function Upstream(id: int): seq<int>
      reads this
    {
      Lookup(edges, id)
    }

    predicate HasNode(id: int)
      reads this
    {
      id in nodes
    }

    /** The stored state gives exactly the relation the planner's properties speak of. */
    lemma ViewMeaning()
      requires Valid()
      ensures Closed(View())
      ensures View().Keys == nodes
      ensures forall id :: HasNode(id) <==> id in View()
      ensures forall d, u :: DependsOn(View(), d, u) <==> u in Upstream(d)
    {
    }
  }

  // ---- The same operations on the relation ----

  ghost function WithNode(g: Deps, id: int): Deps {
    if id in g then g else g[id := {}]
  }

  ghost function WithEdge(g: Deps, d: int, u: int): Deps {
    var h := WithNode(WithNode(g, d), u);
    h[d := h[d] + {u}]
  }
}
