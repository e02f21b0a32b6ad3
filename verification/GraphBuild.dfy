/** graph.Build: the dependency graph of the resolved components, in a canonical form. */
module GraphBuild {
  import opened Model
  import opened Ordering
  import opened TopologicalSort

  /** A parameter was resolved to component d. */
  ghost predicate IsRequired(c: Component, d: ComponentId) {
    d != "" && exists k :: 0 <= k < |c.dependencies| && c.dependencies[k].resolvedTo == d
  }

  /** The edges of c: its resolved ids that name a known component other than c, sorted, once each. */
  ghost predicate IsAdjacency(c: Component, ids: set<ComponentId>, deps: seq<ComponentId>) {
    && StrictlySorted(deps)
    && forall d :: d in deps <==> d in ids && d != c.id && IsRequired(c, d)
  }

  ghost predicate IsGraphOf(g: Graph, components: seq<Component>) {
    && Sorted(g.nodes)
    && multiset(g.nodes) == multiset(Ids(components))
    && g.edges.Keys == (set x | x in Ids(components))
    && forall i :: 0 <= i < |components| && IsLast(components, i) ==>
         IsAdjacency(components[i], g.edges.Keys, g.Deps(components[i].id))
  }

  /** Were an id used twice, the later component would overwrite the edges of the earlier one. */
  ghost predicate IsLast(components: seq<Component>, i: nat)
    requires i < |components|
  {
    forall j :: i < j < |components| ==> components[j].id != components[i].id
  }

  /** Components by id; a later component with the same id replaces an earlier one. */
  function Indexed(components: seq<Component>): map<ComponentId, Component> {
    if components == [] then map[]
    else
      var n := |components| - 1;
      Indexed(components[..n])[components[n].id := components[n]]
  }

  lemma {:induction false} IndexedKeys(components: seq<Component>)
    ensures Indexed(components).Keys == set x | x in Ids(components)
  {
    if components != [] {
      var n := |components| - 1;
      IndexedKeys(components[..n]);
      assert Ids(components) == Ids(components[..n]) + [components[n].id];
    }
  }

  lemma {:induction false} IndexedHasLast(components: seq<Component>, i: nat)
    requires i < |components| && IsLast(components, i)
    ensures components[i].id in Indexed(components) && Indexed(components)[components[i].id] == components[i]
  {
    var n := |components| - 1;
    if i < n {
      var front := components[..n];
      assert front[i] == components[i];
      assert components[n].id != components[i].id;
      IndexedHasLast(front, i);
    }
  }

  /** The first loop of Build. */
  method IndexNodes(components: seq<Component>) returns (nodes: seq<ComponentId>, index: map<ComponentId, Component>)
    ensures nodes == Ids(components) && index == Indexed(components)
  {
    nodes, index := [], map[];
    var n := 0;
    while n < |components|
      invariant n <= |components|
      invariant nodes == Ids(components)[..n] && index == Indexed(components[..n])
    {
      assert components[..n + 1][..n] == components[..n];
      nodes := nodes + [components[n].id];
      index := index[components[n].id := components[n]];
      n := n + 1;
    }
    assert components[..n] == components;
  }

  ghost function IdsUpTo(components: seq<Component>, n: nat): set<ComponentId>
    requires n <= |components|
  {
    set x | x in Ids(components)[..n]
  }

  /** The edges of the first n components, where a later use of an id replaces an earlier one. */
  ghost predicate EdgesOf(components: seq<Component>, n: nat, ids: set<ComponentId>,
      edges: map<ComponentId, seq<ComponentId>>)
    requires n <= |components|
  {
    && edges.Keys == IdsUpTo(components, n)
    && (forall x :: x in edges ==> EdgesWithin(edges[x], ids))
    && forall i :: 0 <= i < n && IsLast(components[..n], i) ==> EdgeOf(components[i], ids, edges)
  }

  predicate EdgesWithin(deps: seq<ComponentId>, ids: set<ComponentId>) {
    forall d :: d in deps ==> d in ids
  }

  ghost predicate EdgeOf(c: Component, ids: set<ComponentId>, edges: map<ComponentId, seq<ComponentId>>) {
    c.id in edges && IsAdjacency(c, ids, edges[c.id])
  }

  lemma EdgesNext(components: seq<Component>, n: nat, ids: set<ComponentId>,
      edges: map<ComponentId, seq<ComponentId>>, deps: seq<ComponentId>)
    requires n < |components| && EdgesOf(components, n, ids, edges) && IsAdjacency(components[n], ids, deps)
    ensures EdgesOf(components, n + 1, ids, edges[components[n].id := deps])
  {
    var edges' := edges[components[n].id := deps];
    AdjacencyIsWithin(components[n], ids, deps);
    hide IsAdjacency, IsLast, IdsUpTo, Ids, EdgeOf, EdgesWithin;
    IdsNext(components, n);
    forall i | 0 <= i < n + 1 && IsLast(components[..n + 1], i) ensures EdgeOf(components[i], ids, edges') {
      if i < n {
        LastStays(components, n, i);
        OtherEdge(components[i], ids, edges, components[n].id, deps);
      } else {
        NewEdge(components[n], ids, edges, deps);
      }
    }
  }

  lemma AdjacencyIsWithin(c: Component, ids: set<ComponentId>, deps: seq<ComponentId>)
    requires IsAdjacency(c, ids, deps)
    ensures EdgesWithin(deps, ids)
  {
  }

  lemma OtherEdge(c: Component, ids: set<ComponentId>, edges: map<ComponentId, seq<ComponentId>>, id: ComponentId,
      deps: seq<ComponentId>)
    requires EdgeOf(c, ids, edges) && c.id != id
    ensures EdgeOf(c, ids, edges[id := deps])
  {
    hide IsAdjacency;
  }

  lemma NewEdge(c: Component, ids: set<ComponentId>, edges: map<ComponentId, seq<ComponentId>>, deps: seq<ComponentId>)
    requires IsAdjacency(c, ids, deps)
    ensures EdgeOf(c, ids, edges[c.id := deps])
  {
    hide IsAdjacency;
  }

  lemma IdsNext(components: seq<Component>, n: nat)
    requires n < |components|
    ensures IdsUpTo(components, n + 1) == IdsUpTo(components, n) + {components[n].id}
  {
    assert Ids(components)[..n + 1] == Ids(components)[..n] + [components[n].id];
  }

  /** The last of its id among n + 1 components is the last among n, unless it is the new one. */
  lemma LastStays(components: seq<Component>, n: nat, i: nat)
    requires i < n < |components| && IsLast(components[..n + 1], i)
    ensures IsLast(components[..n], i) && components[i].id != components[n].id
  {
    assert components[..n + 1][n].id != components[..n + 1][i].id;
    forall j | i < j < n ensures components[..n][j].id != components[..n][i].id {
      assert components[..n + 1][j].id != components[..n + 1][i].id;
    }
  }

  /** The second loop of Build. */
  method CollectEdges(components: seq<Component>, index: map<ComponentId, Component>)
    returns (edges: map<ComponentId, seq<ComponentId>>)
    requires index.Keys == set x | x in Ids(components)
    ensures edges.Keys == index.Keys
    ensures forall x :: x in edges ==> forall d :: d in edges[x] ==> d in index
    ensures forall i :: 0 <= i < |components| && IsLast(components, i) ==>
              IsAdjacency(components[i], index.Keys, edges[components[i].id])
  {
    edges := map[];
    var n := 0;
    while n < |components|
      invariant n <= |components| && EdgesOf(components, n, index.Keys, edges)
    {
      var deps := Adjacency(components[n], index);
      EdgesNext(components, n, index.Keys, edges, deps);
      hide EdgesOf, IsAdjacency;
      edges := edges[components[n].id := deps];
      n := n + 1;
    }
    hide IsAdjacency, IsLast;
    assert components[..n] == components && Ids(components)[..n] == Ids(components);
  }

  method Build(components: seq<Component>) returns (g: Graph, index: map<ComponentId, Component>)
    ensures IsGraphOf(g, components) && Closed(g)
    ensures index == Indexed(components)
  {
    var nodes;
    nodes, index := IndexNodes(components);
    IndexedKeys(components);
    var edges := CollectEdges(components, index);
    g := Graph(Sort(nodes), edges);
    forall x, d | d in g.Deps(x) ensures d in g.nodes {
      assert d in multiset(nodes);
      assert d in multiset(g.nodes);
    }
  }

  /** The inner loop of Build, for one component. */
  method Adjacency(c: Component, index: map<ComponentId, Component>) returns (deps: seq<ComponentId>)
    ensures IsAdjacency(c, index.Keys, deps)
  {
    hide ResolvedIds;
    var all, i := c.DependsOn(), 0;
    var seen: set<ComponentId> := {};
    deps := [];
    while i < |all|
      invariant i <= |all|
      invariant forall x :: x in deps <==> x in all[..i] && x in index && x != c.id
      invariant forall x :: x in deps <==> x in seen
      invariant Distinct(deps)
    {
      var dep := all[i];
      if !(dep !in index || dep in seen || dep == c.id) {
        seen := seen + {dep};
        deps := deps + [dep];
      }
      i := i + 1;
    }
    assert all[..i] == all;
    forall d ensures d in all <==> IsRequired(c, d) { }
    SortDistinct(deps);
    deps := Sort(deps);
  }

  // ---- the output is canonical ----

  /** A component as the graph sees it: its id and its resolved parameters in any order. */
  ghost function Requirements(components: seq<Component>): multiset<(ComponentId, multiset<ComponentId>)> {
    if components == [] then multiset{}
    else
      multiset{(components[0].id, multiset(components[0].DependsOn()))} + Requirements(components[1..])
  }

  lemma {:induction false} RequirementsHas(components: seq<Component>, i: nat)
    requires i < |components|
    ensures (components[i].id, multiset(components[i].DependsOn())) in Requirements(components)
  {
    hide ResolvedIds;
    if i > 0 {
      RequirementsHas(components[1..], i - 1);
    }
  }

  lemma {:induction false} RequirementsFrom(components: seq<Component>, x: (ComponentId, multiset<ComponentId>))
    returns (i: nat)
    requires x in Requirements(components)
    ensures i < |components| && x == (components[i].id, multiset(components[i].DependsOn()))
  {
    if x == (components[0].id, multiset(components[0].DependsOn())) {
      i := 0;
    } else {
      var k := RequirementsFrom(components[1..], x);
      i := k + 1;
    }
  }

  lemma SameIds(a: seq<Component>, b: seq<Component>, x: ComponentId)
    requires Requirements(a) == Requirements(b) && x in Ids(a)
    ensures x in Ids(b)
  {
    var i :| 0 <= i < |a| && Ids(a)[i] == x;
    RequirementsHas(a, i);
    var j := RequirementsFrom(b, (a[i].id, multiset(a[i].DependsOn())));
    assert Ids(b)[j] == x;
  }

  lemma SortedDistinctIds(components: seq<Component>, g: Graph)
    requires DistinctIds(components) && IsGraphOf(g, components)
    ensures StrictlySorted(g.nodes)
    ensures forall x :: x in g.nodes <==> x in Ids(components)
  {
    SortDistinct(Ids(components));
    SortedIsUnique(g.nodes, Sort(Ids(components)));
  }

  /**
   Permuting the components, and the parameters within each, leaves the graph and hence the
   construction order identical.
   */
  lemma BuildIsCanonical(a: seq<Component>, ga: Graph, b: seq<Component>, gb: Graph)
    requires DistinctIds(a) && DistinctIds(b) && Requirements(a) == Requirements(b)
    requires IsGraphOf(ga, a) && IsGraphOf(gb, b) && Closed(ga) && Closed(gb)
    ensures ga == gb && ConstructionOrder(ga) == ConstructionOrder(gb)
  {
    hide *;
    SameIdSets(a, b);
    SortedDistinctIds(a, ga);
    SortedDistinctIds(b, gb);
    StrictlySortedIsUnique(ga.nodes, gb.nodes);
    NodesHaveEdges(ga, a);
    NodesHaveEdges(gb, b);
    forall x | x in ga.edges ensures ga.edges[x] == gb.edges[x] {
      SameAdjacency(a, ga, b, gb, x);
    }
    assert ga.edges == gb.edges;
  }

  lemma SameIdSets(a: seq<Component>, b: seq<Component>)
    requires Requirements(a) == Requirements(b)
    ensures forall x :: x in Ids(a) <==> x in Ids(b)
  {
    hide Requirements, Ids;
    forall x ensures x in Ids(a) <==> x in Ids(b) {
      if x in Ids(a) { SameIds(a, b, x); }
      if x in Ids(b) { SameIds(b, a, x); }
    }
  }

  lemma NodesHaveEdges(g: Graph, components: seq<Component>)
    requires IsGraphOf(g, components)
    ensures forall x :: x in g.edges <==> x in Ids(components)
  {
  }

  lemma RequiredIsMember(c: Component, d: ComponentId)
    ensures IsRequired(c, d) <==> d in multiset(c.DependsOn())
  {
    hide ResolvedIds;
    assert d in multiset(c.DependsOn()) <==> d in c.DependsOn();
  }

  lemma SameAdjacency(a: seq<Component>, ga: Graph, b: seq<Component>, gb: Graph, x: ComponentId)
    requires DistinctIds(a) && DistinctIds(b) && Requirements(a) == Requirements(b)
    requires IsGraphOf(ga, a) && IsGraphOf(gb, b) && ga.edges.Keys == gb.edges.Keys && x in ga.edges
    ensures ga.edges[x] == gb.edges[x]
  {
    hide ResolvedIds, StrictlySorted, Sorted, IsRequired, Requirements;
    var i :| 0 <= i < |a| && Ids(a)[i] == x;
    RequirementsHas(a, i);
    var j := RequirementsFrom(b, (a[i].id, multiset(a[i].DependsOn())));
    forall d ensures IsRequired(a[i], d) <==> IsRequired(b[j], d) {
      RequiredIsMember(a[i], d);
      RequiredIsMember(b[j], d);
    }
    assert IsLast(a, i) && IsLast(b, j);
    StrictlySortedIsUnique(ga.edges[x], gb.edges[x]);
  }
}
