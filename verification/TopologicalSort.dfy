/**
 Construction order of the component graph: the three-colour depth-first walk of
 graph/topological_sort.go. `ConstructionOrder` is the walk as a function on values; the class
 `Traversal` performs it on its fields, as the source does, and is proved equal to the function.
 */
module TopologicalSort {
  import opened Model

  datatype Color = White | Gray | Black

  /** The variables that `visit` updates; an id outside `color` is white. */
  datatype Walk = Walk(color: map<ComponentId, Color>, stack: seq<ComponentId>, order: seq<ComponentId>)

  datatype Outcome = Done(walk: Walk) | Cyclic(path: seq<ComponentId>)

  datatype OrderResult = Order(order: seq<ComponentId>) | Cycle(path: seq<ComponentId>)

  function ColorOf(color: map<ComponentId, Color>, id: ComponentId): Color {
    if id in color then color[id] else White
  }

  /** Every edge leads to a node, which graph.Build guarantees. */
  ghost predicate Closed(g: Graph) {
    forall x, d :: d in g.Deps(x) ==> d in g.nodes
  }

  ghost function Unvisited(g: Graph, color: map<ComponentId, Color>): set<ComponentId> {
    set x | x in g.nodes && ColorOf(color, x) == White
  }

  // ---- what the result should be ----

  ghost predicate Distinct(s: seq<ComponentId>) {
    forall i, j :: 0 <= i < j < |s| ==> s[i] != s[j]
  }

  ghost predicate IsPath(g: Graph, p: seq<ComponentId>) {
    forall i :: 0 < i < |p| ==> p[i] in g.Deps(p[i - 1])
  }

  /** A non-empty path without repetition whose last node depends on its first. */
  ghost predicate IsCycle(g: Graph, p: seq<ComponentId>) {
    p != [] && Distinct(p) && IsPath(g, p) && p[0] in g.Deps(p[|p| - 1])
  }

  ghost predicate Acyclic(g: Graph) {
    forall p :: !IsCycle(g, p)
  }

  /** Every dependency of an entry occurs before that entry. */
  ghost predicate DepsFirst(g: Graph, order: seq<ComponentId>) {
    forall i, d :: 0 <= i < |order| && d in g.Deps(order[i]) ==> d in order[..i]
  }

  ghost predicate IsConstructionOrder(g: Graph, order: seq<ComponentId>) {
    Distinct(order) && (forall x :: x in order <==> x in g.nodes) && DepsFirst(g, order)
  }

  // ---- the walk as a function ----

  function CycleFromStack(stack: seq<ComponentId>, start: ComponentId): (path: seq<ComponentId>)
    decreases |stack|
  {
    if stack == [] then [start]
    else if stack[0] == start then stack
    else CycleFromStack(stack[1..], start)
  }

  function VisitNode(g: Graph, id: ComponentId, w: Walk): (r: Outcome)
    requires Closed(g) && id in g.nodes && ColorOf(w.color, id) == White
    ensures r.Done? ==> r.walk.stack == w.stack && Unvisited(g, r.walk.color) < Unvisited(g, w.color)
    decreases Unvisited(g, w.color), 0
  {
    var entered := Walk(w.color[id := Gray], w.stack + [id], w.order);
    assert id in Unvisited(g, w.color) && Unvisited(g, entered.color) <= Unvisited(g, w.color);
    VisitDeps(g, id, 0, entered)
  }

  /** The loop over the dependencies of `id` from index i on, and the steps after it. */
  function VisitDeps(g: Graph, id: ComponentId, i: nat, w: Walk): (r: Outcome)
    requires Closed(g) && id in g.nodes && i <= |g.Deps(id)| && w.stack != []
    ensures r.Done? ==> r.walk.stack == w.stack[..|w.stack| - 1]
    ensures r.Done? ==> Unvisited(g, r.walk.color) <= Unvisited(g, w.color)
    decreases Unvisited(g, w.color), 1, |g.Deps(id)| - i
  {
    var deps := g.Deps(id);
    if i == |deps| then
      Done(Walk(w.color[id := Black], w.stack[..|w.stack| - 1], w.order + [id]))
    else
      match ColorOf(w.color, deps[i])
      case White =>
        (match VisitNode(g, deps[i], w)
         case Cyclic(p) => Cyclic(p)
         case Done(w') => VisitDeps(g, id, i + 1, w'))
      case Gray => Cyclic(CycleFromStack(w.stack, deps[i]))
      case Black => VisitDeps(g, id, i + 1, w)
  }

  /** The loop over the nodes from index i on. */
  function VisitNodes(g: Graph, i: nat, w: Walk): (r: Outcome)
    requires Closed(g) && i <= |g.nodes|
    decreases |g.nodes| - i
  {
    if i == |g.nodes| then Done(w)
    else if ColorOf(w.color, g.nodes[i]) == White then
      match VisitNode(g, g.nodes[i], w)
      case Cyclic(p) => Cyclic(p)
      case Done(w') => VisitNodes(g, i + 1, w')
    else VisitNodes(g, i + 1, w)
  }

  function ConstructionOrder(g: Graph): OrderResult
    requires Closed(g)
  {
    match VisitNodes(g, 0, Walk(map[], [], []))
    case Cyclic(p) => Cycle(p)
    case Done(w) => Order(w.order)
  }

  function Reverse(s: seq<ComponentId>): (r: seq<ComponentId>)
    ensures |r| == |s| && forall i :: 0 <= i < |s| ==> r[i] == s[|s| - 1 - i]
  {
    if s == [] then [] else Reverse(s[1..]) + [s[0]]
  }

  // ---- the walk is correct ----

  /** What holds between any two steps: the gray nodes are the stack, the black ones the order. */
  ghost predicate Sound(g: Graph, w: Walk) {
    && (forall x :: ColorOf(w.color, x) == Gray <==> x in w.stack)
    && (forall x :: ColorOf(w.color, x) == Black <==> x in w.order)
    && (forall x :: x in w.color ==> x in g.nodes)
    && Distinct(w.stack) && IsPath(g, w.stack)
    && Distinct(w.order) && DepsFirst(g, w.order)
  }

  ghost predicate Extends(w: Walk, w': Walk) {
    w.order <= w'.order && forall x :: ColorOf(w.color, x) == Black ==> ColorOf(w'.color, x) == Black
  }

  /** A back edge always finds its target on the stack, so the fallback of the source is dead. */
  lemma {:induction false} CycleFromStackCorrect(g: Graph, stack: seq<ComponentId>, start: ComponentId)
    requires start in stack && Distinct(stack) && IsPath(g, stack) && start in g.Deps(stack[|stack| - 1])
    ensures IsCycle(g, CycleFromStack(stack, start))
    ensures CycleFromStack(stack, start)[0] == start
  {
    if stack[0] != start {
      CycleFromStackCorrect(g, stack[1..], start);
    }
  }

  lemma {:induction false} VisitNodeCorrect(g: Graph, id: ComponentId, w: Walk)
    requires Closed(g) && id in g.nodes && ColorOf(w.color, id) == White && Sound(g, w)
    requires w.stack == [] || id in g.Deps(w.stack[|w.stack| - 1])
    ensures var r := VisitNode(g, id, w);
      if r.Done? then Sound(g, r.walk) && Extends(w, r.walk) && id in r.walk.order else IsCycle(g, r.path)
    decreases Unvisited(g, w.color), 0
  {
    var entered := Walk(w.color[id := Gray], w.stack + [id], w.order);
    assert id in Unvisited(g, w.color) && Unvisited(g, entered.color) <= Unvisited(g, w.color);
    EnterSound(g, id, w);
    VisitDepsCorrect(g, id, 0, entered);
  }

  lemma EnterSound(g: Graph, id: ComponentId, w: Walk)
    requires id in g.nodes && ColorOf(w.color, id) == White && Sound(g, w)
    requires w.stack == [] || id in g.Deps(w.stack[|w.stack| - 1])
    ensures Sound(g, Walk(w.color[id := Gray], w.stack + [id], w.order))
  {
  }

  lemma LeaveSound(g: Graph, id: ComponentId, w: Walk)
    requires Sound(g, w) && w.stack != [] && w.stack[|w.stack| - 1] == id && id in g.nodes
    requires forall d :: d in g.Deps(id) ==> d in w.order
    ensures Sound(g, Walk(w.color[id := Black], w.stack[..|w.stack| - 1], w.order + [id]))
  {
    var s, o := w.stack[..|w.stack| - 1], w.order + [id];
    var w' := Walk(w.color[id := Black], s, o);
    assert w.stack == s + [id] && ColorOf(w.color, id) == Gray && id !in w.order;
    forall x ensures ColorOf(w'.color, x) == Gray <==> x in s {
      assert x in w.stack <==> x in s || x == id;
    }
    forall i, d | 0 <= i < |o| && d in g.Deps(o[i]) ensures d in o[..i] {
      if i < |w.order| { assert o[..i] == w.order[..i]; } else { assert o[..i] == w.order; }
    }
  }

  lemma {:induction false} VisitDepsCorrect(g: Graph, id: ComponentId, i: nat, w: Walk)
    requires Closed(g) && id in g.nodes && i <= |g.Deps(id)| && Sound(g, w)
    requires w.stack != [] && w.stack[|w.stack| - 1] == id
    requires forall j :: 0 <= j < i ==> g.Deps(id)[j] in w.order
    ensures var r := VisitDeps(g, id, i, w);
      if r.Done? then Sound(g, r.walk) && Extends(w, r.walk) && id in r.walk.order else IsCycle(g, r.path)
    decreases Unvisited(g, w.color), 1, |g.Deps(id)| - i
  {
    var deps := g.Deps(id);
    if i == |deps| {
      LeaveSound(g, id, w);
    } else {
      var d := deps[i];
      assert d in deps;
      match ColorOf(w.color, d)
      case White =>
        VisitNodeCorrect(g, d, w);
        var r := VisitNode(g, d, w);
        if r.Done? {
          VisitDepsCorrect(g, id, i + 1, r.walk);
        }
      case Gray => CycleFromStackCorrect(g, w.stack, d);
      case Black => VisitDepsCorrect(g, id, i + 1, w);
    }
  }

  lemma {:induction false} VisitNodesCorrect(g: Graph, i: nat, w: Walk)
    requires Closed(g) && i <= |g.nodes| && Sound(g, w) && w.stack == []
    requires forall j :: 0 <= j < i ==> g.nodes[j] in w.order
    ensures var r := VisitNodes(g, i, w);
      if r.Done? then Sound(g, r.walk) && forall x :: x in g.nodes ==> x in r.walk.order else IsCycle(g, r.path)
    decreases |g.nodes| - i
  {
    hide VisitNode, Sound, IsCycle;
    if i < |g.nodes| {
      if ColorOf(w.color, g.nodes[i]) == White {
        VisitNodeCorrect(g, g.nodes[i], w);
        var r := VisitNode(g, g.nodes[i], w);
        if r.Done? { VisitNodesCorrect(g, i + 1, r.walk); }
      } else {
        VisitedIsDone(g, w, g.nodes[i]);
        VisitNodesCorrect(g, i + 1, w);
      }
    }
  }

  lemma VisitedIsDone(g: Graph, w: Walk, x: ComponentId)
    requires Sound(g, w) && w.stack == [] && ColorOf(w.color, x) != White
    ensures x in w.order
  {
    assert x !in w.stack;
  }

  /** An order that puts dependencies first leaves no room for a cycle. */
  lemma OrderExcludesCycles(g: Graph, order: seq<ComponentId>, p: seq<ComponentId>)
    requires Closed(g) && IsConstructionOrder(g, order)
    ensures !IsCycle(g, p)
  {
    if IsCycle(g, p) {
      assert p[0] in order;
      var k :| 0 <= k < |order| && order[k] == p[0];
      PathDescends(g, order, p, |p| - 1, k);
    }
  }

  /** Following a path from order[k] one stays at or before k in the order. */
  lemma {:induction false} PathDescends(g: Graph, order: seq<ComponentId>, p: seq<ComponentId>, n: nat, k: nat)
    requires Closed(g) && IsConstructionOrder(g, order) && IsPath(g, p)
    requires n < |p| && k < |order| && order[k] == p[0]
    ensures p[n] in order[..k + 1]
    ensures p[0] !in g.Deps(p[n])
  {
    if n > 0 {
      PathDescends(g, order, p, n - 1, k);
      var j :| 0 <= j <= k && order[j] == p[n - 1];
      assert p[n] in g.Deps(order[j]);
    }
    var m :| 0 <= m <= k && order[m] == p[n];
    forall d | d in g.Deps(p[n]) ensures d != p[0] {
      assert d in order[..m];
    }
  }

  /**
   The main result: an order comes back exactly when the graph has no cycle, and then it lists
   every node once with its dependencies earlier; otherwise a cycle comes back.
   */
  lemma ConstructionOrderCorrect(g: Graph)
    requires Closed(g)
    ensures ConstructionOrder(g).Order? <==> Acyclic(g)
    ensures match ConstructionOrder(g)
      case Order(order) => IsConstructionOrder(g, order)
      case Cycle(p) => IsCycle(g, p)
  {
    var start := Walk(map[], [], []);
    VisitNodesCorrect(g, 0, start);
    var r := VisitNodes(g, 0, start);
    if r.Done? {
      forall x | x in r.walk.order ensures x in g.nodes {
        assert ColorOf(r.walk.color, x) == Black;
      }
      forall p ensures !IsCycle(g, p) {
        OrderExcludesCycles(g, r.walk.order, p);
      }
    }
  }

  /** Teardown order: every component comes before all that it depends on. */
  lemma ShutdownOrderCorrect(g: Graph, order: seq<ComponentId>)
    requires Closed(g) && IsConstructionOrder(g, order)
    ensures Distinct(Reverse(order)) && forall x :: x in Reverse(order) <==> x in g.nodes
    ensures forall i, d :: 0 <= i < |order| && d in g.Deps(Reverse(order)[i]) ==> d in Reverse(order)[i + 1..]
  {
    hide IsConstructionOrder, Closed, Reverse, Graph.Deps;
    ReverseIsDistinct(g, order);
    ReverseHas(order);
    forall x ensures x in Reverse(order) <==> x in g.nodes { OrderHasNodes(g, order, x); }
    forall i, d | 0 <= i < |order| && d in g.Deps(Reverse(order)[i]) ensures d in Reverse(order)[i + 1..] {
      DependencyComesLater(g, order, i, d);
    }
  }

  lemma ReverseHas(order: seq<ComponentId>)
    ensures |Reverse(order)| == |order| && forall x :: x in Reverse(order) <==> x in order
  {
    forall x ensures x in Reverse(order) <==> x in order {
      if x in order {
        var i :| 0 <= i < |order| && order[i] == x;
        assert Reverse(order)[|order| - 1 - i] == x;
      }
    }
  }

  lemma ReverseIsDistinct(g: Graph, order: seq<ComponentId>)
    requires IsConstructionOrder(g, order)
    ensures Distinct(Reverse(order))
  {
  }

  lemma OrderHasNodes(g: Graph, order: seq<ComponentId>, x: ComponentId)
    requires IsConstructionOrder(g, order)
    ensures x in order <==> x in g.nodes
  {
  }

  lemma DependencyComesLater(g: Graph, order: seq<ComponentId>, i: nat, d: ComponentId)
    requires IsConstructionOrder(g, order) && i < |order| && |Reverse(order)| == |order|
    requires d in g.Deps(Reverse(order)[i])
    ensures d in Reverse(order)[i + 1..]
  {
    var r, n := Reverse(order), |order|;
    var k := n - 1 - i;
    assert order[k] == r[i];
    assert d in order[..k];
    var m :| 0 <= m < k && order[m] == d;
    assert r[n - 1 - m] == d && r[i + 1..][n - 1 - m - (i + 1)] == d;
  }

  // ---- the walk on mutable state ----

  class Traversal {
    const g: Graph
    var color: map<ComponentId, Color>
    var stack: seq<ComponentId>
    var order: seq<ComponentId>

    constructor (g: Graph)
      ensures this.g == g && Current() == Walk(map[], [], [])
    {
      this.g := g;
      color, stack, order := map[], [], [];
    }

    function Current(): Walk
      reads this
    {
      Walk(color, stack, order)
    }

    /** One activation of the recursive closure; None stands for the nil cycle. */
    method Visit(id: ComponentId) returns (cycle: Option<seq<ComponentId>>)
      requires Closed(g) && id in g.nodes && ColorOf(color, id) == White
      modifies this
      ensures match VisitNode(g, id, old(Current()))
        case Cyclic(p) => cycle == Some(p)
        case Done(w) => cycle == None && Current() == w
      decreases Unvisited(g, color), 0
    {
      assert id in Unvisited(g, color);
      color := color[id := Gray];
      stack := stack + [id];
      ghost var entered := Current();
      assert Unvisited(g, color) <= Unvisited(g, old(color));
      var deps, i := g.Deps(id), 0;
      while i < |deps|
        invariant i <= |deps|
        invariant stack == entered.stack && Unvisited(g, color) <= Unvisited(g, entered.color)
        invariant VisitDeps(g, id, 0, entered) == VisitDeps(g, id, i, Current())
      {
        assert deps[i] in g.Deps(id);
        match ColorOf(color, deps[i]) {
          case White =>
            var inner := Visit(deps[i]);
            if inner.Some? { return inner; }
          case Gray =>
            var path := FindCycle(stack, deps[i]);
            return Some(path);
          case Black =>
        }
        i := i + 1;
      }
      stack := stack[..|stack| - 1];
      color := color[id := Black];
      order := order + [id];
      return None;
    }

    /** cycleFromStack: the stack from the first occurrence of start, or [start] when there is none. */
    static method FindCycle(stack: seq<ComponentId>, start: ComponentId) returns (path: seq<ComponentId>)
      ensures path == CycleFromStack(stack, start)
    {
      var i := 0;
      while i < |stack|
        invariant i <= |stack|
        invariant CycleFromStack(stack, start) == CycleFromStack(stack[i..], start)
      {
        if stack[i] == start { return stack[i..]; }
        i := i + 1;
      }
      return [start];
    }
  }

  /** graph.ConstructionOrder: nil and the cycle, or the order. */
  method ComputeConstructionOrder(g: Graph) returns (r: OrderResult)
    requires Closed(g)
    ensures r == ConstructionOrder(g)
    ensures r.Order? <==> Acyclic(g)
    ensures match r
      case Order(order) => IsConstructionOrder(g, order)
      case Cycle(p) => IsCycle(g, p)
  {
    ConstructionOrderCorrect(g);
    var t := new Traversal(g);
    var i := 0;
    while i < |g.nodes|
      invariant i <= |g.nodes|
      invariant t.stack == [] && t.g == g
      invariant VisitNodes(g, 0, Walk(map[], [], [])) == VisitNodes(g, i, t.Current())
    {
      if ColorOf(t.color, g.nodes[i]) == White {
        var cycle := t.Visit(g.nodes[i]);
        if cycle.Some? { return Cycle(cycle.value); }
      }
      i := i + 1;
    }
    return Order(t.order);
  }

  /** graph.ShutdownOrder: the construction order written from the back. */
  method ComputeShutdownOrder(g: Graph) returns (r: OrderResult)
    requires Closed(g)
    ensures r == (match ConstructionOrder(g) case Order(o) => Order(Reverse(o)) case Cycle(p) => Cycle(p))
  {
    var c := ComputeConstructionOrder(g);
    if c.Cycle? { return c; }
    var order, n := c.order, |c.order|;
    var reversed := new ComponentId[n];
    var i := 0;
    while i < n
      invariant i <= n
      invariant forall k :: 0 <= k < i ==> reversed[n - 1 - k] == order[k]
    {
      reversed[n - 1 - i] := order[i];
      i := i + 1;
    }
    assert reversed[..] == Reverse(order);
    return Order(reversed[..]);
  }
}
