/**
 Which construction order the walk finds among the possible ones: nodes come as early as the order of the graph's nodes
 allows. What the first nodes need, directly or not, is built before anything that only later nodes need.
 */
module WalkOrder {
  import opened Model
  import opened TopologicalSort

  /** x is d or depends on it, directly or not. */
  ghost predicate Needs(g: Graph, x: ComponentId, d: ComponentId) {
    exists p :: IsPath(g, p) && p != [] && p[0] == x && p[|p| - 1] == d
  }

  lemma NeedsItself(g: Graph, x: ComponentId)
    ensures Needs(g, x, x)
  {
    assert IsPath(g, [x]) && [x][|[x]| - 1] == x;
  }

  lemma NeedsMore(g: Graph, x: ComponentId, d: ComponentId, y: ComponentId)
    requires d in g.Deps(x) && Needs(g, d, y)
    ensures Needs(g, x, y)
  {
    var p :| IsPath(g, p) && p != [] && p[0] == d && p[|p| - 1] == y;
    var q := [x] + p;
    assert forall i :: 0 < i < |q| ==> q[i] == p[i - 1];
    assert IsPath(g, q) && q[|q| - 1] == y;
  }

  /** What is in an order with dependencies first needs nothing outside of it. */
  lemma {:induction false} NeededIsThere(g: Graph, order: seq<ComponentId>, p: seq<ComponentId>)
    requires DepsFirst(g, order) && IsPath(g, p) && p != [] && p[0] in order
    ensures p[|p| - 1] in order
    decreases |p|
  {
    if |p| > 1 {
      var i :| 0 <= i < |order| && order[i] == p[0];
      assert p[1] in g.Deps(order[i]);
      assert p[1] in order[..i];
      var rest := p[1..];
      assert forall k :: 0 < k < |rest| ==> rest[k] == p[k + 1] && rest[k - 1] == p[k];
      NeededIsThere(g, order, rest);
      assert rest[|rest| - 1] == p[|p| - 1];
    }
  }

  /** Everything added to the order is needed by id. */
  ghost predicate AddsNeeded(g: Graph, id: ComponentId, w: Walk, w': Walk) {
    forall y :: y in w'.order ==> y in w.order || Needs(g, id, y)
  }

  lemma AddsMore(g: Graph, id: ComponentId, d: ComponentId, w: Walk, w1: Walk, w2: Walk)
    requires d in g.Deps(id) && AddsNeeded(g, d, w, w1) && AddsNeeded(g, id, w1, w2)
    ensures AddsNeeded(g, id, w, w2)
  {
    forall y | y in w2.order ensures y in w.order || Needs(g, id, y) {
      if y in w1.order && y !in w.order { NeedsMore(g, id, d, y); }
    }
  }

  lemma {:induction false} VisitAddsNeeded(g: Graph, id: ComponentId, w: Walk)
    requires Closed(g) && id in g.nodes && ColorOf(w.color, id) == White && VisitNode(g, id, w).Done?
    ensures AddsNeeded(g, id, w, VisitNode(g, id, w).walk)
    decreases Unvisited(g, w.color), 0
  {
    hide Needs;
    var entered := Walk(w.color[id := Gray], w.stack + [id], w.order);
    assert id in Unvisited(g, w.color) && Unvisited(g, entered.color) <= Unvisited(g, w.color);
    DepsAddNeeded(g, id, 0, entered);
  }

  lemma {:induction false} DepsAddNeeded(g: Graph, id: ComponentId, i: nat, w: Walk)
    requires Closed(g) && id in g.nodes && i <= |g.Deps(id)| && w.stack != [] && VisitDeps(g, id, i, w).Done?
    ensures AddsNeeded(g, id, w, VisitDeps(g, id, i, w).walk)
    decreases Unvisited(g, w.color), 1, |g.Deps(id)| - i
  {
    hide Needs;
    var deps := g.Deps(id);
    if i == |deps| {
      NeedsItself(g, id);
    } else if ColorOf(w.color, deps[i]) == White {
      var w1 := VisitNode(g, deps[i], w).walk;
      VisitAddsNeeded(g, deps[i], w);
      DepsAddNeeded(g, id, i + 1, w1);
      AddsMore(g, id, deps[i], w, w1, VisitDeps(g, id, i, w).walk);
    } else {
      DepsAddNeeded(g, id, i + 1, w);
    }
  }

  /** The order has exactly what the first i nodes need. */
  ghost predicate Covers(g: Graph, i: nat, order: seq<ComponentId>)
    requires i <= |g.nodes|
  {
    forall x :: x in order <==> exists k :: 0 <= k < i && Needs(g, g.nodes[k], x)
  }

  lemma CoversMore(g: Graph, i: nat, w: Walk, w': Walk)
    requires i < |g.nodes| && Covers(g, i, w.order) && w.order <= w'.order && g.nodes[i] in w'.order
    requires DepsFirst(g, w'.order) && AddsNeeded(g, g.nodes[i], w, w')
    ensures Covers(g, i + 1, w'.order)
  {
    hide DepsFirst;
    forall x | x in w'.order ensures exists k :: 0 <= k < i + 1 && Needs(g, g.nodes[k], x) {
      if x in w.order {
        var k :| 0 <= k < i && Needs(g, g.nodes[k], x);
      } else {
        assert Needs(g, g.nodes[i], x);
      }
    }
    forall x | exists k :: 0 <= k < i + 1 && Needs(g, g.nodes[k], x) ensures x in w'.order {
      var k :| 0 <= k < i + 1 && Needs(g, g.nodes[k], x);
      if k == i {
        var p :| IsPath(g, p) && p != [] && p[0] == g.nodes[i] && p[|p| - 1] == x;
        NeededIsThere(g, w'.order, p);
      } else {
        assert x in w.order;
        var m :| 0 <= m < |w.order| && w.order[m] == x;
        assert w'.order[m] == x;
      }
    }
  }

  lemma CoversNothing(g: Graph)
    ensures Covers(g, 0, [])
  {
  }

  /** After the first i nodes the order has what they need, and keeps it in front. */
  lemma {:induction false} CutAt(g: Graph, i: nat, j: nat, w: Walk) returns (n: nat)
    requires Closed(g) && i <= j <= |g.nodes| && Sound(g, w) && w.stack == [] && Covers(g, i, w.order)
    requires VisitNodes(g, i, w).Done?
    ensures var order := VisitNodes(g, i, w).walk.order;
      w.order <= order && |w.order| <= n <= |order| && Covers(g, j, order[..n])
    decreases |g.nodes| - i
  {
    hide Covers, Sound, DepsFirst, AddsNeeded, Needs;
    n := |w.order|;
    var order := VisitNodes(g, i, w).walk.order;
    if i < |g.nodes| {
      var w' := NextRoot(g, i, w);
      var m := CutAt(g, i + 1, if i < j then j else i + 1, w');
      if i < j { n := m; } else { assert order[..n] == w.order; }
    } else {
      assert order[..n] == w.order;
    }
  }

  /** The walk behind the next node. */
  lemma NextRoot(g: Graph, i: nat, w: Walk) returns (w': Walk)
    requires Closed(g) && i < |g.nodes| && Sound(g, w) && w.stack == [] && Covers(g, i, w.order)
    requires VisitNodes(g, i, w).Done?
    ensures Sound(g, w') && w'.stack == [] && w.order <= w'.order && Covers(g, i + 1, w'.order)
    ensures VisitNodes(g, i, w) == VisitNodes(g, i + 1, w')
  {
    var x := g.nodes[i];
    if ColorOf(w.color, x) == White {
      VisitNodeCorrect(g, x, w);
      VisitAddsNeeded(g, x, w);
      w' := VisitNode(g, x, w).walk;
    } else {
      VisitedIsDone(g, w, x);
      w' := w;
    }
    hide VisitNode, VisitNodes, Covers, IsPath, Needs;
    CoversMore(g, i, w, w');
  }

  /**
   However many of the first nodes one takes, what they need, directly or not, is a front part of the construction
   order.
   */
  lemma FirstNodesFirst(g: Graph, order: seq<ComponentId>, j: nat) returns (n: nat)
    requires Closed(g) && ConstructionOrder(g) == Order(order) && j <= |g.nodes|
    ensures n <= |order| && Covers(g, j, order[..n])
  {
    var start := Walk(map[], [], []);
    StartIsSound(g, start);
    hide Sound, VisitNodes, Covers;
    CoversNothing(g);
    n := CutAt(g, 0, j, start);
  }

  /** So a node is built before a later one, unless that is needed by it or by a node in front of it. */
  lemma EarlierUnlessNeeded(g: Graph, order: seq<ComponentId>, i: nat, a: nat, b: nat)
    requires Closed(g) && ConstructionOrder(g) == Order(order) && i < |g.nodes|
    requires b < a < |order| && order[a] == g.nodes[i]
    ensures exists k :: 0 <= k <= i && Needs(g, g.nodes[k], order[b])
  {
    var n := FirstNodesFirst(g, order, i + 1);
    NeedsItself(g, g.nodes[i]);
    assert g.nodes[i] in order[..n];
    ConstructionOrderCorrect(g);
    hide Needs;
    var m :| 0 <= m < n && order[m] == order[a];
    assert m == a;
    assert order[b] in order[..n];
  }

  lemma StartIsSound(g: Graph, w: Walk)
    requires w == Walk(map[], [], [])
    ensures Sound(g, w)
  {
  }
}
