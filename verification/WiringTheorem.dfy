/** The theorem from discovered components to running objects. */
module WiringTheorem {
  import opened Model
  import opened TopologicalSort
  import opened GraphBuild
  import opened Naming
  import opened Wiring
  import opened WiringMeaning
  import opened WiringCorrect
  import opened WiringExact
  import Resolver
  import Resolution

  // ---- from discovered components to running objects ----

  /**
   What discovery provides: every component has a constructor; a parameter that is bound beforehand names another
   component; a proxy has such a parameter for its target.
   */
  ghost predicate Prepared(components: seq<Component>) {
    && DistinctIds(components) && "" !in Ids(components)
    && forall c :: c in components ==>
         && c.ctor.Some?
         && (forall d :: d in c.dependencies && d.resolvedTo != "" ==>
               d.resolvedTo in Ids(components) && d.resolvedTo != c.id)
         && (c.isProxy ==> c.proxyTarget != "" && exists d :: d in c.dependencies && d.resolvedTo == c.proxyTarget)
  }

  lemma ResolvedIsPrepared(a: Resolver.Assignable, components: seq<Component>)
    requires Prepared(components) && Resolver.AppDiagnostics(a, components, |components|) == []
    ensures var app := Resolver.ResolvedApp(a, components);
      && Prepared(app) && Ids(app) == Ids(components)
      && forall c, d :: c in app && d in c.dependencies ==> d.resolvedTo != ""
  {
    var app := Resolver.ResolvedApp(a, components);
    assert Ids(app) == Ids(components) && DistinctIds(app);
    hide Resolver.ResolvedApp, Resolver.AppDiagnostics, Prepared;
    forall k | 0 <= k < |app| ensures PreparedOne(app[k], Ids(components)) {
      ComponentIsPrepared(a, components, k);
    }
    AllPrepared(app, components);
  }

  /**
   A component with a constructor whose parameters are all bound to other components, a proxy's also to its target.
   */
  ghost predicate PreparedOne(c: Component, ids: seq<ComponentId>) {
    && c.ctor.Some?
    && (forall d :: d in c.dependencies ==> d.resolvedTo != "" && d.resolvedTo in ids && d.resolvedTo != c.id)
    && (c.isProxy ==> c.proxyTarget != "" && exists d :: d in c.dependencies && d.resolvedTo == c.proxyTarget)
  }

  lemma AllPrepared(app: seq<Component>, components: seq<Component>)
    requires Prepared(components) && Ids(app) == Ids(components) && DistinctIds(app)
    requires forall k :: 0 <= k < |app| ==> PreparedOne(app[k], Ids(components))
    ensures Prepared(app) && forall c, d :: c in app && d in c.dependencies ==> d.resolvedTo != ""
  {
    hide Ids;
    forall c | c in app ensures PreparedOne(c, Ids(components)) {
      var k :| 0 <= k < |app| && app[k] == c;
    }
  }

  lemma ComponentIsPrepared(a: Resolver.Assignable, components: seq<Component>, k: nat)
    requires Prepared(components) && Resolver.AppDiagnostics(a, components, |components|) == [] && k < |components|
    ensures PreparedOne(Resolver.ResolvedApp(a, components)[k], Ids(components))
  {
    hide Resolver.Choice, Resolver.AppDiagnostics, Resolution.ProperlyBound;
    var was, c := components[k], Resolver.ResolvedApp(a, components)[k];
    assert was in components;
    forall d | d in c.dependencies
      ensures d.resolvedTo != "" && d.resolvedTo in Ids(components) && d.resolvedTo != c.id
    {
      var i :| 0 <= i < |c.dependencies| && c.dependencies[i] == d;
      assert was.dependencies[i] in was.dependencies;
      Resolution.NoDiagnosticsMeansBound(a, components, k, i);
    }
    if c.isProxy {
      var d :| d in was.dependencies && d.resolvedTo == was.proxyTarget;
      var i :| 0 <= i < |was.dependencies| && was.dependencies[i] == d;
      Resolution.NoDiagnosticsMeansBound(a, components, k, i);
      assert c.dependencies[i] == d && c.dependencies[i] in c.dependencies;
    }
  }

  /** The needs of a component are its edges in the graph. */
  lemma NeedsAreEdges(app: seq<Component>, g: Graph, k: nat, d: ComponentId)
    requires Prepared(app) && IsGraphOf(g, app) && k < |app| && d in Needs(app[k])
    requires forall c, x :: c in app && x in c.dependencies ==> x.resolvedTo != ""
    ensures d in g.Deps(app[k].id)
  {
    var c := app[k];
    assert c in app;
    var dep :| dep in c.dependencies && dep.resolvedTo == d;
    var i :| 0 <= i < |c.dependencies| && c.dependencies[i] == dep;
    assert IsRequired(c, d);
    assert IsLast(app, k);
  }

  lemma IndexFinds(app: seq<Component>, id: ComponentId) returns (k: nat)
    requires DistinctIds(app) && id in Ids(app)
    ensures k < |app| && app[k].id == id && id in Indexed(app) && Indexed(app)[id] == app[k]
  {
    k :| 0 <= k < |app| && Ids(app)[k] == id;
    IndexedHasLast(app, k);
  }

  lemma EverythingIsDetected(app: seq<Component>, scheduled: bool, c: Component)
    requires c in app
    ensures Detected(FeaturesOf(app, scheduled), c)
  {
  }

  /** What resolution and the graph of the resolved application hand to generation. */
  ghost predicate FromPipeline(a: Resolver.Assignable, components: seq<Component>, g: Graph, scheduled: bool,
      inp: Input) {
    var app := Resolver.ResolvedApp(a, components);
    && IsGraphOf(g, app) && Closed(g) && ConstructionOrder(g) == Order(inp.order)
    && inp.index == Indexed(app) && inp.features == FeaturesOf(app, scheduled)
    && forall pkg :: pkg in OrderPackages(inp.order, inp.index) + inp.routes ==> Nameable(pkg, inp.self)
  }

  /** Resolution without diagnostics and an acyclic graph give a valid input to generation. */
  lemma PipelineIsValid(a: Resolver.Assignable, components: seq<Component>, g: Graph, scheduled: bool, inp: Input)
    requires Prepared(components) && Resolver.AppDiagnostics(a, components, |components|) == []
    requires FromPipeline(a, components, g, scheduled, inp)
    ensures inp.Valid()
  {
    hide *;
    var app := Resolver.ResolvedApp(a, components);
    PipelineGives(a, components, g, scheduled, inp);
    ResolvedIsPrepared(a, components);
    OrderIsConstruction(g, inp.order);
    PreparedIsDistinct(app);
    SortedDistinctIds(app, g);
    forall k | 0 <= k < |inp.order|
      ensures OrderEntryIsValid(app, inp.order, k) && EntryDetected(inp.index, inp.order, k, inp.features)
    {
      EntryIsValid(app, g, inp.order, k);
      EntryIsDetected(app, inp.order, k, scheduled);
    }
    OrderIsDistinct(g, inp.order);
    ValidFrom(app, inp);
  }

  lemma PipelineGives(a: Resolver.Assignable, components: seq<Component>, g: Graph, scheduled: bool, inp: Input)
    requires FromPipeline(a, components, g, scheduled, inp)
    ensures var app := Resolver.ResolvedApp(a, components);
      && IsGraphOf(g, app) && Closed(g) && ConstructionOrder(g) == Order(inp.order)
      && inp.index == Indexed(app) && inp.features == FeaturesOf(app, scheduled)
    ensures forall pkg :: pkg in OrderPackages(inp.order, inp.index) + inp.routes ==> Nameable(pkg, inp.self)
  {
  }

  lemma OrderIsConstruction(g: Graph, order: seq<ComponentId>)
    requires Closed(g) && ConstructionOrder(g) == Order(order)
    ensures IsConstructionOrder(g, order)
  {
    hide ConstructionOrder, IsConstructionOrder, Acyclic;
    ConstructionOrderCorrect(g);
  }

  lemma PreparedIsDistinct(app: seq<Component>)
    requires Prepared(app)
    ensures DistinctIds(app)
  {
  }

  lemma OrderIsDistinct(g: Graph, order: seq<ComponentId>)
    requires IsConstructionOrder(g, order)
    ensures Distinct(order)
  {
  }

  lemma ValidFrom(app: seq<Component>, inp: Input)
    requires inp.index == Indexed(app) && Distinct(inp.order)
    requires forall k :: 0 <= k < |inp.order| ==> OrderEntryIsValid(app, inp.order, k)
    requires forall k :: 0 <= k < |inp.order| ==> EntryDetected(inp.index, inp.order, k, inp.features)
    requires forall pkg :: pkg in OrderPackages(inp.order, inp.index) + inp.routes ==> Nameable(pkg, inp.self)
    ensures inp.Valid()
  {
    hide Indexed, Detected, OrderPackages, Resolved, Needs, Nameable;
    forall k | 0 <= k < |inp.order|
      ensures inp.order[k] in inp.index && inp.index[inp.order[k]].id == inp.order[k]
      ensures Resolved(inp.order, inp.index[inp.order[k]]) && Detected(inp.features, inp.index[inp.order[k]])
      ensures forall d :: d in Needs(inp.index[inp.order[k]]) ==> d in inp.order[..k]
    {
      assert OrderEntryIsValid(app, inp.order, k) && EntryDetected(inp.index, inp.order, k, inp.features);
    }
  }

  ghost predicate EntryDetected(index: map<ComponentId, Component>, order: seq<ComponentId>, k: nat, f: Features)
    requires k < |order|
  {
    order[k] in index && Detected(f, index[order[k]])
  }

  ghost predicate OrderEntryIsValid(app: seq<Component>, order: seq<ComponentId>, k: nat)
    requires k < |order|
  {
    && order[k] in Indexed(app) && Indexed(app)[order[k]].id == order[k] && Resolved(order, Indexed(app)[order[k]])
    && forall d :: d in Needs(Indexed(app)[order[k]]) ==> d in order[..k]
  }

  lemma EntryIsDetected(app: seq<Component>, order: seq<ComponentId>, k: nat, scheduled: bool)
    requires DistinctIds(app) && k < |order| && OrderEntryIsValid(app, order, k)
    ensures EntryDetected(Indexed(app), order, k, FeaturesOf(app, scheduled))
  {
    IndexedKeys(app);
    var i := IndexFinds(app, order[k]);
    EverythingIsDetected(app, scheduled, app[i]);
  }

  lemma EntryIsValid(app: seq<Component>, g: Graph, order: seq<ComponentId>, k: nat)
    requires Prepared(app) && IsGraphOf(g, app) && IsConstructionOrder(g, order) && k < |order|
    requires forall x :: x in g.nodes <==> x in Ids(app)
    requires forall c, x :: c in app && x in c.dependencies ==> x.resolvedTo != ""
    ensures OrderEntryIsValid(app, order, k)
  {
    assert order[k] in g.nodes;
    var i := IndexFinds(app, order[k]);
    var c := app[i];
    forall d | d in Needs(c) ensures d in order[..k] {
      NeedsAreEdges(app, g, i, d);
    }
    assert c in app;
    forall d | d in c.dependencies ensures d.resolvedTo in order {
      assert d.resolvedTo in Needs(c);
    }
    if c.isProxy { assert c.proxyTarget in Needs(c); }
  }

  /**
   The main theorem. When resolution reports nothing and the graph has no cycle, emission succeeds; the file that is
   emitted compiles exactly when the input is hygienic; and then every run builds the components in construction order,
   each exactly once, from exactly the objects of the components that its parameters were resolved to, until one fails.
   What is returned is that, unless a component took the name nil.
   */
  lemma WiringIsCorrect(a: Resolver.Assignable, components: seq<Component>, g: Graph, scheduled: bool, inp: Input,
      p: Program, fails: Failures)
    requires Prepared(components) && Resolver.AppDiagnostics(a, components, |components|) == []
    requires FromPipeline(a, components, g, scheduled, inp)
    ensures var bs := inp.Bindings();
      && HaveConstructors(bs) && RenderFrom(bs, ByID(bs), inp.Early(), 0).0.Some?
      && AllResolved(inp.order, inp.index) && |inp.order| == |bs|
      && (Generated(inp, p) ==> (Compiles(p) <==> Hygienic(inp)))
    ensures Generated(inp, p) && Compiles(p) ==>
      var plan := Construct(inp.order, inp.index, inp.self, FieldPositions(p), fails, 0, []);
      && Execute(p, fails, 0, []) == Reported(p, plan)
      && ((forall k :: !AsksFor(inp, k, "nil")) ==> Execute(p, fails, 0, []) == plan)
  {
    hide *;
    PipelineIsValid(a, components, g, scheduled, inp);
    ValidIsResolved(inp);
    EmissionSucceeds(inp);
    LocalIsMadeCount(inp);
    if Generated(inp, p) {
      CompilesIffHygienic(inp, p);
      if Compiles(p) {
        StatementLocals(inp, p);
        ExecuteIsConstruct(inp, p, fails, 0, []);
        NilCompiles(inp, p, |inp.order|);
        ReportedIsPlain(p, Construct(inp.order, inp.index, inp.self, FieldPositions(p), fails, 0, []));
      }
    }
  }

  lemma ReportedIsPlain(p: Program, r: Result)
    ensures !Refers(p, |p.body.stmts|, "nil").Local? ==> Reported(p, r) == r
  {
  }
}
