/** compiler/resolver.go: binding every constructor parameter to the component that provides it. */
module Resolver {
  import opened Model
  import opened Ordering

  /** types.AssignableTo. */
  type Assignable = (GoType, GoType) -> bool

  datatype Diagnostic =
    | ConcreteInjection(consumer: string, dep: string, target: string)
    | MissingDependency(consumer: string, dep: string)
    | AmbiguousDependency(consumer: string, dep: string, candidates: seq<ComponentId>)

  // ---- the algorithm ----

  predicate Satisfies(a: Assignable, c: Component, consumer: ComponentId, want: GoType) {
    !(c.id == consumer || c.providedType.None?) && !c.proxied && a(c.providedType.value, want)
  }

  predicate Bypasses(a: Assignable, c: Component, consumer: ComponentId, want: GoType) {
    !(!c.proxied || c.id == consumer) && c.providedType.Some? && a(c.providedType.value, want)
  }

  /** Increasing positions in a list of n components. */
  predicate Positions(s: seq<nat>, n: nat) {
    (forall j :: 0 <= j < |s| ==> s[j] < n) && forall j, k :: 0 <= j < k < |s| ==> s[j] < s[k]
  }

  /** Positions of the candidates, from i on. */
  function Candidates(a: Assignable, app: seq<Component>, consumer: ComponentId, want: GoType, i: nat): (r: seq<nat>)
    requires i <= |app|
    ensures Positions(r, |app|)
    ensures forall j :: 0 <= j < |r| ==> i <= r[j] && Satisfies(a, app[r[j]], consumer, want)
    ensures forall k :: i <= k < |app| && Satisfies(a, app[k], consumer, want) ==> k in r
    decreases |app| - i
  {
    if i == |app| then []
    else
      var rest := Candidates(a, app, consumer, want, i + 1);
      if Satisfies(a, app[i], consumer, want) then [i] + rest else rest
  }

  function ProxiedConcreteMatch(a: Assignable, app: seq<Component>, consumer: ComponentId, want: GoType,
      i: nat): (r: Option<nat>)
    requires i <= |app|
    ensures r.Some? ==> i <= r.value < |app| && !want.isInterface && Bypasses(a, app[r.value], consumer, want)
    ensures r.None? ==> want.isInterface || forall k :: i <= k < |app| ==> !Bypasses(a, app[k], consumer, want)
    decreases |app| - i
  {
    if want.isInterface || i == |app| then None
    else if Bypasses(a, app[i], consumer, want) then Some(i)
    else ProxiedConcreteMatch(a, app, consumer, want, i + 1)
  }

  function Primaries(app: seq<Component>, candidates: seq<nat>): (r: seq<nat>)
    requires Positions(candidates, |app|)
    ensures Positions(r, |app|)
    ensures forall j :: 0 <= j < |r| ==> r[j] in candidates && app[r[j]].primary
    ensures forall j :: 0 <= j < |candidates| && app[candidates[j]].primary ==> candidates[j] in r
  {
    if candidates == [] then []
    else
      assert Positions(candidates[1..], |app|);
      var rest := Primaries(app, candidates[1..]);
      if app[candidates[0]].primary then [candidates[0]] + rest else rest
  }

  function IdsAt(app: seq<Component>, positions: seq<nat>): seq<ComponentId>
    requires Positions(positions, |app|)
  {
    seq(|positions|, i requires 0 <= i < |positions| => app[positions[i]].id)
  }

  /** The id chosen for a dependency that is not resolved yet, or the diagnostic. */
  function Choice(a: Assignable, app: seq<Component>, consumer: Component, dep: Dependency): (ComponentId,
      seq<Diagnostic>) {
    var target := ProxiedConcreteMatch(a, app, consumer.id, dep.typ, 0);
    if target.Some? then ("", [ConcreteInjection(consumer.name, dep.name, app[target.value].name)])
    else
      var candidates := Candidates(a, app, consumer.id, dep.typ, 0);
      if |candidates| == 0 then ("", [MissingDependency(consumer.name, dep.name)])
      else if |candidates| == 1 then (app[candidates[0]].id, [])
      else
        var primaries := Primaries(app, candidates);
        if |primaries| == 1 then (app[primaries[0]].id, [])
        else ("", [AmbiguousDependency(consumer.name, dep.name, Sort(IdsAt(app, candidates)))])
  }

  function ResolvedDependency(a: Assignable, app: seq<Component>, consumer: Component, dep: Dependency): Dependency {
    if dep.resolvedTo != "" then dep else dep.(resolvedTo := Choice(a, app, consumer, dep).0)
  }

  function DiagnosticsFor(a: Assignable, app: seq<Component>, consumer: Component, dep: Dependency): seq<Diagnostic> {
    if dep.resolvedTo != "" then [] else Choice(a, app, consumer, dep).1
  }

  function ResolvedComponent(a: Assignable, app: seq<Component>, c: Component): Component {
    c.(dependencies := seq(|c.dependencies|, i requires 0 <= i < |c.dependencies| =>
                             ResolvedDependency(a, app, c, c.dependencies[i])))
  }

  function ResolvedApp(a: Assignable, app: seq<Component>): seq<Component> {
    seq(|app|, i requires 0 <= i < |app| => ResolvedComponent(a, app, app[i]))
  }

  /** The diagnostics for the first n parameters of c. */
  function ComponentDiagnostics(a: Assignable, app: seq<Component>, c: Component, n: nat): seq<Diagnostic>
    requires n <= |c.dependencies|
  {
    if n == 0 then []
    else ComponentDiagnostics(a, app, c, n - 1) + DiagnosticsFor(a, app, c, c.dependencies[n - 1])
  }

  /** The diagnostics for the first n components. */
  function AppDiagnostics(a: Assignable, app: seq<Component>, n: nat): seq<Diagnostic>
    requires n <= |app|
  {
    if n == 0 then []
    else AppDiagnostics(a, app, n - 1) + ComponentDiagnostics(a, app, app[n - 1], |app[n - 1].dependencies|)
  }

  // ---- the code ----

  /** a and b differ in their dependencies only. */
  ghost predicate SameProviders(a: seq<Component>, b: seq<Component>) {
    |a| == |b| && forall i :: 0 <= i < |a| ==> a[i].(dependencies := b[i].dependencies) == b[i]
  }

  lemma {:induction false} CandidatesIgnoreDependencies(f: Assignable, a: seq<Component>, b: seq<Component>,
      consumer: ComponentId, want: GoType, i: nat)
    requires SameProviders(a, b) && i <= |a|
    ensures Candidates(f, a, consumer, want, i) == Candidates(f, b, consumer, want, i)
    ensures ProxiedConcreteMatch(f, a, consumer, want, i) == ProxiedConcreteMatch(f, b, consumer, want, i)
    decreases |a| - i
  {
    if i < |a| {
      assert a[i].(dependencies := b[i].dependencies) == b[i];
      CandidatesIgnoreDependencies(f, a, b, consumer, want, i + 1);
    }
  }

  lemma {:induction false} PrimariesIgnoreDependencies(a: seq<Component>, b: seq<Component>, candidates: seq<nat>)
    requires SameProviders(a, b) && Positions(candidates, |a|)
    ensures Primaries(a, candidates) == Primaries(b, candidates) && IdsAt(a, candidates) == IdsAt(b, candidates)
  {
    forall k | 0 <= k < |a| ensures a[k].primary == b[k].primary && a[k].id == b[k].id {
      assert a[k].(dependencies := b[k].dependencies) == b[k];
    }
    if candidates != [] { PrimariesIgnoreDependencies(a, b, candidates[1..]); }
  }

  /** Earlier choices do not influence later ones. */
  lemma ChoiceIgnoresDependencies(f: Assignable, a: seq<Component>, b: seq<Component>, c: Component, d: Component,
      dep: Dependency)
    requires SameProviders(a, b) && c.id == d.id && c.name == d.name
    ensures Choice(f, a, c, dep) == Choice(f, b, d, dep)
  {
    hide Candidates, ProxiedConcreteMatch, Primaries, IdsAt, Satisfies, Bypasses;
    CandidatesIgnoreDependencies(f, a, b, c.id, dep.typ, 0);
    var candidates := Candidates(f, a, c.id, dep.typ, 0);
    PrimariesIgnoreDependencies(a, b, candidates);
    forall k | 0 <= k < |a| ensures a[k].id == b[k].id && a[k].name == b[k].name {
      assert a[k].(dependencies := b[k].dependencies) == b[k];
    }
  }

  class Analysis {
    const assignable: Assignable
    var components: seq<Component>
    var diags: seq<Diagnostic>

    constructor (assignable: Assignable, components: seq<Component>)
      ensures this.assignable == assignable && this.components == components && diags == []
    {
      this.assignable, this.components, diags := assignable, components, [];
    }

    /** resolveDependency, for parameter i of component n. */
    method ResolveDependency(n: nat, i: nat)
      requires n < |components| && i < |components[n].dependencies|
      modifies this
      ensures var c := old(components[n]); var dep := c.dependencies[i];
        && components == old(components)[n := c.(dependencies := c.dependencies[i :=
             ResolvedDependency(assignable, old(components), c, dep)])]
        && diags == old(diags) + DiagnosticsFor(assignable, old(components), c, dep)
    {
      hide Candidates, ProxiedConcreteMatch, Primaries, Sort;
      var consumer, dep := components[n], components[n].dependencies[i];
      if dep.resolvedTo != "" {
        assert consumer.dependencies[i := dep] == consumer.dependencies;
        return;
      }
      assert consumer.dependencies[i := dep] == consumer.dependencies;
      var target := ProxiedConcreteMatch(assignable, components, consumer.id, dep.typ, 0);
      if target.Some? {
        diags := diags + [ConcreteInjection(consumer.name, dep.name, components[target.value].name)];
        return;
      }
      var candidates := Candidates(assignable, components, consumer.id, dep.typ, 0);
      if |candidates| == 0 {
        diags := diags + [MissingDependency(consumer.name, dep.name)];
      } else if |candidates| == 1 {
        SetResolved(n, i, components[candidates[0]].id);
      } else {
        var primaries := Primaries(components, candidates);
        if |primaries| == 1 {
          SetResolved(n, i, components[primaries[0]].id);
          return;
        }
        diags := diags + [AmbiguousDependency(consumer.name, dep.name, Sort(IdsAt(components, candidates)))];
      }
    }

    method SetResolved(n: nat, i: nat, id: ComponentId)
      requires n < |components| && i < |components[n].dependencies|
      modifies this`components
      ensures var c := old(components[n]);
        var dep := c.dependencies[i].(resolvedTo := id);
        components == old(components)[n := c.(dependencies := c.dependencies[i := dep])]
    {
      var c := components[n];
      components := components[n := c.(dependencies := c.dependencies[i := c.dependencies[i].(resolvedTo := id)])];
    }

    /** One turn of the inner loop of resolve; app is what resolve started from. */
    method ResolveNext(ghost app: seq<Component>, n: nat, i: nat)
      requires n < |components| == |app| && i < |components[n].dependencies| == |app[n].dependencies|
      requires Partly(assignable, app, components, n, i)
      modifies this
      ensures |components| == |app| && |components[n].dependencies| == |app[n].dependencies|
      ensures Partly(assignable, app, components, n, i + 1)
      ensures diags == old(diags) + DiagnosticsFor(assignable, app, app[n], app[n].dependencies[i])
    {
      PartlyNext(assignable, app, components, n, i);
      hide Partly, ResolvedDependency, DiagnosticsFor;
      ResolveDependency(n, i);
    }

    /** The inner loop of resolve. */
    method ResolveComponent(n: nat)
      requires n < |components|
      modifies this
      ensures components == old(components)[n := ResolvedComponent(assignable, old(components), old(components[n]))]
      ensures diags == old(diags) + ComponentDiagnostics(assignable, old(components), old(components[n]),
                                                         |old(components[n]).dependencies|)
    {
      hide *;
      ghost var app, c := components, components[n];
      var i := 0;
      PartlyStart(assignable, app, n);
      ComponentDiagnosticsNone(assignable, app, c, diags);
      while i < |components[n].dependencies|
        invariant |components| == |app| && |components[n].dependencies| == |c.dependencies|
        invariant 0 <= i <= |c.dependencies| && Partly(assignable, app, components, n, i)
        invariant diags == old(diags) + ComponentDiagnostics(assignable, app, c, i)
        decreases |c.dependencies| - i
      {
        ResolveNext(app, n, i);
        ComponentDiagnosticsStep(assignable, app, c, i, old(diags));
        i := i + 1;
      }
      PartlyDone(assignable, app, components, n);
    }

    method Resolve()
      modifies this
      ensures components == ResolvedApp(assignable, old(components))
      ensures diags == old(diags) + AppDiagnostics(assignable, old(components), |old(components)|)
    {
      hide ResolvedComponent, ComponentDiagnostics;
      ghost var app := components;
      var n := 0;
      while n < |components|
        invariant |components| == |app| && 0 <= n <= |app|
        invariant forall k :: 0 <= k < n ==> components[k] == ResolvedComponent(assignable, app, app[k])
        invariant forall k :: n <= k < |app| ==> components[k] == app[k]
        invariant diags == old(diags) + AppDiagnostics(assignable, app, n)
        decreases |app| - n
      {
        ResolvedAreProviders(assignable, app, components, n);
        ResolvedIgnoresDependencies(assignable, components, app, app[n]);
        ResolveComponent(n);
        n := n + 1;
      }
    }
  }

  lemma ComponentDiagnosticsNone(a: Assignable, app: seq<Component>, c: Component, diags: seq<Diagnostic>)
    ensures diags + ComponentDiagnostics(a, app, c, 0) == diags
  {
  }

  lemma ComponentDiagnosticsStep(a: Assignable, app: seq<Component>, c: Component, i: nat, diags: seq<Diagnostic>)
    requires i < |c.dependencies|
    ensures diags + ComponentDiagnostics(a, app, c, i) + DiagnosticsFor(a, app, c, c.dependencies[i])
         == diags + ComponentDiagnostics(a, app, c, i + 1)
  {
    hide DiagnosticsFor;
  }

  /** now is app with the first i parameters of component n resolved. */
  ghost predicate Partly(a: Assignable, app: seq<Component>, now: seq<Component>, n: nat, i: nat)
    requires n < |app| && i <= |app[n].dependencies|
  {
    var c := app[n];
    && |now| == |app| && now == app[n := now[n]]
    && |now[n].dependencies| == |c.dependencies| && now[n] == c.(dependencies := now[n].dependencies)
    && (forall k :: 0 <= k < i ==> now[n].dependencies[k] == ResolvedDependency(a, app, c, c.dependencies[k]))
    && (forall k :: i <= k < |c.dependencies| ==> now[n].dependencies[k] == c.dependencies[k])
  }

  lemma PartlyStart(a: Assignable, app: seq<Component>, n: nat)
    requires n < |app|
    ensures Partly(a, app, app, n, 0)
  {
    assert app[n := app[n]] == app;
  }

  lemma PartlyNext(a: Assignable, app: seq<Component>, now: seq<Component>, n: nat, i: nat)
    requires n < |app| && i < |app[n].dependencies| && Partly(a, app, now, n, i)
    ensures var c := app[n]; var dep := c.dependencies[i];
      && now[n].dependencies[i] == dep
      && ResolvedDependency(a, now, now[n], dep) == ResolvedDependency(a, app, c, dep)
      && DiagnosticsFor(a, now, now[n], dep) == DiagnosticsFor(a, app, c, dep)
      && var deps := now[n].dependencies[i := ResolvedDependency(a, app, c, dep)];
         Partly(a, app, now[n := now[n].(dependencies := deps)], n, i + 1)
  {
    hide Choice;
    assert SameProviders(now, app);
    ChoiceIgnoresDependencies(a, now, app, now[n], app[n], app[n].dependencies[i]);
  }

  lemma PartlyDone(a: Assignable, app: seq<Component>, now: seq<Component>, n: nat)
    requires n < |app| && Partly(a, app, now, n, |app[n].dependencies|)
    ensures now == app[n := ResolvedComponent(a, app, app[n])]
  {
    hide Choice;
    assert now[n].dependencies == ResolvedComponent(a, app, app[n]).dependencies;
  }

  lemma ResolvedAreProviders(a: Assignable, app: seq<Component>, now: seq<Component>, n: nat)
    requires |now| == |app| && n <= |app|
    requires forall k :: 0 <= k < n ==> now[k] == ResolvedComponent(a, app, app[k])
    requires forall k :: n <= k < |app| ==> now[k] == app[k]
    ensures SameProviders(now, app)
  {
  }

  lemma ResolvedIgnoresDependencies(f: Assignable, a: seq<Component>, b: seq<Component>, c: Component)
    requires SameProviders(a, b)
    ensures ResolvedComponent(f, a, c) == ResolvedComponent(f, b, c)
    ensures ComponentDiagnostics(f, a, c, |c.dependencies|) == ComponentDiagnostics(f, b, c, |c.dependencies|)
  {
    hide Choice, SameProviders;
    forall dep: Dependency ensures Choice(f, a, c, dep) == Choice(f, b, c, dep) {
      ChoiceIgnoresDependencies(f, a, b, c, c, dep);
    }
    DiagnosticsIgnoreDependencies(f, a, b, c, |c.dependencies|);
  }

  lemma {:induction false} DiagnosticsIgnoreDependencies(f: Assignable, a: seq<Component>, b: seq<Component>,
      c: Component, n: nat)
    requires SameProviders(a, b) && n <= |c.dependencies|
    ensures ComponentDiagnostics(f, a, c, n) == ComponentDiagnostics(f, b, c, n)
  {
    hide Choice, SameProviders;
    if n > 0 {
      ChoiceIgnoresDependencies(f, a, b, c, c, c.dependencies[n - 1]);
      DiagnosticsIgnoreDependencies(f, a, b, c, n - 1);
    }
  }
}
