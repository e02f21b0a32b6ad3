/** generator/di/di.go: the body of the generated buildComponents, as statements instead of text. */
module Wiring {
  import opened Model
  import opened Naming
  import I = Imports

  const RUNTIME := Package("github.com/zombocoder/goboot/runtime", "runtime")
  const CONFIG := Package("github.com/zombocoder/goboot/runtime/config", "config")
  const DB := Package("github.com/zombocoder/goboot/runtime/db", "db")
  const FMT := Package("fmt", "fmt")

  /** What a statement does with the error of its call: there is none, it is returned, or wrapped by fmt.Errorf. */
  datatype Handling = Infallible | ReturnErr | WrapErr

  /** local := alias.symbol(args), or &alias.symbol{} for a literal; without alias if that is "". */
  datatype Stmt = Stmt(local: string, literal: bool, alias: string, symbol: string, args: seq<string>,
                       handling: Handling)

  datatype Features = Features(hasConfig: bool, hasProxies: bool, hasRepos: bool, hasScheduled: bool)

  predicate IsLoader(c: Component) {
    c.ctor.Some? && c.ctor.value.configLoader
  }

  predicate IsRepository(c: Component) {
    c.ctor.Some? && c.ctor.value.repositoryImpl
  }

  // ---- imports that are registered before names are given ----

  function ComponentPackages(c: Component): seq<Package> {
    (if c.providedType.Some? then c.providedType.value.packages else [])
    + (if c.ctor.Some? then [c.ctor.value.pkg] + (if c.ctor.value.returnsError then [FMT] else []) else [])
  }

  function OrderPackages(order: seq<ComponentId>, index: map<ComponentId, Component>): seq<Package> {
    if order == [] then []
    else (if order[0] in index then ComponentPackages(index[order[0]]) else []) + OrderPackages(order[1..], index)
  }

  function FeaturePackages(f: Features): seq<Package> {
    (if f.hasConfig then [CONFIG] else []) + (if f.hasProxies then [RUNTIME] else [])
    + (if f.hasRepos then [DB] else []) + (if f.hasScheduled then [RUNTIME] else [])
  }

  function Params(f: Features): set<string> {
    (if f.hasConfig then {"configSource"} else {}) + (if f.hasProxies then {"proxyDeps"} else {})
    + (if f.hasRepos then {"dbProvider"} else {})
  }

  function Reserved(f: Features, t: I.Table): set<string> {
    {"err", "out"} + Params(f) + t.pathOf.Keys
  }

  // ---- one statement per component ----

  /** byID of assignNames. */
  function ByID(bindings: seq<Binding>): map<ComponentId, Binding> {
    if bindings == [] then map[]
    else
      var n := |bindings| - 1;
      ByID(bindings[..n])[bindings[n].comp.id := bindings[n]]
  }

  /** Locals of the first n resolved parameters; None if one is unresolved or unknown. */
  function ArgsFrom(deps: seq<Dependency>, byID: map<ComponentId, Binding>): Option<seq<string>> {
    if deps == [] then Some([])
    else if deps[0].resolvedTo == "" || deps[0].resolvedTo !in byID then None
    else
      match ArgsFrom(deps[1..], byID)
      case None => None
      case Some(rest) => Some([byID[deps[0].resolvedTo].local] + rest)
  }

  function TypeName(c: Component): string {
    if c.named.Some? then c.named.value else ""
  }

  /** renderConstructor; the table may gain fmt. */
  function RenderConstructor(bd: Binding, byID: map<ComponentId, Binding>, t: I.Table): (Option<Stmt>, I.Table)
    requires bd.comp.ctor.Some?
  {
    var ctor := bd.comp.ctor.value;
    if ctor.constructorless then
      var (t', alias) := I.Added(t, ctor.pkg.path, ctor.pkg.name);
      (Some(Stmt(bd.local, true, alias, TypeName(bd.comp), [], Infallible)), t')
    else if ctor.configLoader then
      (Some(Stmt(bd.local, false, "", ctor.funcName, ["configSource"], ReturnErr)), I.Added(t, FMT.path, FMT.name).0)
    else if ctor.repositoryImpl then
      (Some(Stmt(bd.local, false, "", ctor.funcName, ["dbProvider"], Infallible)), t)
    else if bd.comp.isProxy then
      if bd.comp.proxyTarget !in byID then (None, t)
      else
        var args := [byID[bd.comp.proxyTarget].local, "proxyDeps"];
        (Some(Stmt(bd.local, false, "", ctor.funcName, args, Infallible)), t)
    else
      match ArgsFrom(bd.comp.dependencies, byID)
      case None => (None, t)
      case Some(args) =>
        var (t', alias) := I.Added(t, ctor.pkg.path, ctor.pkg.name);
        if ctor.returnsError then
          (Some(Stmt(bd.local, false, alias, ctor.funcName, args, WrapErr)), I.Added(t', FMT.path, FMT.name).0)
        else (Some(Stmt(bd.local, false, alias, ctor.funcName, args, Infallible)), t')
  }

  ghost predicate HaveConstructors(bindings: seq<Binding>) {
    forall i :: 0 <= i < |bindings| ==> bindings[i].comp.ctor.Some?
  }

  /** renderConstructors, from binding i on. */
  function RenderFrom(bindings: seq<Binding>, byID: map<ComponentId, Binding>, t: I.Table,
      i: nat): (Option<seq<Stmt>>, I.Table)
    requires i <= |bindings| && HaveConstructors(bindings)
    decreases |bindings| - i
  {
    if i == |bindings| then (Some([]), t)
    else
      var (stmt, t') := RenderConstructor(bindings[i], byID, t);
      if stmt.None? then (None, t')
      else
        var (rest, t'') := RenderFrom(bindings, byID, t', i + 1);
        if rest.None? then (None, t'') else (Some([stmt.value] + rest.value), t'')
  }

  // ---- the code ----

  method RegisterImports(c: Component, im: I.Imports)
    requires im.Current().Valid()
    modifies im
    ensures im.Current() == I.Registered(old(im.Current()), ComponentPackages(c)) && im.Current().Valid()
  {
    if c.providedType.Some? { RegisterPackages(c.providedType.value.packages, im); }
    ghost var typed := im.Current();
    var rest := if c.ctor.Some? then [c.ctor.value.pkg] + (if c.ctor.value.returnsError then [FMT] else []) else [];
    assert c.providedType.None? ==> [] + rest == rest;
    I.RegisteredConcat(old(im.Current()), if c.providedType.Some? then c.providedType.value.packages else [], rest);
    if c.ctor.Some? {
      var ctor := c.ctor.value;
      var _ := im.Add(ctor.pkg.path, ctor.pkg.name);
      ghost var t := im.Current();
      assert t == I.Added(typed, ctor.pkg.path, ctor.pkg.name).0;
      if ctor.returnsError {
        var _ := im.Add("fmt", "fmt");
        assert rest[1..] == [FMT] && [FMT][1..] == [];
        assert im.Current() == I.Registered(t, [FMT]);
      } else {
        assert rest[1..] == [];
      }
    }
  }

  /** types.TypeString with im.qualifier: every package of the type, as it is printed. */
  method RegisterPackages(pkgs: seq<Package>, im: I.Imports)
    requires im.Current().Valid()
    modifies im
    ensures im.Current() == I.Registered(old(im.Current()), pkgs) && im.Current().Valid()
  {
    for i := 0 to |pkgs|
      invariant im.Current().Valid()
      invariant I.Registered(im.Current(), pkgs[i..]) == I.Registered(old(im.Current()), pkgs)
    {
      var _ := im.Add(pkgs[i].path, pkgs[i].name);
      assert pkgs[i..][1..] == pkgs[i + 1..];
    }
  }

  method ConstructorArgs(deps: seq<Dependency>, byID: map<ComponentId, Binding>) returns (args: Option<seq<string>>)
    ensures args == ArgsFrom(deps, byID)
  {
    var done := [];
    for i := 0 to |deps|
      invariant ArgsFrom(deps, byID) == Prepend(done, ArgsFrom(deps[i..], byID))
    {
      var dep := deps[i];
      assert deps[i..][1..] == deps[i + 1..];
      if dep.resolvedTo == "" { return None; }
      if dep.resolvedTo !in byID { return None; }
      PrependOne(done, byID[dep.resolvedTo].local, ArgsFrom(deps[i + 1..], byID));
      done := done + [byID[dep.resolvedTo].local];
    }
    assert done + [] == done;
    return Some(done);
  }

  function Prepend<T>(done: seq<T>, rest: Option<seq<T>>): (r: Option<seq<T>>)
    ensures done == [] ==> r == rest
  {
    match rest
    case None => None
    case Some(s) => assert [] + s == s; Some(done + s)
  }

  lemma PrependOne<T>(done: seq<T>, x: T, rest: Option<seq<T>>)
    ensures rest.Some? ==> Prepend(done, Some([x] + rest.value)) == Prepend(done + [x], rest)
  {
    if rest.Some? { assert done + ([x] + rest.value) == done + [x] + rest.value; }
  }

  method RenderOne(bd: Binding, byID: map<ComponentId, Binding>, im: I.Imports) returns (stmt: Option<Stmt>)
    requires bd.comp.ctor.Some? && im.Current().Valid()
    modifies im
    ensures (stmt, im.Current()) == RenderConstructor(bd, byID, old(im.Current())) && im.Current().Valid()
  {
    var c := bd.comp;
    var ctor := c.ctor.value;
    if ctor.constructorless {
      var alias := im.Add(ctor.pkg.path, ctor.pkg.name);
      return Some(Stmt(bd.local, true, alias, TypeName(c), [], Infallible));
    }
    if ctor.configLoader {
      var _ := im.Add("fmt", "fmt");
      return Some(Stmt(bd.local, false, "", ctor.funcName, ["configSource"], ReturnErr));
    }
    if ctor.repositoryImpl {
      return Some(Stmt(bd.local, false, "", ctor.funcName, ["dbProvider"], Infallible));
    }
    if c.isProxy {
      if c.proxyTarget !in byID { return None; }
      return Some(Stmt(bd.local, false, "", ctor.funcName, [byID[c.proxyTarget].local, "proxyDeps"], Infallible));
    }
    var args := ConstructorArgs(c.dependencies, byID);
    if args.None? { return None; }
    var alias := im.Add(ctor.pkg.path, ctor.pkg.name);
    if ctor.returnsError {
      var _ := im.Add("fmt", "fmt");
      return Some(Stmt(bd.local, false, alias, ctor.funcName, args.value, WrapErr));
    }
    return Some(Stmt(bd.local, false, alias, ctor.funcName, args.value, Infallible));
  }

  method RenderConstructors(bindings: seq<Binding>, byID: map<ComponentId, Binding>, im: I.Imports)
    returns (body: Option<seq<Stmt>>)
    requires HaveConstructors(bindings) && im.Current().Valid()
    modifies im
    ensures (body, im.Current()) == RenderFrom(bindings, byID, old(im.Current()), 0) && im.Current().Valid()
  {
    hide RenderConstructor;
    var done := [];
    ghost var all := RenderFrom(bindings, byID, im.Current(), 0);
    for i := 0 to |bindings|
      invariant im.Current().Valid()
      invariant RenderFrom(bindings, byID, im.Current(), i).1 == all.1
      invariant Prepend(done, RenderFrom(bindings, byID, im.Current(), i).0) == all.0
    {
      ghost var t := im.Current();
      var stmt := RenderOne(bindings[i], byID, im);
      if stmt.None? { return None; }
      PrependOne(done, stmt.value, RenderFrom(bindings, byID, im.Current(), i + 1).0);
      done := done + [stmt.value];
    }
    assert done + [] == done;
    return Some(done);
  }

  // ---- the whole body ----

  /** The body of buildComponents: its parameters, statements, and the field of the result that gets each local. */
  datatype Body = Body(params: set<string>, stmts: seq<Stmt>, fields: map<string, string>)

  function FeaturesOf(components: seq<Component>, scheduled: bool): Features {
    Features(exists c :: c in components && IsLoader(c), exists c :: c in components && c.isProxy,
             exists c :: c in components && IsRepository(c), scheduled)
  }

  method DetectFeatures(components: seq<Component>, scheduled: bool) returns (f: Features)
    ensures f == FeaturesOf(components, scheduled)
    ensures f.hasConfig <==> exists c :: c in components && c.ctor.Some? && c.ctor.value.configLoader
    ensures f.hasRepos <==> exists c :: c in components && c.ctor.Some? && c.ctor.value.repositoryImpl
    ensures (f.hasProxies <==> exists c :: c in components && c.isProxy) && f.hasScheduled == scheduled
  {
    f := Features(false, false, false, scheduled);
    for i := 0 to |components|
      invariant f.hasConfig <==> exists k :: 0 <= k < i && IsLoader(components[k])
      invariant f.hasProxies <==> exists k :: 0 <= k < i && components[k].isProxy
      invariant f.hasRepos <==> exists k :: 0 <= k < i && IsRepository(components[k])
      invariant f.hasScheduled == scheduled
    {
      if IsLoader(components[i]) { f := f.(hasConfig := true); }
      if components[i].isProxy { f := f.(hasProxies := true); }
      if IsRepository(components[i]) { f := f.(hasRepos := true); }
    }
  }

  /** The imports when names are given; routes are the packages of request and response types. */
  function EarlyImports(order: seq<ComponentId>, index: map<ComponentId, Component>, f: Features,
      routes: seq<Package>, self: string):
      I.Table
  {
    var components := I.Registered(I.Table(self, map[], map[]), OrderPackages(order, index));
    I.Registered(I.Registered(components, routes), FeaturePackages(f))
  }

  function FieldMap(bindings: seq<Binding>): map<string, string> {
    if bindings == [] then map[]
    else
      var n := |bindings| - 1;
      FieldMap(bindings[..n])[bindings[n].field := bindings[n].local]
  }

  function Names(order: seq<ComponentId>, index: map<ComponentId, Component>, f: Features, routes: seq<Package>,
      self: string):
      seq<Binding>
  {
    AssignFrom(order, index, 0, Reserved(f, EarlyImports(order, index, f, routes, self)), {})
  }

  ghost predicate AllConstructed(order: seq<ComponentId>, index: map<ComponentId, Component>) {
    forall k :: 0 <= k < |order| && order[k] in index ==> index[order[k]].ctor.Some?
  }

  lemma {:induction false} NamesHaveConstructors(order: seq<ComponentId>, index: map<ComponentId, Component>, i: nat,
      locals: set<string>, fields: set<string>)
    requires i <= |order| && AllConstructed(order, index)
    ensures HaveConstructors(AssignFrom(order, index, i, locals, fields))
    decreases |order| - i
  {
    hide FirstFree, ToLocalName, ToFieldName;
    if i < |order| {
      if order[i] !in index {
        NamesHaveConstructors(order, index, i + 1, locals, fields);
      } else {
        var b := AssignFrom(order, index, i, locals, fields)[0];
        NamesHaveConstructors(order, index, i + 1, locals + {b.local}, fields + {b.field});
      }
    }
  }

  method Generate(order: seq<ComponentId>, index: map<ComponentId, Component>, components: seq<Component>,
      scheduled: bool, routes: seq<Package>, self: string)
    returns (body: Option<Body>, im: I.Imports)
    requires AllConstructed(order, index)
    ensures var f := FeaturesOf(components, scheduled);
      var bindings := Names(order, index, f, routes, self);
      HaveConstructors(bindings) &&
      var (stmts, t) := RenderFrom(bindings, ByID(bindings), EarlyImports(order, index, f, routes, self), 0);
      && im.Current() == t
      && body == if stmts.None? then None else Some(Body(Params(f), stmts.value, FieldMap(bindings)))
  {
    hide AssignFrom, RenderFrom;
    var f := DetectFeatures(components, scheduled);
    im := new I.Imports(self);
    RegisterOrder(order, index, im);
    RegisterPackages(routes, im);
    RegisterPackages(FeaturePackages(f), im);
    var reserved := Reserved(f, im.Current());
    var bindings := AssignNames(order, index, reserved);
    NamesHaveConstructors(order, index, 0, reserved, {});
    var stmts := RenderConstructors(bindings, ByID(bindings), im);
    if stmts.None? { return None, im; }
    return Some(Body(Params(f), stmts.value, FieldMap(bindings))), im;
  }

  method RegisterOrder(order: seq<ComponentId>, index: map<ComponentId, Component>, im: I.Imports)
    requires im.Current().Valid()
    modifies im
    ensures im.Current() == I.Registered(old(im.Current()), OrderPackages(order, index)) && im.Current().Valid()
  {
    for i := 0 to |order|
      invariant im.Current().Valid()
      invariant I.Registered(im.Current(), OrderPackages(order[i..], index))
             == I.Registered(old(im.Current()), OrderPackages(order, index))
    {
      assert order[i..][1..] == order[i + 1..];
      ghost var t := im.Current();
      if order[i] in index {
        RegisterImports(index[order[i]], im);
        I.RegisteredConcat(t, ComponentPackages(index[order[i]]), OrderPackages(order[i + 1..], index));
      } else {
        assert [] + OrderPackages(order[i + 1..], index) == OrderPackages(order[i + 1..], index);
      }
    }
  }
}
