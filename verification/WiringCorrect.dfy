/** The generated body means what the dependency graph says, exactly when it compiles. */
module WiringCorrect {
  import opened Model
  import opened TopologicalSort
  import opened Naming
  import opened Wiring
  import opened WiringMeaning
  import I = Imports

  /**
   The package-level names that are generated for c: a loader, a proxy type, a repository type, their constructors.
   */
  function GeneratedNames(c: Component): seq<string> {
    (if IsLoader(c) then [c.ctor.value.funcName] else [])
    + (if c.isProxy then [c.name, "New" + c.name] else [])
    + (if IsRepository(c) then [TypeName(c) + "Impl", "New" + TypeName(c) + "Impl"] else [])
  }

  function AllGeneratedNames(order: seq<ComponentId>, index: map<ComponentId, Component>): seq<string> {
    if order == [] then []
    else
      (if order[0] in index then GeneratedNames(index[order[0]]) else []) + AllGeneratedNames(order[1..], index)
  }

  /**
   What generation starts from, and what the rest of the generated package contributes: the packages that later sections
   of the file register, the package clauses of all packages, the other package-level names, and the components whose
   type implements error.
   */
  datatype Input = Input(order: seq<ComponentId>, index: map<ComponentId, Component>, features: Features,
                         routes: seq<Package>, self: string, later: seq<Package>, nameOf: string -> string,
                         others: seq<string>, errorTyped: set<ComponentId>)
  {
    function Early(): I.Table {
      EarlyImports(order, index, features, routes, self)
    }

    function Bindings(): seq<Binding> {
      Names(order, index, features, routes, self)
    }

    function EarlyPackages(): seq<Package> {
      OrderPackages(order, index) + routes + FeaturePackages(features)
    }

    predicate HasLoader() {
      exists k :: 0 <= k < |order| && order[k] in index && HandlingOf(index[order[k]]).ReturnErr?
    }

    /** Everything that the file registers, in this order. */
    function Packages(): seq<Package> {
      EarlyPackages() + (if HasLoader() then [FMT] else []) + later
    }

    /** The import table of the whole file. */
    function File(): I.Table {
      I.Registered(I.Table(self, map[], map[]), Packages())
    }

    /** All package-level names, as often as they are declared. */
    function Declared(): seq<string> {
      ["Components", "buildComponents"] + AllGeneratedNames(order, index) + others
    }

    /**
     The graph is acyclic (order is a construction order), resolution left nothing open, packages can be named, and the
     features were detected from these components.
     */
    ghost predicate Valid() {
      && Distinct(order) && AllResolved(order, index)
      && (forall k, d :: 0 <= k < |order| && d in Needs(index[order[k]]) ==> d in order[..k])
      && (forall pkg :: pkg in OrderPackages(order, index) + routes ==> Nameable(pkg, self))
      && (forall k :: 0 <= k < |order| ==> Detected(features, index[order[k]]))
    }
  }

  /** A package of another path has a package clause, or a path that does not end in a slash. */
  predicate Nameable(pkg: Package, self: string) {
    pkg.path == "" || pkg.path == self || I.Base(pkg.path, pkg.name) != ""
  }

  /** Every import path is nameable, as none ends in a slash. */
  lemma PathIsNameable(pkg: Package, self: string)
    requires pkg.path != "" && pkg.path[|pkg.path| - 1] != '/'
    ensures Nameable(pkg, self)
  {
    SegmentIsNotEmpty(pkg.path, |pkg.path| - 1);
  }

  lemma {:induction false} SegmentIsNotEmpty(path: string, i: nat)
    requires i < |path|
    ensures I.LastSegmentFrom(path, i) != ""
  {
    if i > 0 && path[i - 1] != '/' { SegmentIsNotEmpty(path, i - 1); }
  }

  /** The components that c is constructed from. */
  function Needs(c: Component): set<ComponentId> {
    (set d | d in c.dependencies :: d.resolvedTo) + if c.isProxy then {c.proxyTarget} else {}
  }

  predicate Detected(f: Features, c: Component) {
    (IsLoader(c) ==> f.hasConfig) && (c.isProxy ==> f.hasProxies) && (IsRepository(c) ==> f.hasRepos)
  }

  /** p is the generated body in its file. */
  ghost predicate Generated(inp: Input, p: Program) {
    var bindings := inp.Bindings();
    HaveConstructors(bindings) &&
    var (stmts, late) := RenderFrom(bindings, ByID(bindings), inp.Early(), 0);
    && stmts == Some(p.body.stmts)
    && p.body.params == Params(inp.features) && p.body.fields == FieldMap(bindings)
    && p.imports == I.Registered(late, inp.later)
    && p.nameOf == inp.nameOf && p.declared == inp.Declared()
    && p.errorTyped == ErrorTyped(inp)
  }

  function ErrorTyped(inp: Input): set<nat> {
    set k: nat | k < |inp.order| && inp.order[k] in inp.errorTyped
  }

  // ---- imports ----

  lemma {:induction false} RegisteredIsNamed(t: I.Table, pkgs: seq<Package>)
    requires "" !in t.pathOf && forall pkg :: pkg in pkgs ==> Nameable(pkg, t.self)
    ensures "" !in I.Registered(t, pkgs).pathOf && I.Registered(t, pkgs).self == t.self
    decreases |pkgs|
  {
    hide I.Base;
    if pkgs != [] {
      assert pkgs[0] in pkgs && Nameable(pkgs[0], t.self);
      NonEmptyAlias(t, pkgs[0]);
      RegisteredIsNamed(I.Added(t, pkgs[0].path, pkgs[0].name).0, pkgs[1..]);
    }
  }

  lemma NonEmptyAlias(t: I.Table, pkg: Package)
    requires "" !in t.pathOf && Nameable(pkg, t.self)
    ensures "" !in I.Added(t, pkg.path, pkg.name).0.pathOf && I.Added(t, pkg.path, pkg.name).0.self == t.self
  {
    hide I.Base;
  }

  lemma EarlyIsValid(inp: Input)
    ensures inp.Early().Valid() && inp.Early().self == inp.self
    ensures forall pkg :: pkg in OrderPackages(inp.order, inp.index) && pkg.path != "" && pkg.path != inp.self ==>
      pkg.path in inp.Early().aliasOf
  {
    var t0 := I.Table(inp.self, map[], map[]);
    I.RegisteredIsValid(t0, OrderPackages(inp.order, inp.index));
    var t1 := I.Registered(t0, OrderPackages(inp.order, inp.index));
    I.RegisteredIsValid(t1, inp.routes);
    I.RegisteredIsValid(I.Registered(t1, inp.routes), FeaturePackages(inp.features));
  }

  lemma EarlyIsNamed(inp: Input)
    requires inp.Valid()
    ensures "" !in inp.Early().pathOf
  {
    var t0 := I.Table(inp.self, map[], map[]);
    RegisteredIsNamed(t0, OrderPackages(inp.order, inp.index));
    var t1 := I.Registered(t0, OrderPackages(inp.order, inp.index));
    RegisteredIsNamed(t1, inp.routes);
    RegisteredIsNamed(I.Registered(t1, inp.routes), FeaturePackages(inp.features));
  }

  lemma {:induction false} OrderPackagesHas(order: seq<ComponentId>, index: map<ComponentId, Component>, k: nat,
      pkg: Package)
    requires k < |order| && order[k] in index && pkg in ComponentPackages(index[order[k]])
    ensures pkg in OrderPackages(order, index)
  {
    hide ComponentPackages;
    if k > 0 { OrderPackagesHas(order[1..], index, k - 1, pkg); }
  }

  /** The package of every constructor, and fmt where it is needed, are registered before names are given. */
  lemma ConstructorPackageIsEarly(inp: Input, k: nat)
    requires AllResolved(inp.order, inp.index) && k < |inp.order|
    ensures var ctor := inp.index[inp.order[k]].ctor.value;
      && Available(inp.Early(), ctor.pkg.path)
      && (ctor.returnsError ==> Available(inp.Early(), "fmt"))
  {
    var c := inp.index[inp.order[k]];
    EarlyIsValid(inp);
    OrderPackagesHas(inp.order, inp.index, k, c.ctor.value.pkg);
    if c.ctor.value.returnsError { OrderPackagesHas(inp.order, inp.index, k, FMT); }
  }

  predicate Available(t: I.Table, path: string) {
    path == "" || path == t.self || path in t.aliasOf
  }

  // ---- emission ----

  /** The statement for a component does not depend on what was registered in between. */
  lemma RenderIgnoresLater(bd: Binding, byID: map<ComponentId, Binding>, early: I.Table, t: I.Table)
    requires bd.comp.ctor.Some? && early.KeptIn(t) && t.Valid() && Available(early, bd.comp.ctor.value.pkg.path)
    ensures RenderConstructor(bd, byID, t).0 == RenderConstructor(bd, byID, early).0
    ensures early.KeptIn(RenderConstructor(bd, byID, t).1) && RenderConstructor(bd, byID, t).1.Valid()
  {
    var pkg := bd.comp.ctor.value.pkg;
    assert I.Added(t, pkg.path, pkg.name) == (t, I.Added(early, pkg.path, pkg.name).1);
    I.AddIsValid(t, FMT.path, FMT.name);
    hide I.Added, I.Table.Valid;
  }

  lemma {:induction false} RenderIsPointwise(bindings: seq<Binding>, byID: map<ComponentId, Binding>, early: I.Table,
      t: I.Table, i: nat)
    requires i <= |bindings| && HaveConstructors(bindings) && early.KeptIn(t) && t.Valid()
    requires forall k :: 0 <= k < |bindings| ==> Available(early, bindings[k].comp.ctor.value.pkg.path)
    ensures var (stmts, t') := RenderFrom(bindings, byID, t, i);
      && early.KeptIn(t') && t'.Valid()
      && (stmts.Some? <==> forall k :: i <= k < |bindings| ==> RenderConstructor(bindings[k], byID, early).0.Some?)
      && (stmts.Some? ==> |stmts.value| == |bindings| - i)
      && (stmts.Some? ==> forall k :: i <= k < |bindings| ==>
            RenderConstructor(bindings[k], byID, early).0 == Some(stmts.value[k - i]))
    decreases |bindings| - i
  {
    hide RenderConstructor, I.Table.Valid, I.Table.KeptIn, Available;
    if i < |bindings| {
      RenderIgnoresLater(bindings[i], byID, early, t);
      var (stmt, t') := RenderConstructor(bindings[i], byID, t);
      if stmt.Some? { RenderIsPointwise(bindings, byID, early, t', i + 1); }
    }
  }

  lemma {:induction false} ByIDFinds(bindings: seq<Binding>, k: nat)
    requires k < |bindings| && forall i, j :: 0 <= i < j < |bindings| ==> bindings[i].comp.id != bindings[j].comp.id
    ensures bindings[k].comp.id in ByID(bindings) && ByID(bindings)[bindings[k].comp.id] == bindings[k]
  {
    var n := |bindings| - 1;
    if k < n {
      assert bindings[..n][k] == bindings[k];
      ByIDFinds(bindings[..n], k);
    }
  }

  lemma {:induction false} ArgsAre(deps: seq<Dependency>, byID: map<ComponentId, Binding>)
    requires forall d :: d in deps ==> d.resolvedTo != "" && d.resolvedTo in byID
    ensures var args := ArgsFrom(deps, byID);
      && args.Some? && |args.value| == |deps|
      && forall k :: 0 <= k < |deps| ==> args.value[k] == byID[deps[k].resolvedTo].local
  {
    if deps != [] {
      assert deps[0] in deps;
      ArgsAre(deps[1..], byID);
    }
  }

  // ---- facts about every generated body ----

  /** Bindings follow the order; names are unique and avoid the reserved ones; byID finds each binding by its id. */
  lemma NamesFit(inp: Input)
    requires inp.Valid()
    ensures var bs := inp.Bindings();
      && |bs| == |inp.order| && HaveConstructors(bs)
      && (forall k :: 0 <= k < |bs| ==> bs[k].comp == inp.index[inp.order[k]])
      && WellNamed(bs, Reserved(inp.features, inp.Early()), {})
      && (forall k :: 0 <= k < |bs| ==> inp.order[k] in ByID(bs) && ByID(bs)[inp.order[k]] == bs[k])
  {
    BindingsFollow(inp);
    hide Input.Valid, Input.Bindings, Input.Early, ByID, Reserved, WellNamed;
    assert forall k :: 0 <= k < |inp.order| ==> inp.index[inp.order[k]].id == inp.order[k];
    var bs := inp.Bindings();
    forall k | 0 <= k < |bs| ensures inp.order[k] in ByID(bs) && ByID(bs)[inp.order[k]] == bs[k] {
      ByIDFinds(bs, k);
    }
  }

  lemma BindingsFollow(inp: Input)
    requires inp.Valid()
    ensures Distinct(inp.order) && AllResolved(inp.order, inp.index)
    ensures var bs := inp.Bindings();
      && |bs| == |inp.order|
      && (forall k :: 0 <= k < |bs| ==> bs[k].comp == inp.index[inp.order[k]])
      && WellNamed(bs, Reserved(inp.features, inp.Early()), {})
  {
    var reserved := Reserved(inp.features, inp.Early());
    AssignKeepsOrder(inp.order, inp.index, 0, reserved, {});
    AssignIsWellNamed(inp.order, inp.index, 0, reserved, {});
    hide Reserved, WellNamed, EarlyImports, Nameable, Needs, Detected, AssignFrom, OrderPackages, Resolved;
    var bs := inp.Bindings();
    forall k | 0 <= k < |bs| ensures bs[k].comp == inp.index[inp.order[k]] {
      assert bs[k].comp == inp.index[inp.order[0 + k]];
    }
  }

  /** The statement that is emitted for component k. */
  ghost predicate IsStatementFor(inp: Input, k: nat, s: Stmt)
    requires inp.Valid() && k < |inp.order|
  {
    var c := inp.index[inp.order[k]];
    var ctor := c.ctor.value;
    var bs := inp.Bindings();
    |bs| == |inp.order| &&
    var plain := !ctor.constructorless && !ctor.configLoader && !ctor.repositoryImpl && !c.isProxy;
    && s.local == bs[k].local && s.handling == HandlingOf(c)
    && s.alias == (if ctor.constructorless || plain then I.Added(inp.Early(), ctor.pkg.path, ctor.pkg.name).1 else "")
    && s.symbol == (if ctor.constructorless then TypeName(c) else ctor.funcName)
    && if ctor.constructorless then s.args == []
       else if ctor.configLoader then s.args == ["configSource"]
       else if ctor.repositoryImpl then s.args == ["dbProvider"]
       else if c.isProxy then s.args == [bs[PositionOf(inp.order, c.proxyTarget)].local, "proxyDeps"]
       else
         (|s.args| == |c.dependencies| &&
          forall i :: 0 <= i < |s.args| ==>
            s.args[i] == bs[PositionOf(inp.order, c.dependencies[i].resolvedTo)].local)
  }

  lemma StatementFor(inp: Input, k: nat)
    requires inp.Valid() && k < |inp.order|
    ensures var bs := inp.Bindings();
      |bs| == |inp.order| && bs[k].comp.ctor.Some? &&
      var s := RenderConstructor(bs[k], ByID(bs), inp.Early()).0;
      s.Some? && IsStatementFor(inp, k, s.value)
  {
    hide ByID, ArgsFrom, Names, EarlyImports, I.Added, Input.Bindings, Input.Early;
    NamesFit(inp);
    var bs := inp.Bindings();
    var c := inp.index[inp.order[k]];
    forall id | id in inp.order ensures id in ByID(bs) && ByID(bs)[id] == bs[PositionOf(inp.order, id)] {
      assert inp.order[PositionOf(inp.order, id)] == id;
    }
    ArgsAre(c.dependencies, ByID(bs));
  }

  /** When the graph is acyclic and resolution left nothing open, emission cannot fail. */
  lemma EmissionSucceeds(inp: Input)
    requires inp.Valid()
    ensures var bs := inp.Bindings();
      && HaveConstructors(bs)
      && RenderFrom(bs, ByID(bs), inp.Early(), 0).0.Some?
  {
    hide ByID, RenderConstructor, RenderFrom, Names, EarlyImports;
    NamesFit(inp);
    EarlyIsValid(inp);
    var bs := inp.Bindings();
    forall k | 0 <= k < |bs|
      ensures RenderConstructor(bs[k], ByID(bs), inp.Early()).0.Some?
      ensures Available(inp.Early(), bs[k].comp.ctor.value.pkg.path)
    {
      StatementFor(inp, k);
      ConstructorPackageIsEarly(inp, k);
    }
    RenderIsPointwise(bs, ByID(bs), inp.Early(), inp.Early(), 0);
  }

  lemma PackagesAreAvailable(inp: Input)
    requires inp.Valid()
    ensures HaveConstructors(inp.Bindings())
    ensures forall k :: 0 <= k < |inp.Bindings()| ==> Available(inp.Early(), inp.Bindings()[k].comp.ctor.value.pkg.path)
  {
    hide Input.Bindings, Input.Early;
    NamesFit(inp);
    var bs := inp.Bindings();
    forall k | 0 <= k < |bs| ensures bs[k].comp.ctor.Some? && Available(inp.Early(), bs[k].comp.ctor.value.pkg.path) {
      ConstructorPackageIsEarly(inp, k);
    }
  }

  /** The file keeps what was registered early. */
  lemma ImportsGrow(inp: Input, p: Program)
    requires inp.Valid() && Generated(inp, p)
    ensures inp.Early().Valid() && inp.Early().KeptIn(p.imports) && p.imports.Valid() && p.imports.self == inp.self
  {
    EarlyIsValid(inp);
    PackagesAreAvailable(inp);
    var bs := inp.Bindings();
    hide ByID, RenderConstructor, RenderFrom, Names, EarlyImports, I.Registered, Input.Bindings;
    hide Input.Declared, Input.Valid;
    RenderIsPointwise(bs, ByID(bs), inp.Early(), inp.Early(), 0);
    I.RegisteredIsValid(RenderFrom(bs, ByID(bs), inp.Early(), 0).1, inp.later);
  }

  /** Rendering registers fmt for a loader and nothing else that was not there. */
  lemma RenderedTable(bd: Binding, byID: map<ComponentId, Binding>, early: I.Table, t: I.Table)
    requires bd.comp.ctor.Some? && early.KeptIn(t) && Available(early, bd.comp.ctor.value.pkg.path)
    requires bd.comp.ctor.value.returnsError ==> Available(early, "fmt")
    requires RenderConstructor(bd, byID, t).0.Some?
    ensures RenderConstructor(bd, byID, t).1 == if HandlingOf(bd.comp).ReturnErr? then WithFmt(t) else t
  {
  }

  function WithFmt(t: I.Table): I.Table {
    I.Added(t, FMT.path, FMT.name).0
  }

  lemma WithFmtTwice(t: I.Table)
    ensures WithFmt(WithFmt(t)) == WithFmt(t) == I.Registered(t, [FMT])
  {
    assert [FMT][1..] == [];
  }

  lemma {:induction false} RenderedTables(bindings: seq<Binding>, byID: map<ComponentId, Binding>, early: I.Table,
      t: I.Table, i: nat)
    requires i <= |bindings| && HaveConstructors(bindings) && early.KeptIn(t) && t.Valid()
    requires forall k :: 0 <= k < |bindings| ==> FmtIsKnown(early, bindings[k].comp)
    requires RenderFrom(bindings, byID, t, i).0.Some?
    ensures RenderFrom(bindings, byID, t, i).1 == if Loads(bindings, i) then WithFmt(t) else t
    decreases |bindings| - i
  {
    hide RenderConstructor, I.Table.Valid, I.Table.KeptIn, HandlingOf, WithFmt, Available;
    if i < |bindings| {
      assert FmtIsKnown(early, bindings[i].comp);
      RenderedTable(bindings[i], byID, early, t);
      RenderIgnoresLater(bindings[i], byID, early, t);
      WithFmtTwice(t);
      RenderedTables(bindings, byID, early, RenderConstructor(bindings[i], byID, t).1, i + 1);
    }
  }

  predicate FmtIsKnown(early: I.Table, c: Component) {
    && c.ctor.Some? && Available(early, c.ctor.value.pkg.path)
    && (c.ctor.value.returnsError ==> Available(early, "fmt"))
  }

  predicate Loads(bindings: seq<Binding>, i: nat) {
    exists k :: i <= k < |bindings| && HandlingOf(bindings[k].comp).ReturnErr?
  }

  /** The import table of the file is that of the packages that the input lists, in that order. */
  lemma FileIsGenerated(inp: Input, p: Program)
    requires inp.Valid() && Generated(inp, p)
    ensures p.imports == inp.File()
  {
    hide ByID, RenderConstructor, RenderFrom, Names, EarlyImports, I.Registered, Input.Bindings, Input.Declared;
    hide Input.Valid, Input.EarlyPackages, HandlingOf, Available, WithFmt, Loads, Input.HasLoader, FmtIsKnown;
    EarlyIsValid(inp);
    FmtIsKnownEarly(inp);
    var bs := inp.Bindings();
    RenderedTables(bs, ByID(bs), inp.Early(), inp.Early(), 0);
    FileFromEarly(inp);
  }

  lemma FmtIsKnownEarly(inp: Input)
    requires inp.Valid()
    ensures forall k :: 0 <= k < |inp.Bindings()| ==> FmtIsKnown(inp.Early(), inp.Bindings()[k].comp)
    ensures Loads(inp.Bindings(), 0) == inp.HasLoader()
  {
    NamesFit(inp);
    hide Input.Bindings, Input.Early, HandlingOf, Available;
    forall k | 0 <= k < |inp.Bindings()| ensures FmtIsKnown(inp.Early(), inp.Bindings()[k].comp) {
      ConstructorPackageIsEarly(inp, k);
    }
  }

  lemma FileFromEarly(inp: Input)
    ensures inp.Early() == I.Registered(I.Table(inp.self, map[], map[]), inp.EarlyPackages())
    ensures inp.File() == I.Registered(if inp.HasLoader() then WithFmt(inp.Early()) else inp.Early(), inp.later)
  {
    hide Input.HasLoader, OrderPackages, FeaturePackages, WithFmt, I.Registered;
    var t0 := I.Table(inp.self, map[], map[]);
    var order, loads := OrderPackages(inp.order, inp.index), if inp.HasLoader() then [FMT] else [];
    I.RegisteredConcat(t0, order, inp.routes);
    I.RegisteredConcat(t0, order + inp.routes, FeaturePackages(inp.features));
    I.RegisteredConcat(t0, inp.EarlyPackages(), loads);
    I.RegisteredConcat(t0, inp.EarlyPackages() + loads, inp.later);
    WithFmtTwice(inp.Early());
    NothingRegistered(inp.Early());
  }

  lemma NothingRegistered(t: I.Table)
    ensures I.Registered(t, []) == t
  {
  }

  /** Every generated body has the expected statements. */
  lemma GeneratedStatements(inp: Input, p: Program)
    requires inp.Valid() && Generated(inp, p)
    ensures |p.body.stmts| == |inp.order| == |inp.Bindings()|
    ensures forall k :: 0 <= k < |inp.order| ==> IsStatementFor(inp, k, p.body.stmts[k])
  {
    hide ByID, RenderConstructor, RenderFrom, Names, EarlyImports, IsStatementFor, I.Registered, Input.Declared;
    NamesFit(inp);
    EarlyIsValid(inp);
    var bs := inp.Bindings();
    PackagesAreAvailable(inp);
    RenderIsPointwise(bs, ByID(bs), inp.Early(), inp.Early(), 0);
    forall k | 0 <= k < |inp.order| ensures IsStatementFor(inp, k, p.body.stmts[k]) {
      StatementFor(inp, k);
      assert RenderConstructor(bs[k], ByID(bs), inp.Early()).0 == Some(p.body.stmts[k - 0]);
    }
  }

  // ---- a body that compiles means the plan ----

  /** A local refers to the statement that declared it, anywhere after. */
  lemma LocalFound(inp: Input, p: Program, i: nat, j: nat)
    requires inp.Valid() && Generated(inp, p) && |p.body.stmts| == |inp.order| == |inp.Bindings()|
    requires j < i <= |inp.order|
    requires forall k :: 0 <= k < |inp.order| ==> p.body.stmts[k].local == inp.Bindings()[k].local
    ensures Refers(p, i, inp.Bindings()[j].local) == Local(j)
  {
    NamesFit(inp);
    hide Input.Valid, Generated, Names, Reserved;
    var bs := inp.Bindings();
    var n := LocalAt(p.body.stmts, i, bs[j].local);
    assert p.body.stmts[j].local == bs[j].local;
    assert n.Some? && p.body.stmts[n.value].local == bs[n.value].local;
  }

  /** The packages a component brings along: those of its type, that of its constructor, and fmt for an error. */
  ghost predicate BringsAlong(c: Component, path: string) {
    || (c.providedType.Some? && I.HasPath(c.providedType.value.packages, path))
    || (c.ctor.Some? && c.ctor.value.pkg.path == path)
    || (c.ctor.Some? && c.ctor.value.returnsError && path == "fmt")
  }

  lemma ComponentPaths(c: Component, path: string)
    ensures I.HasPath(ComponentPackages(c), path) <==> BringsAlong(c, path)
  {
    var typed := if c.providedType.Some? then c.providedType.value.packages else [];
    var rest := if c.ctor.Some? then [c.ctor.value.pkg] + (if c.ctor.value.returnsError then [FMT] else []) else [];
    I.HasPathConcat(typed, rest, path);
    if c.ctor.Some? {
      var last := if c.ctor.value.returnsError then [FMT] else [];
      I.HasPathConcat([c.ctor.value.pkg], last, path);
      assert I.HasPath([c.ctor.value.pkg], path) <==> c.ctor.value.pkg.path == path by {
        assert [c.ctor.value.pkg][0] == c.ctor.value.pkg;
      }
      assert last != [] ==> last[0] == FMT;
    }
  }

  ghost predicate SomeBring(order: seq<ComponentId>, index: map<ComponentId, Component>, path: string) {
    exists k :: 0 <= k < |order| && order[k] in index && BringsAlong(index[order[k]], path)
  }

  lemma {:induction false} OrderPaths(order: seq<ComponentId>, index: map<ComponentId, Component>, path: string)
    ensures I.HasPath(OrderPackages(order, index), path) <==> SomeBring(order, index, path)
  {
    hide BringsAlong, ComponentPackages;
    if order != [] {
      var first := if order[0] in index then ComponentPackages(index[order[0]]) else [];
      I.HasPathConcat(first, OrderPackages(order[1..], index), path);
      OrderPaths(order[1..], index, path);
      if order[0] in index { ComponentPaths(index[order[0]], path); }
      assert SomeBring(order, index, path) <==>
        (order[0] in index && BringsAlong(index[order[0]], path)) || SomeBring(order[1..], index, path) by {
        if k :| 0 <= k < |order| && order[k] in index && BringsAlong(index[order[k]], path) {
          if k > 0 { assert order[1..][k - 1] == order[k]; }
        }
        if k :| 0 <= k < |order[1..]| && order[1..][k] in index && BringsAlong(index[order[1..][k]], path) {
          assert order[k + 1] == order[1..][k];
        }
      }
    }
  }

  lemma FeaturePaths(f: Features, path: string)
    ensures I.HasPath(FeaturePackages(f), path) <==>
      || (f.hasConfig && path == "github.com/zombocoder/goboot/runtime/config")
      || ((f.hasProxies || f.hasScheduled) && path == "github.com/zombocoder/goboot/runtime")
      || (f.hasRepos && path == "github.com/zombocoder/goboot/runtime/db")
  {
    var a, b := if f.hasConfig then [CONFIG] else [], if f.hasProxies then [RUNTIME] else [];
    var c, d := if f.hasRepos then [DB] else [], if f.hasScheduled then [RUNTIME] else [];
    I.HasPathConcat(a + b + c, d, path);
    I.HasPathConcat(a + b, c, path);
    I.HasPathConcat(a, b, path);
    OnePath(CONFIG, path);
    OnePath(RUNTIME, path);
    OnePath(DB, path);
    assert !I.HasPath([], path);
  }

  lemma OnePath(pkg: Package, path: string)
    ensures I.HasPath([pkg], path) <==> pkg.path == path
  {
    assert [pkg][0] == pkg;
  }

  /**
   Exactly these packages are registered before names are given: what the components bring along, those of the routes,
   and those of the runtime that the features need; and never the generated package itself.
   */
  lemma RegisteredUpFront(inp: Input, path: string)
    ensures path in inp.Early().aliasOf <==>
      && path != "" && path != inp.self
      && (|| SomeBring(inp.order, inp.index, path)
          || (exists k :: 0 <= k < |inp.routes| && inp.routes[k].path == path)
          || (inp.features.hasConfig && path == "github.com/zombocoder/goboot/runtime/config")
          || ((inp.features.hasProxies || inp.features.hasScheduled) && path == "github.com/zombocoder/goboot/runtime")
          || (inp.features.hasRepos && path == "github.com/zombocoder/goboot/runtime/db"))
  {
    hide BringsAlong, FeaturePackages, OrderPackages;
    var t0 := I.Table(inp.self, map[], map[]);
    var t1 := I.Registered(t0, OrderPackages(inp.order, inp.index));
    I.RegisteredPaths(t0, OrderPackages(inp.order, inp.index), path);
    I.RegisteredPaths(t1, inp.routes, path);
    I.RegisteredPaths(I.Registered(t1, inp.routes), FeaturePackages(inp.features), path);
    OrderPaths(inp.order, inp.index, path);
    FeaturePaths(inp.features, path);
    assert I.HasPath(inp.routes, path) <==> exists k :: 0 <= k < |inp.routes| && inp.routes[k].path == path;
  }

  /** What is reserved: err, out, the parameters that the features ask for, and the aliases registered up front. */
  lemma ReservedAre(inp: Input, name: string)
    ensures name in Reserved(inp.features, inp.Early()) <==>
      || name == "err" || name == "out"
      || (inp.features.hasConfig && name == "configSource") || (inp.features.hasProxies && name == "proxyDeps")
      || (inp.features.hasRepos && name == "dbProvider")
      || name in inp.Early().pathOf
  {
    hide Input.Early;
  }

  /** Locals never hide a parameter, an import that was registered early, err or out. */
  lemma ReservedIsNoLocal(inp: Input, p: Program, i: nat, name: string)
    requires inp.Valid() && Generated(inp, p) && |p.body.stmts| == |inp.order| == |inp.Bindings()| && i <= |inp.order|
    requires forall k :: 0 <= k < |inp.order| ==> p.body.stmts[k].local == inp.Bindings()[k].local
    requires name in Reserved(inp.features, inp.Early())
    ensures LocalAt(p.body.stmts, i, name).None?
  {
    NamesFit(inp);
    hide Input.Valid, Generated, Names, Reserved;
  }

  lemma StatementLocals(inp: Input, p: Program)
    requires inp.Valid() && Generated(inp, p)
    ensures |p.body.stmts| == |inp.order| == |inp.Bindings()|
    ensures forall k :: 0 <= k < |inp.order| ==> p.body.stmts[k].local == inp.Bindings()[k].local
  {
    GeneratedStatements(inp, p);
    NamesFit(inp);
    forall k | 0 <= k < |inp.order| ensures p.body.stmts[k].local == inp.Bindings()[k].local {
      assert IsStatementFor(inp, k, p.body.stmts[k]);
    }
  }

  /** The alias of a constructor's package, and that it leads back to the package. */
  lemma AliasLeadsBack(inp: Input, p: Program, pkg: Package)
    requires inp.Valid() && Available(inp.Early(), pkg.path) && inp.Early().KeptIn(p.imports) && p.imports.Valid()
    ensures var alias := I.Added(inp.Early(), pkg.path, pkg.name).1;
      && (alias == "" <==> pkg.path == "" || pkg.path == inp.self)
      && (alias != "" ==>
            alias in inp.Early().pathOf && alias in p.imports.pathOf && p.imports.pathOf[alias] == pkg.path)
  {
    EarlyIsValid(inp);
    EarlyIsNamed(inp);
  }

  lemma CalleeIsPlanned(inp: Input, p: Program, k: nat)
    requires inp.Valid() && Generated(inp, p) && k < |inp.order|
    ensures |p.body.stmts| == |inp.order|
    ensures CalleePath(p, k).Some? ==>
      CalleePath(p, k).value == Plan(inp.order, inp.self, inp.index[inp.order[k]]).path
    ensures p.body.stmts[k].symbol == Plan(inp.order, inp.self, inp.index[inp.order[k]]).symbol
    ensures p.body.stmts[k].handling == HandlingOf(inp.index[inp.order[k]])
  {
    GeneratedStatements(inp, p);
    ImportsGrow(inp, p);
    ConstructorPackageIsEarly(inp, k);
    var c := inp.index[inp.order[k]];
    assert IsStatementFor(inp, k, p.body.stmts[k]);
    AliasLeadsBack(inp, p, c.ctor.value.pkg);
    if CalleePath(p, k).Some? { CalleePathIs(p, k); }
    hide Names, Generated, Input.Valid, EarlyImports, Reserved, Wanted, I.Added, Available, HandlingOf, CalleePath;
  }

  lemma CalleePathIs(p: Program, k: nat)
    requires k < |p.body.stmts| && CalleePath(p, k).Some?
    ensures var alias := p.body.stmts[k].alias;
      CalleePath(p, k).value ==
        if alias == "" then p.imports.self else if alias in p.imports.pathOf then p.imports.pathOf[alias] else ""
  {
  }

  lemma ParameterFound(inp: Input, p: Program, k: nat, name: string)
    requires inp.Valid() && Generated(inp, p) && k < |inp.order| && name in Params(inp.features)
    ensures |p.body.stmts| == |inp.order| && Refers(p, k, name) == Parameter
  {
    StatementLocals(inp, p);
    ReservedIsNoLocal(inp, p, k, name);
  }

  /** The position of something that component k needs is before k, and its local refers to it. */
  lemma NeededIsEarlier(inp: Input, p: Program, k: nat, id: ComponentId)
    requires inp.Valid() && Generated(inp, p) && k < |inp.order| && id in Needs(inp.index[inp.order[k]])
    ensures id in inp.order && PositionOf(inp.order, id) < k
    ensures |p.body.stmts| == |inp.order| == |inp.Bindings()|
    ensures Refers(p, k, inp.Bindings()[PositionOf(inp.order, id)].local) == Local(PositionOf(inp.order, id))
  {
    assert id in inp.order[..k];
    var j :| 0 <= j < k && inp.order[j] == id;
    assert PositionOf(inp.order, id) == j;
    StatementLocals(inp, p);
    LocalFound(inp, p, k, j);
  }

  lemma ArgumentsArePlanned(inp: Input, p: Program, k: nat)
    requires inp.Valid() && Generated(inp, p) && k < |inp.order|
    ensures |p.body.stmts| == |inp.order|
    ensures var s, plan := p.body.stmts[k], Plan(inp.order, inp.self, inp.index[inp.order[k]]);
      && |s.args| == |plan.args|
      && forall i :: 0 <= i < |s.args| ==> IsValue(p, k, s.args[i]) && RefOf(p, k, s.args[i]) == plan.args[i]
  {
    GeneratedStatements(inp, p);
    var c := inp.index[inp.order[k]];
    var s, plan := p.body.stmts[k], Plan(inp.order, inp.self, c);
    assert IsStatementFor(inp, k, s) && Detected(inp.features, c);
    forall i | 0 <= i < |s.args|
      ensures |s.args| == |plan.args| && IsValue(p, k, s.args[i]) && RefOf(p, k, s.args[i]) == plan.args[i]
    {
      ArgumentIsPlanned(inp, p, k, i);
    }
  }

  lemma ArgumentIsPlanned(inp: Input, p: Program, k: nat, i: nat)
    requires inp.Valid() && Generated(inp, p) && k < |inp.order| == |p.body.stmts| && i < |p.body.stmts[k].args|
    requires IsStatementFor(inp, k, p.body.stmts[k]) && Detected(inp.features, inp.index[inp.order[k]])
    ensures var s, plan := p.body.stmts[k], Plan(inp.order, inp.self, inp.index[inp.order[k]]);
      |s.args| == |plan.args| && IsValue(p, k, s.args[i]) && RefOf(p, k, s.args[i]) == plan.args[i]
  {
    hide Input.Valid, Generated, Input.Bindings, Refers, HandlingOf, AllResolved;
    ResolvedAt(inp, k);
    var c := inp.index[inp.order[k]];
    var ctor := c.ctor.value;
    if ctor.configLoader {
      ParameterFound(inp, p, k, "configSource");
    } else if ctor.repositoryImpl {
      ParameterFound(inp, p, k, "dbProvider");
    } else if c.isProxy {
      if i == 0 {
        NeededIsEarlier(inp, p, k, c.proxyTarget);
      } else {
        ParameterFound(inp, p, k, "proxyDeps");
      }
    } else {
      assert c.dependencies[i] in c.dependencies;
      NeededIsEarlier(inp, p, k, c.dependencies[i].resolvedTo);
    }
  }

  lemma ResolvedAt(inp: Input, k: nat)
    requires inp.Valid() && k < |inp.order|
    ensures AllResolved(inp.order, inp.index) && inp.order[k] in inp.index
    ensures Resolved(inp.order, inp.index[inp.order[k]])
  {
  }

  lemma StatementBuildsPlan(inp: Input, p: Program, k: nat)
    requires inp.Valid() && Generated(inp, p) && k < |inp.order|
    ensures |p.body.stmts| == |inp.order|
    ensures CalleePath(p, k).Some? ==> BuiltAt(p, k) == Plan(inp.order, inp.self, inp.index[inp.order[k]])
    ensures p.body.stmts[k].handling == HandlingOf(inp.index[inp.order[k]])
  {
    hide Input.Valid, Generated, Plan, CalleePath, RefOf;
    CalleeIsPlanned(inp, p, k);
    ArgumentsArePlanned(inp, p, k);
  }

  ghost function FieldPositions(p: Program): map<string, nat>
    requires Compiles(p)
  {
    map f | f in p.body.fields :: Refers(p, |p.body.stmts|, p.body.fields[f]).n
  }

  /** A finished construction as the body returns it, which takes a local called nil for the error. */
  function Reported(p: Program, r: Result): Result {
    if !r.Finished? then r
    else
      match Refers(p, |p.body.stmts|, "nil")
      case Local(k) => Misreported(r.heap, r.fields, k)
      case _ => r
  }

  lemma {:induction false} ExecuteIsConstruct(inp: Input, p: Program, fails: Failures, i: nat, heap: seq<Built>)
    requires inp.Valid() && Generated(inp, p) && Compiles(p) && i <= |inp.order| == |p.body.stmts|
    ensures Execute(p, fails, i, heap)
         == Reported(p, Construct(inp.order, inp.index, inp.self, FieldPositions(p), fails, i, heap))
    decreases |inp.order| - i
  {
    hide Generated, Plan, BuiltAt, HandlingOf, CalleePath, StmtCompiles, FileCompiles, Refers;
    if i < |inp.order| {
      StatementBuildsPlan(inp, p, i);
      CompilesAt(p, i);
      ExecuteIsConstruct(inp, p, fails, i + 1, heap + [Plan(inp.order, inp.self, inp.index[inp.order[i]])]);
    }
  }

  lemma CompilesAt(p: Program, i: nat)
    requires Compiles(p) && i < |p.body.stmts|
    ensures StmtCompiles(p, i) && CalleePath(p, i).Some?
  {
  }

  lemma {:induction false} FieldMapHas(bindings: seq<Binding>, k: nat)
    requires k < |bindings| && forall i, j :: 0 <= i < j < |bindings| ==> bindings[i].field != bindings[j].field
    ensures bindings[k].field in FieldMap(bindings) && FieldMap(bindings)[bindings[k].field] == bindings[k].local
  {
    var n := |bindings| - 1;
    if k < n {
      assert bindings[..n][k] == bindings[k];
      FieldMapHas(bindings[..n], k);
    }
  }

  /** Field k of the result is the object of component k. */
  lemma FieldHoldsComponent(inp: Input, p: Program, k: nat)
    requires inp.Valid() && Generated(inp, p) && Compiles(p) && k < |inp.order|
    ensures |inp.Bindings()| == |inp.order|
    ensures inp.Bindings()[k].field in FieldPositions(p) && FieldPositions(p)[inp.Bindings()[k].field] == k
  {
    NamesFit(inp);
    FieldMapHas(inp.Bindings(), k);
    StatementLocals(inp, p);
    LocalFound(inp, p, |inp.order|, k);
  }
}
