/** Exactly when the generated file compiles, as a condition on what generation starts from. */
module WiringExact {
  import opened Model
  import opened TopologicalSort
  import opened Naming
  import opened Wiring
  import opened WiringMeaning
  import opened WiringCorrect
  import I = Imports

  // ---- who gets a name ----

  /** The path of the package that the file refers to by x, for an x without a digit at the end. */
  function NamedPath(inp: Input, x: string): Option<string> {
    I.PathNamed(inp.Packages(), {"", inp.self}, x)
  }

  function NamedEarly(inp: Input, x: string): Option<string> {
    I.PathNamed(inp.EarlyPackages(), {"", inp.self}, x)
  }

  /** Neither a package nor anything declared in the generated package goes by the predeclared name x. */
  predicate Predeclared(inp: Input, x: string) {
    NamedPath(inp, x).None? && x !in inp.Declared()
  }

  predicate AsksFor(inp: Input, k: int, x: string) {
    0 <= k < |inp.order| && inp.order[k] in inp.index && ToLocalName(inp.index[inp.order[k]].name) == x
  }

  predicate FirstAsker(inp: Input, k: int, x: string) {
    AsksFor(inp, k, x) && forall j :: 0 <= j < k ==> !AsksFor(inp, j, x)
  }

  /** The loop gives away a free name no later than at a component that asks for it. */
  lemma {:induction false} NameIsTaken(order: seq<ComponentId>, index: map<ComponentId, Component>, i: nat,
      locals: set<string>, fields: set<string>, k: nat, x: string) returns (j: nat)
    requires i <= k < |order| && forall m :: i <= m <= k ==> order[m] in index
    requires ToLocalName(index[order[k]].name) == x && x !in locals
    ensures j < |AssignFrom(order, index, i, locals, fields)|
    ensures AssignFrom(order, index, i, locals, fields)[j].local == x
    ensures j <= k - i
    decreases |order| - i
  {
    hide ToLocalName, ToFieldName, FirstFree;
    var bs := AssignFrom(order, index, i, locals, fields);
    var b := bs[0];
    var rest := AssignFrom(order, index, i + 1, locals + {b.local}, fields + {b.field});
    assert bs == [b] + rest;
    assert b.local == FirstFree(ToLocalName(index[order[i]].name), 1, locals);
    hide AssignFrom;
    if k == i {
      FirstFreeIs(x, 1, 1, locals);
      j := 0;
    } else if b.local == x {
      j := 0;
    } else {
      var l := NameIsTaken(order, index, i + 1, locals + {b.local}, fields + {b.field}, k, x);
      j := l + 1;
      assert bs[j] == rest[l];
    }
  }

  /** One of the first i locals is x exactly when x is not reserved and one of the first i components asks for it. */
  ghost predicate GivenAmong(inp: Input, i: nat, x: string)
    requires i <= |inp.Bindings()|
  {
    (exists k :: 0 <= k < i && inp.Bindings()[k].local == x) <==>
      x !in Reserved(inp.features, inp.Early()) && exists k :: 0 <= k < i && AsksFor(inp, k, x)
  }

  lemma LocalExistsIff(inp: Input, i: nat, x: string)
    requires inp.Valid() && !EndsInDigit(x) && i <= |inp.order| == |inp.Bindings()|
    ensures GivenAmong(inp, i, x)
  {
    hide ToLocalName, Reserved, EarlyImports, Tried, Nth;
    NamesFit(inp);
    var bs := inp.Bindings();
    if k :| 0 <= k < i && bs[k].local == x {
      OnlyItsOwnCandidate(x, ToLocalName(bs[k].comp.name));
      assert AsksFor(inp, k, x);
    }
    if k :| x !in Reserved(inp.features, inp.Early()) && 0 <= k < i && AsksFor(inp, k, x) {
      var j := NameIsTaken(inp.order, inp.index, 0, Reserved(inp.features, inp.Early()), {}, k, x);
      assert bs[j].local == x;
    }
  }

  /** A name that is not reserved goes to the first component that asks for it. */
  lemma FirstAskerGetsName(inp: Input, k: nat, x: string)
    requires inp.Valid() && !EndsInDigit(x) && k < |inp.order| == |inp.Bindings()|
    ensures inp.Bindings()[k].local == x <==> x !in Reserved(inp.features, inp.Early()) && FirstAsker(inp, k, x)
  {
    hide *;
    LocalExistsIff(inp, k, x);
    LocalExistsIff(inp, k + 1, x);
    LocalsDiffer(inp);
    FirstAmong(inp, k, x);
  }

  lemma FirstAmong(inp: Input, k: nat, x: string)
    requires k < |inp.order| == |inp.Bindings()|
    requires GivenAmong(inp, k, x) && GivenAmong(inp, k + 1, x)
    requires forall i, j :: 0 <= i < j < |inp.Bindings()| ==> inp.Bindings()[i].local != inp.Bindings()[j].local
    ensures inp.Bindings()[k].local == x <==> x !in Reserved(inp.features, inp.Early()) && FirstAsker(inp, k, x)
  {
    hide Input.Bindings, AsksFor, Reserved, Input.Early;
  }

  lemma NamesInFile(inp: Input, p: Program, x: string)
    requires inp.Valid() && Generated(inp, p) && !EndsInDigit(x)
    ensures x in p.imports.pathOf <==> NamedPath(inp, x).Some?
    ensures x in p.imports.pathOf ==> p.imports.pathOf[x] == NamedPath(inp, x).value
  {
    FileIsGenerated(inp, p);
    hide Input.Valid, Generated, EndsInDigit, Input.Packages;
    var t0 := I.Table(inp.self, map[], map[]);
    assert t0.aliasOf.Keys + {"", t0.self} == {"", inp.self};
    I.FirstNamedGetsAlias(t0, inp.Packages(), x);
  }

  lemma NamesAreEarly(inp: Input, x: string)
    requires !EndsInDigit(x)
    ensures x in inp.Early().pathOf <==> NamedEarly(inp, x).Some?
  {
    FileFromEarly(inp);
    hide EndsInDigit, Input.EarlyPackages, Input.Early;
    var t0 := I.Table(inp.self, map[], map[]);
    assert t0.aliasOf.Keys + {"", t0.self} == {"", inp.self};
    I.FirstNamedGetsAlias(t0, inp.EarlyPackages(), x);
  }

  // ---- the condition ----

  predicate Fallible(inp: Input, k: nat)
    requires AllResolved(inp.order, inp.index) && k < |inp.order|
  {
    !HandlingOf(inp.index[inp.order[k]]).Infallible?
  }

  predicate FallibleBefore(inp: Input, k: nat)
    requires AllResolved(inp.order, inp.index) && k <= |inp.order|
  {
    exists j :: 0 <= j < k && Fallible(inp, j)
  }

  /**
   Of every imported package, the alias is a name that is not declared in the package; and where the import line leaves
   it out, it is the name in the package clause.
   */
  predicate ImportsUsable(inp: Input) {
    var t := inp.File();
    forall path :: path in t.aliasOf ==>
      && (t.aliasOf[path] == I.LastSegment(path) ==> inp.nameOf(path) == t.aliasOf[path])
      && IsName(t.aliasOf[path]) && t.aliasOf[path] != "init" && t.aliasOf[path] !in inp.Declared()
  }

  /** fmt is the first package of the file that is called fmt. */
  predicate FmtComesFirst(inp: Input) {
    NamedPath(inp, "fmt") == Some("fmt")
  }

  /** No name is declared twice, in particular none of those generated for the components. */
  ghost predicate SurroundingsHygienic(inp: Input) {
    && ImportsUsable(inp) && Distinct(inp.Declared()) && Predeclared(inp, "error")
    && (inp.HasLoader() ==> FmtComesFirst(inp))
  }

  /** The name of k is more than dropped characters, a digit and so on, or an underscore. */
  predicate NameUsable(inp: Input, k: nat)
    requires AllResolved(inp.order, inp.index) && k < |inp.order|
  {
    var name := inp.index[inp.order[k]].name;
    !LeadingDigit(name, 0) && ToLocalName(name) != "_"
  }

  /** The constructor of c is in another package. */
  predicate IsForeign(inp: Input, c: Component)
    requires c.ctor.Some?
  {
    var ctor := c.ctor.value;
    && (ctor.constructorless || (!ctor.configLoader && !ctor.repositoryImpl && !c.isProxy))
    && ctor.pkg.path != "" && ctor.pkg.path != inp.self
  }

  /**
   One of the first k locals is x. A local that ends in a digit may be the result of making names distinct; any other is
   the name its component asks for.
   */
  ghost predicate TakenBefore(inp: Input, k: nat, x: string)
    requires k <= |inp.Bindings()|
  {
    if EndsInDigit(x) then exists j :: 0 <= j < k && inp.Bindings()[j].local == x
    else x !in Reserved(inp.features, inp.Early()) && exists j :: 0 <= j < k && AsksFor(inp, j, x)
  }

  lemma TakenBeforeIff(inp: Input, k: nat, x: string)
    requires inp.Valid() && k <= |inp.order| == |inp.Bindings()|
    ensures TakenBefore(inp, k, x) <==> exists j :: 0 <= j < k && inp.Bindings()[j].local == x
  {
    hide Input.Valid, Input.Bindings, EndsInDigit, Reserved, Input.Early, AsksFor;
    if !EndsInDigit(x) { LocalExistsIff(inp, k, x); }
  }

  /** What the call of component k names is hidden by nothing in the body, and declared if it is in this package. */
  ghost predicate CalleeVisible(inp: Input, k: nat)
    requires AllResolved(inp.order, inp.index) && k < |inp.order| == |inp.Bindings()|
  {
    var c := inp.index[inp.order[k]];
    var callee := Plan(inp.order, inp.self, c);
    if IsForeign(inp, c) then
      && (forall x :: x in Params(inp.features) ==> NamedPath(inp, x) != Some(callee.path))
      && (FallibleBefore(inp, k) ==> NamedPath(inp, "err") != Some(callee.path))
    else
      && callee.symbol in inp.Declared() && callee.symbol !in Params(inp.features)
      && (FallibleBefore(inp, k) ==> callee.symbol != "err")
      && !TakenBefore(inp, k, callee.symbol)
  }

  /** nil is compared with after a call that can fail: nothing up to there may be called nil. */
  ghost predicate StatementHygienic(inp: Input, k: nat)
    requires AllResolved(inp.order, inp.index) && k < |inp.order| == |inp.Bindings()|
  {
    && CalleeVisible(inp, k)
    && (Fallible(inp, k) ==> Predeclared(inp, "nil") && forall j :: 0 <= j <= k ==> !AsksFor(inp, j, "nil"))
    && (HandlingOf(inp.index[inp.order[k]]).WrapErr? ==> FmtComesFirst(inp))
  }

  /** nil is returned: it is the predeclared one, or it went to a component whose type happens to implement error. */
  ghost predicate NilReturnable(inp: Input) {
    if NamedEarly(inp, "nil").None? && exists k :: AsksFor(inp, k, "nil") then
      forall k :: FirstAsker(inp, k, "nil") ==> inp.order[k] in inp.errorTyped
    else Predeclared(inp, "nil")
  }

  ghost predicate Hygienic(inp: Input)
    requires AllResolved(inp.order, inp.index) && |inp.order| == |inp.Bindings()|
  {
    && SurroundingsHygienic(inp)
    && (forall k :: 0 <= k < |inp.order| ==> NameUsable(inp, k))
    && (forall k :: 0 <= k < |inp.order| ==> StatementHygienic(inp, k))
    && NilReturnable(inp)
  }

  // ---- the surroundings ----

  lemma ImportsCompileIff(inp: Input, p: Program)
    requires inp.Valid() && Generated(inp, p)
    ensures (forall line :: line in I.Block(p.imports) ==> ImportCompiles(p, line)) <==> ImportsUsable(inp)
  {
    FileIsGenerated(inp, p);
    hide Input.Valid, Names, RenderFrom, Input.Declared, I.Block, I.LastSegment, IsName, Input.File;
    var t := inp.File();
    if ImportsUsable(inp) {
      forall line | line in I.Block(t) ensures ImportCompiles(p, line) {
        I.BlockHas(t, line);
      }
    }
    if forall line :: line in I.Block(t) ==> ImportCompiles(p, line) {
      forall path | path in t.aliasOf
        ensures t.aliasOf[path] == I.LastSegment(path) ==> inp.nameOf(path) == t.aliasOf[path]
        ensures IsName(t.aliasOf[path]) && t.aliasOf[path] != "init" && t.aliasOf[path] !in inp.Declared()
      {
        I.BlockHas(t, I.LineOf(t, path));
        assert ImportCompiles(p, I.LineOf(t, path));
      }
    }
  }

  lemma HandlingsAreKept(inp: Input, p: Program)
    requires inp.Valid() && Generated(inp, p)
    ensures |p.body.stmts| == |inp.order|
    ensures forall k :: 0 <= k < |inp.order| ==> p.body.stmts[k].handling == HandlingOf(inp.index[inp.order[k]])
  {
    GeneratedStatements(inp, p);
    hide Generated, Input.Bindings, HandlingOf;
    forall k | 0 <= k < |inp.order| ensures p.body.stmts[k].handling == HandlingOf(inp.index[inp.order[k]]) {
      assert IsStatementFor(inp, k, p.body.stmts[k]);
    }
  }

  lemma CallsLoaderIff(inp: Input, p: Program)
    requires inp.Valid() && Generated(inp, p)
    ensures CallsLoader(p) <==> inp.HasLoader()
  {
    HandlingsAreKept(inp, p);
    hide Generated, Input.Bindings, HandlingOf, Needs, Detected;
  }

  lemma FmtIff(inp: Input, p: Program)
    requires inp.Valid() && Generated(inp, p)
    ensures MeansFmt(p) <==> FmtComesFirst(inp)
  {
    NamesInFile(inp, p, "fmt");
    hide Input.Valid, Generated, NamedPath;
  }

  lemma PredeclaredIff(inp: Input, p: Program, x: string)
    requires inp.Valid() && Generated(inp, p) && !EndsInDigit(x)
    ensures Predeclared(inp, x) <==> x !in p.imports.pathOf && x !in p.declared
  {
    NamesInFile(inp, p, x);
    hide Input.Valid, Names, RenderFrom, NamedPath, Input.Declared;
  }

  ghost predicate FieldsAreNames(p: Program) {
    forall f :: f in p.body.fields ==> IsName(f)
  }

  lemma SurroundingsCompileIff(inp: Input, p: Program)
    requires inp.Valid() && Generated(inp, p)
    ensures FileCompiles(p) <==> SurroundingsHygienic(inp) && FieldsAreNames(p)
  {
    ImportsCompileIff(inp, p);
    CallsLoaderIff(inp, p);
    FmtIff(inp, p);
    PredeclaredIff(inp, p, "error");
    assert p.declared == inp.Declared();
    hide *;
    SurroundingsFrom(inp, p);
  }

  lemma SurroundingsFrom(inp: Input, p: Program)
    requires (forall line :: line in I.Block(p.imports) ==> ImportCompiles(p, line)) <==> ImportsUsable(inp)
    requires (CallsLoader(p) <==> inp.HasLoader()) && (MeansFmt(p) <==> FmtComesFirst(inp))
    requires Predeclared(inp, "error") <==> "error" !in p.imports.pathOf && "error" !in p.declared
    requires p.declared == inp.Declared()
    ensures FileCompiles(p) <==> SurroundingsHygienic(inp) && FieldsAreNames(p)
  {
    hide I.Block, ImportCompiles, ImportsUsable, CallsLoader, MeansFmt, Input.HasLoader, FmtComesFirst;
    hide Predeclared, Distinct;
    hide Input.Declared, IsName;
  }

  // ---- the names of locals and fields ----

  lemma LocalIsMade(inp: Input, k: nat)
    requires inp.Valid() && k < |inp.order|
    ensures |inp.Bindings()| == |inp.order|
    ensures var b := inp.Bindings()[k];
      && b.comp == inp.index[inp.order[k]]
      && Tried(b.local, ToLocalName(b.comp.name)) && Tried(b.field, ToFieldName(b.comp.name))
      && b.local != "err" && b.local !in Params(inp.features)
  {
    NamesFit(inp);
    hide Input.Valid, Names, ToLocalName, ToFieldName, EarlyImports, Tried, Params;
  }

  lemma LocalIsNew(inp: Input, p: Program, k: nat)
    requires inp.Valid() && Generated(inp, p) && k < |inp.order|
    ensures |p.body.stmts| == |inp.order| == |inp.Bindings()|
    ensures p.body.stmts[k].local == inp.Bindings()[k].local && p.body.params == Params(inp.features)
    ensures LocalAt(p.body.stmts, k, p.body.stmts[k].local).None?
  {
    hide *;
    StatementLocals(inp, p);
    LocalsDiffer(inp);
    SurroundingsAre(inp, p);
    LocalAtIff(inp, p, k, p.body.stmts[k].local);
  }

  lemma LocalsDiffer(inp: Input)
    requires inp.Valid()
    ensures |inp.Bindings()| == |inp.order|
    ensures forall i, j :: 0 <= i < j < |inp.Bindings()| ==> inp.Bindings()[i].local != inp.Bindings()[j].local
  {
    NamesFit(inp);
    hide Input.Valid, Names, Tried;
  }

  lemma NewVariable(inp: Input, p: Program, k: nat)
    requires inp.Valid() && Generated(inp, p) && k < |inp.order|
    ensures |p.body.stmts| == |inp.order| == |inp.Bindings()|
    ensures IsNewVariable(p, k, p.body.stmts[k].local) <==>
      !LeadingDigit(inp.index[inp.order[k]].name, 0) && inp.Bindings()[k].local != "_"
  {
    hide Input.Valid, Generated, Names, IsIdentifier, LeadingDigit, ToLocalName, Tried, Input.Bindings, LocalAt, Params;
    LocalIsMade(inp, k);
    LocalIsNew(inp, p, k);
    var b := inp.Bindings()[k];
    LocalIsIdentifier(b.local, b.comp.name);
    LocalIsNoKeyword(b.local, b.comp.name);
  }

  lemma {:induction false} FieldMapKey(bindings: seq<Binding>, f: string) returns (k: nat)
    requires f in FieldMap(bindings)
    ensures k < |bindings| && bindings[k].field == f && FieldMap(bindings)[f] == bindings[k].local
  {
    var n := |bindings| - 1;
    if f == bindings[n].field { k := n; } else { k := FieldMapKey(bindings[..n], f); }
  }

  lemma FieldIsName(inp: Input, k: nat)
    requires inp.Valid() && k < |inp.order| && NameUsable(inp, k)
    ensures |inp.Bindings()| == |inp.order| && IsName(inp.Bindings()[k].field)
  {
    hide Input.Valid, Input.Bindings, ToLocalName, ToFieldName, LeadingDigit, Tried, IsIdentifier;
    LocalIsMade(inp, k);
    var b := inp.Bindings()[k];
    FieldIsIdentifier(b.field, b.comp.name);
    FieldIsNoKeyword(b.field, b.comp.name);
  }

  lemma FieldsAreUsable(inp: Input, p: Program)
    requires inp.Valid() && Generated(inp, p) && forall k :: 0 <= k < |inp.order| ==> NameUsable(inp, k)
    ensures FieldsAreNames(p)
  {
    hide Input.Valid, Names, NameUsable, IsName, RenderFrom, ByID, Input.Declared;
    forall f | f in p.body.fields ensures IsName(f) {
      var k := FieldMapKey(inp.Bindings(), f);
      LocalIsMadeCount(inp);
      FieldIsName(inp, k);
    }
  }

  lemma LocalIsMadeCount(inp: Input)
    requires inp.Valid()
    ensures |inp.Bindings()| == |inp.order|
  {
    NamesFit(inp);
  }

  lemma EarlyAliasIsName(inp: Input, p: Program, x: string)
    requires inp.Valid() && Generated(inp, p) && ImportsUsable(inp) && x in inp.Early().pathOf
    ensures IsName(x)
  {
    ImportsGrow(inp, p);
    FileIsGenerated(inp, p);
    hide Input.Valid, Generated, Input.Early, Input.File, IsName, Input.Declared, I.LastSegment;
    var path := inp.Early().pathOf[x];
    assert inp.Early().aliasOf[path] == x;
    assert path in inp.File().aliasOf;
  }

  /** An underscore is no alias, so it would go to a component that asks for it. */
  lemma BlankIsFree(inp: Input, p: Program)
    requires inp.Valid() && Generated(inp, p) && ImportsUsable(inp)
    ensures "_" !in Reserved(inp.features, inp.Early())
  {
    if "_" in inp.Early().pathOf { EarlyAliasIsName(inp, p, "_"); }
    hide Input.Valid, Generated, Input.Early, ImportsUsable;
  }

  lemma NamesCompileIff(inp: Input, p: Program)
    requires inp.Valid() && Generated(inp, p) && ImportsUsable(inp)
    ensures |p.body.stmts| == |inp.order|
    ensures FieldsAreNames(p) && (forall k :: 0 <= k < |inp.order| ==> IsNewVariable(p, k, p.body.stmts[k].local)) <==>
      forall k :: 0 <= k < |inp.order| ==> NameUsable(inp, k)
  {
    hide *;
    StatementLocals(inp, p);
    ValidIsResolved(inp);
    LocalsAreMadeFresh(inp, p);
    BlankIsFree(inp, p);
    BlankLocals(inp);
    if FieldsAreNames(p) && forall k :: 0 <= k < |inp.order| ==> IsNewVariable(p, k, p.body.stmts[k].local) {
      forall k | 0 <= k < |inp.order| ensures NameUsable(inp, k) { BlankAskerBreaks(inp, p, k); }
    }
    if forall k :: 0 <= k < |inp.order| ==> NameUsable(inp, k) {
      FieldsAreUsable(inp, p);
      forall k | 0 <= k < |inp.order| ensures IsNewVariable(p, k, p.body.stmts[k].local) { UsableIsFresh(inp, p, k); }
    }
  }

  lemma BlankLocals(inp: Input)
    requires inp.Valid() && |inp.order| == |inp.Bindings()| && "_" !in Reserved(inp.features, inp.Early())
    ensures (exists j :: 0 <= j < |inp.order| && inp.Bindings()[j].local == "_") <==>
      exists j :: 0 <= j < |inp.order| && AsksFor(inp, j, "_")
  {
    LocalExistsIff(inp, |inp.order|, "_");
    hide Input.Valid, Input.Bindings, AsksFor, Reserved;
  }

  lemma LocalsAreMadeFresh(inp: Input, p: Program)
    requires inp.Valid() && Generated(inp, p)
    ensures AllResolved(inp.order, inp.index) && |p.body.stmts| == |inp.order| == |inp.Bindings()|
    ensures MadeFresh(inp, p)
  {
    StatementLocals(inp, p);
    hide Generated, IsNewVariable, Input.Bindings, LeadingDigit, Needs, Detected, Nameable;
    forall k | 0 <= k < |inp.order|
      ensures IsNewVariable(p, k, p.body.stmts[k].local) <==>
        !LeadingDigit(inp.index[inp.order[k]].name, 0) && inp.Bindings()[k].local != "_"
    {
      NewVariable(inp, p, k);
    }
  }

  ghost predicate MadeFresh(inp: Input, p: Program)
    requires AllResolved(inp.order, inp.index) && |p.body.stmts| == |inp.order| == |inp.Bindings()|
  {
    forall k :: 0 <= k < |inp.order| ==>
      (IsNewVariable(p, k, p.body.stmts[k].local) <==>
        !LeadingDigit(inp.index[inp.order[k]].name, 0) && inp.Bindings()[k].local != "_")
  }

  lemma BlankAskerBreaks(inp: Input, p: Program, k: nat)
    requires AllResolved(inp.order, inp.index) && |p.body.stmts| == |inp.order| == |inp.Bindings()| && MadeFresh(inp, p)
    requires (exists j :: 0 <= j < |inp.order| && AsksFor(inp, j, "_")) ==>
      exists j :: 0 <= j < |inp.order| && inp.Bindings()[j].local == "_"
    requires forall j :: 0 <= j < |inp.order| ==> IsNewVariable(p, j, p.body.stmts[j].local)
    requires k < |inp.order|
    ensures NameUsable(inp, k)
  {
    hide IsNewVariable, Input.Bindings, LeadingDigit, ToLocalName;
    forall j | 0 <= j < |inp.order|
      ensures !LeadingDigit(inp.index[inp.order[j]].name, 0) && inp.Bindings()[j].local != "_"
    {
      assert IsNewVariable(p, j, p.body.stmts[j].local);
    }
    assert !AsksFor(inp, k, "_");
  }

  lemma UsableIsFresh(inp: Input, p: Program, k: nat)
    requires AllResolved(inp.order, inp.index) && |p.body.stmts| == |inp.order| == |inp.Bindings()| && MadeFresh(inp, p)
    requires (exists j :: 0 <= j < |inp.order| && inp.Bindings()[j].local == "_") ==>
      exists j :: 0 <= j < |inp.order| && AsksFor(inp, j, "_")
    requires forall j :: 0 <= j < |inp.order| ==> NameUsable(inp, j)
    requires k < |inp.order|
    ensures IsNewVariable(p, k, p.body.stmts[k].local)
  {
    hide IsNewVariable, Input.Bindings, LeadingDigit, ToLocalName;
    forall j | 0 <= j < |inp.order| ensures !AsksFor(inp, j, "_") { assert NameUsable(inp, j); }
    assert inp.Bindings()[k].local != "_";
    assert NameUsable(inp, k);
  }

  // ---- the statements ----

  /** err is declared by then exactly when a component before k can fail. */
  lemma ErrDeclaredIff(inp: Input, p: Program, k: nat)
    requires inp.Valid() && Generated(inp, p) && k <= |inp.order|
    ensures |p.body.stmts| == |inp.order|
    ensures ErrDeclared(p.body.stmts, k) <==> FallibleBefore(inp, k)
  {
    HandlingsAreKept(inp, p);
    ValidIsResolved(inp);
    hide Generated, Input.Bindings, HandlingOf, Input.Valid, AllResolved;
    assert forall j :: 0 <= j < |inp.order| ==> (Fallible(inp, j) <==> !p.body.stmts[j].handling.Infallible?);
    if FallibleBefore(inp, k) {
      var j :| 0 <= j < k && Fallible(inp, j);
      assert !p.body.stmts[j].handling.Infallible?;
    }
  }

  lemma LocalAtIff(inp: Input, p: Program, i: nat, x: string)
    requires inp.Valid() && Generated(inp, p) && i <= |inp.order|
    ensures |p.body.stmts| == |inp.order| == |inp.Bindings()|
    ensures LocalAt(p.body.stmts, i, x).Some? <==> exists j :: 0 <= j < i && inp.Bindings()[j].local == x
  {
    StatementLocals(inp, p);
    hide Input.Valid, Generated, Input.Bindings;
    assert forall m :: 0 <= m < |inp.order| ==> p.body.stmts[m].local == inp.Bindings()[m].local;
  }

  /** A qualified callee: what stands before the dot, and where it leads. */
  lemma ForeignCallee(inp: Input, p: Program, k: nat)
    requires inp.Valid() && Generated(inp, p) && k < |inp.order|
    ensures |p.body.stmts| == |inp.order|
    ensures var c, s := inp.index[inp.order[k]], p.body.stmts[k];
      && (s.alias != "" <==> IsForeign(inp, c))
      && (s.alias != "" ==> s.alias in p.imports.pathOf && LocalAt(p.body.stmts, k, s.alias).None?)
      && (s.alias != "" ==> p.imports.pathOf[s.alias] == Plan(inp.order, inp.self, c).path)
  {
    GeneratedStatements(inp, p);
    ImportsGrow(inp, p);
    StatementLocals(inp, p);
    ConstructorPackageIsEarly(inp, k);
    var c, s := inp.index[inp.order[k]], p.body.stmts[k];
    assert IsStatementFor(inp, k, s);
    AliasLeadsBack(inp, p, c.ctor.value.pkg);
    if s.alias != "" { ReservedIsNoLocal(inp, p, k, s.alias); }
    hide Generated, Input.Bindings, Input.Early, HandlingOf, LocalAt, I.Added, Reserved, Wanted;
    assert Resolved(inp.order, c);
  }

  lemma ForeignCalleeVisible(inp: Input, p: Program, k: nat)
    requires inp.Valid() && Generated(inp, p) && k < |inp.order| == |inp.Bindings()| == |p.body.stmts|
    requires p.body.stmts[k].alias != ""
    ensures CalleePath(p, k).Some? <==> CalleeVisible(inp, k)
  {
    ForeignCallee(inp, p, k);
    ErrDeclaredIff(inp, p, k);
    NamesInFile(inp, p, "err");
    forall x | x in Params(inp.features)
      ensures x in p.imports.pathOf <==> NamedPath(inp, x).Some?
      ensures x in p.imports.pathOf ==> p.imports.pathOf[x] == NamedPath(inp, x).value
    {
      NamesInFile(inp, p, x);
    }
    ImportsGrow(inp, p);
    assert p.body.params == Params(inp.features);
    var alias, path := p.body.stmts[k].alias, Plan(inp.order, inp.self, inp.index[inp.order[k]]).path;
    AliasHidden(p.imports, alias, path);
    forall x | x in Params(inp.features) ensures x == alias <==> NamedPath(inp, x) == Some(path) { }
    assert "err" == alias <==> NamedPath(inp, "err") == Some(path);
    hide *;
    ForeignVisible(inp, p, k);
  }

  lemma ForeignVisible(inp: Input, p: Program, k: nat)
    requires AllResolved(inp.order, inp.index) && k < |inp.order| == |inp.Bindings()| == |p.body.stmts|
    requires p.body.params == Params(inp.features) && ErrDeclared(p.body.stmts, k) == FallibleBefore(inp, k)
    requires var s, c := p.body.stmts[k], inp.index[inp.order[k]];
      && s.alias != "" && IsForeign(inp, c) && s.alias in p.imports.pathOf && LocalAt(p.body.stmts, k, s.alias).None?
      && (forall x :: x in Params(inp.features) ==>
            (x == s.alias <==> NamedPath(inp, x) == Some(Plan(inp.order, inp.self, c).path)))
      && ("err" == s.alias <==> NamedPath(inp, "err") == Some(Plan(inp.order, inp.self, c).path))
    ensures CalleePath(p, k).Some? <==> CalleeVisible(inp, k)
  {
    hide NamedPath, Plan, LocalAt, ErrDeclared, FallibleBefore, Params, IsForeign, Input.Bindings;
  }

  /** An alias is a name exactly when that name leads to the package of the alias. */
  lemma AliasHidden(t: I.Table, alias: string, path: string)
    requires t.Valid() && alias in t.pathOf && t.pathOf[alias] == path
    ensures forall x :: x == alias <==> x in t.pathOf && t.pathOf[x] == path
  {
  }

  lemma OwnCalleeVisible(inp: Input, p: Program, k: nat)
    requires inp.Valid() && Generated(inp, p) && k < |inp.order| == |inp.Bindings()| == |p.body.stmts|
    requires p.body.stmts[k].alias == "" && ImportsUsable(inp)
    ensures CalleePath(p, k).Some? <==> CalleeVisible(inp, k)
  {
    hide *;
    ValidIsResolved(inp);
    ForeignCallee(inp, p, k);
    ErrDeclaredIff(inp, p, k);
    CalleeIsPlanned(inp, p, k);
    LocalAtIff(inp, p, k, p.body.stmts[k].symbol);
    TakenBeforeIff(inp, k, p.body.stmts[k].symbol);
    FileIsGenerated(inp, p);
    ImportsGrow(inp, p);
    SurroundingsAre(inp, p);
    if p.body.stmts[k].symbol in p.imports.pathOf { AliasIsUndeclared(inp, p.imports, p.body.stmts[k].symbol); }
    OwnVisible(inp, p, k);
  }

  lemma SurroundingsAre(inp: Input, p: Program)
    requires Generated(inp, p)
    ensures p.body.params == Params(inp.features) && p.declared == inp.Declared()
  {
    hide RenderFrom, Names, EarlyImports, Input.Declared;
  }

  lemma OwnVisible(inp: Input, p: Program, k: nat)
    requires AllResolved(inp.order, inp.index) && k < |inp.order| == |inp.Bindings()| == |p.body.stmts|
    requires p.body.params == Params(inp.features) && ErrDeclared(p.body.stmts, k) == FallibleBefore(inp, k)
    requires p.declared == inp.Declared()
    requires var s, c := p.body.stmts[k], inp.index[inp.order[k]];
      && s.alias == "" && !IsForeign(inp, c) && s.symbol == Plan(inp.order, inp.self, c).symbol
      && (s.symbol in p.imports.pathOf ==> s.symbol !in inp.Declared())
      && (LocalAt(p.body.stmts, k, s.symbol).Some? <==> TakenBefore(inp, k, s.symbol))
    ensures CalleePath(p, k).Some? <==> CalleeVisible(inp, k)
  {
    hide TakenBefore;
    hide Plan, LocalAt, ErrDeclared, FallibleBefore, Params, IsForeign, Input.Bindings, Input.Declared, AllResolved;
  }

  /** No alias is declared in the package. */
  lemma AliasIsUndeclared(inp: Input, t: I.Table, x: string)
    requires t.Valid() && t == inp.File() && ImportsUsable(inp) && x in t.pathOf
    ensures x !in inp.Declared()
  {
    hide Input.File, Input.Declared, IsName;
    assert t.aliasOf[t.pathOf[x]] == x;
  }

  lemma CalleeCompilesIff(inp: Input, p: Program, k: nat)
    requires inp.Valid() && Generated(inp, p) && k < |inp.order| == |inp.Bindings()| && ImportsUsable(inp)
    ensures |p.body.stmts| == |inp.order|
    ensures CalleePath(p, k).Some? <==> CalleeVisible(inp, k)
  {
    hide *;
    StatementLocals(inp, p);
    if p.body.stmts[k].alias == "" { OwnCalleeVisible(inp, p, k); } else { ForeignCalleeVisible(inp, p, k); }
  }

  // ---- nil and fmt ----

  lemma RefersToUniverse(p: Program, i: nat, x: string)
    requires i <= |p.body.stmts| && x != "err" && x !in p.body.params
    ensures Refers(p, i, x) == Universe <==>
      (LocalAt(p.body.stmts, i, x).None? && x !in p.imports.pathOf && x !in p.declared)
    ensures Refers(p, i, x).Local? <==> LocalAt(p.body.stmts, i, x).Some?
  {
    hide LocalAt;
  }

  lemma NilIsNoParameter(inp: Input, p: Program)
    requires Generated(inp, p)
    ensures "nil" !in p.body.params && "fmt" !in p.body.params && "Components" !in p.body.params
  {
    hide RenderFrom, Names, EarlyImports, Input.Declared;
  }

  lemma ReservedNil(inp: Input)
    ensures "nil" in Reserved(inp.features, inp.Early()) <==> NamedEarly(inp, "nil").Some?
  {
    NamesAreEarly(inp, "nil");
    hide Input.Early, NamedEarly;
  }

  /** What is registered early is still there in the file. */
  lemma EarlyNilIsInFile(inp: Input, p: Program)
    requires inp.Valid() && Generated(inp, p)
    ensures NamedEarly(inp, "nil").Some? ==> NamedPath(inp, "nil").Some?
  {
    NamesAreEarly(inp, "nil");
    NamesInFile(inp, p, "nil");
    ImportsGrow(inp, p);
    hide Input.Valid, Generated, Input.Early, NamedEarly, NamedPath;
    if "nil" in inp.Early().pathOf { EarlyAliasStays(inp.Early(), p.imports, "nil"); }
  }

  lemma EarlyAliasStays(t: I.Table, t': I.Table, x: string)
    requires t.Valid() && t'.Valid() && t.KeptIn(t') && x in t.pathOf
    ensures x in t'.pathOf
  {
    assert t.aliasOf[t.pathOf[x]] == x;
  }

  lemma NilCompiles(inp: Input, p: Program, i: nat)
    requires inp.Valid() && Generated(inp, p) && i <= |inp.order|
    ensures |p.body.stmts| == |inp.order|
    ensures Refers(p, i, "nil") == Universe <==>
      Predeclared(inp, "nil") && forall j :: 0 <= j < i ==> !AsksFor(inp, j, "nil")
    ensures Refers(p, i, "nil").Local? <==>
      NamedEarly(inp, "nil").None? && exists j :: 0 <= j < i && AsksFor(inp, j, "nil")
  {
    LocalAtIff(inp, p, i, "nil");
    LocalExistsIff(inp, i, "nil");
    NilIsNoParameter(inp, p);
    RefersToUniverse(p, i, "nil");
    PredeclaredIff(inp, p, "nil");
    ReservedNil(inp);
    EarlyNilIsInFile(inp, p);
    hide Input.Valid, Generated, Input.Bindings, Input.Early, NamedEarly, Predeclared, AsksFor, LocalAt;
    hide Refers, Reserved;
  }

  lemma NilReturnsIff(inp: Input, p: Program)
    requires inp.Valid() && Generated(inp, p)
    ensures |p.body.stmts| == |inp.order|
    ensures NilReturnable(inp) <==>
      match Refers(p, |inp.order|, "nil")
      case Universe => true
      case Local(k) => k in p.errorTyped
      case _ => false
  {
    NilCompiles(inp, p, |inp.order|);
    var nil := Refers(p, |inp.order|, "nil");
    if nil.Local? {
      NilTaker(inp, p, nil.n);
    }
    EarlyNilIsInFile(inp, p);
    hide *;
    NilCases(inp, p, nil);
  }

  lemma NilCases(inp: Input, p: Program, nil: Meaning)
    requires nil == Universe <==>
      (Predeclared(inp, "nil") && forall j :: 0 <= j < |inp.order| ==> !AsksFor(inp, j, "nil"))
    requires nil.Local? <==> NamedEarly(inp, "nil").None? && exists j :: 0 <= j < |inp.order| && AsksFor(inp, j, "nil")
    requires nil.Local? ==>
      && nil.n < |inp.order| && FirstAsker(inp, nil.n, "nil") && (forall k :: FirstAsker(inp, k, "nil") ==> k == nil.n)
      && (nil.n in p.errorTyped <==> inp.order[nil.n] in inp.errorTyped)
    requires NamedEarly(inp, "nil").Some? ==> NamedPath(inp, "nil").Some?
    ensures NilReturnable(inp) <==>
      match nil
      case Universe => true
      case Local(k) => k in p.errorTyped
      case _ => false
  {
    hide NamedEarly, NamedPath, ToLocalName, Input.Declared;
    assert forall k :: FirstAsker(inp, k, "nil") ==> AsksFor(inp, k, "nil");
    assert forall k :: AsksFor(inp, k, "nil") ==> 0 <= k < |inp.order|;
  }

  /** A local nil belongs to the one component that asked first. */
  lemma NilTaker(inp: Input, p: Program, n: nat)
    requires inp.Valid() && Generated(inp, p) && |p.body.stmts| == |inp.order|
    requires Refers(p, |inp.order|, "nil") == Local(n)
    ensures n < |inp.order| && FirstAsker(inp, n, "nil") && forall k :: FirstAsker(inp, k, "nil") ==> k == n
    ensures n in p.errorTyped <==> inp.order[n] in inp.errorTyped
  {
    StatementLocals(inp, p);
    LocalAtOf(p, |inp.order|, "nil", n);
    FirstAskerGetsName(inp, n, "nil");
    assert p.errorTyped == ErrorTyped(inp);
    hide Input.Valid, Generated, Input.Bindings, Input.Early, Reserved, Refers, FirstAsker;
    forall k | FirstAsker(inp, k, "nil") ensures k == n { OneFirstAsker(inp, k, n, "nil"); }
  }

  lemma LocalAtOf(p: Program, i: nat, x: string, n: nat)
    requires i <= |p.body.stmts| && Refers(p, i, x) == Local(n)
    ensures n < i && p.body.stmts[n].local == x
  {
    hide LocalAt;
  }

  lemma OneFirstAsker(inp: Input, k: int, j: int, x: string)
    requires FirstAsker(inp, k, x) && FirstAsker(inp, j, x)
    ensures k == j
  {
    hide ToLocalName;
  }

  /** When fmt goes by its own name, that name is reserved. */
  lemma FmtIsReserved(inp: Input, p: Program)
    requires inp.Early().Valid() && Available(inp.Early(), "fmt") && inp.Early().KeptIn(p.imports) && p.imports.Valid()
    requires MeansFmt(p)
    ensures "fmt" in Reserved(inp.features, inp.Early())
  {
    assert "fmt" in inp.Early().aliasOf && inp.Early().aliasOf["fmt"] == "fmt";
    hide EarlyImports;
  }

  lemma WrapperMeansFmt(inp: Input, p: Program, k: nat)
    requires inp.Valid() && Generated(inp, p) && k < |inp.order| && |p.body.stmts| == |inp.order|
    requires p.body.stmts[k].handling.WrapErr?
    ensures Refers(p, k + 1, "fmt") == Imported("fmt") <==> FmtComesFirst(inp)
  {
    hide *;
    FmtIff(inp, p);
    RefersToFmt(p, k + 1);
    if MeansFmt(p) {
      FmtIsEarly(inp, p, k);
      FmtIsReserved(inp, p);
      StatementLocals(inp, p);
      ReservedIsNoLocal(inp, p, k + 1, "fmt");
      NilIsNoParameter(inp, p);
    }
  }

  lemma RefersToFmt(p: Program, i: nat)
    requires i <= |p.body.stmts|
    ensures Refers(p, i, "fmt") == Imported("fmt") ==> MeansFmt(p)
    ensures MeansFmt(p) && LocalAt(p.body.stmts, i, "fmt").None? && "fmt" !in p.body.params ==>
      Refers(p, i, "fmt") == Imported("fmt")
  {
    hide LocalAt;
  }

  lemma FmtIsEarly(inp: Input, p: Program, k: nat)
    requires inp.Valid() && Generated(inp, p) && k < |inp.order| && |p.body.stmts| == |inp.order|
    requires p.body.stmts[k].handling.WrapErr?
    ensures inp.Early().Valid() && Available(inp.Early(), "fmt") && inp.Early().KeptIn(p.imports) && p.imports.Valid()
  {
    HandlingsAreKept(inp, p);
    ImportsGrow(inp, p);
    ConstructorPackageIsEarly(inp, k);
    hide RenderFrom, Names, EarlyImports, Plan, ByID, Input.Declared;
  }

  // ---- the whole ----

  lemma StatementCompilesIff(inp: Input, p: Program, k: nat)
    requires inp.Valid() && Generated(inp, p) && k < |inp.order| == |inp.Bindings()| && ImportsUsable(inp)
    ensures |p.body.stmts| == |inp.order|
    ensures StmtCompiles(p, k) <==> IsNewVariable(p, k, p.body.stmts[k].local) && StatementHygienic(inp, k)
  {
    hide *;
    ValidIsResolved(inp);
    CalleeCompilesIff(inp, p, k);
    ArgumentsAreValues(inp, p, k);
    HandlingsAreKept(inp, p);
    NilCompiles(inp, p, k + 1);
    if p.body.stmts[k].handling.WrapErr? { WrapperMeansFmt(inp, p, k); }
    StatementCases(inp, p, k);
  }

  lemma ArgumentsAreValues(inp: Input, p: Program, k: nat)
    requires inp.Valid() && Generated(inp, p) && k < |inp.order|
    ensures |p.body.stmts| == |inp.order| && forall a :: a in p.body.stmts[k].args ==> IsValue(p, k, a)
  {
    ArgumentsArePlanned(inp, p, k);
    hide Input.Valid, Generated, Plan, IsValue, RefOf;
    forall a | a in p.body.stmts[k].args ensures IsValue(p, k, a) {
      var i :| 0 <= i < |p.body.stmts[k].args| && p.body.stmts[k].args[i] == a;
    }
  }

  lemma StatementCases(inp: Input, p: Program, k: nat)
    requires AllResolved(inp.order, inp.index) && k < |inp.order| == |inp.Bindings()| == |p.body.stmts|
    requires CalleePath(p, k).Some? <==> CalleeVisible(inp, k)
    requires forall a :: a in p.body.stmts[k].args ==> IsValue(p, k, a)
    requires p.body.stmts[k].handling == HandlingOf(inp.index[inp.order[k]])
    requires Refers(p, k + 1, "nil") == Universe <==>
      Predeclared(inp, "nil") && forall j :: 0 <= j < k + 1 ==> !AsksFor(inp, j, "nil")
    requires p.body.stmts[k].handling.WrapErr? ==>
      (Refers(p, k + 1, "fmt") == Imported("fmt") <==> FmtComesFirst(inp))
    ensures StmtCompiles(p, k) <==> IsNewVariable(p, k, p.body.stmts[k].local) && StatementHygienic(inp, k)
  {
    hide Input.Bindings, IsNewVariable, CalleePath, CalleeVisible, Refers, IsValue;
    hide AsksFor, Predeclared, FmtComesFirst, HandlingOf, AllResolved;
  }

  lemma FieldsCompile(inp: Input, p: Program)
    requires inp.Valid() && Generated(inp, p)
    ensures forall f :: f in p.body.fields ==> Refers(p, |p.body.stmts|, p.body.fields[f]).Local?
  {
    StatementLocals(inp, p);
    forall f | f in p.body.fields ensures Refers(p, |p.body.stmts|, p.body.fields[f]).Local? {
      var k := FieldMapKey(inp.Bindings(), f);
      LocalFound(inp, p, |inp.order|, k);
    }
    hide Input.Valid, RenderFrom, ByID, Names, Input.Declared, Refers;
  }

  /** An exported name is no local, so the result type is found when no package goes by its name. */
  lemma ComponentsIsFound(inp: Input, p: Program)
    requires inp.Valid() && Generated(inp, p) && ImportsUsable(inp)
    ensures Refers(p, |p.body.stmts|, "Components") == PackageLevel
  {
    StatementLocals(inp, p);
    LocalAtIff(inp, p, |inp.order|, "Components");
    forall j | 0 <= j < |inp.order| ensures inp.Bindings()[j].local != "Components" {
      LocalIsMade(inp, j);
      LocalIsNotExported(inp.Bindings()[j].local, inp.index[inp.order[j]].name);
    }
    NilIsNoParameter(inp, p);
    FileIsGenerated(inp, p);
    ImportsGrow(inp, p);
    assert p.declared == inp.Declared() && "Components" == inp.Declared()[0];
    hide Input.Valid, Generated, Input.Bindings, LocalAt, Input.File, IsName, I.LastSegment, Input.Declared;
    if "Components" in p.imports.pathOf { AliasIsUndeclared(inp, p.imports, "Components"); }
  }

  lemma ReturnCompilesIff(inp: Input, p: Program)
    requires inp.Valid() && Generated(inp, p) && ImportsUsable(inp)
    ensures ReturnCompiles(p) <==> NilReturnable(inp)
  {
    StatementLocals(inp, p);
    FieldsCompile(inp, p);
    ComponentsIsFound(inp, p);
    NilReturnsIff(inp, p);
    hide Input.Valid, Generated, Input.Bindings, Refers, ImportsUsable, NilReturnable;
  }

  /** Whether the generated file compiles is known before it is generated. */
  lemma CompilesIffHygienic(inp: Input, p: Program)
    requires inp.Valid() && Generated(inp, p)
    ensures AllResolved(inp.order, inp.index) && |inp.order| == |inp.Bindings()|
    ensures Compiles(p) <==> Hygienic(inp)
  {
    hide *;
    StatementLocals(inp, p);
    ValidIsResolved(inp);
    SurroundingsCompileIff(inp, p);
    if ImportsUsable(inp) {
      NamesCompileIff(inp, p);
      ReturnCompilesIff(inp, p);
      forall k | 0 <= k < |inp.order|
        ensures StmtCompiles(p, k) <==> IsNewVariable(p, k, p.body.stmts[k].local) && StatementHygienic(inp, k)
      {
        StatementCompilesIff(inp, p, k);
      }
      CompilesCases(inp, p);
    } else {
      NothingCompiles(inp, p);
    }
  }

  lemma ValidIsResolved(inp: Input)
    requires inp.Valid()
    ensures AllResolved(inp.order, inp.index)
  {
  }

  lemma CompilesCases(inp: Input, p: Program)
    requires AllResolved(inp.order, inp.index) && |p.body.stmts| == |inp.order| == |inp.Bindings()|
    requires FileCompiles(p) <==> SurroundingsHygienic(inp) && FieldsAreNames(p)
    requires FieldsAreNames(p) && (forall k :: 0 <= k < |inp.order| ==> IsNewVariable(p, k, p.body.stmts[k].local)) <==>
      forall k :: 0 <= k < |inp.order| ==> NameUsable(inp, k)
    requires forall k :: 0 <= k < |inp.order| ==>
      (StmtCompiles(p, k) <==> IsNewVariable(p, k, p.body.stmts[k].local) && StatementHygienic(inp, k))
    requires ReturnCompiles(p) <==> NilReturnable(inp)
    ensures Compiles(p) <==> Hygienic(inp)
  {
    hide FileCompiles, SurroundingsHygienic, FieldsAreNames, IsNewVariable, NameUsable, StmtCompiles, StatementHygienic;
    hide ReturnCompiles, NilReturnable, AllResolved, Input.Bindings;
  }

  lemma NothingCompiles(inp: Input, p: Program)
    requires AllResolved(inp.order, inp.index) && |inp.order| == |inp.Bindings()| && !ImportsUsable(inp)
    requires FileCompiles(p) <==> SurroundingsHygienic(inp) && FieldsAreNames(p)
    ensures !Compiles(p) && !Hygienic(inp)
  {
    hide FileCompiles, ImportsUsable, FieldsAreNames, NameUsable, StmtCompiles, StatementHygienic, ReturnCompiles;
    hide NilReturnable, AllResolved, Input.Bindings;
  }

  // ---- what never compiles ----

  /** The component that is the first to ask for nil implements error, and neither it nor any later one can fail. */
  predicate IsErrorAtTheEnd(inp: Input, n: int)
    requires AllResolved(inp.order, inp.index)
  {
    && FirstAsker(inp, n, "nil") && inp.order[n] in inp.errorTyped
    && forall j :: n <= j < |inp.order| ==> !Fallible(inp, j)
  }

  /** A component whose local wants to be nil, such as Nil, compiles only as an error that nothing after it can fail. */
  lemma NilCompilesOnlyAsAnError(inp: Input, p: Program, k: int)
    requires inp.Valid() && Generated(inp, p) && AsksFor(inp, k, "nil") && Compiles(p)
    ensures AllResolved(inp.order, inp.index)
    ensures exists n :: IsErrorAtTheEnd(inp, n)
  {
    hide *;
    CompilesIffHygienic(inp, p);
    EarlyNilIsInFile(inp, p);
    HygienicNil(inp, k);
  }

  lemma HygienicNil(inp: Input, k: int)
    requires AllResolved(inp.order, inp.index) && |inp.order| == |inp.Bindings()| && Hygienic(inp)
    requires AsksFor(inp, k, "nil") && (NamedEarly(inp, "nil").Some? ==> NamedPath(inp, "nil").Some?)
    ensures exists n :: IsErrorAtTheEnd(inp, n)
  {
    hide SurroundingsHygienic, NameUsable, CalleeVisible, NamedEarly, NamedPath;
    hide ToLocalName, Fallible, AllResolved, Input.Bindings, Input.Declared, FirstAsker;
    var n := FindFirstAsker(inp, k, "nil");
    FirstAsks(inp, n, "nil");
    assert StatementHygienic(inp, k);
    forall j | n <= j < |inp.order| ensures !Fallible(inp, j) {
      assert StatementHygienic(inp, j);
    }
    assert IsErrorAtTheEnd(inp, n);
  }

  lemma FirstAsks(inp: Input, n: int, x: string)
    requires FirstAsker(inp, n, x)
    ensures AsksFor(inp, n, x)
  {
  }

  lemma FindFirstAsker(inp: Input, k: int, x: string) returns (n: int)
    requires AsksFor(inp, k, x)
    ensures n <= k && FirstAsker(inp, n, x)
    decreases k
  {
    hide ToLocalName;
    if j :| 0 <= j < k && AsksFor(inp, j, x) { n := FindFirstAsker(inp, j, x); } else { n := k; }
  }

  /** So no file compiles where the components that ask for nil do not implement error. */
  lemma NilNeverCompiles(inp: Input, p: Program, k: int)
    requires inp.Valid() && Generated(inp, p) && AsksFor(inp, k, "nil")
    requires forall j :: AsksFor(inp, j, "nil") ==> inp.order[j] !in inp.errorTyped
    ensures !Compiles(p)
  {
    hide Input.Valid, Generated, Compiles, ToLocalName;
    assert forall n :: FirstAsker(inp, n, "nil") ==> AsksFor(inp, n, "nil");
    if Compiles(p) { NilCompilesOnlyAsAnError(inp, p, k); }
  }

  /** Such a file, if it compiles, never reports a finished construction. */
  lemma NilMisreports(inp: Input, p: Program, fails: Failures, k: int)
    requires inp.Valid() && Generated(inp, p) && AsksFor(inp, k, "nil") && Compiles(p)
    ensures !Execute(p, fails, 0, []).Finished?
  {
    hide *;
    ValidIsResolved(inp);
    StatementLocals(inp, p);
    ExecuteIsConstruct(inp, p, fails, 0, []);
    NilIsTaken(inp, p, k);
    NotFinished(p, Construct(inp.order, inp.index, inp.self, FieldPositions(p), fails, 0, []));
  }

  lemma NilIsTaken(inp: Input, p: Program, k: int)
    requires inp.Valid() && Generated(inp, p) && AsksFor(inp, k, "nil") && Compiles(p)
    ensures Refers(p, |p.body.stmts|, "nil").Local?
  {
    NilCompiles(inp, p, |inp.order|);
    CompilesIffHygienic(inp, p);
    EarlyNilIsInFile(inp, p);
    hide Input.Valid, Generated, Compiles, SurroundingsHygienic, NameUsable, StatementHygienic, NamedEarly, NamedPath;
    hide ToLocalName, AllResolved, Input.Bindings, Input.Declared, Refers, FirstAsker;
  }

  lemma NotFinished(p: Program, r: Result)
    requires Refers(p, |p.body.stmts|, "nil").Local?
    ensures !Reported(p, r).Finished?
  {
  }

  /** Two components for which the same package-level name is generated, such as Load and the name of both types. */
  lemma SharedNameNeverCompiles(inp: Input, p: Program, i: nat, j: nat, x: string)
    requires inp.Valid() && Generated(inp, p) && i < j < |inp.order|
    requires x in GeneratedNames(inp.index[inp.order[i]]) && x in GeneratedNames(inp.index[inp.order[j]])
    ensures !Compiles(p)
  {
    hide *;
    CompilesIffHygienic(inp, p);
    ValidIsResolved(inp);
    OrderIsKnown(inp);
    var a, b := GeneratedTwice(inp.order, inp.index, i, j, x);
    TwiceIsNotHygienic(inp, a, b);
  }

  lemma OrderIsKnown(inp: Input)
    requires AllResolved(inp.order, inp.index)
    ensures forall k :: 0 <= k < |inp.order| ==> inp.order[k] in inp.index
  {
  }

  lemma TwiceIsNotHygienic(inp: Input, a: nat, b: nat)
    requires AllResolved(inp.order, inp.index) && |inp.order| == |inp.Bindings()|
    requires a < b < |AllGeneratedNames(inp.order, inp.index)|
    requires AllGeneratedNames(inp.order, inp.index)[a] == AllGeneratedNames(inp.order, inp.index)[b]
    ensures !Hygienic(inp)
  {
    hide AllGeneratedNames, ImportsUsable, Predeclared, NameUsable, StatementHygienic, NilReturnable, Input.Bindings;
    var names := AllGeneratedNames(inp.order, inp.index);
    assert inp.Declared()[a + 2] == names[a] && inp.Declared()[b + 2] == names[b];
  }

  lemma {:induction false} GeneratedOnce(order: seq<ComponentId>, index: map<ComponentId, Component>, i: nat, x: string)
      returns (a: nat)
    requires i < |order| && order[i] in index && x in GeneratedNames(index[order[i]])
    ensures a < |AllGeneratedNames(order, index)| && AllGeneratedNames(order, index)[a] == x
  {
    hide GeneratedNames;
    var first := if order[0] in index then GeneratedNames(index[order[0]]) else [];
    if i == 0 {
      a :| 0 <= a < |first| && first[a] == x;
    } else {
      var rest := GeneratedOnce(order[1..], index, i - 1, x);
      a := |first| + rest;
    }
  }

  lemma {:induction false} GeneratedTwice(order: seq<ComponentId>, index: map<ComponentId, Component>, i: nat, j: nat,
      x: string)
      returns (a: nat, b: nat)
    requires i < j < |order| && order[i] in index && order[j] in index
    requires x in GeneratedNames(index[order[i]]) && x in GeneratedNames(index[order[j]])
    ensures var names := AllGeneratedNames(order, index); a < b < |names| && names[a] == names[b]
  {
    hide GeneratedNames;
    var first := if order[0] in index then GeneratedNames(index[order[0]]) else [];
    if i == 0 {
      a :| 0 <= a < |first| && first[a] == x;
      var rest := GeneratedOnce(order[1..], index, j - 1, x);
      b := |first| + rest;
    } else {
      var l, m := GeneratedTwice(order[1..], index, i - 1, j - 1, x);
      a, b := |first| + l, |first| + m;
    }
  }

  // ---- what always compiles ----

  /** The constructor of a generated component is named as the generator of its package-level part names it. */
  predicate NamedAsGenerated(c: Component) {
    c.ctor.Some? && !c.ctor.value.constructorless &&
    var funcName := c.ctor.value.funcName;
    if IsLoader(c) then funcName != "" && IsCapital(funcName[0])
    else if IsRepository(c) then funcName == "New" + TypeName(c) + "Impl"
    else c.isProxy && funcName == "New" + c.name
  }

  /** Loaders, repositories and proxies are always found. */
  lemma GeneratedCalleeIsVisible(inp: Input, k: nat)
    requires inp.Valid() && k < |inp.order| && NamedAsGenerated(inp.index[inp.order[k]])
    ensures AllResolved(inp.order, inp.index) && |inp.order| == |inp.Bindings()| && CalleeVisible(inp, k)
  {
    hide *;
    ValidIsResolved(inp);
    LocalIsMadeCount(inp);
    OrderIsKnown(inp);
    var c := inp.index[inp.order[k]];
    GeneratedIsCapital(c);
    SymbolIsDeclared(inp, k);
    NoLocalIsCapital(inp, c.ctor.value.funcName);
    TakenBeforeIff(inp, k, c.ctor.value.funcName);
    GeneratedVisible(inp, k);
  }

  lemma GeneratedIsCapital(c: Component)
    requires NamedAsGenerated(c)
    ensures c.ctor.Some? && c.ctor.value.funcName != "" && IsCapital(c.ctor.value.funcName[0])
    ensures c.ctor.value.funcName in GeneratedNames(c)
  {
  }

  lemma SymbolIsDeclared(inp: Input, k: nat)
    requires AllResolved(inp.order, inp.index) && k < |inp.order|
    ensures forall x :: x in GeneratedNames(inp.index[inp.order[k]]) ==> x in inp.Declared()
  {
    hide GeneratedNames, AllGeneratedNames, Resolved;
    forall x | x in GeneratedNames(inp.index[inp.order[k]]) ensures x in inp.Declared() {
      var a := GeneratedOnce(inp.order, inp.index, k, x);
      assert inp.Declared()[a + 2] == x;
    }
  }

  lemma NoLocalIsCapital(inp: Input, x: string)
    requires inp.Valid() && |inp.order| == |inp.Bindings()| && x != "" && IsCapital(x[0])
    ensures forall j :: 0 <= j < |inp.order| ==> inp.Bindings()[j].local != x
  {
    hide Input.Bindings, ToLocalName, ToFieldName, Tried, Params;
    forall j | 0 <= j < |inp.order| ensures inp.Bindings()[j].local != x {
      LocalIsMade(inp, j);
      LocalIsNotExported(inp.Bindings()[j].local, inp.index[inp.order[j]].name);
    }
  }

  lemma GeneratedVisible(inp: Input, k: nat)
    requires AllResolved(inp.order, inp.index) && k < |inp.order| == |inp.Bindings()|
    requires NamedAsGenerated(inp.index[inp.order[k]])
    requires var symbol := inp.index[inp.order[k]].ctor.value.funcName;
      && symbol != "" && IsCapital(symbol[0]) && symbol in inp.Declared()
      && !TakenBefore(inp, k, symbol)
    ensures CalleeVisible(inp, k)
  {
    hide TakenBefore;
    hide Input.Bindings, Input.Declared, FallibleBefore, NamedPath, TypeName, Resolved, Wanted;
    var symbol := inp.index[inp.order[k]].ctor.value.funcName;
    assert symbol !in Params(inp.features) && symbol != "err";
    assert Resolved(inp.order, inp.index[inp.order[k]]);
  }
}
