/** What the generated buildComponents does when Go compiles and runs it. */
module WiringMeaning {
  import opened Model
  import opened Naming
  import opened TopologicalSort
  import opened Wiring
  import I = Imports

  /**
   A body inside its file: the import table; what package clause every package has; the package-level names of the
   generated package; and which statements declare a local whose type implements error.
   */
  datatype Program = Program(body: Body, imports: I.Table, nameOf: string -> string, declared: seq<string>,
                             errorTyped: set<nat>)

  // ---- what an identifier refers to ----

  datatype Meaning = Local(n: nat) | Parameter | ErrVariable | Imported(path: string) | PackageLevel | Universe

  function LocalAt(stmts: seq<Stmt>, i: nat, name: string): (n: Option<nat>)
    requires i <= |stmts|
    ensures n.Some? ==> n.value < i && stmts[n.value].local == name
    ensures n.None? ==> forall k :: 0 <= k < i ==> stmts[k].local != name
  {
    if i == 0 then None else if stmts[i - 1].local == name then Some(i - 1) else LocalAt(stmts, i - 1, name)
  }

  predicate ErrDeclared(stmts: seq<Stmt>, i: nat)
    requires i <= |stmts|
  {
    exists k :: 0 <= k < i && !stmts[k].handling.Infallible?
  }

  /** name in statement i, from the innermost scope outwards: the body, the file, the package, the universe. */
  function Refers(p: Program, i: nat, name: string): Meaning
    requires i <= |p.body.stmts|
  {
    var local := LocalAt(p.body.stmts, i, name);
    if local.Some? then Local(local.value)
    else if name == "err" && ErrDeclared(p.body.stmts, i) then ErrVariable
    else if name in p.body.params then Parameter
    else if name in p.imports.pathOf then Imported(p.imports.pathOf[name])
    else if name in p.declared then PackageLevel
    else Universe
  }

  // ---- compiling ----

  /** The package of the function or type of statement i, if the reference means one. */
  function CalleePath(p: Program, i: nat): Option<string>
    requires i < |p.body.stmts|
  {
    var s := p.body.stmts[i];
    if s.alias == "" then if Refers(p, i, s.symbol) == PackageLevel then Some(p.imports.self) else None
    else
      match Refers(p, i, s.alias)
      case Imported(path) => Some(path)
      case _ => None
  }

  /** A name that can be declared and referred to. */
  predicate IsName(name: string) {
    IsIdentifier(name) && name !in KEYWORDS && name != "_"
  }

  /** := must declare a new variable. */
  predicate IsNewVariable(p: Program, i: nat, name: string)
    requires i <= |p.body.stmts|
  {
    && IsName(name) && name != "err"
    && LocalAt(p.body.stmts, i, name).None? && name !in p.body.params
  }

  predicate IsValue(p: Program, i: nat, name: string)
    requires i <= |p.body.stmts|
  {
    Refers(p, i, name).Local? || Refers(p, i, name).Parameter?
  }

  predicate StmtCompiles(p: Program, i: nat)
    requires i < |p.body.stmts|
  {
    var s := p.body.stmts[i];
    && IsNewVariable(p, i, s.local)
    && CalleePath(p, i).Some?
    && (forall a :: a in s.args ==> IsValue(p, i, a))
    && (!s.handling.Infallible? ==> Refers(p, i + 1, "nil") == Universe)
    && (s.handling.WrapErr? ==> Refers(p, i + 1, "fmt") == Imported("fmt"))
  }

  /** The literal of the result, and nil for the error: the predeclared one, or a local that can be an error. */
  predicate ReturnCompiles(p: Program) {
    var end := |p.body.stmts|;
    && (forall f :: f in p.body.fields ==> Refers(p, end, p.body.fields[f]).Local?)
    && Refers(p, end, "Components") == PackageLevel
    && match Refers(p, end, "nil")
       case Universe => true
       case Local(k) => k in p.errorTyped
       case _ => false
  }

  /** The line declares the alias by which the file refers to the package, and nothing else declares that name. */
  predicate ImportCompiles(p: Program, line: I.ImportLine) {
    var name := line.Declares(p.nameOf);
    && line.path in p.imports.aliasOf && name == p.imports.aliasOf[line.path]
    && IsName(name) && name != "init" && name !in p.declared
  }

  /** At the level of the file, the name fmt means the package fmt. */
  predicate MeansFmt(p: Program) {
    "fmt" in p.imports.pathOf && p.imports.pathOf["fmt"] == "fmt"
  }

  predicate CallsLoader(p: Program) {
    exists k :: 0 <= k < |p.body.stmts| && p.body.stmts[k].handling.ReturnErr?
  }

  /**
   What surrounds the body: the imports, no name twice in the package, error in the signature, the fields of the result,
   and fmt in the generated loaders, which name it literally.
   */
  ghost predicate FileCompiles(p: Program) {
    && (forall line :: line in I.Block(p.imports) ==> ImportCompiles(p, line))
    && Distinct(p.declared)
    && "error" !in p.imports.pathOf && "error" !in p.declared
    && (forall f :: f in p.body.fields ==> IsName(f))
    && (CallsLoader(p) ==> MeansFmt(p))
  }

  ghost predicate Compiles(p: Program) {
    FileCompiles(p) && (forall i :: 0 <= i < |p.body.stmts| ==> StmtCompiles(p, i)) && ReturnCompiles(p)
  }

  // ---- running ----

  /** The n-th object that was built, or a parameter of buildComponents. */
  datatype Ref = Object(n: nat) | Param(name: string)

  /** A call of a constructor, or a composite literal. */
  datatype Built = Built(path: string, symbol: string, args: seq<Ref>)

  /** Misreported: everything was built, but the error that is returned with it is the object of a local called nil. */
  datatype Result =
    | Finished(heap: seq<Built>, fields: map<string, nat>)
    | Misreported(heap: seq<Built>, fields: map<string, nat>, mistaken: nat)
    | Failed(heap: seq<Built>, culprit: Built, wrapped: bool)

  /** Whether a constructor returns an error, after what has been built so far. */
  type Failures = (seq<Built>, Built) -> bool

  function RefOf(p: Program, i: nat, name: string): Ref
    requires i <= |p.body.stmts|
  {
    match Refers(p, i, name)
    case Local(n) => Object(n)
    case _ => Param(name)
  }

  function BuiltAt(p: Program, i: nat): Built
    requires i < |p.body.stmts| && CalleePath(p, i).Some?
  {
    var s := p.body.stmts[i];
    Built(CalleePath(p, i).value, s.symbol, seq(|s.args|, k requires 0 <= k < |s.args| => RefOf(p, i, s.args[k])))
  }

  /** Statement n stores the n-th object in its local, so a local that means statement n holds object n. */
  function Execute(p: Program, fails: Failures, i: nat, heap: seq<Built>): Result
    requires Compiles(p) && i <= |p.body.stmts|
    decreases |p.body.stmts| - i
  {
    if i == |p.body.stmts| then
      var fields := map f | f in p.body.fields :: Refers(p, i, p.body.fields[f]).n;
      match Refers(p, i, "nil")
      case Local(k) => Misreported(heap, fields, k)
      case _ => Finished(heap, fields)
    else
      assert StmtCompiles(p, i);
      var b := BuiltAt(p, i);
      var handling := p.body.stmts[i].handling;
      if !handling.Infallible? && fails(heap, b) then Failed(heap, b, handling.WrapErr?)
      else Execute(p, fails, i + 1, heap + [b])
  }

  // ---- what the dependency graph asks for ----

  function PositionOf(order: seq<ComponentId>, id: ComponentId): (n: nat)
    requires id in order
    ensures n < |order| && order[n] == id
  {
    if order[0] == id then 0 else 1 + PositionOf(order[1..], id)
  }

  /** A package path as the generated file sees it. */
  function HomeOf(self: string, path: string): string {
    if path == "" then self else path
  }

  /** The references to the components that the parameters are resolved to. */
  function Wanted(order: seq<ComponentId>, deps: seq<Dependency>): seq<Ref>
    requires forall d :: d in deps ==> d.resolvedTo in order
  {
    seq(|deps|, k requires 0 <= k < |deps| => Object(PositionOf(order, deps[k].resolvedTo)))
  }

  /** Everything that c refers to is in the order, that is, resolution left nothing open. */
  predicate Resolved(order: seq<ComponentId>, c: Component) {
    && c.ctor.Some?
    && (forall d :: d in c.dependencies ==> d.resolvedTo != "" && d.resolvedTo in order)
    && (c.isProxy ==> c.proxyTarget in order)
  }

  /** How c is to be built, by the kind of its constructor. */
  function Plan(order: seq<ComponentId>, self: string, c: Component): Built
    requires Resolved(order, c)
  {
    var ctor := c.ctor.value;
    if ctor.constructorless then
      Built(HomeOf(self, ctor.pkg.path), if c.named.Some? then c.named.value else "", [])
    else if ctor.configLoader then Built(self, ctor.funcName, [Param("configSource")])
    else if ctor.repositoryImpl then Built(self, ctor.funcName, [Param("dbProvider")])
    else if c.isProxy then Built(self, ctor.funcName, [Object(PositionOf(order, c.proxyTarget)), Param("proxyDeps")])
    else Built(HomeOf(self, ctor.pkg.path), ctor.funcName, Wanted(order, c.dependencies))
  }

  function HandlingOf(c: Component): Handling {
    if c.ctor.None? || c.ctor.value.constructorless then Infallible
    else if c.ctor.value.configLoader then ReturnErr
    else if c.ctor.value.repositoryImpl || c.isProxy then Infallible
    else if c.ctor.value.returnsError then WrapErr
    else Infallible
  }

  ghost predicate AllResolved(order: seq<ComponentId>, index: map<ComponentId, Component>) {
    forall k :: 0 <= k < |order| ==>
      order[k] in index && index[order[k]].id == order[k] && Resolved(order, index[order[k]])
  }

  /** Building every component of the order once, each from the objects of its dependencies, until one fails. */
  function Construct(order: seq<ComponentId>, index: map<ComponentId, Component>, self: string,
      fields: map<string, nat>,
      fails: Failures, i: nat, heap: seq<Built>): Result
    requires AllResolved(order, index) && i <= |order|
    decreases |order| - i
  {
    if i == |order| then Finished(heap, fields)
    else
      var c := index[order[i]];
      var b := Plan(order, self, c);
      if !HandlingOf(c).Infallible? && fails(heap, b) then Failed(heap, b, HandlingOf(c).WrapErr?)
      else Construct(order, index, self, fields, fails, i + 1, heap + [b])
  }

  /** A run that succeeds builds exactly one object per component, in order. */
  lemma {:induction false} ConstructBuildsEachOnce(order: seq<ComponentId>, index: map<ComponentId, Component>,
      self: string,
      fields: map<string, nat>, fails: Failures, i: nat, heap: seq<Built>)
    requires AllResolved(order, index) && i <= |order| && |heap| == i
    ensures var r := Construct(order, index, self, fields, fails, i, heap);
      && heap <= r.heap && |r.heap| <= |order|
      && (forall k :: i <= k < |r.heap| ==> r.heap[k] == Plan(order, self, index[order[k]]))
      && (r.Finished? ==> |r.heap| == |order| && r.fields == fields)
      && (r.Failed? ==> |r.heap| < |order| && r.culprit == Plan(order, self, index[order[|r.heap|]]))
    decreases |order| - i
  {
    hide Plan, Resolved, HandlingOf;
    if i < |order| {
      ConstructBuildsEachOnce(order, index, self, fields, fails, i + 1, heap + [Plan(order, self, index[order[i]])]);
    }
  }
}
