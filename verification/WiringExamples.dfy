/**
 Inputs of the generator: one with every kind of component, and one for every way in which a file fails to compile.
 */
module WiringExamples {
  import opened Model
  import opened TopologicalSort
  import opened Naming
  import opened Wiring
  import opened WiringMeaning
  import opened WiringCorrect
  import opened WiringExact
  import I = Imports

  const ALWAYS := Conditions([], [], [], [])

  function Plain(pkg: Package, funcName: string, returnsError: bool): Constructor {
    Constructor(pkg, funcName, returnsError, false, false, false)
  }

  function Service(id: ComponentId, name: string, ctor: Constructor, deps: seq<Dependency>): Component {
    Component(id, name, None, Some(name), false, false, Some(ctor), deps, None, false, "", ALWAYS, None, None)
  }

  /** A loader, as config properties get one: the package has a name, and loading can fail. */
  function Loader(id: ComponentId, name: string, path: string, pkgName: string): Component {
    Service(id, name, Constructor(Package(path, pkgName), "Load" + name, true, false, true, false), [])
  }

  /** A generated repository: its constructor records no package name. */
  function Repository(id: ComponentId, name: string, path: string): Component {
    Service(id, name, Constructor(Package(path, ""), "New" + name + "Impl", false, false, false, true), [])
  }

  /** A proxy: its constructor records no package name, and its only parameter is bound to the target. */
  function Proxy(target: Component): Component
    requires target.ctor.Some?
  {
    var name := target.name + "Proxy";
    var deps := [Dependency("target", GoType(target.name, false, []), target.id)];
    Component(target.id + "$proxy", name, None, target.named, true, false,
              Some(Plain(Package(target.ctor.value.pkg.path, ""), "New" + name, false)), deps, None, false, target.id,
              ALWAYS, None, None)
  }

  function Of(cs: seq<Component>, features: Features, nameOf: string -> string, errorTyped: set<ComponentId>): Input {
    Input(Ids(cs), IndexOf(cs), features, [], "app", [], nameOf, [], errorTyped)
  }

  function IndexOf(cs: seq<Component>): map<ComponentId, Component> {
    if cs == [] then map[] else IndexOf(cs[1..])[cs[0].id := cs[0]]
  }

  lemma {:induction false} IndexOfFinds(cs: seq<Component>, k: nat)
    requires k < |cs| && DistinctIds(cs)
    ensures cs[k].id in IndexOf(cs) && IndexOf(cs)[cs[k].id] == cs[k]
  {
    if k > 0 { IndexOfFinds(cs[1..], k - 1); }
  }

  /** Components in construction order, each with its own id and with what it needs before it, are a valid input. */
  lemma ListIsValid(cs: seq<Component>, features: Features, nameOf: string -> string, errorTyped: set<ComponentId>)
    requires DistinctIds(cs)
    requires forall k :: 0 <= k < |cs| ==> Resolved(Ids(cs), cs[k]) && Detected(features, cs[k])
    requires forall k, d :: 0 <= k < |cs| && d in Needs(cs[k]) ==> d in Ids(cs)[..k]
    requires forall k, pkg :: 0 <= k < |cs| && pkg in ComponentPackages(cs[k]) ==> Nameable(pkg, "app")
    ensures Of(cs, features, nameOf, errorTyped).Valid()
  {
    hide Resolved, Detected, Needs, ComponentPackages, Nameable, IndexOf;
    var inp := Of(cs, features, nameOf, errorTyped);
    forall k | 0 <= k < |cs| ensures inp.order[k] in inp.index && inp.index[inp.order[k]] == cs[k] {
      IndexOfFinds(cs, k);
    }
    forall pkg | pkg in OrderPackages(inp.order, inp.index) ensures Nameable(pkg, "app") {
      var k := PackageOrigin(inp.order, inp.index, pkg);
    }
  }

  lemma {:induction false} PackageOrigin(order: seq<ComponentId>, index: map<ComponentId, Component>, pkg: Package)
      returns (k: nat)
    requires pkg in OrderPackages(order, index)
    ensures k < |order| && order[k] in index && pkg in ComponentPackages(index[order[k]])
  {
    hide ComponentPackages;
    if order[0] in index && pkg in ComponentPackages(index[order[0]]) {
      k := 0;
    } else {
      var rest := PackageOrigin(order[1..], index, pkg);
      k := rest + 1;
    }
  }

  // ---- every kind of component ----

  function Shop(): seq<Component> {
    var orders := Repository("shop/orders.Orders", "Orders", "shop/orders");
    var settings := Loader("shop/settings.Settings", "Settings", "shop/settings", "settings");
    var desk := Service("shop/desk.Desk", "Desk", Plain(Package("shop/desk", "desk"), "NewDesk", true),
      [Dependency("orders", GoType("Orders", true, []), orders.id),
       Dependency("settings", GoType("Settings", false, []), settings.id)]);
    [orders, settings, desk, Proxy(desk)]
  }

  const ALL_FEATURES := Features(true, true, true, false)

  lemma ShopResolved(k: nat)
    requires k < |Shop()|
    ensures Resolved(Ids(Shop()), Shop()[k]) && Detected(ALL_FEATURES, Shop()[k])
  {
    assert Ids(Shop())[0] == Shop()[0].id && Ids(Shop())[1] == Shop()[1].id && Ids(Shop())[2] == Shop()[2].id;
  }

  lemma ShopNeeds(k: nat)
    requires k < |Shop()|
    ensures forall d :: d in Needs(Shop()[k]) ==> d in Ids(Shop())[..k]
  {
    assert Ids(Shop())[0] == Shop()[0].id && Ids(Shop())[1] == Shop()[1].id && Ids(Shop())[2] == Shop()[2].id;
    assert k == 3 ==> Ids(Shop())[..k][2] == Shop()[2].id;
    assert k == 2 ==> Ids(Shop())[..k][0] == Shop()[0].id && Ids(Shop())[..k][1] == Shop()[1].id;
  }

  lemma ShopPackages(k: nat)
    requires k < |Shop()|
    ensures forall pkg :: pkg in ComponentPackages(Shop()[k]) ==> Nameable(pkg, "app")
  {
    forall pkg | pkg in ComponentPackages(Shop()[k]) ensures Nameable(pkg, "app") {
      PathIsNameable(pkg, "app");
    }
  }

  lemma ShopIdsDiffer()
    ensures DistinctIds(Shop())
  {
  }

  /** An intercepted service with its proxy, a generated repository and a configuration are among the valid inputs. */
  lemma ShopIsValid(nameOf: string -> string)
    ensures Of(Shop(), ALL_FEATURES, nameOf, {}).Valid()
  {
    hide *;
    forall k | 0 <= k < |Shop()|
      ensures Resolved(Ids(Shop()), Shop()[k]) && Detected(ALL_FEATURES, Shop()[k])
      ensures forall d :: d in Needs(Shop()[k]) ==> d in Ids(Shop())[..k]
      ensures forall pkg :: pkg in ComponentPackages(Shop()[k]) ==> Nameable(pkg, "app")
    {
      ShopResolved(k);
      ShopNeeds(k);
      ShopPackages(k);
    }
    ShopIdsDiffer();
    ListIsValid(Shop(), ALL_FEATURES, nameOf, {});
  }

  // ---- it compiles ----

  /** Packages that go by the last segment of their path, which tells them apart, keep it as their alias. */
  ghost predicate PlainlyNamed(paths: set<string>, pkgs: seq<Package>, self: string) {
    && (forall pkg :: pkg in pkgs ==> IsPlain(paths, pkg, self))
    && forall p, q :: p in paths && q in paths && p != q ==> I.LastSegment(p) != I.LastSegment(q)
  }

  ghost predicate KeepsSegments(t: I.Table, paths: set<string>) {
    t.Valid() && forall p :: p in t.aliasOf ==> p in paths && t.aliasOf[p] == I.LastSegment(p)
  }

  lemma {:induction false} SegmentsAreKept(t: I.Table, pkgs: seq<Package>, paths: set<string>)
    requires PlainlyNamed(paths, pkgs, t.self) && KeepsSegments(t, paths)
    ensures KeepsSegments(I.Registered(t, pkgs), paths)
    decreases |pkgs|
  {
    hide I.LastSegment, I.Base, I.Added;
    if pkgs != [] {
      var pkg := pkgs[0];
      assert pkg in pkgs && forall x :: x in pkgs[1..] ==> x in pkgs;
      SegmentIsKept(t, pkg, paths);
      I.AddedPath(t, pkg.path, pkg.name);
      SegmentsAreKept(I.Added(t, pkg.path, pkg.name).0, pkgs[1..], paths);
    }
  }

  lemma SegmentIsKept(t: I.Table, pkg: Package, paths: set<string>)
    requires PlainlyNamed(paths, [pkg], t.self) && KeepsSegments(t, paths)
    ensures KeepsSegments(I.Added(t, pkg.path, pkg.name).0, paths)
  {
    hide I.LastSegment, I.Base;
    assert pkg in [pkg];
    I.AddIsValid(t, pkg.path, pkg.name);
    if pkg.path !in t.aliasOf {
      var base := I.Base(pkg.path, pkg.name);
      assert forall a :: a in t.pathOf ==> t.aliasOf[t.pathOf[a]] == a;
      I.FreeBaseIsTaken(t, pkg.path, pkg.name);
    }
  }

  lemma {:induction false} SegmentBehind(prefix: string, seg: string, i: nat)
    requires '/' !in seg && i <= |seg|
    ensures I.LastSegmentFrom(prefix + "/" + seg, |prefix| + 1 + i) == seg
  {
    if i > 0 {
      assert (prefix + "/" + seg)[|prefix| + i] == seg[i - 1];
      SegmentBehind(prefix, seg, i - 1);
    } else {
      assert (prefix + "/" + seg)[|prefix| + 1..] == seg;
    }
  }

  lemma SegmentOf(prefix: string, seg: string)
    requires '/' !in seg
    ensures I.LastSegment(prefix + "/" + seg) == seg
  {
    SegmentBehind(prefix, seg, |seg|);
  }

  /** The package paths of the shop. */
  const SHOP_PATHS: set<string> :=
    {"shop/orders", "shop/settings", "shop/desk", "fmt", CONFIG.path, RUNTIME.path, DB.path}

  lemma ShopSegments()
    ensures I.LastSegment("shop/orders") == "orders" && I.LastSegment("shop/settings") == "settings"
    ensures I.LastSegment("shop/desk") == "desk" && I.LastSegment("fmt") == "fmt"
    ensures I.LastSegment(CONFIG.path) == "config" && I.LastSegment(RUNTIME.path) == "runtime"
    ensures I.LastSegment(DB.path) == "db"
  {
    hide I.LastSegment;
    SegmentIs("shop/orders", "shop", "orders");
    SegmentIs("shop/settings", "shop", "settings");
    SegmentIs("shop/desk", "shop", "desk");
    SegmentIs(CONFIG.path, "github.com/zombocoder/goboot/runtime", "config");
    SegmentIs(RUNTIME.path, "github.com/zombocoder/goboot", "runtime");
    SegmentIs(DB.path, "github.com/zombocoder/goboot/runtime", "db");
    FmtSegment();
  }

  lemma FmtSegment()
    ensures I.LastSegment("fmt") == "fmt"
  {
    assert I.LastSegmentFrom("fmt", 1) == "fmt" && I.LastSegmentFrom("fmt", 3) == "fmt";
  }

  lemma SegmentIs(path: string, prefix: string, seg: string)
    requires '/' !in seg && path == prefix + "/" + seg
    ensures I.LastSegment(path) == seg
  {
    SegmentOf(prefix, seg);
  }

  const SHOP_PACKAGES: seq<Package> := [Package("shop/orders", ""), Package("shop/settings", "settings"), FMT,
    Package("shop/desk", "desk"), FMT, Package("shop/desk", ""), CONFIG, RUNTIME, DB, FMT]

  function ShopInput(): Input {
    Of(Shop(), ALL_FEATURES, path => I.LastSegment(path), {})
  }

  lemma ShopOrder(k: nat)
    requires k < |Shop()|
    ensures |ShopInput().order| == 4 && ShopInput().order[k] == Shop()[k].id
    ensures Shop()[k].id in ShopInput().index && ShopInput().index[Shop()[k].id] == Shop()[k]
  {
    hide Shop, IndexOf;
    ShopIdsDiffer();
    ShopHasFour();
    IndexOfFinds(Shop(), k);
  }

  lemma ShopHasFour()
    ensures |Shop()| == 4
  {
  }

  lemma {:induction false} OrderPackagesOf(cs: seq<Component>, index: map<ComponentId, Component>, k: nat)
    requires k <= |cs| && forall i :: 0 <= i < |cs| ==> cs[i].id in index && index[cs[i].id] == cs[i]
    ensures OrderPackages(Ids(cs)[k..], index) == AllPackages(cs[k..])
    decreases |cs| - k
  {
    hide ComponentPackages;
    if k < |cs| {
      assert Ids(cs)[k..][1..] == Ids(cs)[k + 1..] && cs[k..][1..] == cs[k + 1..];
      OrderPackagesOf(cs, index, k + 1);
    }
  }

  function AllPackages(cs: seq<Component>): seq<Package> {
    if cs == [] then [] else ComponentPackages(cs[0]) + AllPackages(cs[1..])
  }

  lemma ShopPackageList()
    ensures ShopInput().Packages() == SHOP_PACKAGES
  {
    hide IndexOf, OrderPackages, Ids, AllPackages, Input.HasLoader, Input.Packages, Shop;
    var inp := ShopInput();
    forall i | 0 <= i < |Shop()| ensures Shop()[i].id in inp.index && inp.index[Shop()[i].id] == Shop()[i] {
      ShopOrder(i);
    }
    OrderPackagesOf(Shop(), inp.index, 0);
    assert Ids(Shop())[0..] == Ids(Shop()) && Shop()[0..] == Shop();
    ShopComponentPackages();
    ShopHasLoader();
    AllIsRegistered(inp);
  }

  lemma AllIsRegistered(inp: Input)
    requires OrderPackages(inp.order, inp.index) == SHOP_PACKAGES[..6] && inp.HasLoader()
    requires inp.routes == [] == inp.later && inp.features == ALL_FEATURES
    ensures inp.Packages() == SHOP_PACKAGES
  {
    hide OrderPackages, Input.HasLoader;
    assert FeaturePackages(ALL_FEATURES) == [CONFIG, RUNTIME, DB];
  }

  lemma ShopHasLoader()
    ensures ShopInput().HasLoader()
  {
    hide IndexOf;
    ShopOrder(1);
    assert HandlingOf(Shop()[1]).ReturnErr?;
    hide HandlingOf, Shop;
  }

  lemma ShopComponentPackages()
    ensures AllPackages(Shop()) == SHOP_PACKAGES[..6]
  {
    var cs := Shop();
    assert |cs| == 4;
    assert ComponentPackages(cs[0]) == [Package("shop/orders", "")];
    assert ComponentPackages(cs[1]) == [Package("shop/settings", "settings"), FMT];
    assert ComponentPackages(cs[2]) == [Package("shop/desk", "desk"), FMT];
    assert ComponentPackages(cs[3]) == [Package("shop/desk", "")];
    hide ComponentPackages, Shop;
    AllPackagesOfFour(cs);
  }

  lemma AllPackagesOfFour(cs: seq<Component>)
    requires |cs| == 4
    ensures AllPackages(cs)
         == ComponentPackages(cs[0]) + ComponentPackages(cs[1]) + ComponentPackages(cs[2]) + ComponentPackages(cs[3])
  {
    hide ComponentPackages;
    assert cs[3..][1..] == [] && cs[2..][1..] == cs[3..] && cs[1..][1..] == cs[2..];
    assert AllPackages(cs[3..]) == ComponentPackages(cs[3]);
    assert AllPackages(cs[2..]) == ComponentPackages(cs[2]) + ComponentPackages(cs[3]);
    assert AllPackages(cs[1..]) == ComponentPackages(cs[1]) + (ComponentPackages(cs[2]) + ComponentPackages(cs[3]));
  }

  lemma ShopIsPlain()
    ensures PlainlyNamed(SHOP_PATHS, SHOP_PACKAGES, "app")
  {
    hide PlainlyNamed, IsPlain, I.LastSegment;
    forall pkg | pkg in SHOP_PACKAGES ensures IsPlain(SHOP_PATHS, pkg, "app") { ShopPackageIsPlain(pkg); }
    forall p, q | p in SHOP_PATHS && q in SHOP_PATHS && p != q ensures I.LastSegment(p) != I.LastSegment(q) {
      ShopSegmentsDiffer(p, q);
    }
    PlainFrom(SHOP_PATHS, SHOP_PACKAGES, "app");
  }

  predicate IsPlain(paths: set<string>, pkg: Package, self: string) {
    pkg.path != "" && pkg.path != self && pkg.path in paths && I.Base(pkg.path, pkg.name) == I.LastSegment(pkg.path)
  }

  lemma PlainFrom(paths: set<string>, pkgs: seq<Package>, self: string)
    requires forall pkg :: pkg in pkgs ==> IsPlain(paths, pkg, self)
    requires forall p, q :: p in paths && q in paths && p != q ==> I.LastSegment(p) != I.LastSegment(q)
    ensures PlainlyNamed(paths, pkgs, self)
  {
  }

  lemma ShopPackageIsPlain(pkg: Package)
    requires pkg in SHOP_PACKAGES
    ensures IsPlain(SHOP_PATHS, pkg, "app")
  {
    ShopSegments();
    hide I.LastSegment;
  }

  lemma ShopSegmentsDiffer(p: string, q: string)
    requires p in SHOP_PATHS && q in SHOP_PATHS && p != q
    ensures I.LastSegment(p) != I.LastSegment(q)
  {
    ShopSegments();
    hide I.LastSegment;
  }

  lemma ShopAliases()
    ensures KeepsSegments(ShopInput().File(), SHOP_PATHS)
  {
    ShopPackageList();
    ShopIsPlain();
    hide Shop, IndexOf, PlainlyNamed, I.Registered, Input.Packages;
    var t0 := I.Table("app", map[], map[]);
    SegmentsAreKept(t0, SHOP_PACKAGES, SHOP_PATHS);
  }

  const SHOP_NAMES: seq<string> :=
    ["Components", "buildComponents", "OrdersImpl", "NewOrdersImpl", "LoadSettings", "DeskProxy", "NewDeskProxy"]

  lemma ShopDeclares()
    ensures ShopInput().Declared() == SHOP_NAMES
  {
    hide IndexOf, AllGeneratedNames, Ids;
    var inp := ShopInput();
    forall i | 0 <= i < |Shop()| ensures Shop()[i].id in inp.index && inp.index[Shop()[i].id] == Shop()[i] {
      ShopOrder(i);
    }
    GeneratedNamesOf(Shop(), inp.index, 0);
    assert Ids(Shop())[0..] == Ids(Shop()) && Shop()[0..] == Shop();
    ShopGeneratedNames();
  }

  lemma {:induction false} GeneratedNamesOf(cs: seq<Component>, index: map<ComponentId, Component>, k: nat)
    requires k <= |cs| && forall i :: 0 <= i < |cs| ==> cs[i].id in index && index[cs[i].id] == cs[i]
    ensures AllGeneratedNames(Ids(cs)[k..], index) == NamesFor(cs[k..])
    decreases |cs| - k
  {
    hide GeneratedNames;
    if k < |cs| {
      assert Ids(cs)[k..][1..] == Ids(cs)[k + 1..] && cs[k..][1..] == cs[k + 1..];
      GeneratedNamesOf(cs, index, k + 1);
    }
  }

  function NamesFor(cs: seq<Component>): seq<string> {
    if cs == [] then [] else GeneratedNames(cs[0]) + NamesFor(cs[1..])
  }

  lemma ShopGeneratedNames()
    ensures NamesFor(Shop()) == SHOP_NAMES[2..]
  {
    var cs := Shop();
    RepositoryNames();
    LoaderNames();
    ProxyNames();
    assert GeneratedNames(cs[2]) == [];
    hide GeneratedNames, Shop;
    assert cs[3..][1..] == [] && cs[2..][1..] == cs[3..] && cs[1..][1..] == cs[2..];
    assert NamesFor(cs[3..]) == ["DeskProxy", "NewDeskProxy"];
    assert NamesFor(cs[2..]) == ["DeskProxy", "NewDeskProxy"];
  }

  lemma RepositoryNames()
    ensures |Shop()| == 4 && GeneratedNames(Shop()[0]) == ["OrdersImpl", "NewOrdersImpl"]
  {
    assert "Orders" + "Impl" == "OrdersImpl" && "New" + "Orders" + "Impl" == "NewOrdersImpl";
  }

  lemma LoaderNames()
    ensures |Shop()| == 4 && GeneratedNames(Shop()[1]) == ["LoadSettings"]
  {
    assert "Load" + "Settings" == "LoadSettings";
  }

  lemma ProxyNames()
    ensures |Shop()| == 4 && GeneratedNames(Shop()[3]) == ["DeskProxy", "NewDeskProxy"]
  {
    assert "Desk" + "Proxy" == "DeskProxy" && "New" + "DeskProxy" == "NewDeskProxy";
  }

  lemma ShopNamesDiffer()
    ensures Distinct(SHOP_NAMES)
  {
  }

  /** The last segments of the paths are usable as aliases. */
  lemma ShopImportsUsable()
    ensures ImportsUsable(ShopInput())
  {
    ShopAliases();
    ShopDeclares();
    var inp := ShopInput();
    hide Shop, IndexOf, Input.File, Input.Declared, IsName, I.LastSegment;
    forall p | p in inp.File().aliasOf
      ensures IsName(I.LastSegment(p)) && I.LastSegment(p) != "init" && I.LastSegment(p) !in SHOP_NAMES
    {
      SegmentIsUsable(p);
    }
  }

  lemma SegmentIsUsable(p: string)
    requires p in SHOP_PATHS
    ensures IsName(I.LastSegment(p)) && I.LastSegment(p) != "init" && I.LastSegment(p) !in SHOP_NAMES
  {
    ShopSegments();
    SmallWordsAreNames();
    hide I.LastSegment, IsName;
  }

  lemma SmallWordsAreNames()
    ensures IsName("orders") && IsName("settings") && IsName("desk") && IsName("fmt")
    ensures IsName("config") && IsName("runtime") && IsName("db")
  {
    hide IsName;
    NoKeywords();
    SmallWordIsName("orders");
    SmallWordIsName("settings");
    SmallWordIsName("desk");
    SmallWordIsName("fmt");
    SmallWordIsName("config");
    SmallWordIsName("runtime");
    SmallWordIsName("db");
  }

  lemma NoKeywords()
    ensures forall w :: w in {"orders", "settings", "desk", "fmt", "config", "runtime", "db"} ==> w !in KEYWORDS
  {
  }

  lemma SmallWordIsName(w: string)
    requires w != "" && (forall i :: 0 <= i < |w| ==> IsSmall(w[i])) && w !in KEYWORDS
    ensures IsName(w)
  {
  }

  /** A name that no base has is nobody's. */
  lemma {:induction false} NobodyIsNamed(pkgs: seq<Package>, skip: set<string>, x: string)
    requires forall pkg :: pkg in pkgs ==> I.Base(pkg.path, pkg.name) != x
    ensures I.PathNamed(pkgs, skip, x).None?
    decreases |pkgs|
  {
    hide I.Base;
    if pkgs != [] {
      assert pkgs[0] in pkgs && forall pkg :: pkg in pkgs[1..] ==> pkg in pkgs;
      if pkgs[0].path in skip { NobodyIsNamed(pkgs[1..], skip, x); }
      else { NobodyIsNamed(pkgs[1..], skip + {pkgs[0].path}, x); }
    }
  }

  lemma ShopBases()
    ensures forall pkg :: pkg in SHOP_PACKAGES ==>
      I.Base(pkg.path, pkg.name) in {"orders", "settings", "fmt", "desk", "config", "runtime", "db"}
  {
    ShopSegments();
    hide I.LastSegment;
  }

  lemma ShopHasNo(x: string)
    requires x !in {"orders", "settings", "fmt", "desk", "config", "runtime", "db"}
    ensures NamedPath(ShopInput(), x).None?
  {
    ShopBases();
    ShopPackageList();
    hide Input.Packages, I.Base, IndexOf, Ids, Shop;
    NobodyIsNamed(SHOP_PACKAGES, {"", ShopInput().self}, x);
  }

  lemma ShopFmt()
    ensures FmtComesFirst(ShopInput())
  {
    ShopPackageList();
    ShopSegments();
    hide Input.Packages, IndexOf, Ids, Shop, I.LastSegment;
    var pkgs, skip := SHOP_PACKAGES, {"", ShopInput().self};
    assert pkgs[1..][1..][0] == FMT && pkgs[1..][0] == pkgs[1];
    assert I.PathNamed(pkgs[1..][1..], skip + {"shop/orders"} + {"shop/settings"}, "fmt") == Some("fmt");
  }

  lemma CapitalIsLowered(name: string)
    requires name != "" && IsCapital(name[0])
    ensures !LeadingDigit(name, 0) && ToLocalName(name) != "" && ToLocalName(name)[0] == ToLower(name[0])
  {
    hide KEYWORDS;
    assert SanitizeFrom(name, 0)[0] == name[0];
  }

  lemma ShopNames(k: nat)
    requires k < |Shop()|
    ensures var name := Shop()[k].name; name != "" && IsCapital(name[0]) && name[0] != 'N'
  {
  }

  lemma ShopNameUsable(k: int)
    requires 0 <= k < 4
    ensures AllResolved(ShopInput().order, ShopInput().index) && |ShopInput().order| == 4
    ensures NameUsable(ShopInput(), k) && !AsksFor(ShopInput(), k, "nil")
  {
    hide Shop, ToLocalName, ShopInput, Input.Valid;
    ShopHasFour();
    ShopInputIsValid();
    ValidIsResolved(ShopInput());
    ShopOrder(k);
    ShopNames(k);
    CapitalIsLowered(Shop()[k].name);
  }

  lemma ShopInputIsValid()
    ensures ShopInput().Valid()
  {
    ShopIsValid(path => I.LastSegment(path));
  }

  lemma ShopIsGenerated(k: nat)
    requires k < |Shop()| && k != 2
    ensures NamedAsGenerated(Shop()[k])
    ensures (k == 1 || HandlingOf(Shop()[k]).Infallible?) && !HandlingOf(Shop()[k]).WrapErr?
  {
    assert k == 0 ==> "New" + "Orders" + "Impl" == Shop()[k].ctor.value.funcName;
    assert k == 3 ==> "New" + "DeskProxy" == Shop()[k].ctor.value.funcName;
  }

  lemma ShopNilIsFree()
    ensures Predeclared(ShopInput(), "nil") && Predeclared(ShopInput(), "error")
  {
    hide NamedPath, Input.Declared, ShopInput;
    ShopHasNo("nil");
    ShopHasNo("error");
    ShopDeclares();
    NotDeclaredInShop();
  }

  lemma NotDeclaredInShop()
    ensures "nil" !in SHOP_NAMES && "error" !in SHOP_NAMES
  {
    assert forall x :: x in SHOP_NAMES ==> |x| > 5;
  }

  lemma ShopGeneratedStatement(k: nat)
    requires k < 4 && k != 2
    ensures AllResolved(ShopInput().order, ShopInput().index) && |ShopInput().order| == |ShopInput().Bindings()| == 4
    ensures StatementHygienic(ShopInput(), k)
  {
    hide Shop, ShopInput, Input.Valid, CalleeVisible, AsksFor, Predeclared, HandlingOf, NamedAsGenerated;
    ShopHasFour();
    ShopInputIsValid();
    ValidIsResolved(ShopInput());
    LocalIsMadeCount(ShopInput());
    ShopOrder(k);
    ShopIsGenerated(k);
    GeneratedCalleeIsVisible(ShopInput(), k);
    ShopNilIsFree();
    forall j | 0 <= j < 4 ensures !AsksFor(ShopInput(), j, "nil") { ShopNameUsable(j); }
  }

  lemma DeskIsForeign()
    ensures |Shop()| == 4 && IsForeign(ShopInput(), Shop()[2])
    ensures ShopInput().self == "app" && ShopInput().features == ALL_FEATURES
  {
  }

  lemma ShopDeskStatement()
    ensures AllResolved(ShopInput().order, ShopInput().index) && |ShopInput().order| == |ShopInput().Bindings()| == 4
    ensures StatementHygienic(ShopInput(), 2)
  {
    hide Shop, ShopInput, Input.Valid, AsksFor, Predeclared, IsForeign, FmtComesFirst, Plan, NamedPath;
    hide FallibleBefore, HandlingOf;
    hide Input.Bindings;
    ShopInputIsValid();
    ValidIsResolved(ShopInput());
    LocalIsMadeCount(ShopInput());
    DeskIsForeign();
    ShopOrder(2);
    ShopHasNo("configSource");
    ShopHasNo("proxyDeps");
    ShopHasNo("dbProvider");
    ShopHasNo("err");
    ShopNilIsFree();
    ShopFmt();
    forall j | 0 <= j < 4 ensures !AsksFor(ShopInput(), j, "nil") { ShopNameUsable(j); }
  }

  lemma ShopReturnsNil()
    ensures NilReturnable(ShopInput())
  {
    hide Shop, ShopInput, Predeclared, NamedEarly, ToLocalName;
    ShopNilIsFree();
    ShopNameUsable(0);
    forall k ensures !AsksFor(ShopInput(), k, "nil") {
      if 0 <= k < 4 { ShopNameUsable(k); }
    }
  }

  lemma ShopSurroundings()
    ensures SurroundingsHygienic(ShopInput())
  {
    ShopImportsUsable();
    ShopDeclares();
    ShopNamesDiffer();
    ShopNilIsFree();
    ShopFmt();
    hide ShopInput, ImportsUsable, Predeclared, FmtComesFirst, Input.Declared, Input.HasLoader;
  }

  /** The generated file of the shop, with its proxy, repository and configuration, compiles. */
  lemma ShopCompiles(p: Program)
    requires Generated(ShopInput(), p)
    ensures ShopInput().Valid() && Compiles(p)
  {
    hide *;
    ShopInputIsValid();
    CompilesIffHygienic(ShopInput(), p);
    ShopNameUsable(0);
    ShopDeskStatement();
    ShopSurroundings();
    ShopReturnsNil();
    forall k | 0 <= k < 4 ensures NameUsable(ShopInput(), k) && StatementHygienic(ShopInput(), k) {
      ShopNameUsable(k);
      if k != 2 { ShopGeneratedStatement(k); }
    }
    HygienicFrom(ShopInput());
  }

  lemma HygienicFrom(inp: Input)
    requires AllResolved(inp.order, inp.index) && |inp.order| == |inp.Bindings()|
    requires SurroundingsHygienic(inp) && NilReturnable(inp)
    requires forall k :: 0 <= k < |inp.order| ==> NameUsable(inp, k) && StatementHygienic(inp, k)
    ensures Hygienic(inp)
  {
    hide SurroundingsHygienic, NilReturnable, NameUsable, StatementHygienic, AllResolved, Input.Bindings;
  }

  // ---- every way to fail ----

  /** Two components without parameters, of different packages that no path of the generated package mentions. */
  predicate IsPair(a: Component, b: Component, features: Features) {
    && a.id != b.id && a.ctor.Some? && b.ctor.Some? && a.dependencies == [] == b.dependencies
    && !a.isProxy && !b.isProxy && Detected(features, a) && Detected(features, b)
    && forall pkg :: pkg in ComponentPackages(a) + ComponentPackages(b) ==> Nameable(pkg, "app")
  }

  lemma PairIsValid(a: Component, b: Component, features: Features, nameOf: string -> string)
    requires IsPair(a, b, features)
    ensures var inp := Of([a, b], features, nameOf, {});
      && inp.Valid() && inp.order == [a.id, b.id]
      && a.id in inp.index && inp.index[a.id] == a && b.id in inp.index && inp.index[b.id] == b
  {
    PairIndex(a, b);
    hide Detected, ComponentPackages, Nameable, IndexOf;
    assert forall k :: 0 <= k < |[a, b]| ==> [a, b][k] == a || [a, b][k] == b;
    ListIsValid([a, b], features, nameOf, {});
  }

  lemma PairIndex(a: Component, b: Component)
    requires a.id != b.id
    ensures Ids([a, b]) == [a.id, b.id]
    ensures var index := IndexOf([a, b]); a.id in index && index[a.id] == a && b.id in index && index[b.id] == b
  {
    IndexOfFinds([a, b], 0);
    IndexOfFinds([a, b], 1);
    assert [a, b][0] == a && [a, b][1] == b;
  }

  lemma PairPackages(a: Component, b: Component, features: Features, nameOf: string -> string)
    requires IsPair(a, b, features)
    ensures OrderPackages([a.id, b.id], IndexOf([a, b])) == ComponentPackages(a) + ComponentPackages(b)
  {
    PairIndex(a, b);
    hide Detected, ComponentPackages, Nameable, IndexOf;
    assert [a.id, b.id][1..] == [b.id] && [b.id][1..] == [];
    var index := IndexOf([a, b]);
    assert OrderPackages([b.id], index) == ComponentPackages(b) + OrderPackages([], index) == ComponentPackages(b);
  }

  const CONFIG_ONLY := Features(true, false, false, false)
  const NO_FEATURES := Features(false, false, false, false)

  const CONFIG_A := Loader("a.Config", "Config", "a", "a")
  const CONFIG_B := Loader("b.Config", "Config", "b", "b")

  /** Two configurations of one name, in packages a and b, share the name of their loader. */
  lemma TwoConfigsFail(nameOf: string -> string, p: Program)
    ensures var inp := Of([CONFIG_A, CONFIG_B], CONFIG_ONLY, nameOf, {});
      inp.Valid() && (Generated(inp, p) ==> !Compiles(p))
  {
    hide *;
    TwoConfigsShare();
    PairIsValid(CONFIG_A, CONFIG_B, CONFIG_ONLY, nameOf);
    var inp := Of([CONFIG_A, CONFIG_B], CONFIG_ONLY, nameOf, {});
    if Generated(inp, p) { SharedNameNeverCompiles(inp, p, 0, 1, "LoadConfig"); }
  }

  lemma TwoConfigsShare()
    ensures IsPair(CONFIG_A, CONFIG_B, CONFIG_ONLY)
    ensures "LoadConfig" in GeneratedNames(CONFIG_A) && "LoadConfig" in GeneratedNames(CONFIG_B)
  {
    assert "Load" + "Config" == "LoadConfig";
    assert GeneratedNames(CONFIG_A)[0] == "LoadConfig" == GeneratedNames(CONFIG_B)[0];
  }

  const OF_CONFIG := Service("a/config.A", "A", Plain(Package("a/config", "config"), "NewA", false), [])
  const OF_CONFIG2 := Service("b/config2.B", "B", Plain(Package("b/config2", "config"), "NewB", false), [])

  /** Two packages called config, at a/config and b/config2: the alias config2 is left out, but not what Go declares. */
  lemma SecondConfigFails(p: Program)
    ensures var inp := Of([OF_CONFIG, OF_CONFIG2], NO_FEATURES, path => "config", {});
      inp.Valid() && (Generated(inp, p) ==> !Compiles(p))
  {
    hide *;
    var nameOf := path => "config";
    ConfigsArePair();
    PairIsValid(OF_CONFIG, OF_CONFIG2, NO_FEATURES, nameOf);
    var inp := Of([OF_CONFIG, OF_CONFIG2], NO_FEATURES, nameOf, {});
    SecondConfigUnusable(nameOf);
    if Generated(inp, p) { UnusableFails(inp, p); }
  }

  lemma ConfigsArePair()
    ensures IsPair(OF_CONFIG, OF_CONFIG2, NO_FEATURES)
  {
  }

  lemma UnusableFails(inp: Input, p: Program)
    requires inp.Valid() && Generated(inp, p) && !ImportsUsable(inp)
    ensures !Compiles(p)
  {
    CompilesIffHygienic(inp, p);
    hide Input.Valid, Generated, Compiles, ImportsUsable, NameUsable, StatementHygienic, NilReturnable, Predeclared;
  }

  lemma SecondConfigUnusable(nameOf: string -> string)
    requires nameOf("b/config2") == "config"
    ensures !ImportsUsable(Of([OF_CONFIG, OF_CONFIG2], NO_FEATURES, nameOf, {}))
  {
    var inp := Of([OF_CONFIG, OF_CONFIG2], NO_FEATURES, nameOf, {});
    ConfigPackages(nameOf);
    ConfigAliases("app");
    hide Input.Packages, Input.Declared, I.LastSegmentFrom, IsName, I.Registered, Ids, IndexOf;
    var path := "b/config2";
    assert path in inp.File().aliasOf && inp.File().aliasOf[path] == "config2" == I.LastSegment(path);
    UnusableAt(inp, path);
  }

  lemma UnusableAt(inp: Input, path: string)
    requires path in inp.File().aliasOf && inp.File().aliasOf[path] == I.LastSegment(path) != inp.nameOf(path)
    ensures !ImportsUsable(inp)
  {
    hide Input.File, I.LastSegment, Input.Declared, IsName;
  }

  lemma ConfigPackages(nameOf: string -> string)
    ensures var inp := Of([OF_CONFIG, OF_CONFIG2], NO_FEATURES, nameOf, {});
      inp.self == "app" && inp.Packages() == [OF_CONFIG.ctor.value.pkg, OF_CONFIG2.ctor.value.pkg]
  {
    ConfigsArePair();
    PairPackages(OF_CONFIG, OF_CONFIG2, NO_FEATURES, nameOf);
    PairIsValid(OF_CONFIG, OF_CONFIG2, NO_FEATURES, nameOf);
    hide OrderPackages, Input.Valid, IndexOf, Ids;
    var inp := Of([OF_CONFIG, OF_CONFIG2], NO_FEATURES, nameOf, {});
    assert !inp.HasLoader();
  }

  lemma ConfigAliases(self: string)
    requires self == "app"
    ensures var pkgs := [Package("a/config", "config"), Package("b/config2", "config")];
      var t := I.Registered(I.Table(self, map[], map[]), pkgs);
      "b/config2" in t.aliasOf && t.aliasOf["b/config2"] == "config2" == I.LastSegment("b/config2")
  {
    var t0 := I.Table(self, map[], map[]);
    var first, second := Package("a/config", "config"), Package("b/config2", "config");
    var pkgs := [first, second];
    assert pkgs[1..] == [second] && [second][1..] == [];
    I.FreeBaseIsTaken(t0, first.path, first.name);
    var t1 := I.Added(t0, first.path, first.name).0;
    assert t1 == I.Table(self, map["a/config" := "config"], map["config" := "a/config"]);
    SecondOfBase(t1, second, "config2");
    I.RegisteredConcat(t0, [first], [second]);
    SegmentOfConfig2();
  }

  lemma SegmentOfConfig2()
    ensures I.LastSegment("b/config2") == "config2"
  {
    assert I.LastSegmentFrom("b/config2", 2) == "config2";
    assert I.LastSegmentFrom("b/config2", 4) == "config2";
    assert I.LastSegmentFrom("b/config2", 6) == "config2";
    assert I.LastSegmentFrom("b/config2", 8) == "config2";
  }

  /** A package whose base name is taken once gets a 2. */
  lemma SecondOfBase(t: I.Table, pkg: Package, alias: string)
    requires pkg.name != "" && pkg.path !in t.aliasOf.Keys + {"", t.self} && t.pathOf.Keys == {pkg.name}
    requires alias == pkg.name + "2"
    ensures var t' := I.Added(t, pkg.path, pkg.name).0; pkg.path in t'.aliasOf && t'.aliasOf[pkg.path] == alias
  {
    assert Nth(pkg.name, 2) == alias;
    FirstFreeIs(pkg.name, 1, 2, t.pathOf.Keys);
  }

  const OF_OTHER_FMT := Service("x/fmt.A", "A", Plain(Package("x/fmt", "fmt"), "NewA", false), [])
  const FALLIBLE := Service("b.B", "B", Plain(Package("b", "b"), "NewB", true), [])

  /** A package x/fmt that takes the name fmt before the wrapped error of B needs it. */
  lemma OtherFmtFails(nameOf: string -> string, p: Program)
    ensures var inp := Of([OF_OTHER_FMT, FALLIBLE], NO_FEATURES, nameOf, {});
      inp.Valid() && (Generated(inp, p) ==> !Compiles(p))
  {
    hide *;
    OtherFmtIsPair();
    PairIsValid(OF_OTHER_FMT, FALLIBLE, NO_FEATURES, nameOf);
    OtherFmtComesFirst(nameOf);
    var inp := Of([OF_OTHER_FMT, FALLIBLE], NO_FEATURES, nameOf, {});
    if Generated(inp, p) { WrapperFails(inp, p, 1); }
  }

  lemma OtherFmtIsPair()
    ensures IsPair(OF_OTHER_FMT, FALLIBLE, NO_FEATURES) && HandlingOf(FALLIBLE).WrapErr?
  {
  }

  lemma WrapperFails(inp: Input, p: Program, k: nat)
    requires inp.Valid() && Generated(inp, p) && k < |inp.order| && inp.order[k] in inp.index
    requires HandlingOf(inp.index[inp.order[k]]).WrapErr? && !FmtComesFirst(inp)
    ensures !Compiles(p)
  {
    CompilesIffHygienic(inp, p);
    hide Input.Valid, Generated, Compiles, ImportsUsable, NameUsable, NilReturnable, Predeclared;
    hide FmtComesFirst, HandlingOf;
    hide SurroundingsHygienic, CalleeVisible, AllResolved, Input.Bindings, AsksFor;
    assert Hygienic(inp) ==> StatementHygienic(inp, k);
  }

  lemma OtherFmtComesFirst(nameOf: string -> string)
    ensures !FmtComesFirst(Of([OF_OTHER_FMT, FALLIBLE], NO_FEATURES, nameOf, {}))
  {
    OtherFmtIsPair();
    PairPackages(OF_OTHER_FMT, FALLIBLE, NO_FEATURES, nameOf);
    PairIsValid(OF_OTHER_FMT, FALLIBLE, NO_FEATURES, nameOf);
    hide OrderPackages, Input.Valid, IndexOf, Ids, Input.HasLoader;
    var inp := Of([OF_OTHER_FMT, FALLIBLE], NO_FEATURES, nameOf, {});
    assert inp.Packages()[0] == Package("x/fmt", "fmt");
  }

  const NIL := Service("a.Nil", "Nil", Plain(Package("a", "a"), "NewNil", false), [])

  /** A component called Nil, unless its type implements error. */
  lemma NilFails(nameOf: string -> string, p: Program)
    ensures var inp := Of([NIL, OF_CONFIG], NO_FEATURES, nameOf, {});
      inp.Valid() && (Generated(inp, p) ==> !Compiles(p))
  {
    hide *;
    NilIsPair();
    PairIsValid(NIL, OF_CONFIG, NO_FEATURES, nameOf);
    var inp := Of([NIL, OF_CONFIG], NO_FEATURES, nameOf, {});
    NilAsks(inp);
    NothingIsError(nameOf);
    if Generated(inp, p) { NilNeverCompiles(inp, p, 0); }
  }

  lemma NilIsPair()
    ensures IsPair(NIL, OF_CONFIG, NO_FEATURES)
  {
  }

  lemma NilAsks(inp: Input)
    requires |inp.order| > 0 && inp.order[0] in inp.index && inp.index[inp.order[0]] == NIL
    ensures AsksFor(inp, 0, "nil")
  {
    assert SanitizeFrom("Nil", 2) == "l";
    assert SanitizeFrom("Nil", 1) == "il";
    assert SanitizeFrom("Nil", 0) == "Nil";
    assert ['n'] + "Nil"[1..] == "nil";
  }

  lemma NothingIsError(nameOf: string -> string)
    ensures forall id :: id !in Of([NIL, OF_CONFIG], NO_FEATURES, nameOf, {}).errorTyped
  {
  }

  /** Alone and with a type that implements error, the component called Nil compiles. */
  function NilInput(): Input {
    Of([NIL], NO_FEATURES, path => path, {NIL.id})
  }

  lemma NilIsAlone()
    ensures var inp := NilInput();
      && inp.order == [NIL.id] && NIL.id in inp.index && inp.index[NIL.id] == NIL
      && inp.Packages() == inp.EarlyPackages() == [Package("a", "a")]
      && inp.Declared() == ["Components", "buildComponents"] && !inp.HasLoader()
  {
    var inp := NilInput();
    assert inp.order == [NIL.id] && [NIL.id][1..] == [];
    assert OrderPackages(inp.order, inp.index) == ComponentPackages(NIL) + OrderPackages([], inp.index);
    assert ComponentPackages(NIL) == [Package("a", "a")];
  }

  lemma NilInputIsValid()
    ensures NilInput().Valid()
  {
    assert Ids([NIL])[0] == NIL.id;
    assert Resolved(Ids([NIL]), NIL) && Detected(NO_FEATURES, NIL) && Needs(NIL) == {};
    assert forall pkg :: pkg in ComponentPackages(NIL) ==> Nameable(pkg, "app");
    hide Resolved, Detected, Needs, ComponentPackages, Nameable, IndexOf;
    ListIsValid([NIL], NO_FEATURES, path => path, {NIL.id});
  }

  lemma NilHasNo(x: string)
    requires x != "a"
    ensures NamedPath(NilInput(), x).None? && NamedEarly(NilInput(), x).None?
  {
    NilIsAlone();
    hide Input.Packages, Input.EarlyPackages, NilInput;
    NobodyIsNamed([Package("a", "a")], {"", NilInput().self}, x);
  }

  lemma NilSurroundings()
    ensures SurroundingsHygienic(NilInput())
  {
    NilIsAlone();
    NilHasNo("error");
    NilImportsUsable();
    hide Input.HasLoader, NilInput, NamedPath, ImportsUsable, Input.Declared, FmtComesFirst;
  }

  lemma NilAliases()
    ensures KeepsSegments(NilInput().File(), {"a"}) && I.LastSegment("a") == "a" && NilInput().nameOf("a") == "a"
  {
    NilIsAlone();
    assert I.LastSegment("a") == "a" && I.Base("a", "a") == "a" && NilInput().self == "app";
    hide Input.Packages, I.LastSegment, I.Registered, I.Base, IndexOf;
    SegmentsAreKept(I.Table("app", map[], map[]), [Package("a", "a")], {"a"});
  }

  lemma NilImportsUsable()
    ensures ImportsUsable(NilInput())
  {
    NilAliases();
    NilIsAlone();
    NoShortKeyword();
    SmallWordIsName("a");
    hide Input.File, Input.Packages, I.LastSegment, IsName, NilInput, Input.Declared, KEYWORDS;
  }

  lemma NoShortKeyword()
    ensures "a" !in KEYWORDS
  {
  }

  lemma NilIsForeign()
    ensures NIL.ctor.Some? && IsForeign(NilInput(), NIL) && HandlingOf(NIL).Infallible?
    ensures forall x :: x !in Params(NilInput().features)
    ensures !LeadingDigit(NIL.name, 0) && ToLocalName(NIL.name) != "" && ToLocalName(NIL.name)[0] == 'n'
  {
    CapitalIsLowered("Nil");
    hide LeadingDigit, ToLocalName;
  }

  lemma NilStatement()
    ensures var inp := NilInput();
      && AllResolved(inp.order, inp.index) && |inp.order| == |inp.Bindings()| == 1
      && NameUsable(inp, 0) && StatementHygienic(inp, 0)
  {
    hide *;
    NilIsAlone();
    NilInputIsValid();
    NilIsForeign();
    ValidIsResolved(NilInput());
    LocalIsMadeCount(NilInput());
    ForeignStatement(NilInput(), NIL);
  }

  /** A first component that cannot fail and is called elsewhere. */
  lemma ForeignStatement(inp: Input, c: Component)
    requires AllResolved(inp.order, inp.index) && |inp.order| == |inp.Bindings()| > 0
    requires inp.index[inp.order[0]] == c && c.ctor.Some? && IsForeign(inp, c) && HandlingOf(c).Infallible?
    requires forall x :: x !in Params(inp.features)
    requires !LeadingDigit(c.name, 0) && ToLocalName(c.name) != "" && ToLocalName(c.name)[0] == 'n'
    ensures NameUsable(inp, 0) && StatementHygienic(inp, 0)
  {
    hide Input.Bindings, Plan, IsForeign, NamedPath, HandlingOf, AllResolved, FmtComesFirst, Predeclared, ToLocalName;
    hide Params, LeadingDigit;
  }

  lemma NilReturns()
    ensures NilReturnable(NilInput())
  {
    NilIsAlone();
    NilHasNo("nil");
    NilAsks(NilInput());
    assert NilInput().errorTyped == {NIL.id};
    hide Input.Packages, Input.EarlyPackages, NilInput, NamedEarly, ToLocalName, Predeclared;
  }

  /** The file compiles, and every run returns the component as its error. */
  lemma NilIsMistaken(p: Program, fails: Failures)
    requires Generated(NilInput(), p)
    ensures NilInput().Valid() && Compiles(p)
    ensures var r := Execute(p, fails, 0, []); r.Misreported? && r.mistaken == 0
  {
    hide *;
    NilInputIsValid();
    NilStatement();
    NilSurroundings();
    NilReturns();
    NilIsAlone();
    CompilesIffHygienic(NilInput(), p);
    HygienicFrom(NilInput());
    StatementLocals(NilInput(), p);
    ExecuteIsConstruct(NilInput(), p, fails, 0, []);
    NilIsConstructed(FieldPositions(p), fails);
    NilAsks(NilInput());
    NilIsTaken(NilInput(), p, 0);
    var inp := NilInput();
    OnlyLocalIsMistaken(p, Construct(inp.order, inp.index, inp.self, FieldPositions(p), fails, 0, []));
  }

  lemma NilIsConstructed(fields: map<string, nat>, fails: Failures)
    requires AllResolved(NilInput().order, NilInput().index)
    ensures Construct(NilInput().order, NilInput().index, NilInput().self, fields, fails, 0, []).Finished?
  {
    NilIsAlone();
    assert HandlingOf(NIL).Infallible?;
    hide NilInput, HandlingOf, Plan, AllResolved;
  }

  lemma OnlyLocalIsMistaken(p: Program, r: Result)
    requires |p.body.stmts| == 1 && Refers(p, 1, "nil").Local? && r.Finished?
    ensures Reported(p, r).Misreported? && Reported(p, r).mistaken == 0
  {
  }

  const NINE_LIVES := Service("a.Cat", "-9lives", Plain(Package("a", "a"), "NewCat", false), [])

  /** A component called -9lives, whose local would be 9lives. */
  lemma LeadingDigitFails(nameOf: string -> string, p: Program)
    ensures var inp := Of([NINE_LIVES, OF_CONFIG], NO_FEATURES, nameOf, {});
      inp.Valid() && (Generated(inp, p) ==> !Compiles(p))
  {
    hide *;
    NineLivesIsPair();
    PairIsValid(NINE_LIVES, OF_CONFIG, NO_FEATURES, nameOf);
    var inp := Of([NINE_LIVES, OF_CONFIG], NO_FEATURES, nameOf, {});
    if Generated(inp, p) { UnnamedFails(inp, p, 0); }
  }

  lemma NineLivesIsPair()
    ensures IsPair(NINE_LIVES, OF_CONFIG, NO_FEATURES) && LeadingDigit(NINE_LIVES.name, 0)
  {
    assert LeadingDigit("-9lives", 1);
  }

  lemma UnnamedFails(inp: Input, p: Program, k: nat)
    requires inp.Valid() && Generated(inp, p) && k < |inp.order| && inp.order[k] in inp.index
    requires LeadingDigit(inp.index[inp.order[k]].name, 0)
    ensures !Compiles(p)
  {
    CompilesIffHygienic(inp, p);
    hide Input.Valid, Generated, Compiles, StatementHygienic, NilReturnable, SurroundingsHygienic, AllResolved;
    hide Input.Bindings, LeadingDigit, ToLocalName;
    assert Hygienic(inp) ==> NameUsable(inp, k);
  }

  const STORE := Service("a.Store", "Store", Plain(Package("a", "a"), "NewStore", false), [])
  const BY_STORE := Service("app.B", "B", Plain(Package("app", "app"), "store", false), [])

  /** A local called store, before a call of the generated package's own function store. */
  lemma HiddenFunctionFails(nameOf: string -> string, p: Program)
    ensures var inp := Of([STORE, BY_STORE], NO_FEATURES, nameOf, {}).(others := ["store"]);
      inp.Valid() && (Generated(inp, p) ==> !Compiles(p))
  {
    hide *;
    StoresArePair();
    PairIsValid(STORE, BY_STORE, NO_FEATURES, nameOf);
    var was := Of([STORE, BY_STORE], NO_FEATURES, nameOf, {});
    var inp := was.(others := ["store"]);
    OthersKeepValid(was, ["store"]);
    StoreIsFree(nameOf);
    StoreAsks(inp);
    StoreIsUnqualified(nameOf);
    LocalIsMadeCount(inp);
    StoreTaken(inp);
    if Generated(inp, p) { HiddenFails(inp, p, 0, 1); }
  }

  lemma StoresArePair()
    ensures IsPair(STORE, BY_STORE, NO_FEATURES)
  {
  }

  lemma OthersKeepValid(inp: Input, others: seq<string>)
    requires inp.Valid()
    ensures inp.(others := others).Valid() && inp.(others := others).order == inp.order
    ensures inp.(others := others).index == inp.index
  {
  }

  lemma StoreAsks(inp: Input)
    requires |inp.order| == 2 && inp.order[0] in inp.index && inp.index[inp.order[0]] == STORE
    ensures FirstAsker(inp, 0, "store") && !EndsInDigit("store")
  {
    assert SanitizeFrom("Store", 4) == "e";
    assert SanitizeFrom("Store", 3) == "re";
    assert SanitizeFrom("Store", 2) == "ore";
    assert SanitizeFrom("Store", 1) == "tore";
    assert SanitizeFrom("Store", 0) == "Store";
    assert ['s'] + "Store"[1..] == "store";
  }

  lemma StoreIsFree(nameOf: string -> string)
    ensures var inp := Of([STORE, BY_STORE], NO_FEATURES, nameOf, {}).(others := ["store"]);
      "store" !in Reserved(inp.features, inp.Early())
  {
    var inp := Of([STORE, BY_STORE], NO_FEATURES, nameOf, {}).(others := ["store"]);
    StorePackages(nameOf);
    NamesAreEarly(inp, "store");
    hide IndexOf, Ids, Input.EarlyPackages, Input.Early;
    NobodyIsNamed([Package("a", "a"), Package("app", "app")], {"", inp.self}, "store");
  }

  lemma StorePackages(nameOf: string -> string)
    ensures var inp := Of([STORE, BY_STORE], NO_FEATURES, nameOf, {}).(others := ["store"]);
      inp.EarlyPackages() == [Package("a", "a"), Package("app", "app")]
  {
    StoresArePair();
    PairPackages(STORE, BY_STORE, NO_FEATURES, nameOf);
    PairIndex(STORE, BY_STORE);
    hide OrderPackages, IndexOf;
    assert ComponentPackages(STORE) == [Package("a", "a")] && ComponentPackages(BY_STORE) == [Package("app", "app")];
  }

  lemma StoreTaken(inp: Input)
    requires inp.Valid() && |inp.order| == 2 == |inp.Bindings()| && FirstAsker(inp, 0, "store") && !EndsInDigit("store")
    requires "store" !in Reserved(inp.features, inp.Early())
    ensures inp.Bindings()[0].local == "store"
  {
    FirstAskerGetsName(inp, 0, "store");
  }

  lemma StoreIsUnqualified(nameOf: string -> string)
    ensures var inp := Of([STORE, BY_STORE], NO_FEATURES, nameOf, {}).(others := ["store"]);
      BY_STORE.ctor.Some? && !IsForeign(inp, BY_STORE) && forall order | Resolved(order, BY_STORE) ::
        Plan(order, inp.self, BY_STORE).symbol == "store"
  {
  }

  lemma HiddenFails(inp: Input, p: Program, j: nat, k: nat)
    requires inp.Valid() && Generated(inp, p) && j < k < |inp.order| == |inp.Bindings()| && inp.order[k] in inp.index
    requires var c := inp.index[inp.order[k]];
      && c.ctor.Some? && !IsForeign(inp, c)
      && forall order | Resolved(order, c) :: Plan(order, inp.self, c).symbol == inp.Bindings()[j].local
    ensures !Compiles(p)
  {
    CompilesIffHygienic(inp, p);
    ValidIsResolved(inp);
    assert Resolved(inp.order, inp.index[inp.order[k]]);
    TakenBeforeIff(inp, k, inp.Bindings()[j].local);
    hide Input.Valid, Generated, Compiles, NilReturnable, SurroundingsHygienic, AllResolved, NameUsable, Plan, Resolved;
    hide Input.Bindings, FmtComesFirst, IsForeign, TakenBefore;
    assert Hygienic(inp) ==> StatementHygienic(inp, k);
  }
}
