/** The application model shared by the compiler, graph and generator parts (package model). */
module Model {

  datatype Option<+T> = None | Some(value: T)

  type ComponentId = string

  datatype Package = Package(path: string, name: string)

  /** A Go type, reduced to what resolution and import registration look at. */
  datatype GoType = GoType(text: string, isInterface: bool, packages: seq<Package>)

  /** A constructor parameter; resolvedTo is "" until the resolver has chosen a component. */
  datatype Dependency = Dependency(name: string, typ: GoType, resolvedTo: ComponentId)

  datatype Constructor = Constructor(
    pkg: Package,
    funcName: string,
    returnsError: bool,
    constructorless: bool,
    configLoader: bool,
    repositoryImpl: bool)

  datatype PropertyCondition = PropertyCondition(name: string, havingValue: string, matchIfMissing: bool)

  datatype Conditions = Conditions(
    profiles: seq<string>,
    properties: seq<PropertyCondition>,
    requiredNuts: seq<string>,
    absentNuts: seq<string>)

  datatype Component = Component(
    id: ComponentId,
    name: string,
    providedType: Option<GoType>,
    named: Option<string>,
    isProxy: bool,
    primary: bool,
    ctor: Option<Constructor>,
    dependencies: seq<Dependency>,
    interfaceType: Option<GoType>,
    proxied: bool,
    proxyTarget: ComponentId,
    conditions: Conditions,
    postConstruct: Option<string>,
    preDestroy: Option<string>)
  {
    /** The resolved component ids in parameter order; unresolved parameters are skipped. */
    function DependsOn(): seq<ComponentId> {
      ResolvedIds(dependencies)
    }

    predicate HasLifecycle() {
      postConstruct.Some? || preDestroy.Some?
    }
  }

  function ResolvedIds(deps: seq<Dependency>): (ids: seq<ComponentId>)
    ensures forall x :: x in ids <==> x != "" && exists d :: d in deps && d.resolvedTo == x
  {
    if deps == [] then []
    else
      assert forall d :: d in deps <==> d == deps[0] || d in deps[1..];
      (if deps[0].resolvedTo != "" then [deps[0].resolvedTo] else []) + ResolvedIds(deps[1..])
  }

  function Ids(components: seq<Component>): (ids: seq<ComponentId>)
    ensures |ids| == |components|
    ensures forall i :: 0 <= i < |components| ==> ids[i] == components[i].id
  {
    seq(|components|, i requires 0 <= i < |components| => components[i].id)
  }

  /** Ids identify components uniquely (model/id.go). */
  ghost predicate DistinctIds(components: seq<Component>) {
    forall i, j :: 0 <= i < j < |components| ==> components[i].id != components[j].id
  }

  /** A directed graph: an edge from A to B means that A depends on B. */
  datatype Graph = Graph(nodes: seq<ComponentId>, edges: map<ComponentId, seq<ComponentId>>) {
    /** Adjacency of a node; a Go map gives nil for a missing key. */
    function Deps(id: ComponentId): seq<ComponentId> {
      if id in edges then edges[id] else []
    }
  }
}
