/** generator/di/imports.go: one alias for every imported package, and one package for every alias. */
module Imports {
  import opened Model
  import opened Naming
  import Value

  datatype Table = Table(self: string, aliasOf: map<string, string>, pathOf: map<string, string>) {
    /** The two maps are inverse to each other; the package itself is never imported. */
    ghost predicate Valid() {
      && (forall p :: p in aliasOf ==> aliasOf[p] in pathOf && pathOf[aliasOf[p]] == p)
      && (forall a :: a in pathOf ==> pathOf[a] in aliasOf && aliasOf[pathOf[a]] == a)
      && "" !in aliasOf && self !in aliasOf
    }

    /** Everything registered in this table still is, under the same alias. */
    ghost predicate KeptIn(t: Table) {
      self == t.self && forall p :: p in aliasOf ==> p in t.aliasOf && t.aliasOf[p] == aliasOf[p]
    }
  }

  function LastSegmentFrom(path: string, i: nat): string
    requires i <= |path|
  {
    if i == 0 then path else if path[i - 1] == '/' then path[i..] else LastSegmentFrom(path, i - 1)
  }

  function LastSegment(path: string): string {
    LastSegmentFrom(path, |path|)
  }

  function Base(path: string, name: string): string {
    if name == "" then LastSegment(path) else name
  }

  function Added(t: Table, path: string, name: string): (Table, string) {
    if path == "" || path == t.self then (t, "")
    else if path in t.aliasOf then (t, t.aliasOf[path])
    else
      var alias := FirstFree(Base(path, name), 1, t.pathOf.Keys);
      (t.(aliasOf := t.aliasOf[path := alias], pathOf := t.pathOf[alias := path]), alias)
  }

  function Registered(t: Table, pkgs: seq<Package>): Table
    decreases |pkgs|
  {
    if pkgs == [] then t else Registered(Added(t, pkgs[0].path, pkgs[0].name).0, pkgs[1..])
  }

  /** A line of the import block; the alias is left out when it is the last segment of the path. */
  datatype ImportLine = ImportLine(alias: Option<string>, path: string) {
    /** The name that Go declares for the line, when nameOf gives the package clause of every package. */
    function Declares(nameOf: string -> string): string {
      match alias
      case Some(a) => a
      case None => nameOf(path)
    }
  }

  function LineOf(t: Table, path: string): ImportLine
    requires path in t.aliasOf
  {
    ImportLine(if t.aliasOf[path] == LastSegment(path) then None else Some(t.aliasOf[path]), path)
  }

  /** The import block: one line for every path, sorted. */
  ghost function Block(t: Table): seq<ImportLine> {
    var paths := Value.SortedKeys(t.aliasOf.Keys);
    seq(|paths|, i requires 0 <= i < |paths| => assert paths[i] in paths; LineOf(t, paths[i]))
  }

  lemma BlockHas(t: Table, line: ImportLine)
    ensures line in Block(t) <==> line.path in t.aliasOf && line == LineOf(t, line.path)
  {
    hide LineOf, Value.SortedKeys;
    var paths := Value.SortedKeys(t.aliasOf.Keys);
    assert forall i :: 0 <= i < |paths| ==> paths[i] in paths && Block(t)[i] == LineOf(t, paths[i]);
    if line.path in t.aliasOf && line == LineOf(t, line.path) {
      assert line.path in paths;
      var i :| 0 <= i < |paths| && paths[i] == line.path;
      assert Block(t)[i] == line;
    }
    if line in Block(t) {
      var i :| 0 <= i < |paths| && Block(t)[i] == line;
      LinePath(t, paths[i]);
    }
  }

  lemma LinePath(t: Table, path: string)
    requires path in t.aliasOf
    ensures LineOf(t, path).path == path
  {
  }

  // ---- the code ----

  class Imports {
    const selfPath: string
    var aliasOf: map<string, string>
    var pathOf: map<string, string>

    constructor (selfPath: string)
      ensures this.selfPath == selfPath && Current() == Table(selfPath, map[], map[])
    {
      this.selfPath := selfPath;
      aliasOf, pathOf := map[], map[];
    }

    function Current(): Table
      reads this
    {
      Table(selfPath, aliasOf, pathOf)
    }

    method Add(path: string, name: string) returns (alias: string)
      requires Current().Valid()
      modifies this
      ensures (Current(), alias) == Added(old(Current()), path, name) && Current().Valid()
    {
      AddIsValid(Current(), path, name);
      if path == "" || path == selfPath { return ""; }
      if path in aliasOf { return aliasOf[path]; }
      var base := Base(path, name);
      alias := base;
      var i := 2;
      ghost var rest := pathOf.Keys;
      while !(alias !in pathOf || pathOf[alias] == path)
        invariant aliasOf == old(aliasOf) && pathOf == old(pathOf)
        invariant 2 <= i && alias == Nth(base, i - 1)
        invariant forall k :: 1 <= k < i - 1 ==> Nth(base, k) in pathOf.Keys
        invariant rest <= pathOf.Keys && forall k :: i - 1 <= k && Nth(base, k) in pathOf.Keys ==> Nth(base, k) in rest
        decreases |rest|
      {
        rest := Shrink(base, i - 1, pathOf.Keys, rest);
        alias := base + Value.Decimal(i);
        i := i + 1;
      }
      assert forall a :: a in pathOf ==> pathOf[a] in aliasOf;
      FirstFreeIs(base, 1, i - 1, pathOf.Keys);
      aliasOf, pathOf := aliasOf[path := alias], pathOf[alias := path];
    }

    method RenderLine(path: string) returns (line: ImportLine)
      requires path in aliasOf
      ensures line == LineOf(Current(), path)
    {
      var alias := aliasOf[path];
      if alias == LastSegment(path) {
        return ImportLine(None, path);
      } else {
        return ImportLine(Some(alias), path);
      }
    }

    method RenderBlock() returns (lines: seq<ImportLine>)
      ensures lines == Block(Current())
    {
      hide Value.SortedKeys, LineOf;
      var paths := Value.CollectKeys(aliasOf.Keys);
      lines := [];
      for i := 0 to |paths|
        invariant |lines| == i
        invariant forall k :: 0 <= k < i ==> paths[k] in paths && lines[k] == LineOf(Current(), paths[k])
      {
        assert paths[i] in paths;
        var line := RenderLine(paths[i]);
        lines := lines + [line];
      }
    }
  }

  // ---- aliases and paths stay in one-to-one correspondence ----

  lemma AddIsValid(t: Table, path: string, name: string)
    requires t.Valid()
    ensures Added(t, path, name).0.Valid() && t.KeptIn(Added(t, path, name).0)
  {
  }

  /** An alias refers to the package it was asked for, and is new unless the package was there already. */
  lemma AddResolves(t: Table, path: string, name: string)
    requires t.Valid() && path != "" && path != t.self
    ensures var (t', alias) := Added(t, path, name);
      && alias in t'.pathOf && t'.pathOf[alias] == path
      && (path !in t.aliasOf ==> alias !in t.pathOf)
  {
  }

  lemma {:induction false} RegisteredIsValid(t: Table, pkgs: seq<Package>)
    requires t.Valid()
    ensures Registered(t, pkgs).Valid() && t.KeptIn(Registered(t, pkgs))
    ensures forall k :: 0 <= k < |pkgs| && pkgs[k].path != "" && pkgs[k].path != t.self ==>
      pkgs[k].path in Registered(t, pkgs).aliasOf
    decreases |pkgs|
  {
    if pkgs != [] {
      var t' := Added(t, pkgs[0].path, pkgs[0].name).0;
      AddIsValid(t, pkgs[0].path, pkgs[0].name);
      RegisteredIsValid(t', pkgs[1..]);
      forall k | 0 <= k < |pkgs| && pkgs[k].path != "" && pkgs[k].path != t.self
        ensures pkgs[k].path in Registered(t, pkgs).aliasOf
      {
        if k > 0 { assert pkgs[k] == pkgs[1..][k - 1]; }
      }
    }
  }

  ghost predicate HasPath(pkgs: seq<Package>, path: string) {
    exists k :: 0 <= k < |pkgs| && pkgs[k].path == path
  }

  /** What is registered is what was asked for, except the package itself. */
  lemma {:induction false} RegisteredPaths(t: Table, pkgs: seq<Package>, path: string)
    ensures Registered(t, pkgs).self == t.self
    ensures path in Registered(t, pkgs).aliasOf <==>
      path in t.aliasOf || (path != "" && path != t.self && HasPath(pkgs, path))
    decreases |pkgs|
  {
    if pkgs != [] {
      var t' := Added(t, pkgs[0].path, pkgs[0].name).0;
      RegisteredPaths(t', pkgs[1..], path);
      HasPathTail(pkgs, path);
    }
  }

  lemma HasPathTail(pkgs: seq<Package>, path: string)
    requires pkgs != []
    ensures HasPath(pkgs, path) <==> pkgs[0].path == path || HasPath(pkgs[1..], path)
  {
    if HasPath(pkgs, path) {
      var k :| 0 <= k < |pkgs| && pkgs[k].path == path;
      if k > 0 { assert pkgs[1..][k - 1] == pkgs[k]; }
    }
    if HasPath(pkgs[1..], path) {
      var k :| 0 <= k < |pkgs[1..]| && pkgs[1..][k].path == path;
      assert pkgs[k + 1].path == path;
    }
  }

  lemma HasPathConcat(a: seq<Package>, b: seq<Package>, path: string)
    ensures HasPath(a + b, path) <==> HasPath(a, path) || HasPath(b, path)
  {
    if HasPath(a, path) {
      var k :| 0 <= k < |a| && a[k].path == path;
      assert (a + b)[k].path == path;
    }
    if HasPath(b, path) {
      var k :| 0 <= k < |b| && b[k].path == path;
      assert (a + b)[|a| + k].path == path;
    }
  }

  /** x is what stands behind the last slash of a path, or the whole of it. */
  predicate EndsIn(path: string, x: string) {
    var n := |path| - |x|;
    n >= 0 && path[n..] == x && '/' !in x && (n == 0 || path[n - 1] == '/')
  }

  lemma {:induction false} LastSegmentIs(path: string, i: nat)
    requires i <= |path| && '/' !in path[i..]
    ensures EndsIn(path, LastSegmentFrom(path, i))
  {
    if i > 0 && path[i - 1] != '/' {
      assert path[i - 1..] == [path[i - 1]] + path[i..];
      LastSegmentIs(path, i - 1);
    } else if i == 0 {
      assert path[0..] == path;
    }
  }

  /**
   The first name tried for a package is its own, or the last segment of its path if it has none; and an import line
   leaves out the alias exactly when it is the last segment.
   */
  lemma NamesComeFromPath(t: Table, path: string, name: string)
    ensures if name == "" then EndsIn(path, Base(path, name)) else Base(path, name) == name
    ensures path in t.aliasOf ==>
      LineOf(t, path) == ImportLine(if EndsIn(path, t.aliasOf[path]) then None else Some(t.aliasOf[path]), path)
  {
    LastSegmentIs(path, |path|);
    hide LastSegmentFrom;
    if path in t.aliasOf && EndsIn(path, t.aliasOf[path]) { OneEnding(path, t.aliasOf[path], LastSegment(path)); }
  }

  lemma OneEnding(path: string, x: string, y: string)
    requires EndsIn(path, x) && EndsIn(path, y)
    ensures x == y
  {
    if |x| < |y| { SlashInside(path, x, y); }
    if |y| < |x| { SlashInside(path, y, x); }
  }

  lemma SlashInside(path: string, x: string, y: string)
    requires EndsIn(path, x) && path != x && |x| < |y| <= |path| && path[|path| - |y|..] == y
    ensures '/' in y
  {
    var n := |path| - |x|;
    assert y[n - 1 - (|path| - |y|)] == path[n - 1];
  }


  lemma {:induction false} RegisteredConcat(t: Table, a: seq<Package>, b: seq<Package>)
    ensures Registered(t, a + b) == Registered(Registered(t, a), b)
    decreases |a|
  {
    if a == [] {
      assert a + b == b;
    } else {
      RegisteredConcat(Added(t, a[0].path, a[0].name).0, a[1..], b);
      assert (a + b)[1..] == a[1..] + b;
    }
  }

  // ---- which package gets a name ----

  /** The path of the first package of that base name; a path outside skip counts when it occurs first. */
  function PathNamed(pkgs: seq<Package>, skip: set<string>, x: string): Option<string>
    decreases |pkgs|
  {
    if pkgs == [] then None
    else if pkgs[0].path in skip then PathNamed(pkgs[1..], skip, x)
    else if Base(pkgs[0].path, pkgs[0].name) == x then Some(pkgs[0].path)
    else PathNamed(pkgs[1..], skip + {pkgs[0].path}, x)
  }

  /**
   A free name without a digit at the end becomes the alias of the first package of that base name, and of no other.
   */
  lemma {:induction false} FirstNamedGetsAlias(t: Table, pkgs: seq<Package>, x: string)
    requires t.Valid() && x !in t.pathOf && !EndsInDigit(x)
    ensures var t', path := Registered(t, pkgs), PathNamed(pkgs, t.aliasOf.Keys + {"", t.self}, x);
      if path.Some? then x in t'.pathOf && t'.pathOf[x] == path.value else x !in t'.pathOf
    decreases |pkgs|
  {
    hide Base, LastSegment, Nth, Added;
    if pkgs != [] {
      var path, name := pkgs[0].path, pkgs[0].name;
      var t' := Added(t, path, name).0;
      AddIsValid(t, path, name);
      RegisteredIsValid(t', pkgs[1..]);
      AddedPath(t, path, name);
      if path in t.aliasOf.Keys + {"", t.self} {
        FirstNamedGetsAlias(t, pkgs[1..], x);
      } else if Base(path, name) == x {
        FreeBaseIsTaken(t, path, name);
        assert t'.aliasOf[path] == x;
      } else {
        OtherBaseLeavesFree(t, path, name, x);
        assert t'.aliasOf.Keys + {"", t.self} == t.aliasOf.Keys + {"", t.self} + {path};
        FirstNamedGetsAlias(t', pkgs[1..], x);
      }
    }
  }

  lemma AddedPath(t: Table, path: string, name: string)
    ensures path in t.aliasOf.Keys + {"", t.self} ==> Added(t, path, name).0 == t
    ensures Added(t, path, name).0.self == t.self
    ensures path !in t.aliasOf.Keys + {"", t.self} ==> Added(t, path, name).0.aliasOf.Keys == t.aliasOf.Keys + {path}
  {
  }

  lemma FreeBaseIsTaken(t: Table, path: string, name: string)
    requires path !in t.aliasOf.Keys + {"", t.self} && Base(path, name) !in t.pathOf
    ensures var t' := Added(t, path, name).0; path in t'.aliasOf && t'.aliasOf[path] == Base(path, name)
  {
    FirstFreeIs(Base(path, name), 1, 1, t.pathOf.Keys);
  }

  lemma OtherBaseLeavesFree(t: Table, path: string, name: string, x: string)
    requires t.Valid() && x !in t.pathOf && !EndsInDigit(x) && Base(path, name) != x
    ensures x !in Added(t, path, name).0.pathOf
  {
    var alias := FirstFree(Base(path, name), 1, t.pathOf.Keys);
    assert Tried(alias, Base(path, name));
    if alias == x { OnlyItsOwnCandidate(x, Base(path, name)); }
  }
}
