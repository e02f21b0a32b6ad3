/** What the resolver decides, stated without its algorithm; and what follows for the whole application. */
module Resolution {
  import opened Model
  import opened Ordering
  import opened Resolver

  /** Component k can be given to the consumer where a type is wanted: it is another one, it is not hidden behind a
   proxy, and its type can be assigned to the one wanted. */
  ghost predicate CanProvide(a: Assignable, app: seq<Component>, consumer: ComponentId, want: GoType, k: int)
    requires 0 <= k < |app|
  {
    app[k].id != consumer && !app[k].proxied && app[k].providedType.Some? && a(app[k].providedType.value, want)
  }

  /** Position i alone can provide the dependency: it is the only candidate, or the only primary one. */
  ghost predicate Wins(a: Assignable, app: seq<Component>, consumer: ComponentId, want: GoType, i: int) {
    && 0 <= i < |app| && CanProvide(a, app, consumer, want, i)
    && forall j :: 0 <= j < |app| && j != i && CanProvide(a, app, consumer, want, j) ==>
         app[i].primary && !app[j].primary
  }

  /** A concrete type that component k would provide, were it not hidden behind a proxy. */
  ghost predicate WouldBypass(a: Assignable, app: seq<Component>, consumer: ComponentId, want: GoType, k: int)
    requires 0 <= k < |app|
  {
    && !want.isInterface && app[k].id != consumer && app[k].proxied
    && app[k].providedType.Some? && a(app[k].providedType.value, want)
  }

  ghost predicate Forbidden(a: Assignable, app: seq<Component>, consumer: ComponentId, want: GoType) {
    exists k :: 0 <= k < |app| && WouldBypass(a, app, consumer, want, k)
  }

  /** The resolver's own tests are these. */
  lemma TestsAreThese(a: Assignable, app: seq<Component>, consumer: ComponentId, want: GoType)
    ensures forall k :: 0 <= k < |app| ==>
      (Satisfies(a, app[k], consumer, want) <==> CanProvide(a, app, consumer, want, k))
    ensures forall k :: 0 <= k < |app| ==>
      (!want.isInterface && Bypasses(a, app[k], consumer, want) <==> WouldBypass(a, app, consumer, want, k))
  {
  }

  /** The algorithm's view of who wins. */
  ghost predicate Listed(app: seq<Component>, candidates: seq<nat>, i: int)
    requires Positions(candidates, |app|)
  {
    0 <= i && (candidates == [i] || (|candidates| > 1 && Primaries(app, candidates) == [i]))
  }

  lemma WinnerIsListed(a: Assignable, app: seq<Component>, consumer: ComponentId, want: GoType, i: int)
    requires Wins(a, app, consumer, want, i)
    ensures Listed(app, Candidates(a, app, consumer, want, 0), i)
  {
    TestsAreThese(a, app, consumer, want);
    hide Candidates, Primaries, Satisfies, CanProvide;
    var cs := Candidates(a, app, consumer, want, 0);
    var ps := Primaries(app, cs);
    FirstTwoDiffer(ps, |app|);
    assert i in cs;
    if |cs| > 1 {
      var j := if cs[0] == i then cs[1] else cs[0];
      assert CanProvide(a, app, consumer, want, j) && app[i].primary;
      assert ps == [i];
    } else {
      assert cs == [i];
    }
  }

  lemma ListedWins(a: Assignable, app: seq<Component>, consumer: ComponentId, want: GoType, i: int)
    requires Listed(app, Candidates(a, app, consumer, want, 0), i)
    ensures Wins(a, app, consumer, want, i)
  {
    TestsAreThese(a, app, consumer, want);
    hide Candidates, Primaries, Satisfies, CanProvide;
    var cs := Candidates(a, app, consumer, want, 0);
    var ps := Primaries(app, cs);
    if cs == [i] {
      assert cs[0] == i;
    } else {
      assert ps[0] == i && ps[0] in cs && app[i].primary;
      forall j | 0 <= j < |app| && j != i && CanProvide(a, app, consumer, want, j) ensures !app[j].primary {
        assert j in cs && j !in ps;
      }
    }
  }

  lemma FirstTwoDiffer(ps: seq<nat>, n: nat)
    requires Positions(ps, n)
    ensures |ps| > 1 ==> ps[0] != ps[1]
  {
    assert |ps| > 1 ==> ps[0] < ps[1];
  }

  ghost predicate HasWinner(a: Assignable, app: seq<Component>, consumer: ComponentId, want: GoType) {
    exists i :: Wins(a, app, consumer, want, i)
  }

  lemma MatchMeansForbidden(a: Assignable, app: seq<Component>, consumer: ComponentId, want: GoType)
    ensures var t := ProxiedConcreteMatch(a, app, consumer, want, 0);
      && (t.Some? <==> Forbidden(a, app, consumer, want))
      && (t.Some? ==> WouldBypass(a, app, consumer, want, t.value))
  {
    hide ProxiedConcreteMatch, Bypasses, WouldBypass;
    TestsAreThese(a, app, consumer, want);
    var t := ProxiedConcreteMatch(a, app, consumer, want, 0);
    if t.Some? { assert WouldBypass(a, app, consumer, want, t.value); }
  }

  /**
   A parameter is bound to the winner if there is one and it is not forbidden; otherwise it stays unbound and there is
   exactly one diagnostic, which says why.
   */
  lemma ChoiceIsTheWinner(a: Assignable, app: seq<Component>, c: Component, dep: Dependency)
    ensures Choice(a, app, c, dep).1 == [] <==>
      !Forbidden(a, app, c.id, dep.typ) && HasWinner(a, app, c.id, dep.typ)
    ensures Choice(a, app, c, dep).1 == [] ==>
      forall i :: Wins(a, app, c.id, dep.typ, i) ==> Choice(a, app, c, dep).0 == app[i].id
    ensures Choice(a, app, c, dep).1 != [] ==> Choice(a, app, c, dep).0 == "" && |Choice(a, app, c, dep).1| == 1
  {
    MatchMeansForbidden(a, app, c.id, dep.typ);
    hide Candidates, ProxiedConcreteMatch, Primaries, Satisfies, Bypasses, Wins, Sort, IdsAt, Forbidden;
    var cs := Candidates(a, app, c.id, dep.typ, 0);
    var ps := Primaries(app, cs);
    forall i ensures Wins(a, app, c.id, dep.typ, i) <==> Listed(app, cs, i) {
      if Wins(a, app, c.id, dep.typ, i) { WinnerIsListed(a, app, c.id, dep.typ, i); }
      if Listed(app, cs, i) { ListedWins(a, app, c.id, dep.typ, i); }
    }
    if |cs| == 1 {
      assert cs == [cs[0]];
      assert Wins(a, app, c.id, dep.typ, cs[0]);
    }
    if |cs| > 1 && |ps| == 1 {
      assert ps == [ps[0]];
      assert Wins(a, app, c.id, dep.typ, ps[0]);
    }
  }

  /**
   What the rules say of one parameter, component by component: it is bound to component w exactly when no proxied
   component would provide the concrete type wanted, w is another component, not proxied, of a type that can be
   assigned, and every further such component leaves the choice to w, which is primary where they are not.
   */
  lemma BoundExactlyWhen(a: Assignable, app: seq<Component>, c: Component, dep: Dependency, w: nat)
    requires DistinctIds(app) && w < |app|
    ensures Choice(a, app, c, dep) == (app[w].id, []) <==>
      && (dep.typ.isInterface ||
          forall k :: 0 <= k < |app| && app[k].id != c.id && app[k].proxied && app[k].providedType.Some? ==>
            !a(app[k].providedType.value, dep.typ))
      && app[w].id != c.id && !app[w].proxied
      && app[w].providedType.Some? && a(app[w].providedType.value, dep.typ)
      && (forall k :: 0 <= k < |app| && k != w && app[k].id != c.id && !app[k].proxied && app[k].providedType.Some? ==>
            a(app[k].providedType.value, dep.typ) ==> app[w].primary && !app[k].primary)
  {
    hide Choice;
    BoundToWinner(a, app, c, dep, w);
    if Choice(a, app, c, dep) == (app[w].id, []) {
      assert CanProvide(a, app, c.id, dep.typ, w);
      forall k | 0 <= k < |app| && app[k].id != c.id && app[k].providedType.Some?
        ensures app[k].proxied && a(app[k].providedType.value, dep.typ) ==> dep.typ.isInterface
        ensures !app[k].proxied && k != w && a(app[k].providedType.value, dep.typ) ==> app[w].primary && !app[k].primary
      {
        assert !WouldBypass(a, app, c.id, dep.typ, k);
        assert k != w && CanProvide(a, app, c.id, dep.typ, k) ==> app[w].primary && !app[k].primary;
      }
    }
  }

  lemma BoundToWinner(a: Assignable, app: seq<Component>, c: Component, dep: Dependency, w: nat)
    requires DistinctIds(app) && w < |app|
    ensures Choice(a, app, c, dep) == (app[w].id, []) <==>
      !Forbidden(a, app, c.id, dep.typ) && Wins(a, app, c.id, dep.typ, w)
  {
    hide Choice, Wins, Forbidden;
    ChoiceIsTheWinner(a, app, c, dep);
    assert Wins(a, app, c.id, dep.typ, w) ==> HasWinner(a, app, c.id, dep.typ);
    if Choice(a, app, c, dep).1 == [] {
      var i := TheWinner(a, app, c.id, dep.typ);
      assert app[i].id == app[w].id <==> i == w;
    }
  }

  /** The ids of the components that can provide the dependency, in order. */
  ghost predicate ListsCandidates(a: Assignable, app: seq<Component>, consumer: ComponentId, want: GoType,
      list: seq<ComponentId>)
  {
    && Sorted(list)
    && (forall id :: id in list <==>
          exists k :: 0 <= k < |app| && CanProvide(a, app, consumer, want, k) && app[k].id == id)
  }

  /**
   The diagnostic names the component and its parameter and says which of the three reasons it was: the component
   hidden behind a proxy, that nobody can provide the type, or who all could.
   */
  lemma DiagnosticSaysWhy(a: Assignable, app: seq<Component>, c: Component, dep: Dependency)
    requires Choice(a, app, c, dep).1 != []
    ensures var d := Choice(a, app, c, dep).1[0];
      && d.consumer == c.name && d.dep == dep.name
      && (d.ConcreteInjection? <==> Forbidden(a, app, c.id, dep.typ))
      && (d.ConcreteInjection? ==>
            exists k :: 0 <= k < |app| && WouldBypass(a, app, c.id, dep.typ, k) && app[k].name == d.target)
      && (d.MissingDependency? <==> (!Forbidden(a, app, c.id, dep.typ) &&
            (forall k :: 0 <= k < |app| ==> !CanProvide(a, app, c.id, dep.typ, k))))
      && (d.AmbiguousDependency? ==> ListsCandidates(a, app, c.id, dep.typ, d.candidates))
  {
    MatchMeansForbidden(a, app, c.id, dep.typ);
    TestsAreThese(a, app, c.id, dep.typ);
    CandidateList(a, app, c.id, dep.typ);
    hide Candidates, ProxiedConcreteMatch, Primaries, Satisfies, Bypasses, Sort, IdsAt, Forbidden, CanProvide;
    hide ListsCandidates, WouldBypass;
    var cs := Candidates(a, app, c.id, dep.typ, 0);
    if |cs| > 0 { assert CanProvide(a, app, c.id, dep.typ, cs[0]); }
  }

  lemma CandidateList(a: Assignable, app: seq<Component>, consumer: ComponentId, want: GoType)
    ensures ListsCandidates(a, app, consumer, want, Sort(IdsAt(app, Candidates(a, app, consumer, want, 0))))
  {
    TestsAreThese(a, app, consumer, want);
    hide Candidates, Satisfies, CanProvide, Sort;
    var cs := Candidates(a, app, consumer, want, 0);
    var ids := IdsAt(app, cs);
    assert multiset(Sort(ids)) == multiset(ids);
    forall id | id in Sort(ids)
      ensures exists k :: 0 <= k < |app| && CanProvide(a, app, consumer, want, k) && app[k].id == id
    {
      assert id in multiset(Sort(ids)) && id in multiset(ids);
      var j :| 0 <= j < |ids| && ids[j] == id;
      assert CanProvide(a, app, consumer, want, cs[j]);
    }
    forall k | 0 <= k < |app| && CanProvide(a, app, consumer, want, k) ensures app[k].id in Sort(ids) {
      var j :| 0 <= j < |cs| && cs[j] == k;
      assert ids[j] == app[k].id;
      assert app[k].id in multiset(ids) && app[k].id in multiset(Sort(ids));
    }
  }

  // ---- the order of the components does not matter ----

  lemma WinnerMoves(a: Assignable, x: seq<Component>, y: seq<Component>, consumer: ComponentId, want: GoType, i: int)
    returns (j: int)
    requires DistinctIds(x) && DistinctIds(y) && multiset(x) == multiset(y) && Wins(a, x, consumer, want, i)
    ensures Wins(a, y, consumer, want, j) && y[j] == x[i]
  {
    assert x[i] in multiset(y);
    j :| 0 <= j < |y| && y[j] == x[i];
    forall k | 0 <= k < |y| && k != j && CanProvide(a, y, consumer, want, k) ensures x[i].primary && !y[k].primary {
      assert y[k] in multiset(x);
      var l :| 0 <= l < |x| && x[l] == y[k];
      assert y[k].id != y[j].id;
      assert CanProvide(a, x, consumer, want, l);
    }
  }

  lemma ForbiddenMoves(a: Assignable, x: seq<Component>, y: seq<Component>, consumer: ComponentId, want: GoType)
    requires multiset(x) == multiset(y) && Forbidden(a, x, consumer, want)
    ensures Forbidden(a, y, consumer, want)
  {
    var k :| 0 <= k < |x| && WouldBypass(a, x, consumer, want, k);
    assert x[k] in multiset(y);
    var l :| 0 <= l < |y| && y[l] == x[k];
    assert WouldBypass(a, y, consumer, want, l);
  }

  lemma ChoiceMoves(a: Assignable, x: seq<Component>, y: seq<Component>, c: Component, dep: Dependency)
    requires DistinctIds(x) && DistinctIds(y) && multiset(x) == multiset(y) && Choice(a, x, c, dep).1 == []
    ensures Choice(a, y, c, dep) == Choice(a, x, c, dep)
  {
    hide Choice, Wins, DistinctIds, Forbidden;
    ChoiceIsTheWinner(a, x, c, dep);
    ChoiceIsTheWinner(a, y, c, dep);
    var i := TheWinner(a, x, c.id, dep.typ);
    var j := WinnerMoves(a, x, y, c.id, dep.typ, i);
    if Forbidden(a, y, c.id, dep.typ) { ForbiddenMoves(a, y, x, c.id, dep.typ); }
    assert HasWinner(a, y, c.id, dep.typ);
  }

  lemma TheWinner(a: Assignable, app: seq<Component>, consumer: ComponentId, want: GoType) returns (i: int)
    requires HasWinner(a, app, consumer, want)
    ensures Wins(a, app, consumer, want, i) && 0 <= i < |app|
  {
    i :| Wins(a, app, consumer, want, i);
  }

  /** Permuting the components changes no binding. */
  lemma ChoiceIgnoresOrder(a: Assignable, x: seq<Component>, y: seq<Component>, c: Component, dep: Dependency)
    requires DistinctIds(x) && DistinctIds(y) && multiset(x) == multiset(y)
    ensures Choice(a, x, c, dep).0 == Choice(a, y, c, dep).0
    ensures Choice(a, x, c, dep).1 == [] <==> Choice(a, y, c, dep).1 == []
  {
    hide Choice, DistinctIds;
    ChoiceIsTheWinner(a, x, c, dep);
    ChoiceIsTheWinner(a, y, c, dep);
    if Choice(a, x, c, dep).1 == [] { ChoiceMoves(a, x, y, c, dep); }
    if Choice(a, y, c, dep).1 == [] { ChoiceMoves(a, y, x, c, dep); }
  }

  // ---- the whole application ----

  /** A binding that the rules allow: to the winner, another component, not behind a proxy, of an assignable type. */
  ghost predicate ProperlyBound(a: Assignable, app: seq<Component>, c: Component, dep: Dependency) {
    exists w :: Wins(a, app, c.id, dep.typ, w)
      && app[w].id == dep.resolvedTo && dep.resolvedTo != c.id && !app[w].proxied
      && app[w].providedType.Some? && a(app[w].providedType.value, dep.typ)
  }

  lemma {:induction false} NoDiagnosticsForPart(a: Assignable, app: seq<Component>, c: Component, n: nat, i: nat)
    requires i < n <= |c.dependencies| && ComponentDiagnostics(a, app, c, n) == []
    ensures DiagnosticsFor(a, app, c, c.dependencies[i]) == []
  {
    hide DiagnosticsFor;
    if i < n - 1 { NoDiagnosticsForPart(a, app, c, n - 1, i); }
  }

  lemma {:induction false} NoDiagnosticsForComponent(a: Assignable, app: seq<Component>, n: nat, k: nat)
    requires k < n <= |app| && AppDiagnostics(a, app, n) == []
    ensures ComponentDiagnostics(a, app, app[k], |app[k].dependencies|) == []
  {
    hide ComponentDiagnostics;
    if k < n - 1 { NoDiagnosticsForComponent(a, app, n - 1, k); }
  }

  /**
   Without diagnostics every parameter that was not bound beforehand is bound to its winner, which is another
   component, is not hidden behind a proxy, and has an assignable type; and a concrete type is injected only where no
   proxy hides it.
   */
  lemma NoDiagnosticsMeansBound(a: Assignable, app: seq<Component>, k: nat, i: nat)
    requires AppDiagnostics(a, app, |app|) == [] && k < |app| && i < |app[k].dependencies|
    ensures var was, now := app[k].dependencies[i], ResolvedApp(a, app)[k].dependencies[i];
      && (was.resolvedTo != "" ==> now == was)
      && (was.resolvedTo == "" ==>
            && now == was.(resolvedTo := now.resolvedTo)
            && ProperlyBound(a, app, app[k], now) && !Forbidden(a, app, app[k].id, now.typ)
            && now.resolvedTo in Ids(app) && now.resolvedTo != app[k].id)
  {
    hide AppDiagnostics, ComponentDiagnostics, Choice, Forbidden;
    NoDiagnosticsForComponent(a, app, |app|, k);
    NoDiagnosticsForPart(a, app, app[k], |app[k].dependencies|, i);
    var was := app[k].dependencies[i];
    if was.resolvedTo == "" {
      ChoiceIsTheWinner(a, app, app[k], was);
      var w := TheWinner(a, app, app[k].id, was.typ);
      assert ResolvedApp(a, app)[k].dependencies[i] == was.(resolvedTo := app[w].id);
      assert Ids(app)[w] == app[w].id;
    }
  }
}
