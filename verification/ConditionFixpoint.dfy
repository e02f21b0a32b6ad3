/** compiler/conditions.go: dropping the components whose profiles and conditions do not hold, to a fixpoint. */
module ConditionFixpoint {
  import opened Model

  datatype Options = Options(profiles: set<string>, properties: map<string, string>)

  predicate Holds(p: PropertyCondition, properties: map<string, string>) {
    if p.name !in properties then p.matchIfMissing
    else p.havingValue == "" || properties[p.name] == p.havingValue
  }

  predicate ProfileActive(profiles: seq<string>, active: set<string>) {
    profiles == [] || exists p :: p in profiles && p in active
  }

  /** The conditions that do not depend on the other components. */
  predicate Candidate(c: Component, opts: Options) {
    && ProfileActive(c.conditions.profiles, opts.profiles)
    && forall p :: p in c.conditions.properties ==> Holds(p, opts.properties)
  }

  predicate Provides(c: Component, name: string) {
    c.name == name || c.named == Some(name)
  }

  predicate TypeProvided(name: string, self: Component, components: set<Component>) {
    exists c :: c in components && c.id != self.id && Provides(c, name)
  }

  predicate NutConditionsHold(c: Component, remaining: set<Component>) {
    && (forall name :: name in c.conditions.requiredNuts ==> TypeProvided(name, c, remaining))
    && (forall name :: name in c.conditions.absentNuts ==> !TypeProvided(name, c, remaining))
  }

  function Elements(s: seq<Component>): set<Component> {
    set c | c in s
  }

  /** The members of s whose nut conditions hold against the context. */
  function Kept(s: seq<Component>, context: set<Component>): (r: seq<Component>)
    ensures |r| <= |s|
    ensures forall c :: c in r <==> c in s && NutConditionsHold(c, context)
  {
    if s == [] then []
    else
      assert forall c :: c in s <==> c == s[0] || c in s[1..];
      (if NutConditionsHold(s[0], context) then [s[0]] else []) + Kept(s[1..], context)
  }

  function Candidates(s: seq<Component>, opts: Options): (r: seq<Component>)
    ensures forall c :: c in r <==> c in s && Candidate(c, opts)
  {
    if s == [] then []
    else
      assert forall c :: c in s <==> c == s[0] || c in s[1..];
      (if Candidate(s[0], opts) then [s[0]] else []) + Candidates(s[1..], opts)
  }

  function Fixpoint(remaining: seq<Component>): seq<Component>
    decreases |remaining|
  {
    var next := Kept(remaining, Elements(remaining));
    if |next| == |remaining| then next else Fixpoint(next)
  }

  function Surviving(components: seq<Component>, opts: Options): seq<Component> {
    Fixpoint(Candidates(components, opts))
  }

  // ---- the code ----

  lemma Assoc<T>(a: seq<T>, b: seq<T>, c: seq<T>)
    ensures a + (b + c) == a + b + c
  {
  }

  lemma KeptUnfold(s: seq<Component>, context: set<Component>)
    requires s != []
    ensures Kept(s, context) == (if NutConditionsHold(s[0], context) then [s[0]] else []) + Kept(s[1..], context)
  {
    hide NutConditionsHold;
  }

  lemma {:induction false} KeptAppend(s: seq<Component>, c: Component, context: set<Component>)
    ensures Kept(s + [c], context) == Kept(s, context) + if NutConditionsHold(c, context) then [c] else []
  {
    hide NutConditionsHold, Kept;
    KeptNothing(context);
    KeptUnfold(s + [c], context);
    var last := if NutConditionsHold(c, context) then [c] else [];
    if s == [] {
      assert s + [c] == [c] && [c][1..] == [];
    } else {
      KeptUnfold(s, context);
      KeptAppend(s[1..], c, context);
      assert (s + [c])[1..] == s[1..] + [c];
      Assoc(if NutConditionsHold(s[0], context) then [s[0]] else [], Kept(s[1..], context), last);
    }
  }

  lemma CandidatesUnfold(s: seq<Component>, opts: Options)
    ensures Candidates(s, opts) ==
      if s == [] then [] else (if Candidate(s[0], opts) then [s[0]] else []) + Candidates(s[1..], opts)
  {
    hide Candidate;
  }

  lemma {:induction false} CandidatesAppend(s: seq<Component>, c: Component, opts: Options)
    ensures Candidates(s + [c], opts) == Candidates(s, opts) + if Candidate(c, opts) then [c] else []
  {
    hide Candidate, Candidates;
    CandidatesUnfold(s + [c], opts);
    CandidatesUnfold(s, opts);
    var last := if Candidate(c, opts) then [c] else [];
    if s == [] {
      assert s + [c] == [c] && [c][1..] == [];
      CandidatesUnfold([], opts);
    } else {
      CandidatesAppend(s[1..], c, opts);
      assert (s + [c])[1..] == s[1..] + [c];
      Assoc(if Candidate(s[0], opts) then [s[0]] else [], Candidates(s[1..], opts), last);
    }
  }

  /** One turn of the fixpoint loop. */
  method Sweep(remaining: seq<Component>) returns (next: seq<Component>, changed: bool)
    ensures next == Kept(remaining, Elements(remaining)) && (changed <==> |next| < |remaining|)
  {
    hide NutConditionsHold, Kept;
    next, changed := [], false;
    assert remaining[..0] == [] && Kept([], Elements(remaining)) == [] by { KeptNothing(Elements(remaining)); }
    for i := 0 to |remaining|
      invariant next == Kept(remaining[..i], Elements(remaining)) && |next| <= i && (changed <==> |next| < i)
    {
      KeptAppend(remaining[..i], remaining[i], Elements(remaining));
      assert remaining[..i + 1] == remaining[..i] + [remaining[i]];
      if NutConditionsHold(remaining[i], Elements(remaining)) {
        next := next + [remaining[i]];
      } else {
        changed := true;
      }
    }
    assert remaining[..|remaining|] == remaining;
  }

  lemma KeptNothing(context: set<Component>)
    ensures Kept([], context) == []
  {
  }

  method ApplyConditions(components: seq<Component>, opts: Options) returns (remaining: seq<Component>)
    ensures remaining == Surviving(components, opts)
  {
    remaining := [];
    for i := 0 to |components|
      invariant remaining == Candidates(components[..i], opts)
    {
      CandidatesAppend(components[..i], components[i], opts);
      assert components[..i + 1] == components[..i] + [components[i]];
      if Candidate(components[i], opts) {
        remaining := remaining + [components[i]];
      }
    }
    assert components[..|components|] == components;
    while true
      invariant Fixpoint(remaining) == Surviving(components, opts)
      decreases |remaining|
    {
      var next, changed := Sweep(remaining);
      remaining := next;
      if !changed { break; }
    }
  }

  // ---- what survives ----

  /**
   Active under its profiles, and with its properties: one that is absent must be one that may be missing, one that is
   present must have the value asked for, if one is.
   */
  ghost predicate Active(c: Component, opts: Options) {
    && (c.conditions.profiles != [] ==> exists p :: p in c.conditions.profiles && p in opts.profiles)
    && forall p :: p in c.conditions.properties ==>
         && (p.name !in opts.properties ==> p.matchIfMissing)
         && (p.name in opts.properties && p.havingValue != "" ==> opts.properties[p.name] == p.havingValue)
  }

  /** For every nut wanted another component of the set, by its name or its type's; for one wanted absent, none. */
  ghost predicate Met(c: Component, t: set<Component>) {
    && (forall name :: name in c.conditions.requiredNuts ==>
          exists d :: d in t && d.id != c.id && (d.name == name || d.named == Some(name)))
    && (forall d :: d in t && d.id != c.id ==>
          && d.name !in c.conditions.absentNuts
          && (d.named.Some? ==> d.named.value !in c.conditions.absentNuts))
  }

  lemma ActiveIsCandidate(c: Component, opts: Options)
    ensures Active(c, opts) <==> Candidate(c, opts)
  {
  }

  lemma MetIsHolding(c: Component, t: set<Component>)
    ensures Met(c, t) <==> NutConditionsHold(c, t)
  {
    if Met(c, t) {
      forall name | name in c.conditions.requiredNuts ensures TypeProvided(name, c, t) {
        var d :| d in t && d.id != c.id && (d.name == name || d.named == Some(name));
        assert Provides(d, name);
      }
    } else if d :| d in t && d.id != c.id && (d.name in c.conditions.absentNuts ||
                                              (d.named.Some? && d.named.value in c.conditions.absentNuts)) {
      var name := if d.name in c.conditions.absentNuts then d.name else d.named.value;
      assert Provides(d, name);
    }
  }

  /** The code's tests say just that. */
  lemma TestsSay()
    ensures forall c, opts {:trigger Candidate(c, opts)} {:trigger Active(c, opts)} ::
      Active(c, opts) <==> Candidate(c, opts)
    ensures forall c, t {:trigger NutConditionsHold(c, t)} {:trigger Met(c, t)} ::
      Met(c, t) <==> NutConditionsHold(c, t)
  {
    hide Active, Candidate, Met, NutConditionsHold;
    forall c, opts ensures Active(c, opts) <==> Candidate(c, opts) { ActiveIsCandidate(c, opts); }
    forall c, t ensures Met(c, t) <==> NutConditionsHold(c, t) { MetIsHolding(c, t); }
  }

  /** Every member's nut conditions hold against the set. */
  ghost predicate Stable(t: set<Component>) {
    forall c :: c in t ==> Met(c, t)
  }

  /** The members of s that are in keep, in the order of s. */
  function Restrict(s: seq<Component>, keep: set<Component>): seq<Component> {
    if s == [] then [] else (if s[0] in keep then [s[0]] else []) + Restrict(s[1..], keep)
  }

  lemma {:induction false} KeptAll(s: seq<Component>, context: set<Component>)
    ensures |Kept(s, context)| == |s| <==> forall c :: c in s ==> NutConditionsHold(c, context)
    ensures |Kept(s, context)| == |s| ==> Kept(s, context) == s
  {
    hide NutConditionsHold;
    if s != [] {
      KeptAll(s[1..], context);
      assert s == [s[0]] + s[1..];
    }
  }

  lemma {:induction false} KeptIsRestrict(s: seq<Component>, context: set<Component>, keep: set<Component>)
    requires forall c :: c in keep && c in s ==> NutConditionsHold(c, context)
    ensures Restrict(Kept(s, context), keep) == Restrict(s, keep)
  {
    hide NutConditionsHold;
    if s != [] {
      KeptIsRestrict(s[1..], context, keep);
      var rest := Kept(s[1..], context);
      assert ([s[0]] + rest)[1..] == rest && [] + rest == rest;
    }
  }

  lemma {:induction false} CandidatesIsRestrict(s: seq<Component>, opts: Options, keep: set<Component>)
    requires forall c :: c in keep && c in s ==> Candidate(c, opts)
    ensures Restrict(Candidates(s, opts), keep) == Restrict(s, keep)
  {
    hide Candidate;
    if s != [] {
      CandidatesIsRestrict(s[1..], opts, keep);
      var rest := Candidates(s[1..], opts);
      assert ([s[0]] + rest)[1..] == rest && [] + rest == rest;
    }
  }

  lemma {:induction false} RestrictToAll(s: seq<Component>, keep: set<Component>)
    requires forall c :: c in s ==> c in keep
    ensures Restrict(s, keep) == s
  {
    if s != [] { RestrictToAll(s[1..], keep); }
  }

  lemma {:induction false} FixpointIsStable(s: seq<Component>)
    ensures Stable(Elements(Fixpoint(s))) && Elements(Fixpoint(s)) <= Elements(s)
    ensures Fixpoint(s) == Restrict(s, Elements(Fixpoint(s)))
    decreases |s|
  {
    TestsSay();
    hide NutConditionsHold, Kept, Restrict, Met;
    var next := Kept(s, Elements(s));
    KeptAll(s, Elements(s));
    if |next| == |s| {
      assert Fixpoint(s) == s;
      RestrictToAll(s, Elements(s));
    } else {
      assert Fixpoint(s) == Fixpoint(next);
      FixpointIsStable(next);
      assert Elements(next) <= Elements(s);
      assert forall c :: c in Elements(Fixpoint(next)) ==> c in next;
      KeptIsRestrict(s, Elements(s), Elements(Fixpoint(next)));
    }
  }

  /**
   The survivors are the components of one set, in discovery order; each is active under its profiles and its
   property and nut conditions hold, the latter against the survivors.
   */
  lemma SurvivorsHold(components: seq<Component>, opts: Options)
    ensures var r := Surviving(components, opts);
      && r == Restrict(components, Elements(r))
      && (forall c :: c in r ==> Active(c, opts) && Met(c, Elements(r)))
  {
    TestsSay();
    hide Candidate, NutConditionsHold, Active, Met;
    var s := Candidates(components, opts);
    FixpointIsStable(s);
    assert forall c :: c in Fixpoint(s) ==> c in Elements(Fixpoint(s)) && c in Elements(s);
    CandidatesIsRestrict(components, opts, Elements(Fixpoint(s)));
  }

  // ---- discovery order does not matter ----

  lemma {:induction false} FixpointIgnoresOrder(a: seq<Component>, b: seq<Component>)
    requires Elements(a) == Elements(b)
    ensures Elements(Fixpoint(a)) == Elements(Fixpoint(b))
    decreases |a| + |b|
  {
    hide NutConditionsHold;
    KeptAll(a, Elements(a));
    KeptAll(b, Elements(b));
    assert forall c :: c in a <==> c in Elements(a);
    assert forall c :: c in b <==> c in Elements(b);
    if |Kept(a, Elements(a))| < |a| {
      FixpointIgnoresOrder(Kept(a, Elements(a)), Kept(b, Elements(b)));
    }
  }

  /** The same components in another order, or with repetitions, leave the same survivors. */
  lemma SurvivorsIgnoreOrder(a: seq<Component>, b: seq<Component>, opts: Options)
    requires Elements(a) == Elements(b)
    ensures Surviving(b, opts) == Restrict(b, Elements(Surviving(a, opts)))
  {
    hide Candidate, Fixpoint;
    assert Elements(Candidates(a, opts)) == Elements(Candidates(b, opts)) by {
      assert forall c :: c in a <==> c in Elements(a);
      assert forall c :: c in b <==> c in Elements(b);
    }
    FixpointIgnoresOrder(Candidates(a, opts), Candidates(b, opts));
    SurvivorsHold(b, opts);
  }

  // ---- which set it is ----

  lemma MoreProvidersHelp(c: Component, t: set<Component>, u: set<Component>)
    requires c.conditions.absentNuts == [] && t <= u && NutConditionsHold(c, t)
    ensures NutConditionsHold(c, u)
  {
  }

  lemma {:induction false} FixpointContains(s: seq<Component>, t: set<Component>)
    requires t <= Elements(s) && Stable(t) && forall c :: c in t ==> c.conditions.absentNuts == []
    ensures t <= Elements(Fixpoint(s))
    decreases |s|
  {
    TestsSay();
    hide NutConditionsHold, Met;
    var next := Kept(s, Elements(s));
    forall c | c in t ensures c in next {
      MoreProvidersHelp(c, t, Elements(s));
    }
    if |next| < |s| { FixpointContains(next, t); }
  }

  /** Every stable set of candidates without @ConditionalOnMissingNut survives: nothing is dropped needlessly. */
  lemma SurvivorsAreGreatest(components: seq<Component>, opts: Options, t: set<Component>)
    requires Stable(t) && forall c :: c in t ==> c in components && Active(c, opts) && c.conditions.absentNuts == []
    ensures t <= Elements(Surviving(components, opts))
  {
    TestsSay();
    hide Candidate, Active;
    FixpointContains(Candidates(components, opts), t);
  }

  /** With it, two components that each ask for the absence of the other are both dropped, though one could stay. */
  lemma MissingNutsMayDropTooMuch(c: Component, opts: Options)
    requires Active(c, opts)
    requires c.id == "a" && c.name == "A" && c.named.None?
    requires c.conditions.requiredNuts == [] && c.conditions.absentNuts == ["B"]
    ensures var d := c.(id := "b", name := "B", conditions := c.conditions.(absentNuts := ["A"]));
      && Surviving([c, d], opts) == []
      && Stable({c}) && Stable({d})
  {
    var d := c.(id := "b", name := "B", conditions := c.conditions.(absentNuts := ["A"]));
    var s := [c, d];
    ActiveIsCandidate(c, opts);
    assert Candidate(d, opts);
    assert Candidates([d], opts) == [d] && s[1..] == [d] && [d][1..] == [];
    assert Candidates(s, opts) == s;
    assert c in Elements(s) && d in Elements(s);
    assert TypeProvided("B", c, Elements(s)) && "B" in c.conditions.absentNuts;
    assert TypeProvided("A", d, Elements(s)) && "A" in d.conditions.absentNuts;
    assert Kept([d], Elements(s)) == [];
    assert Kept(s, Elements(s)) == [];
    assert Fixpoint(s) == Fixpoint([]) == [];
  }

  /** No provider of a nut that a candidate wants absent can itself be dropped for its nut conditions. */
  ghost predicate ProvidersSettled(s: set<Component>) {
    forall c, d :: c in s && d in s && d.id != c.id && IsWantedAbsent(c, d) ==>
      d.conditions.requiredNuts == [] && d.conditions.absentNuts == []
  }

  /** c wants the absence of what d provides. */
  ghost predicate IsWantedAbsent(c: Component, d: Component) {
    d.name in c.conditions.absentNuts || (d.named.Some? && d.named.value in c.conditions.absentNuts)
  }

  lemma {:induction false} UnconditionalStays(s: seq<Component>, d: Component)
    requires d in s && d.conditions.requiredNuts == [] && d.conditions.absentNuts == []
    ensures d in Fixpoint(s)
    decreases |s|
  {
    var next := Kept(s, Elements(s));
    if |next| < |s| { UnconditionalStays(next, d); }
  }

  /** A dropped component would not hold in any set between the survivors and what was left when it was dropped. */
  lemma DroppedStaysOut(s: seq<Component>, c: Component, r: set<Component>, t: set<Component>)
    requires ProvidersSettled(Elements(s)) && c in s && !NutConditionsHold(c, Elements(s))
    requires forall d :: d in s && d.conditions.requiredNuts == [] && d.conditions.absentNuts == [] ==> d in r
    requires r <= t <= Elements(s)
    ensures !NutConditionsHold(c, t)
  {
    if name :| name in c.conditions.absentNuts && TypeProvided(name, c, Elements(s)) {
      var d :| d in Elements(s) && d.id != c.id && Provides(d, name);
      assert IsWantedAbsent(c, d);
      assert d in t;
      assert TypeProvided(name, c, t);
    } else {
      var name :| name in c.conditions.requiredNuts && !TypeProvided(name, c, Elements(s));
      assert !TypeProvided(name, c, t);
    }
  }

  lemma {:induction false} DroppedFails(s: seq<Component>, c: Component)
    requires ProvidersSettled(Elements(s)) && c in s && c !in Fixpoint(s)
    ensures !NutConditionsHold(c, Elements(Fixpoint(s)))
    decreases |s|
  {
    hide NutConditionsHold, Stable, ProvidersSettled, Kept, Fixpoint;
    var next := Kept(s, Elements(s));
    KeptAll(s, Elements(s));
    if c in next {
      FixpointGoesOn(s, c);
      DroppedFails(next, c);
    } else {
      FixpointIsStable(s);
      UnconditionalStay(s);
      DroppedStaysOut(s, c, Elements(Fixpoint(s)), Elements(Fixpoint(s)));
    }
  }

  /** A component that stays for now but not for good: another turn follows. */
  lemma FixpointGoesOn(s: seq<Component>, c: Component)
    requires ProvidersSettled(Elements(s)) && c in Kept(s, Elements(s)) && c !in Fixpoint(s)
    ensures var next := Kept(s, Elements(s));
      |next| < |s| && Fixpoint(s) == Fixpoint(next) && ProvidersSettled(Elements(next))
  {
    hide NutConditionsHold, Kept;
    KeptAll(s, Elements(s));
  }

  lemma UnconditionalStay(s: seq<Component>)
    ensures forall d :: d in s && d.conditions.requiredNuts == [] && d.conditions.absentNuts == [] ==>
      d in Elements(Fixpoint(s))
  {
    forall d | d in s && d.conditions.requiredNuts == [] && d.conditions.absentNuts == []
      ensures d in Elements(Fixpoint(s))
    {
      UnconditionalStays(s, d);
    }
  }

  lemma {:induction false} NoLargerStableSet(s: seq<Component>, t: set<Component>)
    requires ProvidersSettled(Elements(s)) && Stable(t) && Elements(Fixpoint(s)) <= t <= Elements(s)
    ensures t == Elements(Fixpoint(s))
    decreases |s|
  {
    TestsSay();
    hide NutConditionsHold, Met;
    var next := Kept(s, Elements(s));
    KeptAll(s, Elements(s));
    if |next| < |s| {
      assert Fixpoint(s) == Fixpoint(next);
      UnconditionalStay(s);
      forall x | x in t ensures x in next {
        assert x in s && NutConditionsHold(x, t);
        if x !in next { DroppedStaysOut(s, x, Elements(Fixpoint(s)), t); }
      }
      NoLargerStableSet(next, t);
    }
  }

  /**
   When the providers of nuts wanted absent are unconditional, a candidate survives exactly when its conditions hold
   against the survivors, and no larger set of candidates is stable.
   */
  lemma SettledProvidersMakeItExact(components: seq<Component>, opts: Options, t: set<Component>)
    requires ProvidersSettled(set c | c in components && Active(c, opts))
    ensures var r := Surviving(components, opts);
      && (forall c :: c in components && Active(c, opts) ==> (c in r <==> Met(c, Elements(r))))
      && (Stable(t) && Elements(r) <= t <= (set c | c in components && Active(c, opts)) ==> t == Elements(r))
  {
    TestsSay();
    hide Candidate, NutConditionsHold, Fixpoint, ProvidersSettled, Stable, Active, Met;
    assert (set c | c in components && Active(c, opts)) == Elements(Candidates(components, opts));
    var s := Candidates(components, opts);
    SurvivorsHold(components, opts);
    forall c | c in s && c !in Fixpoint(s) ensures !NutConditionsHold(c, Elements(Fixpoint(s))) {
      DroppedFails(s, c);
    }
    if Stable(t) && Elements(Fixpoint(s)) <= t <= Elements(s) { NoLargerStableSet(s, t); }
  }
}
