/** Registered in construction order (generator/di/app.go), hooks respect the dependency graph over every run. */
module LifecycleOrder {
  import opened Model
  import opened TopologicalSort
  import opened Lifecycle

  // ---- registration ----

  function HooksOf(c: Component): Hooks {
    Hooks(c.id, c.postConstruct.Some?, c.preDestroy.Some?)
  }

  /** A hook that runs after construction, or one that runs before destruction, or both. */
  predicate HasHooks(index: map<ComponentId, Component>, id: ComponentId) {
    id in index && (index[id].postConstruct.Some? || index[id].preDestroy.Some?)
  }

  /** What the generated buildLifecycle registers: the components with hooks, in construction order. */
  function Registered(order: seq<ComponentId>, index: map<ComponentId, Component>): seq<Hooks> {
    if order == [] then []
    else
      (if HasHooks(index, order[0]) then [HooksOf(index[order[0]])] else []) + Registered(order[1..], index)
  }

  method BuildLifecycle(order: seq<ComponentId>, index: map<ComponentId, Component>, world: World)
    returns (lc: Lifecycle)
    ensures fresh(lc) && lc.world == world && lc.Current() == State(Registered(order, index), [], [])
  {
    lc := new Lifecycle(world);
    for i := 0 to |order|
      invariant fresh(lc) && lc.world == world && lc.started == [] && lc.trace == []
      invariant lc.components + Registered(order[i..], index) == Registered(order, index)
    {
      ghost var before := lc.components;
      assert order[i..][1..] == order[i + 1..];
      ghost var rest := Registered(order[i + 1..], index);
      if order[i] in index && index[order[i]].HasLifecycle() {
        var c := index[order[i]];
        assert Registered(order[i..], index) == [HooksOf(c)] + rest;
        lc.Register(c.id, c.postConstruct.Some?, c.preDestroy.Some?);
        assert before + ([HooksOf(c)] + rest) == before + [HooksOf(c)] + rest;
      } else {
        assert Registered(order[i..], index) == rest;
      }
    }
  }

  /** h stands for a component that runs something after its construction, before its destruction, or both. */
  ghost predicate StandsFor(h: Hooks, c: Component) {
    && (c.postConstruct.Some? || c.preDestroy.Some?)
    && h.name == c.id && (h.start <==> c.postConstruct.Some?) && (h.stop <==> c.preDestroy.Some?)
  }

  /** What is registered: a component with only one of the hooks too, and each hook as what it is. */
  lemma {:induction false} RegisteredIsExact(order: seq<ComponentId>, index: map<ComponentId, Component>, h: Hooks)
    ensures h in Registered(order, index) <==> exists id :: id in order && id in index && StandsFor(h, index[id])
  {
    if order != [] {
      RegisteredIsExact(order[1..], index, h);
      assert forall id :: id in order <==> id == order[0] || id in order[1..];
    }
  }

  /** The index maps every id to the component that has it. */
  ghost predicate IsIndex(index: map<ComponentId, Component>) {
    forall id :: id in index ==> index[id].id == id
  }

  ghost predicate DistinctNames(cs: seq<Hooks>) {
    forall i, j :: 0 <= i < j < |cs| ==> cs[i].name != cs[j].name
  }

  lemma {:induction false} RegisteredFrom(order: seq<ComponentId>, index: map<ComponentId, Component>, c: Hooks)
    requires IsIndex(index) && c in Registered(order, index)
    ensures c.name in order
  {
    if !HasHooks(index, order[0]) || c != HooksOf(index[order[0]]) {
      RegisteredFrom(order[1..], index, c);
    }
  }

  lemma {:induction false} RegisteredIsDistinct(order: seq<ComponentId>, index: map<ComponentId, Component>)
    requires IsIndex(index) && Distinct(order)
    ensures DistinctNames(Registered(order, index))
  {
    if order != [] {
      RegisteredIsDistinct(order[1..], index);
      if HasHooks(index, order[0]) {
        forall j | 0 <= j < |Registered(order[1..], index)|
          ensures Registered(order[1..], index)[j].name != order[0]
        {
          RegisteredFrom(order[1..], index, Registered(order[1..], index)[j]);
        }
      }
    }
  }

  lemma {:induction false} RegisteredHas(order: seq<ComponentId>, index: map<ComponentId, Component>, i: nat)
    returns (a: nat)
    requires i < |order| && HasHooks(index, order[i])
    ensures a < |Registered(order, index)| && Registered(order, index)[a] == HooksOf(index[order[i]])
  {
    if i == 0 {
      a := 0;
    } else {
      a := RegisteredHas(order[1..], index, i - 1);
      if HasHooks(index, order[0]) { a := a + 1; }
    }
  }

  /** Construction order is registration order. */
  lemma {:induction false} RegisteredKeepsOrder(order: seq<ComponentId>, index: map<ComponentId, Component>, i: nat,
      j: nat)
    returns (a: nat, b: nat)
    requires i < j < |order| && HasHooks(index, order[i]) && HasHooks(index, order[j])
    ensures a < b < |Registered(order, index)|
    ensures Registered(order, index)[a] == HooksOf(index[order[i]])
    ensures Registered(order, index)[b] == HooksOf(index[order[j]])
  {
    if i == 0 {
      var k := RegisteredHas(order[1..], index, j - 1);
      a, b := 0, k + 1;
    } else {
      a, b := RegisteredKeepsOrder(order[1..], index, i - 1, j - 1);
      if HasHooks(index, order[0]) { a, b := a + 1, b + 1; }
    }
  }

  // ---- runs of Start and Stop ----

  /** Whose turn it is among n components after m of them have come up. */
  function Turn(m: nat, n: nat): (t: nat)
    requires n > 0
    ensures t < n
  {
    if m == 0 then 0
    else
      var t := Turn(m - 1, n);
      if t + 1 < n then t + 1 else 0
  }

  /** How many full rounds m turns are. */
  function Rounds(m: nat, n: nat): nat
    requires n > 0
  {
    if m == 0 then 0 else Rounds(m - 1, n) + if Turn(m, n) == 0 then 1 else 0
  }

  /**
   Every event of the trace fits what is up before it: cs comes up in turn, over and over, and goes down from the
   top.
   */
  ghost predicate Follows(trace: seq<Event>, cs: seq<Hooks>) {
    forall k :: 0 <= k < |trace| ==> Fits(Replay(trace[..k]), trace[k], cs)
  }

  ghost predicate Fits(up: Option<seq<Hooks>>, e: Event, cs: seq<Hooks>) {
    && up.Some?
    && match e
       case Up(c) => cs != [] && c == cs[Turn(|up.value|, |cs|)]
       case StartFailed(c) => cs != [] && c == cs[Turn(|up.value|, |cs|)]
       case Down(c, _) => up.value != [] && up.value[|up.value| - 1] == c
  }

  lemma FollowsNext(trace: seq<Event>, cs: seq<Hooks>, e: Event)
    requires Follows(trace, cs) && Fits(Replay(trace), e, cs)
    ensures Follows(trace + [e], cs)
  {
    hide Replay, Fits;
    assert trace[..|trace|] == trace;
    forall k | 0 <= k < |trace + [e]| ensures Fits(Replay((trace + [e])[..k]), (trace + [e])[k], cs) {
      assert (trace + [e])[..k] == trace[..k];
    }
  }

  lemma {:induction false} StopFollows(w: World, cs: seq<Hooks>, started: seq<Hooks>, n: nat, trace: seq<Event>)
    requires n <= |started| && Replay(trace) == Some(started[..n]) && Follows(trace, cs)
    ensures Follows(StopFrom(w, started, n, trace).0, cs)
  {
    hide Follows, Replay;
    if n > 0 {
      var c := started[n - 1];
      var e := Down(c, !c.stop || w.stopOk(trace, c));
      ReplayNext(trace, e);
      FollowsNext(trace, cs, e);
      assert started[..n][..n - 1] == started[..n - 1];
      StopFollows(w, cs, started, n - 1, trace + [e]);
    }
  }

  lemma StoppedFollows(w: World, s: State)
    requires Consistent(s) && Follows(s.trace, s.components)
    ensures Follows(Stopped(w, s).0.trace, s.components)
  {
    assert s.started[..|s.started|] == s.started;
    StopFollows(w, s.components, s.started, |s.started|, s.trace);
  }

  /** Component i is the next to come up. */
  ghost predicate Next(s: State, i: nat) {
    s.components != [] ==> Turn(|s.started|, |s.components|) == if i < |s.components| then i else 0
  }

  lemma {:induction false} StartFollows(w: World, s: State, i: nat)
    requires i <= |s.components| && Consistent(s) && Follows(s.trace, s.components) && Next(s, i)
    ensures var s' := StartFrom(w, s, i).0;
      Consistent(s') && Follows(s'.trace, s.components) && s'.components == s.components && Next(s', 0)
    decreases |s.components| - i
  {
    hide Follows, Replay, Stopped;
    if i < |s.components| {
      var c := s.components[i];
      assert s.components[Turn(|s.started|, |s.components|)] == c;
      if c.start && !w.startOk(s.trace, c) {
        ReplayNext(s.trace, StartFailed(c));
        FollowsNext(s.trace, s.components, StartFailed(c));
        StoppedFollows(w, s.(trace := s.trace + [StartFailed(c)]));
        StoppedIsConsistent(w, s.(trace := s.trace + [StartFailed(c)]));
        NothingStarted(w, s.(trace := s.trace + [StartFailed(c)]));
      } else {
        ReplayNext(s.trace, Up(c));
        FollowsNext(s.trace, s.components, Up(c));
        StartFollows(w, s.(started := s.started + [c], trace := s.trace + [Up(c)]), i + 1);
      }
    }
  }

  lemma NothingStarted(w: World, s: State)
    ensures Stopped(w, s).0.components == s.components && Next(Stopped(w, s).0, 0)
  {
  }

  predicate NoRegister(ops: seq<Op>) {
    forall k :: 0 <= k < |ops| ==> !ops[k].Register?
  }

  lemma {:induction false} RunFollows(w: World, cs: seq<Hooks>, ops: seq<Op>)
    requires NoRegister(ops)
    ensures var s := Run(w, State(cs, [], []), ops);
      s.components == cs && Consistent(s) && Follows(s.trace, cs) && Next(s, 0)
  {
    hide Follows, Replay, Stopped, StartFrom;
    if ops == [] {
      NothingIsUp();
      assert Follows([], cs) by { NothingFollows(cs); }
    } else {
      var front := ops[..|ops| - 1];
      RunFollows(w, cs, front);
      var s := Run(w, State(cs, [], []), front);
      if ops[|ops| - 1].Start? {
        StartFollows(w, s, 0);
      } else {
        assert ops[|ops| - 1].Stop?;
        StoppedFollows(w, s);
        StoppedIsConsistent(w, s);
        NothingStarted(w, s);
      }
    }
  }

  lemma NothingFollows(cs: seq<Hooks>)
    ensures Follows([], cs)
  {
  }

  // ---- dependencies come up first and go down last ----

  ghost predicate Periodic(up: seq<Hooks>, cs: seq<Hooks>) {
    up != [] ==> cs != [] && forall k {:trigger up[k]} :: 0 <= k < |up| ==> up[k] == cs[Turn(k, |cs|)]
  }

  lemma {:induction false} FollowsIsPeriodic(trace: seq<Event>, cs: seq<Hooks>, k: nat)
    requires Follows(trace, cs) && k <= |trace|
    ensures Replay(trace[..k]).Some? && Periodic(Replay(trace[..k]).value, cs)
  {
    hide Replay, Fits, Periodic;
    if k == 0 {
      assert trace[..0] == [];
      NothingIsUp();
      assert Periodic([], cs) by { PeriodicEmpty(cs); }
    } else {
      FollowsIsPeriodic(trace, cs, k - 1);
      assert trace[..k] == trace[..k - 1] + [trace[k - 1]];
      assert Fits(Replay(trace[..k - 1]), trace[k - 1], cs);
      FitKeepsPeriodic(trace[..k - 1], trace[k - 1], cs);
    }
  }

  lemma PeriodicEmpty(cs: seq<Hooks>)
    ensures Periodic([], cs)
  {
  }

  lemma FitKeepsPeriodic(trace: seq<Event>, e: Event, cs: seq<Hooks>)
    requires Fits(Replay(trace), e, cs) && Periodic(Replay(trace).value, cs)
    ensures Replay(trace + [e]).Some? && Periodic(Replay(trace + [e]).value, cs)
  {
    hide Replay;
    ReplayNext(trace, e);
  }

  /** In a repetition of cs, component a occurs once in every full round, and once more after its turn. */
  lemma {:induction false} CountInRounds(up: seq<Hooks>, cs: seq<Hooks>, a: nat)
    requires a < |cs| && DistinctNames(cs) && Periodic(up, cs)
    ensures multiset(up)[cs[a]] == Rounds(|up|, |cs|) + if a < Turn(|up|, |cs|) then 1 else 0
  {
    if up != [] {
      hide Periodic, DistinctNames;
      var front, r := up[..|up| - 1], Turn(|up| - 1, |cs|);
      PeriodicLast(up, cs);
      CountInRounds(front, cs, a);
      SameHooks(cs, r, a);
      assert up == front + [cs[r]];
      assert multiset(up) == multiset(front) + multiset{cs[r]};
    }
  }

  lemma PeriodicLast(up: seq<Hooks>, cs: seq<Hooks>)
    requires Periodic(up, cs) && up != []
    ensures cs != [] && up[|up| - 1] == cs[Turn(|up| - 1, |cs|)] && Periodic(up[..|up| - 1], cs)
  {
    hide Turn;
  }

  lemma SameHooks(cs: seq<Hooks>, a: nat, b: nat)
    requires a < |cs| && b < |cs| && DistinctNames(cs)
    ensures cs[a] == cs[b] <==> a == b
  {
  }

  /** How many times c is up before event k. */
  ghost function UpBefore(trace: seq<Event>, k: nat, c: Hooks): nat
    requires k <= |trace|
  {
    var up := Replay(trace[..k]);
    if up.Some? then multiset(up.value)[c] else 0
  }

  /** Earlier registrations are up at least as often as later ones, and more often while the later one is starting. */
  lemma EarlierIsUpFirst(trace: seq<Event>, cs: seq<Hooks>, a: nat, b: nat, k: nat)
    requires Follows(trace, cs) && DistinctNames(cs) && a < b < |cs| && k <= |trace|
    ensures UpBefore(trace, k, cs[b]) <= UpBefore(trace, k, cs[a])
    ensures k < |trace| && (trace[k].Up? || trace[k].StartFailed?) && trace[k].c == cs[b] ==>
      UpBefore(trace, k, cs[b]) < UpBefore(trace, k, cs[a])
    ensures k < |trace| && trace[k].Down? && trace[k].c == cs[a] ==>
      UpBefore(trace, k, cs[b]) < UpBefore(trace, k, cs[a])
  {
    FollowsIsPeriodic(trace, cs, k);
    var up := Replay(trace[..k]).value;
    CountInRounds(up, cs, a);
    CountInRounds(up, cs, b);
    if k < |trace| {
      assert Fits(Replay(trace[..k]), trace[k], cs);
      if trace[k].Down? {
        SameHooks(cs, Turn(|up| - 1, |cs|), a);
      } else {
        SameHooks(cs, Turn(|up|, |cs|), b);
      }
    }
  }

  /** x depends on d, directly or through others, which need not have hooks. */
  ghost predicate DependsOn(g: Graph, x: ComponentId, d: ComponentId) {
    exists p :: IsPath(g, p) && |p| > 1 && p[0] == x && p[|p| - 1] == d
  }

  /** Whatever a path leads to comes before where it starts. */
  lemma {:induction false} PathGoesBack(g: Graph, order: seq<ComponentId>, p: seq<ComponentId>, j: nat) returns (i: nat)
    requires IsConstructionOrder(g, order) && IsPath(g, p) && |p| > 1 && j < |order| && order[j] == p[0]
    ensures i < j && order[i] == p[|p| - 1]
    decreases |p|
  {
    assert p[1] in g.Deps(p[0]);
    assert p[1] in order[..j];
    i :| 0 <= i < j && order[..j][i] == p[1];
    if |p| > 2 {
      assert forall k :: 0 <= k < |p[1..]| ==> p[1..][k] == p[k + 1];
      i := PathGoesBack(g, order, p[1..], i);
    }
  }

  /**
   The main result. Let x depend on d, directly or not, both with hooks, registered in construction order. In every
   run of Start and Stop, whatever the hooks return: when the start hook of x is due, d is up (and up more often
   than x, should Start have been called repeatedly); and when d is taken down, x has been taken down as often as it
   came up since d did.
   */
  lemma HooksRespectDependencies(g: Graph, order: seq<ComponentId>, index: map<ComponentId, Component>,
      x: ComponentId, d: ComponentId, w: World, ops: seq<Op>, k: nat)
    requires IsConstructionOrder(g, order) && IsIndex(index) && NoRegister(ops)
    requires x in g.nodes && DependsOn(g, x, d) && HasHooks(index, x) && HasHooks(index, d)
    requires k <= |Run(w, State(Registered(order, index), [], []), ops).trace|
    ensures var trace := Run(w, State(Registered(order, index), [], []), ops).trace;
      var hx, hd := HooksOf(index[x]), HooksOf(index[d]);
      && UpBefore(trace, k, hx) <= UpBefore(trace, k, hd)
      && (k < |trace| && (trace[k].Up? || trace[k].StartFailed?) && trace[k].c == hx ==>
            UpBefore(trace, k, hx) < UpBefore(trace, k, hd))
      && (k < |trace| && trace[k].Down? && trace[k].c == hd ==> UpBefore(trace, k, hx) < UpBefore(trace, k, hd))
  {
    hide Run, Follows, IsPath;
    var cs := Registered(order, index);
    assert x in order;
    var j :| 0 <= j < |order| && order[j] == x;
    var p :| IsPath(g, p) && |p| > 1 && p[0] == x && p[|p| - 1] == d;
    var i := PathGoesBack(g, order, p, j);
    var a, b := RegisteredKeepsOrder(order, index, i, j);
    RegisteredIsDistinct(order, index);
    RunFollows(w, cs, ops);
    EarlierIsUpFirst(Run(w, State(cs, [], []), ops).trace, cs, a, b, k);
  }
}
