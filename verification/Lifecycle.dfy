/**
 Component startup and shutdown: runtime/lifecycle.go, and the registration order that generator/di/app.go emits.
 Hooks are calls into user code; whether one succeeds may depend on everything that has run before it.
 */
module Lifecycle {
  import opened Model
  import opened TopologicalSort

  /** A registered component: its name and which of the two hooks it has. */
  datatype Hooks = Hooks(name: ComponentId, start: bool, stop: bool)

  /** One turn of a loop: c comes up (its start hook succeeds, or it has none), fails to, or is taken down. */
  datatype Event = Up(c: Hooks) | StartFailed(c: Hooks) | Down(c: Hooks, ok: bool)

  /** The outcome of a hook, given the events before it. */
  datatype World = World(startOk: (seq<Event>, Hooks) -> bool, stopOk: (seq<Event>, Hooks) -> bool)

  datatype State = State(components: seq<Hooks>, started: seq<Hooks>, trace: seq<Event>)

  /** The error of Start names the component that failed and the stop hooks that failed during the rollback. */
  datatype StartResult = Started | Failed(name: ComponentId, rollback: seq<ComponentId>)

  // ---- the loops as functions ----

  /** The loop of stopStarted from component n - 1 downwards: the trace, and the names of the hooks that failed. */
  function StopFrom(w: World, started: seq<Hooks>, n: nat, trace: seq<Event>): (seq<Event>, seq<ComponentId>)
    requires n <= |started|
  {
    if n == 0 then (trace, [])
    else
      var c := started[n - 1];
      var ok := !c.stop || w.stopOk(trace, c);
      var (t, errs) := StopFrom(w, started, n - 1, trace + [Down(c, ok)]);
      (t, (if ok then [] else [c.name]) + errs)
  }

  function Stopped(w: World, s: State): (State, seq<ComponentId>) {
    var (t, errs) := StopFrom(w, s.started, |s.started|, s.trace);
    (State(s.components, [], t), errs)
  }

  /** The loop of Start from component i on. */
  function StartFrom(w: World, s: State, i: nat): (State, StartResult)
    requires i <= |s.components|
    decreases |s.components| - i
  {
    if i == |s.components| then (s, Started)
    else
      var c := s.components[i];
      if c.start && !w.startOk(s.trace, c) then
        var (s', errs) := Stopped(w, s.(trace := s.trace + [StartFailed(c)]));
        (s', Failed(c.name, errs))
      else
        StartFrom(w, s.(started := s.started + [c], trace := s.trace + [Up(c)]), i + 1)
  }

  /** The result r, with the errors errs before its own. */
  function After<T>(errs: seq<ComponentId>, r: (T, seq<ComponentId>)): (r': (T, seq<ComponentId>))
    ensures errs == [] ==> r' == r
    ensures r.1 == [] ==> r' == (r.0, errs)
  {
    assert [] + r.1 == r.1 && errs + [] == errs;
    (r.0, errs + r.1)
  }

  /** The next turn of the loop. */
  lemma StopStep(w: World, started: seq<Hooks>, i: nat, trace: seq<Event>, errs: seq<ComponentId>)
    requires i < |started|
    ensures var ok := !started[i].stop || w.stopOk(trace, started[i]);
      After(errs, StopFrom(w, started, i + 1, trace)) ==
        After(if ok then errs else errs + [started[i].name], StopFrom(w, started, i, trace + [Down(started[i], ok)]))
  {
    var ok := !started[i].stop || w.stopOk(trace, started[i]);
    var rest := StopFrom(w, started, i, trace + [Down(started[i], ok)]).1;
    assert errs + ([started[i].name] + rest) == errs + [started[i].name] + rest && [] + rest == rest;
  }

  // ---- the code ----

  class Lifecycle {
    var components: seq<Hooks>
    var started: seq<Hooks>
    /** What the hooks run so far have seen. */
    var trace: seq<Event>
    const world: World

    constructor (world: World)
      ensures Current() == State([], [], []) && this.world == world
    {
      this.world := world;
      components, started, trace := [], [], [];
    }

    function Current(): State
      reads this
    {
      State(components, started, trace)
    }

    method Register(name: ComponentId, start: bool, stop: bool)
      modifies this
      ensures Current() == old(Current()).(components := old(components) + [Hooks(name, start, stop)])
    {
      components := components + [Hooks(name, start, stop)];
    }

    method StopStarted() returns (errs: seq<ComponentId>)
      modifies this
      ensures (Current(), errs) == Stopped(world, old(Current()))
    {
      errs := [];
      var i := |started|;
      while i > 0
        invariant 0 <= i <= |started| && started == old(started) && components == old(components)
        invariant StopFrom(world, started, |started|, old(trace)) == After(errs, StopFrom(world, started, i, trace))
      {
        i := i - 1;
        StopStep(world, started, i, trace, errs);
        var c := started[i];
        var ok := true;
        if c.stop {
          ok := world.stopOk(trace, c);
          if !ok { errs := errs + [c.name]; }
        }
        trace := trace + [Down(c, ok)];
      }
      started := [];
    }

    method Start() returns (r: StartResult)
      modifies this
      ensures (Current(), r) == StartFrom(world, old(Current()), 0)
    {
      var i := 0;
      while i < |components|
        invariant 0 <= i <= |components| && components == old(components)
        invariant StartFrom(world, old(Current()), 0) == StartFrom(world, Current(), i)
      {
        var c := components[i];
        if c.start && !world.startOk(trace, c) {
          trace := trace + [StartFailed(c)];
          var errs := StopStarted();
          return Failed(c.name, errs);
        }
        started := started + [c];
        trace := trace + [Up(c)];
        i := i + 1;
      }
      r := Started;
    }

    method Stop() returns (errs: seq<ComponentId>)
      modifies this
      ensures (Current(), errs) == Stopped(world, old(Current()))
    {
      errs := StopStarted();
    }
  }

  // ---- a failed start stops exactly what it had started ----

  function Ups(cs: seq<Hooks>): seq<Event> {
    seq(|cs|, i requires 0 <= i < |cs| => Up(cs[i]))
  }

  /**
   After the events before, every element of cs is taken down, last first: its stop hook, if it has one, decides whether
   that succeeds, and nothing else does.
   */
  ghost predicate TakesDown(w: World, before: seq<Event>, downs: seq<Event>, cs: seq<Hooks>) {
    |downs| == |cs| && forall j :: 0 <= j < |cs| ==>
      var c := cs[|cs| - 1 - j];
      downs[j].Down? && downs[j].c == c && (downs[j].ok <==> c.stop ==> w.stopOk(before + downs[..j], c))
  }

  /** The names of what could not be taken down cleanly, in the order of the events. */
  ghost function FailedStops(downs: seq<Event>): seq<ComponentId> {
    if downs == [] then []
    else
      var e := downs[|downs| - 1];
      FailedStops(downs[..|downs| - 1]) + if e.Down? && !e.ok then [e.c.name] else []
  }

  lemma {:induction false} FailedStopsCons(e: Event, rest: seq<Event>)
    ensures FailedStops([e] + rest) == (if e.Down? && !e.ok then [e.c.name] else []) + FailedStops(rest)
  {
    var all, n := [e] + rest, |rest|;
    if n == 0 {
      assert all[..0] == [] && all[0] == e && FailedStops(rest) == [];
    } else {
      FailedStopsCons(e, rest[..n - 1]);
      assert all[..n] == [e] + rest[..n - 1] && all[n] == rest[n - 1];
    }
  }

  lemma {:induction false} StopTakesDown(w: World, started: seq<Hooks>, n: nat, trace: seq<Event>)
    returns (downs: seq<Event>)
    requires n <= |started|
    ensures var (t, errs) := StopFrom(w, started, n, trace);
      t == trace + downs && TakesDown(w, trace, downs, started[..n]) && errs == FailedStops(downs)
  {
    if n == 0 {
      downs := [];
    } else {
      var c := started[n - 1];
      var e := Down(c, !c.stop || w.stopOk(trace, c));
      var rest := StopTakesDown(w, started, n - 1, trace + [e]);
      downs := [e] + rest;
      assert trace + [e] + rest == trace + downs;
      FailedStopsCons(e, rest);
      TakesDownMore(w, trace, e, rest, started, n);
    }
  }

  lemma TakesDownMore(w: World, trace: seq<Event>, e: Event, rest: seq<Event>, started: seq<Hooks>, n: nat)
    requires 0 < n <= |started| && TakesDown(w, trace + [e], rest, started[..n - 1])
    requires e == Down(started[n - 1], !started[n - 1].stop || w.stopOk(trace, started[n - 1]))
    ensures TakesDown(w, trace, [e] + rest, started[..n])
  {
    var downs := [e] + rest;
    forall j | 0 <= j < n
      ensures var c := started[..n][n - 1 - j];
        downs[j].Down? && downs[j].c == c && (downs[j].ok <==> c.stop ==> w.stopOk(trace + downs[..j], c))
    {
      if j == 0 {
        assert trace + downs[..0] == trace;
      } else {
        assert trace + [e] + rest[..j - 1] == trace + downs[..j];
        assert started[..n][n - 1 - j] == started[..n - 1][n - 2 - (j - 1)];
      }
    }
  }

  /** A shutdown takes down everything that is started, last first, and reports exactly the stop hooks that fail. */
  lemma StopIsExact(w: World, s: State) returns (downs: seq<Event>)
    ensures var (s', errs) := Stopped(w, s);
      && s' == State(s.components, [], s.trace + downs)
      && TakesDown(w, s.trace, downs, s.started) && errs == FailedStops(downs)
  {
    downs := StopTakesDown(w, s.started, |s.started|, s.trace);
    assert s.started[..|s.started|] == s.started;
  }

  /** The start hooks of these components, if they have one, succeed one after the other. */
  ghost predicate ComeUp(w: World, before: seq<Event>, cs: seq<Hooks>) {
    forall m :: 0 <= m < |cs| && cs[m].start ==> w.startOk(before + Ups(cs[..m]), cs[m])
  }

  lemma ComeUpMore(w: World, before: seq<Event>, c: Hooks, rest: seq<Hooks>)
    requires (c.start ==> w.startOk(before, c)) && ComeUp(w, before + [Up(c)], rest)
    ensures ComeUp(w, before, [c] + rest) && before + [Up(c)] + Ups(rest) == before + Ups([c] + rest)
  {
    var cs := [c] + rest;
    forall m | 0 <= m < |cs| && cs[m].start ensures w.startOk(before + Ups(cs[..m]), cs[m]) {
      if m == 0 {
        assert before + Ups(cs[..0]) == before;
      } else {
        assert cs[..m] == [c] + rest[..m - 1] && Ups(cs[..m]) == [Up(c)] + Ups(rest[..m - 1]);
        assert before + [Up(c)] + Ups(rest[..m - 1]) == before + Ups(cs[..m]);
      }
    }
    assert Ups(cs) == [Up(c)] + Ups(rest);
  }

  /**
   Start brings up a prefix of the components, in order, as long as the start hooks succeed. If it is not all of them,
   the next one has a start hook, which fails, and everything started so far is taken down, last first, the rollback
   reporting the stop hooks that fail; nothing remains started.
   */
  lemma {:induction false} StartIsAllOrNothing(w: World, s: State, i: nat) returns (k: nat, downs: seq<Event>)
    requires i <= |s.components|
    ensures i <= k <= |s.components| && ComeUp(w, s.trace, s.components[i..k])
    ensures var (s', r) := StartFrom(w, s, i); var up := s.components[i..k];
      && (r == Started <==> k == |s.components|)
      && (r == Started ==> s' == State(s.components, s.started + up, s.trace + Ups(up)))
      && (r != Started ==>
            var c, before := s.components[k], s.trace + Ups(up);
            && c.start && !w.startOk(before, c)
            && s' == State(s.components, [], before + [StartFailed(c)] + downs)
            && TakesDown(w, before + [StartFailed(c)], downs, s.started + up)
            && r == Failed(c.name, FailedStops(downs)))
    decreases |s.components| - i
  {
    downs := [];
    k := i;
    if i < |s.components| {
      var c := s.components[i];
      if c.start && !w.startOk(s.trace, c) {
        downs := StopIsExact(w, s.(trace := s.trace + [StartFailed(c)]));
        assert s.components[i..i] == [] && s.started + [] == s.started && s.trace + Ups([]) == s.trace;
      } else {
        k, downs := StartIsAllOrNothing(w, s.(started := s.started + [c], trace := s.trace + [Up(c)]), i + 1);
        hide TakesDown, ComeUp;
        var rest := s.components[i + 1..k];
        assert s.components[i..k] == [c] + rest;
        assert s.started + [c] + rest == s.started + ([c] + rest);
        ComeUpMore(w, s.trace, c, rest);
      }
    } else {
      assert s.components[i..k] == [] && s.started + [] == s.started && s.trace + Ups([]) == s.trace;
    }
  }

  // ---- every run is a stack discipline ----

  /** The components that are up after the trace, or None if something was taken down that was not on top. */
  function Replay(trace: seq<Event>): Option<seq<Hooks>> {
    if trace == [] then Some([])
    else
      var before := Replay(trace[..|trace| - 1]);
      if before.None? then None
      else
        match trace[|trace| - 1]
        case Up(c) => Some(before.value + [c])
        case StartFailed(_) => before
        case Down(c, _) =>
          var n := |before.value|;
          if n > 0 && before.value[n - 1] == c then Some(before.value[..n - 1]) else None
  }

  lemma ReplayNext(trace: seq<Event>, e: Event)
    ensures var s := Replay(trace);
      s.Some? ==> Replay(trace + [e]) == match e
        case Up(c) => Some(s.value + [c])
        case StartFailed(_) => s
        case Down(c, _) => if s.value != [] && s.value[|s.value| - 1] == c then Some(s.value[..|s.value| - 1]) else None
  {
    assert (trace + [e])[..|trace|] == trace;
  }

  datatype Op = Register(c: Hooks) | Start | Stop

  function Do(w: World, s: State, op: Op): State {
    match op
    case Register(c) => s.(components := s.components + [c])
    case Start => StartFrom(w, s, 0).0
    case Stop => Stopped(w, s).0
  }

  function Run(w: World, s: State, ops: seq<Op>): State {
    if ops == [] then s else Do(w, Run(w, s, ops[..|ops| - 1]), ops[|ops| - 1])
  }

  const INITIAL := State([], [], [])

  ghost predicate Consistent(s: State) {
    Replay(s.trace) == Some(s.started)
  }

  lemma {:induction false} StopKeepsConsistent(w: World, started: seq<Hooks>, n: nat, trace: seq<Event>)
    requires n <= |started| && Replay(trace) == Some(started[..n])
    ensures Replay(StopFrom(w, started, n, trace).0) == Some([])
  {
    if n > 0 {
      var c := started[n - 1];
      var e := Down(c, !c.stop || w.stopOk(trace, c));
      ReplayNext(trace, e);
      assert started[..n][..n - 1] == started[..n - 1];
      StopKeepsConsistent(w, started, n - 1, trace + [e]);
    }
  }

  lemma StoppedIsConsistent(w: World, s: State)
    requires Consistent(s)
    ensures Consistent(Stopped(w, s).0)
  {
    assert s.started[..|s.started|] == s.started;
    StopKeepsConsistent(w, s.started, |s.started|, s.trace);
  }

  lemma {:induction false} StartKeepsConsistent(w: World, s: State, i: nat)
    requires i <= |s.components| && Consistent(s)
    ensures Consistent(StartFrom(w, s, i).0)
    decreases |s.components| - i
  {
    hide Replay, Stopped;
    if i < |s.components| {
      var c := s.components[i];
      if c.start && !w.startOk(s.trace, c) {
        ReplayNext(s.trace, StartFailed(c));
        StoppedIsConsistent(w, s.(trace := s.trace + [StartFailed(c)]));
      } else {
        ReplayNext(s.trace, Up(c));
        StartKeepsConsistent(w, s.(started := s.started + [c], trace := s.trace + [Up(c)]), i + 1);
      }
    }
  }

  lemma {:induction false} RunIsConsistent(w: World, ops: seq<Op>)
    ensures Consistent(Run(w, INITIAL, ops))
  {
    hide Replay, Stopped, StartFrom;
    if ops == [] {
      assert Replay([]) == Some([]) by { NothingIsUp(); }
    } else {
      var front := ops[..|ops| - 1];
      RunIsConsistent(w, front);
      var s := Run(w, INITIAL, front);
      match ops[|ops| - 1] {
        case Register(c) =>
        case Start => StartKeepsConsistent(w, s, 0);
        case Stop => StoppedIsConsistent(w, s);
      }
    }
  }

  lemma NothingIsUp()
    ensures Replay([]) == Some([])
  {
  }

  /** How often c came up in the trace. */
  function Initialised(trace: seq<Event>, c: Hooks): nat {
    if trace == [] then 0
    else Initialised(trace[..|trace| - 1], c) + if trace[|trace| - 1] == Up(c) then 1 else 0
  }

  /** How often c was taken down: the number of runs of its stop hook, if it has one. */
  function TakenDown(trace: seq<Event>, c: Hooks): nat {
    if trace == [] then 0
    else
      var e := trace[|trace| - 1];
      TakenDown(trace[..|trace| - 1], c) + if e.Down? && e.c == c then 1 else 0
  }

  lemma {:induction false} ReplayBalances(trace: seq<Event>, c: Hooks)
    requires Replay(trace).Some?
    ensures Initialised(trace, c) - TakenDown(trace, c) == multiset(Replay(trace).value)[c]
  {
    if trace != [] {
      var front, e := trace[..|trace| - 1], trace[|trace| - 1];
      ReplayBalances(front, c);
      var s := Replay(front).value;
      if e.Down? { assert s == s[..|s| - 1] + [s[|s| - 1]]; }
    }
  }

  /** Over every run, initialisations minus stops is the multiplicity in `started`. */
  lemma StartsAndStopsBalance(w: World, ops: seq<Op>, c: Hooks)
    ensures var s := Run(w, INITIAL, ops);
      Initialised(s.trace, c) - TakenDown(s.trace, c) == multiset(s.started)[c]
  {
    RunIsConsistent(w, ops);
    ReplayBalances(Run(w, INITIAL, ops).trace, c);
  }
}
