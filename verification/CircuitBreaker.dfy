/**
 The circuit breaker of runtime/circuitbreaker.go. Each critical section under the mutex is one atomic
 step; calls from any number of goroutines enter and leave in any interleaving.
 */
module CircuitBreaker {

  datatype State = Closed | Open | HalfOpen

  /** A spec after the defaults have been applied. */
  datatype Config = Config(threshold: int, reset: int, halfOpenMax: int) {
    predicate Valid() {
      threshold >= 1 && reset >= 1 && halfOpenMax >= 1
    }
  }

  const SECOND := 1_000_000_000

  /** newCircuitBreaker: a field that is not positive falls back to its default. */
  function WithDefaults(c: Config): (r: Config)
    ensures r.Valid() && (c.Valid() ==> r == c)
    ensures (c.threshold <= 0 ==> r.threshold == 5) && (c.threshold > 0 ==> r.threshold == c.threshold)
    ensures (c.reset <= 0 ==> r.reset == 30_000_000_000) && (c.reset > 0 ==> r.reset == c.reset)
    ensures (c.halfOpenMax <= 0 ==> r.halfOpenMax == 1) && (c.halfOpenMax > 0 ==> r.halfOpenMax == c.halfOpenMax)
  {
    Config(if c.threshold <= 0 then 5 else c.threshold,
           if c.reset <= 0 then 30 * SECOND else c.reset,
           if c.halfOpenMax <= 0 then 1 else c.halfOpenMax)
  }

  datatype Breaker = Breaker(state: State, failures: int, openedAt: int, halfOpenReqs: int)

  const NEW_BREAKER := Breaker(Closed, 0, 0, 0)

  /** allow: the breaker afterwards and whether the call may proceed. */
  function Allow(c: Config, b: Breaker, now: int): (Breaker, bool) {
    match b.state
    case Open =>
      if now - b.openedAt < c.reset then (b, false) else (b.(state := HalfOpen, halfOpenReqs := 1), true)
    case HalfOpen =>
      if b.halfOpenReqs >= c.halfOpenMax then (b, false) else (b.(halfOpenReqs := b.halfOpenReqs + 1), true)
    case Closed => (b, true)
  }

  function Trip(now: int): Breaker {
    Breaker(Open, 0, now, 0)
  }

  /** record: the breaker after a call that came back with or without an error. */
  function Record(c: Config, b: Breaker, ok: bool, now: int): Breaker {
    if ok then
      if b.state == HalfOpen then b.(state := Closed, failures := 0, halfOpenReqs := 0) else b.(failures := 0)
    else if b.state == HalfOpen || b.failures + 1 >= c.threshold then Trip(now)
    else b.(failures := b.failures + 1)
  }

  // ---- the code ----

  class CircuitBreaker {
    const spec: Config
    var state: State
    var failures: int
    var openedAt: int
    var halfOpenReqs: int

    constructor (spec: Config)
      ensures this.spec == WithDefaults(spec) && Current() == NEW_BREAKER
    {
      this.spec := WithDefaults(spec);
      state, failures, openedAt, halfOpenReqs := Closed, 0, 0, 0;
    }

    function Current(): Breaker
      reads this
    {
      Breaker(state, failures, openedAt, halfOpenReqs)
    }

    method AllowCall(now: int) returns (admitted: bool)
      modifies this
      ensures (Current(), admitted) == Allow(spec, old(Current()), now)
    {
      match state {
        case Open =>
          if now - openedAt < spec.reset { return false; }
          state := HalfOpen;
          halfOpenReqs := 1;
          return true;
        case HalfOpen =>
          if halfOpenReqs >= spec.halfOpenMax { return false; }
          halfOpenReqs := halfOpenReqs + 1;
          return true;
        case Closed =>
          return true;
      }
    }

    method RecordOutcome(ok: bool, now: int)
      modifies this
      ensures Current() == Record(spec, old(Current()), ok, now)
    {
      if !ok {
        if state == HalfOpen {
          TripNow(now);
        } else {
          failures := failures + 1;
          if failures >= spec.threshold { TripNow(now); }
        }
        return;
      }
      if state == HalfOpen {
        state := Closed;
        failures := 0;
        halfOpenReqs := 0;
      } else {
        failures := 0;
      }
    }

    method TripNow(now: int)
      modifies this
      ensures Current() == Trip(now)
    {
      state := Open;
      openedAt := now;
      failures := 0;
      halfOpenReqs := 0;
    }
  }

  // ---- all interleavings ----

  /** One critical section: a call asks to enter, or call id comes back from its body. */
  datatype Event = Enter(now: int) | Leave(id: nat, ok: bool, now: int)

  /**
   The breaker with what an observer remembers: the calls inside, those of them admitted since probing
   began, the outcomes recorded since the breaker last closed, those recorded since it last opened, and the
   times of the admissions since it last left the closed state.
   */
  datatype System = System(
    b: Breaker,
    clock: int,
    nextId: nat,
    inside: set<nat>,
    episode: set<nat>,
    outcomes: seq<bool>,
    late: seq<bool>,
    probes: seq<int>)

  function Start(clock: int): System {
    System(NEW_BREAKER, clock, 0, {}, {}, [], [], [])
  }

  predicate CanHappen(s: System, e: Event) {
    s.clock <= e.now && (e.Leave? ==> e.id in s.inside)
  }

  function Step(c: Config, s: System, e: Event): System {
    match e
    case Enter(now) =>
      var (b, admitted) := Allow(c, s.b, now);
      if !admitted then s.(b := b, clock := now)
      else
        System(b, now, s.nextId + 1, s.inside + {s.nextId},
               if b.state == HalfOpen then s.episode + {s.nextId} else s.episode,
               s.outcomes, s.late,
               if b.state == Closed then [] else s.probes + [now])
    case Leave(id, ok, now) =>
      var b := Record(c, s.b, ok, now);
      System(b, now, s.nextId, s.inside - {id},
             if b.state == HalfOpen then s.episode - {id} else {},
             if s.b.state != Closed && b.state == Closed then [] else s.outcomes + [ok],
             if s.b.state != Open && b.state == Open then [] else s.late + [ok],
             if b.state == Closed then [] else s.probes)
  }

  ghost predicate IsRun(c: Config, s: System, events: seq<Event>)
    decreases |events|
  {
    events == [] || (CanHappen(s, events[0]) && IsRun(c, Step(c, s, events[0]), events[1..]))
  }

  function After(c: Config, s: System, events: seq<Event>): System
    decreases |events|
  {
    if events == [] then s else After(c, Step(c, s, events[0]), events[1..])
  }

  /** Failures at the end of the outcomes, back to the last success. */
  function TrailingFailures(outcomes: seq<bool>): nat {
    if outcomes == [] || outcomes[|outcomes| - 1] then 0 else 1 + TrailingFailures(outcomes[..|outcomes| - 1])
  }

  /** More than halfOpenMax admissions while not closed take at least the reset time. */
  ghost predicate Spread(c: Config, probes: seq<int>) {
    && (forall i, j :: 0 <= i <= j < |probes| ==> probes[i] <= probes[j])
    && (forall i, j :: 0 <= i <= j < |probes| && j - i >= c.halfOpenMax ==> probes[j] - probes[i] >= c.reset)
  }

  /** How many of the probes belong to the current episode. */
  function Current(s: System): int {
    if s.b.state == HalfOpen then s.b.halfOpenReqs else 0
  }

  /** What the failure count stands for. */
  ghost predicate CountsFailures(c: Config, s: System) {
    && c.threshold >= 1 && 0 <= s.b.failures < c.threshold
    && (s.b.state == Closed ==> s.b.failures == TrailingFailures(s.outcomes))
    && (s.b.state == Open ==> s.b.failures == Rest(TrailingFailures(s.late), c.threshold))
  }

  /** What is left of n once multiples of m are taken away. */
  function Rest(n: nat, m: int): int
    requires m >= 1
  {
    n % m
  }

  ghost predicate Inv(c: Config, s: System) {
    && CountsFailures(c, s)
    && s.episode <= s.inside && (forall id :: id in s.inside ==> id < s.nextId)
    && |s.episode| == s.b.halfOpenReqs
    && (if s.b.state == HalfOpen then 1 <= s.b.halfOpenReqs <= c.halfOpenMax else s.b.halfOpenReqs == 0)
    && (s.b.state != Closed ==> s.b.openedAt <= s.clock)
    && (s.b.state == HalfOpen ==> s.b.openedAt + c.reset <= s.clock)
    && (s.b.state == Closed ==> s.probes == [])
    && Spread(c, s.probes)
    && Current(s) <= |s.probes|
    && (forall i :: 0 <= i < |s.probes| - Current(s) ==> s.probes[i] <= s.b.openedAt)
    && (forall i :: 0 <= i < |s.probes| ==> s.probes[i] <= s.clock)
  }

  lemma StartIsInv(c: Config, clock: int)
    requires c.Valid()
    ensures Inv(c, Start(clock))
  {
  }

  lemma SpreadAppend(c: Config, probes: seq<int>, recent: nat, openedAt: int, now: int)
    requires c.Valid() && Spread(c, probes) && recent < c.halfOpenMax && recent <= |probes|
    requires forall i :: 0 <= i < |probes| ==> probes[i] <= now
    requires forall i :: 0 <= i < |probes| - recent ==> probes[i] <= openedAt
    requires openedAt + c.reset <= now
    ensures Spread(c, probes + [now])
  {
  }

  lemma EnterKeepsInv(c: Config, s: System, now: int)
    requires c.Valid() && Inv(c, s) && s.clock <= now
    ensures Inv(c, Step(c, s, Enter(now)))
  {
    var (b, admitted) := Allow(c, s.b, now);
    if admitted && b.state == HalfOpen {
      hide Spread;
      assert s.nextId !in s.inside;
      var s' := Step(c, s, Enter(now));
      assert |s'.episode| == |s.episode| + 1;
      SpreadAppend(c, s.probes, Current(s), s.b.openedAt, now);
    }
  }

  lemma LeaveKeepsInv(c: Config, s: System, id: nat, ok: bool, now: int)
    requires c.Valid() && Inv(c, s) && CanHappen(s, Leave(id, ok, now))
    ensures Inv(c, Step(c, s, Leave(id, ok, now)))
  {
    LeaveKeepsCount(c, s, id, ok, now);
    hide Spread, CountsFailures, TrailingFailures;
    assert Spread(c, []) by { EmptyIsSpread(c); }
  }

  lemma LeaveKeepsCount(c: Config, s: System, id: nat, ok: bool, now: int)
    requires c.Valid() && CountsFailures(c, s)
    ensures CountsFailures(c, Step(c, s, Leave(id, ok, now)))
  {
    assert (s.outcomes + [ok])[..|s.outcomes|] == s.outcomes;
    assert (s.late + [ok])[..|s.late|] == s.late;
    assert TrailingFailures([]) == 0;
    OneMore(TrailingFailures(s.late), c.threshold);
    hide Rest;
  }

  lemma OneMore(n: nat, m: int)
    requires m >= 1
    ensures 0 <= Rest(n, m) < m && Rest(0, m) == 0
    ensures Rest(n + 1, m) == if Rest(n, m) + 1 == m then 0 else Rest(n, m) + 1
  {
    var q, r := n / m, n % m;
    assert n + 1 == q * m + (r + 1);
    if r + 1 == m {
      assert n + 1 == (q + 1) * m;
      Remainder(n + 1, q + 1, m, 0);
    } else {
      Remainder(n + 1, q, m, r + 1);
    }
  }

  lemma Remainder(n: int, q: int, m: int, r: int)
    requires m >= 1 && 0 <= r < m && n == q * m + r
    ensures n % m == r
  {
    var d := n / m - q;
    assert n - n % m == (n / m) * m;
    assert r - n % m == d * m;
    assert d >= 1 ==> d * m >= m;
    assert d <= -1 ==> d * m <= -m;
  }

  lemma EmptyIsSpread(c: Config)
    ensures Spread(c, [])
  {
  }

  /** The invariant holds in every state of every run. */
  lemma {:induction false} RunKeepsInv(c: Config, s: System, events: seq<Event>)
    requires c.Valid() && Inv(c, s) && IsRun(c, s, events)
    ensures Inv(c, After(c, s, events))
    decreases |events|
  {
    if events != [] {
      hide Inv, Step;
      match events[0] {
        case Enter(now) => EnterOfRun(c, s, events, now);
        case Leave(id, ok, now) => LeaveOfRun(c, s, events, id, ok, now);
      }
      RunKeepsInv(c, Step(c, s, events[0]), events[1..]);
    }
  }

  lemma EnterOfRun(c: Config, s: System, events: seq<Event>, now: int)
    requires c.Valid() && Inv(c, s) && IsRun(c, s, events) && events != [] && events[0] == Enter(now)
    ensures Inv(c, Step(c, s, events[0]))
  {
    hide Inv, Step;
    EnterKeepsInv(c, s, now);
  }

  lemma LeaveOfRun(c: Config, s: System, events: seq<Event>, id: nat, ok: bool, now: int)
    requires c.Valid() && Inv(c, s) && IsRun(c, s, events) && events != [] && events[0] == Leave(id, ok, now)
    ensures Inv(c, Step(c, s, events[0]))
  {
    hide Inv, Step;
    LeaveKeepsInv(c, s, id, ok, now);
  }

  // ---- what follows for every reachable state ----

  /** s is what some interleaving of calls leads to. */
  ghost predicate Reachable(c: Config, s: System) {
    exists clock, events :: IsRun(c, Start(clock), events) && After(c, Start(clock), events) == s
  }

  lemma ReachableIsInv(c: Config, s: System)
    requires c.Valid() && Reachable(c, s)
    ensures Inv(c, s)
  {
    hide Inv;
    var clock, events :| IsRun(c, Start(clock), events) && After(c, Start(clock), events) == s;
    StartIsInv(c, clock);
    RunKeepsInv(c, Start(clock), events);
  }

  lemma {:induction false} TrailingMeansLast(outcomes: seq<bool>, n: nat)
    ensures TrailingFailures(outcomes) >= n <==>
      n <= |outcomes| && forall i :: |outcomes| - n <= i < |outcomes| ==> !outcomes[i]
  {
    if n > 0 && outcomes != [] {
      var front := outcomes[..|outcomes| - 1];
      TrailingMeansLast(front, n - 1);
      if !outcomes[|outcomes| - 1] && TrailingFailures(front) >= n - 1 {
        forall i | |outcomes| - n <= i < |outcomes| - 1 ensures !outcomes[i] { assert !front[i]; }
      }
      if n <= |outcomes| && forall i :: |outcomes| - n <= i < |outcomes| ==> !outcomes[i] {
        assert forall i :: |front| - (n - 1) <= i < |front| ==> !front[i];
      }
    }
  }

  /** A closed breaker opens exactly when the last `threshold` outcomes since it closed are failures. */
  lemma TripsExactlyAtThreshold(c: Config, s: System, id: nat, ok: bool, now: int)
    requires c.Valid() && Reachable(c, s) && s.b.state == Closed && CanHappen(s, Leave(id, ok, now))
    ensures var s' := Step(c, s, Leave(id, ok, now));
      && s'.b.state in {Closed, Open}
      && (s'.b.state == Open <==>
          && c.threshold <= |s'.outcomes|
          && forall i :: |s'.outcomes| - c.threshold <= i < |s'.outcomes| ==> !s'.outcomes[i])
  {
    ReachableIsInv(c, s);
    var s' := Step(c, s, Leave(id, ok, now));
    assert s'.outcomes[..|s.outcomes|] == s.outcomes;
    TrailingMeansLast(s'.outcomes, c.threshold);
  }

  /** Failures never reach the threshold, and half-open means exactly halfOpenReqs probes in flight. */
  lemma HalfOpenCountsProbes(c: Config, s: System)
    requires c.Valid() && Reachable(c, s)
    ensures 0 <= s.b.failures < c.threshold
    ensures s.episode <= s.inside
    ensures s.b.state == HalfOpen ==> 1 <= |s.episode| <= c.halfOpenMax && s.b.halfOpenReqs == |s.episode|
    ensures s.b.state != HalfOpen ==> s.b.halfOpenReqs == 0 && s.episode == {}
  {
    ReachableIsInv(c, s);
  }

  /**
   The breaker never wedges: it admits at once when closed, and when open from the reset time on; when
   half-open a call is inside, and whichever call comes back first ends the half-open state.
   */
  lemma NeverWedges(c: Config, s: System, now: int)
    requires c.Valid() && Reachable(c, s) && s.clock <= now
    ensures s.b.state == Closed ==> Allow(c, s.b, now).1
    ensures s.b.state == Open ==> (Allow(c, s.b, now).1 <==> now >= s.b.openedAt + c.reset)
    ensures s.b.state == HalfOpen ==> s.inside != {}
    ensures s.b.state == HalfOpen ==>
      forall id, ok :: id in s.inside ==> Step(c, s, Leave(id, ok, now)).b.state == if ok then Closed else Open
  {
    ReachableIsInv(c, s);
    if s.b.state == HalfOpen { assert s.episode != {}; }
  }

  // ---- every step, as an observer sees it ----

  /** A call that asks at this time gets in. */
  ghost predicate Admits(c: Config, s: System, now: int) {
    s.nextId in Step(c, s, Enter(now)).inside
  }

  /**
   Who gets in: everyone while closed; nobody while open before the reset time is over, and from then on a call, which
   begins an episode of probing; and while half-open, another probe as long as fewer than the maximum are in flight.
   Nothing else changes.
   */
  lemma EnterIsExact(c: Config, s: System, now: int)
    requires c.Valid() && Reachable(c, s) && s.clock <= now
    ensures var s' := Step(c, s, Enter(now));
      && (s'.b.state == if s.b.state == Open && Admits(c, s, now) then HalfOpen else s.b.state)
      && s'.inside == (if Admits(c, s, now) then s.inside + {s.nextId} else s.inside)
      && s'.b.openedAt == s.b.openedAt && s'.outcomes == s.outcomes && s'.late == s.late
    ensures s.b.state == Closed ==> Admits(c, s, now)
    ensures s.b.state == Open ==> (Admits(c, s, now) <==> now - s.b.openedAt >= c.reset)
    ensures s.b.state == Open && Admits(c, s, now) ==> Step(c, s, Enter(now)).episode == {s.nextId}
    ensures s.b.state == HalfOpen ==> (Admits(c, s, now) <==> |s.episode| < c.halfOpenMax)
    ensures s.b.state == HalfOpen && Admits(c, s, now) ==> Step(c, s, Enter(now)).episode == s.episode + {s.nextId}
  {
    ReachableIsInv(c, s);
    hide Spread;
    assert s.nextId !in s.inside;
  }

  /** The n outcomes at the end are failures. */
  ghost predicate EndsInFailures(outcomes: seq<bool>, n: nat) {
    n <= |outcomes| && forall i :: |outcomes| - n <= i < |outcomes| ==> !outcomes[i]
  }

  /**
   What an outcome does. While closed, it opens the breaker exactly when the last `threshold` outcomes since it closed
   are failures. While half-open, it closes or opens it. While open, it leaves it open whatever it is: a late success
   does not close it, and a late failure puts the moment of opening off exactly when it completes another `threshold`
   failures in a row since it opened. Opening, the breaker takes the moment down.
   */
  lemma LeaveIsExact(c: Config, s: System, id: nat, ok: bool, now: int)
    requires c.Valid() && Reachable(c, s) && CanHappen(s, Leave(id, ok, now))
    ensures var s' := Step(c, s, Leave(id, ok, now));
      && s'.inside == s.inside - {id}
      && (s.b.state == Closed ==>
            s'.b.state == if EndsInFailures(s.outcomes + [ok], c.threshold) then Open else Closed)
      && (s.b.state == HalfOpen ==> s'.b.state == if ok then Closed else Open)
      && (s.b.state == Open ==> s'.b.state == Open)
      && (s.b.state != Open && s'.b.state == Open ==> s'.b.openedAt == now)
      && (s.b.state == Open ==>
            s'.b.openedAt == if !ok && TrailingFailures(s.late + [ok]) % c.threshold == 0 then now else s.b.openedAt)
  {
    ReachableIsInv(c, s);
    hide Spread;
    assert (s.outcomes + [ok])[..|s.outcomes|] == s.outcomes;
    assert (s.late + [ok])[..|s.late|] == s.late;
    TrailingMeansLast(s.outcomes + [ok], c.threshold);
    OneMore(TrailingFailures(s.late), c.threshold);
    assert TrailingFailures(s.late + [ok]) % c.threshold == Rest(TrailingFailures(s.late + [ok]), c.threshold);
    hide Rest, EndsInFailures;
  }

  /** Only a probe closes the breaker: a call that comes back with success while it is half-open. */
  lemma ClosesExactlyOnProbe(c: Config, s: System, e: Event)
    requires s.b.state != Closed
    ensures Step(c, s, e).b.state == Closed <==> e.Leave? && e.ok && s.b.state == HalfOpen
  {
  }

  /**
   An open breaker stays shut: whatever calls ask and whatever comes back until the reset time is over, in whatever
   order, it is still open and has let nobody in.
   */
  lemma {:induction false} StaysOpen(c: Config, s: System, events: seq<Event>)
    requires c.Valid() && s.b.state == Open && s.b.openedAt <= s.clock && IsRun(c, s, events)
    requires forall i :: 0 <= i < |events| ==> events[i].now < s.b.openedAt + c.reset
    ensures var s' := After(c, s, events);
      s'.b.state == Open && s'.b.openedAt >= s.b.openedAt && s'.nextId == s.nextId && s'.inside <= s.inside
    decreases |events|
  {
    if events != [] {
      var s1 := Step(c, s, events[0]);
      StaysOpenOnce(c, s, events[0]);
      hide Step, CanHappen;
      assert forall i :: 0 <= i < |events[1..]| ==> events[1..][i] == events[i + 1];
      StaysOpen(c, s1, events[1..]);
    }
  }

  lemma StaysOpenOnce(c: Config, s: System, e: Event)
    requires s.b.state == Open && s.b.openedAt <= s.clock && CanHappen(s, e) && e.now < s.b.openedAt + c.reset
    ensures var s' := Step(c, s, e);
      && s'.b.state == Open && s.b.openedAt <= s'.b.openedAt <= s'.clock
      && s'.nextId == s.nextId && s'.inside <= s.inside
  {
  }

  /** This holds from every reachable open state on. */
  lemma OpenAdmitsNobody(c: Config, s: System, events: seq<Event>)
    requires c.Valid() && Reachable(c, s) && s.b.state == Open && IsRun(c, s, events)
    requires forall i :: 0 <= i < |events| ==> events[i].now < s.b.openedAt + c.reset
    ensures After(c, s, events).b.state == Open
    ensures After(c, s, events).nextId == s.nextId && After(c, s, events).inside <= s.inside
  {
    ReachableIsInv(c, s);
    hide Step, CanHappen;
    StaysOpen(c, s, events);
  }

  /** Admissions among the first n probes that fall into [from, to). */
  function CountIn(probes: seq<int>, n: nat, from: int, to: int): nat
    requires n <= |probes|
  {
    if n == 0 then 0 else CountIn(probes, n - 1, from, to) + if from <= probes[n - 1] < to then 1 else 0
  }

  /** Between the first and the last admission of a window lie all of them. */
  lemma {:induction false} WindowEnds(probes: seq<int>, n: nat, from: int, to: int) returns (first: nat, last: nat)
    requires n <= |probes|
    ensures CountIn(probes, n, from, to) > 0 ==>
      first <= last < n && from <= probes[first] < to && from <= probes[last] < to
    ensures CountIn(probes, n, from, to) > 0 ==> CountIn(probes, n, from, to) <= last - first + 1
  {
    first, last := 0, 0;
    if n > 0 {
      first, last := WindowEnds(probes, n - 1, from, to);
      if from <= probes[n - 1] < to {
        if CountIn(probes, n - 1, from, to) == 0 { first := n - 1; }
        last := n - 1;
      }
    }
  }

  /**
   From the moment the breaker trips until it closes again, any window no longer than the reset time
   sees at most halfOpenMax admissions.
   */
  lemma WindowBound(c: Config, s: System, from: int, length: int)
    requires c.Valid() && Reachable(c, s) && length <= c.reset
    ensures CountIn(s.probes, |s.probes|, from, from + length) <= c.halfOpenMax
  {
    ReachableIsInv(c, s);
    var first, last := WindowEnds(s.probes, |s.probes|, from, from + length);
  }
}
