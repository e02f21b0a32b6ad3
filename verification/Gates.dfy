/**
 The resilience gates around a call, bulkhead(breaker(limiter(body))), as generator/di/proxy.go nests
 them: slots of runtime/bulkhead.go, the breaker and the token bucket, with any number of callers whose
 atomic steps interleave.
 */
module Gates {
  import CB = CircuitBreaker
  import RL = RateLimit

  // ---- the bulkhead ----

  /** semaphoreBulkhead: taken counts the slots in the buffered channel. */
  class Bulkhead {
    const max: nat
    var taken: nat

    constructor (maxConcurrent: int)
      ensures taken == 0 && max == if maxConcurrent <= 0 then 10 else maxConcurrent
    {
      max := if maxConcurrent <= 0 then 10 else maxConcurrent;
      taken := 0;
    }

    /** The non-blocking attempt of acquire. */
    method TryAcquire() returns (acquired: bool)
      modifies this
      ensures acquired <==> old(taken) < max
      ensures taken == old(taken) + if acquired then 1 else 0
    {
      if taken < max {
        taken := taken + 1;
        return true;
      }
      return false;
    }

    method Release()
      requires taken > 0
      modifies this
      ensures taken == old(taken) - 1
    {
      taken := taken - 1;
    }
  }

  // ---- the composition ----

  datatype Config = Config(max: nat, breaker: CB.Config, limiter: RL.Config) {
    predicate Valid() {
      max >= 1 && breaker.Valid() && limiter.Valid()
    }
  }

  /** Where a caller stands between acquiring its slot and giving it back. */
  datatype Phase =
    | AtBreaker            // holds a slot, about to ask the breaker
    | AtLimiter            // admitted by the breaker, about to ask for a token
    | InBody               // has taken a token, the guarded body runs
    | AtRecord(ok: bool)   // the inner call returned, the breaker is about to record it
    | AtRelease            // the breaker is done, the slot is about to be released

  datatype System = System(
    clock: int,
    taken: nat,
    breaker: CB.Breaker,
    bucket: RL.Bucket,
    callers: map<nat, Phase>,
    admitted: nat,
    recorded: nat,
    spent: nat,
    finished: nat)

  function Start(c: Config, now: int): System {
    System(now, 0, CB.NEW_BREAKER, RL.Full(c.limiter, now), map[], 0, 0, 0, 0)
  }

  /** Arrive is the moment a caller's attempt for a slot is decided, with or without waiting before. */
  datatype Event =
    | Arrive(id: nat, now: int)
    | AskBreaker(id: nat, now: int)
    | AskLimiter(id: nat, now: int)
    | Return(id: nat, ok: bool, now: int)
    | RecordResult(id: nat, now: int)
    | Leave(id: nat, now: int)

  predicate CanHappen(s: System, e: Event) {
    s.clock <= e.now &&
    match e
    case Arrive(id, _) => id !in s.callers
    case AskBreaker(id, _) => id in s.callers && s.callers[id] == AtBreaker
    case AskLimiter(id, _) => id in s.callers && s.callers[id] == AtLimiter
    case Return(id, _, _) => id in s.callers && s.callers[id] == InBody
    case RecordResult(id, _) => id in s.callers && s.callers[id].AtRecord?
    case Leave(id, _) => id in s.callers && s.callers[id] == AtRelease
  }

  function Step(c: Config, s: System, e: Event): System
    requires c.Valid() && CanHappen(s, e)
  {
    var s := s.(clock := e.now);
    match e
    case Arrive(id, _) =>
      if s.taken < c.max then s.(taken := s.taken + 1, callers := s.callers[id := AtBreaker]) else s
    case AskBreaker(id, now) =>
      var (b, admitted) := CB.Allow(c.breaker, s.breaker, now);
      if admitted then s.(breaker := b, admitted := s.admitted + 1, callers := s.callers[id := AtLimiter])
      else s.(breaker := b, callers := s.callers[id := AtRelease])
    case AskLimiter(id, now) =>
      var (bucket, taken) := RL.Take(c.limiter, s.bucket, now);
      if taken then s.(bucket := bucket, spent := s.spent + 1, callers := s.callers[id := InBody])
      else s.(bucket := bucket, callers := s.callers[id := AtRecord(false)])
    case Return(id, ok, _) => s.(finished := s.finished + 1, callers := s.callers[id := AtRecord(ok)])
    case RecordResult(id, now) =>
      s.(breaker := CB.Record(c.breaker, s.breaker, s.callers[id].ok, now), recorded := s.recorded + 1,
         callers := s.callers[id := AtRelease])
    case Leave(id, _) => s.(taken := if s.taken > 0 then s.taken - 1 else 0, callers := s.callers - {id})
  }

  // ---- conservation ----

  function CallersIn(callers: map<nat, Phase>, inner: bool): (ids: set<nat>)
    ensures ids <= callers.Keys
  {
    set id | id in callers && Belongs(callers[id], inner) == 1
  }

  /**
   Slots taken equal the callers inside and never exceed the maximum; calls the breaker admitted are
   recorded or still behind it; tokens spent equal the bodies that ran or run.
   */
  ghost predicate Balanced(c: Config, s: System) {
    && s.taken == |s.callers| <= c.max
    && s.admitted == s.recorded + |CallersIn(s.callers, false)|
    && s.spent == s.finished + |CallersIn(s.callers, true)|
  }

  lemma EnterKeepsBalance(c: Config, s: System, id: nat, now: int)
    requires c.Valid() && Balanced(c, s) && CanHappen(s, Arrive(id, now))
    ensures Balanced(c, Step(c, s, Arrive(id, now)))
  {
    var s' := Step(c, s, Arrive(id, now));
    if s.taken < c.max {
      assert s'.callers.Keys == s.callers.Keys + {id};
      assert CallersIn(s'.callers, false) == CallersIn(s.callers, false);
      assert CallersIn(s'.callers, true) == CallersIn(s.callers, true);
    }
  }

  lemma LeaveKeepsBalance(c: Config, s: System, id: nat, now: int)
    requires c.Valid() && Balanced(c, s) && CanHappen(s, Leave(id, now))
    ensures Balanced(c, Step(c, s, Leave(id, now)))
  {
    var s' := Step(c, s, Leave(id, now));
    assert s.callers.Keys == s'.callers.Keys + {id};
    assert CallersIn(s'.callers, false) == CallersIn(s.callers, false);
    assert CallersIn(s'.callers, true) == CallersIn(s.callers, true);
  }

  /** A caller inside moves from one phase to another. */
  lemma MoveCounts(callers: map<nat, Phase>, id: nat, to: Phase, inner: bool)
    requires id in callers
    ensures |callers[id := to]| == |callers|
    ensures |CallersIn(callers[id := to], inner)| - |CallersIn(callers, inner)|
      == Belongs(to, inner) - Belongs(callers[id], inner)
  {
    hide Belongs;
    var after := callers[id := to];
    assert after.Keys == callers.Keys;
    OneOut(callers, id, inner);
    OneOut(after, id, inner);
    assert CallersIn(after, inner) - {id} == CallersIn(callers, inner) - {id};
  }

  lemma OneOut(callers: map<nat, Phase>, id: nat, inner: bool)
    requires id in callers
    ensures |CallersIn(callers, inner) - {id}| == |CallersIn(callers, inner)| - Belongs(callers[id], inner)
  {
    var ids := CallersIn(callers, inner);
    assert id in ids <==> Belongs(callers[id], inner) == 1;
    if id !in ids { assert ids - {id} == ids; }
  }

  function Belongs(p: Phase, inner: bool): int {
    if (if inner then p == InBody else p in {AtLimiter, InBody} || p.AtRecord?) then 1 else 0
  }

  lemma StepKeepsBalance(c: Config, s: System, e: Event)
    requires c.Valid() && Balanced(c, s) && CanHappen(s, e)
    ensures Balanced(c, Step(c, s, e))
  {
    hide CallersIn, CB.Allow, CB.Record, RL.Take;
    var s' := Step(c, s, e);
    match e {
      case Arrive(id, now) => EnterKeepsBalance(c, s, id, now);
      case Leave(id, now) => LeaveKeepsBalance(c, s, id, now);
      case _ =>
        MoveCounts(s.callers, e.id, s'.callers[e.id], false);
        MoveCounts(s.callers, e.id, s'.callers[e.id], true);
        assert s'.callers == s.callers[e.id := s'.callers[e.id]];
    }
  }

  ghost predicate IsRun(c: Config, s: System, events: seq<Event>)
    requires c.Valid()
    decreases |events|
  {
    events == [] || (CanHappen(s, events[0]) && IsRun(c, Step(c, s, events[0]), events[1..]))
  }

  ghost function After(c: Config, s: System, events: seq<Event>): System
    requires c.Valid() && IsRun(c, s, events)
    decreases |events|
  {
    if events == [] then s else After(c, Step(c, s, events[0]), events[1..])
  }

  /** Conservation over every interleaving of any number of callers. */
  lemma {:induction false} RunKeepsBalance(c: Config, s: System, events: seq<Event>)
    requires c.Valid() && Balanced(c, s) && IsRun(c, s, events)
    ensures Balanced(c, After(c, s, events))
    decreases |events|
  {
    if events != [] {
      hide Balanced, Step;
      StepKeepsBalance(c, s, events[0]);
      RunKeepsBalance(c, Step(c, s, events[0]), events[1..]);
    }
  }

  lemma StartIsBalanced(c: Config, now: int, events: seq<Event>)
    requires c.Valid() && IsRun(c, Start(c, now), events)
    ensures Balanced(c, After(c, Start(c, now), events))
  {
    hide Step;
    assert CallersIn(map[], false) == {} && CallersIn(map[], true) == {};
    RunKeepsBalance(c, Start(c, now), events);
  }

  /** In every run an arriving call gets a slot exactly when fewer calls than the maximum are inside. */
  lemma EntersExactlyBelowMax(c: Config, start: int, events: seq<Event>, id: nat, now: int)
    requires c.Valid() && IsRun(c, Start(c, start), events)
    requires CanHappen(After(c, Start(c, start), events), Arrive(id, now))
    ensures var s := After(c, Start(c, start), events);
      Step(c, s, Arrive(id, now)).callers == if |s.callers| < c.max then s.callers[id := AtBreaker] else s.callers
  {
    StartIsBalanced(c, start, events);
    hide Start, After, IsRun;
  }

  /**
   The breaker lies outside the limiter, so being rate limited is recorded as a failure: a closed breaker
   one failure short of its threshold opens without the body having run.
   */
  lemma RateLimitingTripsTheBreaker(c: Config, s: System, id: nat, now: int)
    requires c.Valid() && CanHappen(s, AskLimiter(id, now))
    requires s.breaker.state == CB.Closed && s.breaker.failures == c.breaker.threshold - 1
    requires RL.Refilled(c.limiter, s.bucket, now) < 1.0
    ensures var limited := Step(c, s, AskLimiter(id, now));
      && CanHappen(limited, RecordResult(id, now))
      && Step(c, limited, RecordResult(id, now)).breaker.state == CB.Open
      && Step(c, limited, RecordResult(id, now)).spent == s.spent
  {
  }
}
