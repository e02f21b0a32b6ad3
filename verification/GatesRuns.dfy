/**
 Runs of the composed gates, seen from each gate: the breaker and the bucket go through runs of their own, so what
 is proved of each alone holds inside the composition; and every call goes through its gates from the outside in and
 back.
 */
module GatesRuns {
  import opened Gates
  import CB = CircuitBreaker
  import RL = RateLimit

  // ---- the breaker ----

  function Admitted(s: System): set<nat> {
    CallersIn(s.callers, false)
  }

  /**
   What the breaker sees of one step, when ids tells its numbers for the calls behind it and next is the next
   number.
   */
  datatype Seen = Seen(events: seq<CB.Event>, ids: map<nat, nat>, next: nat, probes: seq<int>)

  function SeenByBreaker(c: Config, s: System, e: Event, v: Seen): Seen
    requires c.Valid() && CanHappen(s, e)
  {
    var closed := Step(c, s, e).breaker.state == CB.Closed;
    match e
    case AskBreaker(id, now) =>
      if CB.Allow(c.breaker, s.breaker, now).1 then
        Seen(v.events + [CB.Enter(now)], v.ids[id := v.next], v.next + 1, if closed then [] else v.probes + [now])
      else v.(events := v.events + [CB.Enter(now)])
    case RecordResult(id, now) =>
      var n := if id in v.ids then v.ids[id] else 0;
      Seen(v.events + [CB.Leave(n, s.callers[id].ok, now)], v.ids - {id}, v.next, if closed then [] else v.probes)
    case _ => v
  }

  function SeenAlong(c: Config, s: System, events: seq<Event>, v: Seen): Seen
    requires c.Valid() && IsRun(c, s, events)
    decreases |events|
  {
    if events == [] then v else SeenAlong(c, Step(c, s, events[0]), events[1..], SeenByBreaker(c, s, events[0], v))
  }

  /** v.events lead the breaker on its own from start to a system that looks like s from the breaker. */
  ghost predicate Matches(c: Config, start: CB.System, s: System, v: Seen)
    requires c.Valid()
  {
    CB.IsRun(c.breaker, start, v.events) && Alike(s, CB.After(c.breaker, start, v.events), v)
  }

  ghost predicate Alike(s: System, cb: CB.System, v: Seen) {
    && cb.b == s.breaker && cb.clock <= s.clock && cb.nextId == v.next && cb.probes == v.probes
    && v.ids.Keys == Admitted(s)
    && (forall id :: id in v.ids ==> v.ids[id] in cb.inside && v.ids[id] < v.next)
    && (forall x :: x in cb.inside ==> exists id :: id in v.ids && v.ids[id] == x)
    && (forall id, id' :: id in v.ids && id' in v.ids && id != id' ==> v.ids[id] != v.ids[id'])
  }

  lemma {:induction false} RunAppend(c: CB.Config, s: CB.System, events: seq<CB.Event>, e: CB.Event)
    requires CB.IsRun(c, s, events) && CB.CanHappen(CB.After(c, s, events), e)
    ensures CB.IsRun(c, s, events + [e]) && CB.After(c, s, events + [e]) == CB.Step(c, CB.After(c, s, events), e)
    decreases |events|
  {
    hide CB.CanHappen, CB.Step;
    if events == [] {
      assert [] + [e] == [e] && [e][1..] == [];
    } else {
      assert (events + [e])[1..] == events[1..] + [e];
      RunAppend(c, CB.Step(c, s, events[0]), events[1..], e);
    }
  }

  /** Every step is one of the breaker's own, or none. */
  lemma StepIsSeen(c: Config, start: CB.System, s: System, e: Event, v: Seen)
    requires c.Valid() && CanHappen(s, e) && Matches(c, start, s, v)
    ensures Matches(c, start, Step(c, s, e), SeenByBreaker(c, s, e, v))
  {
    var cb := CB.After(c.breaker, start, v.events);
    hide CB.IsRun, CB.After, Alike, CanHappen, Step;
    match e {
      case AskBreaker(id, now) =>
        EnterIsAlike(c, s, id, now, cb, v);
        RunAppend(c.breaker, start, v.events, CB.Enter(now));
      case RecordResult(id, now) =>
        LeaveIsAlike(c, s, id, now, cb, v);
        RunAppend(c.breaker, start, v.events, SeenByBreaker(c, s, e, v).events[|v.events|]);
      case _ =>
        OtherIsAlike(c, s, e, cb, v);
    }
  }

  lemma EnterIsAlike(c: Config, s: System, id: nat, now: int, cb: CB.System, v: Seen)
    requires c.Valid() && CanHappen(s, AskBreaker(id, now)) && Alike(s, cb, v)
    ensures CB.CanHappen(cb, CB.Enter(now))
    ensures Alike(Step(c, s, AskBreaker(id, now)), CB.Step(c.breaker, cb, CB.Enter(now)),
                  SeenByBreaker(c, s, AskBreaker(id, now), v))
  {
    hide CB.Allow;
    var s', v' := Step(c, s, AskBreaker(id, now)), SeenByBreaker(c, s, AskBreaker(id, now), v);
    var cb' := CB.Step(c.breaker, cb, CB.Enter(now));
    assert id !in Admitted(s);
    if CB.Allow(c.breaker, s.breaker, now).1 {
      assert Admitted(s') == Admitted(s) + {id};
      assert v'.ids.Keys == v.ids.Keys + {id};
      forall x | x in cb'.inside ensures exists i :: i in v'.ids && v'.ids[i] == x {
        if x == v.next {
          assert v'.ids[id] == x;
        } else {
          var i :| i in v.ids && v.ids[i] == x;
          assert v'.ids[i] == x;
        }
      }
    } else {
      assert Admitted(s') == Admitted(s);
    }
  }

  lemma LeaveIsAlike(c: Config, s: System, id: nat, now: int, cb: CB.System, v: Seen)
    requires c.Valid() && CanHappen(s, RecordResult(id, now)) && Alike(s, cb, v)
    ensures var e := RecordResult(id, now); var v' := SeenByBreaker(c, s, e, v);
      && |v'.events| == |v.events| + 1 && v'.events == v.events + [v'.events[|v.events|]]
      && CB.CanHappen(cb, v'.events[|v.events|])
      && Alike(Step(c, s, e), CB.Step(c.breaker, cb, v'.events[|v.events|]), v')
  {
    hide CB.Record;
    var e := RecordResult(id, now);
    var s', v' := Step(c, s, e), SeenByBreaker(c, s, e, v);
    assert id in Admitted(s);
    assert Admitted(s') == Admitted(s) - {id};
    var cb' := CB.Step(c.breaker, cb, v'.events[|v.events|]);
    forall x | x in cb'.inside ensures exists i :: i in v'.ids && v'.ids[i] == x {
      var i :| i in v.ids && v.ids[i] == x;
      assert i in v'.ids && v'.ids[i] == x;
    }
  }

  lemma OtherIsAlike(c: Config, s: System, e: Event, cb: CB.System, v: Seen)
    requires c.Valid() && CanHappen(s, e) && Alike(s, cb, v) && !e.AskBreaker? && !e.RecordResult?
    ensures Alike(Step(c, s, e), cb, SeenByBreaker(c, s, e, v))
  {
    hide RL.Take;
    assert Admitted(Step(c, s, e)) == Admitted(s);
  }

  lemma {:induction false} RunIsSeen(c: Config, start: CB.System, s: System, events: seq<Event>, v: Seen)
    requires c.Valid() && IsRun(c, s, events) && Matches(c, start, s, v)
    ensures Matches(c, start, After(c, s, events), SeenAlong(c, s, events, v))
    decreases |events|
  {
    if events != [] {
      hide Matches, Step, CanHappen, SeenByBreaker;
      StepIsSeen(c, start, s, events[0], v);
      RunIsSeen(c, start, Step(c, s, events[0]), events[1..], SeenByBreaker(c, s, events[0], v));
    }
  }

  const UNSEEN := Seen([], map[], 0, [])

  /** The breaker's own run inside a run of the gates. */
  lemma BreakerRunsOnItsOwn(c: Config, start: int, events: seq<Event>) returns (cb: CB.System)
    requires c.Valid() && IsRun(c, Start(c, start), events)
    ensures CB.Reachable(c.breaker, cb) && cb.b == After(c, Start(c, start), events).breaker
    ensures cb.clock <= After(c, Start(c, start), events).clock
    ensures cb.probes == SeenAlong(c, Start(c, start), events, UNSEEN).probes
    ensures cb.inside == {} <==> Admitted(After(c, Start(c, start), events)) == {}
  {
    var s, v := After(c, Start(c, start), events), SeenAlong(c, Start(c, start), events, UNSEEN);
    hide IsRun, After, Step, SeenAlong;
    assert Admitted(Start(c, start)) == {};
    RunIsSeen(c, CB.Start(start), Start(c, start), events, UNSEEN);
    cb := CB.After(c.breaker, CB.Start(start), v.events);
    if x :| x in cb.inside { assert exists id :: id in v.ids && v.ids[id] == x; }
    if id :| id in Admitted(s) { assert v.ids[id] in cb.inside; }
  }

  /**
   So the breaker's bound holds here: from a trip until the breaker closes again, it lets at most halfOpenMax calls
   through in any window no longer than the reset time, whatever the other gates and callers do.
   */
  lemma BreakerBoundsWindows(c: Config, start: int, events: seq<Event>, from: int, length: int)
    requires c.Valid() && IsRun(c, Start(c, start), events) && length <= c.breaker.reset
    ensures var probes := SeenAlong(c, Start(c, start), events, UNSEEN).probes;
      CB.CountIn(probes, |probes|, from, from + length) <= c.breaker.halfOpenMax
  {
    hide IsRun, After, Step, SeenAlong, CB.Reachable, CB.CountIn;
    var cb := BreakerRunsOnItsOwn(c, start, events);
    CB.WindowBound(c.breaker, cb, from, length);
  }

  /** Nor does it wedge here: a half-open breaker has a call behind it, and an open one admits after the reset time. */
  lemma BreakerNeverWedges(c: Config, start: int, events: seq<Event>, now: int)
    requires c.Valid() && IsRun(c, Start(c, start), events) && After(c, Start(c, start), events).clock <= now
    ensures var s := After(c, Start(c, start), events);
      && 0 <= s.breaker.failures < c.breaker.threshold
      && (s.breaker.state == CB.Closed ==> CB.Allow(c.breaker, s.breaker, now).1)
      && (s.breaker.state == CB.Open ==>
            (CB.Allow(c.breaker, s.breaker, now).1 <==> now >= s.breaker.openedAt + c.breaker.reset))
      && (s.breaker.state == CB.HalfOpen ==> Admitted(s) != {})
  {
    hide IsRun, After, Step, SeenAlong, CB.Reachable, CB.CountIn;
    var cb := BreakerRunsOnItsOwn(c, start, events);
    CB.NeverWedges(c.breaker, cb, now);
    CB.HalfOpenCountsProbes(c.breaker, cb);
  }

  /** Only a probe closes the breaker here too: a call that comes back with success while it is half-open. */
  lemma BreakerClosesExactlyOnProbe(c: Config, s: System, e: Event)
    requires c.Valid() && CanHappen(s, e) && s.breaker.state != CB.Closed
    ensures Step(c, s, e).breaker.state == CB.Closed <==>
      e.RecordResult? && s.callers[e.id].ok && s.breaker.state == CB.HalfOpen
  {
    hide RL.Take;
  }

  lemma {:induction false} ShutFrom(c: Config, s: System, events: seq<Event>, openedAt: int)
    requires c.Valid() && IsRun(c, s, events) && s.breaker.state == CB.Open
    requires openedAt <= s.breaker.openedAt <= s.clock
    requires forall i :: 0 <= i < |events| ==> events[i].now < openedAt + c.breaker.reset
    ensures var s' := After(c, s, events);
      s'.breaker.state == CB.Open && s'.admitted == s.admitted && Admitted(s') <= Admitted(s)
    decreases |events|
  {
    if events != [] {
      var s1 := Step(c, s, events[0]);
      ShutOnce(c, s, events[0], openedAt);
      hide Step, CanHappen;
      assert forall i :: 0 <= i < |events[1..]| ==> events[1..][i] == events[i + 1];
      ShutFrom(c, s1, events[1..], openedAt);
    }
  }

  lemma ShutOnce(c: Config, s: System, e: Event, openedAt: int)
    requires c.Valid() && CanHappen(s, e) && s.breaker.state == CB.Open
    requires openedAt <= s.breaker.openedAt <= s.clock && e.now < openedAt + c.breaker.reset
    ensures var s' := Step(c, s, e);
      && s'.breaker.state == CB.Open && openedAt <= s'.breaker.openedAt <= s'.clock
      && s'.admitted == s.admitted && Admitted(s') <= Admitted(s)
  {
    hide RL.Take;
  }

  /**
   While it is open and the reset time is not over, the breaker stays open and lets no call through to the gates
   inside, whatever calls arrive, go on and come back, with success or not.
   */
  lemma OpenBreakerStaysShut(c: Config, start: int, events: seq<Event>, more: seq<Event>)
    requires c.Valid() && IsRun(c, Start(c, start), events)
    requires var s := After(c, Start(c, start), events);
      && s.breaker.state == CB.Open && IsRun(c, s, more)
      && forall i :: 0 <= i < |more| ==> more[i].now < s.breaker.openedAt + c.breaker.reset
    ensures var s := After(c, Start(c, start), events);
      var s' := After(c, s, more);
      s'.breaker.state == CB.Open && s'.admitted == s.admitted && Admitted(s') <= Admitted(s)
  {
    var s := After(c, Start(c, start), events);
    hide IsRun, After, Step, SeenAlong, CB.Reachable;
    var cb := BreakerRunsOnItsOwn(c, start, events);
    CB.ReachableIsInv(c.breaker, cb);
    ShutFrom(c, s, more, s.breaker.openedAt);
  }

  // ---- the token bucket ----

  /** When the limiter was asked. */
  function AskedAt(events: seq<Event>): seq<int> {
    if events == [] then []
    else (if events[0].AskLimiter? then [events[0].now] else []) + AskedAt(events[1..])
  }

  /** Times from one clock reading to a later one. */
  ghost predicate Between(from: int, times: seq<int>, to: int) {
    from <= to && RL.Forward(from, times) && (times != [] ==> times[|times| - 1] <= to)
  }

  lemma {:induction false} TimesAreForward(c: Config, s: System, events: seq<Event>)
    requires c.Valid() && IsRun(c, s, events)
    ensures Between(s.clock, AskedAt(events), After(c, s, events).clock)
    decreases |events|
  {
    if events != [] {
      var s' := Step(c, s, events[0]);
      assert s.clock <= s'.clock == events[0].now;
      hide Step, Between;
      TimesAreForward(c, s', events[1..]);
      var rest, end := AskedAt(events[1..]), After(c, s', events[1..]).clock;
      if events[0].AskLimiter? {
        OneMoreTime(s.clock, events[0].now, rest, end);
      } else {
        EarlierStart(s.clock, events[0].now, rest, end);
        assert [] + rest == rest;
      }
    }
  }

  lemma EarlierStart(from: int, now: int, rest: seq<int>, to: int)
    requires from <= now && Between(now, rest, to)
    ensures Between(from, rest, to)
  {
  }

  lemma OneMoreTime(from: int, now: int, rest: seq<int>, to: int)
    requires from <= now && Between(now, rest, to)
    ensures Between(from, [now] + rest, to)
  {
    var times := [now] + rest;
    forall i, j | 0 <= i <= j < |times| ensures from <= times[i] <= times[j] {
      if i > 0 {
        assert rest[i - 1] <= rest[j - 1];
      } else if j > 0 {
        assert now <= rest[j - 1];
      }
    }
  }

  /** The bucket decides as on its own; a body starts exactly when it gives a token. */
  lemma {:induction false} LimiterRunsOnItsOwn(c: Config, s: System, events: seq<Event>)
    requires c.Valid() && IsRun(c, s, events)
    ensures After(c, s, events).bucket == RL.After(c.limiter, s.bucket, AskedAt(events))
    ensures After(c, s, events).spent == s.spent + RL.Count(RL.Decisions(c.limiter, s.bucket, AskedAt(events)))
    decreases |events|
  {
    if events != [] {
      hide RL.Take, CB.Allow, CB.Record;
      var s' := Step(c, s, events[0]);
      LimiterRunsOnItsOwn(c, s', events[1..]);
      var rest := AskedAt(events[1..]);
      if events[0].AskLimiter? {
        assert ([events[0].now] + rest)[1..] == rest;
        var (b, taken) := RL.Take(c.limiter, s.bucket, events[0].now);
        RL.CountFirst(taken, RL.Decisions(c.limiter, b, rest));
      } else {
        assert [] + rest == rest;
      }
    }
  }

  /**
   So the bucket's bound holds here: of the calls that reach the limiter, those from the i-th to the one before the j-th
   start their bodies at most burst + limit * (t - s) / period times, s and t being the times of the first and the last.
   */
  lemma LimiterBoundsWindows(c: Config, start: int, events: seq<Event>, i: nat, j: nat)
    requires c.Valid() && IsRun(c, Start(c, start), events) && i < j <= |AskedAt(events)|
    ensures var times, l := AskedAt(events), c.limiter;
      RL.Count(RL.Decisions(l, RL.Full(l, start), times)[i..j]) as real
      <= l.burst as real + (times[j - 1] - times[i]) as real * (l.limit as real / l.period as real)
  {
    hide Step, RL.Forward, RL.Decisions, RL.Count, AskedAt, IsRun, After;
    TimesAreForward(c, Start(c, start), events);
    RL.WindowBound(c.limiter, start, AskedAt(events), i, j);
  }

  // ---- one call ----

  /** What a call did, and what the gate answered. */
  datatype Did =
    | Arrived(entered: bool)
    | AskedBreaker(admitted: bool)
    | AskedLimiter(taken: bool)
    | Returned(ok: bool)
    | Recorded(ok: bool)
    | Left

  function DidIn(c: Config, s: System, e: Event): Did
    requires c.Valid() && CanHappen(s, e)
  {
    match e
    case Arrive(id, _) => Arrived(s.taken < c.max)
    case AskBreaker(id, now) => AskedBreaker(CB.Allow(c.breaker, s.breaker, now).1)
    case AskLimiter(id, now) => AskedLimiter(RL.Take(c.limiter, s.bucket, now).1)
    case Return(id, ok, _) => Returned(ok)
    case RecordResult(id, _) => Recorded(s.callers[id].ok)
    case Leave(_, _) => Left
  }

  /** The steps of caller id in a run, among those of all others. */
  function StepsOf(c: Config, s: System, events: seq<Event>, id: nat): seq<Did>
    requires c.Valid() && IsRun(c, s, events)
    decreases |events|
  {
    if events == [] then []
    else
      (if events[0].id == id then [DidIn(c, s, events[0])] else []) + StepsOf(c, Step(c, s, events[0]), events[1..], id)
  }

  /** id is inside all the way, and the run ends with its leaving. */
  ghost predicate StaysUntilLeaving(c: Config, s: System, events: seq<Event>, id: nat)
    requires c.Valid() && IsRun(c, s, events)
    decreases |events|
  {
    && id in s.callers && events != []
    && if |events| == 1 then events[0].Leave? && events[0].id == id
       else StaysUntilLeaving(c, Step(c, s, events[0]), events[1..], id)
  }

  /** The ways in which a call in that phase can go on. */
  predicate GoesOn(p: Phase, steps: seq<Did>) {
    match p
    case AtRelease => steps == [Left]
    case AtRecord(ok) => steps == [Recorded(ok), Left]
    case InBody => |steps| == 3 && steps[0].Returned? && steps == [steps[0], Recorded(steps[0].ok), Left]
    case AtLimiter =>
      || steps == [AskedLimiter(false), Recorded(false), Left]
      || (|steps| == 4 && steps[1].Returned? && steps == [AskedLimiter(true), steps[1], Recorded(steps[1].ok), Left])
    case AtBreaker =>
      || steps == [AskedBreaker(false), Left]
      || steps == [AskedBreaker(true), AskedLimiter(false), Recorded(false), Left]
      || (|steps| == 5 && steps[2].Returned?
          && steps == [AskedBreaker(true), AskedLimiter(true), steps[2], Recorded(steps[2].ok), Left])
  }

  lemma {:induction false} CallGoesOn(c: Config, s: System, events: seq<Event>, id: nat)
    requires c.Valid() && IsRun(c, s, events) && StaysUntilLeaving(c, s, events, id)
    ensures GoesOn(s.callers[id], StepsOf(c, s, events, id))
    decreases |events|
  {
    var e, s' := events[0], Step(c, s, events[0]);
    var rest := if |events| == 1 then [] else StepsOf(c, s', events[1..], id);
    assert StepsOf(c, s, events, id) == (if e.id == id then [DidIn(c, s, e)] else []) + rest;
    if |events| > 1 {
      CallGoesOn(c, s', events[1..], id);
      if e.id == id {
        OneGoesOn(c, s, e, rest);
      } else {
        OthersKeepPhase(c, s, e, id);
        assert [] + rest == rest;
      }
    } else {
      assert [Left] + [] == [Left];
    }
  }

  lemma OneGoesOn(c: Config, s: System, e: Event, rest: seq<Did>)
    requires c.Valid() && CanHappen(s, e) && e.id in s.callers
    requires e.id in Step(c, s, e).callers && GoesOn(Step(c, s, e).callers[e.id], rest)
    ensures GoesOn(s.callers[e.id], [DidIn(c, s, e)] + rest)
  {
    hide RL.Take, CB.Allow, CB.Record;
  }

  lemma OthersKeepPhase(c: Config, s: System, e: Event, id: nat)
    requires c.Valid() && CanHappen(s, e) && e.id != id && id in s.callers
    ensures id in Step(c, s, e).callers && Step(c, s, e).callers[id] == s.callers[id]
  {
    hide RL.Take, CB.Allow, CB.Record;
  }

  /**
   Whatever others do in between, a call that enters does one of three things until it leaves: it is turned away by
   the breaker and touches nothing inside; or by the limiter, which counts as a failure, and its body does not run;
   or it runs its body once and the breaker records its outcome.
   */
  lemma CallPassesGates(c: Config, s: System, events: seq<Event>, id: nat)
    requires c.Valid() && IsRun(c, s, events) && |events| > 1 && events[0].Arrive? && events[0].id == id
    requires StaysUntilLeaving(c, Step(c, s, events[0]), events[1..], id)
    ensures var steps := StepsOf(c, s, events, id);
      || steps == [Arrived(true), AskedBreaker(false), Left]
      || steps == [Arrived(true), AskedBreaker(true), AskedLimiter(false), Recorded(false), Left]
      || exists ok ::
           steps == [Arrived(true), AskedBreaker(true), AskedLimiter(true), Returned(ok), Recorded(ok), Left]
  {
    hide RL.Take, CB.Allow, CB.Record, StepsOf;
    var s' := Step(c, s, events[0]);
    CallGoesOn(c, s', events[1..], id);
    var rest := StepsOf(c, s', events[1..], id);
    StepsUnfold(c, s, events, id);
    assert s'.callers[id] == AtBreaker;
    if |rest| == 5 {
      var ok := rest[2].ok;
      assert rest == [AskedBreaker(true), AskedLimiter(true), Returned(ok), Recorded(ok), Left];
      assert StepsOf(c, s, events, id)
          == [Arrived(true), AskedBreaker(true), AskedLimiter(true), Returned(ok), Recorded(ok), Left];
    }
  }

  lemma StepsUnfold(c: Config, s: System, events: seq<Event>, id: nat)
    requires c.Valid() && IsRun(c, s, events) && events != [] && events[0].id == id
    ensures StepsOf(c, s, events, id) == [DidIn(c, s, events[0])] + StepsOf(c, Step(c, s, events[0]), events[1..], id)
  {
  }

  function StateAt(c: Config, s: System, events: seq<Event>, i: nat): System
    requires c.Valid() && IsRun(c, s, events) && i <= |events|
    decreases |events|
  {
    if i == 0 then s else StateAt(c, Step(c, s, events[0]), events[1..], i - 1)
  }

  /** Step i of the run, if it is one of caller id, is among the caller's steps. */
  lemma {:induction false} StepIsListed(c: Config, s: System, events: seq<Event>, id: nat, i: nat)
    requires c.Valid() && IsRun(c, s, events) && i < |events|
    ensures CanHappen(StateAt(c, s, events, i), events[i])
    ensures StateAt(c, s, events, i + 1) == Step(c, StateAt(c, s, events, i), events[i])
    ensures events[i].id == id ==> DidIn(c, StateAt(c, s, events, i), events[i]) in StepsOf(c, s, events, id)
    decreases |events|
  {
    hide CanHappen, Step, DidIn;
    var s' := Step(c, s, events[0]);
    if i > 0 {
      StepIsListed(c, s', events[1..], id, i - 1);
    } else {
      assert StateAt(c, s', events[1..], 0) == s';
    }
  }

  /**
   A call that the breaker turns away leaves the inner gates alone: between its arrival and its leaving none of its
   steps changes the breaker, the bucket, or the counts of calls admitted, recorded, given a token and finished.
   */
  lemma RejectedCallTouchesNothingInside(c: Config, s: System, events: seq<Event>, id: nat, i: nat)
    requires c.Valid() && IsRun(c, s, events) && |events| > 1 && events[0].Arrive? && events[0].id == id
    requires StaysUntilLeaving(c, Step(c, s, events[0]), events[1..], id)
    requires AskedBreaker(true) !in StepsOf(c, s, events, id) && i < |events| && events[i].id == id
    ensures var before, after := StateAt(c, s, events, i), StateAt(c, s, events, i + 1);
      after == before.(clock := events[i].now, taken := after.taken, callers := after.callers)
  {
    hide StepsOf, StateAt, IsRun, StaysUntilLeaving;
    CallPassesGates(c, s, events, id);
    StepIsListed(c, s, events, id, i);
    hide RL.Take, CB.Record;
    RejectionsTouchNothing(c, StateAt(c, s, events, i), events[i]);
  }

  lemma RejectionsTouchNothing(c: Config, s: System, e: Event)
    requires c.Valid() && CanHappen(s, e) && DidIn(c, s, e) in {Arrived(true), AskedBreaker(false), Left}
    ensures var s' := Step(c, s, e); s' == s.(clock := e.now, taken := s'.taken, callers := s'.callers)
  {
  }
}
