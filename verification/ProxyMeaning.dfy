/** What holds of every call of a generated interception method. */
module ProxyMeaning {
  import opened Model
  import opened Proxy
  import Retry

  // ---- the two renderers agree ----

  ghost predicate AlwaysAdmits(w: World) {
    forall t, g, c :: w.admit(t, g, c).None?
  }

  /** Gates that admit only pass on the context. */
  lemma {:induction false} GatesAreTransparent(values: bool, w: World, gates: seq<Gate>, guarded: Block, n: nat,
      own: Context, ctx: Context, s: State)
    requires AlwaysAdmits(w) && 1 <= n <= |gates|
    ensures Eval(values, w, own, ctx, Wrapped(gates, guarded, n), s) ==
      Run(values, w, own, if n == |gates| then own else ctx, guarded, s)
  {
    var c := if n == |gates| then own else ctx;
    assert Eval(values, w, own, ctx, Wrapped(gates, guarded, n), s)
      == Run(values, w, own, c, if n == 1 then guarded else Return(Wrapped(gates, guarded, n - 1)), s);
    if n > 1 { GatesAreTransparent(values, w, gates, guarded, n - 1, own, c, s); }
  }

  /** The two ways of writing the work inside the gates do the same. */
  lemma WorkIsCore(m: Method, w: World, own: Context, s: State)
    requires s.err.None? && !m.authorize
    ensures var (s', err) := Run(m.values, w, own, own, RenderGuardedBody(m), s);
      s'.(err := err) == RunStmt(m.values, w, own, UngatedCore(m), s)
  {
  }

  lemma GuardedIsUngated(m: Method, w: World, own: Context, s: State)
    requires s.err.None?
    ensures var (s', err) := Run(m.values, w, own, own, RenderGuardedBody(m), s);
      s'.(err := err) == RunStmt(m.values, w, own, UngatedCore(m), s)
  {
    var (s', err) := CallAuthorize(w, own, s);
    var plain := m.(authorize := false);
    if m.authorize && err.None? {
      WorkIsCore(plain, w, own, s');
      assert s'.(err := err) == s';
    } else if !m.authorize {
      WorkIsCore(m, w, own, s);
    }
  }

  /** For every choice of authorization, retry and transaction: results, error and trace are the same. */
  lemma GatedIsUngated(m: Method, w: World, own: Context, s: State)
    requires AlwaysAdmits(w) && s.err.None?
    ensures Scoped(CoreOf(m)) && Scoped(UngatedCore(m))
    ensures RunStmt(m.values, w, own, CoreOf(m), s) == RunStmt(m.values, w, own, UngatedCore(m), s)
  {
    CoreIsScoped(m);
    hide UngatedCore, RenderGuardedBody, Wrapped;
    GuardedIsUngated(m, w, own, s);
    if m.Gated() {
      assert Gates(m) != [];
      GatesAreTransparent(m.values, w, Gates(m), RenderGuardedBody(m), |Gates(m)|, own, own, s);
    }
  }

  function Ungate(m: Method): Method {
    m.(bulkhead := false, breaker := false, rateLimit := false)
  }

  // ---- what the flags ask for, said without the renderer ----

  predicate Wants(m: Method, gate: Gate) {
    match gate
    case Bulkhead => m.bulkhead
    case CircuitBreaker => m.breaker
    case RateLimiter => m.rateLimit
  }

  /** The gate that turns a call away. The bulkhead is asked first, then the breaker, then the rate limiter. */
  function TurnsAway(m: Method, w: World, t: Trace, c: Context): Option<Gate> {
    if m.bulkhead && w.admit(t, Bulkhead, c).Some? then Some(Bulkhead)
    else if m.breaker && w.admit(t, CircuitBreaker, c).Some? then Some(CircuitBreaker)
    else if m.rateLimit && w.admit(t, RateLimiter, c).Some? then Some(RateLimiter)
    else None
  }

  /** The target is called with this context; its values are assigned if it has any. */
  function TargetMeant(m: Method, w: World, c: Context, s: State): (State, Option<Error>) {
    var (r, e) := w.target(s.trace, c);
    (State(s.trace + [Target(c, e.None?)], if m.values then r else s.r, s.err), e)
  }

  /** One attempt: the target, in a transaction that its outcome decides, if the method is transactional. */
  function AttemptMeant(m: Method, w: World, c: Context, s: State): (State, Option<Error>) {
    var id := |s.trace|;
    if !m.transactional then TargetMeant(m, w, c, s)
    else if w.begin(s.trace, c).Some? then (s.(trace := s.trace + [Begin(id, false)]), w.begin(s.trace, c))
    else
      var (s', err) := TargetMeant(m, w, Tx(c, id), s.(trace := s.trace + [Begin(id, true)]));
      if err.Some? then (s'.(trace := s'.trace + [Rollback(id)]), err)
      else (s'.(trace := s'.trace + [Commit(id, w.commit(s'.trace, id).None?)]), w.commit(s'.trace, id))
  }

  function AttemptsMeant(m: Method, w: World, c: Context): State -> (State, Option<Error>) {
    (s: State) => AttemptMeant(m, w, c, s)
  }

  function PauseMeant(w: World, c: Context): (State, int) -> (State, Option<Error>) {
    (s: State, d: int) =>
      (s.(trace := s.trace + [Pause(d, w.pause(s.trace, c, d).Some?)]), w.pause(s.trace, c, d))
  }

  /** The attempts, as runtime.Retry makes them if the method has a policy. */
  function WorkMeant(m: Method, w: World, c: Context, s: State): (State, Option<Error>) {
    match m.retry
    case Some(p) => Retry.RetryFrom(p, AttemptsMeant(m, w, c), PauseMeant(w, c), 0, p.delay, s)
    case None => AttemptMeant(m, w, c, s)
  }

  /** Authorization goes first, and its error is the call's. */
  function GuardedMeant(m: Method, w: World, c: Context, s: State): (State, Option<Error>) {
    if !m.authorize then WorkMeant(m, w, c, s)
    else
      var denied := w.authorize(s.trace, c);
      var s' := s.(trace := s.trace + [AuthCheck(c, denied.None?)]);
      if denied.Some? then (s', denied) else WorkMeant(m, w, c, s')
  }

  /** The gates come before everything else in the core, and the error of the one that rejects is the call's. */
  function CoreMeant(m: Method, w: World, c: Context, s: State): (State, Option<Error>) {
    match TurnsAway(m, w, s.trace, c)
    case Some(gate) => (s.(trace := s.trace + [Rejected(gate)]), w.admit(s.trace, gate, c))
    case None => GuardedMeant(m, w, c, s)
  }

  lemma AttemptIsMeant(m: Method, w: World, own: Context, c: Context, s: State)
    ensures Run(m.values, w, own, c, AttemptBlock(m.transactional), s) == AttemptMeant(m, w, c, s)
  {
    if m.transactional {
      var e := WithinTransaction(Ctx, ReturnTarget(Ctx));
      assert Run(m.values, w, own, c, Return(e), s) == Eval(m.values, w, own, c, e, s);
    }
  }

  lemma PauseIsMeant(w: World, c: Context, s: State, d: int)
    ensures Waiting(w, c)(s, d) == PauseMeant(w, c)(s, d)
  {
    assert Waiting(w, c)(s, d).0 == Log(s, Pause(d, w.pause(s.trace, c, d).Some?));
  }

  lemma WorkIsMeant(m: Method, w: World, own: Context, s: State)
    requires !m.authorize
    ensures Run(m.values, w, own, own, RenderGuardedBody(m), s) == WorkMeant(m, w, own, s)
  {
    if m.retry.Some? {
      var p, closure := m.retry.value, Closure(m.values, w, own, own, AttemptBlock(m.transactional));
      assert Run(m.values, w, own, own, RenderGuardedBody(m), s)
        == Retry.RetryFrom(p, closure, Waiting(w, own), 0, p.delay, s);
      hide AttemptMeant, Run, AttemptBlock, Retry.Attempts;
      forall t: State ensures closure(t) == AttemptsMeant(m, w, own)(t) {
        AttemptIsMeant(m, w, own, own, t);
      }
      forall t: State, d: int ensures Waiting(w, own)(t, d) == PauseMeant(w, own)(t, d) {
        PauseIsMeant(w, own, t, d);
      }
      Retry.RetryAgrees(p, closure, AttemptsMeant(m, w, own), Waiting(w, own), PauseMeant(w, own), 0, p.delay, s);
    } else {
      AttemptIsMeant(m, w, own, own, s);
    }
  }

  lemma GuardedIsMeant(m: Method, w: World, own: Context, s: State)
    ensures Run(m.values, w, own, own, RenderGuardedBody(m), s) == GuardedMeant(m, w, own, s)
  {
    hide WorkMeant;
    if m.authorize {
      GuardedRun(m, w, own, s);
      var plain := m.(authorize := false);
      var (s1, denied) := CallAuthorize(w, own, s);
      WorkIsMeant(plain, w, own, s1);
      assert WorkMeant(plain, w, own, s1) == WorkMeant(m, w, own, s1) by { WorkIgnoresAuthorize(m, w, own, s1); }
    } else {
      WorkIsMeant(m, w, own, s);
    }
  }

  lemma WorkIgnoresAuthorize(m: Method, w: World, c: Context, s: State)
    ensures WorkMeant(m.(authorize := false), w, c, s) == WorkMeant(m, w, c, s)
  {
    var plain := m.(authorize := false);
    if m.retry.Some? {
      var p := m.retry.value;
      assert forall t: State :: AttemptsMeant(plain, w, c)(t) == AttemptsMeant(m, w, c)(t);
      hide AttemptMeant, Retry.Attempts;
      Retry.RetryAgrees(p, AttemptsMeant(plain, w, c), AttemptsMeant(m, w, c), PauseMeant(w, c), PauseMeant(w, c), 0,
                        p.delay, s);
    }
  }

  /** The outermost of the first n gates that rejects. */
  function FirstToReject(w: World, gates: seq<Gate>, n: nat, t: Trace, c: Context): Option<Gate>
    requires n <= |gates|
  {
    if n == 0 then None
    else if w.admit(t, gates[n - 1], c).Some? then Some(gates[n - 1])
    else FirstToReject(w, gates, n - 1, t, c)
  }

  lemma {:induction false} GatesReject(values: bool, w: World, gates: seq<Gate>, guarded: Block, n: nat, own: Context,
      s: State)
    requires 1 <= n <= |gates|
    ensures Eval(values, w, own, own, Wrapped(gates, guarded, n), s) ==
      match FirstToReject(w, gates, n, s.trace, own)
      case Some(gate) => (Log(s, Rejected(gate)), w.admit(s.trace, gate, own))
      case None => Run(values, w, own, own, guarded, s)
  {
    assert w.admit(s.trace, gates[n - 1], own).None? ==>
      Eval(values, w, own, own, Wrapped(gates, guarded, n), s)
        == Run(values, w, own, own, if n == 1 then guarded else Return(Wrapped(gates, guarded, n - 1)), s);
    if n > 1 { GatesReject(values, w, gates, guarded, n - 1, own, s); }
  }

  lemma FirstIsTurnsAway(m: Method, w: World, t: Trace, c: Context)
    ensures FirstToReject(w, Gates(m), |Gates(m)|, t, c) == TurnsAway(m, w, t, c)
  {
    var inner := if m.rateLimit then [RateLimiter] else [];
    var middle := inner + if m.breaker then [CircuitBreaker] else [];
    FirstOfMore(w, inner, middle, |inner|, t, c);
    FirstOfMore(w, middle, Gates(m), |middle|, t, c);
  }

  lemma {:induction false} FirstOfMore(w: World, fewer: seq<Gate>, gates: seq<Gate>, n: nat, t: Trace, c: Context)
    requires fewer <= gates && n <= |fewer|
    ensures FirstToReject(w, gates, n, t, c) == FirstToReject(w, fewer, n, t, c)
  {
    if n > 0 { FirstOfMore(w, fewer, gates, n - 1, t, c); }
  }

  /** The rendered core does what the flags ask for: same events, same results, same error. */
  lemma CoreIsMeant(m: Method, w: World, own: Context, s: State)
    requires s.err.None?
    ensures Scoped(CoreOf(m))
    ensures var (s', err) := CoreMeant(m, w, own, s);
      RunStmt(m.values, w, own, CoreOf(m), s) == s'.(err := err)
  {
    CoreIsScoped(m);
    hide UngatedCore, RenderGuardedBody, Wrapped, GuardedMeant, TurnsAway;
    GuardedIsMeant(m, w, own, s);
    FirstIsTurnsAway(m, w, s.trace, own);
    if m.Gated() {
      assert Gates(m) != [];
      GatesReject(m.values, w, Gates(m), RenderGuardedBody(m), |Gates(m)|, own, s);
    } else {
      GuardedIsUngated(m, w, own, s);
      assert TurnsAway(m, w, s.trace, own) == None by { NobodyTurnsAway(m, w, s.trace, own); }
    }
  }

  lemma NobodyTurnsAway(m: Method, w: World, t: Trace, c: Context)
    requires !m.bulkhead && !m.breaker && !m.rateLimit
    ensures TurnsAway(m, w, t, c) == None
  {
  }

  /**
   The gates of a method, one by one. A gate is asked exactly when the method wants it and the gates before it, of
   bulkhead, breaker and rate limiter in this order, admit the call or are not wanted; at the first that rejects, the
   core consists of the rejection and its error, and the target does not run; if all asked gates admit, the core is the
   same as without gates.
   */
  lemma GatesAreAskedInOrder(m: Method, w: World, own: Context, s: State)
    requires s.err.None?
    ensures Scoped(CoreOf(m)) && Scoped(UngatedCore(m))
    ensures var s' := RunStmt(m.values, w, own, CoreOf(m), s);
      var bulkhead, breaker := m.bulkhead && w.admit(s.trace, Bulkhead, own).Some?,
        m.breaker && w.admit(s.trace, CircuitBreaker, own).Some?;
      var limiter := m.rateLimit && w.admit(s.trace, RateLimiter, own).Some?;
      && (bulkhead ==> s' == State(s.trace + [Rejected(Bulkhead)], s.r, w.admit(s.trace, Bulkhead, own)))
      && (!bulkhead && breaker ==>
            s' == State(s.trace + [Rejected(CircuitBreaker)], s.r, w.admit(s.trace, CircuitBreaker, own)))
      && (!bulkhead && !breaker && limiter ==>
            s' == State(s.trace + [Rejected(RateLimiter)], s.r, w.admit(s.trace, RateLimiter, own)))
      && (!bulkhead && !breaker && !limiter ==> s' == RunStmt(m.values, w, own, UngatedCore(m), s))
  {
    CoreIsScoped(m);
    hide CoreOf, UngatedCore, GuardedMeant, RunStmt, Scoped, RenderGuardedBody;
    CoreIsMeant(m, w, own, s);
    GuardedIsMeant(m, w, own, s);
    GuardedIsUngated(m, w, own, s);
  }

  // ---- what happens inside ----

  /** One call of the target, in its own transaction if there is one. */
  datatype Attempt = Direct(ok: bool) | BeginFailed | RolledBack | Committed(ok: bool) {
    predicate Failed() {
      match this
      case Direct(ok) => !ok
      case Committed(ok) => !ok
      case _ => true
    }

    /** The events, when at events have happened before; the transaction is identified by where it begins. */
    function Events(c: Context, at: nat): Trace {
      match this
      case Direct(ok) => [Target(c, ok)]
      case BeginFailed => [Begin(at, false)]
      case RolledBack => [Begin(at, true), Target(Tx(c, at), false), Rollback(at)]
      case Committed(ok) => [Begin(at, true), Target(Tx(c, at), true), Commit(at, ok)]
    }
  }

  /** Attempts with a pause between any two; a cancelled pause ends them. */
  datatype Work = Work(attempts: seq<Attempt>, pauses: seq<int>, cancelled: bool) {
    predicate Shaped() {
      1 <= |attempts| && |pauses| == |attempts| - 1 + if cancelled then 1 else 0
    }

    /** How attempts may go on: within the limit, only after failures, and until success, the limit or cancellation. */
    ghost predicate Allowed(transactional: bool, limit: nat, failed: bool)
      ensures Allowed(transactional, limit, failed) ==> Shaped()
    {
      && Shaped() && |attempts| <= limit
      && (forall i :: 0 <= i < |attempts| ==> (attempts[i].Direct? <==> !transactional))
      && (forall i :: 0 <= i < |attempts| - 1 ==> attempts[i].Failed())
      && (failed <==> attempts[|attempts| - 1].Failed())
      && (cancelled ==> failed && |attempts| < limit)
      && (failed && !cancelled ==> |attempts| == limit)
    }

    function Events(c: Context, at: nat): Trace
      requires Shaped()
      decreases |attempts|
    {
      var first := attempts[0].Events(c, at);
      if |attempts| == 1 then first + if cancelled then [Pause(pauses[0], true)] else []
      else first + [Pause(pauses[0], false)] + Work(attempts[1..], pauses[1..], cancelled).Events(c, at + |first| + 1)
    }
  }

  function AttemptBlock(transactional: bool): Block {
    if transactional then Return(WithinTransaction(Ctx, ReturnTarget(Ctx))) else ReturnTarget(Ctx)
  }

  lemma AttemptShape(values: bool, w: World, own: Context, c: Context, transactional: bool, s: State)
    returns (a: Attempt)
    ensures var (s', err) := Run(values, w, own, c, AttemptBlock(transactional), s);
      && (a.Direct? <==> !transactional) && (err.Some? <==> a.Failed())
      && s'.trace == s.trace + a.Events(c, |s.trace|) && s'.err == s.err
  {
    if !transactional {
      a := Direct(w.target(s.trace, c).1.None?);
    } else {
      a := TransactionShape(values, w, own, own, c, WithinTransaction(Ctx, ReturnTarget(Ctx)), s);
    }
  }

  lemma TransactionShape(values: bool, w: World, own: Context, unused: Context, ctx: Context, e: Expr, s: State)
    returns (a: Attempt)
    requires e.WithinTransaction? && e.body == ReturnTarget(Ctx)
    ensures var c := ValueOf(e.arg, own, ctx); var (s', err) := Eval(values, w, own, ctx, e, s);
      && !a.Direct? && (err.Some? <==> a.Failed())
      && s'.trace == s.trace + a.Events(c, |s.trace|) && s'.err == s.err
  {
    var c, id := ValueOf(e.arg, own, ctx), |s.trace|;
    if w.begin(s.trace, c).Some? {
      a := BeginFailed;
    } else {
      var s1 := Log(s, Begin(id, true));
      var (s2, err) := CallTarget(values, w, Tx(c, id), s1);
      assert s2.trace == s.trace + [Begin(id, true), Target(Tx(c, id), err.None?)];
      if err.Some? {
        a := RolledBack;
      } else {
        a := Committed(w.commit(s2.trace, id).None?);
      }
    }
  }

  lemma {:induction false} RetryWork(values: bool, w: World, own: Context, c: Context, policy: Retry.Policy,
      transactional: bool, attempt: nat, delay: int, s: State)
    returns (work: Work)
    requires attempt < Retry.Attempts(policy)
    ensures var closure := Closure(values, w, own, c, AttemptBlock(transactional));
      var (s', err) := Retry.RetryFrom(policy, closure, Waiting(w, c), attempt, delay, s);
      && work.Allowed(transactional, Retry.Attempts(policy) - attempt, err.Some?)
      && s'.trace == s.trace + work.Events(c, |s.trace|) && s'.err == s.err
    decreases Retry.Attempts(policy) - attempt
  {
    hide Retry.NextDelay, Attempt.Events, Attempt.Failed, AttemptBlock, Work.Events, Work.Allowed;
    hide Work.Shaped, Retry.Attempts;
    var limit := Retry.Attempts(policy) - attempt;
    var a := AttemptShape(values, w, own, c, transactional, s);
    var (s1, err) := Run(values, w, own, c, AttemptBlock(transactional), s);
    var closure := Closure(values, w, own, c, AttemptBlock(transactional));
    var result := Retry.RetryFrom(policy, closure, Waiting(w, c), attempt, delay, s);
    if err.None? || limit == 1 {
      work := LastAttempt(a, transactional, limit, c, |s.trace|);
      assert result == (s1, err);
    } else {
      var (s2, cancelled) := Waiting(w, c)(s1, delay);
      assert s2 == Log(s1, Pause(delay, cancelled.Some?));
      Join(s.trace, a.Events(c, |s.trace|), Pause(delay, cancelled.Some?), []);
      if cancelled.Some? {
        work := CancelledAttempt(a, transactional, limit, delay, c, |s.trace|);
        assert result == (s2, cancelled);
      } else {
        var next := Retry.NextDelay(policy, delay);
        var rest := RetryWork(values, w, own, c, policy, transactional, attempt + 1, next, s2);
        var failed := Retry.RetryFrom(policy, Closure(values, w, own, c, AttemptBlock(transactional)), Waiting(w, c),
                                      attempt + 1, Retry.NextDelay(policy, delay), s2).1.Some?;
        assert result == Retry.RetryFrom(policy, Closure(values, w, own, c, AttemptBlock(transactional)), Waiting(w, c),
                                      attempt + 1, Retry.NextDelay(policy, delay), s2);
        work := MoreWork(a, delay, rest, transactional, limit - 1, failed, c, |s.trace|);
        Join(s.trace, a.Events(c, |s.trace|), Pause(delay, false), rest.Events(c, |s2.trace|));
      }
    }
  }

  lemma Join(t: Trace, first: Trace, e: Event, rest: Trace)
    ensures t + first + [e] + rest == t + (first + [e] + rest)
    ensures t + first + [e] == t + (first + [e])
    ensures |t + first + [e]| == |t| + |first| + 1
  {
  }

  lemma LastAttempt(a: Attempt, transactional: bool, limit: nat, c: Context, at: nat) returns (work: Work)
    requires limit >= 1 && (a.Direct? <==> !transactional) && (a.Failed() ==> limit == 1)
    ensures work.Allowed(transactional, limit, a.Failed()) && work.Events(c, at) == a.Events(c, at)
  {
    hide Attempt.Events, Attempt.Failed;
    work := Work([a], [], false);
    assert a.Events(c, at) + [] == a.Events(c, at);
  }

  lemma CancelledAttempt(a: Attempt, transactional: bool, limit: nat, delay: int, c: Context, at: nat)
    returns (work: Work)
    requires limit > 1 && (a.Direct? <==> !transactional) && a.Failed()
    ensures work.Allowed(transactional, limit, true) && work.Events(c, at) == a.Events(c, at) + [Pause(delay, true)]
  {
    hide Attempt.Events, Attempt.Failed;
    work := Work([a], [delay], true);
  }

  lemma MoreWork(a: Attempt, delay: int, rest: Work, transactional: bool, limit: nat, failed: bool, c: Context, at: nat)
    returns (work: Work)
    requires a.Failed() && (a.Direct? <==> !transactional) && rest.Allowed(transactional, limit, failed)
    ensures work.Allowed(transactional, limit + 1, failed)
    ensures work.Events(c, at) == a.Events(c, at) + [Pause(delay, false)] + rest.Events(c, at + |a.Events(c, at)| + 1)
  {
    hide Attempt.Events, Attempt.Failed;
    work := Work([a] + rest.attempts, [delay] + rest.pauses, rest.cancelled);
    assert work.attempts[1..] == rest.attempts && work.pauses[1..] == rest.pauses;
    assert Work(work.attempts[1..], work.pauses[1..], work.cancelled) == rest;
  }

  function Limit(m: Method): nat {
    if m.retry.Some? && m.retry.value.maxAttempts > 1 then m.retry.value.maxAttempts else 1
  }

  // ---- the core ----

  /** How the core of a call goes: a gate turns it away, authorization is denied, or the work is done. */
  datatype CoreRun = TurnedAway(gate: Gate) | Denied | Worked(work: Work) {
    ghost predicate Allowed(m: Method, failed: bool) {
      match this
      case TurnedAway(gate) => Wants(m, gate) && failed
      case Denied => m.authorize && failed
      case Worked(work) => work.Allowed(m.transactional, Limit(m), failed)
    }

    ghost function Events(m: Method, c: Context, at: nat): Trace
      requires exists failed :: Allowed(m, failed)
    {
      match this
      case TurnedAway(gate) => [Rejected(gate)]
      case Denied => [AuthCheck(c, false)]
      case Worked(work) =>
        if m.authorize then [AuthCheck(c, true)] + work.Events(c, at + 1) else work.Events(c, at)
    }
  }

  lemma WorkShape(m: Method, w: World, own: Context, s: State) returns (work: Work)
    requires !m.authorize
    ensures var (s', err) := Run(m.values, w, own, own, RenderGuardedBody(m), s);
      && work.Allowed(m.transactional, Limit(m), err.Some?)
      && s'.trace == s.trace + work.Events(own, |s.trace|) && s'.err == s.err
  {
    hide Attempt.Events, Attempt.Failed;
    if m.retry.Some? {
      work := RetryWork(m.values, w, own, own, m.retry.value, m.transactional, 0, m.retry.value.delay, s);
    } else {
      var a := AttemptShape(m.values, w, own, own, m.transactional, s);
      work := Work([a], [], false);
      assert a.Events(own, |s.trace|) + [] == a.Events(own, |s.trace|);
    }
  }

  lemma GuardedShape(m: Method, w: World, own: Context, s: State) returns (core: CoreRun)
    ensures var (s', err) := Run(m.values, w, own, own, RenderGuardedBody(m), s);
      && !core.TurnedAway? && core.Allowed(m, err.Some?)
      && s'.trace == s.trace + core.Events(m, own, |s.trace|) && s'.err == s.err
  {
    if !m.authorize {
      var work := WorkShape(m, w, own, s);
      core := Worked(work);
      var failed := Run(m.values, w, own, own, RenderGuardedBody(m), s).1.Some?;
      hide RenderGuardedBody, Run, Work.Events, Work.Allowed, Limit;
      assert core.Allowed(m, failed);
    } else {
      core := AuthorizedShape(m, w, own, s);
    }
  }

  lemma AuthorizedShape(m: Method, w: World, own: Context, s: State) returns (core: CoreRun)
    requires m.authorize
    ensures var (s', err) := Run(m.values, w, own, own, RenderGuardedBody(m), s);
      && !core.TurnedAway? && core.Allowed(m, err.Some?)
      && s'.trace == s.trace + core.Events(m, own, |s.trace|) && s'.err == s.err
  {
    var (s1, denied) := CallAuthorize(w, own, s);
    var plain := m.(authorize := false);
    GuardedRun(m, w, own, s);
    hide RenderGuardedBody, Run, Work.Events, Work.Allowed, Limit;
    if denied.Some? {
      core := Denied;
      assert core.Allowed(m, true);
    } else {
      var work := WorkShape(plain, w, own, s1);
      SameLimit(m);
      core := Worked(work);
      var failed := Run(m.values, w, own, own, RenderGuardedBody(plain), s1).1.Some?;
      assert core.Allowed(m, failed);
      AuthorizedTrace(s.trace, own, work.Events(own, |s.trace| + 1));
    }
  }

  /** Authorization first, then the body without it. */
  lemma GuardedRun(m: Method, w: World, own: Context, s: State)
    requires m.authorize
    ensures var (s1, denied) := CallAuthorize(w, own, s);
      Run(m.values, w, own, own, RenderGuardedBody(m), s) ==
        if denied.Some? then (s1, denied) else Run(m.values, w, own, own, RenderGuardedBody(m.(authorize := false)), s1)
  {
  }

  lemma SameLimit(m: Method)
    ensures Limit(m.(authorize := false)) == Limit(m)
  {
  }

  lemma AuthorizedTrace(t: Trace, c: Context, rest: Trace)
    ensures t + [AuthCheck(c, true)] + rest == t + ([AuthCheck(c, true)] + rest)
  {
  }

  lemma CoreShape(m: Method, w: World, own: Context, s: State) returns (core: CoreRun)
    requires s.err.None?
    ensures Scoped(CoreOf(m))
    ensures var s' := RunStmt(m.values, w, own, CoreOf(m), s);
      && core.Allowed(m, s'.err.Some?) && s'.trace == s.trace + core.Events(m, own, |s.trace|)
      && GatesDecide(m, w, s.trace, own, core, s'.err)
  {
    hide RenderGuardedBody, UngatedCore, Wrapped, CoreRun.Events, Work.Allowed, GuardedMeant, CoreOf;
    CoreIsMeant(m, w, own, s);
    if TurnsAway(m, w, s.trace, own).Some? {
      core := TurnedAway(TurnsAway(m, w, s.trace, own).value);
      TurnedAwayEvents(m, own, |s.trace|, core.gate);
    } else {
      core := GuardedShape(m, w, own, s);
      GuardedIsMeant(m, w, own, s);
    }
  }

  /** A gate turns the call away exactly when it is the first wanted gate to reject, and then with its error. */
  ghost predicate GatesDecide(m: Method, w: World, t: Trace, c: Context, core: CoreRun, err: Option<Error>) {
    && TurnsAway(m, w, t, c) == (if core.TurnedAway? then Some(core.gate) else None)
    && (core.TurnedAway? ==> err == w.admit(t, core.gate, c))
  }

  lemma TurnedAwayEvents(m: Method, c: Context, at: nat, gate: Gate)
    requires Wants(m, gate)
    ensures TurnedAway(gate).Allowed(m, true) && TurnedAway(gate).Events(m, c, at) == [Rejected(gate)]
  {
    assert TurnedAway(gate).Allowed(m, true);
  }

  // ---- the whole method ----

  lemma {:induction false} RunTopsConcat(values: bool, w: World, a: seq<Top>, b: seq<Top>, f: Frame)
    requires AllScoped(a) && AllScoped(b)
    ensures AllScoped(a + b) && RunTops(values, w, a + b, f) == RunTops(values, w, b, RunTops(values, w, a, f))
    decreases |a|
  {
    hide RunTop, Scoped;
    if a == [] {
      assert a + b == b;
    } else {
      assert (a + b)[0] == a[0] && (a + b)[1..] == a[1..] + b;
      RunTopsConcat(values, w, a[1..], b, RunTop(values, w, a[0], f));
    }
  }

  /** Optional statements, one after the other. */
  lemma RunOptional(values: bool, w: World, a: seq<Top>, present: bool, top: Top, f: Frame)
    requires AllScoped(a) && !top.Core?
    ensures var b := a + if present then [top] else [];
      var g := RunTops(values, w, a, f);
      AllScoped(b) && RunTops(values, w, b, f) == if present then RunTop(values, w, top, g) else g
  {
    var last := if present then [top] else [];
    RunTopsConcat(values, w, a, last, f);
    hide RunTop;
    if present { assert last[1..] == []; }
  }

  lemma RunFirst(values: bool, w: World, present: bool, top: Top, f: Frame)
    requires !top.Core?
    ensures var b := if present then [top] else [];
      AllScoped(b) && RunTops(values, w, b, f) == if present then RunTop(values, w, top, f) else f
  {
    hide RunTop;
    if present { assert [top][1..] == []; }
  }

  // What the two parts around the core do, in terms of the flags only.

  function OwnContext(m: Method, at: nat): Context {
    var c := if m.timeout then Deadline(Root) else Root;
    if m.traced then Span(c, at) else c
  }

  function Opens(m: Method, at: nat): Trace {
    (if m.traced then [SpanBegin(at)] else []) + if m.logged then [LogBegin] else []
  }

  function Defers(m: Method, at: nat): seq<Deferred> {
    (if m.timeout then [CancelCall] else []) + (if m.traced then [EndSpan(at)] else [])
    + (if m.logged then [EndLog] else []) + if m.audit then [RecordAudit] else []
  }

  /** The completions, in reverse order of opening, each once and with the final error. */
  function Closes(m: Method, at: nat, err: Option<Error>): Trace {
    (if m.audit then [Audited(err)] else []) + (if m.logged then [LogEnd(err)] else [])
    + (if m.traced then [SpanEnd(at, err)] else []) + if m.timeout then [Cancel] else []
  }

  /** One metric if the method is timed; after success the result is stored and the entry evicted as asked for. */
  function Outcome(m: Method, w: World, s: State): Trace {
    (if m.timed then [if s.err.Some? then RecordFailure else RecordSuccess] else [])
    + (if m.cacheable && s.err.None? && w.marshal(s.r).Some? then [CacheSet(w.marshal(s.r).value)] else [])
    + if m.evict && s.err.None? then [CacheDelete] else []
  }

  lemma BracketsRun(m: Method, w: World, f: Frame)
    requires !f.returned && f.own == Root && f.deferred == []
    ensures AllScoped(Brackets(m))
    ensures var at := |f.s.trace|; var g := RunTops(m.values, w, Brackets(m), f);
      g == Frame(f.s.(trace := f.s.trace + Opens(m, at)), OwnContext(m, at), Defers(m, at), false)
  {
    hide RunTops;
    var v := m.values;
    var b0 := if m.timeout then [WithTimeout] else [];
    var b1 := b0 + if m.traced then [BeginSpan] else [];
    var b2 := b1 + if m.logged then [BeginLog] else [];
    RunFirst(v, w, m.timeout, WithTimeout, f);
    RunOptional(v, w, b0, m.traced, BeginSpan, f);
    RunOptional(v, w, b1, m.logged, BeginLog, f);
    RunOptional(v, w, b2, m.audit, DeferAudit, f);
    var f1 := RunTops(v, w, b1, f);
    assert f1 == SpannedFrame(m, f) by { hide Brackets; }
    hide SpannedFrame;
    LoggedFrame(m, f);
  }

  /** After the timeout and the span have begun. */
  function SpannedFrame(m: Method, f: Frame): Frame {
    var at := |f.s.trace|;
    Frame(if m.traced then Log(f.s, SpanBegin(at)) else f.s, OwnContext(m, at),
          (if m.timeout then [CancelCall] else []) + (if m.traced then [EndSpan(at)] else []), false)
  }

  lemma LoggedFrame(m: Method, f: Frame)
    requires f.deferred == []
    ensures var f1 := SpannedFrame(m, f);
      var f2 := if m.logged then f1.(s := Log(f1.s, LogBegin), deferred := f1.deferred + [EndLog]) else f1;
      (if m.audit then f2.(deferred := f2.deferred + [RecordAudit]) else f2)
        == Frame(f.s.(trace := f.s.trace + Opens(m, |f.s.trace|)), OwnContext(m, |f.s.trace|),
                 Defers(m, |f.s.trace|), false)
  {
    hide OwnContext;
    OpensJoin(f.s.trace, m);
  }

  lemma OpensJoin(t: Trace, m: Method)
    ensures var at := |t|;
      var t1 := if m.traced then t + [SpanBegin(at)] else t;
      (if m.logged then t1 + [LogBegin] else t1) == t + Opens(m, at)
  {
  }

  lemma FinishingRun(m: Method, w: World, f: Frame)
    requires !f.returned
    ensures AllScoped(Finishing(m))
    ensures var g := RunTops(m.values, w, Finishing(m), f);
      g.s == f.s.(trace := f.s.trace + Outcome(m, w, f.s)) && g.deferred == f.deferred
  {
    hide RunTops, Outcome;
    var v := m.values;
    var b0 := if m.timed then [RecordMetrics] else [];
    var b1 := b0 + if m.cacheable then [StoreResult] else [];
    RunFirst(v, w, m.timed, RecordMetrics, f);
    RunOptional(v, w, b0, m.cacheable, StoreResult, f);
    RunOptional(v, w, b1, m.evict, EvictEntry, f);
    OutcomeJoin(m, w, f.s);
  }

  lemma OutcomeJoin(m: Method, w: World, s: State)
    ensures
      var t1 := if m.timed then s.trace + [if s.err.Some? then RecordFailure else RecordSuccess] else s.trace;
      var t2 :=
        if m.cacheable && s.err.None? && w.marshal(s.r).Some? then t1 + [CacheSet(w.marshal(s.r).value)] else t1;
      (if m.evict && s.err.None? then t2 + [CacheDelete] else t2) == s.trace + Outcome(m, w, s)
  {
    var metric := if m.timed then [if s.err.Some? then RecordFailure else RecordSuccess] else [];
    var stored := if m.cacheable && s.err.None? && w.marshal(s.r).Some? then [CacheSet(w.marshal(s.r).value)] else [];
    var evicted := if m.evict && s.err.None? then [CacheDelete] else [];
    assert s.trace + metric + stored + evicted == s.trace + (metric + stored + evicted);
  }

  lemma ClosesRun(m: Method, at: nat, s: State)
    ensures RunDeferred(Defers(m, at), s) == s.(trace := s.trace + Closes(m, at, s.err))
  {
    hide RunDeferred, Closes;
    var d0 := if m.timeout then [CancelCall] else [];
    var d1 := d0 + if m.traced then [EndSpan(at)] else [];
    var d2 := d1 + if m.logged then [EndLog] else [];
    var s1 := if m.audit then Log(s, Audited(s.err)) else s;
    var s2 := if m.logged then Log(s1, LogEnd(s.err)) else s1;
    var s3 := if m.traced then Log(s2, SpanEnd(at, s.err)) else s2;
    RunLast(d2, m.audit, RecordAudit, s);
    RunLast(d1, m.logged, EndLog, s1);
    RunLast(d0, m.traced, EndSpan(at), s2);
    RunOnly(m.timeout, CancelCall, s3);
    ClosesJoin(m, at, s);
  }

  lemma RunOnly(present: bool, only: Deferred, s: State)
    ensures RunDeferred(if present then [only] else [], s) == if present then Log(s, CallOf(only, s.err)) else s
  {
    if present { assert [only][..0] == []; }
  }

  lemma ClosesJoin(m: Method, at: nat, s: State)
    ensures
      var t1 := if m.audit then s.trace + [Audited(s.err)] else s.trace;
      var t2 := if m.logged then t1 + [LogEnd(s.err)] else t1;
      var t3 := if m.traced then t2 + [SpanEnd(at, s.err)] else t2;
      (if m.timeout then t3 + [Cancel] else t3) == s.trace + Closes(m, at, s.err)
  {
    var a, l := if m.audit then [Audited(s.err)] else [], if m.logged then [LogEnd(s.err)] else [];
    var e, c := if m.traced then [SpanEnd(at, s.err)] else [], if m.timeout then [Cancel] else [];
    assert s.trace + a + l + e + c == s.trace + (a + l + e + c);
  }

  lemma RunLast(d: seq<Deferred>, present: bool, last: Deferred, s: State)
    ensures RunDeferred(d + if present then [last] else [], s) ==
      RunDeferred(d, if present then Log(s, CallOf(last, s.err)) else s)
  {
    if present {
      assert (d + [last])[..|d|] == d;
    } else {
      assert d + [] == d;
    }
  }

  /** A cached value answers the call. */
  predicate Hit(m: Method, w: World, before: Trace) {
    m.cacheable && w.lookup(before, Root).Some? && w.unmarshal(w.lookup(before, Root).value).1
  }

  function Lookup(m: Method, w: World, before: Trace): Trace {
    if m.cacheable then [CacheGet(w.lookup(before, Root).Some?)] else []
  }

  function Start(before: Trace, zero: Values): Frame {
    Frame(State(before, zero, None), Root, [], false)
  }

  lemma CachePartRun(m: Method, w: World, before: Trace, zero: Values)
    ensures AllScoped(CachePart(m))
    ensures var g := RunTops(m.values, w, CachePart(m), Start(before, zero));
      && g.s.trace == before + Lookup(m, w, before) && g.s.err.None? && g.own == Root && g.deferred == []
      && (g.returned <==> Hit(m, w, before))
      && (g.returned ==> g.s.r == w.unmarshal(w.lookup(before, Root).value).0)
  {
    hide RunTops;
    var v, f := m.values, Start(before, zero);
    var b0 := if m.cacheable then [CacheLookup] else [];
    RunFirst(v, w, m.cacheable, CacheLookup, f);
    RunOptional(v, w, b0, m.evict, EvictKey, f);
  }

  lemma {:induction false} ReturnedStays(values: bool, w: World, tops: seq<Top>, f: Frame)
    requires f.returned && AllScoped(tops)
    ensures RunTops(values, w, tops, f) == f
    decreases |tops|
  {
    if tops != [] { ReturnedStays(values, w, tops[1..], f); }
  }

  /** The method as its four parts. */
  lemma InvokeParts(m: Method, w: World, before: Trace, zero: Values)
    ensures AllScoped(CachePart(m)) && AllScoped(Brackets(m)) && AllScoped(Finishing(m)) && Scoped(CoreOf(m))
    ensures
      var f1 := RunTops(m.values, w, CachePart(m), Start(before, zero));
      var f2 := RunTops(m.values, w, Brackets(m), f1);
      var f3 := RunTop(m.values, w, Core(CoreOf(m)), f2);
      var f4 := RunTops(m.values, w, Finishing(m), f3);
      Invoke(m, w, before, zero) == RunDeferred(f4.deferred, f4.s)
  {
    RenderedIsScoped(m);
    CoreIsScoped(m);
    assert forall t :: t in CachePart(m) || t in Brackets(m) || t in Finishing(m) ==> !t.Core?;
    hide CachePart, Brackets, Finishing, CoreOf, RunTop, RunDeferred, Scoped;
    var f := Start(before, zero);
    var core := [Core(CoreOf(m))];
    RunTopsConcat(m.values, w, CachePart(m), Brackets(m), f);
    RunTopsConcat(m.values, w, CachePart(m) + Brackets(m), core, f);
    RunTopsConcat(m.values, w, CachePart(m) + Brackets(m) + core, Finishing(m), f);
    assert core[1..] == [];
  }

  /** A cache hit answers at once: nothing but the lookup happens. */
  lemma HitAnswersAtOnce(m: Method, w: World, before: Trace, zero: Values)
    requires Hit(m, w, before)
    ensures Invoke(m, w, before, zero) ==
      State(before + [CacheGet(true)], w.unmarshal(w.lookup(before, Root).value).0, None)
  {
    InvokeParts(m, w, before, zero);
    CachePartRun(m, w, before, zero);
    ReturnedCall(m, w, RunTops(m.values, w, CachePart(m), Start(before, zero)));
    assert Lookup(m, w, before) == [CacheGet(true)];
    hide Invoke, RunTops, RunDeferred, CachePart, Brackets, Finishing, CoreOf, RunTop, Lookup;
  }

  /**
   Any other call is well bracketed: its events are the cache lookup, the openings, the core, the one metric and the
   cache updates that the outcome asks for, and the completions in reverse order of opening, each once and with the
   error that the call returns.
   */
  lemma CallsAreWellBracketed(m: Method, w: World, before: Trace, zero: Values) returns (core: CoreRun)
    requires !Hit(m, w, before)
    ensures core.Allowed(m, Invoke(m, w, before, zero).err.Some?)
    ensures IsBracketed(m, w, before, Invoke(m, w, before, zero), core)
  {
    hide *;
    InvokeParts(m, w, before, zero);
    CachePartRun(m, w, before, zero);
    core := RunningCall(m, w, RunTops(m.values, w, CachePart(m), Start(before, zero)));
    LookupThenRun(m, w, before, Invoke(m, w, before, zero), core);
  }

  ghost predicate IsBracketed(m: Method, w: World, before: Trace, s: State, core: CoreRun) {
    core.Allowed(m, s.err.Some?) && IsRun(m, w, before + Lookup(m, w, before), s, core)
  }

  /** Everything after the cache lookup. */
  ghost predicate IsRun(m: Method, w: World, before: Trace, s: State, core: CoreRun)
    requires core.Allowed(m, s.err.Some?)
  {
    var at := |before|;
    && GatesDecide(m, w, before + Opens(m, at), OwnContext(m, at), core, s.err)
    && s.trace == before + Opens(m, at) + core.Events(m, OwnContext(m, at), at + |Opens(m, at)|)
                  + Outcome(m, w, s) + Closes(m, at, s.err)
  }

  lemma LookupThenRun(m: Method, w: World, before: Trace, s: State, core: CoreRun)
    requires core.Allowed(m, s.err.Some?) && IsRun(m, w, before + Lookup(m, w, before), s, core)
    ensures IsBracketed(m, w, before, s, core)
  {
  }

  lemma ReturnedCall(m: Method, w: World, f1: Frame)
    requires f1.returned && f1.deferred == []
    ensures AllScoped(Brackets(m)) && AllScoped(Finishing(m)) && Scoped(CoreOf(m))
    ensures
      var f2 := RunTops(m.values, w, Brackets(m), f1);
      var f3 := RunTop(m.values, w, Core(CoreOf(m)), f2);
      var f4 := RunTops(m.values, w, Finishing(m), f3);
      RunDeferred(f4.deferred, f4.s) == f1.s
  {
    CoreIsScoped(m);
    ReturnedStays(m.values, w, Brackets(m), f1);
    ReturnedStays(m.values, w, Finishing(m), f1);
    hide Brackets, Finishing, CoreOf;
  }

  lemma RunningCall(m: Method, w: World, f1: Frame) returns (core: CoreRun)
    requires !f1.returned && f1.deferred == [] && f1.own == Root && f1.s.err.None?
    ensures AllScoped(Brackets(m)) && AllScoped(Finishing(m)) && Scoped(CoreOf(m))
    ensures
      var f2 := RunTops(m.values, w, Brackets(m), f1);
      var f3 := RunTop(m.values, w, Core(CoreOf(m)), f2);
      var f4 := RunTops(m.values, w, Finishing(m), f3);
      var s := RunDeferred(f4.deferred, f4.s);
      core.Allowed(m, s.err.Some?) && IsRun(m, w, f1.s.trace, s, core)
  {
    var at := |f1.s.trace|;
    BracketsRun(m, w, f1);
    var f2 := RunTops(m.values, w, Brackets(m), f1);
    core := CoreShape(m, w, f2.own, f2.s);
    var f3 := RunTop(m.values, w, Core(CoreOf(m)), f2);
    FinishingRun(m, w, f3);
    var f4 := RunTops(m.values, w, Finishing(m), f3);
    ClosesRun(m, at, f4.s);
    OutcomeIgnoresTrace(m, w, f3.s, f4.s);
    hide Brackets, Finishing, CoreOf, RunTops, RunDeferred, RunTop, Opens, Closes, Outcome;
    hide CoreRun.Events, CoreRun.Allowed, OwnContext, Defers, GatesDecide;
  }

  lemma OutcomeIgnoresTrace(m: Method, w: World, s: State, t: State)
    requires s.r == t.r && s.err == t.err
    ensures Outcome(m, w, s) == Outcome(m, w, t)
  {
  }

  /** What is left in the results by the cache lookup: those of a value that could not be read completely. */
  function LookedUp(m: Method, w: World, before: Trace, zero: Values): Values {
    if m.cacheable && w.lookup(before, Root).Some? then w.unmarshal(w.lookup(before, Root).value).0 else zero
  }

  /**
   A call that the cache does not answer, exactly, from the flags alone: the lookup; what opens; the gates,
   authorization, and the attempts in their transactions; what the outcome calls for; and the completions. This is the
   call's whole effect, and its results and its error.
   */
  lemma CallIsMeant(m: Method, w: World, before: Trace, zero: Values)
    requires !Hit(m, w, before)
    ensures var begun := before + Lookup(m, w, before);
      var start := State(begun + Opens(m, |begun|), LookedUp(m, w, before, zero), None);
      var (s, err) := CoreMeant(m, w, OwnContext(m, |begun|), start);
      var done := s.(err := err);
      Invoke(m, w, before, zero) ==
        State(s.trace + Outcome(m, w, done) + Closes(m, |begun|, err), s.r, err)
  {
    hide *;
    InvokeParts(m, w, before, zero);
    CachePartRun(m, w, before, zero);
    CachePartResults(m, w, before, zero);
    var f1 := RunTops(m.values, w, CachePart(m), Start(before, zero));
    RunningCallIsMeant(m, w, f1);
  }

  lemma CachePartResults(m: Method, w: World, before: Trace, zero: Values)
    requires !Hit(m, w, before)
    ensures AllScoped(CachePart(m))
    ensures RunTops(m.values, w, CachePart(m), Start(before, zero)).s.r == LookedUp(m, w, before, zero)
  {
    hide RunTops;
    var v, f := m.values, Start(before, zero);
    var b0 := if m.cacheable then [CacheLookup] else [];
    RunFirst(v, w, m.cacheable, CacheLookup, f);
    RunOptional(v, w, b0, m.evict, EvictKey, f);
  }

  lemma RunningCallIsMeant(m: Method, w: World, f1: Frame)
    requires !f1.returned && f1.deferred == [] && f1.own == Root && f1.s.err.None?
    ensures AllScoped(Brackets(m)) && AllScoped(Finishing(m)) && Scoped(CoreOf(m))
    ensures
      var f2 := RunTops(m.values, w, Brackets(m), f1);
      var f3 := RunTop(m.values, w, Core(CoreOf(m)), f2);
      var f4 := RunTops(m.values, w, Finishing(m), f3);
      var at := |f1.s.trace|;
      var (s, err) := CoreMeant(m, w, OwnContext(m, at), f1.s.(trace := f1.s.trace + Opens(m, at)));
      RunDeferred(f4.deferred, f4.s) ==
        State(s.trace + Outcome(m, w, s.(err := err)) + Closes(m, at, err), s.r, err)
  {
    var at := |f1.s.trace|;
    BracketsRun(m, w, f1);
    var f2 := RunTops(m.values, w, Brackets(m), f1);
    CoreIsMeant(m, w, f2.own, f2.s);
    var f3 := RunTop(m.values, w, Core(CoreOf(m)), f2);
    FinishingRun(m, w, f3);
    var f4 := RunTops(m.values, w, Finishing(m), f3);
    ClosesRun(m, at, f4.s);
    hide Brackets, Finishing, CoreOf, RunTops, RunDeferred, Opens, Closes, Outcome, CoreMeant, RunStmt;
    hide OwnContext, Defers;
  }

  /** With gates that always admit, the whole call is the same as without gates. */
  lemma GatesThatAdmitChangeNothing(m: Method, w: World, before: Trace, zero: Values)
    requires AlwaysAdmits(w)
    ensures Invoke(m, w, before, zero) == Invoke(Ungate(m), w, before, zero)
  {
    var u := Ungate(m);
    SameParts(m);
    InvokeParts(m, w, before, zero);
    InvokeParts(u, w, before, zero);
    CachePartRun(m, w, before, zero);
    var f1 := RunTops(m.values, w, CachePart(m), Start(before, zero));
    hide CachePart, Brackets, Finishing, CoreOf, RunTops, RunDeferred, UngatedCore, Invoke, AlwaysAdmits;
    if f1.returned {
      ReturnedStays(m.values, w, Brackets(m), f1);
    } else {
      SameCore(m, w, f1);
    }
  }

  lemma SameParts(m: Method)
    ensures var u := Ungate(m);
      CachePart(u) == CachePart(m) && Brackets(u) == Brackets(m) && Finishing(u) == Finishing(m) && u.values == m.values
  {
  }

  lemma SameCore(m: Method, w: World, f1: Frame)
    requires AlwaysAdmits(w) && !f1.returned && f1.own == Root && f1.deferred == [] && f1.s.err.None?
    ensures AllScoped(Brackets(m)) && Scoped(CoreOf(m)) && Scoped(CoreOf(Ungate(m)))
    ensures var f2 := RunTops(m.values, w, Brackets(m), f1);
      RunTop(m.values, w, Core(CoreOf(m)), f2) == RunTop(m.values, w, Core(CoreOf(Ungate(m))), f2)
  {
    BracketsRun(m, w, f1);
    var f2 := RunTops(m.values, w, Brackets(m), f1);
    GatedIsUngated(m, w, f2.own, f2.s);
    assert CoreOf(Ungate(m)) == UngatedCore(m);
    hide Brackets, CoreOf, RunTops, UngatedCore, RunStmt;
  }

  // ---- how often the target runs ----

  function TargetRuns(t: Trace): nat {
    if t == [] then 0 else (if t[0].Target? then 1 else 0) + TargetRuns(t[1..])
  }

  lemma {:induction false} TargetRunsConcat(a: Trace, b: Trace)
    ensures TargetRuns(a + b) == TargetRuns(a) + TargetRuns(b)
  {
    if a == [] {
      assert a + b == b;
    } else {
      assert (a + b)[1..] == a[1..] + b;
      TargetRunsConcat(a[1..], b);
    }
  }

  lemma TargetRunsOnce(a: Attempt, c: Context, at: nat)
    ensures TargetRuns(a.Events(c, at)) == if a.BeginFailed? then 0 else 1
  {
    match a {
      case Direct(ok) => RunsOfOne(Target(c, ok));
      case BeginFailed => RunsOfOne(Begin(at, false));
      case RolledBack => RunsOfThree(Begin(at, true), Target(Tx(c, at), false), Rollback(at));
      case Committed(ok) => RunsOfThree(Begin(at, true), Target(Tx(c, at), true), Commit(at, ok));
    }
  }

  lemma RunsOfOne(x: Event)
    ensures TargetRuns([x]) == if x.Target? then 1 else 0
  {
    assert [x][1..] == [];
  }

  lemma RunsOfThree(x: Event, y: Event, z: Event)
    ensures TargetRuns([x, y, z]) == TargetRuns([x]) + TargetRuns([y]) + TargetRuns([z])
  {
    assert [x, y, z] == [x] + ([y] + [z]);
    TargetRunsConcat([x], [y] + [z]);
    TargetRunsConcat([y], [z]);
  }

  /** Pauses run nothing. */
  lemma NoTargetRuns(work: Work)
    requires work.Shaped()
    ensures TargetRuns([]) == 0
    ensures |work.pauses| > 0 ==>
      TargetRuns([Pause(work.pauses[0], true)]) == TargetRuns([Pause(work.pauses[0], false)]) == 0
  {
    if |work.pauses| > 0 {
      RunsOfOne(Pause(work.pauses[0], true));
      RunsOfOne(Pause(work.pauses[0], false));
    }
  }

  lemma {:induction false} TargetRunsOfWork(work: Work, c: Context, at: nat)
    requires work.Shaped()
    ensures TargetRuns(work.Events(c, at)) <= |work.attempts|
    decreases |work.attempts|
  {
    hide Attempt.Events, TargetRuns;
    var first := work.attempts[0].Events(c, at);
    NoTargetRuns(work);
    TargetRunsOnce(work.attempts[0], c, at);
    if |work.attempts| == 1 {
      TargetRunsConcat(first, if work.cancelled then [Pause(work.pauses[0], true)] else []);
    } else {
      var rest := Work(work.attempts[1..], work.pauses[1..], work.cancelled);
      TargetRunsOfWork(rest, c, at + |first| + 1);
      TargetRunsConcat(first, [Pause(work.pauses[0], false)]);
      TargetRunsConcat(first + [Pause(work.pauses[0], false)], rest.Events(c, at + |first| + 1));
    }
  }

  /** A gate or the authorizer says no. */
  predicate SaysNo(e: Event) {
    e.Rejected? || (e.AuthCheck? && !e.ok)
  }

  ghost predicate Quiet(t: Trace) {
    forall e :: e in t ==> !SaysNo(e) && !e.Target?
  }

  lemma {:induction false} QuietRunsNothing(t: Trace)
    requires Quiet(t)
    ensures TargetRuns(t) == 0
  {
    if t != [] {
      assert t[0] in t;
      QuietRunsNothing(t[1..]);
    }
  }

  lemma {:induction false} WorkIsNotTurnedAway(work: Work, c: Context, at: nat)
    requires work.Shaped()
    ensures forall e :: e in work.Events(c, at) ==> !SaysNo(e)
    decreases |work.attempts|
  {
    var first := work.attempts[0].Events(c, at);
    assert forall e :: e in first ==> !SaysNo(e);
    hide Attempt.Events;
    if |work.attempts| > 1 {
      WorkIsNotTurnedAway(Work(work.attempts[1..], work.pauses[1..], work.cancelled), c, at + |first| + 1);
    }
  }

  /** In the core the target runs within the limit, and not at all when a gate or the authorizer says no. */
  lemma CoreRunsTarget(m: Method, core: CoreRun, failed: bool, c: Context, at: nat)
    requires core.Allowed(m, failed)
    ensures TargetRuns(core.Events(m, c, at)) <= Limit(m)
    ensures (exists e :: e in core.Events(m, c, at) && SaysNo(e)) ==> TargetRuns(core.Events(m, c, at)) == 0
  {
    hide Work.Events;
    match core {
      case TurnedAway(gate) => RunsOfOne(Rejected(gate));
      case Denied => RunsOfOne(AuthCheck(c, false));
      case Worked(work) =>
        TargetRunsOfWork(work, c, at);
        TargetRunsOfWork(work, c, at + 1);
        WorkIsNotTurnedAway(work, c, at);
        WorkIsNotTurnedAway(work, c, at + 1);
        RunsOfOne(AuthCheck(c, true));
        TargetRunsConcat([AuthCheck(c, true)], work.Events(c, at + 1));
    }
  }

  /** The events of a call that is not answered by the cache: the core, and quiet ones around it. */
  lemma CallEvents(m: Method, w: World, before: Trace, s: State, core: CoreRun) returns (opening: Trace, closing: Trace)
    requires IsBracketed(m, w, before, s, core)
    ensures Quiet(opening) && Quiet(closing)
    ensures var at := |before| + |Lookup(m, w, before)|;
      s.trace == before + (opening + core.Events(m, OwnContext(m, at), |before| + |opening|) + closing)
  {
    hide CoreRun.Events, Outcome, Closes, Opens, Lookup, OwnContext, CoreRun.Allowed;
    var start := before + Lookup(m, w, before);
    opening := Lookup(m, w, before) + Opens(m, |start|);
    closing := Outcome(m, w, s) + Closes(m, |start|, s.err);
    var inner := core.Events(m, OwnContext(m, |start|), |start| + |Opens(m, |start|)|);
    FiveParts(before, Lookup(m, w, before), Opens(m, |start|), inner, Outcome(m, w, s), Closes(m, |start|, s.err));
    QuietParts(m, w, before, s, |start|);
    assert s.trace
        == before + Lookup(m, w, before) + Opens(m, |start|) + inner + Outcome(m, w, s) + Closes(m, |start|, s.err);
  }

  lemma QuietParts(m: Method, w: World, before: Trace, s: State, at: nat)
    ensures Quiet(Lookup(m, w, before) + Opens(m, at)) && Quiet(Outcome(m, w, s) + Closes(m, at, s.err))
  {
    QuietOutcome(m, w, s);
    QuietCloses(m, at, s.err);
    hide Outcome, Closes, SaysNo;
    assert Quiet(Lookup(m, w, before)) && Quiet(Opens(m, at)) by { QuietOpens(m, w, before, at); }
  }

  lemma QuietOpens(m: Method, w: World, before: Trace, at: nat)
    ensures Quiet(Lookup(m, w, before)) && Quiet(Opens(m, at))
  {
  }

  lemma QuietOutcome(m: Method, w: World, s: State)
    ensures Quiet(Outcome(m, w, s))
  {
  }

  lemma QuietCloses(m: Method, at: nat, err: Option<Error>)
    ensures Quiet(Closes(m, at, err))
  {
  }

  lemma FiveParts(before: Trace, a: Trace, b: Trace, inner: Trace, d: Trace, e: Trace)
    ensures before + a + b + inner + d + e == before + ((a + b) + inner + (d + e))
  {
  }

  /**
   A call runs the target at most max(1, MaxAttempts) times, and not at all when the cache answers, a gate turns the
   call away or authorization is denied.
   */
  lemma TargetRunsWithinLimit(m: Method, w: World, before: Trace, zero: Values)
    ensures var s := Invoke(m, w, before, zero);
      && before <= s.trace
      && var events := s.trace[|before|..];
      && TargetRuns(events) <= Limit(m)
      && (Hit(m, w, before) || (exists e :: e in events && SaysNo(e)) ==> TargetRuns(events) == 0)
  {
    hide Invoke, Hit, CoreRun.Events, SaysNo, IsBracketed, Quiet, TargetRuns, Limit;
    var s := Invoke(m, w, before, zero);
    if Hit(m, w, before) {
      HitAnswersAtOnce(m, w, before, zero);
      RunsOfOne(CacheGet(true));
      assert s.trace[|before|..] == [CacheGet(true)];
    } else {
      var core := CallsAreWellBracketed(m, w, before, zero);
      var opening, closing := CallEvents(m, w, before, s, core);
      var at := |before| + |Lookup(m, w, before)|;
      var inner := core.Events(m, OwnContext(m, at), |before| + |opening|);
      assert s.trace[|before|..] == opening + inner + closing;
      QuietRunsNothing(opening);
      QuietRunsNothing(closing);
      TargetRunsConcat(opening, inner);
      TargetRunsConcat(opening + inner, closing);
      CoreRunsTarget(m, core, s.err.Some?, OwnContext(m, at), |before| + |opening|);
      if e :| e in s.trace[|before|..] && SaysNo(e) { OnlyInside(opening, inner, closing, e); }
    }
  }

  lemma OnlyInside(opening: Trace, inner: Trace, closing: Trace, e: Event)
    requires Quiet(opening) && Quiet(closing) && e in opening + inner + closing && SaysNo(e)
    ensures e in inner
  {
    hide SaysNo;
  }

  // ---- every attempt has its own transaction ----

  /** Event i of t, with at events before t, is a target call framed by the transaction that begins just before it. */
  ghost predicate InOwnTransaction(t: Trace, i: nat, c: Context, at: nat)
    requires i < |t|
  {
    t[i].Target? ==>
      && 1 <= i < |t| - 1 && t[i - 1] == Begin(at + i - 1, true) && t[i].ctx == Tx(c, at + i - 1)
      && (if t[i].ok then t[i + 1].Commit? && t[i + 1].id == at + i - 1 else t[i + 1] == Rollback(at + i - 1))
  }

  ghost predicate Framed(t: Trace, c: Context, at: nat) {
    forall i :: 0 <= i < |t| ==> InOwnTransaction(t, i, c, at)
  }

  lemma FrameConcat(a: Trace, b: Trace, c: Context, at: nat)
    requires Framed(a, c, at) && Framed(b, c, at + |a|)
    ensures Framed(a + b, c, at)
  {
    forall i | 0 <= i < |a + b| ensures InOwnTransaction(a + b, i, c, at) {
      if i < |a| {
        assert InOwnTransaction(a, i, c, at);
      } else {
        assert InOwnTransaction(b, i - |a|, c, at + |a|);
      }
    }
  }

  lemma AttemptIsFramed(a: Attempt, c: Context, at: nat)
    requires !a.Direct?
    ensures Framed(a.Events(c, at), c, at)
  {
  }

  lemma {:induction false} AttemptsAreFramed(work: Work, c: Context, at: nat)
    requires work.Shaped() && forall i :: 0 <= i < |work.attempts| ==> !work.attempts[i].Direct?
    ensures Framed(work.Events(c, at), c, at)
    decreases |work.attempts|
  {
    hide Framed, Attempt.Events;
    var first := work.attempts[0].Events(c, at);
    AttemptIsFramed(work.attempts[0], c, at);
    if |work.attempts| == 1 {
      if work.cancelled {
        NoTargetIsFramed(Pause(work.pauses[0], true), c, at + |first|);
        FrameConcat(first, [Pause(work.pauses[0], true)], c, at);
      } else {
        assert first + [] == first;
      }
    } else {
      var rest := Work(work.attempts[1..], work.pauses[1..], work.cancelled);
      var pause := [Pause(work.pauses[0], false)];
      NoTargetIsFramed(Pause(work.pauses[0], false), c, at + |first|);
      FrameConcat(first, pause, c, at);
      AttemptsAreFramed(rest, c, at + |first| + 1);
      FrameConcat(first + pause, rest.Events(c, at + |first| + 1), c, at);
    }
  }

  lemma NoTargetIsFramed(e: Event, c: Context, at: nat)
    requires !e.Target?
    ensures Framed([e], c, at)
  {
  }

  lemma CoreIsFramed(m: Method, core: CoreRun, failed: bool, c: Context, at: nat)
    requires m.transactional && core.Allowed(m, failed)
    ensures Framed(core.Events(m, c, at), c, at)
  {
    hide Framed, Work.Events;
    match core {
      case TurnedAway(gate) => NoTargetIsFramed(Rejected(gate), c, at);
      case Denied => NoTargetIsFramed(AuthCheck(c, false), c, at);
      case Worked(work) =>
        AttemptsAreFramed(work, c, at);
        AttemptsAreFramed(work, c, at + 1);
        NoTargetIsFramed(AuthCheck(c, true), c, at);
        FrameConcat([AuthCheck(c, true)], work.Events(c, at + 1), c, at);
    }
  }

  lemma QuietIsFramed(t: Trace, c: Context, at: nat)
    requires Quiet(t)
    ensures Framed(t, c, at)
  {
    forall i | 0 <= i < |t| ensures !t[i].Target? { assert t[i] in t; }
  }

  /**
   In a transactional method every run of the target is framed by a transaction of its own: it begins just before, the
   target gets its context, and it is committed or rolled back just after, as the target's error says. The position of
   the beginning identifies the transaction, so no two runs share one.
   */
  lemma EachRunHasItsOwnTransaction(m: Method, w: World, before: Trace, zero: Values)
    requires m.transactional
    ensures var t := Invoke(m, w, before, zero).trace;
      before <= t && Framed(t[|before|..], OwnContext(m, |before| + |Lookup(m, w, before)|), |before|)
  {
    hide Invoke, Hit, CoreRun.Events, IsBracketed, Framed;
    var s, c := Invoke(m, w, before, zero), OwnContext(m, |before| + |Lookup(m, w, before)|);
    if Hit(m, w, before) {
      HitAnswersAtOnce(m, w, before, zero);
      assert s.trace[|before|..] == [CacheGet(true)];
      NoTargetIsFramed(CacheGet(true), c, |before|);
    } else {
      var core := CallsAreWellBracketed(m, w, before, zero);
      var opening, closing := CallEvents(m, w, before, s, core);
      var inner := core.Events(m, c, |before| + |opening|);
      assert s.trace[|before|..] == opening + inner + closing;
      QuietIsFramed(opening, c, |before|);
      CoreIsFramed(m, core, s.err.Some?, c, |before| + |opening|);
      FrameConcat(opening, inner, c, |before|);
      QuietIsFramed(closing, c, |before| + |opening + inner|);
      FrameConcat(opening + inner, closing, c, |before|);
    }
  }
}
