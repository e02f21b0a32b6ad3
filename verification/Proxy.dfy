/**
 generator/di/proxy.go: the generated interception method. The renderers produce statements of a small language instead
 of text; the second half says what those statements do.
 */
module Proxy {
  import opened Model
  import Retry

  /** model.InterceptedMethod, reduced to what shapes the method; values: it returns more than an error. */
  datatype Method = Method(
    values: bool,
    cacheable: bool,
    evict: bool,
    timeout: bool,
    traced: bool,
    logged: bool,
    audit: bool,
    bulkhead: bool,
    breaker: bool,
    rateLimit: bool,
    authorize: bool,
    retry: Option<Retry.Policy>,
    transactional: bool,
    timed: bool)
  {
    predicate Gated() {
      breaker || rateLimit || bulkhead
    }
  }

  datatype Gate = RateLimiter | CircuitBreaker | Bulkhead

  /** The method's own context variable, or the parameter ctx of the innermost closure. */
  datatype Name = CtxVar | Ctx

  /** Calls that return an error. Their last argument is a closure func(ctx) error with the given body. */
  datatype Expr =
    | WithinTransaction(arg: Name, body: Block)
    | CallRetry(policy: Retry.Policy, arg: Name, body: Block)
    | Execute(gate: Gate, arg: Name, body: Block)

  datatype Block =
    | Return(expr: Expr)
    | ReturnTarget(arg: Name)                     // var e error; r, e = p.target.M(arg, ...); return e
    | IfDenied(arg: Name, rest: Block)            // if err := p.authorizer.Authorize(arg, ...); ... { return err }

  datatype Stmt =
    | AssignErr(expr: Expr)                       // err = expr
    | AssignTarget(arg: Name)                     // r, err = p.target.M(arg, ...)
    | IfAuthorized(arg: Name, body: Stmt)         // if err = p.authorizer.Authorize(arg, ...); err == nil { body }

  datatype Top =
    | CacheLookup
    | EvictKey
    | WithTimeout
    | BeginSpan
    | BeginLog
    | DeferAudit
    | Core(stmt: Stmt)
    | RecordMetrics
    | StoreResult
    | EvictEntry

  // ---- rendering ----

  function RenderCore(m: Method): Stmt {
    if m.retry.Some? then
      AssignErr(CallRetry(m.retry.value, CtxVar,
        if m.transactional then Return(WithinTransaction(Ctx, ReturnTarget(Ctx))) else ReturnTarget(Ctx)))
    else if m.transactional then AssignErr(WithinTransaction(CtxVar, ReturnTarget(Ctx)))
    else AssignTarget(CtxVar)
  }

  function RenderGuardedBody(m: Method): Block {
    var work :=
      if m.retry.Some? then
        Return(CallRetry(m.retry.value, Ctx,
          if m.transactional then Return(WithinTransaction(Ctx, ReturnTarget(Ctx))) else ReturnTarget(Ctx)))
      else if m.transactional then Return(WithinTransaction(Ctx, ReturnTarget(Ctx)))
      else ReturnTarget(Ctx);
    if m.authorize then IfDenied(Ctx, work) else work
  }

  /** From the innermost gate to the outermost. */
  function Gates(m: Method): seq<Gate> {
    (if m.rateLimit then [RateLimiter] else []) + (if m.breaker then [CircuitBreaker] else [])
    + (if m.bulkhead then [Bulkhead] else [])
  }

  /** The first n of the gates around the guarded closure; only the outermost of all takes the method's own context. */
  function Wrapped(gates: seq<Gate>, guarded: Block, n: nat): Expr
    requires 1 <= n <= |gates|
  {
    Execute(gates[n - 1], if n == |gates| then CtxVar else Ctx,
            if n == 1 then guarded else Return(Wrapped(gates, guarded, n - 1)))
  }

  method RenderGatedCore(m: Method) returns (expr: Expr)
    requires m.Gated()
    ensures Gates(m) != [] && expr == Wrapped(Gates(m), RenderGuardedBody(m), |Gates(m)|)
  {
    var guarded := RenderGuardedBody(m);
    var gates := [];
    if m.rateLimit { gates := gates + [RateLimiter]; }
    if m.breaker { gates := gates + [CircuitBreaker]; }
    if m.bulkhead { gates := gates + [Bulkhead]; }
    assert gates == Gates(m);
    expr := Execute(gates[0], CtxVar, guarded);
    for i := 0 to |gates|
      invariant i > 0 ==> expr == Wrapped(gates, guarded, i)
    {
      var ctxArg := if i == |gates| - 1 then CtxVar else Ctx;
      var inner := if i == 0 then guarded else Return(expr);
      expr := Execute(gates[i], ctxArg, inner);
    }
  }

  function CoreOf(m: Method): Stmt {
    if m.Gated() then AssignErr(Wrapped(Gates(m), RenderGuardedBody(m), |Gates(m)|)) else UngatedCore(m)
  }

  function UngatedCore(m: Method): Stmt {
    if m.authorize then IfAuthorized(CtxVar, RenderCore(m)) else RenderCore(m)
  }

  function CachePart(m: Method): seq<Top> {
    (if m.cacheable then [CacheLookup] else []) + if m.evict then [EvictKey] else []
  }

  function Brackets(m: Method): seq<Top> {
    (if m.timeout then [WithTimeout] else []) + (if m.traced then [BeginSpan] else [])
    + (if m.logged then [BeginLog] else []) + if m.audit then [DeferAudit] else []
  }

  function Finishing(m: Method): seq<Top> {
    (if m.timed then [RecordMetrics] else []) + (if m.cacheable then [StoreResult] else [])
    + if m.evict then [EvictEntry] else []
  }

  function Rendered(m: Method): seq<Top> {
    CachePart(m) + Brackets(m) + [Core(CoreOf(m))] + Finishing(m)
  }

  method RenderInterceptedMethod(m: Method) returns (b: seq<Top>)
    ensures b == Rendered(m)
  {
    hide Brackets, Finishing, Wrapped, RenderCore, RenderGuardedBody;
    b := [];
    if m.cacheable { b := b + [CacheLookup]; }
    if m.evict { b := b + [EvictKey]; }
    assert b == CachePart(m);
    hide CachePart;
    b := RenderBrackets(m, b);
    if m.breaker || m.rateLimit || m.bulkhead {
      var expr := RenderGatedCore(m);
      b := b + [Core(AssignErr(expr))];
    } else if m.authorize {
      b := b + [Core(IfAuthorized(CtxVar, RenderCore(m)))];
    } else {
      b := b + [Core(RenderCore(m))];
    }
    b := RenderFinishing(m, b);
  }

  method RenderBrackets(m: Method, before: seq<Top>) returns (b: seq<Top>)
    ensures b == before + Brackets(m)
  {
    b := [];
    if m.timeout { b := b + [WithTimeout]; }
    if m.traced { b := b + [BeginSpan]; }
    if m.logged { b := b + [BeginLog]; }
    if m.audit { b := b + [DeferAudit]; }
    assert b == Brackets(m);
    b := before + b;
  }

  method RenderFinishing(m: Method, before: seq<Top>) returns (b: seq<Top>)
    ensures b == before + Finishing(m)
  {
    b := [];
    if m.timed { b := b + [RecordMetrics]; }
    if m.cacheable { b := b + [StoreResult]; }
    if m.evict { b := b + [EvictEntry]; }
    assert b == Finishing(m);
    b := before + b;
  }

  // ---- running ----

  type Error = string
  type Values = string
  type Bytes = string

  datatype Context = Root | Deadline(parent: Context) | Span(parent: Context, id: nat) | Tx(parent: Context, id: nat)

  /** What the collaborators see. Spans and transactions are identified by the length of the trace when they begin. */
  datatype Event =
    | CacheGet(hit: bool) | CacheSet(data: Bytes) | CacheDelete
    | SpanBegin(id: nat) | SpanEnd(id: nat, err: Option<Error>)
    | LogBegin | LogEnd(err: Option<Error>)
    | Audited(err: Option<Error>)
    | Cancel
    | Rejected(gate: Gate)
    | AuthCheck(ctx: Context, ok: bool)
    | Begin(id: nat, ok: bool) | Commit(id: nat, ok: bool) | Rollback(id: nat)
    | Target(ctx: Context, ok: bool)
    | Pause(delay: int, cancelled: bool)
    | RecordSuccess | RecordFailure

  type Trace = seq<Event>

  /** What the collaborators do, given everything that happened before; None is the absence of an error. */
  datatype World = World(
    lookup: (Trace, Context) -> Option<Bytes>,
    unmarshal: Bytes -> (Values, bool),
    marshal: Values -> Option<Bytes>,
    admit: (Trace, Gate, Context) -> Option<Error>,
    authorize: (Trace, Context) -> Option<Error>,
    begin: (Trace, Context) -> Option<Error>,
    commit: (Trace, nat) -> Option<Error>,
    target: (Trace, Context) -> (Values, Option<Error>),
    pause: (Trace, Context, int) -> Option<Error>)

  /** r holds the named results, err the named error. */
  datatype State = State(trace: Trace, r: Values, err: Option<Error>)

  function Log(s: State, e: Event): State {
    s.(trace := s.trace + [e])
  }

  function ValueOf(name: Name, own: Context, ctx: Context): Context {
    match name
    case CtxVar => own
    case Ctx => ctx
  }

  /** p.target.M(c, ...), assigning the values if there are any. */
  function CallTarget(values: bool, w: World, c: Context, s: State): (State, Option<Error>) {
    var (r, e) := w.target(s.trace, c);
    (Log(if values then s.(r := r) else s, Target(c, e.None?)), e)
  }

  function CallAuthorize(w: World, c: Context, s: State): (State, Option<Error>) {
    var e := w.authorize(s.trace, c);
    (Log(s, AuthCheck(c, e.None?)), e)
  }

  /** The wait between two attempts. */
  function Waiting(w: World, c: Context): (State, int) -> (State, Option<Error>) {
    (s: State, d: int) => var e := w.pause(s.trace, c, d); (Log(s, Pause(d, e.Some?)), e)
  }

  /** A closure with this body, created where the method's own context is own and called with c. */
  function Closure(values: bool, w: World, own: Context, c: Context, body: Block): State -> (State, Option<Error>)
    decreases body, 1
  {
    (s: State) => Run(values, w, own, c, body, s)
  }

  function Eval(values: bool, w: World, own: Context, ctx: Context, e: Expr, s: State): (State, Option<Error>)
    decreases e, 0
  {
    var c := ValueOf(e.arg, own, ctx);
    match e
    case CallRetry(policy, _, body) =>
      Retry.RetryFrom(policy, Closure(values, w, own, c, body), Waiting(w, c), 0, policy.delay, s)
    case Execute(gate, _, body) =>
      var rejection := w.admit(s.trace, gate, c);
      if rejection.Some? then (Log(s, Rejected(gate)), rejection) else Run(values, w, own, c, body, s)
    case WithinTransaction(_, body) =>
      var id := |s.trace|;
      var failed := w.begin(s.trace, c);
      if failed.Some? then (Log(s, Begin(id, false)), failed)
      else
        var (s', err) := Run(values, w, own, Tx(c, id), body, Log(s, Begin(id, true)));
        if err.Some? then (Log(s', Rollback(id)), err)
        else
          var e := w.commit(s'.trace, id);
          (Log(s', Commit(id, e.None?)), e)
  }

  function Run(values: bool, w: World, own: Context, ctx: Context, b: Block, s: State): (State, Option<Error>)
    decreases b, 0
  {
    match b
    case Return(e) => Eval(values, w, own, ctx, e, s)
    case ReturnTarget(arg) => CallTarget(values, w, ValueOf(arg, own, ctx), s)
    case IfDenied(arg, rest) =>
      var (s', err) := CallAuthorize(w, ValueOf(arg, own, ctx), s);
      if err.Some? then (s', err) else Run(values, w, own, ctx, rest, s')
  }

  /** Statements stand outside every closure, where there is no ctx: they may only name the method's own context. */
  predicate Scoped(stmt: Stmt) {
    match stmt
    case AssignErr(e) => e.arg == CtxVar
    case AssignTarget(arg) => arg == CtxVar
    case IfAuthorized(arg, body) => arg == CtxVar && Scoped(body)
  }

  function RunStmt(values: bool, w: World, own: Context, stmt: Stmt, s: State): State
    requires Scoped(stmt)
  {
    match stmt
    case AssignErr(e) => var (s', err) := Eval(values, w, own, own, e, s); s'.(err := err)
    case AssignTarget(_) => var (s', err) := CallTarget(values, w, own, s); s'.(err := err)
    case IfAuthorized(_, body) =>
      var (s', err) := CallAuthorize(w, own, s);
      if err.Some? then s'.(err := err) else RunStmt(values, w, own, body, s'.(err := err))
  }

  datatype Deferred = CancelCall | EndSpan(id: nat) | EndLog | RecordAudit

  /** The activation of the method: its variables, its own context, and the deferred calls in order of deferring. */
  datatype Frame = Frame(s: State, own: Context, deferred: seq<Deferred>, returned: bool)

  function RunTop(values: bool, w: World, top: Top, f: Frame): Frame
    requires top.Core? ==> Scoped(top.stmt)
  {
    if f.returned then f
    else
      match top
      case CacheLookup =>
        var data := w.lookup(f.s.trace, f.own);
        var s := Log(f.s, CacheGet(data.Some?));
        if data.None? then f.(s := s)
        else
          var (r, ok) := w.unmarshal(data.value);
          f.(s := s.(r := r), returned := ok)
      case EvictKey => f
      case WithTimeout => f.(own := Deadline(f.own), deferred := f.deferred + [CancelCall])
      case BeginSpan =>
        var id := |f.s.trace|;
        f.(s := Log(f.s, SpanBegin(id)), own := Span(f.own, id), deferred := f.deferred + [EndSpan(id)])
      case BeginLog => f.(s := Log(f.s, LogBegin), deferred := f.deferred + [EndLog])
      case DeferAudit => f.(deferred := f.deferred + [RecordAudit])
      case Core(stmt) => f.(s := RunStmt(values, w, f.own, stmt, f.s))
      case RecordMetrics =>
        if f.s.err.Some? then f.(s := Log(f.s, RecordFailure), returned := true) else f.(s := Log(f.s, RecordSuccess))
      case StoreResult =>
        if f.s.err.Some? || w.marshal(f.s.r).None? then f else f.(s := Log(f.s, CacheSet(w.marshal(f.s.r).value)))
      case EvictEntry => if f.s.err.Some? then f else f.(s := Log(f.s, CacheDelete))
  }

  ghost predicate AllScoped(tops: seq<Top>) {
    forall i :: 0 <= i < |tops| && tops[i].Core? ==> Scoped(tops[i].stmt)
  }

  function RunTops(values: bool, w: World, tops: seq<Top>, f: Frame): Frame
    requires AllScoped(tops)
    decreases |tops|
  {
    if tops == [] then f else RunTops(values, w, tops[1..], RunTop(values, w, tops[0], f))
  }

  function CallOf(d: Deferred, err: Option<Error>): Event {
    match d
    case CancelCall => Cancel
    case EndSpan(id) => SpanEnd(id, err)
    case EndLog => LogEnd(err)
    case RecordAudit => Audited(err)
  }

  /** Deferred calls run in reverse order and observe the final error. */
  function RunDeferred(deferred: seq<Deferred>, s: State): State {
    if deferred == [] then s
    else RunDeferred(deferred[..|deferred| - 1], Log(s, CallOf(deferred[|deferred| - 1], s.err)))
  }

  lemma CoreIsScoped(m: Method)
    ensures Scoped(CoreOf(m)) && Scoped(UngatedCore(m))
  {
  }

  lemma RenderedIsScoped(m: Method)
    ensures AllScoped(Rendered(m))
  {
    CoreIsScoped(m);
    assert forall t :: t in CachePart(m) || t in Brackets(m) || t in Finishing(m) ==> !t.Core?;
    hide CoreOf, CachePart, Brackets, Finishing, Scoped;
    assert forall t :: t in Rendered(m) && t.Core? ==> t == Core(CoreOf(m));
  }

  /** A call of the generated method when the given things have happened before. */
  function Invoke(m: Method, w: World, before: Trace, zero: Values): State {
    RenderedIsScoped(m);
    var f := RunTops(m.values, w, Rendered(m), Frame(State(before, zero, None), Root, [], false));
    RunDeferred(f.deferred, f.s)
  }
}
