/** The token bucket of runtime/ratelimit.go, over real numbers. */
module RateLimit {

  datatype Config = Config(limit: int, period: int, burst: int) {
    predicate Valid() {
      limit >= 1 && period >= 1 && burst >= 1
    }

    /** Tokens per nanosecond. */
    function Rate(): real
      requires Valid()
    {
      limit as real / period as real
    }
  }

  const SECOND := 1_000_000_000

  /** newTokenBucket: a field that is not positive falls back to its default. */
  function WithDefaults(c: Config): (r: Config)
    ensures r.Valid() && (c.Valid() ==> r == c)
    ensures (c.limit <= 0 ==> r.limit == 100) && (c.limit > 0 ==> r.limit == c.limit)
    ensures (c.period <= 0 ==> r.period == 1_000_000_000) && (c.period > 0 ==> r.period == c.period)
    ensures (c.burst <= 0 ==> r.burst == r.limit) && (c.burst > 0 ==> r.burst == c.burst)
  {
    var limit := if c.limit <= 0 then 100 else c.limit;
    Config(limit, if c.period <= 0 then SECOND else c.period, if c.burst <= 0 then limit else c.burst)
  }

  datatype Bucket = Bucket(tokens: real, lastFill: int)

  function Full(c: Config, now: int): Bucket {
    Bucket(c.burst as real, now)
  }

  /** The tokens at time now; time that goes backwards adds nothing. */
  function Refilled(c: Config, b: Bucket, now: int): real
    requires c.Valid()
  {
    var elapsed := now - b.lastFill;
    if elapsed <= 0 then b.tokens
    else
      var filled := b.tokens + elapsed as real * c.Rate();
      if filled > c.burst as real then c.burst as real else filled
  }

  function Take(c: Config, b: Bucket, now: int): (Bucket, bool)
    requires c.Valid()
  {
    var tokens := Refilled(c, b, now);
    if tokens >= 1.0 then (Bucket(tokens - 1.0, now), true) else (Bucket(tokens, now), false)
  }

  // ---- the code ----

  class TokenBucket {
    const limit: real
    const period: int
    const burst: real
    ghost const config: Config
    var tokens: real
    var lastFill: int

    ghost predicate Valid() {
      config.Valid() && limit == config.limit as real && period == config.period && burst == config.burst as real
    }

    constructor (spec: Config, now: int)
      ensures Valid() && config == WithDefaults(spec) && Current() == Full(config, now)
    {
      var c := WithDefaults(spec);
      config := c;
      limit, period, burst := c.limit as real, c.period, c.burst as real;
      tokens, lastFill := c.burst as real, now;
    }

    function Current(): Bucket
      reads this
    {
      Bucket(tokens, lastFill)
    }

    /** The first half of take. */
    method Refill(now: int)
      requires Valid()
      modifies this
      ensures Valid() && lastFill == now && tokens == Refilled(config, old(Current()), now)
    {
      var elapsed := now - lastFill;
      lastFill := now;
      if elapsed > 0 {
        var perNanosecond := limit / period as real;
        assert perNanosecond == config.Rate();
        hide Config.Rate;
        tokens := tokens + elapsed as real * perNanosecond;
        if tokens > burst { tokens := burst; }
      }
    }

    method TakeToken(now: int) returns (taken: bool)
      requires Valid()
      modifies this
      ensures (Current(), taken) == Take(config, old(Current()), now)
    {
      hide Refilled;
      Refill(now);
      if tokens >= 1.0 {
        tokens := tokens - 1.0;
        return true;
      }
      return false;
    }
  }

  // ---- runs ----

  /** The decisions for calls arriving at the given times. */
  function Decisions(c: Config, b: Bucket, times: seq<int>): (r: seq<bool>)
    requires c.Valid()
    ensures |r| == |times|
    decreases |times|
  {
    if times == [] then []
    else
      var (b', taken) := Take(c, b, times[0]);
      [taken] + Decisions(c, b', times[1..])
  }

  function After(c: Config, b: Bucket, times: seq<int>): Bucket
    requires c.Valid()
    decreases |times|
  {
    if times == [] then b else After(c, Take(c, b, times[0]).0, times[1..])
  }

  function Count(ds: seq<bool>): nat {
    if ds == [] then 0 else (if ds[0] then 1 else 0) + Count(ds[1..])
  }

  /** The clock does not run backwards. */
  ghost predicate Forward(from: int, times: seq<int>) {
    (forall i :: 0 <= i < |times| ==> from <= times[i]) && forall i, j :: 0 <= i <= j < |times| ==> times[i] <= times[j]
  }

  lemma RateIsPositive(c: Config)
    requires c.Valid()
    ensures c.Rate() > 0.0
  {
  }

  /** Tokens that the time from a to b brings. */
  function Earned(c: Config, a: int, b: int): real
    requires c.Valid()
  {
    (b - a) as real * c.Rate()
  }

  lemma EarnedIsPositive(c: Config, a: int, b: int)
    requires c.Valid() && a <= b
    ensures Earned(c, a, b) >= 0.0
  {
    RateIsPositive(c);
  }

  /** A bucket that can occur: no negative tokens and no more than the burst. */
  ghost predicate Sane(c: Config, b: Bucket) {
    0.0 <= b.tokens <= c.burst as real
  }

  /** How far the clock went forward along the times, whenever it ran backwards in between. */
  function Advance(from: int, times: seq<int>): nat
    decreases |times|
  {
    if times == [] then 0 else (if times[0] > from then times[0] - from else 0) + Advance(times[0], times[1..])
  }

  lemma {:induction false} ForwardAdvance(from: int, times: seq<int>)
    requires Forward(from, times)
    ensures Advance(from, times) == if times == [] then 0 else times[|times| - 1] - from
    decreases |times|
  {
    if times != [] {
      RestIsForward(from, times);
      ForwardAdvance(times[0], times[1..]);
    }
  }

  /** One call: the bucket stays sane, and tokens kept and taken come from the bucket or from time. */
  lemma OneTake(c: Config, b: Bucket, now: int)
    requires c.Valid() && Sane(c, b)
    ensures var (b', taken) := Take(c, b, now);
      && Sane(c, b') && b'.lastFill == now
      && b'.tokens + (if taken then 1.0 else 0.0) <= c.burst as real
      && b'.tokens + (if taken then 1.0 else 0.0)
         <= b.tokens + Earned(c, 0, if now > b.lastFill then now - b.lastFill else 0)
  {
    hide Config.Rate;
    if b.lastFill < now { EarnedIsPositive(c, b.lastFill, now); }
  }

  lemma RestIsForward(from: int, times: seq<int>)
    requires Forward(from, times) && times != []
    ensures from <= times[0] && Forward(times[0], times[1..])
  {
  }

  lemma {:induction false} TokensAreAccountedFor(c: Config, b: Bucket, times: seq<int>)
    requires c.Valid() && Sane(c, b)
    ensures Sane(c, After(c, b, times))
    ensures After(c, b, times).tokens + Count(Decisions(c, b, times)) as real
      <= b.tokens + Earned(c, 0, Advance(b.lastFill, times))
    decreases |times|
  {
    if times != [] {
      hide Take, Earned;
      OneTake(c, b, times[0]);
      var (b', taken) := Take(c, b, times[0]);
      TokensAreAccountedFor(c, b', times[1..]);
      var first := if times[0] > b.lastFill then times[0] - b.lastFill else 0;
      EarnedSum(c, first, Advance(times[0], times[1..]));
      CountFirst(taken, Decisions(c, b', times[1..]));
    } else {
      EarnedNothing(c, 0);
    }
  }

  lemma EarnedSum(c: Config, a: int, b: int)
    requires c.Valid()
    ensures Earned(c, 0, a) + Earned(c, 0, b) == Earned(c, 0, a + b)
  {
    assert a as real + b as real == (a + b) as real;
  }

  lemma EarnedNothing(c: Config, a: int)
    requires c.Valid()
    ensures Earned(c, a, a) == 0.0
  {
  }

  lemma CountFirst(d: bool, ds: seq<bool>)
    ensures Count([d] + ds) == (if d then 1 else 0) + Count(ds)
  {
    assert ([d] + ds)[1..] == ds;
  }

  /** Any calls made one after another find at most the burst and what the clock adds from the first on. */
  lemma StretchBound(c: Config, b: Bucket, times: seq<int>)
    requires c.Valid() && Sane(c, b) && times != []
    ensures Count(Decisions(c, b, times)) as real <= c.burst as real + Earned(c, 0, Advance(times[0], times[1..]))
  {
    hide Take, Earned, Advance;
    OneTake(c, b, times[0]);
    var (b', taken) := Take(c, b, times[0]);
    TokensAreAccountedFor(c, b', times[1..]);
    CountFirst(taken, Decisions(c, b', times[1..]));
  }

  lemma {:induction false} DecisionsOfStretch(c: Config, b: Bucket, times: seq<int>, i: nat, j: nat)
    requires c.Valid() && i <= j <= |times|
    ensures Decisions(c, b, times)[i..j] == Decisions(c, After(c, b, times[..i]), times[i..j])
    decreases i, |times|
  {
    hide Take;
    if i > 0 {
      var b' := Take(c, b, times[0]).0;
      DecisionsOfStretch(c, b', times[1..], i - 1, j - 1);
      assert times[..i][0] == times[0] && times[..i][1..] == times[1..][..i - 1];
      assert times[1..][i - 1..j - 1] == times[i..j];
      assert Decisions(c, b, times)[i..j] == Decisions(c, b', times[1..])[i - 1..j - 1];
    } else if j > 0 {
      var b' := Take(c, b, times[0]).0;
      DecisionsOfStretch(c, b', times[1..], 0, j - 1);
      assert times[..0] == [] && times[0..j][0] == times[0];
      assert times[0..j][1..] == times[1..][0..j - 1] && times[1..][..0] == [];
      assert Decisions(c, b, times)[0..j] == [Take(c, b, times[0]).1] + Decisions(c, b', times[1..])[0..j - 1];
    }
  }

  /**
   The bound for any clock: in any run of a new bucket, the calls from the i-th to the one before the j-th are
   admitted at most burst + limit * f / period times, f being how far the clock went forward from the first to the
   last.
   */
  lemma AnyClockBound(c: Config, start: int, times: seq<int>, i: nat, j: nat)
    requires c.Valid() && i < j <= |times|
    ensures Count(Decisions(c, Full(c, start), times)[i..j]) as real
      <= c.burst as real + Advance(times[i], times[i + 1..j]) as real * (c.limit as real / c.period as real)
  {
    var b := Full(c, start);
    hide Take, Decisions, After, Count, Advance;
    TokensAreAccountedFor(c, b, times[..i]);
    DecisionsOfStretch(c, b, times, i, j);
    StretchBound(c, After(c, b, times[..i]), times[i..j]);
    assert times[i..j][0] == times[i] && times[i..j][1..] == times[i + 1..j];
  }

  lemma ForwardStretch(from: int, times: seq<int>, i: nat, j: nat)
    requires Forward(from, times) && i < j <= |times|
    ensures Advance(times[i], times[i + 1..j]) == times[j - 1] - times[i]
  {
    var rest := times[i + 1..j];
    assert forall k :: 0 <= k < |rest| ==> rest[k] == times[i + 1 + k];
    ForwardAdvance(times[i], rest);
  }

  /**
   With a clock that does not run backwards, as the monotonic readings of time.Now do not, f is the time between the
   first and the last call.
   */
  lemma WindowBound(c: Config, start: int, times: seq<int>, i: nat, j: nat)
    requires c.Valid() && Forward(start, times) && i < j <= |times|
    ensures Count(Decisions(c, Full(c, start), times)[i..j]) as real
      <= c.burst as real + (times[j - 1] - times[i]) as real * (c.limit as real / c.period as real)
  {
    hide Forward, Decisions, Count;
    AnyClockBound(c, start, times, i, j);
    ForwardStretch(start, times, i, j);
  }

  // ---- exactly which calls are admitted ----

  /** What the clock adds from the first of the times on, in tokens. */
  function Credit(c: Config, from: int, times: seq<int>): real
    requires c.Valid()
  {
    Advance(from, times) as real * (c.limit as real / c.period as real)
  }

  /** The tokens that call n finds, when it is the i-th one that found the bucket full. */
  function Left(c: Config, times: seq<int>, taken: seq<bool>, i: nat, n: nat): real
    requires c.Valid() && i <= n < |times| && n <= |taken|
  {
    c.burst as real + Credit(c, times[i], times[i + 1..n + 1]) - Count(taken[i..n]) as real
  }

  /** The tokens in the bucket of a run when call n is decided. */
  function Found(c: Config, b: Bucket, times: seq<int>, n: nat): real
    requires c.Valid() && n < |times|
    decreases n
  {
    if n == 0 then Refilled(c, b, times[0]) else Found(c, Take(c, b, times[0]).0, times[1..], n - 1)
  }

  lemma {:induction false} DecisionIsFound(c: Config, b: Bucket, times: seq<int>, n: nat)
    requires c.Valid() && n < |times|
    ensures Decisions(c, b, times)[n] <==> Found(c, b, times, n) >= 1.0
    decreases n
  {
    hide Refilled;
    if n > 0 { DecisionIsFound(c, Take(c, b, times[0]).0, times[1..], n - 1); }
  }

  /** From one call to the next: what was left, and what the clock added, up to the burst. */
  lemma {:induction false} FoundNext(c: Config, b: Bucket, times: seq<int>, n: nat)
    requires c.Valid() && n + 1 < |times|
    ensures var left := Found(c, b, times, n) - if Decisions(c, b, times)[n] then 1.0 else 0.0;
      Found(c, b, times, n + 1) == Refilled(c, Bucket(left, times[n]), times[n + 1])
    decreases n
  {
    hide Refilled;
    var b' := Take(c, b, times[0]).0;
    if n > 0 {
      FoundNext(c, b', times[1..], n - 1);
    } else {
      assert Found(c, b, times, 1) == Found(c, b', times[1..], 0);
    }
  }

  /** Refilling, without naming the rate: what there was and what the clock adds, but no more than the burst. */
  lemma RefillIsMin(c: Config, b: Bucket, now: int)
    requires c.Valid() && b.tokens <= c.burst as real
    ensures var more := b.tokens + Credit(c, b.lastFill, [now]);
      Refilled(c, b, now) == if more > c.burst as real then c.burst as real else more
  {
    assert [now][1..] == [];
    assert Advance(b.lastFill, [now]) == if now > b.lastFill then now - b.lastFill else 0;
    if now > b.lastFill { assert Advance(b.lastFill, [now]) as real == (now - b.lastFill) as real; }
  }

  lemma {:induction false} AdvanceAppend(from: int, times: seq<int>, now: int)
    ensures Advance(from, times + [now])
      == Advance(from, times) + Advance(if times == [] then from else times[|times| - 1], [now])
    decreases |times|
  {
    if times == [] {
      assert [] + [now] == [now];
    } else {
      assert (times + [now])[1..] == times[1..] + [now];
      AdvanceAppend(times[0], times[1..], now);
    }
  }

  lemma {:induction false} CountAppend(ds: seq<bool>, d: bool)
    ensures Count(ds + [d]) == Count(ds) + if d then 1 else 0
  {
    if ds == [] {
      assert [] + [d] == [d] && [d][1..] == [];
    } else {
      assert (ds + [d])[1..] == ds[1..] + [d];
      CountAppend(ds[1..], d);
    }
  }

  lemma LeftNext(c: Config, times: seq<int>, taken: seq<bool>, i: nat, n: nat)
    requires c.Valid() && i <= n && n + 1 < |times| && n + 1 <= |taken|
    ensures Left(c, times, taken, i, n + 1)
      == Left(c, times, taken, i, n) - (if taken[n] then 1.0 else 0.0) + Credit(c, times[n], [times[n + 1]])
  {
    hide Advance;
    assert times[i + 1..n + 2] == times[i + 1..n + 1] + [times[n + 1]];
    assert taken[i..n + 1] == taken[i..n] + [taken[n]];
    AdvanceAppend(times[i], times[i + 1..n + 1], times[n + 1]);
    CountAppend(taken[i..n], taken[n]);
    var x, y := Advance(times[i], times[i + 1..n + 1]), Advance(times[n], [times[n + 1]]);
    assert (x + y) as real == x as real + y as real;
  }

  lemma LeftAtOnce(c: Config, times: seq<int>, taken: seq<bool>, n: nat)
    requires c.Valid() && n < |times| && n <= |taken|
    ensures Left(c, times, taken, n, n) == c.burst as real
  {
    assert times[n + 1..n + 1] == [] && taken[n..n] == [];
  }

  /** A new bucket holds what the least generous stretch up to now leaves. */
  lemma {:induction false} FoundIsLeast(c: Config, start: int, times: seq<int>, n: nat) returns (least: nat)
    requires c.Valid() && n < |times|
    ensures var taken := Decisions(c, Full(c, start), times); var found := Found(c, Full(c, start), times, n);
      && least <= n && found == Left(c, times, taken, least, n) <= c.burst as real
      && forall i :: 0 <= i <= n ==> found <= Left(c, times, taken, i, n)
  {
    hide Take, Refilled, Decisions, Left, Credit, Found;
    var b := Full(c, start);
    var taken := Decisions(c, b, times);
    LeftAtOnce(c, times, taken, n);
    if n == 0 {
      least := 0;
      FoundFirst(c, start, times);
    } else {
      least := FoundIsLeast(c, start, times, n - 1);
      FoundNext(c, b, times, n - 1);
      var left := Found(c, b, times, n - 1) - if taken[n - 1] then 1.0 else 0.0;
      RefillIsMin(c, Bucket(left, times[n - 1]), times[n]);
      forall i | 0 <= i < n
        ensures Left(c, times, taken, i, n) == Left(c, times, taken, i, n - 1) - (if taken[n - 1] then 1.0 else 0.0)
                                               + Credit(c, times[n - 1], [times[n]])
      {
        LeftNext(c, times, taken, i, n - 1);
      }
      if left + Credit(c, times[n - 1], [times[n]]) > c.burst as real { least := n; }
    }
  }

  lemma FoundFirst(c: Config, start: int, times: seq<int>)
    requires c.Valid() && times != []
    ensures Found(c, Full(c, start), times, 0) == c.burst as real
  {
    RefillIsMin(c, Full(c, start), times[0]);
    CreditIsPositive(c, start, [times[0]]);
  }

  lemma CreditIsPositive(c: Config, from: int, times: seq<int>)
    requires c.Valid()
    ensures Credit(c, from, times) >= 0.0
  {
    var rate := c.limit as real / c.period as real;
    assert rate >= 0.0;
    assert Advance(from, times) as real * rate >= 0.0;
  }

  /** One more call, after so many that were admitted within the time, is within the bound. */
  ghost predicate HasRoom(c: Config, admitted: nat, time: int)
    requires c.Valid()
  {
    admitted as real + 1.0 <= c.burst as real + time as real * (c.limit as real / c.period as real)
  }

  lemma LeftSays(c: Config, times: seq<int>, taken: seq<bool>, i: nat, n: nat)
    requires c.Valid() && i <= n < |times| && n <= |taken|
    ensures Left(c, times, taken, i, n) >= 1.0 <==>
      HasRoom(c, Count(taken[i..n]), Advance(times[i], times[i + 1..n + 1]))
  {
    hide Count, Advance;
  }

  /**
   Exactly when a call is admitted, whatever the clock does: call n of a new bucket gets a token if and only if no
   stretch of calls up to it would exceed its bound. That is, for every call i up to n, the calls admitted from i on
   and this one are at most the burst and limit / period for the time that the clock went forward from i to n.
   */
  lemma AdmittedExactlyWithinBounds(c: Config, start: int, times: seq<int>, n: nat)
    requires c.Valid() && n < |times|
    ensures var taken := Decisions(c, Full(c, start), times);
      taken[n] <==> forall i :: 0 <= i <= n ==> HasRoom(c, Count(taken[i..n]), Advance(times[i], times[i + 1..n + 1]))
  {
    var taken := Decisions(c, Full(c, start), times);
    DecisionIsFound(c, Full(c, start), times, n);
    var least := FoundIsLeast(c, start, times, n);
    hide Decisions, Found, Advance, Count, Left, HasRoom;
    forall i | 0 <= i <= n
      ensures Left(c, times, taken, i, n) >= 1.0 <==>
        HasRoom(c, Count(taken[i..n]), Advance(times[i], times[i + 1..n + 1]))
    {
      LeftSays(c, times, taken, i, n);
    }
  }

  /** The same with a clock that does not run backwards, in the times themselves. */
  lemma AdmittedIff(c: Config, start: int, times: seq<int>, n: nat)
    requires c.Valid() && Forward(start, times) && n < |times|
    ensures var taken := Decisions(c, Full(c, start), times);
      taken[n] <==> forall i :: 0 <= i <= n ==> HasRoom(c, Count(taken[i..n]), times[n] - times[i])
  {
    hide *;
    AdmittedExactlyWithinBounds(c, start, times, n);
    var taken := Decisions(c, Full(c, start), times);
    forall i | 0 <= i <= n
      ensures HasRoom(c, Count(taken[i..n]), Advance(times[i], times[i + 1..n + 1])) <==>
        HasRoom(c, Count(taken[i..n]), times[n] - times[i])
    {
      ForwardStretch(start, times, i, n + 1);
    }
  }

  lemma {:induction false} CountIsAtMost(ds: seq<bool>)
    ensures Count(ds) <= |ds|
  {
    if ds != [] { CountIsAtMost(ds[1..]); }
  }

  /** A new bucket admits its first burst of calls, whenever they come. */
  lemma FirstBurstIsAdmitted(c: Config, start: int, times: seq<int>, n: nat)
    requires c.Valid() && n < |times| && n < c.burst
    ensures Decisions(c, Full(c, start), times)[n]
  {
    var taken := Decisions(c, Full(c, start), times);
    AdmittedExactlyWithinBounds(c, start, times, n);
    hide Decisions, Count, Advance, HasRoom;
    forall i | 0 <= i <= n ensures HasRoom(c, Count(taken[i..n]), Advance(times[i], times[i + 1..n + 1])) {
      CountIsAtMost(taken[i..n]);
      FewHaveRoom(c, Count(taken[i..n]), Advance(times[i], times[i + 1..n + 1]));
    }
  }

  lemma FewHaveRoom(c: Config, admitted: nat, time: int)
    requires c.Valid() && admitted < c.burst && time >= 0
    ensures HasRoom(c, admitted, time)
  {
    var rate := c.limit as real / c.period as real;
    assert rate >= 0.0;
    assert time as real * rate >= 0.0;
  }

  /**
   Idle time is credited in full: when nothing came for some time before call i, then of the calls from i on as many as
   limit * time / period, though no more than the burst, are all admitted, however close together they come.
   */
  lemma IdleTimeIsCredited(c: Config, start: int, times: seq<int>, i: nat, n: nat)
    requires c.Valid() && Forward(start, times) && i <= n < |times|
    requires n - i < c.burst
    requires (n - i + 1) as real <= IdleBefore(start, times, i) as real * (c.limit as real / c.period as real)
    ensures Decisions(c, Full(c, start), times)[n]
  {
    hide *;
    var taken := Decisions(c, Full(c, start), times);
    AdmittedIff(c, start, times, n);
    forall j | 0 <= j <= n ensures HasRoom(c, Count(taken[j..n]), times[n] - times[j]) {
      if j >= i {
        TimesGrow(start, times, j, n);
        CountIsAtMost(taken[j..n]);
        FewHaveRoom(c, Count(taken[j..n]), times[n] - times[j]);
      } else {
        RoomAfterIdle(c, start, times, i, n, j);
      }
    }
  }

  /** How long nothing came before call i. */
  function IdleBefore(start: int, times: seq<int>, i: nat): int
    requires i < |times|
  {
    times[i] - if i == 0 then start else times[i - 1]
  }

  lemma TimesGrow(start: int, times: seq<int>, i: nat, j: nat)
    requires Forward(start, times) && i <= j < |times|
    ensures times[i] <= times[j]
  {
  }

  /** A stretch that began before the idle time has room after it. */
  lemma RoomAfterIdle(c: Config, start: int, times: seq<int>, i: nat, n: nat, j: nat)
    requires c.Valid() && Forward(start, times) && j < i <= n < |times|
    requires (n - i + 1) as real <= IdleBefore(start, times, i) as real * (c.limit as real / c.period as real)
    ensures HasRoom(c, Count(Decisions(c, Full(c, start), times)[j..n]), times[n] - times[j])
  {
    hide *;
    var taken := Decisions(c, Full(c, start), times);
    WindowBound(c, start, times, j, i);
    TimesGrow(start, times, j, i - 1);
    TimesGrow(start, times, i - 1, i);
    TimesGrow(start, times, i, n);
    assert taken[j..n] == taken[j..i] + taken[i..n];
    CountConcat(taken[j..i], taken[i..n]);
    CountIsAtMost(taken[i..n]);
    assert IdleBefore(start, times, i) == times[i] - times[i - 1] by { IdleIs(start, times, i); }
    IdleHasRoom(c, Count(taken[j..i]), n - i, times[j], times[i - 1], times[i], times[n]);
    MoreHaveRoom(c, Count(taken[j..n]), Count(taken[j..i]) + (n - i), times[n] - times[j]);
  }

  lemma IdleIs(start: int, times: seq<int>, i: nat)
    requires 0 < i < |times|
    ensures IdleBefore(start, times, i) == times[i] - times[i - 1]
  {
  }

  lemma {:induction false} CountConcat(a: seq<bool>, b: seq<bool>)
    ensures Count(a + b) == Count(a) + Count(b)
  {
    if a == [] {
      assert a + b == b;
    } else {
      assert (a + b)[1..] == a[1..] + b;
      CountConcat(a[1..], b);
    }
  }

  lemma MoreHaveRoom(c: Config, fewer: nat, more: nat, time: int)
    requires c.Valid() && fewer <= more && HasRoom(c, more, time)
    ensures HasRoom(c, fewer, time)
  {
  }

  lemma IdleHasRoom(c: Config, before: nat, since: nat, a: int, b: int, d: int, e: int)
    requires c.Valid() && a <= b <= d <= e
    requires before as real <= c.burst as real + (b - a) as real * (c.limit as real / c.period as real)
    requires (since + 1) as real <= (d - b) as real * (c.limit as real / c.period as real)
    ensures HasRoom(c, before + since, e - a)
  {
    var rate := c.limit as real / c.period as real;
    assert rate >= 0.0;
    assert (e - a) as real == (b - a) as real + (d - b) as real + (e - d) as real;
    assert (e - d) as real * rate >= 0.0;
    Distributes((b - a) as real, (d - b) as real, (e - d) as real, rate);
  }

  lemma Distributes(x: real, y: real, z: real, rate: real)
    ensures (x + y + z) * rate == x * rate + y * rate + z * rate
  {
  }

  // ---- no policy admits more ----

  /** A policy decides for itself, but takes a token only when the same bucket holds one. */
  ghost predicate Obeys(c: Config, b: Bucket, times: seq<int>, policy: seq<bool>)
    requires c.Valid() && |policy| == |times|
    decreases |times|
  {
    times == [] ||
    (var tokens := Refilled(c, b, times[0]);
     (policy[0] ==> tokens >= 1.0) &&
     Obeys(c, Bucket(if policy[0] then tokens - 1.0 else tokens, times[0]), times[1..], policy[1..]))
  }

  /** Refilling two buckets that were filled at the same time does not drive them further apart. */
  lemma RefillKeepsDistance(c: Config, greedy: Bucket, other: Bucket, now: int, lead: int)
    requires c.Valid() && greedy.lastFill == other.lastFill && lead >= 0
    requires greedy.tokens <= c.burst as real && other.tokens <= c.burst as real
    requires other.tokens - greedy.tokens <= lead as real
    ensures Refilled(c, other, now) - Refilled(c, greedy, now) <= lead as real
    ensures Refilled(c, greedy, now) <= c.burst as real && Refilled(c, other, now) <= c.burst as real
  {
    hide Config.Rate;
  }

  /** The greedy bucket is ahead by at least the tokens it has less. */
  lemma {:induction false} GreedyStaysAhead(c: Config, greedy: Bucket, other: Bucket, times: seq<int>,
      policy: seq<bool>, lead: int)
    requires c.Valid() && |policy| == |times| && Obeys(c, other, times, policy)
    requires greedy.lastFill == other.lastFill && lead >= 0
    requires greedy.tokens <= c.burst as real && other.tokens <= c.burst as real
    requires other.tokens - greedy.tokens <= lead as real
    ensures Count(policy) <= lead + Count(Decisions(c, greedy, times))
    decreases |times|
  {
    if times != [] {
      hide Refilled;
      RefillKeepsDistance(c, greedy, other, times[0], lead);
      var g, o := Refilled(c, greedy, times[0]), Refilled(c, other, times[0]);
      var (greedy', taken) := Take(c, greedy, times[0]);
      var other' := Bucket(if policy[0] then o - 1.0 else o, times[0]);
      var lead' := lead + (if taken then 1 else 0) - if policy[0] then 1 else 0;
      GreedyStaysAhead(c, greedy', other', times[1..], policy[1..], lead');
      CountFirst(taken, Decisions(c, greedy', times[1..]));
    }
  }

  lemma {:induction false} ObeysPrefix(c: Config, b: Bucket, times: seq<int>, policy: seq<bool>, n: nat)
    requires c.Valid() && |policy| == |times| && Obeys(c, b, times, policy) && n <= |times|
    ensures Obeys(c, b, times[..n], policy[..n])
    decreases |times|
  {
    if n > 0 {
      hide Refilled;
      var tokens := Refilled(c, b, times[0]);
      assert times[..n][1..] == times[1..][..n - 1] && policy[..n][1..] == policy[1..][..n - 1];
      ObeysPrefix(c, Bucket(if policy[0] then tokens - 1.0 else tokens, times[0]), times[1..], policy[1..], n - 1);
    }
  }

  /** Optimality: in no prefix of the arrivals does any other policy on the same bucket admit more calls. */
  lemma NoPolicyAdmitsMore(c: Config, start: int, times: seq<int>, policy: seq<bool>, n: nat)
    requires c.Valid() && |policy| == |times| && Obeys(c, Full(c, start), times, policy) && n <= |times|
    ensures Count(policy[..n]) <= Count(Decisions(c, Full(c, start), times)[..n])
  {
    hide Obeys, Take;
    var b := Full(c, start);
    ObeysPrefix(c, b, times, policy, n);
    GreedyStaysAhead(c, b, b, times[..n], policy[..n], 0);
    DecisionsOfStretch(c, b, times, 0, n);
    assert times[0..n] == times[..n] && times[..0] == [];
    assert Decisions(c, b, times)[0..n] == Decisions(c, b, times)[..n];
  }

  /** A policy that decides for itself, but never admits a call for which some stretch of calls has no room. */
  ghost predicate KeepsWithinBounds(c: Config, times: seq<int>, policy: seq<bool>)
    requires c.Valid() && |policy| == |times|
  {
    forall i, n :: 0 <= i <= n < |times| && policy[n] ==>
      HasRoom(c, Count(policy[i..n]), Advance(times[i], times[i + 1..n + 1]))
  }

  /**
   Optimality among all policies that keep within the bounds, whether they have a bucket or not: none admits more calls
   in any prefix of the arrivals.
   */
  lemma {:induction false} NoBoundedPolicyAdmitsMore(c: Config, start: int, times: seq<int>, policy: seq<bool>, n: nat)
    requires c.Valid() && |policy| == |times| && KeepsWithinBounds(c, times, policy) && n <= |times|
    ensures Count(policy[..n]) <= Count(Decisions(c, Full(c, start), times)[..n])
    decreases n
  {
    hide *;
    var taken := Decisions(c, Full(c, start), times);
    if n == 0 {
      assert policy[..0] == taken[..0] == [];
    } else {
      NoBoundedPolicyAdmitsMore(c, start, times, policy, n - 1);
      CountUpTo(policy, n - 1);
      CountUpTo(taken, n - 1);
      if policy[n - 1] && !taken[n - 1] {
        var i := RejectedBecauseOf(c, start, times, n - 1);
        NoBoundedPolicyAdmitsMore(c, start, times, policy, i);
        AdmittedByPolicy(c, times, policy, i, n - 1);
        FewerHadRoom(c, Count(policy[i..n - 1]), Count(taken[i..n - 1]), Advance(times[i], times[i + 1..n]));
        CountSplit(policy, i, n - 1);
        CountSplit(taken, i, n - 1);
      }
    }
  }

  lemma CountUpTo(ds: seq<bool>, n: nat)
    requires n < |ds|
    ensures Count(ds[..n + 1]) == Count(ds[..n]) + if ds[n] then 1 else 0
  {
    assert ds[..n + 1] == ds[..n] + [ds[n]];
    CountAppend(ds[..n], ds[n]);
  }

  lemma CountSplit(ds: seq<bool>, i: nat, n: nat)
    requires i <= n <= |ds|
    ensures Count(ds[..n]) == Count(ds[..i]) + Count(ds[i..n])
  {
    assert ds[..n] == ds[..i] + ds[i..n];
    CountConcat(ds[..i], ds[i..n]);
  }

  lemma RejectedBecauseOf(c: Config, start: int, times: seq<int>, n: nat) returns (i: nat)
    requires c.Valid() && n < |times| && !Decisions(c, Full(c, start), times)[n]
    ensures i <= n
    ensures !HasRoom(c, Count(Decisions(c, Full(c, start), times)[i..n]), Advance(times[i], times[i + 1..n + 1]))
  {
    hide *;
    AdmittedExactlyWithinBounds(c, start, times, n);
    var taken := Decisions(c, Full(c, start), times);
    i :| 0 <= i <= n && !HasRoom(c, Count(taken[i..n]), Advance(times[i], times[i + 1..n + 1]));
  }

  lemma AdmittedByPolicy(c: Config, times: seq<int>, policy: seq<bool>, i: nat, n: nat)
    requires c.Valid() && |policy| == |times| && KeepsWithinBounds(c, times, policy)
    requires i <= n < |times| && policy[n]
    ensures HasRoom(c, Count(policy[i..n]), Advance(times[i], times[i + 1..n + 1]))
  {
    hide HasRoom, Count, Advance;
  }

  lemma FewerHadRoom(c: Config, fewer: nat, more: nat, time: int)
    requires c.Valid() && HasRoom(c, fewer, time) && !HasRoom(c, more, time)
    ensures fewer < more
  {
  }

  /**
   Only an injected clock can run backwards. Then the same stretch of time is credited twice, and more calls are
   admitted than its ends allow; the bound that remains, AnyClockBound, is attained.
   */
  lemma BackwardClockBreaksTheBound()
    ensures var c, times := Config(1, 1, 1), [1, 0, 1];
      && Count(Decisions(c, Full(c, 1), times)[0..3]) == 2
      && 2 as real > c.burst as real + (times[2] - times[0]) as real * c.Rate()
      && 2 as real == c.burst as real + Advance(times[0], times[1..3]) as real * c.Rate()
  {
    var c, times := Config(1, 1, 1), [1, 0, 1];
    var b := Full(c, 1);
    assert times[1..] == [0, 1] && [0, 1][1..] == [1] && [1][1..] == [];
    var b1, b2 := Bucket(0.0, 1), Bucket(0.0, 0);
    assert Take(c, b, 1) == (b1, true) && Take(c, b1, 0) == (b2, false) && Take(c, b2, 1).1;
    assert Decisions(c, b2, [1]) == [true] + [];
    assert Decisions(c, b1, [0, 1]) == [false] + [true];
    assert Decisions(c, b, times) == [true] + ([false] + [true]);
    assert Decisions(c, b, times)[0..3] == [true, false, true];
    CountFirst(true, [false, true]);
    CountFirst(false, [true]);
    CountFirst(true, []);
    assert [true, false, true] == [true] + [false, true] && [false, true] == [false] + [true] && [true] == [true] + [];
    assert times[1..3] == [0, 1] && Advance(1, [0, 1]) == Advance(0, [1]) == 1 + Advance(1, []);
  }
}
