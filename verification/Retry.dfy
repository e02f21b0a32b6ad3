/** runtime/retry.go: the retry loop, over any state that the retried function and the waiting act on. */
module Retry {
  import opened Model

  datatype Policy = Policy(maxAttempts: int, delay: int, multiplier: real, maxDelay: int)

  /** Conversion of a float to an integer: towards zero. */
  function Truncate(x: real): int {
    if x >= 0.0 then x.Floor else -((-x).Floor)
  }

  function Attempts(p: Policy): (n: nat)
    ensures n >= 1
  {
    if p.maxAttempts < 1 then 1 else p.maxAttempts
  }

  function NextDelay(p: Policy, delay: int): int {
    if p.multiplier > 1.0 then
      var d := Truncate(delay as real * p.multiplier);
      if p.maxDelay > 0 && d > p.maxDelay then p.maxDelay else d
    else delay
  }

  /** The loop from an attempt on. fn returns its error; pause waits and returns the context's error if it is done. */
  function RetryFrom<S, E>(p: Policy, fn: S -> (S, Option<E>), pause: (S, int) -> (S, Option<E>), attempt: nat,
      delay: int, s: S):
      (S, Option<E>)
    requires attempt < Attempts(p)
    decreases Attempts(p) - attempt
  {
    var (s1, err) := fn(s);
    if err.None? then (s1, None)
    else if attempt == Attempts(p) - 1 then (s1, err)
    else
      var (s2, cancelled) := pause(s1, delay);
      if cancelled.Some? then (s2, cancelled)
      else RetryFrom(p, fn, pause, attempt + 1, NextDelay(p, delay), s2)
  }

  /** Only what the function and the waiting do matters. */
  lemma {:induction false} RetryAgrees<S(!new), E>(p: Policy, fn: S -> (S, Option<E>), fn': S -> (S, Option<E>),
      pause: (S, int) -> (S, Option<E>), pause': (S, int) -> (S, Option<E>), attempt: nat, delay: int, s: S)
    requires attempt < Attempts(p)
    requires (forall s :: fn(s) == fn'(s)) && forall s, d :: pause(s, d) == pause'(s, d)
    ensures RetryFrom(p, fn, pause, attempt, delay, s) == RetryFrom(p, fn', pause', attempt, delay, s)
    decreases Attempts(p) - attempt
  {
    hide NextDelay;
    var (s1, err) := fn(s);
    var (s2, cancelled) := pause(s1, delay);
    if attempt < Attempts(p) - 1 { RetryAgrees(p, fn, fn', pause, pause', attempt + 1, NextDelay(p, delay), s2); }
  }

  /** The end of the loop body. */
  method BackOff(p: Policy, delay: int) returns (next: int)
    ensures next == NextDelay(p, delay)
  {
    next := delay;
    if p.multiplier > 1.0 {
      next := Truncate(delay as real * p.multiplier);
      if p.maxDelay > 0 && next > p.maxDelay {
        next := p.maxDelay;
      }
    }
  }

  method Retry<S, E>(p: Policy, fn: S -> (S, Option<E>), pause: (S, int) -> (S, Option<E>), start: S)
    returns (s: S, err: Option<E>)
    ensures (s, err) == RetryFrom(p, fn, pause, 0, p.delay, start)
  {
    hide NextDelay;
    var attempts := p.maxAttempts;
    if attempts < 1 { attempts := 1; }
    var delay := p.delay;
    s, err := start, None;
    var attempt := 0;
    while attempt < attempts
      invariant 0 <= attempt <= attempts == Attempts(p)
      invariant attempt < attempts ==>
        RetryFrom(p, fn, pause, attempt, delay, s) == RetryFrom(p, fn, pause, 0, p.delay, start)
      invariant attempt == attempts ==> (s, err) == RetryFrom(p, fn, pause, 0, p.delay, start)
    {
      var r := fn(s);
      s, err := r.0, r.1;
      if err.None? { return s, None; }
      if attempt == attempts - 1 { break; }
      var w := pause(s, delay);
      s := w.0;
      if w.1.Some? { return s, w.1; }
      delay := BackOff(p, delay);
      attempt := attempt + 1;
    }
  }

  // ---- what a caller observes ----

  datatype Event = Attempt(ok: bool) | Wait(delay: int, cancelled: bool)

  /** Outcomes that may depend on everything before. */
  datatype World = World(succeeds: seq<Event> -> bool, cancelled: (seq<Event>, int) -> bool)

  datatype Failure = CallFailed | ContextDone

  function Call(w: World): seq<Event> -> (seq<Event>, Option<Failure>) {
    (t: seq<Event>) => (t + [Attempt(w.succeeds(t))], if w.succeeds(t) then None else Some(CallFailed))
  }

  function Pause(w: World): (seq<Event>, int) -> (seq<Event>, Option<Failure>) {
    (t: seq<Event>, d: int) => (t + [Wait(d, w.cancelled(t, d))], if w.cancelled(t, d) then Some(ContextDone) else None)
  }

  /** The wait after attempt k. */
  function DelayAt(p: Policy, k: nat): int {
    if k == 0 then p.delay else NextDelay(p, DelayAt(p, k - 1))
  }

  /** k failed attempts, each followed by its wait. */
  function Rounds(p: Policy, k: nat, n: nat): seq<Event>
    decreases n - k
  {
    if k >= n then [] else [Attempt(false), Wait(DelayAt(p, k), false)] + Rounds(p, k + 1, n)
  }

  /**
   A run is some failed attempts, each followed by its wait, and then an attempt that succeeds, or the last attempt
   allowed failing, or a wait that is cancelled.
   */
  lemma {:induction false} RetryShape(p: Policy, w: World, attempt: nat, t: seq<Event>) returns (n: nat)
    requires attempt < Attempts(p)
    ensures attempt <= n < if p.maxAttempts < 1 then 1 else p.maxAttempts
    ensures var (t', err) := RetryFrom(p, Call(w), Pause(w), attempt, DelayAt(p, attempt), t);
      && (err == None ==> t' == t + (Rounds(p, attempt, n) + [Attempt(true)]))
      && (err == Some(CallFailed) ==>
            && n == (if p.maxAttempts < 1 then 1 else p.maxAttempts) - 1
            && t' == t + (Rounds(p, attempt, n) + [Attempt(false)]))
      && (err == Some(ContextDone) ==>
            n + 1 < p.maxAttempts && t' == t + (Rounds(p, attempt, n) + [Attempt(false), Wait(DelayAt(p, n), true)]))
    decreases Attempts(p) - attempt
  {
    hide NextDelay;
    n := attempt;
    var (t1, err) := Call(w)(t);
    if err.Some? && attempt < Attempts(p) - 1 {
      var (t2, cancelled) := Pause(w)(t1, DelayAt(p, attempt));
      var round := [Attempt(false), Wait(DelayAt(p, attempt), false)];
      if cancelled.None? {
        n := RetryShape(p, w, attempt + 1, t2);
        assert t2 == t + round;
        var rest := Rounds(p, attempt + 1, n);
        forall end: seq<Event> ensures t2 + (rest + end) == t + (round + rest + end) {
          assert round + rest + end == round + (rest + end);
        }
      } else {
        assert t1 + [Wait(DelayAt(p, attempt), true)] == t + ([] + [Attempt(false), Wait(DelayAt(p, attempt), true)]);
      }
    } else {
      assert forall e: Event :: [] + [e] == [e];
    }
  }

  // ---- how long the waits are ----

  /**
   From one wait to the next: unchanged without backoff; with it, the whole part of the multiple, and no more than the
   cap if there is one.
   */
  lemma NextWait(p: Policy, k: nat) returns (whole: int)
    ensures p.multiplier <= 1.0 ==> DelayAt(p, k + 1) == DelayAt(p, k)
    ensures p.multiplier > 1.0 && DelayAt(p, k) >= 0 ==>
      && whole as real <= DelayAt(p, k) as real * p.multiplier < whole as real + 1.0
      && DelayAt(p, k + 1) == if p.maxDelay > 0 && whole > p.maxDelay then p.maxDelay else whole
  {
    hide *;
    DelayNext(p, k);
    whole := WholeDelay(p, DelayAt(p, k));
  }

  lemma DelayNext(p: Policy, k: nat)
    ensures DelayAt(p, k + 1) == NextDelay(p, DelayAt(p, k))
  {
    hide NextDelay;
  }

  lemma WholeDelay(p: Policy, d: int) returns (whole: int)
    ensures p.multiplier <= 1.0 ==> NextDelay(p, d) == d
    ensures p.multiplier > 1.0 && d >= 0 ==>
      && whole as real <= d as real * p.multiplier < whole as real + 1.0
      && NextDelay(p, d) == if p.maxDelay > 0 && whole > p.maxDelay then p.maxDelay else whole
  {
    var x := d as real * p.multiplier;
    whole := Truncate(x);
    assert p.multiplier > 1.0 ==>
      NextDelay(p, d) == if p.maxDelay > 0 && whole > p.maxDelay then p.maxDelay else whole;
    hide NextDelay, Truncate;
    if p.multiplier > 1.0 && d >= 0 {
      NotNegative(d as real, p.multiplier);
      TruncateIs(x);
    }
  }

  lemma NotNegative(x: real, y: real)
    requires x >= 0.0 && y > 1.0
    ensures x * y >= 0.0
  {
  }

  lemma TruncateIs(x: real)
    requires x >= 0.0
    ensures Truncate(x) as real <= x < Truncate(x) as real + 1.0
  {
  }

  function Power(m: nat, k: nat): nat {
    if k == 0 then 1 else m * Power(m, k - 1)
  }

  /** Exponential backoff: with a whole multiplier m, the k-th wait is delay * m to the k, capped but for the first. */
  lemma {:induction false} WaitsAreExponential(p: Policy, m: nat, k: nat)
    requires m > 1 && p.multiplier == m as real && p.delay >= 0
    ensures DelayAt(p, k) ==
      if k > 0 && p.maxDelay > 0 && p.delay * Power(m, k) > p.maxDelay then p.maxDelay else p.delay * Power(m, k)
  {
    if k > 0 {
      WaitsAreExponential(p, m, k - 1);
      WholeMultiple(p, m, k - 1);
      hide DelayAt;
      var x := p.delay * Power(m, k - 1);
      assert p.delay * Power(m, k) == x * m by { Rearrange(p.delay, m, Power(m, k - 1)); }
      Multiplied(x, m);
      if p.maxDelay > 0 {
        Multiplied(p.maxDelay, m);
        if x > p.maxDelay { Larger(x, p.maxDelay, m); }
      }
    }
  }

  lemma Rearrange(x: int, m: int, y: int)
    ensures x * (m * y) == x * y * m
  {
  }

  lemma WholeMultiple(p: Policy, m: nat, k: nat)
    requires m > 1 && p.multiplier == m as real && DelayAt(p, k) >= 0
    ensures var d := DelayAt(p, k) * m;
      DelayAt(p, k + 1) == if p.maxDelay > 0 && d > p.maxDelay then p.maxDelay else d
  {
    var whole := NextWait(p, k);
    hide DelayAt;
    var d := DelayAt(p, k);
    assert (d * m) as real == d as real * m as real;
  }

  lemma Multiplied(x: int, m: nat)
    requires x >= 0 && m > 1
    ensures x * m >= x && (x > 0 ==> x * m > x)
  {
    if x > 0 { ProductIsPositive(x, m - 1); }
    assert x * m == x * (m - 1) + x;
  }

  lemma {:induction false} ProductIsPositive(x: int, m: nat)
    requires x > 0 && m > 0
    ensures x * m > 0
  {
    if m > 1 {
      ProductIsPositive(x, m - 1);
      assert x * m == x * (m - 1) + x;
    }
  }

  lemma Larger(x: int, y: int, m: nat)
    requires x > y && m > 1
    ensures x * m > y * m
  {
    ProductIsPositive(x - y, m);
    assert x * m == y * m + (x - y) * m;
  }

  // ---- the cap on the delay ----

  /** MaxDelay caps every wait but the first. */
  lemma {:induction false} LaterDelaysAreCapped(p: Policy, k: nat)
    requires k > 0 && p.multiplier > 1.0 && p.maxDelay > 0
    ensures DelayAt(p, k) <= p.maxDelay
  {
    hide Truncate;
  }

  /** What happens in one call of Retry, whose outcomes w decides. */
  function Run(p: Policy, w: World): seq<Event> {
    RetryFrom(p, Call(w), Pause(w), 0, p.delay, []).0
  }

  predicate WithinCap(events: seq<Event>, cap: int) {
    forall k :: 0 <= k < |events| && events[k].Wait? ==> events[k].delay <= cap
  }

  /** The first wait is not capped: all waits of all runs are within MaxDelay exactly when there is none or Delay is. */
  lemma {:induction false} AllDelaysCappedIff(p: Policy)
    requires p.maxDelay > 0
    ensures (forall w: World :: WithinCap(Run(p, w), p.maxDelay)) <==> p.maxAttempts <= 1 || p.delay <= p.maxDelay
  {
    if Attempts(p) == 1 || p.delay <= p.maxDelay {
      forall w: World ensures WithinCap(Run(p, w), p.maxDelay) {
        RunIsCapped(p, w);
      }
    } else {
      var w := World(t => false, (t, d) => true);
      assert Run(p, w) == [Attempt(false), Wait(p.delay, true)];
      assert !WithinCap(Run(p, w), p.maxDelay) by { assert Run(p, w)[1] == Wait(p.delay, true); }
    }
  }

  lemma RunIsCapped(p: Policy, w: World)
    requires p.maxDelay > 0 && (Attempts(p) == 1 || p.delay <= p.maxDelay)
    ensures WithinCap(Run(p, w), p.maxDelay)
  {
    var n := RetryShape(p, w, 0, []);
    forall k | 0 <= k < Attempts(p) - 1 ensures DelayAt(p, k) <= p.maxDelay {
      DelayIsCapped(p, k);
    }
    RoundsAreCapped(p, 0, n);
    var (t, err) := RetryFrom(p, Call(w), Pause(w), 0, DelayAt(p, 0), []);
    assert Run(p, w) == t;
    var rounds := Rounds(p, 0, n);
    if err == None {
      assert t == [] + (rounds + [Attempt(true)]);
    } else if err == Some(CallFailed) {
      assert t == [] + (rounds + [Attempt(false)]);
    } else {
      assert err.value == ContextDone;
      assert t == [] + (rounds + [Attempt(false), Wait(DelayAt(p, n), true)]);
    }
  }

  lemma {:induction false} RoundsAreCapped(p: Policy, k: nat, n: nat)
    requires forall l :: k <= l < n ==> DelayAt(p, l) <= p.maxDelay
    ensures WithinCap(Rounds(p, k, n), p.maxDelay)
    decreases n - k
  {
    if k < n { RoundsAreCapped(p, k + 1, n); }
  }

  lemma DelayIsCapped(p: Policy, k: nat)
    requires p.maxDelay > 0 && p.delay <= p.maxDelay
    ensures DelayAt(p, k) <= p.maxDelay
  {
    if p.multiplier <= 1.0 {
      DelayIsConstant(p, k);
    } else if k > 0 {
      LaterDelaysAreCapped(p, k);
    }
  }

  lemma {:induction false} DelayIsConstant(p: Policy, k: nat)
    requires p.multiplier <= 1.0
    ensures DelayAt(p, k) == p.delay
  {
    if k > 0 { DelayIsConstant(p, k - 1); }
  }

  /** A first wait within the cap never gets shorter. */
  lemma {:induction false} DelaysGrow(p: Policy, k: nat)
    requires p.delay >= 0 && (p.maxDelay > 0 ==> p.delay <= p.maxDelay)
    ensures 0 <= DelayAt(p, k) <= DelayAt(p, k + 1)
    ensures p.maxDelay > 0 ==> DelayAt(p, k) <= p.maxDelay
  {
    hide NextDelay;
    if k > 0 { DelaysGrow(p, k - 1); }
    if k > 0 { NextDelayGrows(p, DelayAt(p, k - 1)); }
    NextDelayGrows(p, DelayAt(p, k));
  }

  lemma NextDelayGrows(p: Policy, d: int)
    requires d >= 0 && (p.maxDelay > 0 ==> d <= p.maxDelay)
    ensures d <= NextDelay(p, d) && (p.maxDelay > 0 ==> NextDelay(p, d) <= p.maxDelay)
  {
    if p.multiplier > 1.0 { TruncateGrows(d, p.multiplier); }
    hide Truncate;
  }

  lemma TruncateGrows(d: int, m: real)
    requires d >= 0 && m > 1.0
    ensures Truncate(d as real * m) >= d
  {
    assert d as real * m >= d as real;
  }
}
