/**
 The in-process cache of runtime/cache.go: a class for sequential use, and its critical sections as
 atomic steps of any number of goroutines.
 */
module Cache {
  import opened Model

  type Bytes = seq<int>

  /** expires is None for an entry that never expires. */
  datatype Entry = Entry(value: Bytes, expires: Option<int>)

  type Entries = map<string, Entry>

  predicate Expired(e: Entry, now: int) {
    e.expires.Some? && e.expires.value <= now
  }

  /** What a Get that ran at one instant would return. */
  function Lookup(entries: Entries, key: string, now: int): Option<Bytes> {
    if key in entries && !Expired(entries[key], now) then Some(entries[key].value) else None
  }

  function Expiry(ttl: int, now: int): Option<int> {
    if ttl > 0 then Some(now + ttl) else None
  }

  // ---- sequential use ----

  class MemoryCache {
    var entries: Entries

    constructor ()
      ensures entries == map[]
    {
      entries := map[];
    }

    method Get(key: string, now: int) returns (r: Option<Bytes>)
      modifies this
      ensures r == Lookup(old(entries), key, now)
      ensures entries ==
        if key in old(entries) && Expired(old(entries)[key], now) then old(entries) - {key} else old(entries)
    {
      if key !in entries { return None; }
      var e := entries[key];
      if e.expires.Some? && !(now < e.expires.value) {
        if key in entries && entries[key].expires == e.expires { entries := entries - {key}; }
        return None;
      }
      return Some(e.value);
    }

    method Set(key: string, value: Bytes, ttl: int, now: int)
      modifies this
      ensures entries == old(entries)[key := Entry(value, if ttl > 0 then Some(now + ttl) else None)]
    {
      var expires: Option<int> := None;
      if ttl > 0 { expires := Some(now + ttl); }
      entries := entries[key := Entry(value, expires)];
    }

    method Delete(key: string)
      modifies this
      ensures entries == old(entries) - {key}
    {
      entries := entries - {key};
    }
  }

  // ---- concurrent use ----

  /**
   A Get in progress: it has read the entry under the read lock, and perhaps found it expired. readAt and
   seen remember the instant of the read for the statements below.
   */
  datatype Pending =
    | HasRead(key: string, entry: Entry, readAt: int, seen: Entries)
    | FoundExpired(key: string, entry: Entry)

  datatype System = System(entries: Entries, clock: int, pending: map<nat, Pending>)

  /**
   The critical sections: the read phase of a Get, its look at the clock (which ends a hit), its delete
   phase, and the locked parts of Set and Delete. A Set computes its expiry before it gets the lock.
   */
  datatype Event =
    | Read(id: nat, key: string, now: int)
    | Check(id: nat, now: int)
    | DeleteStale(id: nat, now: int)
    | Store(key: string, value: Bytes, ttl: int, computedAt: int, now: int)
    | Remove(key: string, now: int)

  predicate CanHappen(s: System, e: Event) {
    s.clock <= e.now &&
    match e
    case Read(id, _, _) => id !in s.pending
    case Check(id, _) => id in s.pending && s.pending[id].HasRead?
    case DeleteStale(id, _) => id in s.pending && s.pending[id].FoundExpired?
    case Store(_, _, _, computedAt, now) => computedAt <= now
    case Remove(_, _) => true
  }

  /** The state afterwards; a step that ends a Get also gives its result. */
  datatype Result = Going | Hit(value: Bytes) | Miss

  function Step(s: System, e: Event): (System, Result)
    requires CanHappen(s, e)
  {
    match e
    case Read(id, key, now) =>
      if key !in s.entries then (s.(clock := now), Miss)
      else (s.(clock := now, pending := s.pending[id := HasRead(key, s.entries[key], now, s.entries)]), Going)
    case Check(id, now) =>
      var p := s.pending[id];
      if Expired(p.entry, now) then
        (s.(clock := now, pending := s.pending[id := FoundExpired(p.key, p.entry)]), Going)
      else (s.(clock := now, pending := s.pending - {id}), Hit(p.entry.value))
    case DeleteStale(id, now) =>
      var p := s.pending[id];
      var same := p.key in s.entries && s.entries[p.key].expires == p.entry.expires;
      (System(if same then s.entries - {p.key} else s.entries, now, s.pending - {id}), Miss)
    case Store(key, value, ttl, computedAt, now) =>
      (s.(clock := now, entries := s.entries[key := Entry(value, Expiry(ttl, computedAt))]), Going)
    case Remove(key, now) => (s.(clock := now, entries := s.entries - {key}), Going)
  }

  ghost predicate Inv(s: System) {
    forall id :: id in s.pending ==>
      match s.pending[id]
      case HasRead(key, entry, readAt, seen) => readAt <= s.clock && key in seen && seen[key] == entry
      case FoundExpired(_, entry) => Expired(entry, s.clock)
  }

  ghost predicate IsRun(s: System, events: seq<Event>)
    decreases |events|
  {
    events == [] || (CanHappen(s, events[0]) && IsRun(Step(s, events[0]).0, events[1..]))
  }

  ghost function After(s: System, events: seq<Event>): System
    requires IsRun(s, events)
    decreases |events|
  {
    if events == [] then s else After(Step(s, events[0]).0, events[1..])
  }

  lemma StepKeepsInv(s: System, e: Event)
    requires Inv(s) && CanHappen(s, e)
    ensures Inv(Step(s, e).0)
  {
  }

  lemma {:induction false} RunKeepsInv(s: System, events: seq<Event>)
    requires Inv(s) && IsRun(s, events)
    ensures Inv(After(s, events))
    decreases |events|
  {
    if events != [] {
      hide Inv, Step;
      StepKeepsInv(s, events[0]);
      RunKeepsInv(Step(s, events[0]).0, events[1..]);
    }
  }

  /** A state that some interleaving leads to. */
  ghost predicate Reachable(s: System) {
    exists entries, clock, events ::
      IsRun(System(entries, clock, map[]), events) && After(System(entries, clock, map[]), events) == s
  }

  lemma ReachableIsInv(s: System)
    requires Reachable(s)
    ensures Inv(s)
  {
    var entries, clock, events :|
      IsRun(System(entries, clock, map[]), events) && After(System(entries, clock, map[]), events) == s;
    RunKeepsInv(System(entries, clock, map[]), events);
  }

  /** The delayed delete of a Get never removes a live entry, so no lookup can tell that it happened. */
  lemma DeleteStaleIsInvisible(s: System, id: nat, now: int, key: string, later: int)
    requires Reachable(s) && CanHappen(s, DeleteStale(id, now)) && now <= later
    ensures Lookup(Step(s, DeleteStale(id, now)).0.entries, key, later) == Lookup(s.entries, key, later)
  {
    ReachableIsInv(s);
  }

  /** A hit returns what an instantaneous Get at the read step would have returned. */
  lemma HitIsLinearizableAtRead(s: System, id: nat, now: int)
    requires Reachable(s) && CanHappen(s, Check(id, now)) && Step(s, Check(id, now)).1.Hit?
    ensures Step(s, Check(id, now)).1 == Hit(s.pending[id].entry.value)
    ensures Lookup(s.pending[id].seen, s.pending[id].key, s.pending[id].readAt) == Some(s.pending[id].entry.value)
  {
    ReachableIsInv(s);
  }

  // ---- how long a stored value is served ----

  /** Nobody sets or deletes the key. */
  predicate LeavesAlone(events: seq<Event>, key: string) {
    forall i :: 0 <= i < |events| ==>
      !(events[i].Store? && events[i].key == key) && !(events[i].Remove? && events[i].key == key)
  }

  /** The entry is still there, or has been deleted after it expired. */
  ghost predicate StillThere(s: System, key: string, e: Entry) {
    if key in s.entries then s.entries[key] == e else Expired(e, s.clock)
  }

  lemma StepKeepsThere(s: System, e: Event, key: string, entry: Entry)
    requires Inv(s) && CanHappen(s, e) && LeavesAlone([e], key) && StillThere(s, key, entry)
    ensures StillThere(Step(s, e).0, key, entry)
  {
    assert [e][0] == e;
  }

  lemma {:induction false} RunKeepsThere(s: System, events: seq<Event>, key: string, entry: Entry)
    requires Inv(s) && IsRun(s, events) && LeavesAlone(events, key) && StillThere(s, key, entry)
    ensures StillThere(After(s, events), key, entry)
    decreases |events|
  {
    if events != [] {
      assert LeavesAlone([events[0]], key);
      assert forall i :: 0 <= i < |events[1..]| ==> events[1..][i] == events[i + 1];
      hide Inv, Step, StillThere, CanHappen;
      StepKeepsInv(s, events[0]);
      StepKeepsThere(s, events[0], key, entry);
      RunKeepsThere(Step(s, events[0]).0, events[1..], key, entry);
    }
  }

  /**
   After a Set, and as long as nobody sets or deletes the key again, whatever else goes on: a Get at any later time
   finds the value exactly when the ttl is not positive or has not passed since the Set read the clock.
   */
  lemma SetIsServedForItsTtl(s: System, key: string, value: Bytes, ttl: int, computedAt: int, now: int,
      events: seq<Event>, later: int)
    requires Reachable(s) && CanHappen(s, Store(key, value, ttl, computedAt, now))
    requires var stored := Step(s, Store(key, value, ttl, computedAt, now)).0;
      IsRun(stored, events) && LeavesAlone(events, key) && After(stored, events).clock <= later
    ensures var stored := Step(s, Store(key, value, ttl, computedAt, now)).0;
      Lookup(After(stored, events).entries, key, later) ==
        if ttl <= 0 || later < computedAt + ttl then Some(value) else None
  {
    ReachableIsInv(s);
    var store := Store(key, value, ttl, computedAt, now);
    var stored := Step(s, store).0;
    StepKeepsInv(s, store);
    RunKeepsThere(stored, events, key, stored.entries[key]);
  }

  // ---- when a miss is what some instant between the read and the end would have given ----

  /** A Get that finds no entry returns what an instantaneous Get at that moment would have returned. */
  lemma MissIsLinearizableAtRead(s: System, id: nat, key: string, now: int)
    requires CanHappen(s, Read(id, key, now)) && Step(s, Read(id, key, now)).1 == Miss
    ensures Lookup(s.entries, key, now) == None
  {
  }

  ghost function StateAt(s: System, events: seq<Event>, i: nat): System
    requires IsRun(s, events) && i <= |events|
    decreases |events|
  {
    if i == 0 then s else StateAt(Step(s, events[0]).0, events[1..], i - 1)
  }

  /** At time t the run is between its step i and the next. */
  ghost predicate IsInstant(s: System, events: seq<Event>, i: nat, t: int)
    requires IsRun(s, events)
  {
    && i <= |events| && StateAt(s, events, i).clock <= t
    && t <= if i < |events| then events[i].now else StateAt(s, events, i).clock
  }

  /** At some instant of the run an instantaneous Get would have missed. */
  ghost predicate MissesSometime(s: System, events: seq<Event>, key: string)
    requires IsRun(s, events)
  {
    exists i: nat, t: int :: IsInstant(s, events, i, t) && Lookup(StateAt(s, events, i).entries, key, t) == None
  }

  /**
   The schedule keeps the key alive: nobody removes it, and every version is replaced by the next before it expires, the
   last one not having expired by the end. Only calls of Set and Delete for the key matter.
   */
  predicate IsKept(version: Entry, events: seq<Event>, key: string, end: int)
    decreases |events|
  {
    if events == [] then !Expired(version, end)
    else
      match events[0]
      case Store(k, value, ttl, computedAt, now) =>
        if k == key then !Expired(version, now) && IsKept(Entry(value, Expiry(ttl, computedAt)), events[1..], key, end)
        else IsKept(version, events[1..], key, end)
      case Remove(k, _) => k != key && IsKept(version, events[1..], key, end)
      case _ => IsKept(version, events[1..], key, end)
  }

  function EndOf(s: System, events: seq<Event>): int {
    if events == [] then s.clock else events[|events| - 1].now
  }

  lemma {:induction false} TimeRuns(s: System, events: seq<Event>)
    requires IsRun(s, events)
    ensures s.clock <= EndOf(s, events)
    ensures events != [] ==> EndOf(Step(s, events[0]).0, events[1..]) == EndOf(s, events)
    decreases |events|
  {
    if events != [] { TimeRuns(Step(s, events[0]).0, events[1..]); }
  }

  /** A version that has expired is never kept, since time does not run backwards. */
  lemma {:induction false} ExpiredIsNotKept(s: System, version: Entry, events: seq<Event>, key: string)
    requires IsRun(s, events) && Expired(version, s.clock)
    ensures !IsKept(version, events, key, EndOf(s, events))
    decreases |events|
  {
    TimeRuns(s, events);
    if events != [] {
      hide EndOf;
      ExpiredIsNotKept(Step(s, events[0]).0, version, events[1..], key);
    }
  }

  lemma {:induction false} KeptNeverMisses(s: System, events: seq<Event>, key: string, i: nat, t: int)
    requires Inv(s) && IsRun(s, events) && key in s.entries && IsInstant(s, events, i, t)
    requires IsKept(s.entries[key], events, key, EndOf(s, events))
    ensures Lookup(StateAt(s, events, i).entries, key, t).Some?
    decreases |events|
  {
    TimeRuns(s, events);
    if events != [] {
      var s' := Step(s, events[0]).0;
      StepKeepsInv(s, events[0]);
      KeptIsLive(s, events, key);
      KeptStep(s, events, key);
      hide IsKept, Inv, Step, EndOf;
      if i > 0 { KeptNeverMisses(s', events[1..], key, i - 1, t); }
    }
  }

  /** What is kept is live until the next step. */
  lemma KeptIsLive(s: System, events: seq<Event>, key: string)
    requires IsRun(s, events) && events != [] && key in s.entries
    requires IsKept(s.entries[key], events, key, EndOf(s, events))
    ensures !Expired(s.entries[key], events[0].now)
  {
    TimeRuns(s, events);
    var s' := Step(s, events[0]).0;
    if Expired(s.entries[key], s'.clock) { ExpiredIsNotKept(s', s.entries[key], events[1..], key); }
  }

  lemma KeptStep(s: System, events: seq<Event>, key: string)
    requires Inv(s) && IsRun(s, events) && events != [] && key in s.entries && !Expired(s.entries[key], events[0].now)
    ensures var s' := Step(s, events[0]).0;
      IsKept(s.entries[key], events, key, EndOf(s, events)) <==>
        key in s'.entries && IsKept(s'.entries[key], events[1..], key, EndOf(s, events))
  {
    hide EndOf;
  }

  lemma {:induction false} UnkeptMisses(s: System, events: seq<Event>, key: string)
    requires Inv(s) && IsRun(s, events)
    requires key in s.entries ==> !IsKept(s.entries[key], events, key, EndOf(s, events))
    ensures MissesSometime(s, events, key)
    decreases |events|
  {
    TimeRuns(s, events);
    if key !in s.entries {
      assert IsInstant(s, events, 0, s.clock);
    } else if events == [] {
      assert IsInstant(s, events, 0, s.clock);
    } else if Expired(s.entries[key], events[0].now) {
      assert IsInstant(s, events, 0, events[0].now);
    } else {
      KeptStep(s, events, key);
      StepKeepsInv(s, events[0]);
      hide IsKept, Inv, Step, EndOf;
      UnkeptMisses(Step(s, events[0]).0, events[1..], key);
      LaterInstant(s, events, key);
    }
  }

  lemma LaterInstant(s: System, events: seq<Event>, key: string)
    requires IsRun(s, events) && events != [] && MissesSometime(Step(s, events[0]).0, events[1..], key)
    ensures MissesSometime(s, events, key)
  {
    hide Step, CanHappen;
    var i: nat, t: int :| IsInstant(Step(s, events[0]).0, events[1..], i, t)
      && Lookup(StateAt(Step(s, events[0]).0, events[1..], i).entries, key, t) == None;
    assert StateAt(s, events, i + 1) == StateAt(Step(s, events[0]).0, events[1..], i);
    assert IsInstant(s, events, i + 1, t);
  }

  /** events are the steps from the read of Get id, which led to s, to its delete phase. */
  ghost predicate IsGetFrom(s: System, events: seq<Event>, id: nat)
    requires IsRun(s, events)
  {
    && events != [] && events[|events| - 1].DeleteStale? && events[|events| - 1].id == id
    && forall i :: 0 <= i < |events| ==> id in StateAt(s, events, i).pending
  }

  /** The entry that the Get read has expired by its end. */
  lemma {:induction false} ReadHasExpired(s: System, events: seq<Event>, id: nat)
    requires Inv(s) && IsRun(s, events) && IsGetFrom(s, events, id) && id in s.pending
    ensures Expired(s.pending[id].entry, EndOf(s, events))
    decreases |events|
  {
    if |events| > 1 {
      var s' := Step(s, events[0]).0;
      StepKeepsInv(s, events[0]);
      GetGoesOn(s, events, id);
      ReadHasExpired(s', events[1..], id);
      TimeRuns(s, events);
    }
  }

  lemma GetGoesOn(s: System, events: seq<Event>, id: nat)
    requires IsRun(s, events) && IsGetFrom(s, events, id) && id in s.pending && |events| > 1
    ensures var s' := Step(s, events[0]).0;
      IsGetFrom(s', events[1..], id) && id in s'.pending && s'.pending[id].entry == s.pending[id].entry
  {
    var s' := Step(s, events[0]).0;
    assert id in StateAt(s, events, 1).pending && StateAt(s, events, 1) == StateAt(s', events[1..], 0) == s';
    assert events[1..][|events| - 2] == events[|events| - 1];
    forall i | 0 <= i < |events[1..]| ensures id in StateAt(s', events[1..], i).pending {
      assert id in StateAt(s, events, i + 1).pending;
    }
  }

  /** No Set for the key takes effect up to the given time. */
  predicate NoStoreUpTo(events: seq<Event>, key: string, time: int) {
    forall i :: 0 <= i < |events| && events[i].Store? && events[i].key == key ==> time < events[i].now
  }

  lemma {:induction false} UnrefreshedIsNotKept(version: Entry, events: seq<Event>, key: string, end: int)
    requires version.expires.Some? && version.expires.value <= end && NoStoreUpTo(events, key, version.expires.value)
    ensures !IsKept(version, events, key, end)
    decreases |events|
  {
    if events != [] {
      assert forall i :: 0 <= i < |events[1..]| ==> events[1..][i] == events[i + 1];
      if !(events[0].Store? && events[0].key == key) { UnrefreshedIsNotKept(version, events[1..], key, end); }
    }
  }

  /**
   A Get reads an entry, finds it expired and misses at the end of its delete phase. The miss is what an
   instantaneous Get between the read and the end would have returned, if and only if the schedule of the calls of
   Set and Delete did not keep the key alive all the time. In particular it is whenever no Set takes effect between
   the read and the expiry of the entry that was read.
   */
  lemma MissIsLinearizableIff(s: System, id: nat, key: string, now: int, events: seq<Event>)
    requires Reachable(s) && CanHappen(s, Read(id, key, now)) && key in s.entries
    requires var s' := Step(s, Read(id, key, now)).0; IsRun(s', events) && IsGetFrom(s', events, id)
    ensures var s' := Step(s, Read(id, key, now)).0;
      && var last := events[|events| - 1];
      && CanHappen(StateAt(s', events, |events| - 1), last) && Step(StateAt(s', events, |events| - 1), last).1 == Miss
      && (MissesSometime(s', events, key) <==> !IsKept(s.entries[key], events, key, EndOf(s', events)))
      && s.entries[key].expires.Some?
      && (NoStoreUpTo(events, key, s.entries[key].expires.value) ==> MissesSometime(s', events, key))
  {
    ReachableIsInv(s);
    var s' := Step(s, Read(id, key, now)).0;
    StepKeepsInv(s, Read(id, key, now));
    ReadHasExpired(s', events, id);
    LastCanHappen(s', events);
    var version := s.entries[key];
    if NoStoreUpTo(events, key, version.expires.value) {
      UnrefreshedIsNotKept(version, events, key, EndOf(s', events));
    }
    hide IsKept, Inv, EndOf, StateAt, NoStoreUpTo;
    if IsKept(version, events, key, EndOf(s', events)) {
      forall i: nat, t | IsInstant(s', events, i, t) ensures Lookup(StateAt(s', events, i).entries, key, t).Some? {
        KeptNeverMisses(s', events, key, i, t);
      }
    } else {
      UnkeptMisses(s', events, key);
    }
  }

  lemma {:induction false} LastCanHappen(s: System, events: seq<Event>)
    requires IsRun(s, events) && events != []
    ensures CanHappen(StateAt(s, events, |events| - 1), events[|events| - 1])
    decreases |events|
  {
    hide CanHappen, Step;
    if |events| > 1 { LastCanHappen(Step(s, events[0]).0, events[1..]); }
  }

  /**
   The condition is needed: the entry that was read expires after it has been replaced, and the Get misses although the
   key was live at every instant from the read to the end.
   */
  lemma MissNeedNotBeLinearizable()
    ensures var s := System(map["k" := Entry([1], Some(5))], 0, map[]);
      var s', events := Step(s, Read(0, "k", 0)).0, [Store("k", [2], 100, 3, 3), Check(0, 6), DeleteStale(0, 6)];
      && IsRun(s', events) && IsGetFrom(s', events, 0) && Step(StateAt(s', events, 2), events[2]).1 == Miss
      && !MissesSometime(s', events, "k")
  {
    var s := System(map["k" := Entry([1], Some(5))], 0, map[]);
    var e1, e2, e3 := Store("k", [2], 100, 3, 3), Check(0, 6), DeleteStale(0, 6);
    var s', events := Step(s, Read(0, "k", 0)).0, [e1, e2, e3];
    var s1 := Step(s', e1).0;
    var s2 := Step(s1, e2).0;
    assert events[1..] == [e2, e3] && [e2, e3][1..] == [e3] && [e3][1..] == [];
    assert IsRun(s2, [e3]);
    assert IsRun(s1, [e2, e3]);
    assert IsRun(s', events);
    assert StateAt(s2, [e3], 0) == s2 && StateAt(s1, [e2, e3], 0) == s1 && StateAt(s', events, 0) == s';
    assert StateAt(s1, [e2, e3], 1) == s2 && StateAt(s', events, 1) == s1 && StateAt(s', events, 2) == s2;
    assert IsKept(Entry([2], Some(103)), [e3], "k", 6);
    assert IsKept(Entry([2], Some(103)), [e2, e3], "k", 6);
    assert IsRun(s, []) && After(s, []) == s;
    MissIsLinearizableIff(s, 0, "k", 0, events);
  }
}
