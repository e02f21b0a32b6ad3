/**
 The generated proxy of internal/cachee2e/wiring.gen.go in front of a service: Get is @Cacheable, Put is
 @CacheEvict. Over every sequential run it answers as the bare service would.
 */
module CachedProxy {
  import opened Model
  import opened Cache
  import Keys = CacheKey

  /** A service: what Get returns (None for an error), and what Put makes of the data and whether it succeeds. */
  datatype Target<!D> = Target(read: (D, string) -> Option<string>, write: (D, string, string) -> (D, bool))

  /** encoding/json on the cached value; either direction may fail. */
  datatype Codec = Codec(marshal: string -> Option<Bytes>, unmarshal: Bytes -> Option<string>)

  ghost predicate Lossless(codec: Codec) {
    forall v :: codec.marshal(v).Some? ==> codec.unmarshal(codec.marshal(v).value) == Some(v)
  }

  /** A failed Put changes nothing that Get can see; a successful one nothing under other ids. */
  ghost predicate WellBehaved<D(!new)>(t: Target<D>) {
    && (forall d, id, v, x :: !t.write(d, id, v).1 ==> t.read(t.write(d, id, v).0, x) == t.read(d, x))
    && (forall d, id, v, x :: x != id ==> t.read(t.write(d, id, v).0, x) == t.read(d, x))
  }

  const TTL := 60_000_000_000

  function CacheKey(id: string): string {
    "store:" + id
  }

  const TEMPLATE := [Keys.Literal("store:"), Keys.Placeholder("id")]

  lemma TemplateParses()
    ensures Keys.Parse("store:#{id}", 0) == TEMPLATE
  {
    assert TEMPLATE[1..] == [Keys.Placeholder("id")] && TEMPLATE[1..][1..] == [];
    assert Keys.NoMatch("store:") by { assert forall k :: 0 <= k < 6 ==> "store:"[k] != '#'; }
    assert Keys.IsIdent("id");
    assert Keys.Canonical(TEMPLATE[1..]) && Keys.Canonical(TEMPLATE);
    Keys.ParseInvertsRender(TEMPLATE);
    assert Keys.Render(TEMPLATE[1..]) == "#{id}";
    assert "store:#{id}" == "store:" + "#{id}" == Keys.Render(TEMPLATE);
  }

  /** It is the key of the template store:#{id} for a method whose second parameter is id. */
  lemma CacheKeyIsTheTemplate(ctx: string, id: string)
    ensures CacheKey(id) == Keys.KeyOf(Keys.ResolvedParts(Keys.Parse("store:#{id}", 0), ["ctx", "id"]), [ctx, id])
  {
    TemplateParses();
    hide Keys.Parse;
    var parts := [Keys.Text("store:"), Keys.Arg(1)];
    assert Keys.ParamIndex(["ctx", "id"], "id") == Some(1);
    assert TEMPLATE[1..] == [Keys.Placeholder("id")] && TEMPLATE[1..][1..] == [];
    assert Keys.ResolvedParts(TEMPLATE[1..], ["ctx", "id"]) == [Keys.Arg(1)];
    assert Keys.ResolvedParts(TEMPLATE, ["ctx", "id"]) == parts;
    assert parts[1..] == [Keys.Arg(1)] && parts[1..][1..] == [];
    assert Keys.KeyOf(parts[1..], [ctx, id]) == id;
  }

  lemma CacheKeyIsInjective(a: string, b: string)
    requires CacheKey(a) == CacheKey(b)
    ensures a == b
  {
    assert CacheKey(a)[6..] == a && CacheKey(b)[6..] == b;
  }

  datatype State<D> = State(data: D, entries: Entries)

  function Purged(entries: Entries, key: string, now: int): Entries {
    if key in entries && Expired(entries[key], now) then entries - {key} else entries
  }

  /** The cached value that answers a Get, if any. */
  function Cached(codec: Codec, entries: Entries, id: string, now: int): Option<string> {
    match Lookup(entries, CacheKey(id), now)
    case Some(data) => codec.unmarshal(data)
    case None => None
  }

  /** Get at time now; its result is stored at time later. */
  function ProxyGet<D>(t: Target<D>, codec: Codec, s: State<D>, id: string, now: int, later: int): (State<D>,
      Option<string>) {
    var hit := Cached(codec, s.entries, id, now);
    var entries := Purged(s.entries, CacheKey(id), now);
    if hit.Some? then (s.(entries := entries), hit)
    else
      var r := t.read(s.data, id);
      if r.Some? && codec.marshal(r.value).Some? then
        (s.(entries := entries[CacheKey(id) := Entry(codec.marshal(r.value).value, Expiry(TTL, later))]), r)
      else (s.(entries := entries), r)
  }

  function ProxyPut<D>(t: Target<D>, s: State<D>, id: string, value: string): (State<D>, bool) {
    var (data, ok) := t.write(s.data, id, value);
    (State(data, if ok then s.entries - {CacheKey(id)} else s.entries), ok)
  }

  // ---- the code ----

  /** StoreService of compiler/testdata/cacheapp. */
  class StoreService {
    var calls: int
    var data: map<string, string>

    constructor ()
      ensures data == map[] && calls == 0
    {
      calls, data := 0, map[];
    }

    method Get(id: string) returns (value: string)
      modifies this
      ensures Some(value) == STORE.read(data, id) && data == old(data) && calls == old(calls) + 1
    {
      calls := calls + 1;
      value := if id in data then data[id] else "";
    }

    method Put(id: string, value: string)
      modifies this
      ensures (data, true) == STORE.write(old(data), id, value) && calls == old(calls)
    {
      data := data[id := value];
    }
  }

  const STORE: Target<map<string, string>> :=
    Target((d: map<string, string>, id) => Some(if id in d then d[id] else ""),
           (d: map<string, string>, id, v) => (d[id := v], true))

  lemma StoreIsWellBehaved()
    ensures WellBehaved(STORE)
  {
  }

  class StoreServiceProxy {
    const target: StoreService
    const cache: MemoryCache
    const codec: Codec

    constructor (target: StoreService, cache: MemoryCache, codec: Codec)
      ensures this.target == target && this.cache == cache && this.codec == codec
    {
      this.target, this.cache, this.codec := target, cache, codec;
    }

    function Current(): State<map<string, string>>
      reads target, cache
    {
      State(target.data, cache.entries)
    }

    method Get(a1: string, now: int, later: int) returns (r0: string)
      modifies target, cache
      ensures (Current(), Some(r0)) == ProxyGet(STORE, codec, old(Current()), a1, now, later)
      ensures var key, e := "store:" + a1, old(cache.entries);
        var live := key in e && (e[key].expires.None? || now < e[key].expires.value);
        if live && codec.unmarshal(e[key].value).Some? then
          && r0 == codec.unmarshal(e[key].value).value && target.calls == old(target.calls)
          && cache.entries == e && target.data == old(target.data)
        else
          && r0 == (if a1 in target.data then target.data[a1] else "") && target.calls == old(target.calls) + 1
          && target.data == old(target.data)
          && cache.entries ==
             if codec.marshal(r0).Some? then e[key := Entry(codec.marshal(r0).value, Some(later + 60_000_000_000))]
             else if key in e && !live then e - {key}
             else e
    {
      var cacheKey := "store:" + a1;
      var data := cache.Get(cacheKey, now);
      if data.Some? {
        var decoded := codec.unmarshal(data.value);
        if decoded.Some? { return decoded.value; }
      }
      r0 := target.Get(a1);
      var encoded := codec.marshal(r0);
      if encoded.Some? { cache.Set(cacheKey, encoded.value, TTL, later); }
    }

    method Put(a1: string, a2: string)
      modifies target, cache
      ensures (Current(), true) == ProxyPut(STORE, old(Current()), a1, a2) && target.calls == old(target.calls)
      ensures target.data == old(target.data)[a1 := a2] && cache.entries == old(cache.entries) - {"store:" + a1}
    {
      var cacheEvictKey := "store:" + a1;
      target.Put(a1, a2);
      cache.Delete(cacheEvictKey);
    }
  }

  // ---- refinement ----

  datatype Op = Get(id: string, now: int, later: int) | Put(id: string, value: string)

  datatype Answer = Got(value: Option<string>) | PutDone(ok: bool)

  function OnProxy<D>(t: Target<D>, codec: Codec, s: State<D>, op: Op): (State<D>, Answer) {
    match op
    case Get(id, now, later) => var (s', r) := ProxyGet(t, codec, s, id, now, later); (s', Got(r))
    case Put(id, v) => var (s', ok) := ProxyPut(t, s, id, v); (s', PutDone(ok))
  }

  function OnTarget<D>(t: Target<D>, d: D, op: Op): (D, Answer) {
    match op
    case Get(id, _, _) => (d, Got(t.read(d, id)))
    case Put(id, v) => var (d', ok) := t.write(d, id, v); (d', PutDone(ok))
  }

  function ProxyAnswers<D>(t: Target<D>, codec: Codec, s: State<D>, ops: seq<Op>): (r: seq<Answer>)
    ensures |r| == |ops|
    decreases |ops|
  {
    if ops == [] then []
    else
      var (s', a) := OnProxy(t, codec, s, ops[0]);
      [a] + ProxyAnswers(t, codec, s', ops[1..])
  }

  function TargetAnswers<D>(t: Target<D>, d: D, ops: seq<Op>): (r: seq<Answer>)
    ensures |r| == |ops|
    decreases |ops|
  {
    if ops == [] then []
    else
      var (d', a) := OnTarget(t, d, ops[0]);
      [a] + TargetAnswers(t, d', ops[1..])
  }

  /** Every entry decodes to what the service would answer now. */
  ghost predicate Coherent<D>(t: Target<D>, codec: Codec, s: State<D>) {
    forall id :: CacheKey(id) in s.entries && codec.unmarshal(s.entries[CacheKey(id)].value).Some? ==>
      codec.unmarshal(s.entries[CacheKey(id)].value) == t.read(s.data, id)
  }

  lemma GetRefines<D>(t: Target<D>, codec: Codec, s: State<D>, id: string, now: int, later: int)
    requires Lossless(codec) && Coherent(t, codec, s)
    ensures var (s', r) := ProxyGet(t, codec, s, id, now, later);
      r == t.read(s.data, id) && s'.data == s.data && Coherent(t, codec, s')
  {
    var s' := ProxyGet(t, codec, s, id, now, later).0;
    forall x | CacheKey(x) in s'.entries && codec.unmarshal(s'.entries[CacheKey(x)].value).Some?
      ensures codec.unmarshal(s'.entries[CacheKey(x)].value) == t.read(s'.data, x)
    {
      if CacheKey(x) == CacheKey(id) { CacheKeyIsInjective(x, id); }
    }
  }

  lemma PutRefines<D(!new)>(t: Target<D>, codec: Codec, s: State<D>, id: string, value: string)
    requires WellBehaved(t) && Coherent(t, codec, s)
    ensures var (s', ok) := ProxyPut(t, s, id, value);
      (s'.data, ok) == t.write(s.data, id, value) && Coherent(t, codec, s')
  {
    var s' := ProxyPut(t, s, id, value).0;
    forall x | CacheKey(x) in s'.entries && codec.unmarshal(s'.entries[CacheKey(x)].value).Some?
      ensures codec.unmarshal(s'.entries[CacheKey(x)].value) == t.read(s'.data, x)
    {
      assert x != id || !t.write(s.data, id, value).1;
    }
  }

  /** The main result: the proxy and the bare service give the same answers, whatever the clock does. */
  lemma {:induction false} ProxyRefinesTarget<D(!new)>(t: Target<D>, codec: Codec, s: State<D>, ops: seq<Op>)
    requires WellBehaved(t) && Lossless(codec) && Coherent(t, codec, s)
    ensures ProxyAnswers(t, codec, s, ops) == TargetAnswers(t, s.data, ops)
    decreases |ops|
  {
    hide WellBehaved, Lossless, Coherent, ProxyGet, ProxyPut;
    if ops != [] {
      match ops[0] {
        case Get(id, now, later) => GetRefines(t, codec, s, id, now, later);
        case Put(id, v) => PutRefines(t, codec, s, id, v);
      }
      ProxyRefinesTarget(t, codec, OnProxy(t, codec, s, ops[0]).0, ops[1..]);
    }
  }

  /** From an empty cache, and in particular for the generated StoreServiceProxy. */
  lemma StoreProxyRefinesStore(codec: Codec, data: map<string, string>, ops: seq<Op>)
    requires Lossless(codec)
    ensures ProxyAnswers(STORE, codec, State(data, map[]), ops) == TargetAnswers(STORE, data, ops)
  {
    StoreIsWellBehaved();
    ProxyRefinesTarget(STORE, codec, State(data, map[]), ops);
  }

  /** A Put that fails after changing the data leaves a stale entry behind: the assumption is needed. */
  lemma FailedPutMustNotChangeData(codec: Codec)
    requires Lossless(codec) && codec.marshal("old").Some?
    ensures var t := Target((d: string, id) => Some(d), (d: string, id, v) => (v, false));
      var ops := [Get("k", 0, 0), Put("k", "new"), Get("k", 1, 1)];
      ProxyAnswers(t, codec, State("old", map[]), ops) != TargetAnswers(t, "old", ops)
  {
    var t := Target((d: string, id: string) => Some(d), (d: string, id: string, v: string) => (v, false));
    var g1, p, g2 := Get("k", 0, 0), Put("k", "new"), Get("k", 1, 1);
    var ops := [g1, p, g2];
    assert ops[1..] == [p, g2] && [p, g2][1..] == [g2] && [g2][1..] == [];
    var s0 := State("old", map[]);
    var s1 := OnProxy(t, codec, s0, g1).0;
    assert CacheKey("k") in s1.entries && Lookup(s1.entries, CacheKey("k"), 1) == codec.marshal("old");
    var s2 := OnProxy(t, codec, s1, p).0;
    assert s2 == State("new", s1.entries);
    assert OnProxy(t, codec, s2, g2).1 == Got(Some("old"));
    assert ProxyAnswers(t, codec, s2, [g2]) == [Got(Some("old"))];
    assert TargetAnswers(t, "new", [g2]) == [Got(Some("new"))];
    assert ProxyAnswers(t, codec, s1, [p, g2]) == [PutDone(false)] + ProxyAnswers(t, codec, s2, [g2]);
    assert ProxyAnswers(t, codec, s0, ops) == [Got(Some("old"))] + ProxyAnswers(t, codec, s1, [p, g2]);
    assert TargetAnswers(t, "old", [p, g2]) == [PutDone(false)] + TargetAnswers(t, "new", [g2]);
    assert TargetAnswers(t, "old", ops) == [Got(Some("old"))] + TargetAnswers(t, "old", [p, g2]);
    assert ProxyAnswers(t, codec, s0, ops)[2] != TargetAnswers(t, "old", ops)[2];
  }
}
