/**
 Cache key templates (model/proxy.go): splitting a template at its #{param} placeholders, resolving the names to
 argument positions (compiler/proxy.go), and the string that the rendered key expression builds (generator/di/proxy.go).
 */
module CacheKey {
  import opened Model

  predicate IsIdentStart(c: char) {
    'a' <= c <= 'z' || 'A' <= c <= 'Z' || c == '_'
  }

  predicate IsIdentPart(c: char) {
    IsIdentStart(c) || '0' <= c <= '9'
  }

  /** A letter of ASCII or an underscore, and letters, underscores and digits. */
  predicate IsIdent(s: string) {
    && s != "" && !('0' <= s[0] <= '9')
    && forall i :: 0 <= i < |s| ==>
         s[i] == '_' || 'a' <= s[i] <= 'z' || 'A' <= s[i] <= 'Z' || '0' <= s[i] <= '9'
  }

  /** s[start..end] is #{name}. */
  predicate IsMatch(s: string, start: int, end: int) {
    && 0 <= start && start + 3 < end <= |s|
    && s[start] == '#' && s[start + 1] == '{' && s[end - 1] == '}'
    && !('0' <= s[start + 2] <= '9')
    && forall k :: start + 2 <= k < end - 1 ==>
         s[k] == '_' || 'a' <= s[k] <= 'z' || 'A' <= s[k] <= 'Z' || '0' <= s[k] <= '9'
  }

  ghost predicate NoMatch(s: string) {
    forall k, e :: !IsMatch(s, k, e)
  }

  /** The end of the identifier characters from i on. */
  function IdentEnd(s: string, i: nat): (end: nat)
    requires i <= |s|
    ensures i <= end <= |s|
    ensures forall k :: i <= k < end ==> IsIdentPart(s[k])
    ensures end < |s| ==> !IsIdentPart(s[end])
    decreases |s| - i
  {
    if i < |s| && IsIdentPart(s[i]) then IdentEnd(s, i + 1) else i
  }

  function MatchAt(s: string, start: nat): (end: Option<nat>)
    requires start <= |s|
    ensures end.Some? ==> IsMatch(s, start, end.value)
    ensures end.None? ==> forall e :: !IsMatch(s, start, e)
  {
    if start + 3 < |s| && s[start] == '#' && s[start + 1] == '{' && IsIdentStart(s[start + 2]) then
      var e := IdentEnd(s, start + 2);
      if e < |s| && s[e] == '}' then Some(e + 1) else None
    else None
  }

  datatype Match = Match(start: nat, end: nat)

  /** The leftmost match at or after position from, as regexp finds it. */
  function NextMatch(s: string, from: nat): (m: Option<Match>)
    requires from <= |s|
    ensures m.Some? ==> from <= m.value.start && m.value.start + 3 < m.value.end <= |s|
    ensures m.Some? ==> IsMatch(s, m.value.start, m.value.end)
    ensures m.Some? ==> forall k, e :: from <= k < m.value.start ==> !IsMatch(s, k, e)
    ensures m.None? ==> forall k, e :: from <= k ==> !IsMatch(s, k, e)
    decreases |s| - from
  {
    match MatchAt(s, from)
    case Some(e) => Some(Match(from, e))
    case None => if from < |s| then NextMatch(s, from + 1) else None
  }

  /** FindAllStringSubmatchIndex: the successive matches that do not overlap. */
  function AllMatches(s: string, from: nat): (ms: seq<Match>)
    requires from <= |s|
    decreases |s| - from
  {
    match NextMatch(s, from)
    case Some(m) => [m] + AllMatches(s, m.end)
    case None => []
  }

  datatype Segment = Literal(text: string) | Placeholder(param: string) {
    /** As it is written in a template. */
    function Source(): string {
      match this
      case Literal(text) => text
      case Placeholder(param) => "#{" + param + "}"
    }
  }

  /** The segments of key[last..]. */
  function Parse(key: string, last: nat): seq<Segment>
    requires last <= |key|
    decreases |key| - last
  {
    match NextMatch(key, last)
    case Some(m) =>
      (if m.start > last then [Literal(key[last..m.start])] else [])
      + [Placeholder(key[m.start + 2..m.end - 1])] + Parse(key, m.end)
    case None => if last < |key| then [Literal(key[last..])] else []
  }

  lemma ParseStep(key: string, last: nat)
    requires last <= |key|
    ensures var m := NextMatch(key, last);
      Parse(key, last) == (if m.Some? then PieceOf(key, last, m.value) + Parse(key, m.value.end)
                           else if last < |key| then [Literal(key[last..])] else [])
  {
    hide NextMatch;
  }

  /** The literal before a match and the match itself. */
  function PieceOf(key: string, last: nat, m: Match): seq<Segment>
    requires last <= m.start && m.start + 3 < m.end <= |key|
  {
    (if m.start > last then [Literal(key[last..m.start])] else []) + [Placeholder(key[m.start + 2..m.end - 1])]
  }

  method ParseCacheKey(key: string) returns (segs: seq<Segment>)
    ensures segs == Parse(key, 0)
  {
    hide NextMatch, Parse, IsMatch;
    segs := [];
    var last := 0;
    var matches := AllMatches(key, 0);
    var k := 0;
    while k < |matches|
      invariant 0 <= k <= |matches| && 0 <= last <= |key|
      invariant matches[k..] == AllMatches(key, last)
      invariant segs + Parse(key, last) == Parse(key, 0)
    {
      var m := matches[k];
      assert NextMatch(key, last) == Some(m) && matches[k + 1..] == AllMatches(key, m.end);
      ParseStep(key, last);
      assert segs + (PieceOf(key, last, m) + Parse(key, m.end)) == segs + PieceOf(key, last, m) + Parse(key, m.end);
      ghost var before := segs;
      if m.start > last { segs := segs + [Literal(key[last..m.start])]; }
      segs := segs + [Placeholder(key[m.start + 2..m.end - 1])];
      assert segs == before + PieceOf(key, last, m);
      last := m.end;
      k := k + 1;
    }
    ParseStep(key, last);
    if last < |key| { segs := segs + [Literal(key[last..])]; }
  }

  // ---- parsing is the inverse of writing ----

  function Render(segs: seq<Segment>): string {
    if segs == [] then "" else segs[0].Source() + Render(segs[1..])
  }

  /** Literals are not empty, not adjacent and contain no placeholder; placeholders are identifiers. */
  ghost predicate Canonical(segs: seq<Segment>) {
    segs != [] ==>
      && (segs[0].Literal? ==> segs[0].text != "" && NoMatch(segs[0].text))
      && (segs[0].Literal? && |segs| > 1 ==> segs[1].Placeholder?)
      && (segs[0].Placeholder? ==> IsIdent(segs[0].param))
      && Canonical(segs[1..])
  }

  lemma MatchInSlice(s: string, lo: int, hi: int, start: int, end: int)
    requires 0 <= lo <= hi <= |s| && lo <= start && end <= hi
    ensures IsMatch(s[lo..hi], start - lo, end - lo) == IsMatch(s, start, end)
  {
    if IsMatch(s[lo..hi], start - lo, end - lo) {
      forall k | start + 2 <= k < end - 1 ensures IsIdentPart(s[k]) {
        assert s[k] == s[lo..hi][k - lo];
      }
    }
  }

  lemma SliceHasNoMatch(s: string, lo: int, hi: int)
    requires 0 <= lo <= hi <= |s|
    requires forall k, e :: lo <= k < hi ==> !IsMatch(s, k, e)
    ensures NoMatch(s[lo..hi])
  {
    forall k, e ensures !IsMatch(s[lo..hi], k, e) {
      if IsMatch(s[lo..hi], k, e) { MatchInSlice(s, lo, hi, lo + k, lo + e); }
    }
  }

  /** No placeholder begins in a literal that has none, even when one follows it. */
  lemma LiteralThenPlaceholder(s: string, lo: nat, hi: nat)
    requires lo <= hi <= |s| && (hi < |s| ==> s[hi] == '#') && NoMatch(s[lo..hi])
    ensures forall k, e :: lo <= k < hi ==> !IsMatch(s, k, e)
  {
    forall k, e | lo <= k < hi ensures !IsMatch(s, k, e) {
      if e <= hi { MatchInSlice(s, lo, hi, k, e); }
    }
  }

  lemma {:induction false} ParseLosesNothing(key: string, last: nat)
    requires last <= |key|
    ensures Render(Parse(key, last)) == key[last..]
    decreases |key| - last
  {
    hide NextMatch, IsMatch, Parse, Render, PieceOf;
    ParseStep(key, last);
    var m := NextMatch(key, last);
    if m.Some? {
      ParseLosesNothing(key, m.value.end);
      RenderPiece(key, last, m.value, Parse(key, m.value.end));
    } else {
      RenderRest(key, last);
    }
  }

  lemma RenderRest(key: string, last: nat)
    requires last <= |key|
    ensures Render(if last < |key| then [Literal(key[last..])] else []) == key[last..]
  {
  }

  lemma RenderPiece(key: string, last: nat, m: Match, rest: seq<Segment>)
    requires last <= m.start && IsMatch(key, m.start, m.end) && Render(rest) == key[m.end..]
    ensures Render(PieceOf(key, last, m) + rest) == key[last..]
  {
    hide Render;
    RenderFromMatch(key, m, rest);
    var tail := [Placeholder(key[m.start + 2..m.end - 1])] + rest;
    if m.start > last {
      RenderLiteral(key, last, m.start, tail);
      assert PieceOf(key, last, m) + rest == [Literal(key[last..m.start])] + tail;
    } else {
      assert PieceOf(key, last, m) + rest == tail;
    }
  }

  lemma RenderFromMatch(key: string, m: Match, rest: seq<Segment>)
    requires IsMatch(key, m.start, m.end) && Render(rest) == key[m.end..]
    ensures Render([Placeholder(key[m.start + 2..m.end - 1])] + rest) == key[m.start..]
  {
    hide IsMatch;
    MatchText(key, m);
    var name := key[m.start + 2..m.end - 1];
    var segs := [Placeholder(name)] + rest;
    assert segs[0] == Placeholder(name) && segs[1..] == rest;
    assert Render(segs) == ("#{" + name + "}") + Render(rest);
    assert key[m.start..] == key[m.start..m.end] + key[m.end..];
  }

  lemma MatchText(key: string, m: Match)
    requires IsMatch(key, m.start, m.end)
    ensures m.start + 3 < m.end <= |key| && key[m.start..m.end] == "#{" + key[m.start + 2..m.end - 1] + "}"
  {
  }

  lemma RenderLiteral(key: string, last: nat, mid: nat, rest: seq<Segment>)
    requires last <= mid <= |key| && Render(rest) == key[mid..]
    ensures Render([Literal(key[last..mid])] + rest) == key[last..]
  {
    assert ([Literal(key[last..mid])] + rest)[1..] == rest;
    assert key[last..] == key[last..mid] + key[mid..];
  }

  lemma {:induction false} ParseIsCanonical(key: string, last: nat)
    requires last <= |key|
    ensures Canonical(Parse(key, last))
    decreases |key| - last
  {
    hide NextMatch, NoMatch, IsMatch, Parse, Canonical, IsIdent;
    ParseStep(key, last);
    NothingIsCanonical();
    var m := NextMatch(key, last);
    if m.Some? {
      ParseIsCanonical(key, m.value.end);
      var tail := [Placeholder(key[m.value.start + 2..m.value.end - 1])] + Parse(key, m.value.end);
      MatchNamesIdent(key, m.value);
      CanonicalPlaceholder(key[m.value.start + 2..m.value.end - 1], Parse(key, m.value.end));
      if m.value.start > last {
        SliceHasNoMatch(key, last, m.value.start);
        assert Parse(key, last) == [Literal(key[last..m.value.start])] + tail;
        CanonicalLiteral(key[last..m.value.start], tail);
      } else {
        assert Parse(key, last) == tail;
      }
    } else if last < |key| {
      SliceHasNoMatch(key, last, |key|);
      assert key[last..|key|] == key[last..];
      assert [Literal(key[last..])] + [] == [Literal(key[last..])];
      CanonicalLiteral(key[last..], []);
    }
  }

  lemma NothingIsCanonical()
    ensures Canonical([])
  {
  }

  lemma CanonicalPlaceholder(name: string, rest: seq<Segment>)
    requires IsIdent(name) && Canonical(rest)
    ensures Canonical([Placeholder(name)] + rest)
  {
    hide IsIdent, NoMatch;
    assert ([Placeholder(name)] + rest)[1..] == rest;
  }

  lemma CanonicalLiteral(text: string, rest: seq<Segment>)
    requires text != "" && NoMatch(text) && Canonical(rest) && (rest != [] ==> rest[0].Placeholder?)
    ensures Canonical([Literal(text)] + rest)
  {
    hide IsIdent, NoMatch;
    assert ([Literal(text)] + rest)[1..] == rest;
  }

  lemma MatchNamesIdent(key: string, m: Match)
    requires IsMatch(key, m.start, m.end)
    ensures m.start + 3 < m.end <= |key| && IsIdent(key[m.start + 2..m.end - 1])
  {
  }

  lemma {:induction false} ParseReadsBack(key: string, last: nat, segs: seq<Segment>)
    requires last <= |key| && key[last..] == Render(segs) && Canonical(segs)
    ensures Parse(key, last) == segs
    decreases |segs|
  {
    hide IsMatch, NoMatch, NextMatch, Parse, Render;
    if segs == [] {
      EmptyReadsBack(key, last);
    } else if segs[0].Placeholder? {
      PlaceholderReadsBack(key, last, segs);
      ParseReadsBack(key, last + |segs[0].param| + 3, segs[1..]);
    } else {
      LiteralReadsBack(key, last, segs);
      ParseReadsBack(key, last + |segs[0].text|, segs[1..]);
    }
  }

  lemma EmptyReadsBack(key: string, last: nat)
    requires last <= |key| && key[last..] == Render([])
    ensures Parse(key, last) == []
  {
    assert last == |key|;
    NothingAtEnd(key);
    ParseStep(key, last);
  }

  lemma Drop(key: string, last: nat, t: string, r: string)
    requires last <= |key| && key[last..] == t + r
    ensures last + |t| <= |key| && key[last..last + |t|] == t && key[last + |t|..] == r
  {
    assert |t + r| == |key| - last;
    assert (t + r)[..|t|] == t && (t + r)[|t|..] == r;
    assert key[last..][..|t|] == key[last..last + |t|] && key[last..][|t|..] == key[last + |t|..];
  }

  lemma LiteralReadsBack(key: string, last: nat, segs: seq<Segment>)
    requires last <= |key| && key[last..] == Render(segs) && Canonical(segs)
    requires segs != [] && segs[0].Literal?
    ensures var mid := last + |segs[0].text|;
      mid <= |key| && key[mid..] == Render(segs[1..]) && Parse(key, last) == [segs[0]] + Parse(key, mid)
  {
    hide IsMatch, NoMatch, NextMatch, Parse;
    var t := segs[0].text;
    assert t != "" && NoMatch(t) && Render(segs) == t + Render(segs[1..]);
    assert |segs| > 1 ==> Canonical(segs[1..]) && segs[1].Placeholder?;
    assert |segs| == 1 ==> Render(segs[1..]) == "";
    hide Canonical, Render;
    Drop(key, last, t, Render(segs[1..]));
    if |segs| > 1 {
      PlaceholderReadsBack(key, last + |t|, segs[1..]);
      LiteralStep(key, last, t);
    } else {
      LiteralAtEnd(key, last, t);
    }
  }

  lemma LiteralStep(key: string, last: nat, t: string)
    requires t != "" && NoMatch(t) && last + |t| <= |key| && key[last..last + |t|] == t
    requires NextMatch(key, last + |t|).Some? && NextMatch(key, last + |t|).value.start == last + |t|
    ensures Parse(key, last) == [Literal(t)] + Parse(key, last + |t|)
  {
    hide IsMatch, NoMatch, NextMatch, Parse;
    var mid := last + |t|;
    assert key[mid] == '#' by { MatchBegins(key, NextMatch(key, mid).value); }
    LiteralThenPlaceholder(key, last, mid);
    NextMatchIsLater(key, last, mid);
    ParseStep(key, last);
    ParseStep(key, mid);
  }

  lemma MatchBegins(key: string, m: Match)
    requires IsMatch(key, m.start, m.end)
    ensures m.start < |key| && key[m.start] == '#'
  {
  }

  lemma LiteralAtEnd(key: string, last: nat, t: string)
    requires t != "" && NoMatch(t) && last + |t| == |key| && key[last..last + |t|] == t
    ensures Parse(key, last) == [Literal(t)] + Parse(key, |key|)
  {
    hide IsMatch, NoMatch, NextMatch, Parse;
    LiteralThenPlaceholder(key, last, |key|);
    NothingBefore(key, last);
    NothingAtEnd(key);
    ParseStep(key, last);
    ParseStep(key, |key|);
    assert key[last..] == key[last..|key|];
  }

  lemma NothingBefore(key: string, last: nat)
    requires last <= |key| && forall k, e :: last <= k < |key| ==> !IsMatch(key, k, e)
    ensures NextMatch(key, last).None?
  {
  }

  lemma NothingAtEnd(key: string)
    ensures NextMatch(key, |key|).None?
  {
  }

  lemma NextMatchIsLater(key: string, last: nat, mid: nat)
    requires last <= mid <= |key| && NextMatch(key, mid).Some? && NextMatch(key, mid).value.start == mid
    requires forall k, e :: last <= k < mid ==> !IsMatch(key, k, e)
    ensures NextMatch(key, last) == NextMatch(key, mid)
  {
  }

  lemma PlaceholderReadsBack(key: string, last: nat, segs: seq<Segment>)
    requires last <= |key| && key[last..] == Render(segs) && Canonical(segs)
    requires segs != [] && segs[0].Placeholder?
    ensures last + |segs[0].param| + 3 <= |key|
    ensures key[last + |segs[0].param| + 3..] == Render(segs[1..])
    ensures NextMatch(key, last) == Some(Match(last, last + |segs[0].param| + 3))
    ensures Parse(key, last) == [segs[0]] + Parse(key, last + |segs[0].param| + 3)
  {
    hide IsMatch, NextMatch, Parse;
    var p, source := segs[0].param, segs[0].Source();
    assert source == "#{" + p + "}" && |source| == |p| + 3;
    assert IsIdent(p) && Render(segs) == source + Render(segs[1..]);
    hide Canonical, Render, IsIdent, Segment.Source;
    Drop(key, last, source, Render(segs[1..]));
    PlaceholderStep(key, last, p);
  }

  lemma PlaceholderStep(key: string, last: nat, p: string)
    requires IsIdent(p) && last + |p| + 3 <= |key| && key[last..last + |p| + 3] == "#{" + p + "}"
    ensures NextMatch(key, last) == Some(Match(last, last + |p| + 3))
    ensures Parse(key, last) == [Placeholder(p)] + Parse(key, last + |p| + 3)
  {
    hide NextMatch, Parse, IsMatch, IsIdent;
    PlaceholderMatches(key, last, p);
    ParseStep(key, last);
  }

  lemma PlaceholderMatches(key: string, last: nat, p: string)
    requires IsIdent(p) && last + |p| + 3 <= |key| && key[last..last + |p| + 3] == "#{" + p + "}"
    ensures IsMatch(key, last, last + |p| + 3) && key[last + 2..last + |p| + 2] == p
    ensures NextMatch(key, last) == Some(Match(last, last + |p| + 3))
  {
    hide NextMatch;
    var end := last + |p| + 3;
    assert forall k :: last <= k < end ==> key[k] == ("#{" + p + "}")[k - last];
    assert key[last + 2..end - 1] == p;
    assert IsMatch(key, last, end);
  }

  /** Templates and canonical segment lists correspond one to one. */
  lemma ParseInvertsRender(segs: seq<Segment>)
    ensures Parse(Render(segs), 0) == segs <==> Canonical(segs)
  {
    var key := Render(segs);
    assert key[0..] == key;
    if Canonical(segs) {
      ParseReadsBack(key, 0, segs);
    } else {
      ParseIsCanonical(key, 0);
    }
  }

  // ---- resolving the names ----

  datatype Part = Text(text: string) | Arg(index: nat)

  /** The last parameter of that name other than the context, which is parameter 0. */
  function ParamIndex(params: seq<string>, name: string): (index: Option<nat>)
    ensures index.Some? ==> 1 <= index.value < |params| && params[index.value] == name
    ensures index.Some? ==> forall j :: index.value < j < |params| ==> params[j] != name
    ensures index.None? ==> forall j :: 1 <= j < |params| ==> params[j] != name
  {
    if |params| <= 1 then None
    else if params[|params| - 1] == name then Some(|params| - 1)
    else ParamIndex(params[..|params| - 1], name)
  }

  function PartsOf(seg: Segment, params: seq<string>): seq<Part> {
    match seg
    case Literal(text) => [Text(text)]
    case Placeholder(name) => var i := ParamIndex(params, name); if i.Some? then [Arg(i.value)] else []
  }

  function ResolvedParts(segs: seq<Segment>, params: seq<string>): seq<Part> {
    if segs == [] then [] else PartsOf(segs[0], params) + ResolvedParts(segs[1..], params)
  }

  function UnknownOf(seg: Segment, params: seq<string>): seq<string> {
    if seg.Placeholder? && ParamIndex(params, seg.param).None? then [seg.param] else []
  }

  function UnknownParams(segs: seq<Segment>, params: seq<string>): seq<string> {
    if segs == [] then [] else UnknownOf(segs[0], params) + UnknownParams(segs[1..], params)
  }

  lemma {:induction false} PartsAppend(segs: seq<Segment>, seg: Segment, params: seq<string>)
    ensures ResolvedParts(segs + [seg], params) == ResolvedParts(segs, params) + PartsOf(seg, params)
    ensures UnknownParams(segs + [seg], params) == UnknownParams(segs, params) + UnknownOf(seg, params)
  {
    hide PartsOf, UnknownOf;
    if segs == [] {
      assert segs + [seg] == [seg] && [seg][1..] == [];
    } else {
      PartsAppend(segs[1..], seg, params);
      assert (segs + [seg])[1..] == segs[1..] + [seg];
    }
  }

  method ParamIndexes(params: seq<string>) returns (index: map<string, nat>)
    ensures forall name :: name in index <==> ParamIndex(params, name).Some?
    ensures forall name :: name in index ==> ParamIndex(params, name) == Some(index[name])
  {
    index := map[];
    var i := 1;
    while i < |params|
      invariant 1 <= i && (i <= |params| || (|params| == 0 && index == map[]))
      invariant i <= |params| ==> forall name :: name in index <==> ParamIndex(params[..i], name).Some?
      invariant i <= |params| ==> forall name :: name in index ==> ParamIndex(params[..i], name) == Some(index[name])
    {
      assert params[..i + 1][..i] == params[..i];
      index := index[params[i] := i];
      i := i + 1;
    }
    if |params| > 0 { assert params[..i] == params; }
  }

  method ResolveCacheKey(key: string, params: seq<string>) returns (parts: seq<Part>, unknown: seq<string>)
    ensures parts == ResolvedParts(Parse(key, 0), params)
    ensures unknown == UnknownParams(Parse(key, 0), params)
  {
    hide Parse, ParamIndex;
    var index := ParamIndexes(params);
    parts, unknown := [], [];
    var segs := ParseCacheKey(key);
    for i := 0 to |segs|
      invariant parts == ResolvedParts(segs[..i], params) && unknown == UnknownParams(segs[..i], params)
    {
      PartsAppend(segs[..i], segs[i], params);
      assert segs[..i + 1] == segs[..i] + [segs[i]];
      match segs[i] {
        case Literal(text) => parts := parts + [Text(text)];
        case Placeholder(name) =>
          if name !in index {
            unknown := unknown + [name];
          } else {
            parts := parts + [Arg(index[name])];
          }
      }
    }
    assert segs[..|segs|] == segs;
  }

  // ---- the key at run time ----

  /** What the rendered key expression evaluates to; args are the arguments as fmt.Sprint prints them. */
  function KeyOf(parts: seq<Part>, args: seq<string>): string {
    if parts == [] then ""
    else
      (match parts[0]
       case Text(text) => text
       case Arg(i) => if i < |args| then args[i] else "")
      + KeyOf(parts[1..], args)
  }

  /** The template with every placeholder replaced by the argument it names. */
  function Filled(segs: seq<Segment>, value: map<string, string>): Option<string> {
    if segs == [] then Some("")
    else
      var rest := Filled(segs[1..], value);
      match segs[0]
      case Literal(text) => if rest.None? then None else Some(text + rest.value)
      case Placeholder(name) =>
        if name !in value || rest.None? then None else Some(value[name] + rest.value)
  }

  /**
   The key is the template with the named arguments filled in; a name is reported exactly when it is no parameter,
   and then there is nothing to fill in.
   */
  lemma {:induction false} KeyFillsTemplate(segs: seq<Segment>, params: seq<string>, args: seq<string>,
      value: map<string, string>)
    requires |args| == |params|
    requires forall name :: name in value <==> exists i :: 1 <= i < |params| && params[i] == name
    requires forall name :: ParamIndex(params, name).Some? ==> value[name] == args[ParamIndex(params, name).value]
    ensures UnknownParams(segs, params) == [] <==> Filled(segs, value).Some?
    ensures UnknownParams(segs, params) == [] ==>
      Filled(segs, value) == Some(KeyOf(ResolvedParts(segs, params), args))
  {
    if segs != [] {
      KeyFillsTemplate(segs[1..], params, args, value);
      var rest := ResolvedParts(segs[1..], params);
      match segs[0] {
        case Literal(text) =>
          assert ([Text(text)] + rest)[1..] == rest;
        case Placeholder(name) =>
          if ParamIndex(params, name).Some? {
            assert name in value;
            assert ([Arg(ParamIndex(params, name).value)] + rest)[1..] == rest;
          }
      }
    }
  }
}
