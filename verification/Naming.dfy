/** The names that generator/di/di.go gives to components: unique, no keywords, clear of everything reserved. */
module Naming {
  import opened Model
  import Lexer
  import Value

  // unicode.ToLower and unicode.ToUpper beyond ASCII, left open.
  const LOWER: map<char, char>
  const UPPER: map<char, char>

  predicate IsCapital(c: char) {
    'A' <= c <= 'Z'
  }

  predicate IsSmall(c: char) {
    'a' <= c <= 'z'
  }

  /** Only letters have another case, which is a letter of that case. */
  function ToLower(c: char): char {
    if IsCapital(c) then c - 'A' + 'a'
    else if Lexer.IsAscii(c) || !Lexer.IsLetter(c) || c !in LOWER then c
    else if Lexer.IsLetter(LOWER[c]) && !IsCapital(LOWER[c]) then LOWER[c]
    else c
  }

  function ToUpper(c: char): char {
    if IsSmall(c) then c - 'a' + 'A'
    else if Lexer.IsAscii(c) || !Lexer.IsLetter(c) || c !in UPPER then c
    else if Lexer.IsLetter(UPPER[c]) && !IsSmall(UPPER[c]) then UPPER[c]
    else c
  }

  const KEYWORDS: set<string> := {
    "break", "case", "chan", "const", "continue", "default", "defer", "else", "fallthrough", "for", "func", "go",
    "goto", "if", "import", "interface", "map", "package", "range", "return", "select", "struct", "switch", "type",
    "var"
  }

  /** A Go identifier, by the Go specification. */
  predicate IsIdentifier(s: string) {
    s != "" && Lexer.IsIdentStart(s[0])
    && forall i :: 0 <= i < |s| ==> Lexer.IsIdentStart(s[i]) || Lexer.IsDigit(s[i])
  }

  // ---- from a component name to a candidate ----

  /** The loop of sanitizeIdent over name[i..]; a digit is dropped only at the very start of the name. */
  function SanitizeFrom(name: string, i: nat): string
    requires i <= |name|
    decreases |name| - i
  {
    if i == |name| then ""
    else
      (if Lexer.IsLetter(name[i]) || name[i] == '_' then [name[i]]
       else if Lexer.IsDigit(name[i]) && i > 0 then [name[i]]
       else "")
      + SanitizeFrom(name, i + 1)
  }

  method SanitizeIdent(name: string) returns (id: string)
    ensures id == SanitizeFrom(name, 0)
  {
    id := "";
    for i := 0 to |name|
      invariant id + SanitizeFrom(name, i) == SanitizeFrom(name, 0)
    {
      if Lexer.IsLetter(name[i]) || name[i] == '_' {
        id := id + [name[i]];
      } else if Lexer.IsDigit(name[i]) && i > 0 {
        id := id + [name[i]];
      }
    }
  }

  function AvoidKeyword(name: string): string {
    if name in KEYWORDS then name + "_" else name
  }

  function ToLocalName(name: string): string {
    var id := SanitizeFrom(name, 0);
    if id == "" then "component" else AvoidKeyword([ToLower(id[0])] + id[1..])
  }

  function ToFieldName(name: string): string {
    var id := SanitizeFrom(name, 0);
    if id == "" then "Component" else [ToUpper(id[0])] + id[1..]
  }

  /** After characters that are dropped, a digit comes first: "-9lives" becomes 9lives. */
  predicate LeadingDigit(name: string, i: nat)
    requires i <= |name|
    decreases |name| - i
  {
    if i == |name| || Lexer.IsIdentStart(name[i]) then false
    else if Lexer.IsDigit(name[i]) && i > 0 then true
    else LeadingDigit(name, i + 1)
  }

  lemma {:induction false} SanitizeGivesIdentifier(name: string, i: nat)
    requires i <= |name|
    ensures var id := SanitizeFrom(name, i);
      && (forall k :: 0 <= k < |id| ==> Lexer.IsIdentStart(id[k]) || Lexer.IsDigit(id[k]))
      && (IsIdentifier(id) <==> id != "" && !LeadingDigit(name, i))
    decreases |name| - i
  {
    if i < |name| {
      SanitizeGivesIdentifier(name, i + 1);
      var rest := SanitizeFrom(name, i + 1);
      if Lexer.IsIdentStart(name[i]) || (Lexer.IsDigit(name[i]) && i > 0) {
        var id := [name[i]] + rest;
        assert forall k :: 1 <= k < |id| ==> id[k] == rest[k - 1];
        assert id[0] == name[i] && SanitizeFrom(name, i) == id;
      } else {
        assert SanitizeFrom(name, i) == rest;
      }
    }
  }

  // ---- what the candidates are ----

  /** Character i of a name may stay: a letter, an underscore, or a digit that is not the first character. */
  predicate MayStay(name: string, i: nat)
    requires i < |name|
  {
    var c := name[i];
    || 'a' <= c <= 'z' || 'A' <= c <= 'Z' || c == '_' || ('0' <= c <= '9' && i > 0)
    || (c >= 128 as char && (c in Lexer.LETTERS || (c in Lexer.DIGITS && i > 0)))
  }

  /** All places from i on whose characters may stay, from left to right. */
  ghost predicate AllPlaces(name: string, i: nat, places: seq<nat>) {
    && (forall k :: 0 <= k < |places| ==> i <= places[k] < |name| && MayStay(name, places[k]))
    && (forall j, k :: 0 <= j < k < |places| ==> places[j] < places[k])
    && forall p :: i <= p < |name| && MayStay(name, p) ==> p in places
  }

  ghost predicate StandsThere(name: string, places: seq<nat>, id: string) {
    |id| == |places| && forall k :: 0 <= k < |places| ==> places[k] < |name| && id[k] == name[places[k]]
  }

  lemma {:induction false} KeptPlaces(name: string, i: nat) returns (places: seq<nat>)
    requires i <= |name|
    ensures AllPlaces(name, i, places) && StandsThere(name, places, SanitizeFrom(name, i))
    decreases |name| - i
  {
    hide AllPlaces, StandsThere, MayStay;
    if i < |name| {
      var rest := KeptPlaces(name, i + 1);
      MayStayIs(name, i);
      places := if MayStay(name, i) then [i] + rest else rest;
      hide SanitizeFrom;
      OneMorePlace(name, i, rest);
      OneMoreKept(name, i, rest, SanitizeFrom(name, i + 1));
    } else {
      places := [];
      NoPlace(name);
    }
  }

  lemma NoPlace(name: string)
    ensures AllPlaces(name, |name|, []) && StandsThere(name, [], "")
  {
  }

  lemma OneMorePlace(name: string, i: nat, rest: seq<nat>)
    requires i < |name| && AllPlaces(name, i + 1, rest)
    ensures AllPlaces(name, i, if MayStay(name, i) then [i] + rest else rest)
  {
    hide MayStay;
    if MayStay(name, i) {
      var all := [i] + rest;
      forall j, k | 0 <= j < k < |all| ensures all[j] < all[k] {
        assert all[k] == rest[k - 1];
      }
      forall p | i <= p < |name| && MayStay(name, p) ensures p in all {
        PlaceIsIn(i, rest, p);
      }
    }
  }

  lemma PlaceIsIn(i: nat, rest: seq<nat>, p: nat)
    ensures p in [i] + rest <==> p == i || p in rest
  {
  }

  lemma OneMoreKept(name: string, i: nat, rest: seq<nat>, id: string)
    requires i < |name| && StandsThere(name, rest, id)
    ensures StandsThere(name, [i] + rest, [name[i]] + id)
  {
  }

  lemma MayStayIs(name: string, i: nat)
    requires i < |name|
    ensures SanitizeFrom(name, i)
      == if MayStay(name, i) then [name[i]] + SanitizeFrom(name, i + 1) else SanitizeFrom(name, i + 1)
  {
  }

  /** unicode.ToLower and unicode.ToUpper: a letter of the other case of ASCII, or what the tables say. */
  function Small(c: char): char {
    if c < 128 as char then (if 'A' <= c <= 'Z' then (c as int + 32) as char else c) else ToLower(c)
  }

  function Capital(c: char): char {
    if c < 128 as char then (if 'a' <= c <= 'z' then (c as int - 32) as char else c) else ToUpper(c)
  }

  lemma CaseIs()
    ensures forall c: char :: Small(c) == ToLower(c)
    ensures forall c: char :: Capital(c) == ToUpper(c)
  {
    forall c: char ensures Small(c) == ToLower(c) && Capital(c) == ToUpper(c) {
      CaseOf(c);
    }
  }

  lemma CaseOf(c: char)
    ensures Small(c) == ToLower(c) && Capital(c) == ToUpper(c)
  {
  }

  /**
   The candidate for a local: what may stay of the name, the first letter small, with an underscore behind a keyword;
   "component" if nothing stays. The candidate for a field: the same with a capital, or "Component".
   */
  lemma CandidatesAre(name: string) returns (places: seq<nat>, id: string)
    ensures AllPlaces(name, 0, places) && StandsThere(name, places, id)
    ensures id == "" ==> ToLocalName(name) == "component" && ToFieldName(name) == "Component"
    ensures id != "" ==>
      var local := [Small(id[0])] + id[1..];
      && ToLocalName(name) == (if local in KEYWORDS then local + "_" else local)
      && ToFieldName(name) == [Capital(id[0])] + id[1..]
  {
    hide SanitizeFrom;
    places := KeptPlaces(name, 0);
    id := SanitizeFrom(name, 0);
    CaseIs();
  }

  // ---- from a candidate to an unused name ----

  /** The i-th name tried: the candidate itself, then with 2, 3, ... behind it. */
  function Nth(candidate: string, i: nat): string {
    if i < 2 then candidate else candidate + Value.Decimal(i)
  }

  lemma NthIsInjective(candidate: string, i: nat, j: nat)
    requires 1 <= i < j
    ensures Nth(candidate, i) != Nth(candidate, j)
  {
    var n := |candidate|;
    if i >= 2 {
      assert Nth(candidate, i)[n..] == Value.Decimal(i) && Nth(candidate, j)[n..] == Value.Decimal(j);
      Value.DecimalValue(i);
      Value.DecimalValue(j);
    }
  }

  /** The first of the names tried from the i-th on that is not used. */
  function FirstFree(candidate: string, i: nat, used: set<string>): (name: string)
    requires i >= 1
    ensures name !in used
    ensures exists j :: i <= j && name == Nth(candidate, j) && forall k :: i <= k < j ==> Nth(candidate, k) in used
    decreases |used|
  {
    if Nth(candidate, i) in used then
      var name := FirstFree(candidate, i + 1, used - {Nth(candidate, i)});
      assert name !in used
        && exists j :: i <= j && name == Nth(candidate, j) && forall k :: i <= k < j ==> Nth(candidate, k) in used by {
        var j :| i + 1 <= j && name == Nth(candidate, j)
          && forall k :: i + 1 <= k < j ==> Nth(candidate, k) in used - {Nth(candidate, i)};
        NthIsInjective(candidate, i, j);
      }
      name
    else Nth(candidate, i)
  }

  /** Names that are left out of used are only ever tried once, so removing them changes nothing. */
  lemma {:induction false} FirstFreeIs(candidate: string, i: nat, j: nat, used: set<string>)
    requires 1 <= i <= j && Nth(candidate, j) !in used && forall k :: i <= k < j ==> Nth(candidate, k) in used
    ensures FirstFree(candidate, i, used) == Nth(candidate, j)
    decreases j - i
  {
    if i < j {
      forall k | i + 1 <= k < j ensures Nth(candidate, k) in used - {Nth(candidate, i)} {
        NthIsInjective(candidate, i, k);
      }
      FirstFreeIs(candidate, i + 1, j, used - {Nth(candidate, i)});
    }
  }

  /** The loop of unique, which ends because only finitely many names are used. */
  method Unique(candidate: string, used: set<string>) returns (name: string, used': set<string>)
    ensures name == FirstFree(candidate, 1, used) && used' == used + {name}
  {
    name := candidate;
    var i := 2;
    ghost var rest := used;
    while name in used
      invariant 2 <= i && name == Nth(candidate, i - 1)
      invariant forall k :: 1 <= k < i - 1 ==> Nth(candidate, k) in used
      invariant rest <= used && forall k :: i - 1 <= k && Nth(candidate, k) in used ==> Nth(candidate, k) in rest
      decreases |rest|
    {
      rest := Shrink(candidate, i - 1, used, rest);
      name := candidate + Value.Decimal(i);
      i := i + 1;
    }
    FirstFreeIs(candidate, 1, i - 1, used);
    used' := used + {name};
  }

  lemma Shrink(candidate: string, i: nat, used: set<string>, rest: set<string>) returns (rest': set<string>)
    requires 1 <= i && Nth(candidate, i) in used && rest <= used
    requires forall k :: i <= k && Nth(candidate, k) in used ==> Nth(candidate, k) in rest
    ensures rest' <= used && |rest'| < |rest|
    ensures forall k :: i + 1 <= k && Nth(candidate, k) in used ==> Nth(candidate, k) in rest'
  {
    rest' := rest - {Nth(candidate, i)};
    forall k | i + 1 <= k && Nth(candidate, k) in used ensures Nth(candidate, k) in rest' {
      NthIsInjective(candidate, i, k);
    }
    assert rest == rest' + {Nth(candidate, i)};
  }

  // ---- the names of all components ----

  datatype Binding = Binding(comp: Component, local: string, field: string)

  /** The loop of assignNames from component i on. */
  function AssignFrom(order: seq<ComponentId>, index: map<ComponentId, Component>, i: nat, locals: set<string>,
      fields: set<string>):
      seq<Binding>
    requires i <= |order|
    decreases |order| - i
  {
    if i == |order| then []
    else if order[i] !in index then AssignFrom(order, index, i + 1, locals, fields)
    else
      var c := index[order[i]];
      var b := Binding(c, FirstFree(ToLocalName(c.name), 1, locals), FirstFree(ToFieldName(c.name), 1, fields));
      [b] + AssignFrom(order, index, i + 1, locals + {b.local}, fields + {b.field})
  }

  method AssignNames(order: seq<ComponentId>, index: map<ComponentId, Component>, reserved: set<string>)
    returns (bindings: seq<Binding>)
    ensures bindings == AssignFrom(order, index, 0, reserved, {})
  {
    bindings := [];
    var usedLocal, usedField := reserved, {};
    for i := 0 to |order|
      invariant bindings + AssignFrom(order, index, i, usedLocal, usedField)
             == AssignFrom(order, index, 0, reserved, {})
    {
      if order[i] in index {
        var c := index[order[i]];
        var local, field;
        ghost var before := bindings;
        ghost var rest := AssignFrom(order, index, i, usedLocal, usedField);
        local, usedLocal := Unique(ToLocalName(c.name), usedLocal);
        field, usedField := Unique(ToFieldName(c.name), usedField);
        bindings := bindings + [Binding(c, local, field)];
        assert before + rest == bindings + rest[1..];
      }
    }
  }

  /** Every name is one that unique tried for its component. */
  ghost predicate Tried(name: string, candidate: string) {
    exists j :: 1 <= j && name == Nth(candidate, j)
  }

  ghost predicate WellNamed(bindings: seq<Binding>, locals: set<string>, fields: set<string>) {
    && (forall i :: 0 <= i < |bindings| ==> bindings[i].local !in locals && bindings[i].field !in fields)
    && (forall i, j :: 0 <= i < j < |bindings| ==> bindings[i].local != bindings[j].local)
    && (forall i, j :: 0 <= i < j < |bindings| ==> bindings[i].field != bindings[j].field)
    && (forall i :: 0 <= i < |bindings| ==> Tried(bindings[i].local, ToLocalName(bindings[i].comp.name)))
    && (forall i :: 0 <= i < |bindings| ==> Tried(bindings[i].field, ToFieldName(bindings[i].comp.name)))
  }

  /** Locals and fields are each used once and avoid what was taken before. */
  lemma {:induction false} AssignIsWellNamed(order: seq<ComponentId>, index: map<ComponentId, Component>, i: nat,
      locals: set<string>, fields: set<string>)
    requires i <= |order|
    ensures WellNamed(AssignFrom(order, index, i, locals, fields), locals, fields)
    decreases |order| - i
  {
    hide FirstFree, Nth;
    if i < |order| {
      if order[i] !in index {
        AssignIsWellNamed(order, index, i + 1, locals, fields);
      } else {
        var c := index[order[i]];
        var b := Binding(c, FirstFree(ToLocalName(c.name), 1, locals), FirstFree(ToFieldName(c.name), 1, fields));
        AssignIsWellNamed(order, index, i + 1, locals + {b.local}, fields + {b.field});
        ConsWellNamed(b, AssignFrom(order, index, i + 1, locals + {b.local}, fields + {b.field}), locals, fields);
      }
    }
  }

  lemma ConsWellNamed(b: Binding, rest: seq<Binding>, locals: set<string>, fields: set<string>)
    requires WellNamed(rest, locals + {b.local}, fields + {b.field}) && b.local !in locals && b.field !in fields
    requires Tried(b.local, ToLocalName(b.comp.name)) && Tried(b.field, ToFieldName(b.comp.name))
    ensures WellNamed([b] + rest, locals, fields)
  {
    hide Tried, ToLocalName, ToFieldName;
  }

  /** One binding per known component, in construction order. */
  lemma {:induction false} AssignKeepsOrder(order: seq<ComponentId>, index: map<ComponentId, Component>, i: nat,
      locals: set<string>, fields: set<string>)
    requires i <= |order| && forall k :: 0 <= k < |order| ==> order[k] in index
    ensures var bs := AssignFrom(order, index, i, locals, fields);
      |bs| == |order| - i && forall k :: 0 <= k < |bs| ==> bs[k].comp == index[order[i + k]]
    decreases |order| - i
  {
    hide FirstFree, ToLocalName, ToFieldName;
    if i < |order| {
      var c := index[order[i]];
      var b := Binding(c, FirstFree(ToLocalName(c.name), 1, locals), FirstFree(ToFieldName(c.name), 1, fields));
      AssignKeepsOrder(order, index, i + 1, locals + {b.local}, fields + {b.field});
      var rest := AssignFrom(order, index, i + 1, locals + {b.local}, fields + {b.field});
      forall k | 0 <= k < |[b] + rest| ensures ([b] + rest)[k].comp == index[order[i + k]] {
        if k > 0 { assert ([b] + rest)[k] == rest[k - 1]; }
      }
    }
  }

  /** No local is a keyword: a keyword gets an underscore, and keywords have no digits at the end. */
  lemma LocalIsNoKeyword(local: string, name: string)
    requires Tried(local, ToLocalName(name))
    ensures local !in KEYWORDS
  {
    var j :| 1 <= j && local == Nth(ToLocalName(name), j);
    if j >= 2 {
      assert '0' <= local[|local| - 1] <= '9';
      assert forall k :: k in KEYWORDS ==> k != "" && !('0' <= k[|k| - 1] <= '9');
    } else {
      CandidateIsNoKeyword(name);
    }
  }

  lemma CandidateIsNoKeyword(name: string)
    ensures ToLocalName(name) !in KEYWORDS
  {
    var id := SanitizeFrom(name, 0);
    if id != "" {
      var lowered := [ToLower(id[0])] + id[1..];
      if lowered in KEYWORDS {
        assert forall k :: k in KEYWORDS ==> k != "" && k[|k| - 1] != '_';
        assert (lowered + "_")[|lowered|] == '_';
      }
    }
  }

  /**
   A local is an identifier exactly when its component's name does not start with a digit after dropped characters.
   */
  lemma LocalIsIdentifier(local: string, name: string)
    requires Tried(local, ToLocalName(name))
    ensures IsIdentifier(local) <==> !LeadingDigit(name, 0)
  {
    var j :| 1 <= j && local == Nth(ToLocalName(name), j);
    CandidateIsIdentifier(name);
    SuffixKeepsIdentifier(ToLocalName(name), j);
  }

  lemma SuffixKeepsIdentifier(s: string, j: nat)
    requires s != ""
    ensures IsIdentifier(Nth(s, j)) <==> IsIdentifier(s)
  {
    if j >= 2 {
      var t := s + Value.Decimal(j);
      assert t[0] == s[0] && forall i :: 0 <= i < |s| ==> t[i] == s[i];
      assert forall i :: |s| <= i < |t| ==> Lexer.IsDigit(t[i]);
      if IsIdentifier(t) {
        forall i | 0 <= i < |s| ensures Lexer.IsIdentStart(s[i]) || Lexer.IsDigit(s[i]) { assert s[i] == t[i]; }
      }
    }
  }

  lemma {:induction false} LeadingDigitStays(name: string, i: nat)
    requires i <= |name| && SanitizeFrom(name, i) == ""
    ensures !LeadingDigit(name, i)
    decreases |name| - i
  {
    if i < |name| { LeadingDigitStays(name, i + 1); }
  }

  lemma CandidateIsIdentifier(name: string)
    ensures ToLocalName(name) != "" && (IsIdentifier(ToLocalName(name)) <==> !LeadingDigit(name, 0))
  {
    hide SanitizeFrom, LeadingDigit;
    var id := SanitizeFrom(name, 0);
    SanitizeGivesIdentifier(name, 0);
    if id == "" {
      LeadingDigitStays(name, 0);
    } else {
      var lowered := [ToLower(id[0])] + id[1..];
      LoweredIsIdentifier(id, lowered);
      if lowered in KEYWORDS { KeywordsAreIdentifiers(lowered); }
    }
  }

  lemma LoweredIsIdentifier(id: string, lowered: string)
    requires id != "" && (lowered == [ToLower(id[0])] + id[1..] || lowered == [ToUpper(id[0])] + id[1..])
    requires forall k :: 0 <= k < |id| ==> Lexer.IsIdentStart(id[k]) || Lexer.IsDigit(id[k])
    ensures IsIdentifier(lowered) <==> IsIdentifier(id)
  {
    assert forall k :: 1 <= k < |id| ==> lowered[k] == id[k];
  }

  lemma KeywordsAreIdentifiers(s: string)
    requires s in KEYWORDS
    ensures IsIdentifier(s) && IsIdentifier(s + "_")
  {
  }

  /** A field is an identifier under the same condition. */
  lemma FieldIsIdentifier(field: string, name: string)
    requires Tried(field, ToFieldName(name))
    ensures IsIdentifier(field) <==> !LeadingDigit(name, 0)
  {
    hide SanitizeFrom, LeadingDigit, IsIdentifier, ToUpper, ToLower;
    var j :| 1 <= j && field == Nth(ToFieldName(name), j);
    var id := SanitizeFrom(name, 0);
    SanitizeGivesIdentifier(name, 0);
    if id == "" {
      LeadingDigitStays(name, 0);
      ComponentIsIdentifier();
    } else {
      LoweredIsIdentifier(id, ToFieldName(name));
    }
    SuffixKeepsIdentifier(ToFieldName(name), j);
  }

  lemma ComponentIsIdentifier()
    ensures IsIdentifier("Component")
  {
  }

  /** A field is no keyword, as those start with a small letter; and it is blank only if the local is asked to be. */
  lemma FieldIsNoKeyword(field: string, name: string)
    requires Tried(field, ToFieldName(name))
    ensures field !in KEYWORDS && (field == "_" ==> ToLocalName(name) == "_")
  {
    hide SanitizeFrom;
    var j :| 1 <= j && field == Nth(ToFieldName(name), j);
    assert !IsSmall(field[0]);
    assert forall k :: k in KEYWORDS ==> IsSmall(k[0]);
  }

  /** A local never starts with a capital, so it never hides an exported name. */
  lemma LocalIsNotExported(local: string, name: string)
    requires Tried(local, ToLocalName(name))
    ensures local != "" && !IsCapital(local[0])
  {
    var j :| 1 <= j && local == Nth(ToLocalName(name), j);
  }

  predicate EndsInDigit(x: string) {
    x != "" && '0' <= x[|x| - 1] <= '9'
  }

  /** A name without a digit at the end is only ever tried first. */
  lemma OnlyItsOwnCandidate(x: string, candidate: string)
    requires Tried(x, candidate) && !EndsInDigit(x)
    ensures candidate == x
  {
    var j :| 1 <= j && x == Nth(candidate, j);
  }
}
