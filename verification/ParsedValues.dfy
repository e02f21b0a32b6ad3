/**
 What parsing can produce, and hence which parsed values survive being printed and parsed again:
 exactly those whose quoted strings need only escapes the lexer accepts.
 */
module ParsedValues {
  import opened Model
  import opened Ordering
  import opened Lexer
  import opened Value
  import opened Parser
  import opened RoundTrip

  ghost predicate FloatFree(v: Value)
    decreases v
  {
    match v
    case FloatValue(_) => false
    case ArrayValue(elements) => forall i :: 0 <= i < |elements| ==> FloatFree(elements[i])
    case ObjectValue(fields) => forall k :: k in fields ==> FloatFree(fields[k])
    case _ => true
  }

  ghost predicate StringsPlain(v: Value)
    decreases v
  {
    match v
    case StringValue(val, raw) => raw || AllPlain(val)
    case ArrayValue(elements) => forall i :: 0 <= i < |elements| ==> StringsPlain(elements[i])
    case ObjectValue(fields) => forall k :: k in fields ==> StringsPlain(fields[k])
    case _ => true
  }

  /** Lexically possible and nested at most 32 levels counting from depth; floats are let through. */
  ghost predicate Parseable(v: Value, depth: nat)
    decreases v
  {
    depth <= 32 &&
    match v
    case StringValue(val, raw) => raw ==> '`' !in val
    case IntValue(n) => -9223372036854775808 <= n <= 9223372036854775807
    case IdentValue(name) => IsWord(name) && name != "true" && name != "false" && name != "null"
    case ArrayValue(elements) => forall i :: 0 <= i < |elements| ==> Parseable(elements[i], depth + 1)
    case ObjectValue(fields) => forall k :: k in fields ==> IsWord(k) && Parseable(fields[k], depth + 1)
    case _ => true
  }

  lemma {:induction false} ParseableSplits(v: Value, depth: nat)
    requires Parseable(v, depth) && FloatFree(v)
    ensures Writable(v)
    ensures Readable(v, depth) <==> StringsPlain(v)
    decreases v
  {
    match v
    case ArrayValue(elements) =>
      forall i | 0 <= i < |elements|
        ensures Writable(elements[i]) && (Readable(elements[i], depth + 1) <==> StringsPlain(elements[i]))
      {
        ParseableSplits(elements[i], depth + 1);
      }
    case ObjectValue(fields) =>
      forall k | k in fields
        ensures Writable(fields[k]) && (Readable(fields[k], depth + 1) <==> StringsPlain(fields[k]))
      {
        ParseableSplits(fields[k], depth + 1);
      }
    case _ =>
  }

  // ---- tokens ----

  lemma {:induction false} RawTextHasNoBacktick(s: string, p: nat, start: nat)
    requires start < p <= |s| && '`' !in s[start + 1..p]
    ensures var t := RawString(s, p, start).tok; t.kind == Str ==> t.raw && '`' !in t.text
    decreases |s| - p
  {
    if p < |s| && s[p] != '`' {
      assert s[start + 1..p + 1] == s[start + 1..p] + [s[p]];
      RawTextHasNoBacktick(s, p + 1, start);
    }
  }

  lemma {:induction false} QuotedTextIsNotRaw(s: string, p: nat, start: nat, acc: string)
    requires start < p <= |s|
    ensures !QuotedString(s, p, start, acc).tok.raw
    decreases |s| - p
  {
    if p < |s| && s[p] != '"' && s[p] != '\n' {
      if s[p] != '\\' {
        QuotedTextIsNotRaw(s, p + 1, start, acc + [s[p]]);
      } else if p + 1 < |s| && IsEscape(s[p + 1]) {
        QuotedTextIsNotRaw(s, p + 2, start, acc + [Unescape(s[p + 1])]);
      }
    }
  }

  lemma {:induction false} IdentTextIsWord(s: string, p: nat)
    requires p <= |s|
    ensures forall i :: p <= i < IdentEnd(s, p) ==> IsIdentPart(s[i])
    decreases |s| - p
  {
    if p < |s| && IsIdentPart(s[p]) { IdentTextIsWord(s, p + 1); }
  }

  /** The tokens a lexer can deliver. */
  ghost predicate Genuine(t: Token) {
    && (t.kind == Str && t.raw ==> '`' !in t.text)
    && (t.kind == Ident ==> IsWord(t.text))
  }

  lemma LexIsGenuine(s: string, p: nat)
    requires p <= |s|
    ensures Genuine(Lex(s, p).tok)
  {
    hide QuotedString, RawString, IdentEnd, IsSpace;
    var start := SkipSpace(s, p);
    if start < |s| {
      QuotedTextIsNotRaw(s, start + 1, start, "");
      RawTextHasNoBacktick(s, start + 1, start);
      IdentTextIsWord(s, start + 1);
    }
  }

  // ---- values ----

  ghost predicate GoodResult(r: Parsed<Value>, depth: nat) {
    r.Ok? ==> Parseable(r.value, depth)
  }

  lemma {:induction false} ParsedIsParseable(s: string, tok: Token, p: nat, depth: nat)
    requires p <= |s| && Genuine(tok)
    ensures GoodResult(ValueAt(s, tok, p, depth), depth)
    decreases |s| - p, if tok.kind == LBracket || tok.kind == LBrace then 3 else 0
  {
    hide ArrayAt, ObjectAt, ParseInt;
    if depth <= MAX_NESTING_DEPTH {
      if tok.kind == LBracket {
        ParsedArray(s, p, depth);
      } else if tok.kind == LBrace {
        ParsedObject(s, p, depth);
      } else if tok.kind == IntLit {
        ParseIntInRange(tok.text);
      }
    }
  }

  lemma ParseIntInRange(text: string)
    ensures var n := ParseInt(text); n.Some? ==> MIN_INT64 <= n.value <= MAX_INT64
  {
  }

  lemma {:induction false} ParsedArray(s: string, p: nat, depth: nat)
    requires p <= |s| && depth <= MAX_NESTING_DEPTH
    ensures GoodResult(ArrayAt(s, p, depth), depth)
    decreases |s| - p, 2
  {
    hide Lex, ElementsAt;
    ParsedElements(s, p, depth, []);
  }

  lemma {:induction false} ParsedElements(s: string, p: nat, depth: nat, acc: seq<Value>)
    requires p <= |s| && depth <= MAX_NESTING_DEPTH && Parseable(ArrayValue(acc), depth)
    ensures GoodResult(ElementsAt(s, p, depth, acc), depth)
    decreases |s| - p, 1
  {
    hide Lex, ValueAt;
    var elem := Lex(s, p);
    LexIsGenuine(s, p);
    ParsedIsParseable(s, elem.tok, elem.next, depth + 1);
    var r := ValueAt(s, elem.tok, elem.next, depth + 1);
    if r.Ok? {
      var sep := Lex(s, r.next);
      assert Parseable(ArrayValue(acc + [r.value]), depth);
      if sep.tok.kind == Comma { ParsedElements(s, sep.next, depth, acc + [r.value]); }
    }
  }

  lemma {:induction false} ParsedObject(s: string, p: nat, depth: nat)
    requires p <= |s| && depth <= MAX_NESTING_DEPTH
    ensures GoodResult(ObjectAt(s, p, depth), depth)
    decreases |s| - p, 2
  {
    hide Lex, FieldsAt;
    ParsedFields(s, p, depth, map[]);
  }

  lemma {:induction false} ParsedFields(s: string, p: nat, depth: nat, acc: map<string, Value>)
    requires p <= |s| && depth <= MAX_NESTING_DEPTH && Parseable(ObjectValue(acc), depth)
    ensures GoodResult(FieldsAt(s, p, depth, acc), depth)
    decreases |s| - p, 1
  {
    hide Lex, ValueAt, IsWord;
    var key := Lex(s, p);
    var eq := Lex(s, key.next);
    if key.tok.kind == Ident && eq.tok.kind == Equals {
      LexIsGenuine(s, p);
      var first := Lex(s, eq.next);
      LexIsGenuine(s, eq.next);
      ParsedIsParseable(s, first.tok, first.next, depth + 1);
      var r := ValueAt(s, first.tok, first.next, depth + 1);
      if r.Ok? && key.tok.text !in acc {
        var acc' := acc[key.tok.text := r.value];
        assert Parseable(ObjectValue(acc'), depth);
        var sep := Lex(s, r.next);
        if sep.tok.kind == Comma { ParsedFields(s, sep.next, depth, acc'); }
      }
    }
  }
}
