/**
 Print then parse at the level of a whole comment: `@Name(k=<printed value>)`, also when raw strings
 make it span several lines.
 */
module CommentRoundTrip {
  import opened Model
  import opened Ordering
  import opened Lexer
  import opened Value
  import opened Parser
  import opened RoundTrip
  import opened Comment
  import opened ParsedValues

  // ---- gathering keeps the lines of a printed value together ----

  /** Scanning across lines: a newline ends a line. */
  function ScanText(st: Scan, text: string): Scan
    decreases |text|
  {
    if text == [] then st
    else ScanText(if text[0] == '\n' then LineEnd(st) else ScanChar(st, text[0]), text[1..])
  }

  /** At every newline met while scanning something is open: a raw string or a bracket. */
  predicate NewlinesOpen(st: Scan, text: string)
    decreases |text|
  {
    text == [] ||
    ((text[0] == '\n' ==> !Complete(LineEnd(st))) &&
     NewlinesOpen(if text[0] == '\n' then LineEnd(st) else ScanChar(st, text[0]), text[1..]))
  }

  /** Scanning text takes st to st', and something is open at every newline. */
  predicate Scans(st: Scan, text: string, st': Scan) {
    NewlinesOpen(st, text) && ScanText(st, text) == st'
  }

  lemma {:induction false} ScansThen(st: Scan, a: string, mid: Scan, b: string, end: Scan)
    requires Scans(st, a, mid) && Scans(mid, b, end)
    ensures Scans(st, a + b, end)
    decreases |a|
  {
    if a == [] {
      assert a + b == b;
    } else {
      assert (a + b)[0] == a[0] && (a + b)[1..] == a[1..] + b;
      ScansThen(if a[0] == '\n' then LineEnd(st) else ScanChar(st, a[0]), a[1..], mid, b, end);
    }
  }

  /** Characters that mean nothing to the scan outside strings. */
  predicate Inert(c: char) {
    c != '"' && c != '`' && c != '\n' && c != '(' && c != ')' && c != '[' && c != ']' && c != '{' && c != '}'
  }

  function Inside(depth: int): Scan {
    Scan(depth, true, false, false, false)
  }

  lemma {:induction false} InertScans(st: Scan, text: string)
    requires !st.inRaw && !st.inString && forall i :: 0 <= i < |text| ==> Inert(text[i])
    ensures Scans(st, text, st)
    decreases |text|
  {
    if text != [] {
      assert Inert(text[0]);
      forall i | 0 <= i < |text[1..]| ensures Inert(text[1..][i]) {
        assert Inert(text[i + 1]);
      }
      InertScans(st, text[1..]);
    }
  }

  lemma OneScans(st: Scan, c: char)
    requires c != '\n'
    ensures Scans(st, [c], ScanChar(st, c))
  {
    assert [c][1..] == [];
  }

  /** No newline, and no quote that is not escaped. */
  predicate Quiet(text: string) {
    forall i :: 0 <= i < |text| ==> text[i] != '"' && text[i] != '\\' && text[i] != '\n'
  }

  lemma {:induction false} HexIsQuiet(n: nat, width: nat)
    ensures Quiet(Hex(n, width))
  {
    if width > 0 { HexIsQuiet(n / 16, width - 1); }
  }

  lemma {:induction false} QuietScans(st: Scan, text: string)
    requires !st.inRaw && st.inString && !st.escaped && Quiet(text)
    ensures Scans(st, text, st)
    decreases |text|
  {
    if text != [] {
      assert text[0] != '"' && text[0] != '\\' && text[0] != '\n';
      assert forall i :: 0 <= i < |text[1..]| ==> text[1..][i] == text[i + 1];
      QuietScans(st, text[1..]);
    }
  }

  /** A backslash, one character and a quiet rest. */
  predicate IsEscaped(t: string) {
    |t| >= 2 && t[0] == '\\' && t[1] != '\n' && Quiet(t[2..])
  }

  lemma EscapedHex(letter: char, hex: string)
    requires letter != '\n' && Quiet(hex)
    ensures IsEscaped(['\\', letter] + hex)
  {
    assert (['\\', letter] + hex)[2..] == hex;
  }

  /** A quoted character is either quiet or an escape. */
  lemma QuoteCharShape(c: char)
    ensures Quiet(QuoteChar(c)) || IsEscaped(QuoteChar(c))
  {
    hide Hex, IsPlain, Quiet;
    HexIsQuiet(c as int, 2);
    HexIsQuiet(c as int, 4);
    HexIsQuiet(c as int, 8);
    EscapedHex('x', Hex(c as int, 2));
    EscapedHex('u', Hex(c as int, 4));
    EscapedHex('U', Hex(c as int, 8));
    PlainShape(c);
    EmptyIsQuiet();
  }

  lemma EmptyIsQuiet()
    ensures Quiet("")
    ensures forall c: char :: c != '\n' ==> IsEscaped(['\\', c])
  {
  }

  lemma PlainShape(c: char)
    ensures c != '"' && c != '\\' && c != '\n' ==> Quiet([c])
  {
  }

  lemma QuoteCharScans(st: Scan, c: char)
    requires !st.inRaw && st.inString && !st.escaped
    ensures Scans(st, QuoteChar(c), st)
  {
    hide QuoteChar;
    QuoteCharShape(c);
    var t := QuoteChar(c);
    if !IsEscaped(t) {
      QuietScans(st, t);
    } else {
      OneScans(st, t[0]);
      var esc := ScanChar(st, t[0]);
      OneScans(esc, t[1]);
      QuietScans(st, t[2..]);
      ScansThen(esc, [t[1]], st, t[2..], st);
      ScansThen(st, [t[0]], esc, [t[1]] + t[2..], st);
      assert t == [t[0]] + ([t[1]] + t[2..]);
    }
  }

  lemma {:induction false} QuoteBodyScans(st: Scan, val: string)
    requires !st.inRaw && st.inString && !st.escaped
    ensures Scans(st, QuoteBody(val), st)
    decreases |val|
  {
    if val != [] {
      hide QuoteChar, Scans;
      QuoteCharScans(st, val[0]);
      QuoteBodyScans(st, val[1..]);
      ScansThen(st, QuoteChar(val[0]), st, QuoteBody(val[1..]), st);
    } else {
      assert QuoteBody(val) == [];
    }
  }

  lemma {:induction false} RawScans(st: Scan, val: string)
    requires st.inRaw && !st.inString && !st.escaped && '`' !in val
    ensures Scans(st, val, st)
    decreases |val|
  {
    if val != [] {
      assert val[0] != '`' && forall c :: c in val[1..] ==> c in val;
      RawScans(st, val[1..]);
    }
  }

  /** open, body and close scanned from st through the states a and b. */
  lemma BracketScans(st: Scan, open: char, a: Scan, body: string, b: Scan, close: char, end: Scan)
    requires open != '\n' && close != '\n' && ScanChar(st, open) == a && ScanChar(b, close) == end
    requires Scans(a, body, b)
    ensures Scans(st, [open] + body + [close], end)
  {
    hide Scans, ScanChar;
    OneScans(st, open);
    OneScans(b, close);
    ScansThen(st, [open], a, body, b);
    ScansThen(st, [open] + body, b, [close], end);
  }

  lemma WordIsInert(w: string)
    requires IsWord(w)
    ensures forall i :: 0 <= i < |w| ==> Inert(w[i])
  {
    forall i | 0 <= i < |w| ensures Inert(w[i]) {
      assert IsIdentPart(w[i]);
    }
  }

  lemma IntIsInert(n: int)
    ensures forall i :: 0 <= i < |FormatInt(n)| ==> Inert(FormatInt(n)[i])
  {
  }

  lemma NumberIsInert(t: string)
    requires IsNumberText(t)
    ensures forall i :: 0 <= i < |t| ==> Inert(t[i])
  {
    forall i | 0 <= i < |t| ensures Inert(t[i]) {
      if i >= BehindSign(t) { assert InNumber(t, BehindSign(t), i); }
    }
  }

  lemma ScalarScans(v: Value, depth: int)
    requires Writable(v) && !v.ArrayValue? && !v.ObjectValue?
    ensures Scans(Inside(depth), GoString(v), Inside(depth))
  {
    hide Scans, QuoteBody, FormatInt, IsWord, Inert;
    KeywordsAreWords();
    var st := Inside(depth);
    match v
    case StringValue(val, raw) =>
      if raw {
        var inner := st.(inRaw := true);
        RawScans(inner, val);
        BracketScans(st, '`', inner, val, inner, '`', st);
      } else {
        var inner := st.(inString := true);
        QuoteBodyScans(inner, val);
        BracketScans(st, '"', inner, QuoteBody(val), inner, '"', st);
      }
    case IntValue(n) =>
      IntIsInert(n);
      InertScans(st, FormatInt(n));
    case FloatValue(f) =>
      NumberIsInert(FORMAT_FLOAT[f]);
      InertScans(st, FORMAT_FLOAT[f]);
    case BoolValue(b) =>
      WordIsInert(GoString(v));
      InertScans(st, GoString(v));
    case IdentValue(name) =>
      WordIsInert(name);
      InertScans(st, name);
    case NullValue =>
      WordIsInert("null");
      InertScans(st, "null");
  }

  /** The scan comes out of a printed value as it went in. */
  lemma {:induction false} ValueScans(v: Value, depth: int)
    requires Writable(v)
    ensures Scans(Inside(depth), GoString(v), Inside(depth))
    decreases v
  {
    var st, inner := Inside(depth), Inside(depth + 1);
    if v.ArrayValue? {
      ElementsScan(v, 0, depth + 1);
      BracketScans(st, '[', inner, ElementsFrom(v, 0), inner, ']', st);
    } else if v.ObjectValue? {
      var keys := SortedKeys(v.fields.Keys);
      FieldsScan(v, keys, 0, depth + 1);
      BracketScans(st, '{', inner, FieldsFrom(v, keys, 0), inner, '}', st);
    } else {
      ScalarScans(v, depth);
    }
  }

  lemma SeparatorScans(depth: int)
    ensures Scans(Inside(depth), ", ", Inside(depth)) && Scans(Inside(depth), "=", Inside(depth))
  {
    InertScans(Inside(depth), ", ");
    InertScans(Inside(depth), "=");
  }

  lemma {:induction false} ElementsScan(v: Value, i: nat, depth: int)
    requires v.ArrayValue? && Writable(v) && i <= |v.elements|
    ensures Scans(Inside(depth), ElementsFrom(v, i), Inside(depth))
    decreases v, |v.elements| - i
  {
    hide GoString, Scans;
    var st := Inside(depth);
    if i == |v.elements| {
      InertScans(st, "");
    } else {
      var t := GoString(v.elements[i]);
      ValueScans(v.elements[i], depth);
      if i + 1 < |v.elements| {
        SeparatorScans(depth);
        ElementsScan(v, i + 1, depth);
        ScansThen(st, t, st, ", ", st);
        ScansThen(st, t + ", ", st, ElementsFrom(v, i + 1), st);
      }
    }
  }

  lemma {:induction false} FieldsScan(v: Value, keys: seq<string>, i: nat, depth: int)
    requires v.ObjectValue? && Writable(v) && i <= |keys| && forall k :: k in keys ==> k in v.fields
    ensures Scans(Inside(depth), FieldsFrom(v, keys, i), Inside(depth))
    decreases v, |keys| - i
  {
    hide GoString, Scans, IsWord;
    var st := Inside(depth);
    if i == |keys| {
      InertScans(st, "");
    } else {
      var key, t := keys[i], GoString(v.fields[keys[i]]);
      ValueScans(v.fields[key], depth);
      WordIsInert(key);
      InertScans(st, key);
      SeparatorScans(depth);
      ScansThen(st, key, st, "=", st);
      ScansThen(st, key + "=", st, t, st);
      if i + 1 < |keys| {
        FieldsScan(v, keys, i + 1, depth);
        ScansThen(st, key + "=" + t, st, ", ", st);
        ScansThen(st, key + "=" + t + ", ", st, FieldsFrom(v, keys, i + 1), st);
      }
    }
  }

  // ---- the whole text ----

  ghost function AnnotationText(name: string, key: string, v: Value): string {
    "@" + name + "(" + key + "=" + GoString(v) + ")"
  }

  lemma TextScans(name: string, key: string, v: Value)
    requires IsWord(name) && IsWord(key) && Writable(v)
    ensures NewlinesOpen(INITIAL_SCAN, AnnotationText(name, key, v))
  {
    hide GoString, Scans, IsWord, Writable;
    var st := INITIAL_SCAN;
    var t := GoString(v);
    WordIsInert(name);
    InertScans(st, name);
    InertScans(st, "@");
    ScansThen(st, "@", st, name, st);
    WordIsInert(key);
    InertScans(Inside(1), key);
    SeparatorScans(1);
    ValueScans(v, 1);
    ScansThen(Inside(1), key, Inside(1), "=", Inside(1));
    ScansThen(Inside(1), key + "=", Inside(1), t, Inside(1));
    var done := Inside(0);
    BracketScans(st, '(', Inside(1), key + "=" + t, Inside(1), ')', done);
    ScansThen(st, "@" + name, st, "(" + (key + "=" + t) + ")", done);
    assert AnnotationText(name, key, v) == "@" + name + ("(" + (key + "=" + t) + ")");
    assert Scans(st, AnnotationText(name, key, v), done);
    ScansMeetOpen(st, AnnotationText(name, key, v), done);
  }

  lemma ScansMeetOpen(st: Scan, text: string, st': Scan)
    requires Scans(st, text, st')
    ensures NewlinesOpen(st, text)
  {
  }

  lemma {:induction false} ScanLine(st: Scan, text: string, n: nat)
    requires n <= |text| && NewlinesOpen(st, text) && forall i :: 0 <= i < n ==> text[i] != '\n'
    ensures NewlinesOpen(ScanChars(st, text[..n]), text[n..])
    decreases n
  {
    if n == 0 {
      assert text[..0] == [] && text[0..] == text;
    } else {
      var st' := ScanChar(st, text[0]);
      assert text[0] != '\n';
      assert text[..n][1..] == text[1..][..n - 1] && text[1..][n - 1..] == text[n..];
      assert forall i :: 0 <= i < n - 1 ==> text[1..][i] == text[i + 1];
      ScanLine(st', text[1..], n - 1);
    }
  }

  /** Gathering from the line at offset on, in state st, goes on to the last line. */
  ghost predicate GathersAll(text: string, offset: nat, st: Scan)
    requires offset <= |text|
  {
    var lines := LinesFrom(text, offset);
    GroupLength(lines, st) == |lines| && LineStop(lines[|lines| - 1]) == |text|
  }

  /** When something is open at every newline, all lines are gathered. */
  lemma {:induction false} GroupIsAll(text: string, offset: nat, st: Scan)
    requires offset <= |text| && NewlinesOpen(st, text[offset..])
    ensures GathersAll(text, offset, st)
    decreases |text| - offset
  {
    hide *;
    var nl := NewlineFrom(text, offset);
    if nl < |text| {
      LineKeepsGathering(text, offset, nl, st);
      GroupIsAll(text, nl + 1, FeedLine(st, text[offset..nl]));
      GroupGoesOn(text, offset, nl, st);
    } else {
      GroupOfOne(text, offset, st);
    }
  }

  lemma GroupGoesOn(text: string, offset: nat, nl: nat, st: Scan)
    requires offset <= nl < |text| && nl == NewlineFrom(text, offset)
    requires !Complete(FeedLine(st, text[offset..nl])) && GathersAll(text, nl + 1, FeedLine(st, text[offset..nl]))
    ensures GathersAll(text, offset, st)
  {
    hide NewlineFrom, LinesFrom, GroupLength, Complete, FeedLine;
    FirstLine(text, offset);
    var line, rest := Line(text[offset..nl], offset), LinesFrom(text, nl + 1);
    GroupOfTwoOrMore(line, rest, st);
    LastOf(line, rest);
  }

  lemma LastOf(line: Line, rest: seq<Line>)
    requires rest != []
    ensures ([line] + rest)[|[line] + rest| - 1] == rest[|rest| - 1] && |[line] + rest| == 1 + |rest|
  {
  }

  lemma GroupOfTwoOrMore(line: Line, rest: seq<Line>, st: Scan)
    requires rest != [] && !Complete(FeedLine(st, line.text))
    ensures GroupLength([line] + rest, st) == 1 + GroupLength(rest, FeedLine(st, line.text))
  {
    var lines := [line] + rest;
    assert lines[0] == line && lines[1..] == rest;
    hide Complete, FeedLine;
  }

  lemma GroupOfOne(text: string, offset: nat, st: Scan)
    requires offset <= |text| && NewlineFrom(text, offset) == |text|
    ensures GathersAll(text, offset, st)
  {
    FirstLine(text, offset);
    hide NewlineFrom, LinesFrom;
  }

  /** A line that ends with something open is not the last of its annotation. */
  lemma LineKeepsGathering(text: string, offset: nat, nl: nat, st: Scan)
    requires offset <= nl < |text| && text[nl] == '\n' && NewlinesOpen(st, text[offset..])
    requires forall i :: offset <= i < nl ==> text[i] != '\n'
    ensures !Complete(FeedLine(st, text[offset..nl])) && NewlinesOpen(FeedLine(st, text[offset..nl]), text[nl + 1..])
  {
    hide ScanChars, ScanChar;
    var rest, n := text[offset..], nl - offset;
    assert forall i :: 0 <= i < n ==> rest[i] == text[offset + i];
    ScanLine(st, rest, n);
    assert rest[..n] == text[offset..nl] && rest[n..] == text[nl..];
    assert text[nl..][0] == '\n' && text[nl..][1..] == text[nl + 1..];
  }

  /** Parsing the buffer `@name(key=value)`. */
  lemma BufferReadsBack(name: string, key: string, v: Value)
    requires IsWord(name) && IsWord(key) && Writable(v)
    ensures var r := AnnotationIn(AnnotationText(name, key, v));
      if Readable(v, 0) then r == Annotated(name, map[key := v], 0) else r.Malformed?
  {
    hide GoString, IsWord, Writable, Readable, Lex, ValueAt, AnnotationIn, ArgumentsAt, StandsAt, ReadsBack;
    hide ReadsBackArgs;
    var t := GoString(v);
    var s := AnnotationText(name, key, v);
    var p := 1 + |name|;
    var q := p + 1 + |key|;
    TextPieces(name, key, t);
    assert s == "@" + name + "(" + key + "=" + t + ")";
    hide AnnotationText;
    AnnotationLexes(s, name, p, key, q);
    ValueReadsBack(s, q + 1, v, 0);
    LexOne(s, q + 1 + |t|);
    LexEnd(s);
    ArgumentReadsBack(s, p + 1, key, q, v, q + 1 + |t|);
    WrapAnnotation(s, name, p, key, v, q + 1 + |t|);
  }

  /** The tokens before the value. */
  lemma AnnotationLexes(s: string, name: string, p: nat, key: string, q: nat)
    requires IsWord(name) && IsWord(key) && p == 1 + |name| && q == p + 1 + |key| && q < |s|
    requires s[0] == '@' && s[p] == '(' && s[q] == '=' && StandsAt(s, 1, name) && StandsAt(s, p + 1, key)
    ensures Lex(s, 0).tok.kind == At && Lex(s, 0).tok.offset == 0 && Lex(s, 0).next == 1
    ensures Lex(s, 1) == Lexed(Token(Ident, name, 1, false), p)
    ensures Lex(s, p).tok.kind == LParen && Lex(s, p).next == p + 1
    ensures Lex(s, p + 1) == Lexed(Token(Ident, key, p + 1, false), q)
    ensures Lex(s, q).tok.kind == Equals && Lex(s, q).next == q + 1
  {
    hide IsWord, Lex, IsIdentPart, StandsAt;
    LexOne(s, 0);
    NotIdentPart();
    LexWord(s, 1, name);
    LexOne(s, p);
    LexWord(s, p + 1, key);
    LexOne(s, q);
  }

  lemma TextPieces(name: string, key: string, t: string)
    ensures var s := "@" + name + "(" + key + "=" + t + ")";
      var p := 1 + |name|; var q := p + 1 + |key|; var end := q + 1 + |t|;
      && |s| == end + 1 && s[0] == '@' && s[p] == '(' && s[q] == '=' && s[end] == ')'
      && StandsAt(s, 1, name) && StandsAt(s, p + 1, key) && StandsAt(s, q + 1, t)
  {
  }

  lemma WrapAnnotation(s: string, name: string, p: nat, key: string, v: Value, end: nat)
    requires 1 <= p < end && end + 1 == |s|
    requires Lex(s, 0).tok.kind == At && Lex(s, 0).tok.offset == 0 && Lex(s, 0).next == 1
    requires Lex(s, 1) == Lexed(Token(Ident, name, 1, false), p)
    requires Lex(s, p).tok.kind == LParen && Lex(s, p).next == p + 1
    requires ReadsBackArgs(ArgumentsAt(s, p + 1), key, v, end + 1) && Lex(s, |s|).tok.kind == EOF
    ensures var r := AnnotationIn(s);
      if Readable(v, 0) then r == Annotated(name, map[key := v], 0) else r.Malformed?
  {
    hide Lex, ArgumentsAt, Readable;
  }

  lemma NotIdentPart()
    ensures !IsIdentPart('(') && !IsIdentPart('=')
  {
  }

  lemma LexEnd(s: string)
    ensures Lex(s, |s|).tok.kind == EOF
  {
  }

  lemma ArgumentReadsBack(s: string, p: nat, key: string, q: nat, v: Value, end: nat)
    requires p <= q < end < |s| && Lex(s, p) == Lexed(Token(Ident, key, p, false), q)
    requires Lex(s, q).tok.kind == Equals && Lex(s, q).next == q + 1
    requires ReadsBack(ValueAt(s, Lex(s, q + 1).tok, Lex(s, q + 1).next, 0), v, Readable(v, 0), end)
    requires Lex(s, end).tok.kind == RParen && Lex(s, end).next == end + 1
    ensures ReadsBackArgs(ArgumentsAt(s, p), key, v, end + 1)
  {
    hide Lex, ValueAt, Readable;
    var r := BindingAt(s, p, Bindings(map[], 0));
    assert if Readable(v, 0) then r == Ok(Bindings(map[key := v], 0), end) else r.Err?;
  }

  ghost predicate ReadsBackArgs(r: Parsed<Arguments>, key: string, v: Value, end: nat) {
    if Readable(v, 0) then r == Ok(map[key := v], end) else r.Err?
  }

  lemma TextStarts(name: string, key: string, v: Value)
    requires IsWord(name)
    ensures var line := LinesFrom(AnnotationText(name, key, v), 0)[0];
      IsAnnotationStart(line.text) && BufferStart(line) == 0
  {
    hide GoString;
    var s := AnnotationText(name, key, v);
    assert s[0] == '@' && s[1] == name[0] && IsIdentStart(s[1]) && s[1] != '\n';
    var nl := NewlineFrom(s, 0);
    assert nl == NewlineFrom(s, 1) == NewlineFrom(s, 2);
    var line := s[0..nl];
    assert line[0] == '@' && line[1] == s[1];
    assert LeadingBlanks(line) == 0 && line[0..] == line;
  }

  /**
   The main result: ParseComment on `@Name(k=<GoString of v>)` yields exactly that annotation with
   exactly that value and no diagnostic if v is readable, and otherwise one diagnostic and nothing else.
   */
  lemma PrintThenParse(name: string, key: string, v: Value, base: Position)
    requires IsWord(name) && IsWord(key) && Writable(v)
    ensures var text := AnnotationText(name, key, v); var r := Parse(text, base);
      if Readable(v, 0)
      then |r.annotations| == 1 && r.diagnostics == []
           && r.annotations[0].name == name && r.annotations[0].args == map[key := v]
           && r.annotations[0].position == PositionAt(base, text, 0) && r.annotations[0].raw == text
      else r.annotations == [] && |r.diagnostics| == 1
  {
    hide GoString, IsWord, Writable, Readable, AnnotationIn, GroupLength, NewlinesOpen, IsAnnotationStart;
    hide TrimLeft, TrimRight;
    var text := AnnotationText(name, key, v);
    var lines := LinesFrom(text, 0);
    TextScans(name, key, v);
    assert text[0..] == text;
    GroupIsAll(text, 0, INITIAL_SCAN);
    TextStarts(name, key, v);
    BufferReadsBack(name, key, v);
    LinesLieIn(text, 0);
    WholeText(text, base, lines);
    TrimKeeps(text);
  }

  lemma TrimKeeps(text: string)
    requires text != [] && !IsSpace(text[0]) && !IsSpace(text[|text| - 1])
    ensures TrimRight(TrimLeft(text)) == text
  {
  }

  /**
   Hence a float-free value that parsing produced is reproduced by printing and parsing it exactly
   when its quoted strings hold no character that strconv.Quote writes with an escape unknown to the
   lexer.
   */
  lemma ParsedValueReadsBack(s: string, p: nat, name: string, key: string, base: Position)
    requires p <= |s| && IsWord(name) && IsWord(key)
    requires var r := ValueAt(s, Lex(s, p).tok, Lex(s, p).next, 0); r.Ok? && FloatFree(r.value)
    ensures var v := ValueAt(s, Lex(s, p).tok, Lex(s, p).next, 0).value;
      var again := Parse(AnnotationText(name, key, v), base);
      (|again.annotations| == 1 && again.annotations[0].args == map[key := v]) <==> StringsPlain(v)
  {
    hide Lex, ValueAt, Parse, AnnotationText, IsWord, StringsPlain, FloatFree, Readable, Writable;
    LexIsGenuine(s, p);
    ParsedIsParseable(s, Lex(s, p).tok, Lex(s, p).next, 0);
    var v := ValueAt(s, Lex(s, p).tok, Lex(s, p).next, 0).value;
    ParseableSplits(v, 0);
    PrintThenParse(name, key, v, base);
  }

  /**
   A float that is printed without a point does not come back either: 2.0 is printed as 2, which is an integer.
   */
  lemma WholeFloatIsLost(f: int, name: string, key: string, base: Position)
    requires f in FORMAT_FLOAT && FORMAT_FLOAT[f] == "2" && IsWord(name) && IsWord(key)
    ensures GoString(FloatValue(f)) == GoString(IntValue(2))
    ensures var r := Parse(AnnotationText(name, key, FloatValue(f)), base);
      |r.annotations| == 1 && r.diagnostics == [] && r.annotations[0].args == map[key := IntValue(2)]
  {
    assert GoString(FloatValue(f)) == GoString(IntValue(2)) by { assert Decimal(2) == "2"; }
    assert AnnotationText(name, key, FloatValue(f)) == AnnotationText(name, key, IntValue(2));
    hide GoString, IsWord, Parse, AnnotationText;
    PrintThenParse(name, key, IntValue(2), base);
  }

  /** A control character is one that does not come back: the parser accepts it, the printer escapes it. */
  lemma ControlCharacterIsLost()
    ensures var s := ['"', 1 as char, '"'];
      ValueAt(s, Lex(s, 0).tok, Lex(s, 0).next, 0) == Ok(StringValue([1 as char], false), 3)
    ensures !StringsPlain(StringValue([1 as char], false))
  {
    var s := ['"', 1 as char, '"'];
    assert QuotedString(s, 1, 0, "") == QuotedString(s, 2, 0, "" + [1 as char]);
    assert Lex(s, 0) == Lexed(Token(Str, [1 as char], 0, false), 3);
    assert AllPlain([1 as char]) ==> IsPlain(1 as char);
  }
}
