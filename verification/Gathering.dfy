/**
 Gathering against the grammar. The scanner that gathers the lines of an annotation looks at single characters only;
 still it finds the end of every annotation that the grammar knows, however it is spread over lines, once its bracket
 has been opened on the first line.
 */
module Gathering {
  import opened Model
  import opened Lexer
  import opened Value
  import opened Parser
  import opened Arguments
  import opened Comment
  import opened CommentRoundTrip
  import opened Composition
  import opened Tokens
  import opened Grammar
  import CommentMeaning

  // ---- scanning a token ----

  /** The scan behind a token, when it is in no string in front of it. */
  function Behind(st: Scan, kind: Kind): Scan {
    match kind
    case LParen => ScanChar(st, '(')
    case LBracket => ScanChar(st, '[')
    case LBrace => ScanChar(st, '{')
    case RParen => ScanChar(st, ')')
    case RBracket => ScanChar(st, ']')
    case RBrace => ScanChar(st, '}')
    case _ => st
  }

  predicate Outside(st: Scan) {
    !st.inString && !st.inRaw && !st.escaped
  }

  /** Scanning s from p to q takes st to st', and something is open at every newline in between. */
  ghost predicate Between(st: Scan, s: string, p: nat, q: nat, st': Scan) {
    p <= q <= |s| && Scans(st, s[p..q], st')
  }

  lemma Joins(st: Scan, s: string, p: nat, m: nat, q: nat, mid: Scan, st': Scan)
    requires Between(st, s, p, m, mid) && Between(mid, s, m, q, st')
    ensures Between(st, s, p, q, st')
  {
    hide Scans;
    ScansThen(st, s[p..m], mid, s[m..q], st');
    assert s[p..m] + s[m..q] == s[p..q];
  }

  /** Inside a bracket blanks change nothing, newlines included. */
  lemma {:induction false} BlanksScan(text: string, d: int)
    requires d > 0 && forall i :: 0 <= i < |text| ==> IsBlank(text[i])
    ensures Scans(Inside(d), text, Inside(d))
    decreases |text|
  {
    if text != "" {
      assert IsBlank(text[0]);
      assert forall i :: 0 <= i < |text[1..]| ==> text[1..][i] == text[i + 1];
      BlanksScan(text[1..], d);
    }
  }

  lemma {:induction false} SpelledScans(st: Scan, body: string, text: string)
    requires !st.inRaw && st.inString && !st.escaped && Spells(body, text)
    ensures Scans(st, body, st)
    decreases |body|
  {
    if body != "" {
      if body[0] == '\\' {
        var esc := ScanChar(st, body[0]);
        OneScans(st, body[0]);
        OneScans(esc, body[1]);
        SpelledScans(st, body[2..], text[1..]);
        ScansThen(esc, [body[1]], st, body[2..], st);
        ScansThen(st, [body[0]], esc, [body[1]] + body[2..], st);
        assert body == [body[0]] + ([body[1]] + body[2..]);
      } else {
        OneScans(st, body[0]);
        SpelledScans(st, body[1..], text[1..]);
        ScansThen(st, [body[0]], st, body[1..], st);
        assert body == [body[0]] + body[1..];
      }
    }
  }

  lemma StringScans(st: Scan, w: string, tok: Token)
    requires Outside(st) && tok.kind == Str && IsToken(w, tok.(offset := 0), |w|)
    ensures Scans(st, w, st)
  {
    hide Spells, Scans;
    assert w[0..|w|] == w;
    if tok.raw {
      var inner := st.(inRaw := true);
      RawScans(inner, tok.text);
      BracketScans(st, '`', inner, tok.text, inner, '`', st);
    } else {
      var inner := st.(inString := true);
      var body := w[1..|w| - 1];
      SpelledScans(inner, body, tok.text);
      BracketScans(st, '"', inner, body, inner, '"', st);
      assert w == ['"'] + body + ['"'];
    }
  }

  lemma TokenScans(st: Scan, s: string, tok: Token, end: nat)
    requires Outside(st) && IsToken(s, tok, end)
    ensures Scans(st, s[tok.offset..end], Behind(st, tok.kind))
  {
    hide Scans, Spells, RoundTrip.NumberPart, RoundTrip.PointsFirst, RoundTrip.HasFraction, NumberEnds;
    var w := s[tok.offset..end];
    if tok.kind == Str {
      assert w[0..|w|] == w;
      StringScans(st, w, tok);
    } else if tok.kind == Ident {
      forall i | 0 <= i < |w| ensures Inert(w[i]) { assert InWord(w[i]); }
      InertScans(st, w);
    } else if tok.kind == IntLit || tok.kind == FloatLit {
      NumberScans(st, w);
    } else {
      assert |w| == 1 && w == [w[0]];
      OneScans(st, w[0]);
    }
  }

  lemma NumberScans(st: Scan, w: string)
    requires Outside(st) && RoundTrip.IsNumberText(w)
    ensures Scans(st, w, st)
  {
    forall i | 0 <= i < |w| ensures Inert(w[i]) {
      if i >= RoundTrip.BehindSign(w) { assert RoundTrip.InNumber(w, RoundTrip.BehindSign(w), i); }
    }
    InertScans(st, w);
  }

  lemma LexedIsToken(s: string, p: nat)
    requires p <= |s| && Lex(s, p).tok.kind !in {EOF, Error}
    ensures var tok, q := Lex(s, p).tok, Lex(s, p).next;
      && p <= tok.offset < q <= |s| && IsToken(s, tok, q)
      && forall i :: p <= i < tok.offset ==> IsBlank(s[i])
  {
    LexIsToken(s, p);
    hide Lex, IsToken, IsBlank;
    assert NextToken(s, p, Lex(s, p).tok, Lex(s, p).next);
    TokenIsSomewhere(s, Lex(s, p).tok, Lex(s, p).next);
  }

  lemma TokenIsSomewhere(s: string, tok: Token, end: nat)
    requires IsToken(s, tok, end)
    ensures tok.offset < end <= |s|
  {
  }

  /** A token inside a bracket, with the blanks in front of it. */
  lemma StepScans(s: string, p: nat, kind: Kind, q: nat, d: int)
    requires d > 0 && Sees(s, p, kind, q) && kind !in {EOF, Error}
    ensures Between(Inside(d), s, p, q, Behind(Inside(d), kind))
  {
    LexedIsToken(s, p);
    hide Lex, IsToken, IsBlank, Scans;
    var tok := Lex(s, p).tok;
    assert forall i :: 0 <= i < |s[p..tok.offset]| ==> s[p..tok.offset][i] == s[p + i];
    BlanksScan(s[p..tok.offset], d);
    TokenScans(Inside(d), s, tok, q);
    Joins(Inside(d), s, p, tok.offset, q, Inside(d), Behind(Inside(d), kind));
  }

  // ---- scanning lists and values ----

  /** Behind the last part of a list comes its bracket, perhaps with a comma in front. */
  lemma CloseScans(s: string, p: nat, close: Kind, q: nat, d: int)
    requires d > 0 && Closes(s, p, close, q) && close in {RParen, RBracket, RBrace}
    ensures Between(Inside(d), s, p, q, Inside(d - 1))
  {
    hide Lex, Between;
    if Sees(s, p, close, q) {
      StepScans(s, p, close, q, d);
    } else {
      StepScans(s, p, Comma, Lex(s, p).next, d);
      StepScans(s, Lex(s, p).next, close, q, d);
      Joins(Inside(d), s, p, Lex(s, p).next, q, Inside(d), Inside(d - 1));
    }
  }

  /** Each of these parts leaves the scan as it was. */
  ghost predicate PartsScan(s: string, from: seq<nat>, to: seq<nat>, d: int) {
    |from| == |to| && forall i :: 0 <= i < |from| ==> Between(Inside(d), s, from[i], to[i], Inside(d))
  }

  lemma {:induction false} RestScans(s: string, p: nat, from: seq<nat>, to: seq<nat>, close: Kind, q: nat, d: int,
      i: nat)
    requires d > 0 && IsList(s, p, from, to, close, q) && close in {RParen, RBracket, RBrace}
    requires PartsScan(s, from, to, d) && i < |from| == |to|
    ensures Between(Inside(d), s, from[i], q, Inside(d - 1))
    decreases |from| - i
  {
    hide *;
    PartScans(s, from, to, d, i);
    ListGoesOn(s, p, from, to, close, q, i);
    if i == |from| - 1 {
      CloseScans(s, to[i], close, q, d);
    } else {
      CommaScans(s, to[i], from[i + 1], d);
      RestScans(s, p, from, to, close, q, d, i + 1);
      Joins(Inside(d), s, to[i], from[i + 1], q, Inside(d), Inside(d - 1));
    }
    Joins(Inside(d), s, from[i], to[i], q, Inside(d), Inside(d - 1));
  }

  lemma PartScans(s: string, from: seq<nat>, to: seq<nat>, d: int, i: nat)
    requires PartsScan(s, from, to, d) && i < |from| == |to|
    ensures Between(Inside(d), s, from[i], to[i], Inside(d))
  {
    hide Between;
  }

  lemma ListGoesOn(s: string, p: nat, from: seq<nat>, to: seq<nat>, close: Kind, q: nat, i: nat)
    requires IsList(s, p, from, to, close, q) && i < |from| == |to|
    ensures if i == |from| - 1 then Closes(s, to[i], close, q) else Sees(s, to[i], Comma, from[i + 1])
  {
    hide Closes, Sees;
  }

  lemma CommaScans(s: string, p: nat, q: nat, d: int)
    requires d > 0 && Sees(s, p, Comma, q)
    ensures Between(Inside(d), s, p, q, Inside(d))
  {
    hide Lex, Between;
    StepScans(s, p, Comma, q, d);
  }

  lemma ListScans(s: string, p: nat, from: seq<nat>, to: seq<nat>, close: Kind, q: nat, d: int)
    requires d > 0 && IsList(s, p, from, to, close, q) && close in {RParen, RBracket, RBrace}
    requires PartsScan(s, from, to, d)
    ensures Between(Inside(d), s, p, q, Inside(d - 1))
  {
    ListLength(s, p, from, to, close, q);
    hide Between, Sees, Closes, PartsScan;
    if from == [] {
      assert to == [];
      StepScans(s, p, close, q, d);
    } else {
      RestScans(s, p, from, to, close, q, d, 0);
    }
  }

  lemma {:induction false} ValueScansBetween(s: string, p: nat, v: Value, q: nat, depth: nat, d: int)
    requires d > 0 && IsValue(s, p, v, q, depth)
    ensures Between(Inside(d), s, p, q, Inside(d))
    decreases v
  {
    hide Lex, Between, IsList, AreKeys;
    if v.ArrayValue? {
      var from, to := ArrayParts(s, p, v, q, depth);
      hide IsValue, ElementsStand;
      forall i | 0 <= i < |from| ensures Between(Inside(d + 1), s, from[i], to[i], Inside(d + 1)) {
        ElementStands(s, v, from, to, depth + 1, i);
        ValueScansBetween(s, from[i], v.elements[i], to[i], depth + 1, d + 1);
      }
      BracketsScan(s, p, LBracket, from, to, RBracket, q, d);
    } else if v.ObjectValue? {
      var keys, from, to := ObjectParts(s, p, v, q, depth);
      hide IsValue, FieldsStand;
      forall i | 0 <= i < |from| ensures Between(Inside(d + 1), s, from[i], to[i], Inside(d + 1)) {
        FieldStands(s, v, keys, from, to, depth + 1, i);
        FieldStarts(s, from[i], keys[i], d + 1);
        ValueScansBetween(s, BehindEquals(s, from[i]), v.fields[keys[i]], to[i], depth + 1, d + 1);
        Joins(Inside(d + 1), s, from[i], BehindEquals(s, from[i]), to[i], Inside(d + 1), Inside(d + 1));
      }
      BracketsScan(s, p, LBrace, from, to, RBrace, q, d);
    } else {
      ScalarStep(s, p, v, q, depth, d);
    }
  }

  lemma ScalarStep(s: string, p: nat, v: Value, q: nat, depth: nat, d: int)
    requires d > 0 && IsValue(s, p, v, q, depth) && !v.ArrayValue? && !v.ObjectValue?
    ensures Between(Inside(d), s, p, q, Inside(d))
  {
    hide Lex, Between;
    StepScans(s, p, Lex(s, p).tok.kind, q, d);
  }

  lemma BracketsScan(s: string, p: nat, open: Kind, from: seq<nat>, to: seq<nat>, close: Kind, q: nat, d: int)
    requires d > 0 && p <= |s| && Lex(s, p).tok.kind == open && open in {LParen, LBracket, LBrace}
    requires close in {RParen, RBracket, RBrace} && IsList(s, Lex(s, p).next, from, to, close, q)
    requires PartsScan(s, from, to, d + 1)
    ensures Between(Inside(d), s, p, q, Inside(d))
  {
    hide Lex, Between, IsList, PartsScan;
    var start := Lex(s, p).next;
    StepScans(s, p, open, start, d);
    ListScans(s, start, from, to, close, q, d + 1);
    Joins(Inside(d), s, p, start, q, Inside(d + 1), Inside(d));
  }

  lemma FieldStarts(s: string, p: nat, key: string, d: int)
    requires d > 0 && BeginsField(s, p, key)
    ensures p <= |s| && Between(Inside(d), s, p, BehindEquals(s, p), Inside(d))
  {
    hide Lex, Between;
    var mid := Lex(s, p).next;
    StepScans(s, p, Ident, mid, d);
    StepScans(s, mid, Equals, BehindEquals(s, p), d);
    Joins(Inside(d), s, p, mid, BehindEquals(s, p), Inside(d), Inside(d));
  }

  lemma ArgumentsScan(s: string, p: nat, items: seq<Item>, from: seq<nat>, to: seq<nat>, q: nat)
    requires AreArguments(s, p, items, from, to, q)
    ensures Between(Inside(1), s, p, q, Inside(0))
  {
    hide Lex, Between, IsList, IsValue;
    ListLength(s, p, from, to, RParen, q);
    forall i | 0 <= i < |from| ensures Between(Inside(1), s, from[i], to[i], Inside(1)) {
      assert IsArgument(s, from[i], items[i], to[i]);
      match items[i].name {
        case Some(x) =>
          FieldStarts(s, from[i], x, 1);
          ValueScansBetween(s, BehindEquals(s, from[i]), items[i].value, to[i], 0, 1);
          Joins(Inside(1), s, from[i], BehindEquals(s, from[i]), to[i], Inside(1), Inside(1));
        case None => ValueScansBetween(s, from[i], items[i].value, to[i], 0, 1);
      }
    }
    ListScans(s, p, from, to, RParen, q, 1);
  }

  // ---- an annotation is gathered whole ----

  /** No newline stands between p and q. */
  predicate OneLine(s: string, p: nat, q: nat)
    requires q <= |s|
  {
    forall i :: p <= i < q ==> s[i] != '\n'
  }

  /**
   s is an at sign, a name right behind it, and a list of arguments from open on that ends at q; behind it come
   blanks on the same line only.
   */
  ghost predicate IsWritten(s: string, name: string, open: nat, items: seq<Item>, q: nat) {
    && |s| > 1 && s[0] == '@' && BeginsWord(s[1])
    && Lex(s, 1).tok.text == name && Lex(s, 1).next <= open < |s| && s[open] == '('
    && (forall i :: Lex(s, 1).next <= i < open ==> IsBlank(s[i]))
    && HasArguments(s, open + 1, items, q)
    && q <= |s| && OneLine(s, q, |s|) && forall i :: q <= i < |s| ==> IsBlank(s[i])
  }

  /** The tokens in front of the arguments. */
  lemma FrontTokens(s: string, name: string, open: nat, items: seq<Item>, q: nat)
    requires IsWritten(s, name, open, items, q)
    ensures Lex(s, 0) == Lexed(Token(At, "@", 0, false), 1)
    ensures Lex(s, 1).tok.kind == Ident && Lex(s, 1).tok.offset == 1
    ensures var p := Lex(s, 1).next; Lex(s, p) == Lexed(Token(LParen, "(", open, false), open + 1)
    ensures Lex(s, q).tok.kind == EOF
  {
    hide Lex, AreArguments;
    assert s[0..1] == "@";
    LexIsExact(s, 0, Token(At, "@", 0, false), 1);
    NameLexes(s);
    assert s[open..open + 1] == "(";
    LexIsExact(s, Lex(s, 1).next, Token(LParen, "(", open, false), open + 1);
    LexIsExact(s, q, Token(EOF, "", |s|, false), |s|);
  }

  lemma NameLexes(s: string)
    requires |s| > 1 && BeginsWord(s[1])
    ensures Lex(s, 1).tok.kind == Ident && Lex(s, 1).tok.offset == 1
  {
    hide Lex;
    var end := IdentEnd(s, 2);
    WordIsToken(s, 1);
    LexIsExact(s, 1, Token(Ident, s[1..end], 1, false), end);
  }

  /** From the list on to the end something is open at every newline, until the bracket closes. */
  lemma ListScansToEnd(s: string, name: string, open: nat, items: seq<Item>, q: nat)
    requires IsWritten(s, name, open, items, q)
    ensures Between(INITIAL_SCAN, s, open, |s|, Inside(0))
  {
    hide Lex, Between, Scans, AreArguments, BeginsWord;
    var from: seq<nat>, to: seq<nat> :| AreArguments(s, open + 1, items, from, to, q);
    ArgumentsScan(s, open + 1, items, from, to, q);
    OpenScans(s, open);
    Joins(INITIAL_SCAN, s, open, open + 1, q, Inside(1), Inside(0));
    TailScans(s, q, Inside(0));
    Joins(INITIAL_SCAN, s, open, q, |s|, Inside(0), Inside(0));
  }

  lemma OpenScans(s: string, open: nat)
    requires open < |s| && s[open] == '('
    ensures Between(INITIAL_SCAN, s, open, open + 1, Inside(1))
  {
    assert s[open..open + 1] == ['('];
    OneScans(INITIAL_SCAN, '(');
  }

  /** Blanks on one line. */
  lemma TailScans(s: string, q: nat, st: Scan)
    requires q <= |s| && Outside(st) && OneLine(s, q, |s|) && forall i :: q <= i < |s| ==> IsBlank(s[i])
    ensures Between(st, s, q, |s|, st)
  {
    var text := s[q..|s|];
    forall i | 0 <= i < |text| ensures Inert(text[i]) { assert text[i] == s[q + i]; }
    InertScans(st, text);
  }

  /** In front of the list nothing matters to the scan; up to a newline, if there is one, or to the bracket. */
  lemma FrontScans(s: string, name: string, open: nat, items: seq<Item>, q: nat, p: nat)
    requires IsWritten(s, name, open, items, q) && Lex(s, 1).next <= p <= open && OneLine(s, Lex(s, 1).next, p)
    ensures Between(INITIAL_SCAN, s, 0, p, INITIAL_SCAN) && OneLine(s, 0, p)
  {
    hide *;
    var end := Lex(s, 1).next;
    FrontTokens(s, name, open, items, q);
    LexedIsToken(s, 1);
    WrittenFront(s, name, open, items, q);
    NameIsInert(s, Lex(s, 1).tok, end);
    BlanksAreInert(s, end, p);
    FrontIsInert(s, end, p);
    FlatScans(s, p);
  }

  lemma WrittenFront(s: string, name: string, open: nat, items: seq<Item>, q: nat)
    requires IsWritten(s, name, open, items, q)
    ensures |s| > 1 && s[0] == '@' && Lex(s, 1).next <= open < |s|
    ensures forall i :: Lex(s, 1).next <= i < open ==> IsBlank(s[i])
  {
    hide Lex, HasArguments, IsBlank;
  }

  lemma FrontIsInert(s: string, end: nat, p: nat)
    requires 1 <= end <= p <= |s| && s != "" && s[0] == '@'
    requires (forall i :: 1 <= i < end ==> Inert(s[i])) && forall i :: end <= i < p ==> Inert(s[i])
    ensures (forall i :: 0 <= i < p ==> Inert(s[i])) && OneLine(s, 0, p)
  {
    assert Inert('@');
  }

  lemma NameIsInert(s: string, tok: Token, end: nat)
    requires IsToken(s, tok, end) && tok.kind == Ident
    ensures tok.offset < end <= |s| && forall i :: tok.offset <= i < end ==> Inert(s[i])
  {
    forall i | tok.offset <= i < end ensures Inert(s[i]) {
      assert InWord(s[tok.offset..end][i - tok.offset]);
    }
  }

  lemma BlanksAreInert(s: string, p: nat, q: nat)
    requires p <= q <= |s| && OneLine(s, p, q) && forall i :: p <= i < q ==> IsBlank(s[i])
    ensures forall i :: p <= i < q ==> Inert(s[i])
  {
    forall i | p <= i < q ensures Inert(s[i]) {
      assert IsBlank(s[i]);
    }
  }

  lemma FlatScans(s: string, p: nat)
    requires p <= |s| && forall i :: 0 <= i < p ==> Inert(s[i])
    ensures Between(INITIAL_SCAN, s, 0, p, INITIAL_SCAN)
  {
    InertScans(INITIAL_SCAN, s[0..p]);
  }

  /** Spaces and tabs in front of an annotation. */
  predicate IsPad(pad: string) {
    forall i :: 0 <= i < |pad| ==> pad[i] == ' ' || pad[i] == '\t'
  }

  lemma Shifts(st: Scan, pad: string, s: string, p: nat, q: nat, st': Scan)
    requires Between(st, s, p, q, st')
    ensures Between(st, pad + s, |pad| + p, |pad| + q, st')
  {
    hide Scans;
    assert (pad + s)[|pad| + p..|pad| + q] == s[p..q];
  }

  lemma PadScans(pad: string, s: string)
    requires IsPad(pad)
    ensures Between(INITIAL_SCAN, pad + s, 0, |pad|, INITIAL_SCAN) && OneLine(pad + s, 0, |pad|)
  {
    var t := pad + s;
    forall i | 0 <= i < |pad| ensures t[i] != '\n' && Inert(t[i]) { assert t[i] == pad[i]; }
    FlatScans(t, |pad|);
  }

  /**
   The lines of an annotation, perhaps with blanks in front, are gathered together exactly when its bracket opens on the
   first of them.
   */
  lemma GatheredWhole(pad: string, s: string, name: string, open: nat, items: seq<Item>, q: nat)
    requires IsPad(pad) && IsWritten(s, name, open, items, q)
    ensures var lines := LinesFrom(pad + s, 0);
      GroupLength(lines, INITIAL_SCAN) == |lines| <==> OneLine(s, Lex(s, 1).next, open)
    ensures OneLine(s, Lex(s, 1).next, open) ==>
      GathersAll(pad + s, 0, INITIAL_SCAN) && GroupCloses(LinesFrom(pad + s, 0), INITIAL_SCAN)
  {
    hide Lex, HasArguments, Scans, GroupLength, LinesFrom, GroupCloses, Between;
    var end, n, t := Lex(s, 1).next, |pad|, pad + s;
    PadScans(pad, s);
    if OneLine(s, end, open) {
      FrontScans(s, name, open, items, q, open);
      ListScansToEnd(s, name, open, items, q);
      Joins(INITIAL_SCAN, s, 0, open, |s|, INITIAL_SCAN, Inside(0));
      Shifts(INITIAL_SCAN, pad, s, 0, |s|, Inside(0));
      Joins(INITIAL_SCAN, t, 0, n, |t|, INITIAL_SCAN, Inside(0));
      WholeIsGathered(t, Inside(0));
    } else {
      var nl := FirstNewline(s, end, open);
      FrontScans(s, name, open, items, q, nl);
      Shifts(INITIAL_SCAN, pad, s, 0, nl, INITIAL_SCAN);
      Joins(INITIAL_SCAN, t, 0, n, n + nl, INITIAL_SCAN, INITIAL_SCAN);
      assert forall i :: n <= i < n + nl ==> t[i] == s[i - n];
      FirstLineIsAll(t, n + nl);
    }
  }

  lemma WholeIsGathered(s: string, st: Scan)
    requires Between(INITIAL_SCAN, s, 0, |s|, st) && Complete(LineEnd(st))
    ensures GathersAll(s, 0, INITIAL_SCAN) && GroupCloses(LinesFrom(s, 0), INITIAL_SCAN)
  {
    assert s[0..|s|] == s == s[0..];
    GroupIsAll(s, 0, INITIAL_SCAN);
    GroupEnds(s, 0, INITIAL_SCAN);
  }

  lemma {:induction false} FirstNewline(s: string, p: nat, q: nat) returns (nl: nat)
    requires q <= |s| && !OneLine(s, p, q)
    ensures p <= nl < q && s[nl] == '\n' && OneLine(s, p, nl)
    decreases q - p
  {
    if s[p] == '\n' {
      nl := p;
    } else {
      nl := FirstNewline(s, p + 1, q);
    }
  }

  /** A first line without a bracket is gathered alone. */
  lemma FirstLineIsAll(s: string, nl: nat)
    requires nl < |s| && s[nl] == '\n' && OneLine(s, 0, nl) && Between(INITIAL_SCAN, s, 0, nl, INITIAL_SCAN)
    ensures GroupLength(LinesFrom(s, 0), INITIAL_SCAN) == 1 < |LinesFrom(s, 0)|
  {
    hide NewlineFrom, LinesFrom, ScanChars, ScanText, NewlinesOpen;
    NewlineIs(s, 0, nl);
    FirstLine(s, 0);
    FlatText(INITIAL_SCAN, s[0..nl]);
  }

  lemma {:induction false} NewlineIs(s: string, p: nat, nl: nat)
    requires p <= nl < |s| && s[nl] == '\n' && OneLine(s, p, nl)
    ensures NewlineFrom(s, p) == nl
    decreases nl - p
  {
    if p < nl { NewlineIs(s, p + 1, nl); }
  }

  lemma {:induction false} FlatText(st: Scan, text: string)
    requires forall i :: 0 <= i < |text| ==> text[i] != '\n'
    ensures ScanText(st, text) == ScanChars(st, text)
    decreases |text|
  {
    if text != "" {
      assert text[0] != '\n';
      assert forall i :: 0 <= i < |text[1..]| ==> text[1..][i] == text[i + 1];
      FlatText(ScanChar(st, text[0]), text[1..]);
    }
  }

  /** When nothing is open at the end, the group closes there by itself. */
  lemma {:induction false} GroupEnds(s: string, offset: nat, st: Scan)
    requires offset <= |s| && NewlinesOpen(st, s[offset..]) && Complete(LineEnd(ScanText(st, s[offset..])))
    ensures GroupCloses(LinesFrom(s, offset), st)
    decreases |s| - offset
  {
    hide NewlinesOpen, ScanText, GroupCloses, LinesFrom, NewlineFrom, ScanChars, LineEnd;
    var nl := NewlineFrom(s, offset);
    FirstLine(s, offset);
    var line := Line(s[offset..nl], offset);
    assert OneLine(s, offset, nl);
    assert forall i :: 0 <= i < |line.text| ==> line.text[i] == s[offset + i];
    FlatText(st, line.text);
    if nl < |s| {
      LineKeepsGathering(s, offset, nl, st);
      TextSplits(st, s, offset, nl);
      GroupEnds(s, nl + 1, FeedLine(st, line.text));
      ClosesLater(line, LinesFrom(s, nl + 1), st);
    } else {
      assert s[offset..nl] == s[offset..];
      ClosesNow(line, st);
    }
  }

  lemma ClosesNow(line: Line, st: Scan)
    requires Complete(FeedLine(st, line.text))
    ensures GroupCloses([line], st)
  {
  }

  lemma ClosesLater(line: Line, rest: seq<Line>, st: Scan)
    requires rest != [] && GroupCloses(rest, FeedLine(st, line.text))
    ensures GroupCloses([line] + rest, st)
  {
    var lines := [line] + rest;
    assert lines[0] == line && lines[1..] == rest;
    hide FeedLine, Complete;
  }

  lemma TextSplits(st: Scan, s: string, offset: nat, nl: nat)
    requires offset <= nl < |s| && s[nl] == '\n' && OneLine(s, offset, nl)
    ensures ScanText(st, s[offset..]) == ScanText(FeedLine(st, s[offset..nl]), s[nl + 1..])
  {
    hide ScanChars, ScanText;
    assert forall i :: 0 <= i < nl - offset ==> s[offset..nl][i] == s[offset + i];
    FlatText(st, s[offset..nl]);
    TextThen(st, s[offset..nl], s[nl..]);
    assert s[offset..nl] + s[nl..] == s[offset..];
    NewlineText(ScanChars(st, s[offset..nl]), s[nl..]);
    assert s[nl..][1..] == s[nl + 1..];
  }

  lemma NewlineText(st: Scan, text: string)
    requires text != "" && text[0] == '\n'
    ensures ScanText(st, text) == ScanText(LineEnd(st), text[1..])
  {
  }

  lemma {:induction false} TextThen(st: Scan, a: string, b: string)
    ensures ScanText(st, a + b) == ScanText(ScanText(st, a), b)
    decreases |a|
  {
    if a == "" {
      assert a + b == b;
    } else {
      assert (a + b)[0] == a[0] && (a + b)[1..] == a[1..] + b;
      TextThen(if a[0] == '\n' then LineEnd(st) else ScanChar(st, a[0]), a[1..], b);
    }
  }

  /**
   An annotation in the sense of the grammar, spread over lines in any way with its bracket on the first, is found as
   it is: exactly one annotation with the name and the arguments at the place of its at sign, and no diagnostic; and
   what follows it is parsed on its own.
   */
  lemma AnnotationIsFound(pad: string, s: string, base: Position, name: string, open: nat, items: seq<Item>, q: nat,
      args: map<string, Value>, more: string)
    requires IsPad(pad) && IsWritten(s, name, open, items, q) && NamesAreFree(items) && BoundBy(items, args)
    requires OneLine(s, Lex(s, 1).next, open)
    ensures var t := pad + s;
      var found := Findings([Annotation(name, args, PositionAt(base, t, |pad|), TrimRight(TrimLeft(s)))], []);
      && Parse(t, base) == found
      && Parse(Joined(t, more), base) == found.Then(Parse(more, SecondBase(base, t, more)))
  {
    hide *;
    GatheredWhole(pad, s, name, open, items, q);
    WrittenIsAnnotation(s, name, open, items, q, args);
    AnnotationIsExact(s, name, args, 0);
    StartsAnnotation(pad, s, name, open, items, q);
    WholeIsFound(pad, s, base, name, args);
    ClosedWhole(pad + s);
    ParseIsCompositional(pad + s, more, base);
  }

  lemma WrittenIsAnnotation(s: string, name: string, open: nat, items: seq<Item>, q: nat, args: map<string, Value>)
    requires IsWritten(s, name, open, items, q) && NamesAreFree(items) && BoundBy(items, args)
    ensures IsAnnotation(s, name, args, 0)
  {
    hide Lex, HasArguments, NamesAreFree, BoundBy;
    FrontTokens(s, name, open, items, q);
  }

  lemma StartsAnnotation(pad: string, s: string, name: string, open: nat, items: seq<Item>, q: nat)
    requires IsPad(pad) && IsWritten(s, name, open, items, q)
    ensures LinesFrom(pad + s, 0) != [] && IsAnnotationStart(LinesFrom(pad + s, 0)[0].text)
    ensures BufferStart(LinesFrom(pad + s, 0)[0]) == |pad|
  {
    hide Lex, HasArguments, IsBlank, BeginsWord, IsAnnotationStart, BufferStart;
    var t, n := pad + s, |pad|;
    FirstLine(t, 0);
    hide LinesFrom;
    var nl := NewlineFrom(t, 0);
    BeginsOnFirstLine(t, n, nl);
    CommentMeaning.BeginningIsExact(Line(t[0..nl], 0));
  }

  lemma BeginsOnFirstLine(t: string, n: nat, nl: nat)
    requires n + 1 < |t| && t[n] == '@' && BeginsWord(t[n + 1])
    requires forall i :: 0 <= i < n ==> t[i] == ' ' || t[i] == '\t'
    requires nl <= |t| && (nl < |t| ==> t[nl] == '\n')
    ensures n + 1 < nl && CommentMeaning.BeginsAt(t[0..nl], n)
  {
    var line := t[0..nl];
    assert nl < |t| ==> nl > n + 1;
    assert forall i :: 0 <= i < nl ==> line[i] == t[i];
  }

  lemma WholeIsFound(pad: string, s: string, base: Position, name: string, args: map<string, Value>)
    requires var lines := LinesFrom(pad + s, 0);
      lines != [] && IsAnnotationStart(lines[0].text) && BufferStart(lines[0]) == |pad|
    requires GathersAll(pad + s, 0, INITIAL_SCAN) && AnnotationIn(s) == Annotated(name, args, 0)
    ensures Parse(pad + s, base)
      == Findings([Annotation(name, args, PositionAt(base, pad + s, |pad|), TrimRight(TrimLeft(s)))], [])
  {
    hide AnnotationIn, GroupLength, LinesFrom, IsAnnotationStart, BufferStart, PositionAt, TrimLeft, TrimRight;
    hide ParseLines;
    var t := pad + s;
    LinesLieIn(t, 0);
    WholeText(t, base, LinesFrom(t, 0));
    assert t[|pad|..] == s;
  }

  lemma ClosedWhole(s: string)
    requires LinesFrom(s, 0) != [] && IsAnnotationStart(LinesFrom(s, 0)[0].text)
    requires GathersAll(s, 0, INITIAL_SCAN) && GroupCloses(LinesFrom(s, 0), INITIAL_SCAN)
    ensures Closed(LinesFrom(s, 0))
  {
    hide GroupLength, LinesFrom, IsAnnotationStart, GroupCloses;
    var lines := LinesFrom(s, 0);
    assert lines[GroupLength(lines, INITIAL_SCAN)..] == [];
  }
}
