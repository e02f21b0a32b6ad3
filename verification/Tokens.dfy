/**
 The token language, character by character. `IsToken` says which text is which token, with every character written out;
 the lexer gives a token exactly when the text has it there, and an error exactly when it has none.
 */
module Tokens {
  import opened Lexer
  import opened RoundTrip

  predicate IsBlank(c: char) {
    || c == ' ' || c == '\t' || c == '\n' || c == '\r' || c == 11 as char || c == 12 as char
    || (c >= 128 as char && c in SPACES && c !in LETTERS && c !in DIGITS)
  }

  predicate BeginsWord(c: char) {
    c == '_' || 'a' <= c <= 'z' || 'A' <= c <= 'Z' || (c >= 128 as char && c in LETTERS)
  }

  predicate InWord(c: char) {
    c == '.' || '0' <= c <= '9' || BeginsWord(c) || (c >= 128 as char && c in DIGITS)
  }

  /** body, between two quotes, stands for text: a backslash with n, t, r, " or a backslash, or a character itself. */
  predicate Spells(body: string, text: string)
    decreases |body|
  {
    if body == "" then text == ""
    else if body[0] == '\\' then
      && |body| >= 2 && text != ""
      && ((body[1] == 'n' && text[0] == '\n') || (body[1] == 't' && text[0] == '\t')
          || (body[1] == 'r' && text[0] == '\r') || (body[1] == '"' && text[0] == '"')
          || (body[1] == '\\' && text[0] == '\\'))
      && Spells(body[2..], text[1..])
    else
      && body[0] != '"' && body[0] != '\n' && text != "" && text[0] == body[0]
      && Spells(body[1..], text[1..])
  }

  /** The number that starts at p does not go on behind end. */
  predicate NumberEnds(s: string, p: nat, end: nat)
    requires p <= end <= |s|
  {
    end < |s| ==>
      && !('0' <= s[end] <= '9') && s[end] != '.' && s[end] != 'e' && s[end] != 'E'
      && !((s[end] == '+' || s[end] == '-') && end > p && (s[end - 1] == 'e' || s[end - 1] == 'E'))
  }

  /** The text between tok.offset and end is the token, and the token goes on as far as it can. */
  ghost predicate IsToken(s: string, tok: Token, end: nat) {
    tok.offset < end <= |s| &&
    var w := s[tok.offset..end];
    match tok.kind
    case Ident =>
      && BeginsWord(w[0]) && (forall i :: 0 <= i < |w| ==> InWord(w[i])) && (end < |s| ==> !InWord(s[end]))
      && tok.text == w && !tok.raw
    case Str =>
      if tok.raw then w == "`" + tok.text + "`" && '`' !in tok.text
      else |w| >= 2 && w[0] == '"' && w[|w| - 1] == '"' && Spells(w[1..|w| - 1], tok.text)
    case IntLit =>
      && IsNumberText(w) && !HasFraction(w, BehindSign(w), |w|) && NumberEnds(s, tok.offset + BehindSign(w), end)
      && tok.text == w && !tok.raw
    case FloatLit =>
      && IsNumberText(w) && HasFraction(w, BehindSign(w), |w|) && NumberEnds(s, tok.offset + BehindSign(w), end)
      && tok.text == w && !tok.raw
    case At => w == "@" && tok.text == w && !tok.raw
    case LParen => w == "(" && tok.text == w && !tok.raw
    case RParen => w == ")" && tok.text == w && !tok.raw
    case LBracket => w == "[" && tok.text == w && !tok.raw
    case RBracket => w == "]" && tok.text == w && !tok.raw
    case LBrace => w == "{" && tok.text == w && !tok.raw
    case RBrace => w == "}" && tok.text == w && !tok.raw
    case Equals => w == "=" && tok.text == w && !tok.raw
    case Comma => w == "," && tok.text == w && !tok.raw
    case EOF => false
    case Error => false
  }

  /** Behind blanks, tok is the next token from p on, and ends at end; or nothing but blanks is left. */
  ghost predicate NextToken(s: string, p: nat, tok: Token, end: nat) {
    && p <= tok.offset <= |s| && (forall i :: p <= i < tok.offset ==> IsBlank(s[i]))
    && if tok.kind == EOF then tok == Token(EOF, "", |s|, false) && end == |s| else IsToken(s, tok, end)
  }

  // ---- blanks ----

  lemma {:induction false} SkipsBlanks(s: string, p: nat)
    requires p <= |s|
    ensures forall i :: p <= i < SkipSpace(s, p) ==> IsBlank(s[i])
    ensures SkipSpace(s, p) < |s| ==> !IsBlank(s[SkipSpace(s, p)])
    decreases |s| - p
  {
    if p < |s| && IsSpace(s[p]) { SkipsBlanks(s, p + 1); }
  }

  lemma {:induction false} SkipsTo(s: string, p: nat, q: nat)
    requires p <= q <= |s| && (forall i :: p <= i < q ==> IsBlank(s[i])) && (q < |s| ==> !IsBlank(s[q]))
    ensures SkipSpace(s, p) == q
    decreases q - p
  {
    if p < q {
      assert IsBlank(s[p]);
      SkipsTo(s, p + 1, q);
    }
  }

  lemma CharactersAre(c: char)
    ensures IsSpace(c) <==> IsBlank(c)
    ensures IsIdentStart(c) <==> BeginsWord(c)
    ensures IsIdentPart(c) <==> InWord(c)
    ensures BeginsWord(c) || '0' <= c <= '9' ==> !IsBlank(c)
  {
  }

  // ---- words ----

  lemma {:induction false} WordReaches(s: string, p: nat)
    requires p <= |s|
    ensures forall i :: p <= i < IdentEnd(s, p) ==> InWord(s[i])
    ensures IdentEnd(s, p) < |s| ==> !InWord(s[IdentEnd(s, p)])
    decreases |s| - p
  {
    if p < |s| && IsIdentPart(s[p]) { WordReaches(s, p + 1); }
  }

  lemma {:induction false} WordStops(s: string, p: nat, end: nat)
    requires p <= end <= |s| && (forall i :: p <= i < end ==> InWord(s[i])) && (end < |s| ==> !InWord(s[end]))
    ensures IdentEnd(s, p) == end
    decreases end - p
  {
    if p < end {
      assert InWord(s[p]);
      WordStops(s, p + 1, end);
    }
  }

  // ---- strings ----

  lemma {:induction false} QuotedIsSpelled(s: string, p: nat, start: nat, acc: string) returns (text: string)
    requires start < p <= |s| && QuotedString(s, p, start, acc).tok.kind == Str
    ensures var r := QuotedString(s, p, start, acc);
      && p < r.next && s[r.next - 1] == '"' && Spells(s[p..r.next - 1], text)
      && r.tok == Token(Str, acc + text, start, false)
    decreases |s| - p
  {
    hide Spells;
    if s[p] == '"' {
      text := "";
      assert s[p..p] == "" && acc + "" == acc;
      NothingSpelled();
    } else {
      var q, c := if s[p] == '\\' then p + 2 else p + 1, if s[p] == '\\' then Unescape(s[p + 1]) else s[p];
      var rest := QuotedIsSpelled(s, q, start, acc + [c]);
      text := [c] + rest;
      assert acc + [c] + rest == acc + text;
      OneSpelled(s, p, q, QuotedString(s, p, start, acc).next - 1, c, rest);
    }
  }

  lemma NothingSpelled()
    ensures Spells("", "")
  {
  }

  lemma OneSpelled(s: string, p: nat, q: nat, end: nat, c: char, rest: string)
    requires p < q <= end <= |s| && Spells(s[q..end], rest)
    requires if s[p] == '\\' then q == p + 2 && IsEscape(s[p + 1]) && c == Unescape(s[p + 1])
             else q == p + 1 && s[p] != '"' && s[p] != '\n' && c == s[p]
    ensures Spells(s[p..end], [c] + rest)
  {
    var body, text := s[p..end], [c] + rest;
    assert body[q - p..] == s[q..end] && text[1..] == rest;
  }

  lemma {:induction false} SpelledIsQuoted(s: string, p: nat, start: nat, acc: string, end: nat, text: string)
    requires start < p <= end < |s| && s[end] == '"' && Spells(s[p..end], text)
    ensures QuotedString(s, p, start, acc) == Lexed(Token(Str, acc + text, start, false), end + 1)
    decreases end - p
  {
    if p == end {
      assert text == "" && acc + "" == acc;
    } else {
      var body := s[p..end];
      assert body[0] == s[p];
      var k := if body[0] == '\\' then 2 else 1;
      assert body[k..] == s[p + k..end];
      if k == 2 { assert body[1] == s[p + 1]; }
      SpelledIsQuoted(s, p + k, start, acc + [text[0]], end, text[1..]);
      assert acc + [text[0]] + text[1..] == acc + text;
    }
  }

  lemma {:induction false} RawReaches(s: string, p: nat, start: nat)
    requires start < p <= |s| && RawString(s, p, start).tok.kind == Str
    ensures var r := RawString(s, p, start);
      && p < r.next && s[r.next - 1] == '`' && (forall i :: p <= i < r.next - 1 ==> s[i] != '`')
      && r.tok == Token(Str, s[start + 1..r.next - 1], start, true)
    decreases |s| - p
  {
    if s[p] != '`' { RawReaches(s, p + 1, start); }
  }

  // ---- numbers ----

  lemma {:induction false} ExtentEnds(s: string, p: nat, isFloat: bool)
    requires p <= |s| && NumberExtent(s, p, isFloat).ok
    ensures NumberEnds(s, p, NumberExtent(s, p, isFloat).end)
    decreases |s| - p
  {
    if p < |s| && (IsDecimal(s[p]) || IsFractionMark(s[p])) {
      var q := if p + 1 < |s| then AfterMark(s, p) else p + 1;
      ExtentEnds(s, q, isFloat || IsFractionMark(s[p]));
    }
  }

  lemma {:induction false} ExtentReaches(s: string, p: nat, end: nat, isFloat: bool)
    requires p <= end <= |s| && NumberPart(s, p, end) && PointsFirst(s, p, end) && NumberEnds(s, p, end)
    requires isFloat ==> forall i :: p <= i < end ==> s[i] != '.'
    ensures NumberExtent(s, p, isFloat) == Extent(true, isFloat || HasFraction(s, p, end), end)
    decreases end - p
  {
    if p < end {
      assert InNumber(s, p, p);
      var q := if p + 1 < |s| then AfterMark(s, p) else p + 1;
      MarkGoesOn(s, p, q, end);
      ExtentReaches(s, q, end, isFloat || IsFractionMark(s[p]));
    }
  }

  lemma MarkGoesOn(s: string, p: nat, q: nat, end: nat)
    requires p < end <= |s| && NumberPart(s, p, end) && PointsFirst(s, p, end) && NumberEnds(s, p, end)
    requires q == if p + 1 < |s| then AfterMark(s, p) else p + 1
    ensures q <= end && NumberPart(s, q, end) && PointsFirst(s, q, end) && NumberEnds(s, q, end)
    ensures HasFraction(s, p, end) <==> IsFractionMark(s[p]) || HasFraction(s, q, end)
    ensures IsFractionMark(s[p]) ==> forall i :: q <= i < end ==> s[i] != '.'
  {
    forall i | q <= i < end ensures InNumber(s, q, i) && (IsFractionMark(s[p]) ==> s[i] != '.') {
      assert InNumber(s, p, i) && InNumber(s, p, p);
      assert s[i] == '.' ==> !HasFraction(s, p, i);
    }
    forall j | q < j < end && s[j] == '.' ensures !HasFraction(s, q, j) {
      assert !HasFraction(s, p, j);
    }
    if i :| p <= i < end && IsFractionMark(s[i]) { assert i == p || i >= q; }
  }

  lemma NumberIsToken(s: string, start: nat)
    requires start < |s| && (IsSign(s[start]) || IsDecimal(s[start])) && Number(s, start).tok.kind != Error
    ensures IsToken(s, Number(s, start).tok, Number(s, start).next)
  {
    var from := if IsSign(s[start]) then start + 1 else start;
    var x := NumberExtent(s, from, false);
    ExtentIsNumber(s, from, false);
    ExtentEnds(s, from, false);
    hide NumberExtent, NumberPart, PointsFirst, HasFraction;
    var w := s[start..x.end];
    PartOfText(s, start, from, x.end);
    var i :| 0 <= i < |w| && IsDecimal(w[i]);
    assert IsNumberText(w);
  }

  lemma TokenIsNumber(s: string, tok: Token, end: nat)
    requires IsToken(s, tok, end) && tok.kind in {IntLit, FloatLit}
    ensures (IsSign(s[tok.offset]) || IsDecimal(s[tok.offset])) && Number(s, tok.offset) == Lexed(tok, end)
  {
    var start := tok.offset;
    var w := s[start..end];
    var from := start + BehindSign(w);
    assert s[start] == w[0];
    TextIsNumber(s, start, end);
    ExtentReaches(s, from, end, false);
    hide NumberExtent, NumberPart, PointsFirst, HasFraction;
    var i :| 0 <= i < |w| && '0' <= w[i] <= '9';
    assert IsDecimal(w[i]) && HasDecimal(w);
  }

  lemma TextIsNumber(s: string, start: nat, end: nat)
    requires start < end <= |s| && IsNumberText(s[start..end])
    ensures var w := s[start..end]; var from := start + BehindSign(w);
      && from <= end && NumberPart(s, from, end) && PointsFirst(s, from, end)
      && (HasFraction(s, from, end) <==> HasFraction(w, BehindSign(w), |w|))
  {
    NumberStands(s, start, s[start..end]);
  }

  // ---- all tokens ----

  lemma SliceInside(s: string, start: nat, end: nat)
    requires start + 2 <= end <= |s|
    ensures s[start..end][1..end - start - 1] == s[start + 1..end - 1]
    ensures s[start..end][0] == s[start] && s[start..end][end - start - 1] == s[end - 1]
  {
    var w := s[start..end];
    assert forall i :: 1 <= i < end - start - 1 ==> w[i] == s[start + i];
    assert w[1..end - start - 1] == s[start + 1..end - 1];
  }

  lemma QuotedIsToken(s: string, start: nat)
    requires start < |s| && s[start] == '"' && QuotedString(s, start + 1, start, "").tok.kind == Str
    ensures var r := QuotedString(s, start + 1, start, ""); IsToken(s, r.tok, r.next)
  {
    hide QuotedString, Spells;
    var r := QuotedString(s, start + 1, start, "");
    var text := QuotedIsSpelled(s, start + 1, start, "");
    assert "" + text == text;
    SliceInside(s, start, r.next);
    QuotedToken(s, Token(Str, text, start, false), r.next);
  }

  lemma QuotedToken(s: string, tok: Token, end: nat)
    requires tok.kind == Str && !tok.raw && tok.offset + 2 <= end <= |s|
    requires var w := s[tok.offset..end]; w[0] == '"' && w[|w| - 1] == '"' && Spells(w[1..|w| - 1], tok.text)
    ensures IsToken(s, tok, end)
  {
    hide Spells;
  }

  lemma RawToken(s: string, tok: Token, end: nat)
    requires tok.kind == Str && tok.raw && tok.offset + 2 <= end <= |s|
    requires s[tok.offset..end] == "`" + tok.text + "`" && '`' !in tok.text
    ensures IsToken(s, tok, end)
  {
  }

  lemma NoBacktick(s: string, p: nat, end: nat)
    requires p <= end <= |s| && forall i :: p <= i < end ==> s[i] != '`'
    ensures '`' !in s[p..end]
  {
  }

  lemma Backticks(s: string, start: nat, end: nat)
    requires start + 2 <= end <= |s| && s[start] == '`' && s[end - 1] == '`'
    ensures s[start..end] == "`" + s[start + 1..end - 1] + "`"
  {
  }

  lemma RawIsToken(s: string, start: nat)
    requires start < |s| && s[start] == '`' && RawString(s, start + 1, start).tok.kind == Str
    ensures var r := RawString(s, start + 1, start); IsToken(s, r.tok, r.next)
  {
    hide RawString, IsToken;
    var r := RawString(s, start + 1, start);
    RawReaches(s, start + 1, start);
    NoBacktick(s, start + 1, r.next - 1);
    Backticks(s, start, r.next);
    RawToken(s, r.tok, r.next);
  }

  lemma WordIsToken(s: string, start: nat)
    requires start < |s| && BeginsWord(s[start])
    ensures var end := IdentEnd(s, start + 1); IsToken(s, Token(Ident, s[start..end], start, false), end)
  {
    WordReaches(s, start + 1);
    hide IdentEnd;
    assert s[start..IdentEnd(s, start + 1)][0] == s[start];
  }

  lemma LexIsToken(s: string, p: nat)
    requires p <= |s| && Lex(s, p).tok.kind != Error
    ensures NextToken(s, p, Lex(s, p).tok, Lex(s, p).next)
  {
    hide IsToken, SkipSpace, QuotedString, RawString, IdentEnd, Number, IsBlank, BeginsWord, IsSpace, IsIdentStart;
    SkipsBlanks(s, p);
    var start := SkipSpace(s, p);
    if start < |s| {
      var c := s[start];
      CharactersAre(c);
      if Punctuation(c) != Error {
        MarkIsToken(s, start);
      } else if c == '"' {
        QuotedIsToken(s, start);
      } else if c == '`' {
        RawIsToken(s, start);
      } else if IsSign(c) || IsDecimal(c) {
        NumberIsToken(s, start);
      } else {
        WordIsToken(s, start);
      }
    }
  }

  lemma MarkIsToken(s: string, start: nat)
    requires start < |s| && Punctuation(s[start]) != Error
    ensures IsToken(s, Token(Punctuation(s[start]), [s[start]], start, false), start + 1)
  {
    assert s[start..start + 1] == [s[start]];
  }

  lemma TokenIsLexed(s: string, p: nat, tok: Token, end: nat)
    requires NextToken(s, p, tok, end)
    ensures Lex(s, p) == Lexed(tok, end)
  {
    hide SkipSpace, QuotedString, RawString, IdentEnd, Number, NumberEnds, IsNumberText, Spells, IsBlank;
    if tok.kind == EOF {
      SkipsTo(s, p, |s|);
    } else {
      var c := s[tok.offset];
      assert s[tok.offset..end][0] == c;
      FirstIsNotBlank(s, tok, end);
      SkipsTo(s, p, tok.offset);
      CharactersAre(c);
      if tok.kind == Str {
        StringIsLexed(s, tok, end);
      } else if tok.kind == Ident {
        assert forall i :: tok.offset <= i < end ==> s[i] == s[tok.offset..end][i - tok.offset];
        WordStops(s, tok.offset + 1, end);
      } else if tok.kind in {IntLit, FloatLit} {
        TokenIsNumber(s, tok, end);
      } else {
        assert |s[tok.offset..end]| == 1;
      }
    }
  }

  lemma FirstIsNotBlank(s: string, tok: Token, end: nat)
    requires IsToken(s, tok, end)
    ensures !IsBlank(s[tok.offset])
  {
    hide Spells;
    assert s[tok.offset] == s[tok.offset..end][0];
  }

  lemma StringIsLexed(s: string, tok: Token, end: nat)
    requires IsToken(s, tok, end) && tok.kind == Str
    ensures if tok.raw then s[tok.offset] == '`' && RawString(s, tok.offset + 1, tok.offset) == Lexed(tok, end)
            else s[tok.offset] == '"' && QuotedString(s, tok.offset + 1, tok.offset, "") == Lexed(tok, end)
  {
    hide Spells, RawString, QuotedString;
    var start := tok.offset;
    var w := s[start..end];
    assert |w| >= 2;
    SliceInside(s, start, end);
    if tok.raw {
      assert w[1..|w| - 1] == tok.text;
      forall i | start < i < end - 1 ensures s[i] != '`' { assert s[i] == tok.text[i - start - 1]; }
      RawBody(s, start + 1, start, end - 1);
    } else {
      SpelledIsQuoted(s, start + 1, start, "", end - 1, tok.text);
      assert "" + tok.text == tok.text;
    }
  }

  /** The lexer gives exactly the tokens of the language; what is no token is an error. */
  lemma LexIsExact(s: string, p: nat, tok: Token, end: nat)
    requires p <= |s| && tok.kind != Error
    ensures Lex(s, p) == Lexed(tok, end) <==> NextToken(s, p, tok, end)
  {
    hide Lex, NextToken;
    if Lex(s, p) == Lexed(tok, end) { LexIsToken(s, p); }
    if NextToken(s, p, tok, end) { TokenIsLexed(s, p, tok, end); }
  }

  lemma ErrorIsNoToken(s: string, p: nat)
    requires p <= |s|
    ensures Lex(s, p).tok.kind == Error <==>
      forall tok: Token, end: nat :: tok.kind != Error ==> !NextToken(s, p, tok, end)
  {
    hide Lex, NextToken;
    if Lex(s, p).tok.kind != Error {
      LexIsToken(s, p);
    } else {
      forall tok: Token, end: nat | tok.kind != Error ensures !NextToken(s, p, tok, end) {
        if NextToken(s, p, tok, end) { TokenIsLexed(s, p, tok, end); }
      }
    }
  }
}
