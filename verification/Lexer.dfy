/**
 The tokenizer of annotation/lexer.go. `Lex` gives the token that starts at a position together with
 the position behind it; class `Lexer` advances its `pos` field in loops and is proved equal to it.
 */
module Lexer {

  // Unicode categories beyond ASCII, left open: the results hold for any such tables.
  const LETTERS: set<char>
  const DIGITS: set<char>
  const SPACES: set<char>

  predicate IsAscii(c: char) { c < 128 as char }

  predicate IsDecimal(c: char) { '0' <= c <= '9' }

  predicate IsLetter(c: char) {
    'a' <= c <= 'z' || 'A' <= c <= 'Z' || (!IsAscii(c) && c in LETTERS)
  }

  predicate IsDigit(c: char) { IsDecimal(c) || (!IsAscii(c) && c in DIGITS) }

  /** unicode.IsSpace; no character is both a space and a letter or digit. */
  predicate IsSpace(c: char) {
    9 as char <= c <= 13 as char || c == ' ' || (!IsAscii(c) && c in SPACES && c !in LETTERS && c !in DIGITS)
  }

  predicate IsIdentStart(c: char) { c == '_' || IsLetter(c) }

  predicate IsIdentPart(c: char) { c == '_' || c == '.' || IsLetter(c) || IsDigit(c) }

  predicate IsSign(c: char) { c == '-' || c == '+' }

  datatype Kind =
    | EOF | At | Ident | LParen | RParen | LBracket | RBracket | LBrace | RBrace | Equals | Comma
    | Str | IntLit | FloatLit | Error

  /** text: decoded content of a string, literal text of a number or identifier, message of an error. */
  datatype Token = Token(kind: Kind, text: string, offset: nat, raw: bool)

  /** A token and the position just behind it. */
  datatype Lexed = Lexed(tok: Token, next: nat)

  // ---- the token language ----

  function SkipSpace(s: string, p: nat): (q: nat)
    requires p <= |s|
    ensures p <= q <= |s|
    decreases |s| - p
  {
    if p < |s| && IsSpace(s[p]) then SkipSpace(s, p + 1) else p
  }

  function Punctuation(c: char): Kind {
    match c
    case '@' => At
    case '(' => LParen
    case ')' => RParen
    case '[' => LBracket
    case ']' => RBracket
    case '{' => LBrace
    case '}' => RBrace
    case '=' => Equals
    case ',' => Comma
    case _ => Error
  }

  /** The character an escape letter stands for; the letter itself marks the two that keep it. */
  function Unescape(c: char): char {
    if c == 'n' then '\n' else if c == 't' then '\t' else if c == 'r' then '\r' else c
  }

  predicate IsEscape(c: char) { c == 'n' || c == 't' || c == 'r' || c == '"' || c == '\\' }

  /** Rest of a quoted string from p on, content so far in acc; start is the opening quote. */
  function QuotedString(s: string, p: nat, start: nat, acc: string): (r: Lexed)
    requires start < p <= |s|
    ensures start < r.next <= |s| && r.tok.offset == start && r.tok.kind in {Str, Error}
    decreases |s| - p
  {
    if p == |s| || s[p] == '\n' then Lexed(Token(Error, "unterminated string", start, false), p)
    else if s[p] == '"' then Lexed(Token(Str, acc, start, false), p + 1)
    else if s[p] != '\\' then QuotedString(s, p + 1, start, acc + [s[p]])
    else if p + 1 == |s| then Lexed(Token(Error, "unterminated escape sequence", start, false), p + 1)
    else if IsEscape(s[p + 1]) then QuotedString(s, p + 2, start, acc + [Unescape(s[p + 1])])
    else Lexed(Token(Error, "invalid escape sequence \\" + [s[p + 1]], start, false), p + 1)
  }

  function RawString(s: string, p: nat, start: nat): (r: Lexed)
    requires start < p <= |s|
    ensures start < r.next <= |s| && r.tok.offset == start && r.tok.kind in {Str, Error}
    decreases |s| - p
  {
    if p == |s| then Lexed(Token(Error, "unterminated raw string", start, false), p)
    else if s[p] == '`' then Lexed(Token(Str, s[start + 1..p], start, true), p + 1)
    else RawString(s, p + 1, start)
  }

  /** How far the characters of a number reach; ok is false at a second point. */
  datatype Extent = Extent(ok: bool, isFloat: bool, end: nat)

  function NumberExtent(s: string, p: nat, isFloat: bool): (r: Extent)
    requires p <= |s|
    ensures p <= r.end <= |s|
    decreases |s| - p
  {
    if p == |s| then Extent(true, isFloat, p)
    else if IsDecimal(s[p]) then NumberExtent(s, p + 1, isFloat)
    else if s[p] == '.' then (if isFloat then Extent(false, true, p) else NumberExtent(s, p + 1, true))
    else if s[p] == 'e' || s[p] == 'E' then
      NumberExtent(s, if p + 1 < |s| && IsSign(s[p + 1]) then p + 2 else p + 1, true)
    else Extent(true, isFloat, p)
  }

  predicate HasDecimal(s: string) { exists i :: 0 <= i < |s| && IsDecimal(s[i]) }

  function Number(s: string, start: nat): (r: Lexed)
    requires start < |s| && (IsSign(s[start]) || IsDecimal(s[start]))
    ensures start < r.next <= |s| && r.tok.offset == start && r.tok.kind in {IntLit, FloatLit, Error}
  {
    var x := NumberExtent(s, if IsSign(s[start]) then start + 1 else start, false);
    var text := s[start..x.end];
    if !x.ok then Lexed(Token(Error, "malformed number", start, false), x.end)
    else if !HasDecimal(text) then Lexed(Token(Error, "malformed number " + text, start, false), x.end)
    else Lexed(Token(if x.isFloat then FloatLit else IntLit, text, start, false), x.end)
  }

  function IdentEnd(s: string, p: nat): (q: nat)
    requires p <= |s|
    ensures p <= q <= |s|
    decreases |s| - p
  {
    if p < |s| && IsIdentPart(s[p]) then IdentEnd(s, p + 1) else p
  }

  /**
   The next token at or after p. A token other than the end of input lies wholly behind p, so every
   call consumes input.
   */
  function Lex(s: string, p: nat): (r: Lexed)
    requires p <= |s|
    ensures p <= r.tok.offset <= r.next <= |s|
    ensures r.tok.kind == EOF <==> SkipSpace(s, p) == |s|
    ensures r.tok.kind != EOF ==> r.tok.offset < r.next
  {
    var start := SkipSpace(s, p);
    if start == |s| then Lexed(Token(EOF, "", start, false), start)
    else
      var c := s[start];
      if Punctuation(c) != Error then Lexed(Token(Punctuation(c), [c], start, false), start + 1)
      else if c == '"' then QuotedString(s, start + 1, start, "")
      else if c == '`' then RawString(s, start + 1, start)
      else if IsSign(c) || IsDecimal(c) then Number(s, start)
      else if IsIdentStart(c) then
        var end := IdentEnd(s, start + 1);
        Lexed(Token(Ident, s[start..end], start, false), end)
      else Lexed(Token(Error, "unexpected character " + [c], start, false), start + 1)
  }

  // ---- the code ----

  class Lexer {
    const input: string
    var pos: nat

    constructor (input: string)
      ensures this.input == input && pos == 0
    {
      this.input := input;
      pos := 0;
    }

    method Next() returns (tok: Token)
      requires pos <= |input|
      modifies this
      ensures pos <= |input| && Lexed(tok, pos) == Lex(input, old(pos))
    {
      SkipSpaces();
      if pos >= |input| { return Token(EOF, "", pos, false); }
      var start := pos;
      var c := input[pos];
      var kind := Punctuation(c);
      if kind != Error {
        pos := pos + 1;
        return Token(kind, [c], start, false);
      }
      if c == '"' {
        tok := LexQuotedString(start);
      } else if c == '`' {
        tok := LexRawString(start);
      } else if IsSign(c) || IsDecimal(c) {
        tok := LexNumber(start);
      } else if IsIdentStart(c) {
        tok := LexIdent(start);
      } else {
        pos := pos + 1;
        tok := Token(Error, "unexpected character " + [c], start, false);
      }
    }

    method SkipSpaces()
      requires pos <= |input|
      modifies this
      ensures pos == SkipSpace(input, old(pos))
    {
      while pos < |input| && IsSpace(input[pos])
        invariant pos <= |input|
        invariant SkipSpace(input, pos) == SkipSpace(input, old(pos))
      {
        pos := pos + 1;
      }
    }

    method LexQuotedString(start: nat) returns (tok: Token)
      requires start == pos < |input|
      modifies this
      ensures Lexed(tok, pos) == QuotedString(input, start + 1, start, "")
    {
      pos := pos + 1;
      var b := "";
      while pos < |input|
        invariant start < pos <= |input|
        invariant QuotedString(input, pos, start, b) == QuotedString(input, start + 1, start, "")
      {
        var c := input[pos];
        if c == '"' {
          pos := pos + 1;
          return Token(Str, b, start, false);
        } else if c == '\n' {
          return Token(Error, "unterminated string", start, false);
        } else if c == '\\' {
          pos := pos + 1;
          if pos >= |input| { return Token(Error, "unterminated escape sequence", start, false); }
          if !IsEscape(input[pos]) {
            return Token(Error, "invalid escape sequence \\" + [input[pos]], start, false);
          }
          b := b + [Unescape(input[pos])];
          pos := pos + 1;
        } else {
          b := b + [c];
          pos := pos + 1;
        }
      }
      return Token(Error, "unterminated string", start, false);
    }

    method LexRawString(start: nat) returns (tok: Token)
      requires start == pos < |input|
      modifies this
      ensures Lexed(tok, pos) == RawString(input, start + 1, start)
    {
      pos := pos + 1;
      while pos < |input|
        invariant start < pos <= |input|
        invariant RawString(input, pos, start) == RawString(input, start + 1, start)
      {
        if input[pos] == '`' {
          var content := input[start + 1..pos];
          pos := pos + 1;
          return Token(Str, content, start, true);
        }
        pos := pos + 1;
      }
      return Token(Error, "unterminated raw string", start, false);
    }

    method LexNumber(start: nat) returns (tok: Token)
      requires start == pos < |input| && (IsSign(input[pos]) || IsDecimal(input[pos]))
      modifies this
      ensures Lexed(tok, pos) == Number(input, start)
    {
      if IsSign(input[pos]) { pos := pos + 1; }
      ghost var first := pos;
      var isFloat := false;
      while pos < |input|
        invariant first <= pos <= |input|
        invariant NumberExtent(input, pos, isFloat) == NumberExtent(input, first, false)
        decreases |input| - pos
      {
        var c := input[pos];
        if IsDecimal(c) {
          pos := pos + 1;
        } else if c == '.' {
          if isFloat { return Token(Error, "malformed number", start, false); }
          isFloat := true;
          pos := pos + 1;
        } else if c == 'e' || c == 'E' {
          isFloat := true;
          pos := pos + 1;
          if pos < |input| && IsSign(input[pos]) { pos := pos + 1; }
        } else {
          break;
        }
      }
      var text := input[start..pos];
      if !HasDecimal(text) { return Token(Error, "malformed number " + text, start, false); }
      return Token(if isFloat then FloatLit else IntLit, text, start, false);
    }

    method LexIdent(start: nat) returns (tok: Token)
      requires start == pos < |input| && IsIdentStart(input[pos])
      modifies this
      ensures pos == IdentEnd(input, start + 1) && tok == Token(Ident, input[start..pos], start, false)
    {
      assert IsIdentPart(input[pos]);
      while pos < |input|
        invariant pos <= |input|
        invariant IdentEnd(input, pos) == IdentEnd(input, start + 1)
      {
        if !IsIdentPart(input[pos]) { break; }
        pos := pos + 1;
      }
      return Token(Ident, input[start..pos], start, false);
    }
  }

  /** tokenStream: the lexer with one token of lookahead. */
  class TokenStream {
    const lex: Lexer
    var peeked: Token
    var hasPeeked: bool
    ghost var at: nat   // where the next token to be handed out begins

    ghost predicate Valid()
      reads this, lex
    {
      && at <= |lex.input| && lex.pos <= |lex.input|
      && if hasPeeked then Lexed(peeked, lex.pos) == Lex(lex.input, at) else lex.pos == at
    }

    constructor (input: string)
      ensures Valid() && at == 0 && fresh(lex) && lex.input == input
    {
      lex := new Lexer(input);
      peeked, hasPeeked, at := Token(EOF, "", 0, false), false, 0;
    }

    method Next() returns (tok: Token)
      requires Valid()
      modifies this, lex
      ensures Valid() && Lexed(tok, at) == Lex(lex.input, old(at))
    {
      if hasPeeked {
        tok := peeked;
        hasPeeked := false;
        at := lex.pos;
      } else {
        tok := lex.Next();
        at := lex.pos;
      }
    }

    method Peek() returns (tok: Token)
      requires Valid()
      modifies this, lex
      ensures Valid() && at == old(at) && tok == Lex(lex.input, at).tok
    {
      if !hasPeeked {
        peeked := lex.Next();
        hasPeeked := true;
      }
      return peeked;
    }
  }
}
