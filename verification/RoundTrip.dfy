/**
 Printing a value and parsing it again. For every value that can be written at all, the parser gives
 back exactly that value if its strings need only escapes the lexer knows, its floats are in the range
 of strconv.ParseFloat and its nesting is within bounds, and reports an error otherwise.
 */
module RoundTrip {
  import opened Model
  import opened Ordering
  import opened Lexer
  import opened Value
  import opened Parser

  /** t stands at position p of s. */
  ghost predicate StandsAt(s: string, p: nat, t: string) {
    p + |t| <= |s| && s[p..p + |t|] == t
  }

  lemma AtSplit(s: string, p: nat, a: string, b: string)
    requires StandsAt(s, p, a + b)
    ensures StandsAt(s, p, a) && StandsAt(s, p + |a|, b)
  {
    var n := p + |a| + |b|;
    assert s[p..n][..|a|] == a && s[p..n][|a|..] == b;
    assert s[p..n][..|a|] == s[p..p + |a|] && s[p..n][|a|..] == s[p + |a|..n];
  }

  lemma AtChar(s: string, p: nat, t: string, i: nat)
    requires StandsAt(s, p, t) && i < |t|
    ensures p + i < |s| && s[p + i] == t[i]
  {
    assert s[p..p + |t|][i] == s[p + i];
  }

  /** What follows a printed value inside a list. */
  predicate Stop(s: string, q: nat) {
    q < |s| && (s[q] == ',' || s[q] == ')' || s[q] == ']' || s[q] == '}')
  }

  // ---- which values are concerned ----

  /** A letter or an underscore, and then letters, digits, underscores and dots. */
  predicate IsWord(w: string) {
    && w != [] && w[0] != '.' && !('0' <= w[0] <= '9') && (w[0] >= 128 as char ==> w[0] in LETTERS)
    && forall i :: 0 <= i < |w| ==>
         || w[i] == '_' || w[i] == '.' || 'a' <= w[i] <= 'z' || 'A' <= w[i] <= 'Z' || '0' <= w[i] <= '9'
         || (w[i] >= 128 as char && (w[i] in LETTERS || w[i] in DIGITS))
  }

  lemma WordParts(w: string)
    ensures IsWord(w) <==> w != [] && IsIdentStart(w[0]) && forall i :: 0 <= i < |w| ==> IsIdentPart(w[i])
  {
  }

  /** A point, or the letter of an exponent. */
  predicate IsFractionMark(c: char) {
    c == '.' || c == 'e' || c == 'E'
  }

  /** Character i can be part of a number that starts at p: a digit, a point or an exponent, or the exponent's sign. */
  predicate InNumber(t: string, p: nat, i: nat)
    requires i < |t|
  {
    || '0' <= t[i] <= '9' || IsFractionMark(t[i])
    || ((t[i] == '+' || t[i] == '-') && i > p && (t[i - 1] == 'e' || t[i - 1] == 'E'))
  }

  ghost predicate NumberPart(t: string, p: nat, end: nat)
    requires end <= |t|
  {
    forall i :: p <= i < end ==> InNumber(t, p, i)
  }

  ghost predicate HasFraction(t: string, p: nat, end: nat)
    requires end <= |t|
  {
    exists i :: p <= i < end && IsFractionMark(t[i])
  }

  /** A point comes behind no other point and behind no exponent. */
  ghost predicate PointsFirst(t: string, p: nat, end: nat)
    requires end <= |t|
  {
    forall j :: p < j < end && t[j] == '.' ==> !HasFraction(t, p, j)
  }

  /** Where a number goes on behind its sign, if it has one. */
  function BehindSign(t: string): nat {
    if t != "" && (t[0] == '+' || t[0] == '-') then 1 else 0
  }

  /** The texts that are numbers. */
  ghost predicate IsNumberText(t: string) {
    && t != "" && (BehindSign(t) == 1 || '0' <= t[0] <= '9')
    && NumberPart(t, BehindSign(t), |t|) && PointsFirst(t, BehindSign(t), |t|)
    && exists i :: 0 <= i < |t| && '0' <= t[i] <= '9'
  }

  /** A number with a point or an exponent is a float, any other an integer. */
  ghost predicate IsFloatText(t: string) {
    IsNumberText(t) && HasFraction(t, BehindSign(t), |t|)
  }

  /**
   Values the language can express. A float must be printed with a point or an exponent, as 2.0 is not, and strconv must
   not read another float from its text; ParseableSplits shows which of the others parsing yields.
   */
  ghost predicate Writable(v: Value)
    decreases v
  {
    match v
    case StringValue(val, raw) => raw ==> '`' !in val
    case IntValue(n) => -9223372036854775808 <= n <= 9223372036854775807
    case FloatValue(f) =>
      && f in FORMAT_FLOAT && IsFloatText(FORMAT_FLOAT[f])
      && (FORMAT_FLOAT[f] in PARSE_FLOAT ==> PARSE_FLOAT[FORMAT_FLOAT[f]] == f)
    case BoolValue(_) => true
    case IdentValue(name) => IsWord(name) && name != "true" && name != "false" && name != "null"
    case NullValue => true
    case ArrayValue(elements) => forall i :: 0 <= i < |elements| ==> Writable(elements[i])
    case ObjectValue(fields) => forall k :: k in fields ==> IsWord(k) && Writable(fields[k])
  }

  predicate AllPlain(val: string) {
    val == [] || (IsPlain(val[0]) && AllPlain(val[1..]))
  }

  /** Strings with known escapes and floats in range only, and at most 32 levels of nesting counting from depth. */
  ghost predicate Readable(v: Value, depth: nat)
    decreases v
  {
    depth <= 32 &&
    match v
    case StringValue(val, raw) => raw || AllPlain(val)
    case FloatValue(f) => f in FORMAT_FLOAT && FORMAT_FLOAT[f] in PARSE_FLOAT
    case ArrayValue(elements) => forall i :: 0 <= i < |elements| ==> Readable(elements[i], depth + 1)
    case ObjectValue(fields) => forall k :: k in fields ==> Readable(fields[k], depth + 1)
    case _ => true
  }

  // ---- tokens of printed values ----

  lemma LexAfterSpace(s: string, p: nat)
    requires p < |s| && IsSpace(s[p])
    ensures Lex(s, p) == Lex(s, p + 1)
  {
  }

  lemma QuoteBodyText(s: string, p: nat, val: string)
    requires val != [] && StandsAt(s, p, QuoteBody(val) + "\"")
    ensures StandsAt(s, p, QuoteChar(val[0])) && StandsAt(s, p + |QuoteChar(val[0])|, QuoteBody(val[1..]) + "\"")
    ensures |QuoteBody(val)| == |QuoteChar(val[0])| + |QuoteBody(val[1..])|
  {
    hide StandsAt, QuoteChar;
    var head, tail := QuoteChar(val[0]), QuoteBody(val[1..]);
    assert QuoteBody(val) + "\"" == head + (tail + "\"");
    AtSplit(s, p, head, tail + "\"");
  }

  lemma {:induction false} QuotedBody(s: string, p: nat, start: nat, acc: string, val: string)
    requires start < p && StandsAt(s, p, QuoteBody(val) + "\"")
    ensures var r := QuotedString(s, p, start, acc);
      if AllPlain(val)
      then r == Lexed(Token(Str, acc + val, start, false), p + |QuoteBody(val)| + 1)
      else r.tok.kind == Error
    decreases |val|
  {
    hide QuotedString, QuoteChar, IsPlain, StandsAt, QuoteBody;
    if val == [] {
      EmptyBody(s, p, start, acc);
    } else {
      var c, rest := val[0], val[1..];
      assert val == [c] + rest;
      QuoteBodyText(s, p, val);
      OneQuoted(s, p, start, acc, c);
      if IsPlain(c) {
        QuotedBody(s, p + |QuoteChar(c)|, start, acc + [c], rest);
        assert acc + [c] + rest == acc + val;
      }
    }
  }

  lemma EmptyBody(s: string, p: nat, start: nat, acc: string)
    requires start < p && StandsAt(s, p, QuoteBody("") + "\"")
    ensures QuotedString(s, p, start, acc) == Lexed(Token(Str, acc + "", start, false), p + 1) && QuoteBody("") == ""
  {
    AtChar(s, p, QuoteBody("") + "\"", 0);
    assert acc + "" == acc;
  }

  lemma OneQuoted(s: string, p: nat, start: nat, acc: string, c: char)
    requires start < p && StandsAt(s, p, QuoteChar(c))
    ensures if IsPlain(c)
      then QuotedString(s, p, start, acc) == QuotedString(s, p + |QuoteChar(c)|, start, acc + [c])
      else QuotedString(s, p, start, acc).tok.kind == Error
  {
    AtChar(s, p, QuoteChar(c), 0);
    if QuoteChar(c)[0] == '\\' {
      AtChar(s, p, QuoteChar(c), 1);
    }
  }

  lemma {:induction false} RawBody(s: string, p: nat, start: nat, end: nat)
    requires start < p <= end < |s| && s[end] == '`'
    requires forall i :: p <= i < end ==> s[i] != '`'
    ensures RawString(s, p, start) == Lexed(Token(Str, s[start + 1..end], start, true), end + 1)
    decreases end - p
  {
    if p < end { RawBody(s, p + 1, start, end); }
  }

  lemma {:induction false} DigitsExtent(s: string, p: nat, end: nat)
    requires p <= end && Stop(s, end)
    requires forall i :: p <= i < end ==> IsDecimal(s[i])
    ensures NumberExtent(s, p, false) == Extent(true, false, end)
    decreases end - p
  {
    if p < end { DigitsExtent(s, p + 1, end); }
  }

  lemma {:induction false} WordEnd(s: string, p: nat, end: nat)
    requires p <= end && end < |s| && !IsIdentPart(s[end])
    requires forall i :: p <= i < end ==> IsIdentPart(s[i])
    ensures IdentEnd(s, p) == end
    decreases end - p
  {
    if p < end { WordEnd(s, p + 1, end); }
  }

  lemma LexWord(s: string, p: nat, w: string)
    requires StandsAt(s, p, w) && IsWord(w) && p + |w| < |s| && !IsIdentPart(s[p + |w|])
    ensures Lex(s, p) == Lexed(Token(Ident, w, p, false), p + |w|)
  {
    forall i | 0 <= i < |w| ensures s[p + i] == w[i] { AtChar(s, p, w, i); }
    forall i | p <= i < p + |w| ensures IsIdentPart(s[i]) { assert s[i] == w[i - p]; }
    WordEnd(s, p + 1, p + |w|);
  }

  lemma LexInt(s: string, p: nat, n: int)
    requires StandsAt(s, p, FormatInt(n)) && Stop(s, p + |FormatInt(n)|)
    ensures Lex(s, p) == Lexed(Token(IntLit, FormatInt(n), p, false), p + |FormatInt(n)|)
  {
    if n < 0 {
      AtSplit(s, p, "-", Decimal(-n));
      AtChar(s, p, "-", 0);
      LexDigits(s, p, p + 1, Decimal(-n));
      assert FormatInt(n)[1] == Decimal(-n)[0];
    } else {
      LexDigits(s, p, p, Decimal(n));
    }
  }

  /** Digits at p, after a sign when start < p. */
  lemma LexDigits(s: string, start: nat, p: nat, digits: string)
    requires StandsAt(s, p, digits) && Stop(s, p + |digits|) && digits != []
    requires forall i :: 0 <= i < |digits| ==> IsDecimal(digits[i])
    requires start == p || (start + 1 == p && IsSign(s[start]))
    ensures Lex(s, start) == Lexed(Token(IntLit, s[start..p + |digits|], start, false), p + |digits|)
  {
    var end := p + |digits|;
    forall i | p <= i < end ensures IsDecimal(s[i]) {
      AtChar(s, p, digits, i - p);
    }
    DigitsExtent(s, p, end);
    var text := s[start..end];
    assert IsDecimal(s[p]) && text[p - start] == s[p];
    assert HasDecimal(text);
    assert Punctuation(s[start]) == Error && !IsSpace(s[start]);
  }

  /** How far a number reaches that ends in front of a stop. */
  lemma {:induction false} FractionExtent(s: string, p: nat, end: nat, isFloat: bool)
    requires p <= end && Stop(s, end) && NumberPart(s, p, end) && PointsFirst(s, p, end)
    requires isFloat ==> forall i :: p <= i < end ==> s[i] != '.'
    ensures NumberExtent(s, p, isFloat) == Extent(true, isFloat || HasFraction(s, p, end), end)
    decreases end - p
  {
    if p < end {
      var q := AfterMark(s, p);
      assert InNumber(s, p, p);
      FractionGoesOn(s, p, end);
      FractionExtent(s, q, end, isFloat || IsFractionMark(s[p]));
    }
  }

  /** The sign of an exponent goes with it. */
  function AfterMark(s: string, p: nat): nat
    requires p + 1 < |s|
  {
    if (s[p] == 'e' || s[p] == 'E') && IsSign(s[p + 1]) then p + 2 else p + 1
  }

  lemma FractionGoesOn(s: string, p: nat, end: nat)
    requires p < end && Stop(s, end) && NumberPart(s, p, end) && PointsFirst(s, p, end)
    ensures var q := AfterMark(s, p);
      && q <= end && NumberPart(s, q, end) && PointsFirst(s, q, end)
      && (HasFraction(s, p, end) <==> IsFractionMark(s[p]) || HasFraction(s, q, end))
      && (IsFractionMark(s[p]) ==> forall i :: q <= i < end ==> s[i] != '.')
  {
    var q := AfterMark(s, p);
    forall i | q <= i < end ensures InNumber(s, q, i) && (IsFractionMark(s[p]) ==> s[i] != '.') {
      assert InNumber(s, p, i) && InNumber(s, p, p);
      assert s[i] == '.' ==> !HasFraction(s, p, i);
    }
    forall j | q < j < end && s[j] == '.' ensures !HasFraction(s, q, j) {
      assert !HasFraction(s, p, j);
    }
    if i :| p <= i < end && IsFractionMark(s[i]) { assert i == p || i >= q; }
  }

  lemma LexIsNumber(s: string, p: nat)
    requires p < |s| && (IsSign(s[p]) || IsDecimal(s[p]))
    ensures Lex(s, p) == Number(s, p)
  {
    hide Number, QuotedString, RawString, IdentEnd;
  }

  /** The text of a number, taken as a whole. */
  lemma LexNumberText(s: string, p: nat, t: string)
    requires StandsAt(s, p, t) && Stop(s, p + |t|) && IsNumberText(t)
    ensures var kind := if HasFraction(t, BehindSign(t), |t|) then FloatLit else IntLit;
      Lex(s, p) == Lexed(Token(kind, t, p, false), p + |t|)
  {
    hide Lex;
    var end, start := p + |t|, p + BehindSign(t);
    NumberStands(s, p, t);
    FractionExtent(s, start, end, false);
    hide NumberPart, PointsFirst, HasFraction, NumberExtent;
    assert s[p..end] == t;
    assert s[p] == t[0];
    LexIsNumber(s, p);
    var i :| 0 <= i < |t| && '0' <= t[i] <= '9';
    assert IsDecimal(t[i]) && HasDecimal(t);
  }

  lemma NumberStands(s: string, p: nat, t: string)
    requires StandsAt(s, p, t) && IsNumberText(t)
    ensures var start, end := p + BehindSign(t), p + |t|;
      && start <= end <= |s| && NumberPart(s, start, end) && PointsFirst(s, start, end)
      && (HasFraction(s, start, end) <==> HasFraction(t, BehindSign(t), |t|))
  {
    var b := BehindSign(t);
    assert forall i :: 0 <= i < |t| ==> s[p + i] == t[i];
    assert forall i :: p <= i < p + |t| ==> s[i] == t[i - p];
    var start := p + b;
    forall i | start <= i < p + |t| ensures InNumber(s, start, i) { assert InNumber(t, b, i - p); }
    forall j | p + b < j < p + |t| && s[j] == '.' ensures !HasFraction(s, p + b, j) {
      assert t[j - p] == '.' && !HasFraction(t, b, j - p);
    }
  }

  lemma {:induction false} ExtentIsNumber(s: string, p: nat, isFloat: bool)
    requires p <= |s| && NumberExtent(s, p, isFloat).ok
    ensures var x := NumberExtent(s, p, isFloat);
      && NumberPart(s, p, x.end) && PointsFirst(s, p, x.end)
      && (x.isFloat <==> isFloat || HasFraction(s, p, x.end))
      && (isFloat ==> forall i :: p <= i < x.end ==> s[i] != '.')
    decreases |s| - p
  {
    if p < |s| && (IsDecimal(s[p]) || IsFractionMark(s[p])) {
      var q := if p + 1 < |s| then AfterMark(s, p) else p + 1;
      ExtentIsNumber(s, q, isFloat || IsFractionMark(s[p]));
      hide NumberExtent;
      ExtentGoesOn(s, p, q, NumberExtent(s, q, isFloat || IsFractionMark(s[p])).end);
    }
  }

  lemma ExtentGoesOn(s: string, p: nat, q: nat, end: nat)
    requires p < q <= end <= |s| && NumberPart(s, q, end) && PointsFirst(s, q, end)
    requires IsDecimal(s[p]) || IsFractionMark(s[p])
    requires q == p + 1 || (q == p + 2 && (s[p] == 'e' || s[p] == 'E') && IsSign(s[p + 1]))
    requires IsFractionMark(s[p]) ==> forall i :: q <= i < end ==> s[i] != '.'
    ensures NumberPart(s, p, end) && PointsFirst(s, p, end)
    ensures HasFraction(s, p, end) <==> IsFractionMark(s[p]) || HasFraction(s, q, end)
  {
    forall i | p <= i < end ensures InNumber(s, p, i) {
      if i >= q { assert InNumber(s, q, i); }
    }
    forall j | p < j < end && s[j] == '.' ensures !HasFraction(s, p, j) {
      assert j > q ==> !HasFraction(s, q, j);
    }
    assert IsFractionMark(s[p]) ==> HasFraction(s, p, end);
  }

  /** Only numbers are read as numbers, and only those with a point or an exponent as floats. */
  lemma NumberTokenIsNumber(s: string, p: nat)
    requires p <= |s| && Lex(s, p).tok.kind in {IntLit, FloatLit}
    ensures var tok := Lex(s, p).tok; IsNumberText(tok.text) && (tok.kind == FloatLit <==> IsFloatText(tok.text))
  {
    hide QuotedString, RawString, IdentEnd, IsSpace, NumberExtent;
    var start := SkipSpace(s, p);
    var tok := Lex(s, p).tok;
    assert Lex(s, p) == Number(s, start);
    var from := if IsSign(s[start]) then start + 1 else start;
    var x := NumberExtent(s, from, false);
    ExtentIsNumber(s, from, false);
    assert tok.text == s[start..x.end] && HasDecimal(tok.text);
    PartOfText(s, start, from, x.end);
  }

  lemma PartOfText(s: string, start: nat, from: nat, end: nat)
    requires start < |s| && start <= from <= end <= |s| && start < end
    requires from == if s[start] == '+' || s[start] == '-' then start + 1 else start
    requires NumberPart(s, from, end) && PointsFirst(s, from, end)
    ensures var t := s[start..end];
      && BehindSign(t) == from - start && NumberPart(t, from - start, |t|) && PointsFirst(t, from - start, |t|)
      && (HasFraction(t, from - start, |t|) <==> HasFraction(s, from, end))
  {
    var t, b := s[start..end], from - start;
    assert forall i :: 0 <= i < |t| ==> t[i] == s[start + i];
    assert forall i :: start <= i < end ==> s[i] == t[i - start];
    forall i | b <= i < |t| ensures InNumber(t, b, i) { assert InNumber(s, from, start + i); }
    forall j | b < j < |t| && t[j] == '.' ensures !HasFraction(t, b, j) {
      assert !HasFraction(s, from, start + j);
      assert forall i :: b <= i < j ==> t[i] == s[start + i] && !IsFractionMark(s[start + i]);
    }
  }

  /** What a number in a list is read as: a float is what strconv.ParseFloat makes of its whole text. */
  lemma NumberIsRead(s: string, p: nat, t: string, depth: nat)
    requires StandsAt(s, p, t) && Stop(s, p + |t|) && IsNumberText(t)
    ensures Lex(s, p).next == p + |t| && StartsValue(Lex(s, p).tok.kind)
    ensures var r := ValueAt(s, Lex(s, p).tok, Lex(s, p).next, depth);
      if depth > MAX_NESTING_DEPTH then r.Err?
      else if IsFloatText(t) then
        r == (if t in PARSE_FLOAT then Ok(FloatValue(PARSE_FLOAT[t]), p + |t|)
              else Err(Diag(Syntax, p, InvalidFloat(t))))
      else
        r == (if ParseInt(t).Some? then Ok(IntValue(ParseInt(t).value), p + |t|)
              else Err(Diag(Syntax, p, InvalidInteger(t))))
  {
    LexNumberText(s, p, t);
    hide Lex, IsNumberText, HasFraction, ParseInt;
  }

  lemma LexRaw(s: string, p: nat, val: string)
    requires '`' !in val && StandsAt(s, p, "`" + val + "`")
    ensures Lex(s, p) == Lexed(Token(Str, val, p, true), p + |val| + 2)
  {
    var t := "`" + val + "`";
    assert t == "`" + (val + "`");
    AtSplit(s, p, "`", val + "`");
    AtSplit(s, p + 1, val, "`");
    AtChar(s, p, t, 0);
    AtChar(s, p, t, |val| + 1);
    assert s[p + 1..p + 1 + |val|] == val;
    forall i | p + 1 <= i < p + 1 + |val| ensures s[i] != '`' {
      AtChar(s, p + 1, val, i - p - 1);
    }
    RawBody(s, p + 1, p, p + 1 + |val|);
  }

  lemma LexQuoted(s: string, p: nat, val: string)
    requires StandsAt(s, p, "\"" + QuoteBody(val) + "\"")
    ensures var r := Lex(s, p);
      if AllPlain(val)
      then r == Lexed(Token(Str, val, p, false), p + |QuoteBody(val)| + 2)
      else r.tok.kind == Error
  {
    hide QuoteBody, IsPlain, QuotedString;
    var q := QuoteBody(val) + "\"";
    assert "\"" + QuoteBody(val) + "\"" == "\"" + q;
    AtSplit(s, p, "\"", q);
    AtChar(s, p, "\"", 0);
    QuotedBody(s, p + 1, p, "", val);
    assert "" + val == val;
  }

  lemma KeywordsAreWords()
    ensures IsWord("true") && IsWord("false") && IsWord("null")
  {
  }

  // ---- values ----

  /** Where parsing ends up when it starts on a printed value. */
  ghost predicate ReadsBack(r: Parsed<Value>, v: Value, readable: bool, end: nat) {
    if readable then r == Ok(v, end) else r.Err?
  }

  /** A printed value starts with a token that can close no list. */
  ghost predicate StartsValue(k: Kind) {
    k in {Str, IntLit, FloatLit, Ident, LBracket, LBrace, Error}
  }

  lemma ScalarReadsBack(s: string, p: nat, v: Value, depth: nat)
    requires Writable(v) && StandsAt(s, p, GoString(v)) && Stop(s, p + |GoString(v)|)
    requires !v.ArrayValue? && !v.ObjectValue?
    ensures StartsValue(Lex(s, p).tok.kind)
    ensures ReadsBack(ValueAt(s, Lex(s, p).tok, Lex(s, p).next, depth), v, Readable(v, depth), p + |GoString(v)|)
  {
    hide Lex, Decimal, QuoteBody, IsIdentPart, IsPlain, WordValue, IsWord, IsNumberText, HasFraction, ParseInt;
    match v
    case StringValue(val, raw) => if raw { LexRaw(s, p, val); } else { LexQuoted(s, p, val); }
    case IntValue(n) =>
      LexInt(s, p, n);
      ParseFormatInt(n);
    case FloatValue(f) => NumberIsRead(s, p, FORMAT_FLOAT[f], depth);
    case _ => WordReadsBack(s, p, v, depth);
  }

  lemma WordReadsBack(s: string, p: nat, v: Value, depth: nat)
    requires Writable(v) && StandsAt(s, p, GoString(v)) && Stop(s, p + |GoString(v)|)
    requires v.BoolValue? || v.IdentValue? || v.NullValue?
    ensures StartsValue(Lex(s, p).tok.kind)
    ensures ReadsBack(ValueAt(s, Lex(s, p).tok, Lex(s, p).next, depth), v, Readable(v, depth), p + |GoString(v)|)
  {
    hide Lex, IsIdentPart;
    StopEndsWord(s, p + |GoString(v)|);
    KeywordsAreWords();
    LexWord(s, p, GoString(v));
  }

  lemma StopEndsWord(s: string, q: nat)
    requires Stop(s, q)
    ensures !IsIdentPart(s[q])
  {
  }

  /** The text of a list: the bracket, the entries and the closing bracket. */
  lemma ListText(s: string, p: nat, v: Value)
    requires (v.ArrayValue? || v.ObjectValue?) && StandsAt(s, p, GoString(v))
    ensures p < |s| && s[p] == (if v.ArrayValue? then '[' else '{')
    ensures v.ArrayValue? ==>
      StandsAt(s, p + 1, ElementsFrom(v, 0) + "]") && |GoString(v)| == |ElementsFrom(v, 0)| + 2
    ensures v.ObjectValue? ==> var keys := SortedKeys(v.fields.Keys);
      StandsAt(s, p + 1, FieldsFrom(v, keys, 0) + "}") && |GoString(v)| == |FieldsFrom(v, keys, 0)| + 2
  {
    hide StandsAt, ElementsFrom, FieldsFrom;
    AtChar(s, p, GoString(v), 0);
    if v.ArrayValue? {
      var body := ElementsFrom(v, 0) + "]";
      assert GoString(v) == "[" + body;
      AtSplit(s, p, "[", body);
    } else {
      var body := FieldsFrom(v, SortedKeys(v.fields.Keys), 0) + "}";
      assert GoString(v) == "{" + body;
      AtSplit(s, p, "{", body);
    }
  }

  /** How parseValue goes on behind an opening bracket. */
  lemma OpenList(s: string, p: nat, depth: nat)
    requires p < |s| && (s[p] == '[' || s[p] == '{')
    ensures StartsValue(Lex(s, p).tok.kind)
    ensures ValueAt(s, Lex(s, p).tok, Lex(s, p).next, depth) ==
      if depth > MAX_NESTING_DEPTH then SyntaxError(Lex(s, p).tok, TooDeep)
      else if s[p] == '[' then ArrayAt(s, p + 1, depth) else ObjectAt(s, p + 1, depth)
  {
    hide Lex, ArrayAt, ObjectAt;
    LexOne(s, p);
  }

  lemma {:induction false} ValueReadsBack(s: string, p: nat, v: Value, depth: nat)
    requires Writable(v) && StandsAt(s, p, GoString(v)) && Stop(s, p + |GoString(v)|)
    ensures StartsValue(Lex(s, p).tok.kind)
    ensures ReadsBack(ValueAt(s, Lex(s, p).tok, Lex(s, p).next, depth), v, Readable(v, depth), p + |GoString(v)|)
    decreases v
  {
    hide Lex, ValueAt, ArrayAt, ObjectAt, StandsAt, GoString, ElementsFrom, FieldsFrom, Writable, SortedKeys, Stop;
    if v.ArrayValue? || v.ObjectValue? {
      ListText(s, p, v);
      OpenList(s, p, depth);
      if depth > MAX_NESTING_DEPTH {
        TooDeepIsUnreadable(v, depth);
      } else {
        hide Readable;
        if v.ArrayValue? { ArrayReadsBack(s, p + 1, v, depth); } else { ObjectReadsBack(s, p + 1, v, depth); }
      }
    } else {
      ScalarReadsBack(s, p, v, depth);
    }
  }

  lemma TooDeepIsUnreadable(v: Value, depth: nat)
    requires (v.ArrayValue? || v.ObjectValue?) && depth > MAX_NESTING_DEPTH
    ensures !Readable(v, depth)
  {
  }

  lemma {:induction false} ArrayReadsBack(s: string, p: nat, v: Value, depth: nat)
    requires v.ArrayValue? && Writable(v) && depth <= MAX_NESTING_DEPTH && StandsAt(s, p, ElementsFrom(v, 0) + "]")
    ensures ReadsBack(ArrayAt(s, p, depth), v, Readable(v, depth), p + |ElementsFrom(v, 0)| + 1)
    decreases v, 1
  {
    hide Lex, ArrayAt, ElementsAt, ElementsFrom, Writable, StandsAt, GoString;
    if v.elements == [] {
      EmptyArray(s, p, v, depth);
    } else {
      ElementsReadBack(s, p, v, 0, depth);
      NotClosing(s, p, depth);
      assert v.elements[..0] == [];
    }
  }

  lemma EmptyArray(s: string, p: nat, v: Value, depth: nat)
    requires v.ArrayValue? && v.elements == [] && StandsAt(s, p, ElementsFrom(v, 0) + "]")
    ensures ArrayAt(s, p, depth) == Ok(v, p + 1) && ElementsFrom(v, 0) == ""
  {
    hide Lex, ElementsAt;
    AtChar(s, p, ElementsFrom(v, 0) + "]", 0);
    LexOne(s, p);
  }

  /** Behind the value read come ", " and another value. */
  ghost predicate CommaAndValue(s: string, r: Parsed<Value>) {
    r.Ok? && r.next + 1 < |s| && s[r.next] == ',' && s[r.next + 1] == ' ' && StartsValue(Lex(s, r.next + 2).tok.kind)
  }

  /** Punctuation is a token of its own. */
  lemma LexOne(s: string, p: nat)
    requires p < |s|
    ensures Punctuation(s[p]) != Error ==> Lex(s, p) == Lexed(Token(Punctuation(s[p]), [s[p]], p, false), p + 1)
  {
  }

  /** One turn of the loop of parseArray, by the outcome of its element. */
  lemma ElementsStep(s: string, p: nat, depth: nat, acc: seq<Value>, r: Parsed<Value>)
    requires p <= |s| && r == ValueAt(s, Lex(s, p).tok, Lex(s, p).next, depth + 1)
    ensures r.Err? ==> ElementsAt(s, p, depth, acc).Err?
    ensures r.Ok? && r.next < |s| && s[r.next] == ']' ==>
      ElementsAt(s, p, depth, acc) == Ok(ArrayValue(acc + [r.value]), r.next + 1)
    ensures CommaAndValue(s, r) ==>
      ElementsAt(s, p, depth, acc) == ElementsAt(s, r.next + 2, depth, acc + [r.value])
  {
    hide Lex, ValueAt;
    if r.Ok? && r.next < |s| { LexOne(s, r.next); }
    if CommaAndValue(s, r) { LexAfterSpace(s, r.next + 1); }
  }

  /** The text of elements i and after: element i, then the closing bracket or a comma and the rest. */
  lemma ElementsSplit(v: Value, i: nat)
    requires v.ArrayValue? && i < |v.elements|
    ensures var t := GoString(v.elements[i]);
      if i + 1 == |v.elements| then ElementsFrom(v, i) == t
      else ElementsFrom(v, i) == t + ", " + ElementsFrom(v, i + 1)
  {
    hide GoString;
  }

  lemma ElementsText(s: string, p: nat, v: Value, i: nat)
    requires v.ArrayValue? && i < |v.elements| && StandsAt(s, p, ElementsFrom(v, i) + "]")
    ensures var q := p + |GoString(v.elements[i])|;
      && StandsAt(s, p, GoString(v.elements[i])) && Stop(s, q)
      && (i + 1 == |v.elements| ==> s[q] == ']')
      && (i + 1 < |v.elements| ==> q + 1 < |s| && s[q] == ',' && s[q + 1] == ' '
                                   && StandsAt(s, q + 2, ElementsFrom(v, i + 1) + "]"))
    ensures |ElementsFrom(v, i)| == |GoString(v.elements[i])| +
      if i + 1 < |v.elements| then 2 + |ElementsFrom(v, i + 1)| else 0
  {
    hide GoString, ElementsFrom;
    ElementsSplit(v, i);
    var t := GoString(v.elements[i]);
    if i + 1 == |v.elements| {
      AtSplit(s, p, t, "]");
      AtChar(s, p + |t|, "]", 0);
    } else {
      var rest := ElementsFrom(v, i + 1) + "]";
      assert (t + ", " + ElementsFrom(v, i + 1)) + "]" == t + (", " + rest);
      AtSplit(s, p, t, ", " + rest);
      AtSplit(s, p + |t|, ", ", rest);
      AtChar(s, p + |t|, ", ", 0);
      AtChar(s, p + |t|, ", ", 1);
    }
  }

  /** All elements from i on are readable. */
  ghost predicate ReadableFrom(v: Value, i: nat, depth: nat)
    requires v.ArrayValue?
  {
    forall k :: i <= k < |v.elements| ==> Readable(v.elements[k], depth)
  }

  lemma {:induction false} ElementsReadBack(s: string, p: nat, v: Value, i: nat, depth: nat)
    requires v.ArrayValue? && Writable(v) && depth <= MAX_NESTING_DEPTH && i < |v.elements|
    requires StandsAt(s, p, ElementsFrom(v, i) + "]")
    ensures StartsValue(Lex(s, p).tok.kind)
    ensures ReadsBack(ElementsAt(s, p, depth, v.elements[..i]), v, ReadableFrom(v, i, depth + 1),
                      p + |ElementsFrom(v, i)| + 1)
    decreases v, 0, |v.elements| - i
  {
    hide Lex, ValueAt, ElementsAt, GoString, ElementsFrom, Readable, StandsAt;
    var e := v.elements[i];
    ElementsText(s, p, v, i);
    ValueReadsBack(s, p, e, depth + 1);
    var r := ValueAt(s, Lex(s, p).tok, Lex(s, p).next, depth + 1);
    assert v.elements[..i] + [e] == v.elements[..i + 1];
    if i + 1 < |v.elements| { ElementsReadBack(s, p + |GoString(e)| + 2, v, i + 1, depth); }
    ElementsStep(s, p, depth, v.elements[..i], r);
    if i + 1 == |v.elements| { assert v.elements[..i + 1] == v.elements; }
    assert ReadableFrom(v, i, depth + 1) <==> Readable(e, depth + 1) && ReadableFrom(v, i + 1, depth + 1);
  }

  lemma {:induction false} ObjectReadsBack(s: string, p: nat, v: Value, depth: nat)
    requires v.ObjectValue? && Writable(v) && depth <= MAX_NESTING_DEPTH
    requires StandsAt(s, p, FieldsFrom(v, SortedKeys(v.fields.Keys), 0) + "}")
    ensures ReadsBack(ObjectAt(s, p, depth), v, Readable(v, depth),
      p + |FieldsFrom(v, SortedKeys(v.fields.Keys), 0)| + 1)
    decreases v, 1
  {
    hide SortedKeys, Sorted, StrictlySorted, Lex, ObjectAt, FieldsAt,
          FieldsFrom, Readable, Writable, StandsAt, Upto, FieldsReadableFrom;
    var keys := SortedKeys(v.fields.Keys);
    KeysCover(v, keys, depth);
    if keys == [] {
      EmptyObject(s, p, v, depth);
    } else {
      FieldsReadBack(s, p, v, keys, 0, depth);
      NotClosing(s, p, depth);
    }
  }

  lemma NotClosing(s: string, p: nat, depth: nat)
    requires p <= |s| && StartsValue(Lex(s, p).tok.kind)
    ensures ObjectAt(s, p, depth) == FieldsAt(s, p, depth, map[])
    ensures ArrayAt(s, p, depth) == ElementsAt(s, p, depth, [])
  {
    hide Lex, FieldsAt, ElementsAt;
  }

  lemma EmptyObject(s: string, p: nat, v: Value, depth: nat)
    requires v.ObjectValue? && v.fields == map[] && depth <= MAX_NESTING_DEPTH
    requires StandsAt(s, p, FieldsFrom(v, [], 0) + "}")
    ensures ObjectAt(s, p, depth) == Ok(v, p + 1) && FieldsFrom(v, [], 0) == "" && Readable(v, depth)
  {
    hide Lex, FieldsAt;
    AtChar(s, p, FieldsFrom(v, [], 0) + "}", 0);
    LexOne(s, p);
  }

  lemma KeysCover(v: Value, keys: seq<string>, depth: nat)
    requires v.ObjectValue? && depth <= MAX_NESTING_DEPTH && forall k :: k in keys <==> k in v.fields
    ensures keys == [] ==> v.fields == map[]
    ensures Upto(v.fields, keys, 0) == map[]
    ensures FieldsReadableFrom(v, keys, 0, depth + 1) <==> Readable(v, depth)
  {
    if keys == [] { assert v.fields.Keys == {}; }
    if FieldsReadableFrom(v, keys, 0, depth + 1) {
      forall k | k in v.fields ensures Readable(v.fields[k], depth + 1) {
        var i :| 0 <= i < |keys| && keys[i] == k;
      }
    }
  }

  /** The fields named by the first n keys. */
  ghost function Upto(fields: map<string, Value>, keys: seq<string>, n: nat): map<string, Value>
    requires n <= |keys|
  {
    map k | k in fields && k in keys[..n] :: fields[k]
  }

  /** One turn of the loop of parseObject, by the outcome of its value. */
  lemma FieldsStep(s: string, p: nat, depth: nat, acc: map<string, Value>, key: string, q: nat, r: Parsed<Value>)
    requires p <= q < |s| && Lex(s, p) == Lexed(Token(Ident, key, p, false), q) && s[q] == '=' && key !in acc
    requires r == ValueAt(s, Lex(s, q + 1).tok, Lex(s, q + 1).next, depth + 1)
    ensures r.Err? ==> FieldsAt(s, p, depth, acc).Err?
    ensures r.Ok? && r.next < |s| && s[r.next] == '}' ==>
      FieldsAt(s, p, depth, acc) == Ok(ObjectValue(acc[key := r.value]), r.next + 1)
    ensures CommaAndValue(s, r) ==>
      FieldsAt(s, p, depth, acc) == FieldsAt(s, r.next + 2, depth, acc[key := r.value])
  {
    hide Lex, ValueAt;
    LexOne(s, q);
    if r.Ok? && r.next < |s| {
      hide FieldsAt;
      LexOne(s, r.next);
      if CommaAndValue(s, r) {
        LexAfterSpace(s, r.next + 1);
        FieldsComma(s, p, depth, acc, key, q, r);
      } else if s[r.next] == '}' {
        FieldsClose(s, p, depth, acc, key, q, r);
      }
    }
  }

  lemma FieldsClose(s: string, p: nat, depth: nat, acc: map<string, Value>, key: string, q: nat, r: Parsed<Value>)
    requires p <= q < |s| && Lex(s, p) == Lexed(Token(Ident, key, p, false), q) && key !in acc
    requires Lex(s, q).tok.kind == Equals && Lex(s, q).next == q + 1
    requires r == ValueAt(s, Lex(s, q + 1).tok, Lex(s, q + 1).next, depth + 1)
    requires r.Ok? && Lex(s, r.next).tok.kind == RBrace
    ensures FieldsAt(s, p, depth, acc) == Ok(ObjectValue(acc[key := r.value]), Lex(s, r.next).next)
  {
    hide Lex, ValueAt;
  }

  lemma FieldsComma(s: string, p: nat, depth: nat, acc: map<string, Value>, key: string, q: nat, r: Parsed<Value>)
    requires p <= q < |s| && Lex(s, p) == Lexed(Token(Ident, key, p, false), q) && key !in acc
    requires Lex(s, q).tok.kind == Equals && Lex(s, q).next == q + 1
    requires r == ValueAt(s, Lex(s, q + 1).tok, Lex(s, q + 1).next, depth + 1)
    requires r.Ok? && r.next + 1 < |s| && Lex(s, r.next).tok.kind == Comma && Lex(s, r.next).next == r.next + 1
    requires Lex(s, r.next + 1) == Lex(s, r.next + 2) && StartsValue(Lex(s, r.next + 2).tok.kind)
    ensures FieldsAt(s, p, depth, acc) == FieldsAt(s, r.next + 2, depth, acc[key := r.value])
  {
    hide Lex, ValueAt;
    assert FieldsAt(s, p, depth, acc) == FieldsAt(s, r.next + 1, depth, acc[key := r.value]);
  }

  /** The text of fields i and after. */
  lemma FieldsText(s: string, p: nat, v: Value, keys: seq<string>, i: nat)
    requires v.ObjectValue? && i < |keys| && forall k :: k in keys ==> k in v.fields
    requires StandsAt(s, p, FieldsFrom(v, keys, i) + "}")
    ensures var q := p + |keys[i]|; var t := GoString(v.fields[keys[i]]); var end := q + 1 + |t|;
      && StandsAt(s, p, keys[i]) && q < |s| && s[q] == '=' && StandsAt(s, q + 1, t) && Stop(s, end)
      && (i + 1 == |keys| ==> s[end] == '}')
      && (i + 1 < |keys| ==> end + 1 < |s| && s[end] == ',' && s[end + 1] == ' '
                             && StandsAt(s, end + 2, FieldsFrom(v, keys, i + 1) + "}"))
    ensures |FieldsFrom(v, keys, i)| == |keys[i]| + 1 + |GoString(v.fields[keys[i]])| +
      if i + 1 < |keys| then 2 + |FieldsFrom(v, keys, i + 1)| else 0
  {
    hide GoString, StandsAt;
    var key, t := keys[i], GoString(v.fields[keys[i]]);
    var end := p + |key| + 1 + |t|;
    if i + 1 == |keys| {
      FieldText(s, p, key, t, "}");
      AtChar(s, end, "}", 0);
    } else {
      var more := FieldsFrom(v, keys, i + 1) + "}";
      assert FieldsFrom(v, keys, i) + "}" == key + "=" + t + (", " + more);
      FieldText(s, p, key, t, ", " + more);
      AtSplit(s, end, ", ", more);
      AtChar(s, end, ", ", 0);
      AtChar(s, end, ", ", 1);
    }
  }

  lemma FieldText(s: string, p: nat, key: string, t: string, rest: string)
    requires StandsAt(s, p, key + "=" + t + rest)
    ensures var q := p + |key|;
      StandsAt(s, p, key) && q < |s| && s[q] == '=' && StandsAt(s, q + 1, t) && StandsAt(s, q + 1 + |t|, rest)
  {
    hide StandsAt;
    assert key + "=" + t + rest == key + ("=" + (t + rest));
    AtSplit(s, p, key, "=" + (t + rest));
    AtSplit(s, p + |key|, "=", t + rest);
    AtSplit(s, p + |key| + 1, t, rest);
    AtChar(s, p + |key|, "=", 0);
  }

  ghost predicate FieldsReadableFrom(v: Value, keys: seq<string>, i: nat, depth: nat)
    requires v.ObjectValue? && forall k :: k in keys ==> k in v.fields
  {
    forall k :: i <= k < |keys| ==> Readable(v.fields[keys[k]], depth)
  }

  lemma {:induction false} FieldsReadBack(s: string, p: nat, v: Value, keys: seq<string>, i: nat, depth: nat)
    requires v.ObjectValue? && Writable(v) && depth <= MAX_NESTING_DEPTH && i < |keys|
    requires StrictlySorted(keys) && forall k :: k in keys <==> k in v.fields
    requires StandsAt(s, p, FieldsFrom(v, keys, i) + "}")
    ensures StartsValue(Lex(s, p).tok.kind)
    ensures ReadsBack(FieldsAt(s, p, depth, Upto(v.fields, keys, i)), v, FieldsReadableFrom(v, keys, i, depth + 1),
      p + |FieldsFrom(v, keys, i)| + 1)
    decreases v, 0, |keys| - i
  {
    hide Lex, ValueAt, FieldsAt, GoString, FieldsFrom, Readable, StandsAt, Upto;
    var key := keys[i];
    var e, q := v.fields[key], p + |key|;
    FieldsText(s, p, v, keys, i);
    LexWord(s, p, key);
    ValueReadsBack(s, q + 1, e, depth + 1);
    var r := ValueAt(s, Lex(s, q + 1).tok, Lex(s, q + 1).next, depth + 1);
    NewKey(v.fields, keys, i);
    if i + 1 < |keys| { FieldsReadBack(s, q + 1 + |GoString(e)| + 2, v, keys, i + 1, depth); }
    FieldsStep(s, p, depth, Upto(v.fields, keys, i), key, q, r);
    assert FieldsReadableFrom(v, keys, i, depth + 1) <==>
           Readable(e, depth + 1) && FieldsReadableFrom(v, keys, i + 1, depth + 1);
  }

  lemma NewKey(fields: map<string, Value>, keys: seq<string>, i: nat)
    requires StrictlySorted(keys) && i < |keys| && forall k :: k in keys <==> k in fields
    ensures keys[i] !in Upto(fields, keys, i)
    ensures Upto(fields, keys, i + 1) == Upto(fields, keys, i)[keys[i] := fields[keys[i]]]
    ensures i + 1 == |keys| ==> Upto(fields, keys, i + 1) == fields
  {
    LessIrreflexive(keys[i]);
    assert keys[..i + 1] == keys[..i] + [keys[i]];
  }
}
