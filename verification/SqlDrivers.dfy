/**
 How databases read placeholders in the text that Compile emits, and exactly when they read it as Compile means it:
 $1, $2 in PostgreSQL, @p1, @p2 in SQL Server, and ? in MySQL and SQLite.
 */
module SqlDrivers {
  import opened Model
  import opened Value
  import opened SqlCompile

  // ---- placeholders ----

  /** Placeholders begin with a prefix; they are numbered, or taken in order. Extra characters belong to words. */
  datatype Style = Style(prefix: string, numbered: bool, extra: set<char>)

  const POSTGRES_STYLE := Style("$", true, {'$'})
  const SQL_SERVER_STYLE := Style("@p", true, {'@', '$', '#'})
  const QUESTION_STYLE := Style("?", false, {})

  /** The dialect writes its placeholders in this style. */
  ghost predicate Writes(d: Dialect, st: Style) {
    forall n: nat :: d(n) == st.prefix + if st.numbered then Decimal(n) else ""
  }

  lemma BuiltinStyles()
    ensures Writes(POSTGRES, POSTGRES_STYLE) && Proper(POSTGRES_STYLE)
    ensures Writes(SQL_SERVER, SQL_SERVER_STYLE) && Proper(SQL_SERVER_STYLE)
    ensures Writes(QUESTION, QUESTION_STYLE) && Proper(QUESTION_STYLE)
  {
    forall n: nat ensures QUESTION(n) == "?" + "" {}
  }

  predicate IsDigit(c: char) {
    '0' <= c <= '9'
  }

  /** What identifiers and numbered placeholders are made of; a placeholder in the middle of a word is part of it. */
  predicate IsWord(st: Style, c: char) {
    st.numbered && (IsNameStart(c) || IsDigit(c) || c >= 128 as char || c in st.extra)
  }

  /** The prefix is no part of a literal, a cast or a parameter name, and a numbered one is part of a word. */
  ghost predicate Proper(st: Style) {
    && st.prefix != "" && (st.numbered || |st.prefix| == 1) && !IsWord(st, ':') && !IsWord(st, '\'')
    && (forall i :: 0 <= i < |st.prefix| ==>
          && st.prefix[i] != ':' && st.prefix[i] != '\'' && !IsDigit(st.prefix[i])
          && (i > 0 ==> st.prefix[i] != st.prefix[0]) && (st.numbered ==> IsWord(st, st.prefix[i])))
  }

  function DigitRun(s: string): (k: nat)
    ensures k <= |s| && (forall i :: 0 <= i < k ==> IsDigit(s[i])) && (k < |s| ==> !IsDigit(s[k]))
  {
    if s != "" && IsDigit(s[0]) then 1 + DigitRun(s[1..]) else 0
  }

  /** Where a placeholder at the start of s ends: behind the prefix, and behind the digits that follow it. */
  function TokenEnd(st: Style, s: string): (end: nat)
    requires st.prefix <= s
    ensures |st.prefix| <= end <= |s|
  {
    if st.numbered then |st.prefix| + DigitRun(s[|st.prefix|..]) else |st.prefix|
  }

  /** s starts with a placeholder: the prefix, digits if it is numbered, and then the end of the word. */
  predicate IsToken(st: Style, s: string) {
    && st.prefix <= s
    && (st.numbered ==> TokenEnd(st, s) > |st.prefix|)
    && (TokenEnd(st, s) < |s| ==> !IsWord(st, s[TokenEnd(st, s)]))
  }

  datatype Cell = Char(c: char) | Hole(n: int)

  /**
   What a driver makes of SQL text: outside string literals every placeholder that does not continue a word is a
   hole, with its own number or the next one in order; seen holes came before.
   */
  function DriverReads(st: Style, s: string, inString: bool, inWord: bool, seen: nat): seq<Cell>
    decreases |s|
  {
    if s == "" then []
    else if !inString && !inWord && IsToken(st, s) && TokenEnd(st, s) > 0 then
      var end := TokenEnd(st, s);
      var n := if st.numbered then DigitsValue(s[|st.prefix|..end]) else seen + 1;
      [Hole(n)] + DriverReads(st, s[end..], false, false, seen + 1)
    else
      [Char(s[0])] + DriverReads(st, s[1..], inString != (s[0] == '\''), !inString && IsWord(st, s[0]), seen)
  }

  function Chars(s: string): seq<Cell> {
    seq(|s|, i requires 0 <= i < |s| => Char(s[i]))
  }

  /** What is meant: the text, and the holes n + 1, n + 2, ... for the parameters. */
  function Intended(ps: seq<Piece>, n: nat): seq<Cell> {
    if ps == [] then []
    else if ps[0].Param? then [Hole(n + 1)] + Intended(ps[1..], n + 1)
    else Chars(ps[0].text) + Intended(ps[1..], n)
  }

  // ---- the condition on the SQL as it is written ----

  /** A word would go on here: with a character of words, or with the placeholder for a parameter. */
  predicate Continues(st: Style, s: string) {
    s != "" && (IsWord(st, s[0]) || (st.numbered && StartsParam(s)))
  }

  /** The SQL itself has a placeholder here. */
  predicate IsOwnToken(st: Style, s: string) {
    && st.prefix <= s
    && (st.numbered ==> TokenEnd(st, s) > |st.prefix|)
    && !Continues(st, s[TokenEnd(st, s)..])
  }

  /**
   Outside string literals, the SQL has no placeholder of its own, and no parameter directly behind or in front of a
   character of words or another parameter.
   */
  predicate IsClean(st: Style, s: string, inString: bool, inWord: bool)
    decreases |s|
  {
    if s == "" then true
    else if !inString && StartsParam(s) then
      NameIsPrefix(s[1..]);
      var rest := s[1 + |Name(s[1..])|..];
      !inWord && !Continues(st, rest) && IsClean(st, rest, false, false)
    else
      var k := CopyLength(s, inString);
      && (inString || inWord || !IsOwnToken(st, s))
      && IsClean(st, s[k..], StaysInString(s, inString), !inString && IsWord(st, s[0]))
  }

  // ---- two readings that differ ----

  /** At some place one has a hole and the other has text. */
  ghost predicate Differ(a: seq<Cell>, b: seq<Cell>) {
    exists i :: 0 <= i < |a| && i < |b| && a[i].Hole? != b[i].Hole?
  }

  lemma DifferBehind(p: seq<Cell>, a: seq<Cell>, b: seq<Cell>)
    requires Differ(a, b)
    ensures Differ(p + a, p + b)
  {
    var i :| 0 <= i < |a| && i < |b| && a[i].Hole? != b[i].Hole?;
    assert (p + a)[|p| + i] == a[i] && (p + b)[|p| + i] == b[i];
  }

  lemma DifferAtOnce(a: seq<Cell>, b: seq<Cell>)
    requires a != [] && b != [] && a[0].Hole? != b[0].Hole?
    ensures Differ(a, b)
  {
  }

  // ---- the emitted text, from a place of the SQL on ----

  function Emitted(st: Style, s: string, inString: bool, d: Dialect, n: nat): string {
    Positional(Pieces(s, inString), d, n)
  }

  lemma EmittedStart(st: Style, s: string, inString: bool, d: Dialect, n: nat)
    requires Writes(d, st) && Proper(st)
    ensures var r := Emitted(st, s, inString, d, n);
      && (s == "" <==> r == "")
      && (s != "" ==> r[0] == if !inString && StartsParam(s) then st.prefix[0] else s[0])
  {
    hide Pieces, Name;
    if s == "" {
      NoPieces(s, inString, d, n);
    } else if !inString && StartsParam(s) {
      ParamTurn(s, d, n);
      assert d(n + 1) == st.prefix + if st.numbered then Decimal(n + 1) else "";
    } else {
      CopyTurn(s, inString, d, n);
    }
  }

  /** Text without colons and quotes, and past the first character without the start of a placeholder. */
  predicate IsPlainText(st: Style, w: string)
    requires st.prefix != ""
  {
    forall i :: 0 <= i < |w| ==> w[i] != ':' && w[i] != '\'' && (i > 0 ==> w[i] != st.prefix[0])
  }

  /** Such a text stands at the start of the output exactly when it stands there in the SQL. */
  lemma {:induction false} PlainTextIsCopied(st: Style, s: string, d: Dialect, n: nat, w: string)
    requires Writes(d, st) && Proper(st) && IsPlainText(st, w) && (w == "" || !StartsParam(s))
    ensures var r := Emitted(st, s, false, d, n);
      && (w <= r <==> w <= s)
      && (w <= s ==> r[|w|..] == Emitted(st, s[|w|..], false, d, n))
    decreases |w|
  {
    hide Emitted;
    var r := Emitted(st, s, false, d, n);
    EmittedStart(st, s, false, d, n);
    if w == "" {
      assert s[0..] == s && r[0..] == r;
    } else if s != "" && s[0] == w[0] {
      OneIsCopied(st, s, d, n);
      EmittedStart(st, s[1..], false, d, n);
      if w[1..] == "" {
        assert w == [w[0]];
      } else if StartsParam(s[1..]) {
        assert r[1..][0] == st.prefix[0] != w[1] && s[1] == ':' != w[1];
      } else {
        assert IsPlainText(st, w[1..]) by { assert forall i :: 0 <= i < |w[1..]| ==> w[1..][i] == w[i + 1]; }
        PlainTextIsCopied(st, s[1..], d, n, w[1..]);
        if w[1..] <= s[1..] {
          assert s[1..][|w| - 1..] == s[|w|..] && r[1..][|w| - 1..] == r[|w|..];
        }
        PrefixCons(w, s);
        PrefixCons(w, r);
      }
    }
  }

  lemma PrefixCons(w: string, s: string)
    requires w != "" && s != "" && w[0] == s[0]
    ensures w <= s <==> w[1..] <= s[1..]
  {
    if w[1..] <= s[1..] { assert w == [w[0]] + w[1..] && s == [s[0]] + s[1..]; }
  }

  lemma OneIsCopied(st: Style, s: string, d: Dialect, n: nat)
    requires s != "" && !StartsParam(s) && s[0] != ':' && s[0] != '\''
    ensures var r := Emitted(st, s, false, d, n); r != "" && r[0] == s[0] && r[1..] == Emitted(st, s[1..], false, d, n)
  {
    CopyTurn(s, false, d, n);
    hide Pieces, Positional, Name;
    var tail := Emitted(st, s[1..], false, d, n);
    assert ([s[0]] + tail)[1..] == tail;
  }

  // ---- the SQL has a placeholder of its own where the output has one ----

  lemma TokenIsPlain(st: Style, s: string)
    requires Proper(st) && st.prefix <= s
    ensures IsPlainText(st, s[..TokenEnd(st, s)]) && IsPlainText(st, st.prefix)
  {
    var w := s[..TokenEnd(st, s)];
    forall i | 0 <= i < |w| ensures w[i] != ':' && w[i] != '\'' && (i > 0 ==> w[i] != st.prefix[0]) {
      if i < |st.prefix| { assert w[i] == st.prefix[i]; } else { assert w[i] == s[|st.prefix|..][i - |st.prefix|]; }
    }
  }

  /** The end of a placeholder is the end of its digits. */
  lemma TokenEndIs(st: Style, s: string, end: nat)
    requires Proper(st) && st.prefix <= s && |st.prefix| <= end <= |s|
    requires if st.numbered then forall i :: |st.prefix| <= i < end ==> IsDigit(s[i]) else end == |st.prefix|
    requires st.numbered && end < |s| ==> !IsDigit(s[end])
    ensures TokenEnd(st, s) == end
  {
    var t := s[|st.prefix|..];
    assert forall i :: 0 <= i < |t| ==> t[i] == s[|st.prefix| + i];
    if st.numbered { DigitRunIs(t, end - |st.prefix|); }
  }

  lemma {:induction false} DigitRunIs(s: string, k: nat)
    requires k <= |s| && (forall i :: 0 <= i < k ==> IsDigit(s[i])) && (k < |s| ==> !IsDigit(s[k]))
    ensures DigitRun(s) == k
  {
    if k > 0 { DigitRunIs(s[1..], k - 1); }
  }

  lemma TokenDigits(st: Style, s: string)
    requires st.prefix <= s
    ensures st.numbered ==> forall i :: |st.prefix| <= i < TokenEnd(st, s) ==> IsDigit(s[i])
    ensures !st.numbered ==> TokenEnd(st, s) == |st.prefix|
    ensures st.numbered && TokenEnd(st, s) < |s| ==> !IsDigit(s[TokenEnd(st, s)])
  {
    var t := s[|st.prefix|..];
    assert forall i :: 0 <= i < |t| ==> t[i] == s[|st.prefix| + i];
    if st.numbered {
      forall i | |st.prefix| <= i < TokenEnd(st, s) ensures IsDigit(s[i]) { assert IsDigit(t[i - |st.prefix|]); }
    }
  }

  lemma OwnTokenIsEmitted(st: Style, s: string, d: Dialect, n: nat)
    requires Writes(d, st) && Proper(st) && !StartsParam(s) && st.prefix <= s
    ensures var r := Emitted(st, s, false, d, n); st.prefix <= r && (IsToken(st, r) <==> IsOwnToken(st, s))
  {
    hide Emitted, DigitRun, TokenEnd;
    var r, end := Emitted(st, s, false, d, n), TokenEnd(st, s);
    var w, rest := s[..end], s[end..];
    TokenIsPlain(st, s);
    TokenDigits(st, s);
    PlainTextIsCopied(st, s, d, n, w);
    EmittedStart(st, rest, false, d, n);
    assert st.prefix <= w <= r && r[end..] == Emitted(st, rest, false, d, n);
    assert end < |r| ==> r[end..][0] == r[end];
    assert end < |s| ==> rest[0] == s[end];
    assert forall i :: 0 <= i < end ==> r[i] == w[i] == s[i];
    if end < |r| && StartsParam(rest) { assert r[end] == st.prefix[0]; }
    assert st.numbered && end < |r| ==> !IsDigit(r[end]);
    TokenEndIs(st, r, end);
  }

  lemma OwnTokenSame(st: Style, s: string, d: Dialect, n: nat)
    requires Writes(d, st) && Proper(st) && !StartsParam(s)
    ensures var r := Emitted(st, s, false, d, n); IsToken(st, r) <==> IsOwnToken(st, s)
  {
    hide Emitted, TokenEnd;
    if st.prefix <= s {
      OwnTokenIsEmitted(st, s, d, n);
    } else {
      PrefixIsPlain(st);
      PlainTextIsCopied(st, s, d, n, st.prefix);
    }
  }

  lemma PrefixIsPlain(st: Style)
    requires Proper(st)
    ensures IsPlainText(st, st.prefix)
  {
  }

  // ---- the placeholder of a parameter ----

  /** What follows a name is no letter, digit or underscore. */
  lemma NameEnds(s: string)
    ensures |Name(s)| <= |s|
    ensures |Name(s)| < |s| ==> !IsNameStart(s[|Name(s)|]) && !IsDigit(s[|Name(s)|])
  {
    NameIsPrefix(s);
    NameRunIsPrefix(s);
    NameRunStops(s);
    TrimmedAreDots(NameRun(s));
    TrimDotsIsPrefix(NameRun(s));
  }

  /** The placeholder is read as a hole with its number exactly when nothing continues it. */
  lemma PlaceholderIsToken(st: Style, n: nat, rest: string)
    requires Proper(st) && (rest != "" ==> !IsDigit(rest[0]))
    ensures var p := st.prefix + if st.numbered then Decimal(n) else ""; var r := p + rest;
      && st.prefix <= r && TokenEnd(st, r) == |p| > 0
      && (IsToken(st, r) <==> rest == "" || !IsWord(st, rest[0]))
      && r[|p|..] == rest && (st.numbered ==> DigitsValue(r[|st.prefix|..|p|]) == n)
  {
    hide TokenEnd;
    var p := st.prefix + if st.numbered then Decimal(n) else "";
    var r := p + rest;
    assert st.prefix <= p <= r;
    forall i | |st.prefix| <= i < |p| ensures IsDigit(r[i]) {
      assert r[i] == p[i] == Decimal(n)[i - |st.prefix|];
    }
    TokenEndIs(st, r, |p|);
    if st.numbered {
      DecimalValue(n);
      assert r[|st.prefix|..|p|] == Decimal(n);
    }
  }

  lemma ParamIsRead(st: Style, s: string, d: Dialect, n: nat, inWord: bool)
    requires Writes(d, st) && Proper(st) && StartsParam(s)
    ensures 1 + |Name(s[1..])| <= |s|
    ensures var rest := s[1 + |Name(s[1..])|..];
      var r, r' := Emitted(st, s, false, d, n), Emitted(st, rest, false, d, n + 1);
      var cells := DriverReads(st, r, false, inWord, n);
      if inWord || Continues(st, rest) then cells != [] && cells[0].Char?
      else cells == [Hole(n + 1)] + DriverReads(st, r', false, false, n + 1)
  {
    hide Pieces, Positional, Name, TokenEnd;
    ParamTurn(s, d, n);
    NameEnds(s[1..]);
    var name := Name(s[1..]);
    var rest := s[1 + |name|..];
    assert rest != "" ==> rest[0] == s[1..][|name|];
    var r' := Emitted(st, rest, false, d, n + 1);
    EmittedStart(st, rest, false, d, n + 1);
    assert d(n + 1) == st.prefix + if st.numbered then Decimal(n + 1) else "";
    PlaceholderIsToken(st, n + 1, r');
    assert !st.numbered ==> !Continues(st, rest);
  }

  lemma ParamIsMeant(s: string, n: nat)
    requires StartsParam(s)
    ensures 1 + |Name(s[1..])| <= |s|
    ensures Intended(Pieces(s, false), n) == [Hole(n + 1)] + Intended(Pieces(s[1 + |Name(s[1..])|..], false), n + 1)
  {
    hide Name;
    NameIsPrefix(s[1..]);
    var tail := Pieces(s[1 + |Name(s[1..])|..], false);
    assert Pieces(s, false) == [Param(Name(s[1..]))] + tail;
    assert ([Param(Name(s[1..]))] + tail)[1..] == tail;
  }

  lemma TextIsMeant(s: string, inString: bool, n: nat)
    requires s != "" && (inString || !StartsParam(s))
    ensures var k := CopyLength(s, inString);
      Intended(Pieces(s, inString), n) == Chars(s[..k]) + Intended(Pieces(s[k..], StaysInString(s, inString)), n)
  {
    var k := CopyLength(s, inString);
    var tail := Pieces(s[k..], StaysInString(s, inString));
    assert Pieces(s, inString) == [Text(s[..k])] + tail;
    assert ([Text(s[..k])] + tail)[1..] == tail;
  }

  /** A character that is no placeholder is read as itself. */
  lemma CharIsRead(st: Style, c: char, r: string, inString: bool, inWord: bool, seen: nat)
    requires inString || inWord || !IsToken(st, [c] + r)
    ensures DriverReads(st, [c] + r, inString, inWord, seen)
         == [Char(c)] + DriverReads(st, r, inString != (c == '\''), !inString && IsWord(st, c), seen)
  {
    hide IsToken;
    assert ([c] + r)[1..] == r;
  }

  lemma NoTokenAt(st: Style, c: char, r: string)
    requires Proper(st) && (c == ':' || c == '\'')
    ensures !IsToken(st, [c] + r)
  {
    hide TokenEnd;
    assert ([c] + r)[0] == c;
  }

  lemma TextIsRead(st: Style, s: string, d: Dialect, n: nat, inString: bool, inWord: bool)
    requires Writes(d, st) && Proper(st) && s != "" && (inString || !StartsParam(s))
    ensures var k, mode := CopyLength(s, inString), StaysInString(s, inString);
      var cells := DriverReads(st, Emitted(st, s, inString, d, n), inString, inWord, n);
      var more := DriverReads(st, Emitted(st, s[k..], mode, d, n), mode, !inString && IsWord(st, s[0]), n);
      if !inString && !inWord && IsOwnToken(st, s) then cells != [] && cells[0].Hole? else cells == Chars(s[..k]) + more
  {
    hide Pieces, Positional, DriverReads, IsToken, IsOwnToken;
    var k, mode := CopyLength(s, inString), StaysInString(s, inString);
    var r, r' := Emitted(st, s, inString, d, n), Emitted(st, s[k..], mode, d, n);
    CopyTurn(s, inString, d, n);
    if k == 2 {
      PairIsRead(st, s[0], r', inString, inWord, n);
      assert Chars(s[..2]) == [Char(s[0]), Char(s[0])];
      assert r == [s[0]] + ([s[0]] + r');
      if s[0] == ':' { ColonIsNoToken(st, s); }
    } else {
      assert r == [s[0]] + r' && Chars(s[..1]) == [Char(s[0])];
      if !inString { OwnTokenSame(st, s, d, n); }
      if !inString && !inWord && IsOwnToken(st, s) {
        HoleIsRead(st, r, n);
      } else {
        CharIsRead(st, s[0], r', inString, inWord, n);
      }
    }
  }

  lemma ColonIsNoToken(st: Style, s: string)
    requires Proper(st) && s != "" && s[0] == ':'
    ensures !IsOwnToken(st, s)
  {
  }

  lemma HoleIsRead(st: Style, r: string, seen: nat)
    requires Proper(st) && IsToken(st, r)
    ensures var cells := DriverReads(st, r, false, false, seen); cells != [] && cells[0].Hole?
  {
  }

  /** A cast, or an escaped quote in a literal. */
  lemma PairIsRead(st: Style, c: char, r: string, inString: bool, inWord: bool, seen: nat)
    requires Proper(st) && c == if inString then '\'' else ':'
    ensures DriverReads(st, [c] + ([c] + r), inString, inWord, seen)
         == [Char(c), Char(c)] + DriverReads(st, r, inString, !inString && IsWord(st, c), seen)
  {
    hide DriverReads, IsToken;
    NoTokenAt(st, c, [c] + r);
    NoTokenAt(st, c, r);
    CharIsRead(st, c, [c] + r, inString, inWord, seen);
    CharIsRead(st, c, r, inString != (c == '\''), !inString && IsWord(st, c), seen);
    var more := DriverReads(st, r, inString, !inString && IsWord(st, c), seen);
    assert [Char(c)] + ([Char(c)] + more) == [Char(c), Char(c)] + more;
  }

  /** The driver reads what is meant if the SQL is clean; if it is not, somewhere a hole and text are confused. */
  lemma {:induction false} ReadsAsMeantIfClean(st: Style, s: string, d: Dialect, n: nat, inString: bool, inWord: bool)
    requires Writes(d, st) && Proper(st)
    ensures var cells := DriverReads(st, Emitted(st, s, inString, d, n), inString, inWord, n);
      var meant := Intended(Pieces(s, inString), n);
      if IsClean(st, s, inString, inWord) then cells == meant else Differ(cells, meant)
    decreases |s|
  {
    hide Pieces, Positional, DriverReads, Intended, IsOwnToken, Emitted, Differ, Name, IsWord, Continues;
    hide Writes, Proper;
    if s == "" {
      NothingIsRead(st, d, n, inString, inWord);
    } else if !inString && StartsParam(s) {
      ParamIsRead(st, s, d, n, inWord);
      ParamIsMeant(s, n);
      var rest := s[1 + |Name(s[1..])|..];
      var cells := DriverReads(st, Emitted(st, s, false, d, n), false, inWord, n);
      if inWord || Continues(st, rest) {
        DifferAtOnce(cells, Intended(Pieces(s, false), n));
      } else {
        ReadsAsMeantIfClean(st, rest, d, n + 1, false, false);
        var more := DriverReads(st, Emitted(st, rest, false, d, n + 1), false, false, n + 1);
        var tail := Intended(Pieces(rest, false), n + 1);
        if Differ(more, tail) { DifferBehind([Hole(n + 1)], more, tail); }
      }
    } else {
      var k, mode, word := CopyLength(s, inString), StaysInString(s, inString), !inString && IsWord(st, s[0]);
      TextIsRead(st, s, d, n, inString, inWord);
      TextIsMeant(s, inString, n);
      ReadsAsMeantIfClean(st, s[k..], d, n, mode, word);
      var cells := DriverReads(st, Emitted(st, s, inString, d, n), inString, inWord, n);
      var more := DriverReads(st, Emitted(st, s[k..], mode, d, n), mode, word, n);
      var tail := Intended(Pieces(s[k..], mode), n);
      if !inString && !inWord && IsOwnToken(st, s) {
        DifferAtOnce(cells, Intended(Pieces(s, inString), n));
      } else if Differ(more, tail) {
        DifferBehind(Chars(s[..k]), more, tail);
      }
    }
  }

  lemma NothingIsRead(st: Style, d: Dialect, n: nat, inString: bool, inWord: bool)
    ensures DriverReads(st, Emitted(st, "", inString, d, n), inString, inWord, n) == []
    ensures Intended(Pieces("", inString), n) == []
  {
    NoPieces("", inString, d, n);
  }

  // ---- question marks ----

  /** Question marks of the SQL outside string literals. */
  function BareQuestions(s: string, inString: bool): nat
    decreases |s|
  {
    if s == "" then 0
    else (if !inString && s[0] == '?' then 1 else 0) + BareQuestions(s[1..], inString != (s[0] == '\''))
  }

  lemma {:induction false} NameHasNoQuestions(s: string, n: nat)
    requires n <= |s| && forall i :: 0 <= i < n ==> IsNamePart(s[i])
    ensures BareQuestions(s, false) == BareQuestions(s[n..], false)
    decreases n
  {
    if n > 0 {
      assert IsNamePart(s[0]) && forall i :: 0 <= i < n - 1 ==> s[1..][i] == s[i + 1];
      NameHasNoQuestions(s[1..], n - 1);
      assert s[1..][n - 1..] == s[n..];
    } else {
      assert s[0..] == s;
    }
  }

  lemma {:induction false} CleanOfQuestions(s: string, inString: bool)
    ensures IsClean(QUESTION_STYLE, s, inString, false) <==> BareQuestions(s, inString) == 0
    decreases |s|
  {
    if s != "" {
      if !inString && StartsParam(s) {
        var name := Name(s[1..]);
        NameIsPrefix(s[1..]);
        NameHasNoQuestions(s[1..], |name|);
        assert s[1..][|name|..] == s[1 + |name|..];
        hide Name;
        CleanOfQuestions(s[1 + |name|..], false);
      } else {
        hide Name, StartsParam;
        var k := CopyLength(s, inString);
        CleanOfQuestions(s[k..], StaysInString(s, inString));
        if k == 2 { assert s[1..][1..] == s[2..] && s[1..][0] == s[1]; }
      }
    }
  }

  /** In MySQL and SQLite the text is read as meant exactly when it has no question mark of its own outside literals. */
  lemma QuestionMarksAreReadAsIntended(sql: string)
    ensures var cells := DriverReads(QUESTION_STYLE, CompileSpec(sql, QUESTION).sql, false, false, 0);
      cells == Intended(Pieces(sql, false), 0) <==> BareQuestions(sql, false) == 0
  {
    hide Pieces, Positional, DriverReads, Intended, BareQuestions, IsClean;
    BuiltinStyles();
    ReadsAsMeantIfClean(QUESTION_STYLE, sql, QUESTION, 0, false, false);
    CleanOfQuestions(sql, false);
  }

  // ---- numbers ----

  /** In PostgreSQL a $1 of the user's own, a parameter behind a letter and one in front of a $ are all misread. */
  lemma PostgresMisreads()
    ensures !IsClean(POSTGRES_STYLE, "$1+:a", false, false)
    ensures !IsClean(POSTGRES_STYLE, "x:a", false, false)
    ensures !IsClean(POSTGRES_STYLE, ":a$", false, false)
  {
    var st := POSTGRES_STYLE;
    var own := "$1+:a";
    assert own[1..][0] == '1' && own[1..][1] == '+';
    DigitRunIs(own[1..], 1);
    assert own[..1] == "$" && own[2..][0] == '+';
    assert IsOwnToken(st, own);
    var behind := "x:a";
    assert behind[1..] == ":a" && IsWord(st, 'x');
    assert !IsClean(st, ":a", false, true);
    var before := ":a$";
    assert before[1..] == "a$" && "a$"[1..] == "$";
    assert NameRun("$") == "" && NameRun("a$") == "a" && Name("a$") == "a";
    assert before[2..] == "$" && Continues(st, "$");
  }
}
