/**
 The pieces a comment is parsed in, described by their characters: its lines, the places in them, where an annotation
 begins, which lines are gathered for it, and what is trimmed.
 */
module CommentMeaning {
  import opened Model
  import opened Lexer
  import opened Comment
  import opened Tokens

  // ---- places ----

  /** The newlines in front of a place. */
  ghost function NewlinesBefore(text: string, offset: nat): set<nat>
    requires offset <= |text|
  {
    set i: nat | i < offset && text[i] == '\n'
  }

  lemma {:induction false} NewlinesAreCounted(text: string, offset: nat)
    requires offset <= |text|
    ensures Newlines(text, offset) == |NewlinesBefore(text, offset)|
    ensures LineStart(text, offset) == 0 || text[LineStart(text, offset) - 1] == '\n'
    ensures forall i :: LineStart(text, offset) <= i < offset ==> text[i] != '\n'
  {
    if offset > 0 {
      NewlinesAreCounted(text, offset - 1);
      OneMoreNewline(text, offset);
      hide NewlinesBefore;
    }
  }

  lemma OneMoreNewline(text: string, offset: nat)
    requires 0 < offset <= |text|
    ensures |NewlinesBefore(text, offset)|
      == |NewlinesBefore(text, offset - 1)| + if text[offset - 1] == '\n' then 1 else 0
  {
    var before := NewlinesBefore(text, offset - 1);
    assert offset - 1 !in before;
    assert NewlinesBefore(text, offset) == if text[offset - 1] == '\n' then before + {offset - 1} else before;
  }

  /**
   The position of a place: as many lines down as there are newlines in front of it, and in the column that counts from
   the last of them, or from the column of the whole text if there is none.
   */
  lemma PositionIsExact(base: Position, text: string, offset: nat)
    requires offset <= |text|
    ensures var p, newlines := PositionAt(base, text, offset), NewlinesBefore(text, offset);
      && p.filename == base.filename && p.offset == base.offset + offset && p.line == base.line + |newlines|
      && (newlines == {} ==> p.column == base.column + offset)
      && forall i :: i in newlines && (forall j :: j in newlines ==> j <= i) ==> p.column == offset - i
  {
    NewlinesAreCounted(text, offset);
    var start, newlines := LineStart(text, offset), NewlinesBefore(text, offset);
    forall i | i in newlines && (forall j :: j in newlines ==> j <= i) ensures start == i + 1 {
      assert start > i;
      assert start - 1 in newlines;
    }
    assert newlines != {} ==> |newlines| > 0;
  }

  // ---- lines ----

  /** A line ends where the next one begins. */
  predicate Meets(text: string, a: Line, b: Line) {
    b.offset == a.offset + |a.text| + 1 && b.offset <= |text| && text[b.offset - 1] == '\n'
  }

  predicate IsPiece(text: string, line: Line) {
    && line.offset + |line.text| <= |text| && '\n' !in line.text
    && text[line.offset..line.offset + |line.text|] == line.text
  }

  /** The lines of text from offset on, in order, each up to the next newline. */
  ghost predicate AreLines(text: string, offset: nat, lines: seq<Line>) {
    && lines != [] && lines[0].offset == offset
    && (forall k :: 0 <= k < |lines| ==> IsPiece(text, lines[k]))
    && (forall k :: 0 < k < |lines| ==> Meets(text, lines[k - 1], lines[k]))
    && var last := lines[|lines| - 1]; last.offset + |last.text| == |text|
  }

  lemma {:induction false} LinesAreExact(text: string, offset: nat)
    requires offset <= |text|
    ensures AreLines(text, offset, LinesFrom(text, offset))
    decreases |text| - offset
  {
    hide NewlineFrom, LinesFrom, AreLines;
    FirstLine(text, offset);
    var nl := NewlineFrom(text, offset);
    var line := Line(text[offset..nl], offset);
    assert forall i :: 0 <= i < |line.text| ==> line.text[i] == text[offset + i];
    assert IsPiece(text, line);
    hide IsPiece;
    if nl < |text| {
      LinesAreExact(text, nl + 1);
      LineInFront(text, line, LinesFrom(text, nl + 1));
    } else {
      LastLine(text, line);
    }
  }

  lemma LastLine(text: string, line: Line)
    requires IsPiece(text, line) && line.offset + |line.text| == |text|
    ensures AreLines(text, line.offset, [line])
  {
  }

  lemma LineInFront(text: string, line: Line, rest: seq<Line>)
    requires AreLines(text, line.offset + |line.text| + 1, rest)
    requires IsPiece(text, line) && line.offset + |line.text| < |text| && text[line.offset + |line.text|] == '\n'
    ensures AreLines(text, line.offset, [line] + rest)
  {
    var lines := [line] + rest;
    assert Meets(text, line, rest[0]);
    hide IsPiece;
    assert lines[|lines| - 1] == rest[|rest| - 1];
    forall k | 0 < k < |lines| ensures Meets(text, lines[k - 1], lines[k]) {
      assert lines[k] == rest[k - 1];
      if k > 1 { assert lines[k - 1] == rest[k - 2] && Meets(text, rest[k - 2], rest[k - 1]); }
    }
  }

  // ---- where an annotation begins ----

  /** Spaces and tabs, an at sign at i, and a letter or an underscore. */
  predicate BeginsAt(line: string, i: nat) {
    && i + 1 < |line| && (forall k :: 0 <= k < i ==> line[k] == ' ' || line[k] == '\t')
    && line[i] == '@' && BeginsWord(line[i + 1])
  }

  lemma {:induction false} LeadingBlanksAre(s: string)
    ensures forall k :: 0 <= k < LeadingBlanks(s) ==> s[k] == ' ' || s[k] == '\t'
    ensures LeadingBlanks(s) < |s| ==> s[LeadingBlanks(s)] != ' ' && s[LeadingBlanks(s)] != '\t'
  {
    if s != [] && (s[0] == ' ' || s[0] == '\t') {
      LeadingBlanksAre(s[1..]);
      assert forall k :: 1 <= k < |s| ==> s[k] == s[1..][k - 1];
    }
  }

  /** A line begins an annotation exactly when it begins so; the buffer starts at the at sign. */
  lemma BeginningIsExact(line: Line)
    ensures IsAnnotationStart(line.text) <==> exists i: nat :: BeginsAt(line.text, i)
    ensures forall i: nat :: BeginsAt(line.text, i) ==> BufferStart(line) == line.offset + i
  {
    var s, n := line.text, LeadingBlanks(line.text);
    LeadingBlanksAre(s);
    hide LeadingBlanks, IsIdentStart, BeginsWord;
    forall i: nat ensures BeginsAt(s, i) ==> i == n { }
    if n + 1 < |s| {
      CharactersAre(s[n + 1]);
      assert s[n..][0] == s[n] && s[n..][1] == s[n + 1];
      if IsAnnotationStart(s) { assert BeginsAt(s, n); }
    }
  }

  // ---- which lines are gathered ----

  /** The scan behind the first n lines. */
  function Fed(lines: seq<Line>, n: nat, st: Scan): Scan
    requires n <= |lines|
  {
    if n == 0 then st else FeedLine(Fed(lines, n - 1, st), lines[n - 1].text)
  }

  /** No raw string goes on behind the line, and there was no bracket yet or none is open. */
  predicate EndsHere(st: Scan) {
    !st.inRaw && (st.hasOpened ==> st.depth <= 0)
  }

  /** Lines are gathered up to the first at whose end nothing is open, or up to the last. */
  lemma {:induction false} GroupIsExact(lines: seq<Line>, st: Scan)
    requires lines != []
    ensures var n := GroupLength(lines, st);
      && (forall m :: 0 < m < n ==> !EndsHere(Fed(lines, m, st)))
      && (EndsHere(Fed(lines, n, st)) || n == |lines|)
    decreases |lines|
  {
    var st' := FeedLine(st, lines[0].text);
    hide FeedLine;
    assert Fed(lines, 1, st) == st' by { assert Fed(lines, 0, st) == st; }
    if !Complete(st') && |lines| > 1 {
      GroupIsExact(lines[1..], st');
      var n := GroupLength(lines[1..], st');
      forall m | 0 < m < n + 1 ensures !EndsHere(Fed(lines, m, st)) {
        FedLater(lines, m - 1, st);
      }
      FedLater(lines, n, st);
    }
  }

  lemma {:induction false} FedLater(lines: seq<Line>, m: nat, st: Scan)
    requires m < |lines|
    ensures Fed(lines[1..], m, FeedLine(st, lines[0].text)) == Fed(lines, m + 1, st)
  {
    hide FeedLine;
    if m > 0 {
      FedLater(lines, m - 1, st);
    } else {
      assert Fed(lines, 0, st) == st;
    }
  }

  /** A string does not go on behind its line, but a raw string does, and brackets stay open. */
  lemma LineEndIs(st: Scan, text: string)
    ensures var after, end := FeedLine(st, text), ScanChars(st, text);
      && !after.inString && !after.escaped
      && after.inRaw == end.inRaw && after.depth == end.depth && after.hasOpened == end.hasOpened
  {
  }

  // ---- what is trimmed ----

  ghost predicate IsTrimmed(s: string, t: string) {
    exists a, b ::
      && s == a + t + b && (forall i :: 0 <= i < |a| ==> IsBlank(a[i])) && (forall i :: 0 <= i < |b| ==> IsBlank(b[i]))
      && (t != "" ==> !IsBlank(t[0]) && !IsBlank(t[|t| - 1]))
  }

  lemma {:induction false} TrimmedLeft(s: string) returns (a: string)
    ensures s == a + TrimLeft(s) && forall i :: 0 <= i < |a| ==> IsBlank(a[i])
    ensures TrimLeft(s) != "" ==> !IsBlank(TrimLeft(s)[0])
  {
    a := "";
    if s != "" && IsSpace(s[0]) {
      var rest := TrimmedLeft(s[1..]);
      a := [s[0]] + rest;
      assert s == [s[0]] + s[1..];
    }
  }

  lemma {:induction false} TrimmedRight(s: string) returns (b: string)
    ensures s == TrimRight(s) + b && forall i :: 0 <= i < |b| ==> IsBlank(b[i])
    ensures TrimRight(s) != "" ==> !IsBlank(TrimRight(s)[|TrimRight(s)| - 1]) && TrimRight(s)[0] == s[0]
    decreases |s|
  {
    b := "";
    if s != "" && IsSpace(s[|s| - 1]) {
      var rest := TrimmedRight(s[..|s| - 1]);
      b := rest + [s[|s| - 1]];
      assert s == s[..|s| - 1] + [s[|s| - 1]];
    }
  }

  /** The raw text of an annotation is its buffer without the blanks at both ends. */
  lemma TrimIsExact(s: string)
    ensures IsTrimmed(s, TrimRight(TrimLeft(s)))
  {
    hide IsBlank, TrimLeft, TrimRight;
    var a := TrimmedLeft(s);
    var b := TrimmedRight(TrimLeft(s));
    assert s == a + TrimRight(TrimLeft(s)) + b;
  }
}
