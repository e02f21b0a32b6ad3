/**
 ParseComment of annotation/parser.go: lines of a comment are gathered until the delimiters of an
 annotation balance, the gathered buffer is parsed, and offsets are mapped to source positions.
 */
module Comment {
  import opened Model
  import opened Lexer
  import opened Value
  import opened Parser

  // ---- positions ----

  datatype Position = Position(filename: string, offset: int, line: int, column: int)

  function Newlines(text: string, offset: nat): nat
    requires offset <= |text|
  {
    if offset == 0 then 0 else Newlines(text, offset - 1) + if text[offset - 1] == '\n' then 1 else 0
  }

  /** Offset of the first character of the line that contains offset. */
  function LineStart(text: string, offset: nat): (start: nat)
    requires offset <= |text|
    ensures start <= offset
  {
    if offset == 0 then 0 else if text[offset - 1] == '\n' then offset else LineStart(text, offset - 1)
  }

  /** positioner.at */
  function PositionAt(base: Position, text: string, offset: nat): Position {
    var o := if offset > |text| then |text| else offset;
    var newlines := Newlines(text, o);
    Position(base.filename, base.offset + o, base.line + newlines,
             if newlines == 0 then base.column + o else o - LineStart(text, o) + 1)
  }

  // ---- lines ----

  datatype Line = Line(text: string, offset: nat)

  function NewlineFrom(text: string, p: nat): (q: nat)
    requires p <= |text|
    ensures p <= q <= |text| && (q < |text| ==> text[q] == '\n')
    ensures forall i :: p <= i < q ==> text[i] != '\n'
    decreases |text| - p
  {
    if p < |text| && text[p] != '\n' then NewlineFrom(text, p + 1) else p
  }

  function LinesFrom(text: string, offset: nat): (lines: seq<Line>)
    requires offset <= |text|
    ensures lines != []
    decreases |text| - offset
  {
    var nl := NewlineFrom(text, offset);
    [Line(text[offset..nl], offset)] + if nl == |text| then [] else LinesFrom(text, nl + 1)
  }

  function LeadingBlanks(s: string): (n: nat)
    ensures n <= |s|
  {
    if s != [] && (s[0] == ' ' || s[0] == '\t') then 1 + LeadingBlanks(s[1..]) else 0
  }

  predicate IsAnnotationStart(s: string) {
    var t := s[LeadingBlanks(s)..];
    |t| > 1 && t[0] == '@' && IsIdentStart(t[1])
  }

  // ---- gathering ----

  datatype Scan = Scan(depth: int, hasOpened: bool, inString: bool, inRaw: bool, escaped: bool)

  const INITIAL_SCAN := Scan(0, false, false, false, false)

  function ScanChar(st: Scan, c: char): Scan {
    if st.inRaw then (if c == '`' then st.(inRaw := false) else st)
    else if st.inString then
      (if st.escaped then st.(escaped := false)
       else if c == '\\' then st.(escaped := true)
       else if c == '"' then st.(inString := false) else st)
    else if c == '"' then st.(inString := true)
    else if c == '`' then st.(inRaw := true)
    else if c == '(' || c == '[' || c == '{' then st.(hasOpened := true, depth := st.depth + 1)
    else if c == ')' || c == ']' || c == '}' then st.(depth := st.depth - 1)
    else st
  }

  function ScanChars(st: Scan, text: string): Scan
    decreases |text|
  {
    if text == [] then st else ScanChars(ScanChar(st, text[0]), text[1..])
  }

  /** A double-quoted string cannot span physical lines. */
  function LineEnd(st: Scan): Scan {
    st.(inString := false, escaped := false)
  }

  function FeedLine(st: Scan, text: string): Scan {
    LineEnd(ScanChars(st, text))
  }

  predicate Complete(st: Scan) {
    !st.inRaw && (!st.hasOpened || st.depth <= 0)
  }

  /** How many of the lines the annotation starting in the first one takes up. */
  function GroupLength(lines: seq<Line>, st: Scan): (n: nat)
    requires lines != []
    ensures 1 <= n <= |lines|
  {
    var st' := FeedLine(st, lines[0].text);
    if Complete(st') || |lines| == 1 then 1 else 1 + GroupLength(lines[1..], st')
  }

  // ---- annotations of a comment ----

  datatype Annotation = Annotation(name: string, args: Arguments, position: Position, raw: string)

  datatype Diagnostic = Diagnostic(code: Code, position: Position, reason: Reason)

  datatype Findings = Findings(annotations: seq<Annotation>, diagnostics: seq<Diagnostic>) {
    function Then(more: Findings): Findings {
      Findings(annotations + more.annotations, diagnostics + more.diagnostics)
    }
  }

  function TrimLeft(s: string): string {
    if s != [] && IsSpace(s[0]) then TrimLeft(s[1..]) else s
  }

  function TrimRight(s: string): string {
    if s != [] && IsSpace(s[|s| - 1]) then TrimRight(s[..|s| - 1]) else s
  }

  /** The finding of one buffer that starts at bufStart in the text. */
  function Located(text: string, base: Position, buf: string, bufStart: nat): Findings {
    match AnnotationIn(buf)
    case Mention => Findings([], [])
    case Malformed(d) => Findings([], [Diagnostic(d.code, PositionAt(base, text, bufStart + d.offset), d.reason)])
    case Annotated(name, args, at) =>
      Findings([Annotation(name, args, PositionAt(base, text, bufStart + at), TrimRight(TrimLeft(buf)))], [])
  }

  /** The lines lie one behind another in the text. */
  ghost predicate LiesIn(lines: seq<Line>, text: string) {
    && (forall i :: 0 <= i < |lines| ==> lines[i].offset + |lines[i].text| <= |text|)
    && (forall i, j :: 0 <= i < j < |lines| ==> lines[i].offset + |lines[i].text| <= lines[j].offset)
  }

  function BufferStart(line: Line): nat {
    line.offset + LeadingBlanks(line.text)
  }

  function LineStop(line: Line): nat {
    line.offset + |line.text|
  }

  function ParseLines(text: string, base: Position, lines: seq<Line>): Findings
    requires LiesIn(lines, text)
    decreases |lines|
  {
    if lines == [] then Findings([], [])
    else if !IsAnnotationStart(lines[0].text) then ParseLines(text, base, lines[1..])
    else
      var n := GroupLength(lines, INITIAL_SCAN);
      var start, stop := BufferStart(lines[0]), LineStop(lines[n - 1]);
      Located(text, base, text[start..stop], start).Then(ParseLines(text, base, lines[n..]))
  }

  lemma {:induction false} LinesLieIn(text: string, offset: nat)
    requires offset <= |text|
    ensures LiesIn(LinesFrom(text, offset), text)
    ensures forall i :: 0 <= i < |LinesFrom(text, offset)| ==> offset <= LinesFrom(text, offset)[i].offset
    decreases |text| - offset
  {
    var nl := NewlineFrom(text, offset);
    var line := Line(text[offset..nl], offset);
    var rest := if nl == |text| then [] else LinesFrom(text, nl + 1);
    assert LinesFrom(text, offset) == [line] + rest;
    hide LinesFrom;
    if nl < |text| { LinesLieIn(text, nl + 1); }
    OneMoreLiesIn(line, rest, text);
  }

  lemma OneMoreLiesIn(line: Line, rest: seq<Line>, text: string)
    requires LiesIn(rest, text) && LineStop(line) <= |text|
    requires forall i :: 0 <= i < |rest| ==> LineStop(line) <= rest[i].offset
    ensures LiesIn([line] + rest, text)
    ensures forall i :: 0 <= i < |[line] + rest| ==> line.offset <= ([line] + rest)[i].offset
  {
    var lines := [line] + rest;
    assert forall i :: 0 < i < |lines| ==> lines[i] == rest[i - 1];
  }

  function Parse(text: string, base: Position): Findings {
    LinesLieIn(text, 0);
    ParseLines(text, base, LinesFrom(text, 0))
  }

  /** A text that is one annotation from its first to its last line. */
  lemma WholeText(text: string, base: Position, lines: seq<Line>)
    requires lines != [] && LiesIn(lines, text) && IsAnnotationStart(lines[0].text)
    requires LineStop(lines[|lines| - 1]) == |text| && GroupLength(lines, INITIAL_SCAN) == |lines|
    ensures var start := BufferStart(lines[0]);
      start <= |text| && ParseLines(text, base, lines) == Located(text, base, text[start..], start)
  {
    hide Located, IsAnnotationStart;
    var start := BufferStart(lines[0]);
    assert start <= LineStop(lines[0]) <= |text|;
    assert text[start..|text|] == text[start..] && lines[|lines|..] == [];
    assert ParseLines(text, base, lines[|lines|..]) == Findings([], []);
  }

  // ---- the code ----

  class ScanState {
    var depth: int
    var hasOpened: bool
    var inString: bool
    var inRaw: bool
    var escaped: bool

    constructor ()
      ensures Current() == INITIAL_SCAN
    {
      depth, hasOpened, inString, inRaw, escaped := 0, false, false, false, false;
    }

    function Current(): Scan
      reads this
    {
      Scan(depth, hasOpened, inString, inRaw, escaped)
    }

    method Feed(text: string)
      modifies this
      ensures Current() == FeedLine(old(Current()), text)
    {
      var i := 0;
      while i < |text|
        invariant i <= |text|
        invariant ScanChars(Current(), text[i..]) == ScanChars(old(Current()), text)
      {
        var c := text[i];
        if inRaw {
          if c == '`' { inRaw := false; }
        } else if inString {
          if escaped {
            escaped := false;
          } else if c == '\\' {
            escaped := true;
          } else if c == '"' {
            inString := false;
          }
        } else if c == '"' {
          inString := true;
        } else if c == '`' {
          inRaw := true;
        } else if c == '(' || c == '[' || c == '{' {
          hasOpened := true;
          depth := depth + 1;
        } else if c == ')' || c == ']' || c == '}' {
          depth := depth - 1;
        }
        assert text[i..][1..] == text[i + 1..];
        i := i + 1;
      }
      inString := false;
      escaped := false;
    }

    method IsComplete() returns (r: bool)
      ensures r == Complete(Current())
    {
      if inRaw { return false; }
      if !hasOpened { return true; }
      return depth <= 0;
    }
  }

  lemma FirstLine(text: string, offset: nat)
    requires offset <= |text|
    ensures var nl := NewlineFrom(text, offset); var line := Line(text[offset..nl], offset);
      LinesFrom(text, offset) == if nl < |text| then [line] + LinesFrom(text, nl + 1) else [line]
  {
    hide NewlineFrom;
  }

  lemma NextLine(text: string, offset: nat, lines: seq<Line>)
    requires offset <= |text|
    ensures var nl := NewlineFrom(text, offset); var line := Line(text[offset..nl], offset);
      lines + LinesFrom(text, offset) ==
        if nl < |text| then lines + [line] + LinesFrom(text, nl + 1) else lines + [line]
  {
    FirstLine(text, offset);
    hide NewlineFrom, LinesFrom;
    var nl := NewlineFrom(text, offset);
    if nl < |text| { Behind(lines, Line(text[offset..nl], offset), LinesFrom(text, nl + 1)); }
  }

  lemma Behind(lines: seq<Line>, line: Line, rest: seq<Line>)
    ensures lines + ([line] + rest) == lines + [line] + rest
  {
  }

  method SplitLines(text: string) returns (lines: seq<Line>)
    ensures lines == LinesFrom(text, 0)
  {
    hide LinesFrom, NewlineFrom;
    lines := [];
    var offset := 0;
    while offset <= |text|
      invariant offset <= |text| + 1
      invariant offset <= |text| ==> LinesFrom(text, 0) == lines + LinesFrom(text, offset)
      invariant offset == |text| + 1 ==> LinesFrom(text, 0) == lines
    {
      var nl := NewlineFrom(text, offset);
      NextLine(text, offset, lines);
      lines := lines + [Line(text[offset..nl], offset)];
      offset := nl + 1;
    }
  }

  lemma LiesInSuffix(lines: seq<Line>, text: string, i: nat)
    requires LiesIn(lines, text) && i <= |lines|
    ensures LiesIn(lines[i..], text)
  {
  }

  /** The text the lines i..end cover, from the first non-blank character on. */
  lemma GroupUnfolds(text: string, base: Position, lines: seq<Line>, i: nat, end: nat)
    requires LiesIn(lines, text) && i <= end < |lines| && IsAnnotationStart(lines[i].text)
    requires end + 1 == i + GroupLength(lines[i..], INITIAL_SCAN)
    ensures LiesIn(lines[i..], text) && LiesIn(lines[end + 1..], text)
    ensures var start, stop := BufferStart(lines[i]), LineStop(lines[end]);
      && start <= stop <= |text|
      && ParseLines(text, base, lines[i..]) ==
         Located(text, base, text[start..stop], start).Then(ParseLines(text, base, lines[end + 1..]))
  {
    hide GroupLength, Located, IsAnnotationStart, LeadingBlanks;
    LiesInSuffix(lines, text, i);
    LiesInSuffix(lines, text, end + 1);
    var rest := lines[i..];
    assert rest[0] == lines[i] && rest[end - i] == lines[end] && rest[end - i + 1..] == lines[end + 1..];
  }

  method ParseComment(text: string, base: Position)
    returns (annotations: seq<Annotation>, diagnostics: seq<Diagnostic>)
    ensures Findings(annotations, diagnostics) == Parse(text, base)
  {
    hide Located, GroupLength, LiesIn, IsAnnotationStart, LinesFrom, ParseLines;
    annotations, diagnostics := [], [];
    var lines := SplitLines(text);
    LinesLieIn(text, 0);
    assert lines[0..] == lines;
    var i := 0;
    while i < |lines|
      invariant i <= |lines| && LiesIn(lines[i..], text)
      invariant Parse(text, base) == Findings(annotations, diagnostics).Then(ParseLines(text, base, lines[i..]))
    {
      if !IsAnnotationStart(lines[i].text) {
        LiesInSuffix(lines, text, i + 1);
        OtherLine(text, base, lines, i);
        i := i + 1;
        continue;
      }
      var end := FindEnd(lines, i);
      GroupUnfolds(text, base, lines, i, end);
      var found := ParseBuffer(text, base, BufferStart(lines[i]), LineStop(lines[end]));
      ThenIsAssociative(Findings(annotations, diagnostics), found, ParseLines(text, base, lines[end + 1..]));
      annotations := annotations + found.annotations;
      diagnostics := diagnostics + found.diagnostics;
      i := end + 1;
    }
    assert lines[i..] == [];
    NoLines(text, base);
    ThenIsAssociative(Findings(annotations, diagnostics), Findings([], []), Findings([], []));
  }

  lemma OtherLine(text: string, base: Position, lines: seq<Line>, i: nat)
    requires i < |lines| && LiesIn(lines[i..], text) && LiesIn(lines[i + 1..], text)
    requires !IsAnnotationStart(lines[i].text)
    ensures ParseLines(text, base, lines[i..]) == ParseLines(text, base, lines[i + 1..])
  {
    hide IsAnnotationStart, LiesIn;
    assert lines[i..][1..] == lines[i + 1..];
  }

  lemma NoLines(text: string, base: Position)
    ensures LiesIn([], text) && ParseLines(text, base, []) == Findings([], [])
  {
  }

  lemma ThenIsAssociative(a: Findings, b: Findings, c: Findings)
    ensures a.Then(b.Then(c)) == a.Then(b).Then(c)
    ensures Findings([], []).Then(c) == c && a.Then(Findings([], [])) == a
  {
  }

  /** One gathered buffer: at most one annotation and at most one diagnostic. */
  method ParseBuffer(text: string, base: Position, bufStart: nat, bufEnd: nat) returns (found: Findings)
    requires bufStart <= bufEnd <= |text|
    ensures found == Located(text, base, text[bufStart..bufEnd], bufStart)
  {
    hide PositionAt, TrimLeft, TrimRight, AnnotationIn;
    var buf := text[bufStart..bufEnd];
    var one := ParseOne(buf);
    match one
    case Mention => found := Findings([], []);
    case Malformed(d) =>
      found := Findings([], [Diagnostic(d.code, PositionAt(base, text, bufStart + d.offset), d.reason)]);
    case Annotated(name, args, at) =>
      var raw := TrimRight(TrimLeft(buf));
      found := Findings([Annotation(name, args, PositionAt(base, text, bufStart + at), raw)], []);
  }

  /** The inner loop of ParseComment: the index of the last line of the annotation that starts at line i. */
  method FindEnd(lines: seq<Line>, i: nat) returns (end: nat)
    requires i < |lines|
    ensures i <= end < |lines| && end + 1 == i + GroupLength(lines[i..], INITIAL_SCAN)
  {
    end := i;
    var st := new ScanState();
    while true
      invariant i <= end < |lines|
      invariant end + GroupLength(lines[end..], st.Current()) == i + GroupLength(lines[i..], INITIAL_SCAN)
      decreases |lines| - end
    {
      assert lines[end..][0] == lines[end] && lines[end..][1..] == lines[end + 1..];
      st.Feed(lines[end].text);
      var complete := st.IsComplete();
      if complete || end == |lines| - 1 { break; }
      end := end + 1;
    }
  }
}
