/**
 compiler/comments.go: comment markers are stripped from a comment group, and positions in the cleaned text are
 mapped back to the source. The map is exact, except that carriage returns which the scanner dropped are not
 accounted for.
 */
module CommentSource {
  import opened Model
  import opened Lexer
  import opened Parser
  import opened Comment
  import opened CommentScan
  import opened Composition

  /** A comment as go/ast presents it: its text and the position of its first slash; raw is how the file has it. */
  datatype SourceComment = SourceComment(text: string, start: Position, raw: string)

  datatype LineInfo = LineInfo(filename: string, srcLine: int, srcColumn: int, srcOffset: int)

  const ZERO := Position("", 0, 1, 1)

  function TrimSuffix(s: string): string {
    if |s| >= 2 && s[|s| - 2..] == "*/" then s[..|s| - 2] else s
  }

  predicate IsLineComment(c: SourceComment) { "//" <= c.text }

  predicate IsBlockComment(c: SourceComment) { "/*" <= c.text }

  function Shifted(start: Position, by2: int): LineInfo {
    LineInfo(start.filename, start.line, start.column + by2, start.offset + by2)
  }

  // ---- what cleaning produces ----

  datatype Cleaned = Cleaned(lines: seq<string>, table: seq<LineInfo>) {
    function Then(more: Cleaned): Cleaned {
      Cleaned(lines + more.lines, table + more.table)
    }
  }

  /** The entry of line j of a block comment whose inner text begins two characters behind start. */
  function BlockInfo(start: Position, j: nat, offset: nat): LineInfo {
    LineInfo(start.filename, start.line + j, if j == 0 then start.column + 2 else 1, start.offset + 2 + offset)
  }

  function BlockLines(lines: seq<Line>, start: Position): (r: Cleaned)
    ensures |r.lines| == |r.table| == |lines|
  {
    Cleaned(seq(|lines|, j requires 0 <= j < |lines| => lines[j].text),
            seq(|lines|, j requires 0 <= j < |lines| => BlockInfo(start, j, lines[j].offset)))
  }

  function CleanOne(c: SourceComment): (r: Cleaned)
    ensures |r.lines| == |r.table| > 0
  {
    if IsLineComment(c) then Cleaned([c.text[2..]], [Shifted(c.start, 2)])
    else if IsBlockComment(c) then BlockLines(LinesFrom(TrimSuffix(c.text[2..]), 0), c.start)
    else Cleaned([c.text], [Shifted(c.start, 0)])
  }

  function Clean(group: seq<SourceComment>): (r: Cleaned)
    ensures |r.lines| == |r.table|
  {
    if group == [] then Cleaned([], []) else CleanOne(group[0]).Then(Clean(group[1..]))
  }

  function JoinLines(lines: seq<string>): string {
    if lines == [] then "" else if |lines| == 1 then lines[0] else Joined(lines[0], JoinLines(lines[1..]))
  }

  /** remapPosition */
  function Remap(p: Position, table: seq<LineInfo>): Position {
    if p.line < 1 || p.line > |table| then p
    else
      var info := table[p.line - 1];
      Position(info.filename, info.srcOffset + p.column - 1, info.srcLine, info.srcColumn + p.column - 1)
  }

  // ---- the code ----

  lemma NewlineStep(t: string, i: nat)
    requires i <= |t|
    ensures i == |t| || t[i] == '\n' ==> NewlineFrom(t, i) == i
    ensures i < |t| && t[i] != '\n' ==> NewlineFrom(t, i) == NewlineFrom(t, i + 1)
  {
  }

  lemma BlockLinesAppend(done: seq<Line>, line: Line, start: Position)
    ensures BlockLines([], start) == Cleaned([], [])
    ensures BlockLines(done + [line], start) ==
      BlockLines(done, start).Then(Cleaned([line.text], [BlockInfo(start, |done|, line.offset)]))
  {
  }

  lemma ThenLaws(x: Cleaned, y: Cleaned, z: Cleaned)
    ensures x.Then(y).Then(z) == x.Then(y.Then(z))
    ensures x.Then(Cleaned([], [])) == x && Cleaned([], []).Then(x) == x
  {
  }

  lemma LineAdded(sofar: Cleaned, done: seq<Line>, line: Line, start: Position, so: Cleaned)
    requires so == sofar.Then(BlockLines(done, start))
    ensures Cleaned(so.lines + [line.text], so.table + [BlockInfo(start, |done|, line.offset)])
         == sofar.Then(BlockLines(done + [line], start))
  {
    var one := Cleaned([line.text], [BlockInfo(start, |done|, line.offset)]);
    BlockLinesAppend(done, line, start);
    ThenLaws(sofar, BlockLines(done, start), one);
    hide BlockLines, BlockInfo;
    assert so.Then(one) == sofar.Then(BlockLines(done + [line], start));
  }

  method AppendBlockLines(inner: string, start: Position, sofar: Cleaned) returns (r: Cleaned)
    ensures r == sofar.Then(BlockLines(LinesFrom(inner, 0), start))
  {
    hide NewlineFrom, LinesFrom, BlockLines;
    var lines, table := sofar.lines, sofar.table;
    var srcLine, srcColumn, srcOffset := start.line, start.column + 2, start.offset + 2;
    var lineStart, i := 0, 0;
    ghost var done: seq<Line> := [];
    BlockLinesAppend([], Line("", 0), start);
    hide Cleaned.Then;
    ThenLaws(sofar, sofar, sofar);
    while i <= |inner|
      invariant lineStart <= i <= |inner| + 1
      invariant lineStart == |inner| + 1 <==> i == |inner| + 1
      invariant i <= |inner| ==> NewlineFrom(inner, lineStart) == NewlineFrom(inner, i)
      invariant i <= |inner| ==> LinesFrom(inner, 0) == done + LinesFrom(inner, lineStart)
      invariant i <= |inner| ==>
        LineInfo(start.filename, srcLine, srcColumn, srcOffset) == BlockInfo(start, |done|, lineStart)
      invariant i == |inner| + 1 ==> LinesFrom(inner, 0) == done
      invariant Cleaned(lines, table) == sofar.Then(BlockLines(done, start))
    {
      NewlineStep(inner, i);
      if i == |inner| || inner[i] == '\n' {
        ghost var line := Line(inner[lineStart..i], lineStart);
        LinesUnfold(inner, lineStart);
        LineAdded(sofar, done, line, start, Cleaned(lines, table));
        lines := lines + [inner[lineStart..i]];
        table := table + [LineInfo(start.filename, srcLine, srcColumn, srcOffset)];
        done := done + [line];
        if i < |inner| {
          srcLine := srcLine + 1;
          srcColumn := 1;
          srcOffset := start.offset + 2 + i + 1;
        }
        lineStart := i + 1;
      }
      i := i + 1;
    }
    return Cleaned(lines, table);
  }

  method CleanComments(group: seq<SourceComment>) returns (text: string, table: seq<LineInfo>)
    ensures text == JoinLines(Clean(group).lines) && table == Clean(group).table
  {
    hide BlockLines, JoinLines, TrimSuffix, Clean, LinesFrom;
    var acc, k := Cleaned([], []), 0;
    ThenLaws(Clean(group), acc, acc);
    assert group[0..] == group;
    while k < |group|
      invariant k <= |group|
      invariant Clean(group) == acc.Then(Clean(group[k..]))
    {
      var c := group[k];
      CleanUnfold(group, k);
      ThenLaws(acc, CleanOne(c), Clean(group[k + 1..]));
      if IsLineComment(c) {
        acc := acc.Then(Cleaned([c.text[2..]], [Shifted(c.start, 2)]));
      } else if IsBlockComment(c) {
        acc := AppendBlockLines(TrimSuffix(c.text[2..]), c.start, acc);
      } else {
        acc := acc.Then(Cleaned([c.text], [Shifted(c.start, 0)]));
      }
      k := k + 1;
    }
    CleanUnfold(group, k);
    ThenLaws(acc, acc, acc);
    return JoinLines(acc.lines), acc.table;
  }

  lemma CleanUnfold(group: seq<SourceComment>, k: nat)
    requires k <= |group|
    ensures Clean(group[k..]) ==
      if k == |group| then Cleaned([], []) else CleanOne(group[k]).Then(Clean(group[k + 1..]))
  {
    hide CleanOne;
    if k < |group| { assert group[k..][0] == group[k] && group[k..][1..] == group[k + 1..]; }
  }

  // ---- true positions ----

  /** Line, column and offset of a character of a file. */
  function TruePosition(filename: string, file: string, o: nat): Position {
    PositionAt(Position(filename, 0, 1, 1), file, o)
  }

  /** The comment stands in the file where it says, in one of the two forms of Go, and was scanned from there. */
  ghost predicate StandsIn(c: SourceComment, file: string) {
    && 0 <= c.start.offset && c.start.offset + |c.raw| <= |file|
    && file[c.start.offset..c.start.offset + |c.raw|] == c.raw
    && c.start == TruePosition(c.start.filename, file, c.start.offset)
    && (("//" <= c.raw && '\n' !in c.raw) || "/*" <= c.raw)
    && c.text == Scanned(c.raw)
  }

  /** Its scanned text has the form that CleanComments looks for. */
  ghost predicate WellFormed(c: SourceComment) {
    (IsLineComment(c) && '\n' !in c.text) || IsBlockComment(c)
  }

  lemma StandsWellFormed(c: SourceComment, file: string)
    requires StandsIn(c, file)
    ensures WellFormed(c) && |c.text| <= |c.raw|
  {
    KeptOfTwo(c.raw);
    KeptIsPrefix(c.raw, 2, |c.raw|);
    LinesAreKept(c.raw, |c.raw|);
    if '\n' !in c.raw {
      NoNewlines(c.raw, |c.raw|);
      NoNewlinesBack(c.text, |c.text|);
    }
  }

  lemma KeptOfTwo(raw: string)
    requires "//" <= raw || "/*" <= raw
    ensures KeptOf(raw, 2) == raw[..2]
  {
    assert raw[0] == '/' && raw[1] != '\r';
    assert KeptOf(raw, 1) == [raw[0]];
  }

  lemma {:induction false} NoNewlinesBack(t: string, o: nat)
    requires o <= |t| && Newlines(t, o) == 0
    ensures '\n' !in t[..o]
  {
    if o > 0 {
      NoNewlinesBack(t, o - 1);
      assert t[..o] == t[..o - 1] + [t[o - 1]];
    }
  }

  /** A cleaned line without newlines, copied in one piece from the comment; the entry is the position over its text. */
  ghost predicate TrueLine(line: string, info: LineInfo, c: SourceComment) {
    var a := info.srcOffset - c.start.offset;
    && '\n' !in line && 0 <= a && a + |line| <= |c.text| && c.text[a..a + |line|] == line
    && PositionAt(c.start, c.text, a) == Position(info.filename, info.srcOffset, info.srcLine, info.srcColumn)
  }

  ghost predicate TrueTable(r: Cleaned, group: seq<SourceComment>) {
    |r.lines| == |r.table|
    && forall k :: 0 <= k < |r.lines| ==> exists m :: 0 <= m < |group| && TrueLine(r.lines[k], r.table[k], group[m])
  }

  /** Counting newlines inside a piece of the file. */
  lemma {:induction false} Embedded(file: string, b: nat, t: string, o: nat)
    requires b + |t| <= |file| && file[b..b + |t|] == t && o <= |t|
    ensures Newlines(file, b + o) == Newlines(file, b) + Newlines(t, o)
    ensures LineStart(file, b + o) == if Newlines(t, o) == 0 then LineStart(file, b) else b + LineStart(t, o)
    decreases o
  {
    if o > 0 {
      Embedded(file, b, t, o - 1);
      assert file[b + o - 1] == file[b..b + |t|][o - 1];
    }
  }

  lemma {:induction false} NoNewlines(t: string, o: nat)
    requires '\n' !in t && o <= |t|
    ensures Newlines(t, o) == 0
  {
    if o > 0 { NoNewlines(t, o - 1); }
  }

  /** Within a line, columns and offsets advance together. */
  lemma TrueWithinLine(line: string, info: LineInfo, c: SourceComment, i: nat)
    requires TrueLine(line, info, c) && i < |line|
    ensures var a := info.srcOffset - c.start.offset;
      && 0 <= a + i < |c.text| && c.text[a + i] == line[i]
      && PositionAt(c.start, c.text, a + i)
         == Position(info.filename, info.srcOffset + i, info.srcLine, info.srcColumn + i)
  {
    var a := info.srcOffset - c.start.offset;
    Embedded(c.text, a, line, i);
    NoNewlines(line, i);
    assert c.text[a..a + |line|][i] == c.text[a + i];
  }

  // ---- the table is true ----

  /** A line of a text: where it lies and how many newlines come before. */
  ghost predicate LineAt(t: string, line: Line, newlines: int) {
    && '\n' !in line.text && line.offset + |line.text| <= |t|
    && t[line.offset..line.offset + |line.text|] == line.text
    && Newlines(t, line.offset) == newlines
    && (line.offset == 0 || t[line.offset - 1] == '\n')
  }

  lemma {:induction false} LineOffsets(t: string, p: nat, j: nat)
    requires p <= |t| && j < |LinesFrom(t, p)| && (p == 0 || t[p - 1] == '\n')
    ensures LineAt(t, LinesFrom(t, p)[j], Newlines(t, p) + j)
    decreases |t| - p
  {
    hide LinesFrom, NewlineFrom, Newlines, LineAt;
    var nl := NewlineFrom(t, p);
    LinesUnfold(t, p);
    LineHere(t, p, nl);
    if j > 0 {
      LineOffsets(t, nl + 1, j - 1);
    }
  }

  lemma LineHere(t: string, p: nat, nl: nat)
    requires p <= nl <= |t| && (p == 0 || t[p - 1] == '\n') && forall i :: p <= i < nl ==> t[i] != '\n'
    ensures LineAt(t, Line(t[p..nl], p), Newlines(t, p))
    ensures nl < |t| && t[nl] == '\n' ==> Newlines(t, nl + 1) == Newlines(t, p) + 1
  {
    assert '\n' !in t[p..nl];
    Embedded(t, p, t[p..nl], nl - p);
    NoNewlines(t[p..nl], nl - p);
  }

  lemma LineCommentIsTrue(c: SourceComment)
    requires WellFormed(c) && IsLineComment(c)
    ensures TrueLine(c.text[2..], Shifted(c.start, 2), c)
  {
    MarkerHasNoNewline(c.text);
  }

  lemma MarkerHasNoNewline(t: string)
    requires "//" <= t || "/*" <= t
    ensures Newlines(t, 2) == 0
  {
    assert t[1] != '\n' && t[0] != '\n';
    assert Newlines(t, 1) == 0;
  }

  lemma BlockLineIsTrue(c: SourceComment, j: nat)
    requires IsBlockComment(c) && j < |LinesFrom(TrimSuffix(c.text[2..]), 0)|
    ensures var line := LinesFrom(TrimSuffix(c.text[2..]), 0)[j];
      TrueLine(line.text, BlockInfo(c.start, j, line.offset), c)
  {
    hide LinesFrom, TrueLine, Newlines, LineStart, BlockInfo;
    var inner := TrimSuffix(c.text[2..]);
    assert 2 + |inner| <= |c.text| && c.text[2..2 + |inner|] == inner;
    MarkerHasNoNewline(c.text);
    LineOffsets(inner, 0, j);
    ZeroNewlines(inner);
    if j == 0 { FirstLine(inner); }
    LineInBlock(c, inner, LinesFrom(inner, 0)[j], j);
  }

  lemma ZeroNewlines(t: string)
    ensures Newlines(t, 0) == 0
  {
  }

  /** A line of the inner text, seen from the whole comment. */
  lemma LineInBlock(c: SourceComment, inner: string, line: Line, j: nat)
    requires 2 + |inner| <= |c.text| && c.text[2..2 + |inner|] == inner && Newlines(c.text, 2) == 0
    requires LineAt(inner, line, j) && (j == 0 ==> line.offset == 0)
    ensures TrueLine(line.text, BlockInfo(c.start, j, line.offset), c)
  {
    var o := 2 + line.offset;
    hide Newlines, LineStart;
    Embedded(c.text, 2, inner, line.offset);
    SubSlice(c.text, 2, inner, line.offset, |line.text|);
    if line.offset > 0 { NewlineBefore(inner, line.offset); } else { ZeroNewlines(inner); }
  }

  lemma NewlineBefore(t: string, o: nat)
    requires 0 < o <= |t| && t[o - 1] == '\n'
    ensures LineStart(t, o) == o && Newlines(t, o) > 0
  {
  }

  lemma SubSlice(file: string, b: nat, t: string, p: nat, n: nat)
    requires b + |t| <= |file| && file[b..b + |t|] == t && p + n <= |t|
    ensures file[b + p..b + p + n] == t[p..p + n]
  {
    var piece := file[b + p..b + p + n];
    forall i | 0 <= i < n ensures piece[i] == t[p..p + n][i] {
      assert piece[i] == file[b + p + i] == file[b..b + |t|][p + i] == t[p + i];
    }
  }

  lemma FirstLine(t: string)
    ensures LinesFrom(t, 0)[0].offset == 0
  {
  }

  /** Every entry is the position of its line in the text of its comment. */
  lemma {:induction false} TableIsTrue(group: seq<SourceComment>)
    requires forall c :: c in group ==> WellFormed(c)
    ensures TrueTable(Clean(group), group)
  {
    hide WellFormed, TrueLine, CleanOne;
    if group != [] {
      var c, rest := group[0], Clean(group[1..]);
      TableIsTrue(group[1..]);
      OneIsTrue(c);
      var r := Clean(group);
      forall k | 0 <= k < |r.lines| ensures exists m :: 0 <= m < |group| && TrueLine(r.lines[k], r.table[k], group[m]) {
        var n := |CleanOne(c).lines|;
        if k < n {
          assert TrueLine(r.lines[k], r.table[k], group[0]);
        } else {
          var m :| 0 <= m < |group[1..]| && TrueLine(rest.lines[k - n], rest.table[k - n], group[1..][m]);
          assert TrueLine(r.lines[k], r.table[k], group[m + 1]);
        }
      }
    }
  }

  lemma OneIsTrue(c: SourceComment)
    requires WellFormed(c)
    ensures forall k :: 0 <= k < |CleanOne(c).lines| ==> TrueLine(CleanOne(c).lines[k], CleanOne(c).table[k], c)
  {
    hide TrueLine, BlockInfo, TrimSuffix, LinesFrom;
    if IsLineComment(c) {
      LineCommentIsTrue(c);
    } else {
      var lines := LinesFrom(TrimSuffix(c.text[2..]), 0);
      forall j | 0 <= j < |lines| ensures TrueLine(lines[j].text, BlockInfo(c.start, j, lines[j].offset), c) {
        BlockLineIsTrue(c, j);
      }
    }
  }

  // ---- positions in the cleaned text ----

  /** Offset of line k in the joined text. */
  function LineOffset(lines: seq<string>, k: nat): nat
    requires k < |lines|
  {
    if k == 0 then 0 else |lines[0]| + 1 + LineOffset(lines[1..], k - 1)
  }

  lemma {:induction false} PositionInClean(lines: seq<string>, k: nat, i: nat)
    requires k < |lines| && i < |lines[k]| && forall j :: 0 <= j < |lines| ==> '\n' !in lines[j]
    ensures var text, o := JoinLines(lines), LineOffset(lines, k) + i;
      o < |text| && text[o] == lines[k][i] && Newlines(text, o) == k && LineStart(text, o) == o - i
    decreases |lines|
  {
    var first := lines[0];
    if |lines| == 1 {
      NoNewlines(first, i);
      FirstLineStart(first, i);
    } else {
      var rest := JoinLines(lines[1..]);
      if k == 0 {
        PositionsInFront(first, rest, i);
        NoNewlines(first, i);
        FirstLineStart(first, i);
      } else {
        PositionInClean(lines[1..], k - 1, i);
        PositionsBehind(first, rest, LineOffset(lines[1..], k - 1) + i);
        NoNewlines(first, |first|);
      }
    }
  }

  /** Every character of the cleaned text other than a separator belongs to a line. */
  lemma {:induction false} LineOfOffset(lines: seq<string>, o: nat) returns (k: nat, i: nat)
    requires o < |JoinLines(lines)| && JoinLines(lines)[o] != '\n'
    ensures k < |lines| && i < |lines[k]| && o == LineOffset(lines, k) + i
    decreases |lines|
  {
    if o < |lines[0]| || |lines| == 1 {
      k, i := 0, o;
    } else {
      var k', i' := LineOfOffset(lines[1..], o - |lines[0]| - 1);
      k, i := k' + 1, i';
    }
  }

  /**
   A character of the cleaned text that is no separator is located and remapped to its position over its comment's
   text.
   */
  lemma RemapIsOverText(group: seq<SourceComment>, o: nat) returns (k: nat, i: nat, m: nat)
    requires forall c :: c in group ==> WellFormed(c)
    requires o < |JoinLines(Clean(group).lines)| && JoinLines(Clean(group).lines)[o] != '\n'
    ensures m < |group|
    ensures var r := Clean(group); k < |r.lines| && i < |r.lines[k]| && o == LineOffset(r.lines, k) + i
    ensures var r := Clean(group); var t := r.table[k].srcOffset + i - group[m].start.offset;
      && 0 <= t < |group[m].text| && group[m].text[t] == JoinLines(r.lines)[o]
      && Remap(PositionAt(ZERO, JoinLines(r.lines), o), r.table) == PositionAt(group[m].start, group[m].text, t)
  {
    hide Clean, JoinLines, LineOffset, WellFormed, TrueLine;
    var r := Clean(group);
    TableIsTrue(group);
    k, i := LineOfOffset(r.lines, o);
    m :| 0 <= m < |group| && TrueLine(r.lines[k], r.table[k], group[m]);
    LinesHaveNoNewline(group, r);
    PositionInClean(r.lines, k, i);
    if k == 0 { FirstLineStart(JoinLines(r.lines), o); }
    TrueWithinLine(r.lines[k], r.table[k], group[m], i);
  }

  lemma LinesHaveNoNewline(group: seq<SourceComment>, r: Cleaned)
    requires TrueTable(r, group)
    ensures forall j :: 0 <= j < |r.lines| ==> '\n' !in r.lines[j]
  {
    forall j | 0 <= j < |r.lines| ensures '\n' !in r.lines[j] {
      var m :| 0 <= m < |group| && TrueLine(r.lines[j], r.table[j], group[m]);
    }
  }

  /**
   The main result: the character of the cleaned text is character j of a comment of the file. Its line is found
   correctly; its offset falls short by the returns that the scanner dropped before it in the comment, and its column by
   those dropped on its line.
   */
  lemma RemapIsExact(group: seq<SourceComment>, file: string, o: nat) returns (m: nat, j: nat)
    requires forall c :: c in group ==> StandsIn(c, file)
    requires o < |JoinLines(Clean(group).lines)| && JoinLines(Clean(group).lines)[o] != '\n'
    ensures m < |group| && j < |group[m].raw| && 0 <= group[m].start.offset && group[m].start.offset + j < |file|
    ensures var r, c := Clean(group), group[m]; var text := JoinLines(r.lines);
      var p, q := Remap(PositionAt(ZERO, text, o), r.table), TruePosition(c.start.filename, file, c.start.offset + j);
      && file[q.offset] == c.raw[j] == text[o]
      && p.filename == q.filename && p.line == q.line
      && p.offset == q.offset - Dropped(c.raw, j) && p.column == q.column - DroppedOnLine(c.raw, j)
  {
    hide *;
    GroupIsWellFormed(group, file);
    var k, i;
    k, i, m := RemapIsOverText(group, o);
    var c, r := group[m], Clean(group);
    assert c in group;
    j := OriginIn(c, file, r.table[k].srcOffset + i - c.start.offset);
  }

  lemma GroupIsWellFormed(group: seq<SourceComment>, file: string)
    requires forall c :: c in group ==> StandsIn(c, file)
    ensures forall c :: c in group ==> WellFormed(c)
  {
    hide StandsIn, WellFormed;
    forall c | c in group ensures WellFormed(c) { StandsWellFormed(c, file); }
  }

  /** Character t of a comment's text was character j of the comment in the file. */
  lemma OriginIn(c: SourceComment, file: string, t: nat) returns (j: nat)
    requires StandsIn(c, file) && t < |c.text|
    ensures j < |c.raw| && c.start.offset + j < |file| && 0 <= c.start.offset
    ensures var p, q := PositionAt(c.start, c.text, t), TruePosition(c.start.filename, file, c.start.offset + j);
      && q.offset == c.start.offset + j && file[q.offset] == c.raw[j] == c.text[t]
      && p.filename == q.filename && p.line == q.line
      && p.offset == q.offset - Dropped(c.raw, j) && p.column == q.column - DroppedOnLine(c.raw, j)
  {
    hide Newlines, LineStart, Keeps, DroppedOnLine, Dropped, TruePosition, PositionAt;
    j := Origin(c.raw, |c.raw|, t);
    KeptIsFound(c.raw, j);
    ScannedPosition(c.start, c.raw, j);
    PositionInComment(c, file, j);
  }

  /** A character's position in the file is its position over the comment as it stands there. */
  lemma PositionInComment(c: SourceComment, file: string, j: nat)
    requires StandsIn(c, file) && j < |c.raw|
    ensures 0 <= c.start.offset && c.start.offset + j < |file| && file[c.start.offset + j] == c.raw[j]
    ensures TruePosition(c.start.filename, file, c.start.offset + j) == PositionAt(c.start, c.raw, j)
    ensures PositionAt(c.start, c.raw, j).offset == c.start.offset + j
  {
    hide Newlines, LineStart, Scanned;
    assert file[c.start.offset..c.start.offset + |c.raw|][j] == file[c.start.offset + j];
    Embedded(file, c.start.offset, c.raw, j);
    if Newlines(file, c.start.offset) == 0 { FirstLineStart(file, c.start.offset); }
    if Newlines(file, c.start.offset + j) == 0 { FirstLineStart(file, c.start.offset + j); }
  }

  /**
   So the offset is true exactly when no return was dropped before the character in its comment; and line and column are
   true when the returns of the comment only end lines.
   */
  lemma RemapIsTrueIff(group: seq<SourceComment>, file: string, o: nat) returns (m: nat, j: nat)
    requires forall c :: c in group ==> StandsIn(c, file)
    requires o < |JoinLines(Clean(group).lines)| && JoinLines(Clean(group).lines)[o] != '\n'
    ensures m < |group| && j < |group[m].raw| && 0 <= group[m].start.offset && group[m].start.offset + j < |file|
    ensures var r, c := Clean(group), group[m];
      var p := Remap(PositionAt(ZERO, JoinLines(r.lines), o), r.table);
      var q := TruePosition(c.start.filename, file, c.start.offset + j);
      && file[q.offset] == JoinLines(r.lines)[o]
      && (p.offset == q.offset <==> forall i :: 0 <= i < j ==> IsKept(c.raw, i))
      && (ReturnsEndLines(c.raw) ==> p.line == q.line && p.column == q.column)
      && ('\r' !in c.raw ==> p == q)
  {
    hide *;
    m, j := RemapIsExact(group, file, o);
    var c := group[m];
    DroppedIff(c.raw, j);
    if ReturnsEndLines(c.raw) { ReturnsKeepColumns(c.raw, j); }
    if '\r' !in c.raw { NothingDropped(c.raw, j); }
  }

  lemma NothingDropped(raw: string, j: nat)
    requires j < |raw| && '\r' !in raw && raw[j] != '\n'
    ensures Dropped(raw, j) == 0 && DroppedOnLine(raw, j) == 0
  {
    NoReturnsNoChange(raw, j);
    NoReturnsNoChange(raw, LineStart(raw, j));
  }

  // ---- the map preserves the order of the source ----

  function End(c: SourceComment): int {
    c.start.offset + |c.raw|
  }

  /** The comments come one behind another. */
  ghost predicate InOrder(group: seq<SourceComment>) {
    forall i, j :: 0 <= i < j < |group| ==> End(group[i]) <= group[j].start.offset
  }

  /** The lines were taken from the file between lo and hi, each behind the one before. */
  ghost predicate Ordered(r: Cleaned, lo: int, hi: int)
    requires |r.lines| == |r.table|
  {
    && (forall k :: 0 <= k < |r.lines| ==> lo <= r.table[k].srcOffset && r.table[k].srcOffset + |r.lines[k]| <= hi)
    && (forall j, k :: 0 <= j < k < |r.lines| ==> r.table[j].srcOffset + |r.lines[j]| <= r.table[k].srcOffset)
  }

  lemma CleanOneOrdered(c: SourceComment)
    requires |c.text| <= |c.raw|
    ensures Ordered(CleanOne(c), c.start.offset, End(c))
  {
    if !IsLineComment(c) && IsBlockComment(c) {
      hide LinesFrom, TrimSuffix;
      TrimSuffixShortens(c.text[2..]);
      LinesLieIn(TrimSuffix(c.text[2..]), 0);
    }
  }

  lemma TrimSuffixShortens(s: string)
    ensures |TrimSuffix(s)| <= |s|
  {
  }

  lemma {:induction false} CleanOrdered(group: seq<SourceComment>, hi: int)
    requires InOrder(group) && group != [] && forall c :: c in group ==> End(c) <= hi && |c.text| <= |c.raw|
    ensures Ordered(Clean(group), group[0].start.offset, hi)
  {
    hide CleanOne;
    var rest := group[1..];
    CleanOneOrdered(group[0]);
    if rest != [] {
      assert group[1] == rest[0];
      CleanOrdered(rest, hi);
    }
  }

  /** So later characters of the cleaned text have later offsets, returns or not: no two are confused. */
  lemma RemapIsIncreasing(group: seq<SourceComment>, file: string, o: nat, o': nat)
    requires InOrder(group) && forall c :: c in group ==> StandsIn(c, file)
    requires o < o' < |JoinLines(Clean(group).lines)|
    requires JoinLines(Clean(group).lines)[o] != '\n' && JoinLines(Clean(group).lines)[o'] != '\n'
    ensures var r := Clean(group); var text := JoinLines(r.lines);
      Remap(PositionAt(ZERO, text, o), r.table).offset < Remap(PositionAt(ZERO, text, o'), r.table).offset
  {
    hide Clean, JoinLines, LineOffset, PositionAt, Remap, StandsIn, WellFormed;
    var r := Clean(group);
    GroupIsWellFormed(group, file);
    var k, i, m := RemapIsOverText(group, o);
    var k', i', m' := RemapIsOverText(group, o');
    OffsetOf(group[m], r.table[k].srcOffset + i);
    OffsetOf(group[m'], r.table[k'].srcOffset + i');
    assert group != [] by { EmptyGroup(group, o); }
    GroupEndsIn(group, file);
    CleanOrdered(group, |file|);
    LineOffsetsIncrease(r.lines, k, k');
    LineOffsetsIncrease(r.lines, k', k);
  }

  lemma OffsetOf(c: SourceComment, offset: int)
    requires 0 <= offset - c.start.offset <= |c.text|
    ensures PositionAt(c.start, c.text, offset - c.start.offset).offset == offset
  {
  }

  lemma GroupEndsIn(group: seq<SourceComment>, file: string)
    requires forall c :: c in group ==> StandsIn(c, file)
    ensures forall c :: c in group ==> End(c) <= |file| && |c.text| <= |c.raw|
  {
    forall c | c in group ensures End(c) <= |file| && |c.text| <= |c.raw| { StandsWellFormed(c, file); }
  }

  lemma EmptyGroup(group: seq<SourceComment>, o: nat)
    requires o < |JoinLines(Clean(group).lines)|
    ensures group != []
  {
  }

  lemma {:induction false} LineOffsetsIncrease(lines: seq<string>, k: nat, k': nat)
    requires k < |lines| && k' < |lines|
    ensures k < k' ==> LineOffset(lines, k) + |lines[k]| < LineOffset(lines, k')
    decreases k
  {
    if k > 0 && k < k' {
      LineOffsetsIncrease(lines[1..], k - 1, k' - 1);
    }
  }

  // ---- annotations are reported where their '@' stands ----

  lemma {:induction false} BlanksThenAt(s: string)
    requires IsAnnotationStart(s)
    ensures LeadingBlanks(s) < |s| && s[LeadingBlanks(s)] == '@'
  {
  }

  lemma AnnotationAtZero(buf: string)
    requires buf != [] && buf[0] == '@'
    ensures AnnotationIn(buf).Annotated? ==> AnnotationIn(buf).at == 0
  {
    hide ArgumentsAt;
  }

  /** The lines are pieces of the text. */
  ghost predicate Pieces(lines: seq<Line>, text: string)
    requires LiesIn(lines, text)
  {
    forall i :: 0 <= i < |lines| ==> text[lines[i].offset..LineStop(lines[i])] == lines[i].text
  }

  lemma PiecesSuffix(lines: seq<Line>, text: string, g: nat)
    requires LiesIn(lines, text) && Pieces(lines, text) && g <= |lines|
    ensures LiesIn(lines[g..], text) && Pieces(lines[g..], text)
  {
  }

  lemma OneAnnotation(text: string, base: Position, line: Line, stop: nat)
    requires LineStop(line) <= stop <= |text| && text[line.offset..LineStop(line)] == line.text
    requires IsAnnotationStart(line.text)
    ensures var start := BufferStart(line);
      && start < stop && text[start] == '@'
      && forall n :: 0 <= n < |Located(text, base, text[start..stop], start).annotations| ==>
           Located(text, base, text[start..stop], start).annotations[n].position == PositionAt(base, text, start)
  {
    hide PositionAt, AnnotationIn, TrimLeft, TrimRight;
    var start := BufferStart(line);
    BlanksThenAt(line.text);
    assert text[start] == text[line.offset..LineStop(line)][start - line.offset];
    AnnotationAtZero(text[start..stop]);
  }

  /** Every annotation found has the position of an '@' of the text. */
  lemma {:induction false} AnnotationsPointAtAt(text: string, base: Position, lines: seq<Line>, n: nat) returns (o: nat)
    requires LiesIn(lines, text) && Pieces(lines, text) && n < |ParseLines(text, base, lines).annotations|
    ensures o < |text| && text[o] == '@'
    ensures ParseLines(text, base, lines).annotations[n].position == PositionAt(base, text, o)
    decreases |lines|
  {
    hide PositionAt, Located, GroupLength, IsAnnotationStart, Pieces, LiesIn;
    var g := if IsAnnotationStart(lines[0].text) then GroupLength(lines, INITIAL_SCAN) else 1;
    PiecesSuffix(lines, text, g);
    if !IsAnnotationStart(lines[0].text) {
      o := AnnotationsPointAtAt(text, base, lines[1..], n);
    } else {
      var start, stop := BufferStart(lines[0]), LineStop(lines[g - 1]);
      GroupInText(lines, text, g);
      FirstPiece(lines, text, g);
      OneAnnotation(text, base, lines[0], stop);
      var here := Located(text, base, text[start..stop], start);
      if n < |here.annotations| {
        o := start;
      } else {
        o := AnnotationsPointAtAt(text, base, lines[g..], n - |here.annotations|);
      }
    }
  }

  lemma FirstPiece(lines: seq<Line>, text: string, g: nat)
    requires LiesIn(lines, text) && Pieces(lines, text) && 1 <= g <= |lines|
    ensures LineStop(lines[0]) <= LineStop(lines[g - 1]) <= |text|
    ensures text[lines[0].offset..LineStop(lines[0])] == lines[0].text
  {
  }

  /**
   parseDoc: every annotation is reported on the line of an '@' of the file, and at its exact place if the comment
   has no carriage return; line and column are right if returns only end lines, and then the offset falls short by
   those before.
   */
  lemma AnnotationPositionsAreTrue(group: seq<SourceComment>, file: string, n: nat) returns (m: nat, j: nat)
    requires forall c :: c in group ==> StandsIn(c, file)
    requires n < |Parse(JoinLines(Clean(group).lines), ZERO).annotations|
    ensures m < |group| && j < |group[m].raw| && 0 <= group[m].start.offset && group[m].start.offset + j < |file|
    ensures var r, c := Clean(group), group[m];
      var p := Remap(Parse(JoinLines(r.lines), ZERO).annotations[n].position, r.table);
      var q := TruePosition(c.start.filename, file, c.start.offset + j);
      && file[q.offset] == '@' && p.line == q.line && p.offset == q.offset - Dropped(c.raw, j)
      && (ReturnsEndLines(c.raw) ==> p.column == q.column)
      && ('\r' !in c.raw ==> p == q)
  {
    hide Clean, JoinLines, StandsIn, PositionAt, Remap, LinesFrom, ParseLines, Dropped, DroppedOnLine, ReturnsEndLines;
    var text := JoinLines(Clean(group).lines);
    LinesLieIn(text, 0);
    var lines := LinesFrom(text, 0);
    forall i | 0 <= i < |lines| ensures text[lines[i].offset..LineStop(lines[i])] == lines[i].text {
      LineOffsets(text, 0, i);
    }
    var o := AnnotationsPointAtAt(text, ZERO, lines, n);
    m, j := RemapIsExact(group, file, o);
    var c := group[m];
    if ReturnsEndLines(c.raw) { ReturnsKeepColumns(c.raw, j); }
    if '\r' !in c.raw { NothingDropped(c.raw, j); }
  }

  /**
   In a file with CRLF line ends, an annotation on the second line of a block comment is reported one offset too
   early.
   */
  lemma ReturnShortensOffset()
    ensures var file := "/*\r\n@A*/"; var c := SourceComment("/*\n@A*/", TruePosition("f", file, 0), file);
      var r := Clean([c]);
      && StandsIn(c, file) && JoinLines(r.lines) == "\n@A"
      && Remap(PositionAt(ZERO, "\n@A", 1), r.table) == Position("f", 3, 2, 1) && file[3] == '\n'
      && TruePosition("f", file, 4) == Position("f", 4, 2, 1) && file[4] == '@'
  {
    hide *;
    var file := "/*\r\n@A*/";
    var c := SourceComment("/*\n@A*/", TruePosition("f", file, 0), file);
    ExampleStands(file, c);
    ExampleIsCleaned(c);
    ExampleIsMapped(file, c);
  }

  lemma ExampleStands(file: string, c: SourceComment)
    requires file == "/*\r\n@A*/" && c == SourceComment("/*\n@A*/", TruePosition("f", file, 0), file)
    ensures StandsIn(c, file) && c.start == Position("f", 0, 1, 1)
  {
    ScannedExample();
  }

  lemma ExampleIsCleaned(c: SourceComment)
    requires c.text == "/*\n@A*/"
    ensures Clean([c]).lines == ["", "@A"] && Clean([c]).table == [BlockInfo(c.start, 0, 0), BlockInfo(c.start, 1, 1)]
    ensures JoinLines(Clean([c]).lines) == "\n@A"
  {
    hide LinesFrom, BlockInfo;
    ExampleLines();
    assert c.text[2..] == "\n@A*/" && c.text[1] == '*';
    var r := CleanOne(c);
    assert r == BlockLines([Line("", 0), Line("@A", 1)], c.start);
    assert r.lines == ["", "@A"] && r.table == [BlockInfo(c.start, 0, 0), BlockInfo(c.start, 1, 1)];
    assert Joined("", "@A") == "\n@A";
    CleanUnfold([c], 0);
    CleanUnfold([c], 1);
    assert [c][0..] == [c];
    ThenLaws(CleanOne(c), Cleaned([], []), Cleaned([], []));
    assert ["", "@A"][1..] == ["@A"];
  }

  lemma ExampleLines()
    ensures TrimSuffix("\n@A*/") == "\n@A" && LinesFrom("\n@A", 0) == [Line("", 0), Line("@A", 1)]
  {
    var inner, rest := "\n@A", "\n@A*/";
    assert rest[3..] == "*/" && rest[..3] == inner;
    assert NewlineFrom(inner, 0) == 0 && NewlineFrom(inner, 2) == 3 && NewlineFrom(inner, 1) == 3;
    assert inner[0..0] == "" && inner[1..3] == "@A";
    assert LinesFrom(inner, 1) == [Line("@A", 1)];
  }

  lemma ExampleIsMapped(file: string, c: SourceComment)
    requires file == "/*\r\n@A*/" && c.start == Position("f", 0, 1, 1)
    ensures var table := [BlockInfo(c.start, 0, 0), BlockInfo(c.start, 1, 1)];
      Remap(PositionAt(ZERO, "\n@A", 1), table) == Position("f", 3, 2, 1)
    ensures TruePosition("f", file, 4) == Position("f", 4, 2, 1) && file[4] == '@' && file[3] == '\n'
  {
    assert Newlines("\n@A", 1) == 1 && LineStart("\n@A", 1) == 1;
    assert file[0] == '/' && file[1] == '*' && file[2] == '\r' && file[3] == '\n';
    assert Newlines(file, 1) == 0 && Newlines(file, 2) == 0;
    assert Newlines(file, 3) == 0 && Newlines(file, 4) == 1 && LineStart(file, 4) == 4;
  }

  lemma ScannedExample()
    ensures Scanned("/*\r\n@A*/") == "/*\n@A*/"
  {
    var raw := "/*\r\n@A*/";
    KeptOfTwo(raw);
    assert KeptOf(raw, 3) == "/*" && KeptOf(raw, 4) == "/*\n" && KeptOf(raw, 5) == "/*\n@";
    assert KeptOf(raw, 6) == "/*\n@A" && KeptOf(raw, 7) == "/*\n@A*";
  }
}
