/**
 ParseComment is compositional: when the last annotation of A closes by itself, parsing A, a newline
 and B gives what A gives followed by what B gives at its place.
 */
module Composition {
  import opened Model
  import opened Lexer
  import opened Value
  import opened Parser
  import opened Comment

  /** The annotation that starts in the first line ends with its delimiters balanced. */
  predicate GroupCloses(lines: seq<Line>, st: Scan)
    requires lines != []
  {
    var st' := FeedLine(st, lines[0].text);
    Complete(st') || (|lines| > 1 && GroupCloses(lines[1..], st'))
  }

  /** No annotation runs into the end of the text with open delimiters. */
  predicate Closed(lines: seq<Line>)
    decreases |lines|
  {
    lines == [] ||
    if IsAnnotationStart(lines[0].text)
    then GroupCloses(lines, INITIAL_SCAN) && Closed(lines[GroupLength(lines, INITIAL_SCAN)..])
    else Closed(lines[1..])
  }

  function Moved(lines: seq<Line>, shift: nat): (r: seq<Line>)
    ensures |r| == |lines|
    ensures forall i :: 0 <= i < |lines| ==> r[i] == Line(lines[i].text, lines[i].offset + shift)
  {
    seq(|lines|, i requires 0 <= i < |lines| => Line(lines[i].text, lines[i].offset + shift))
  }

  function Joined(a: string, b: string): string {
    a + "\n" + b
  }

  // ---- lines ----

  lemma {:induction false} NewlineInFront(a: string, b: string, p: nat)
    requires p <= |a|
    ensures NewlineFrom(Joined(a, b), p) == NewlineFrom(a, p)
    decreases |a| - p
  {
    if p < |a| && a[p] != '\n' { NewlineInFront(a, b, p + 1); }
  }

  lemma {:induction false} NewlineBehind(a: string, b: string, p: nat)
    requires p <= |b|
    ensures NewlineFrom(Joined(a, b), |a| + 1 + p) == |a| + 1 + NewlineFrom(b, p)
    decreases |b| - p
  {
    if p < |b| && b[p] != '\n' { NewlineBehind(a, b, p + 1); }
  }

  lemma MovedCons(line: Line, lines: seq<Line>, shift: nat)
    ensures Moved([line] + lines, shift) == [Line(line.text, line.offset + shift)] + Moved(lines, shift)
  {
  }

  lemma {:induction false} LinesBehind(a: string, b: string, p: nat)
    requires p <= |b|
    ensures LinesFrom(Joined(a, b), |a| + 1 + p) == Moved(LinesFrom(b, p), |a| + 1)
    decreases |b| - p
  {
    hide *;
    var t, shift, nl := Joined(a, b), |a| + 1, NewlineFrom(b, p);
    NewlineBehind(a, b, p);
    SliceBehind(a, b, p, nl);
    LinesUnfold(b, p);
    LinesUnfold(t, shift + p);
    if nl < |b| {
      LinesBehind(a, b, nl + 1);
      MovedCons(Line(b[p..nl], p), LinesFrom(b, nl + 1), shift);
    } else {
      MovedOne(Line(b[p..nl], p), shift);
    }
  }

  lemma MovedOne(line: Line, shift: nat)
    ensures Moved([line], shift) == [Line(line.text, line.offset + shift)]
  {
  }

  lemma LinesUnfold(t: string, p: nat)
    requires p <= |t|
    ensures var nl := NewlineFrom(t, p);
      LinesFrom(t, p) ==
        if nl == |t| then [Line(t[p..nl], p)] else [Line(t[p..nl], p)] + LinesFrom(t, nl + 1)
  {
    hide NewlineFrom;
  }

  lemma SliceBehind(a: string, b: string, p: nat, q: nat)
    requires p <= q <= |b|
    ensures |Joined(a, b)| == |a| + 1 + |b| && Joined(a, b)[|a| + 1 + p..|a| + 1 + q] == b[p..q]
  {
  }

  lemma SliceInFront(a: string, b: string, p: nat, q: nat)
    requires p <= q <= |a|
    ensures |Joined(a, b)| == |a| + 1 + |b| && Joined(a, b)[p..q] == a[p..q]
  {
  }

  lemma {:induction false} LinesOfJoined(a: string, b: string, p: nat)
    requires p <= |a|
    ensures LinesFrom(Joined(a, b), p) == LinesFrom(a, p) + Moved(LinesFrom(b, 0), |a| + 1)
    decreases |a| - p
  {
    hide NewlineFrom, Joined, Moved, LinesFrom;
    var nl := NewlineFrom(a, p);
    NewlineInFront(a, b, p);
    SliceInFront(a, b, p, nl);
    LinesUnfold(a, p);
    LinesUnfold(Joined(a, b), p);
    if nl == |a| {
      LinesBehind(a, b, 0);
    } else {
      LinesOfJoined(a, b, nl + 1);
    }
  }

  // ---- positions ----

  lemma {:induction false} PositionsInFront(a: string, b: string, o: nat)
    requires o <= |a|
    ensures Newlines(Joined(a, b), o) == Newlines(a, o) && LineStart(Joined(a, b), o) == LineStart(a, o)
    decreases o
  {
    if o > 0 { PositionsInFront(a, b, o - 1); }
  }

  lemma {:induction false} PositionsBehind(a: string, b: string, o: nat)
    requires o <= |b|
    ensures Newlines(Joined(a, b), |a| + 1 + o) == Newlines(a, |a|) + 1 + Newlines(b, o)
    ensures LineStart(Joined(a, b), |a| + 1 + o) == |a| + 1 + LineStart(b, o)
    decreases o
  {
    var t, p := Joined(a, b), |a| + 1 + o;
    if o == 0 {
      PositionsInFront(a, b, |a|);
      assert t[|a|] == '\n';
    } else {
      PositionsBehind(a, b, o - 1);
      assert t[p - 1] == b[o - 1];
    }
  }

  lemma {:induction false} FirstLineStart(b: string, o: nat)
    requires o <= |b| && Newlines(b, o) == 0
    ensures LineStart(b, o) == 0
    decreases o
  {
    if o > 0 { FirstLineStart(b, o - 1); }
  }

  /** Where the first character of B stands. */
  function SecondBase(base: Position, a: string, b: string): Position {
    PositionAt(base, Joined(a, b), |a| + 1)
  }

  lemma PositionInFirst(base: Position, a: string, b: string, o: nat)
    requires o <= |a|
    ensures PositionAt(base, Joined(a, b), o) == PositionAt(base, a, o)
  {
    PositionsInFront(a, b, o);
  }

  lemma PositionInSecond(base: Position, a: string, b: string, o: nat)
    requires o <= |b|
    ensures PositionAt(base, Joined(a, b), |a| + 1 + o) == PositionAt(SecondBase(base, a, b), b, o)
  {
    PositionsBehind(a, b, o);
    PositionsBehind(a, b, 0);
    if Newlines(b, o) == 0 { FirstLineStart(b, o); }
  }

  // ---- groups ----

  lemma {:induction false} GroupUnaffected(lines: seq<Line>, more: seq<Line>, st: Scan)
    requires lines != [] && GroupCloses(lines, st)
    ensures GroupLength(lines + more, st) == GroupLength(lines, st)
    decreases |lines|
  {
    var st' := FeedLine(st, lines[0].text);
    assert (lines + more)[0] == lines[0] && (lines + more)[1..] == lines[1..] + more;
    if !Complete(st') { GroupUnaffected(lines[1..], more, st'); }
  }

  lemma {:induction false} GroupOfMoved(lines: seq<Line>, shift: nat, st: Scan)
    requires lines != []
    ensures GroupLength(Moved(lines, shift), st) == GroupLength(lines, st)
    decreases |lines|
  {
    if |lines| > 1 {
      assert Moved(lines, shift)[1..] == Moved(lines[1..], shift);
      GroupOfMoved(lines[1..], shift, FeedLine(st, lines[0].text));
    }
  }

  // ---- findings ----

  lemma LocatedInFirst(base: Position, a: string, b: string, start: nat, stop: nat)
    requires start <= stop <= |a|
    ensures Joined(a, b)[start..stop] == a[start..stop]
    ensures Located(Joined(a, b), base, a[start..stop], start) == Located(a, base, a[start..stop], start)
  {
    hide AnnotationIn, TrimLeft, TrimRight, PositionAt;
    match AnnotationIn(a[start..stop])
    case Mention =>
    case Malformed(d) => PositionInFirst(base, a, b, start + d.offset);
    case Annotated(_, _, at) => PositionInFirst(base, a, b, start + at);
  }

  lemma LocatedInSecond(base: Position, a: string, b: string, start: nat, stop: nat)
    requires start <= stop <= |b|
    ensures var n := |a| + 1; Joined(a, b)[n + start..n + stop] == b[start..stop]
    ensures Located(Joined(a, b), base, b[start..stop], |a| + 1 + start)
      == Located(b, SecondBase(base, a, b), b[start..stop], start)
  {
    hide AnnotationIn, TrimLeft, TrimRight, PositionAt;
    match AnnotationIn(b[start..stop])
    case Mention =>
    case Malformed(d) => PositionInSecond(base, a, b, start + d.offset);
    case Annotated(_, _, at) => PositionInSecond(base, a, b, start + at);
  }

  lemma ThenAssociates(x: Findings, y: Findings, z: Findings)
    ensures x.Then(y).Then(z) == x.Then(y.Then(z))
    ensures Findings([], []).Then(x) == x
  {
  }

  lemma LiesInParts(a: string, b: string, xs: seq<Line>, ys: seq<Line>, n: nat)
    requires LiesIn(xs + ys, Joined(a, b)) && n <= |xs|
    ensures LiesIn(ys, Joined(a, b)) && LiesIn(xs[n..] + ys, Joined(a, b))
  {
    assert (xs + ys)[|xs|..] == ys && (xs + ys)[n..] == xs[n..] + ys;
    LiesInSuffix(xs + ys, Joined(a, b), |xs|);
    LiesInSuffix(xs + ys, Joined(a, b), n);
  }

  lemma {:induction false} ParseFirst(base: Position, a: string, b: string, xs: seq<Line>, ys: seq<Line>)
    requires LiesIn(xs, a) && LiesIn(xs + ys, Joined(a, b)) && Closed(xs)
    ensures LiesIn(ys, Joined(a, b))
    ensures ParseLines(Joined(a, b), base, xs + ys) == ParseLines(a, base, xs).Then(ParseLines(Joined(a, b), base, ys))
    decreases |xs|
  {
    hide LiesIn, Located, GroupLength, GroupCloses, Joined, IsAnnotationStart, LeadingBlanks;
    LiesInParts(a, b, xs, ys, 0);
    if xs == [] {
      assert xs + ys == ys;
      ThenAssociates(ParseLines(Joined(a, b), base, ys), Findings([], []), Findings([], []));
    } else {
      var n := if IsAnnotationStart(xs[0].text) then GroupLength(xs, INITIAL_SCAN) else 1;
      LiesInParts(a, b, xs, ys, n);
      LiesInSuffix(xs, a, n);
      assert (xs + ys)[0] == xs[0] && (xs + ys)[n - 1] == xs[n - 1] && (xs + ys)[n..] == xs[n..] + ys;
      ParseFirst(base, a, b, xs[n..], ys);
      if IsAnnotationStart(xs[0].text) {
        GroupUnaffected(xs, ys, INITIAL_SCAN);
        var start, stop := BufferStart(xs[0]), LineStop(xs[n - 1]);
        GroupInText(xs, a, n);
        LocatedInFirst(base, a, b, start, stop);
        ThenAssociates(Located(a, base, a[start..stop], start), ParseLines(a, base, xs[n..]),
                       ParseLines(Joined(a, b), base, ys));
      }
    }
  }

  lemma GroupInText(lines: seq<Line>, text: string, n: nat)
    requires LiesIn(lines, text) && 1 <= n <= |lines|
    ensures BufferStart(lines[0]) <= LineStop(lines[n - 1]) <= |text|
  {
  }

  lemma {:induction false} ParseSecond(base: Position, a: string, b: string, lines: seq<Line>)
    requires LiesIn(lines, b) && LiesIn(Moved(lines, |a| + 1), Joined(a, b))
    ensures ParseLines(Joined(a, b), base, Moved(lines, |a| + 1)) == ParseLines(b, SecondBase(base, a, b), lines)
    decreases |lines|
  {
    hide LiesIn, Located, GroupLength, Joined, IsAnnotationStart, LeadingBlanks, SecondBase;
    if lines != [] {
      var moved := Moved(lines, |a| + 1);
      var n := if IsAnnotationStart(lines[0].text) then GroupLength(lines, INITIAL_SCAN) else 1;
      LiesInSuffix(lines, b, n);
      LiesInSuffix(moved, Joined(a, b), n);
      assert moved[n..] == Moved(lines[n..], |a| + 1);
      ParseSecond(base, a, b, lines[n..]);
      if IsAnnotationStart(lines[0].text) {
        GroupOfMoved(lines, |a| + 1, INITIAL_SCAN);
        GroupInText(lines, b, n);
        LocatedInSecond(base, a, b, BufferStart(lines[0]), LineStop(lines[n - 1]));
      }
    }
  }

  /**
   The main result: A, newline, B yields the annotations and diagnostics of A followed by those of B
   as parsed where B stands, whether or not the annotations of A are well formed.
   */
  lemma ParseIsCompositional(a: string, b: string, base: Position)
    requires Closed(LinesFrom(a, 0))
    ensures Parse(Joined(a, b), base) == Parse(a, base).Then(Parse(b, SecondBase(base, a, b)))
  {
    hide Closed, SecondBase, Joined, LinesFrom, ParseLines;
    var xs, ys := LinesFrom(a, 0), Moved(LinesFrom(b, 0), |a| + 1);
    LinesOfJoined(a, b, 0);
    LinesLieIn(a, 0);
    LinesLieIn(b, 0);
    LinesLieIn(Joined(a, b), 0);
    ParseFirst(base, a, b, xs, ys);
    ParseSecond(base, a, b, LinesFrom(b, 0));
  }

  /** Without closing delimiters A swallows the lines of B: the condition cannot be dropped. */
  lemma OpenAnnotationSwallows(base: Position)
    ensures var a, b := "@A(", ")";
      |Parse(Joined(a, b), base).annotations| == 1 &&
      Parse(a, base).annotations == [] && Parse(b, SecondBase(base, a, b)).annotations == []
  {
    var a, b, t := "@A(", ")", "@A(\n)";
    assert Joined(a, b) == t;
    OpenBuffer();
    ClosedBuffer();
    ProseLine(b, SecondBase(base, a, b));
    WholeBuffer(a, base);
    WholeBuffer(t, base);
  }

  lemma OpenBuffer()
    ensures AnnotationIn("@A(").Malformed?
  {
    var s := "@A(";
    assert Lex(s, 0).tok.kind == At && Lex(s, 0).next == 1;
    assert IdentEnd(s, 2) == 2;
    assert Lex(s, 1).tok.kind == Ident && Lex(s, 1).next == 2;
    assert Lex(s, 2).tok.kind == LParen && Lex(s, 2).next == 3;
    assert Lex(s, 3).tok.kind == EOF;
  }

  lemma ClosedBuffer()
    ensures AnnotationIn("@A(\n)").Annotated?
  {
    var s := "@A(\n)";
    assert Lex(s, 0).tok.kind == At && Lex(s, 0).next == 1;
    assert IdentEnd(s, 2) == 2;
    assert Lex(s, 1).tok.kind == Ident && Lex(s, 1).next == 2;
    assert Lex(s, 2).tok.kind == LParen && Lex(s, 2).next == 3;
    assert SkipSpace(s, 4) == 4 && SkipSpace(s, 3) == 4;
    assert Lex(s, 3).tok.kind == RParen && Lex(s, 3).next == 5;
    assert Lex(s, 5).tok.kind == EOF;
  }

  lemma ProseLine(b: string, base: Position)
    requires b == ")"
    ensures Parse(b, base).annotations == []
  {
    assert NewlineFrom(b, 0) == NewlineFrom(b, 1) == 1;
    assert b[0..1] == b;
    assert LinesFrom(b, 0) == [Line(b, 0)] && [Line(b, 0)][1..] == [];
    assert LeadingBlanks(b) == 0 && b[0..] == b && !IsAnnotationStart(b);
    LinesLieIn(b, 0);
    var lines := LinesFrom(b, 0);
    assert lines[0] == Line(b, 0) && lines[1..] == [];
    assert ParseLines(b, base, lines) == ParseLines(b, base, lines[1..]);
  }

  lemma WholeBuffer(t: string, base: Position)
    requires t == "@A(" || t == "@A(\n)"
    ensures Parse(t, base) == Located(t, base, t, 0)
  {
    hide Located, IsAnnotationStart, FeedLine, LinesFrom, ParseLines, LiesIn;
    OpeningLine();
    LinesLieIn(t, 0);
    var lines := LinesFrom(t, 0);
    if |t| == 3 {
      OneLine(t);
    } else {
      TwoLines(t);
      assert lines[1..] == [Line(")", 4)];
      assert GroupLength(lines[1..], Scan(1, true, false, false, false)) == 1;
    }
    WholeText(t, base, lines);
  }

  lemma OneLine(t: string)
    requires t == "@A("
    ensures LinesFrom(t, 0) == [Line(t, 0)]
  {
    assert NewlineFrom(t, 2) == 3 && NewlineFrom(t, 1) == 3 && NewlineFrom(t, 0) == 3;
    assert t[0..3] == t;
  }

  lemma TwoLines(t: string)
    requires t == "@A(\n)"
    ensures LinesFrom(t, 0) == [Line("@A(", 0), Line(")", 4)]
  {
    assert NewlineFrom(t, 3) == 3 && NewlineFrom(t, 2) == 3 && NewlineFrom(t, 1) == 3 && NewlineFrom(t, 0) == 3;
    assert NewlineFrom(t, 5) == 5 && NewlineFrom(t, 4) == 5;
    assert t[0..3] == "@A(" && t[4..5] == ")";
    assert LinesFrom(t, 4) == [Line(")", 4)];
  }

  lemma OpeningLine()
    ensures FeedLine(INITIAL_SCAN, "@A(") == Scan(1, true, false, false, false)
    ensures IsAnnotationStart("@A(") && LeadingBlanks("@A(") == 0
  {
    assert "@A("[1..] == "A(" && "A("[1..] == "(" && "("[1..] == "";
    assert "@A("[0..] == "@A(";
  }
}
