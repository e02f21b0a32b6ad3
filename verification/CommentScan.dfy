/** The text of a comment as go/scanner hands it on: without carriage returns, so that later characters move forward. */
module CommentScan {
  import opened Comment
  import opened Composition

  predicate IsBlock(raw: string) { "/*" <= raw }

  /** A return stays if dropping it would end a block comment early; out is what was kept before it. */
  predicate Keeps(raw: string, j: nat, out: string)
    requires j < |raw|
  {
    raw[j] != '\r' || (IsBlock(raw) && |out| > 2 && out[|out| - 1] == '*' && j + 1 < |raw| && raw[j + 1] == '/')
  }

  /** What is kept of the first j characters. */
  function KeptOf(raw: string, j: nat): (out: string)
    requires j <= |raw|
    ensures |out| <= j
  {
    if j == 0 then "" else KeptOf(raw, j - 1) + if Keeps(raw, j - 1, KeptOf(raw, j - 1)) then [raw[j - 1]] else ""
  }

  function Scanned(raw: string): string {
    KeptOf(raw, |raw|)
  }

  predicate IsKept(raw: string, j: nat)
    requires j < |raw|
  {
    Keeps(raw, j, KeptOf(raw, j))
  }

  /** Where character j of the comment is in the scanned text, or the next one that is kept. */
  function Moved(raw: string, j: nat): (i: nat)
    requires j <= |raw|
    ensures i <= j
  {
    |KeptOf(raw, j)|
  }

  /** Returns dropped before character j. */
  function Dropped(raw: string, j: nat): nat
    requires j <= |raw|
  {
    j - Moved(raw, j)
  }

  lemma {:induction false} KeptIsPrefix(raw: string, j: nat, k: nat)
    requires j <= k <= |raw|
    ensures KeptOf(raw, j) <= KeptOf(raw, k)
    decreases k - j
  {
    if j < k { KeptIsPrefix(raw, j, k - 1); }
  }

  /** A character that is kept is found where it moved. */
  lemma KeptIsFound(raw: string, j: nat)
    requires j < |raw| && IsKept(raw, j)
    ensures Moved(raw, j) < |Scanned(raw)| && Scanned(raw)[Moved(raw, j)] == raw[j]
    ensures Moved(raw, j + 1) == Moved(raw, j) + 1
  {
    KeptIsPrefix(raw, j + 1, |raw|);
    assert KeptOf(raw, j + 1)[Moved(raw, j)] == raw[j];
  }

  /** Every character of the scanned text was one of the comment. */
  lemma {:induction false} Origin(raw: string, n: nat, i: nat) returns (j: nat)
    requires n <= |raw| && i < |KeptOf(raw, n)|
    ensures j < n && IsKept(raw, j) && Moved(raw, j) == i
    decreases n
  {
    if i < |KeptOf(raw, n - 1)| { j := Origin(raw, n - 1, i); } else { j := n - 1; }
  }

  /** Lines are kept: newlines are counted alike, and lines start at the same characters. */
  lemma {:induction false} LinesAreKept(raw: string, j: nat)
    requires j <= |raw|
    ensures Moved(raw, j) <= |Scanned(raw)|
    ensures Newlines(Scanned(raw), Moved(raw, j)) == Newlines(raw, j)
    ensures LineStart(Scanned(raw), Moved(raw, j)) == Moved(raw, LineStart(raw, j))
    decreases j
  {
    KeptIsPrefix(raw, j, |raw|);
    if j > 0 {
      LinesAreKept(raw, j - 1);
      if IsKept(raw, j - 1) { KeptIsFound(raw, j - 1); }
    }
  }

  /** Returns dropped before character j on its line. */
  function DroppedOnLine(raw: string, j: nat): int
    requires j <= |raw|
  {
    Dropped(raw, j) - Dropped(raw, LineStart(raw, j))
  }

  /**
   Positions over the scanned text: the line is right, the offset falls short by the returns dropped before, and the
   column by those dropped on the line.
   */
  lemma ScannedPosition(start: Position, raw: string, j: nat)
    requires j < |raw| && IsKept(raw, j)
    ensures var p, q := PositionAt(start, Scanned(raw), Moved(raw, j)), PositionAt(start, raw, j);
      && p.filename == q.filename && p.line == q.line
      && p.offset == q.offset - Dropped(raw, j) && p.column == q.column - DroppedOnLine(raw, j)
  {
    hide Newlines, LineStart, Scanned, IsKept, Moved;
    LinesAreKept(raw, j);
    if Newlines(raw, j) == 0 { FirstLineStart(raw, j); }
    NothingMoved(raw);
  }

  lemma NothingMoved(raw: string)
    ensures Moved(raw, 0) == 0
  {
  }

  /** Returns stand only at the end of lines, as in a file with CRLF line ends. */
  predicate ReturnsEndLines(raw: string) {
    forall j :: 0 <= j < |raw| && raw[j] == '\r' ==> j + 1 == |raw| || raw[j + 1] == '\n'
  }

  lemma {:induction false} NoneDroppedOnLine(raw: string, j: nat)
    requires j <= |raw| && ReturnsEndLines(raw)
    requires LineStart(raw, j) < j ==> forall i :: LineStart(raw, j) <= i < j ==> raw[i] != '\r'
    ensures DroppedOnLine(raw, j) == 0
    decreases j
  {
    if j > 0 && LineStart(raw, j) < j { NoneDroppedOnLine(raw, j - 1); }
  }

  /** Then nothing is dropped before a character on its own line, so columns are right too. */
  lemma ReturnsKeepColumns(raw: string, j: nat)
    requires j < |raw| && raw[j] != '\n' && ReturnsEndLines(raw)
    ensures DroppedOnLine(raw, j) == 0
  {
    LineHasNoNewline(raw, j);
    forall i | LineStart(raw, j) <= i < j ensures raw[i] != '\r' {
      if i + 1 < j { assert raw[i + 1] != '\n'; }
    }
    NoneDroppedOnLine(raw, j);
  }

  lemma {:induction false} LineHasNoNewline(raw: string, j: nat)
    requires j <= |raw|
    ensures forall i :: LineStart(raw, j) <= i < j ==> raw[i] != '\n'
  {
    if j > 0 && raw[j - 1] != '\n' { LineHasNoNewline(raw, j - 1); }
  }

  /** Nothing is dropped before j exactly when no return before j is. */
  lemma {:induction false} DroppedIff(raw: string, j: nat)
    requires j <= |raw|
    ensures Dropped(raw, j) == 0 <==> forall i :: 0 <= i < j ==> IsKept(raw, i)
  {
    if j > 0 {
      DroppedIff(raw, j - 1);
      assert Dropped(raw, j) == Dropped(raw, j - 1) + if IsKept(raw, j - 1) then 0 else 1;
    }
  }

  lemma {:induction false} NoReturnsNoChange(raw: string, j: nat)
    requires j <= |raw| && forall i :: 0 <= i < j ==> raw[i] != '\r'
    ensures KeptOf(raw, j) == raw[..j]
  {
    if j > 0 { NoReturnsNoChange(raw, j - 1); }
  }
}
