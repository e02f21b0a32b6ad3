/**
 The "did you mean" search of annotation/suggest.go: Levenshtein distance over two rolling rows,
 proved to be the least number of single-character edits, and the closest candidate.
 */
module Suggest {
  import opened Model
  import opened Ordering

  // ---- reference definition: editing a string one character at a time ----

  datatype Edit = InsertChar(pos: nat, c: char) | DeleteChar(pos: nat) | ReplaceChar(pos: nat, c: char)

  predicate Applicable(e: Edit, s: string) {
    if e.InsertChar? then e.pos <= |s| else e.pos < |s|
  }

  function Apply(e: Edit, s: string): string
    requires Applicable(e, s)
  {
    match e
    case InsertChar(p, c) => s[..p] + [c] + s[p..]
    case DeleteChar(p) => s[..p] + s[p + 1..]
    case ReplaceChar(p, c) => s[..p] + [c] + s[p + 1..]
  }

  /** The edits, applied one after another, lead from a to b. */
  predicate Transforms(edits: seq<Edit>, a: string, b: string)
    decreases |edits|
  {
    if edits == [] then a == b
    else Applicable(edits[0], a) && Transforms(edits[1..], Apply(edits[0], a), b)
  }

  ghost predicate IsEditDistance(a: string, b: string, d: int) {
    && (exists edits :: |edits| == d && Transforms(edits, a, b))
    && (forall edits :: Transforms(edits, a, b) ==> d <= |edits|)
  }

  // ---- the recurrence ----

  function Min3(a: int, b: int, c: int): int {
    if a <= b && a <= c then a else if b <= c then b else c
  }

  function Cost(x: char, y: char): int {
    if x == y then 0 else 1
  }

  /** Entry (i, j) of the table: the distance between the first i and the first j characters. */
  function Dist(a: string, i: nat, b: string, j: nat): int
    requires i <= |a| && j <= |b|
    decreases i + j
  {
    if i == 0 then j
    else if j == 0 then i
    else Min3(Dist(a, i - 1, b, j) + 1, Dist(a, i, b, j - 1) + 1, Dist(a, i - 1, b, j - 1) + Cost(a[i - 1], b[j - 1]))
  }

  lemma DistRule(a: string, i: nat, b: string, j: nat)
    requires 0 < i <= |a| && 0 < j <= |b|
    ensures Dist(a, i, b, j) == Min3(Dist(a, i - 1, b, j) + 1, Dist(a, i, b, j - 1) + 1,
                                     Dist(a, i - 1, b, j - 1) + Cost(a[i - 1], b[j - 1]))
  {
  }

  function Lev(a: string, b: string): int {
    Dist(a, |a|, b, |b|)
  }

  // ---- metric laws ----

  lemma {:induction false} DistBounds(a: string, i: nat, b: string, j: nat)
    requires i <= |a| && j <= |b|
    ensures i <= j + Dist(a, i, b, j) && j <= i + Dist(a, i, b, j)
    ensures Dist(a, i, b, j) <= if i < j then j else i
    decreases i + j
  {
    if i > 0 && j > 0 {
      DistBounds(a, i - 1, b, j);
      DistBounds(a, i, b, j - 1);
      DistBounds(a, i - 1, b, j - 1);
    }
  }

  lemma {:induction false} DistSymmetric(a: string, i: nat, b: string, j: nat)
    requires i <= |a| && j <= |b|
    ensures Dist(a, i, b, j) == Dist(b, j, a, i)
    decreases i + j
  {
    if i > 0 && j > 0 {
      DistSymmetric(a, i - 1, b, j);
      DistSymmetric(a, i, b, j - 1);
      DistSymmetric(a, i - 1, b, j - 1);
    }
  }

  lemma {:induction false} DistZero(a: string, i: nat, b: string, j: nat)
    requires i <= |a| && j <= |b|
    ensures Dist(a, i, b, j) == 0 <==> a[..i] == b[..j]
    decreases i + j
  {
    DistBounds(a, i, b, j);
    if i == j && i > 0 {
      DistZero(a, i - 1, b, j - 1);
      DistBounds(a, i - 1, b, j);
      DistBounds(a, i, b, j - 1);
      DistBounds(a, i - 1, b, j - 1);
      SamePrefix(a, b, i);
    } else if i != j {
      assert |a[..i]| != |b[..j]|;
    }
  }

  lemma SamePrefix(a: string, b: string, i: nat)
    requires 0 < i <= |a| && i <= |b|
    ensures a[..i] == b[..i] <==> a[..i - 1] == b[..i - 1] && a[i - 1] == b[i - 1]
  {
    assert a[..i] == a[..i - 1] + [a[i - 1]] && b[..i] == b[..i - 1] + [b[i - 1]];
  }

  /** Lengthening one side by one character costs at most one edit. */
  lemma DistStep(a: string, i: nat, b: string, j: nat)
    requires i <= |a| && j <= |b|
    ensures i > 0 ==> Dist(a, i, b, j) <= Dist(a, i - 1, b, j) + 1
    ensures j > 0 ==> Dist(a, i, b, j) <= Dist(a, i, b, j - 1) + 1
  {
  }

  lemma {:induction false} DistTriangle(a: string, i: nat, b: string, j: nat, c: string, k: nat)
    requires i <= |a| && j <= |b| && k <= |c|
    ensures Dist(a, i, c, k) <= Dist(a, i, b, j) + Dist(b, j, c, k)
    decreases i + j + k, 1
  {
    if i == 0 || j == 0 || k == 0 {
      DistBounds(a, i, b, j);
      DistBounds(b, j, c, k);
      DistBounds(a, i, c, k);
    } else if Dist(a, i, b, j) == Dist(a, i - 1, b, j) + 1 {
      hide Dist;
      DistTriangle(a, i - 1, b, j, c, k);
      DistStep(a, i, c, k);
    } else if Dist(b, j, c, k) == Dist(b, j, c, k - 1) + 1 {
      hide Dist;
      DistTriangle(a, i, b, j, c, k - 1);
      DistStep(a, i, c, k);
    } else {
      hide Dist;
      TriangleInside(a, i, b, j, c, k);
    }
  }

  /** Neither drops the last character of a first, nor adds the last one of c last. */
  lemma {:induction false} TriangleInside(a: string, i: nat, b: string, j: nat, c: string, k: nat)
    requires 0 < i <= |a| && 0 < j <= |b| && 0 < k <= |c|
    requires Dist(a, i, b, j) != Dist(a, i - 1, b, j) + 1 && Dist(b, j, c, k) != Dist(b, j, c, k - 1) + 1
    ensures Dist(a, i, c, k) <= Dist(a, i, b, j) + Dist(b, j, c, k)
    decreases i + j + k, 0
  {
    hide Dist;
    DistRule(a, i, b, j);
    DistRule(b, j, c, k);
    DistRule(a, i, c, k);
    if Dist(a, i, b, j) == Dist(a, i, b, j - 1) + 1 {
      if Dist(b, j, c, k) == Dist(b, j - 1, c, k) + 1 {
        DistTriangle(a, i, b, j - 1, c, k);
      } else {
        DistTriangle(a, i, b, j - 1, c, k - 1);
      }
    } else if Dist(b, j, c, k) == Dist(b, j - 1, c, k) + 1 {
      DistTriangle(a, i - 1, b, j - 1, c, k);
    } else {
      DistTriangle(a, i - 1, b, j - 1, c, k - 1);
    }
  }

  /** Only the compared prefixes matter. */
  lemma {:induction false} DistPrefix(a: string, a': string, i: nat, b: string, b': string, j: nat)
    requires i <= |a| && i <= |a'| && a[..i] == a'[..i]
    requires j <= |b| && j <= |b'| && b[..j] == b'[..j]
    ensures Dist(a, i, b, j) == Dist(a', i, b', j)
    decreases i + j
  {
    if i > 0 && j > 0 {
      assert a[i - 1] == a[..i][i - 1] == a'[i - 1] && b[j - 1] == b[..j][j - 1] == b'[j - 1];
      assert a[..i - 1] == a[..i][..i - 1] && a'[..i - 1] == a'[..i][..i - 1];
      assert b[..j - 1] == b[..j][..j - 1] && b'[..j - 1] == b'[..j][..j - 1];
      DistPrefix(a, a', i - 1, b, b', j);
      DistPrefix(a, a', i, b, b', j - 1);
      DistPrefix(a, a', i - 1, b, b', j - 1);
    }
  }

  /** A common suffix does not increase the distance. */
  lemma {:induction false} LevSuffix(p: string, q: string, suffix: string)
    ensures Lev(p + suffix, q + suffix) <= Lev(p, q)
    decreases |suffix|
  {
    if suffix == [] {
      assert p + suffix == p && q + suffix == q;
    } else {
      var n := |suffix| - 1;
      var front := suffix[..n];
      LevSuffix(p, q, front);
      var a, b := p + suffix, q + suffix;
      assert a == p + front + [suffix[n]] && b == q + front + [suffix[n]];
      DistPrefix(a, p + front, |a| - 1, b, q + front, |b| - 1);
    }
  }

  /** Extending a common string by at most one character on each side. */
  lemma OnePieceAtEnd(p: string, x: string, y: string)
    requires |x| <= 1 && |y| <= 1
    ensures Lev(p + x, p + y) <= 1
  {
    var a, b, n := p + x, p + y, |p|;
    assert a[..n] == b[..n];
    DistZero(a, n, b, n);
    if x != [] && y != [] {
      DistDiagonal(a, n + 1, b, n + 1);
    } else if x != [] {
      DistStep(a, n + 1, b, n);
    } else if y != [] {
      DistStep(a, n, b, n + 1);
    }
  }

  /** Replacing one piece of at most one character by another moves at most distance one. */
  lemma OnePiece(p: string, x: string, y: string, suffix: string)
    requires |x| <= 1 && |y| <= 1
    ensures Lev(p + x + suffix, p + y + suffix) <= 1
  {
    OnePieceAtEnd(p, x, y);
    LevSuffix(p + x, p + y, suffix);
  }

  lemma DistDiagonal(a: string, i: nat, b: string, j: nat)
    requires 0 < i <= |a| && 0 < j <= |b|
    ensures Dist(a, i, b, j) <= Dist(a, i - 1, b, j - 1) + 1
  {
  }

  /** One edit moves at most distance one. */
  lemma OneEdit(e: Edit, s: string)
    requires Applicable(e, s)
    ensures Lev(s, Apply(e, s)) <= 1
  {
    var p := s[..e.pos];
    match e
    case InsertChar(_, c) =>
      OnePiece(p, [], [c], s[e.pos..]);
      assert p + [] + s[e.pos..] == s;
    case DeleteChar(_) =>
      OnePiece(p, [s[e.pos]], [], s[e.pos + 1..]);
      assert p + [s[e.pos]] + s[e.pos + 1..] == s && p + [] + s[e.pos + 1..] == Apply(e, s);
    case ReplaceChar(_, c) =>
      OnePiece(p, [s[e.pos]], [c], s[e.pos + 1..]);
      assert p + [s[e.pos]] + s[e.pos + 1..] == s;
  }

  // ---- the recurrence gives the least number of edits ----

  lemma {:induction false} LevIsLowerBound(edits: seq<Edit>, a: string, b: string)
    requires Transforms(edits, a, b)
    ensures Lev(a, b) <= |edits|
    decreases |edits|
  {
    if edits == [] {
      assert a[..|a|] == b[..|b|];
      DistZero(a, |a|, b, |b|);
    } else {
      var a' := Apply(edits[0], a);
      LevIsLowerBound(edits[1..], a', b);
      OneEdit(edits[0], a);
      DistTriangle(a, |a|, a', |a'|, b, |b|);
    }
  }

  lemma ApplyWithTail(e: Edit, a: string, tail: string)
    requires Applicable(e, a)
    ensures Applicable(e, a + tail) && Apply(e, a + tail) == Apply(e, a) + tail
  {
    var p := e.pos;
    assert (a + tail)[..p] == a[..p];
    match e
    case InsertChar(_, c) =>
      assert (a + tail)[p..] == a[p..] + tail;
      assert (a[..p] + [c]) + (a[p..] + tail) == (a[..p] + [c] + a[p..]) + tail;
    case DeleteChar(_) =>
      assert (a + tail)[p + 1..] == a[p + 1..] + tail;
      assert a[..p] + (a[p + 1..] + tail) == (a[..p] + a[p + 1..]) + tail;
    case ReplaceChar(_, c) =>
      assert (a + tail)[p + 1..] == a[p + 1..] + tail;
      assert (a[..p] + [c]) + (a[p + 1..] + tail) == (a[..p] + [c] + a[p + 1..]) + tail;
  }

  /** Edits of a prefix leave what follows it in place. */
  lemma {:induction false} TransformsWithTail(edits: seq<Edit>, a: string, b: string, tail: string)
    requires Transforms(edits, a, b)
    ensures Transforms(edits, a + tail, b + tail)
    decreases |edits|
  {
    if edits != [] {
      ApplyWithTail(edits[0], a, tail);
      hide Apply, Applicable;
      TransformsWithTail(edits[1..], Apply(edits[0], a), b, tail);
    }
  }

  lemma {:induction false} TransformsThen(edits: seq<Edit>, a: string, b: string, e: Edit)
    requires Transforms(edits, a, b) && Applicable(e, b)
    ensures Transforms(edits + [e], a, Apply(e, b))
    decreases |edits|
  {
    if edits == [] {
      assert edits + [e] == [e] && [e][1..] == [];
    } else {
      assert (edits + [e])[1..] == edits[1..] + [e];
      TransformsThen(edits[1..], Apply(edits[0], a), b, e);
    }
  }

  datatype Move = Delete | Insert | Diagonal

  /** Where entry (i, j) gets its value from. */
  lemma DistSource(a: string, i: nat, b: string, j: nat) returns (m: Move)
    requires i <= |a| && j <= |b| && i + j > 0
    ensures match m
      case Delete => i > 0 && Dist(a, i, b, j) == Dist(a, i - 1, b, j) + 1
      case Insert => j > 0 && Dist(a, i, b, j) == Dist(a, i, b, j - 1) + 1
      case Diagonal =>
        i > 0 && j > 0 && Dist(a, i, b, j) == Dist(a, i - 1, b, j - 1) + Cost(a[i - 1], b[j - 1])
  {
    if i == 0 { m := Insert; }
    else if j == 0 { m := Delete; }
    else if Dist(a, i, b, j) == Dist(a, i - 1, b, j) + 1 { m := Delete; }
    else if Dist(a, i, b, j) == Dist(a, i, b, j - 1) + 1 { m := Insert; }
    else { m := Diagonal; }
  }

  /** Editing s into t, then appending x to s and y to t: one more edit unless x == y. */
  lemma DiagonalEdits(edits: seq<Edit>, s: string, x: char, t: string, y: char) returns (r: seq<Edit>)
    requires Transforms(edits, s, t)
    ensures |r| == |edits| + Cost(x, y) && Transforms(r, s + [x], t + [y])
  {
    TransformsWithTail(edits, s, t, [x]);
    if x == y {
      r := edits;
    } else {
      var last := ReplaceChar(|t|, y);
      TransformsThen(edits, s + [x], t + [x], last);
      assert Apply(last, t + [x]) == t + [y];
      r := edits + [last];
    }
  }

  lemma DeleteLast(edits: seq<Edit>, s: string, x: char, t: string) returns (r: seq<Edit>)
    requires Transforms(edits, s, t)
    ensures |r| == |edits| + 1 && Transforms(r, s + [x], t)
  {
    r := [DeleteChar(|s|)] + edits;
    assert Apply(r[0], s + [x]) == s && r[1..] == edits;
  }

  lemma InsertLast(edits: seq<Edit>, s: string, t: string, y: char) returns (r: seq<Edit>)
    requires Transforms(edits, s, t)
    ensures |r| == |edits| + 1 && Transforms(r, s, t + [y])
  {
    TransformsThen(edits, s, t, InsertChar(|t|, y));
    assert Apply(InsertChar(|t|, y), t) == t + [y];
    r := edits + [InsertChar(|t|, y)];
  }

  predicate AreOptimal(edits: seq<Edit>, a: string, i: nat, b: string, j: nat)
    requires i <= |a| && j <= |b|
  {
    |edits| == Dist(a, i, b, j) && Transforms(edits, a[..i], b[..j])
  }

  lemma OptimalDelete(rest: seq<Edit>, a: string, i: nat, b: string, j: nat) returns (edits: seq<Edit>)
    requires 0 < i <= |a| && j <= |b| && AreOptimal(rest, a, i - 1, b, j)
    requires Dist(a, i, b, j) == Dist(a, i - 1, b, j) + 1
    ensures AreOptimal(edits, a, i, b, j)
  {
    hide Transforms, Dist;
    edits := DeleteLast(rest, a[..i - 1], a[i - 1], b[..j]);
    assert a[..i - 1] + [a[i - 1]] == a[..i];
  }

  lemma OptimalInsert(front: seq<Edit>, a: string, i: nat, b: string, j: nat) returns (edits: seq<Edit>)
    requires i <= |a| && 0 < j <= |b| && AreOptimal(front, a, i, b, j - 1)
    requires Dist(a, i, b, j) == Dist(a, i, b, j - 1) + 1
    ensures AreOptimal(edits, a, i, b, j)
  {
    hide Transforms, Dist;
    edits := InsertLast(front, a[..i], b[..j - 1], b[j - 1]);
    assert b[..j - 1] + [b[j - 1]] == b[..j];
  }

  lemma OptimalDiagonal(front: seq<Edit>, a: string, i: nat, b: string, j: nat) returns (edits: seq<Edit>)
    requires 0 < i <= |a| && 0 < j <= |b| && AreOptimal(front, a, i - 1, b, j - 1)
    requires Dist(a, i, b, j) == Dist(a, i - 1, b, j - 1) + Cost(a[i - 1], b[j - 1])
    ensures AreOptimal(edits, a, i, b, j)
  {
    hide Transforms, Dist, Cost;
    edits := DiagonalEdits(front, a[..i - 1], a[i - 1], b[..j - 1], b[j - 1]);
    assert a[..i - 1] + [a[i - 1]] == a[..i] && b[..j - 1] + [b[j - 1]] == b[..j];
  }

  /** Edits as few as the table says. */
  lemma {:induction false} OptimalEdits(a: string, i: nat, b: string, j: nat) returns (edits: seq<Edit>)
    requires i <= |a| && j <= |b|
    ensures AreOptimal(edits, a, i, b, j)
    decreases i + j
  {
    if i + j == 0 {
      edits := [];
    } else {
      hide AreOptimal, Dist;
      var m := DistSource(a, i, b, j);
      match m
      case Delete =>
        var rest := OptimalEdits(a, i - 1, b, j);
        edits := OptimalDelete(rest, a, i, b, j);
      case Insert =>
        var front := OptimalEdits(a, i, b, j - 1);
        edits := OptimalInsert(front, a, i, b, j);
      case Diagonal =>
        var front := OptimalEdits(a, i - 1, b, j - 1);
        edits := OptimalDiagonal(front, a, i, b, j);
    }
  }

  lemma LevIsEditDistance(a: string, b: string)
    ensures IsEditDistance(a, b, Lev(a, b))
  {
    var edits := OptimalEdits(a, |a|, b, |b|);
    assert a[..|a|] == a && b[..|b|] == b;
    forall es | Transforms(es, a, b) ensures Lev(a, b) <= |es| {
      LevIsLowerBound(es, a, b);
    }
  }

  lemma DistanceIsUnique(a: string, b: string, d: int, d': int)
    requires IsEditDistance(a, b, d) && IsEditDistance(a, b, d')
    ensures d == d'
  {
    var e :| |e| == d && Transforms(e, a, b);
    var e' :| |e'| == d' && Transforms(e', a, b);
  }

  /** The least number of edits that lead from a to b. */
  ghost function EditDistance(a: string, b: string): int
    ensures IsEditDistance(a, b, EditDistance(a, b))
  {
    LevIsEditDistance(a, b);
    var d :| IsEditDistance(a, b, d);
    d
  }

  lemma EditDistanceIsLev(a: string, b: string)
    ensures EditDistance(a, b) == Lev(a, b)
  {
    LevIsEditDistance(a, b);
    DistanceIsUnique(a, b, EditDistance(a, b), Lev(a, b));
  }

  /** Edit distance is a metric, at least the difference of the lengths and at most the longer one. */
  lemma EditDistanceIsMetric(a: string, b: string, c: string)
    ensures EditDistance(a, b) == 0 <==> a == b
    ensures EditDistance(a, b) == EditDistance(b, a)
    ensures EditDistance(a, c) <= EditDistance(a, b) + EditDistance(b, c)
    ensures |a| - |b| <= EditDistance(a, b) && |b| - |a| <= EditDistance(a, b)
    ensures EditDistance(a, b) <= if |a| < |b| then |b| else |a|
  {
    EditDistanceIsLev(a, b);
    EditDistanceIsLev(b, c);
    EditDistanceIsLev(a, c);
    EditDistanceIsLev(b, a);
    LevLaws(a, b, c);
  }

  lemma LevLaws(a: string, b: string, c: string)
    ensures Lev(a, b) == 0 <==> a == b
    ensures Lev(a, b) == Lev(b, a)
    ensures Lev(a, c) <= Lev(a, b) + Lev(b, c)
    ensures |a| - |b| <= Lev(a, b) && |b| - |a| <= Lev(a, b)
    ensures Lev(a, b) <= if |a| < |b| then |b| else |a|
  {
    assert a[..|a|] == a && b[..|b|] == b;
    DistZero(a, |a|, b, |b|);
    DistSymmetric(a, |a|, b, |b|);
    DistTriangle(a, |a|, b, |b|, c, |c|);
    DistBounds(a, |a|, b, |b|);
  }

  // ---- the code ----

  /** The inner loop: row i of the table from row i - 1. */
  method NextRow(a: string, i: nat, b: string, prev: array<int>) returns (cur: array<int>)
    requires 1 <= i <= |a| && prev.Length == |b| + 1
    requires forall k :: 0 <= k <= |b| ==> prev[k] == Dist(a, i - 1, b, k)
    ensures cur.Length == |b| + 1
    ensures forall k :: 0 <= k <= |b| ==> cur[k] == Dist(a, i, b, k)
  {
    cur := new int[|b| + 1];
    cur[0] := i;
    assert Dist(a, i, b, 0) == i;
    hide Dist, Min3;
    var j := 1;
    while j <= |b|
      invariant 1 <= j <= |b| + 1
      invariant forall k :: 0 <= k <= |b| ==> prev[k] == Dist(a, i - 1, b, k)
      invariant forall k :: 0 <= k < j ==> cur[k] == Dist(a, i, b, k)
    {
      var cost := 1;
      if a[i - 1] == b[j - 1] { cost := 0; }
      DistRule(a, i, b, j);
      var next := Min3(prev[j] + 1, cur[j - 1] + 1, prev[j - 1] + cost);
      ghost var before := cur[..];
      cur[j] := next;
      assert forall k :: 0 <= k < j ==> cur[k] == before[k];
      j := j + 1;
    }
  }

  method Levenshtein(a: string, b: string) returns (d: int)
    ensures d == EditDistance(a, b)
  {
    EditDistanceIsLev(a, b);
    var prev := new int[|b| + 1];
    var j := 0;
    while j <= |b|
      invariant j <= |b| + 1
      invariant forall k :: 0 <= k < j ==> prev[k] == k
    {
      prev[j] := j;
      j := j + 1;
    }
    var i := 1;
    while i <= |a|
      invariant 1 <= i <= |a| + 1 && prev.Length == |b| + 1
      invariant forall k :: 0 <= k <= |b| ==> prev[k] == Dist(a, i - 1, b, k)
    {
      prev := NextRow(a, i, b, prev);
      i := i + 1;
    }
    return prev[|b|];
  }

  /** The lower-case mapping of single characters, left open: any table gives the results below. */
  const LOWER: map<char, char>

  function ToLower(s: string): (r: string)
    ensures |r| == |s|
  {
    seq(|s|, i requires 0 <= i < |s| => if s[i] in LOWER then LOWER[s[i]] else s[i])
  }

  ghost function Distance(name: string, candidate: string): int {
    EditDistance(ToLower(name), ToLower(candidate))
  }

  predicate SameButCase(a: string, b: string) {
    |a| == |b| && forall i :: 0 <= i < |a| ==>
      (if a[i] in LOWER then LOWER[a[i]] else a[i]) == if b[i] in LOWER then LOWER[b[i]] else b[i]
  }

  lemma SameButCaseIs(a: string, b: string)
    ensures ToLower(a) == ToLower(b) <==> SameButCase(a, b)
  {
    var x, y := ToLower(a), ToLower(b);
    if x == y {
      assert |x| == |a| && |y| == |b|;
      forall i | 0 <= i < |a|
        ensures (if a[i] in LOWER then LOWER[a[i]] else a[i]) == if b[i] in LOWER then LOWER[b[i]] else b[i]
      {
        assert x[i] == y[i];
      }
    }
  }

  /** Names are at distance zero exactly when they differ in nothing but the case of letters. */
  lemma CaseIsIgnored(name: string, candidate: string)
    ensures Distance(name, candidate) == 0 <==> SameButCase(name, candidate)
  {
    hide *;
    SameButCaseIs(name, candidate);
    DistanceIs(name, candidate);
    EditDistanceIsMetric(ToLower(name), ToLower(candidate), "");
  }

  /** Nearer, or as near and alphabetically earlier. */
  ghost predicate Better(name: string, c: string, d: string) {
    Distance(name, c) < Distance(name, d) || (Distance(name, c) == Distance(name, d) && Less(c, d))
  }

  /** The best candidate if it is close enough; independent of the order of the candidates. */
  ghost predicate IsSuggestion(name: string, candidates: seq<string>, r: Option<string>) {
    match r
    case Some(best) =>
      name != "" && best in candidates && Distance(name, best) <= (if |name| < 4 then 1 else 2) &&
      forall c :: c in candidates ==> c == best || Better(name, best, c)
    case None =>
      name == "" || forall c :: c in candidates ==> Distance(name, c) > if |name| < 4 then 1 else 2
  }

  /** The loop of closest. */
  method Nearest(name: string, candidates: seq<string>) returns (best: string, bestDist: int)
    requires candidates != []
    ensures IsBest(name, candidates, best) && bestDist == Distance(name, best)
  {
    hide *;
    var lname := ToLower(name);
    best, bestDist := "", -1;
    var i := 0;
    while i < |candidates|
      invariant i <= |candidates|
      invariant bestDist == -1 <==> i == 0
      invariant i > 0 ==> IsBest(name, candidates[..i], best) && bestDist == Distance(name, best)
    {
      var c := candidates[i];
      var d := Levenshtein(lname, ToLower(c));
      DistanceIs(name, c);
      NextBest(name, candidates[..i], best, c);
      assert candidates[..i + 1] == candidates[..i] + [c];
      if bestDist == -1 || d < bestDist || (d == bestDist && Less(c, best)) {
        best, bestDist := c, d;
      }
      i := i + 1;
    }
    assert candidates[..i] == candidates;
  }

  lemma DistanceIs(name: string, c: string)
    ensures Distance(name, c) == EditDistance(ToLower(name), ToLower(c)) >= 0
  {
  }

  method Closest(name: string, candidates: seq<string>) returns (r: Option<string>)
    ensures IsSuggestion(name, candidates, r)
  {
    hide Less, IsBest, EditDistance, IsSuggestion, ToLower, Better;
    if name == "" || candidates == [] {
      NothingToSuggest(name, candidates);
      return None;
    }
    var best, bestDist := Nearest(name, candidates);
    var threshold := 2;
    if |name| < 4 { threshold := 1; }
    BestIsSuggestion(name, candidates, best);
    DistanceIs(name, best);
    if bestDist >= 0 && bestDist <= threshold { return Some(best); }
    return None;
  }

  /** The nearest of the candidates, the alphabetically first one among several. */
  ghost predicate IsBest(name: string, candidates: seq<string>, best: string) {
    best in candidates && forall c :: c in candidates ==> c == best || Better(name, best, c)
  }

  lemma NextBest(name: string, before: seq<string>, best: string, c: string)
    requires before == [] || IsBest(name, before, best)
    ensures IsBest(name, before + [c], if before == [] || Distance(name, c) < Distance(name, best)
      || (Distance(name, c) == Distance(name, best) && Less(c, best)) then c else best)
  {
    hide Distance, Less, Better;
    if before != [] {
      BetterIsTotal(name, c, best);
      if Better(name, c, best) {
        forall d | d in before && d != c ensures Better(name, c, d) {
          BetterIsTransitive(name, c, best, d);
        }
      }
    }
  }

  lemma BestIsSuggestion(name: string, candidates: seq<string>, best: string)
    requires name != "" && IsBest(name, candidates, best)
    ensures IsSuggestion(name, candidates,
      if Distance(name, best) <= (if |name| < 4 then 1 else 2) then Some(best) else None)
  {
    hide Distance, Less, Better;
    forall c | c in candidates ensures Distance(name, best) <= Distance(name, c) {
      if c != best { BetterIsNearer(name, best, c); }
    }
  }

  lemma BetterIsNearer(name: string, c: string, d: string)
    requires Better(name, c, d)
    ensures Distance(name, c) <= Distance(name, d)
  {
  }

  lemma BetterIsTotal(name: string, c: string, d: string)
    ensures c == d || Better(name, c, d) || Better(name, d, c)
    ensures Better(name, c, d) <==>
      (Distance(name, c) < Distance(name, d) || (Distance(name, c) == Distance(name, d) && Less(c, d)))
  {
    hide Distance, Less;
    LessTotal(c, d);
  }

  lemma BetterIsTransitive(name: string, b: string, c: string, d: string)
    requires Better(name, b, c) && (d == c || Better(name, c, d))
    ensures Better(name, b, d)
  {
    hide Distance, Less;
    if Less(b, c) && Less(c, d) { LessTransitive(b, c, d); }
  }

  lemma NothingToSuggest(name: string, candidates: seq<string>)
    requires name == "" || candidates == []
    ensures IsSuggestion(name, candidates, None)
  {
  }

  /** Map iteration order cannot change the hint: only the set of candidates matters. */
  lemma SuggestionIsCanonical(name: string, a: seq<string>, ra: Option<string>, b: seq<string>, rb: Option<string>)
    requires forall c :: c in a <==> c in b
    requires IsSuggestion(name, a, ra) && IsSuggestion(name, b, rb)
    ensures ra == rb
  {
    if ra.Some? && rb.Some? && ra != rb {
      if Less(ra.value, rb.value) { LessAsymmetric(ra.value, rb.value); }
    }
  }
}
