/**
 When a cache key tells the arguments of a call apart (generator/di/proxy.go). fmt.Sprint turns every argument into a
 text, whatever its type, and the key is put together from these texts. So two questions matter: which texts a parameter
 can print, and whether its arguments print differently.
 */
module CacheKeyAmbiguity {
  import opened Model
  import opened CacheKey
  import V = Value

  predicate Uses(parts: seq<Part>, i: nat) {
    exists k :: 0 <= k < |parts| && parts[k] == Arg(i)
  }

  predicate EachUsedOnce(parts: seq<Part>) {
    forall k, l :: 0 <= k < l < |parts| && parts[k].Arg? ==> parts[k] != parts[l]
  }

  ghost predicate SameUsed<T(!new)>(parts: seq<Part>, a: seq<T>, b: seq<T>) {
    |a| == |b| && forall i :: 0 <= i < |a| && Uses(parts, i) ==> a[i] == b[i]
  }

  /** Each argument is one of those its parameter takes. */
  ghost predicate Among<T(!new)>(args: seq<T>, choices: seq<iset<T>>) {
    |args| == |choices| && forall i :: 0 <= i < |args| ==> args[i] in choices[i]
  }

  /** Different texts in the parameters that the key mentions give different keys; texts is what each can print. */
  ghost predicate Unambiguous(parts: seq<Part>, texts: seq<iset<string>>) {
    forall a: seq<string>, b: seq<string> ::
      Among(a, texts) && Among(b, texts) && KeyOf(parts, a) == KeyOf(parts, b) ==> SameUsed(parts, a, b)
  }

  /** Two arguments with only literals between them. */
  predicate Neighbours(parts: seq<Part>, p: int, q: int) {
    && 0 <= p < q < |parts| && parts[p].Arg? && parts[q].Arg?
    && forall k :: p < k < q ==> parts[k].Text?
  }

  /** The literals between them, as they stand in every key. */
  function Separator(parts: seq<Part>, p: nat, q: nat): string
    requires p < q <= |parts|
  {
    KeyOf(parts[p + 1..q], [])
  }

  // ---- keys of concatenated parts ----

  function TextAt(parts: seq<Part>, p: nat, args: seq<string>): string
    requires p < |parts|
  {
    match parts[p]
    case Text(text) => text
    case Arg(i) => if i < |args| then args[i] else ""
  }

  lemma FirstAndRest(parts: seq<Part>, args: seq<string>)
    requires parts != []
    ensures KeyOf(parts, args) == TextAt(parts, 0, args) + KeyOf(parts[1..], args)
  {
  }

  lemma {:induction false} KeyOfConcat(x: seq<Part>, y: seq<Part>, args: seq<string>)
    ensures KeyOf(x + y, args) == KeyOf(x, args) + KeyOf(y, args)
  {
    if x == [] {
      assert x + y == y && "" + KeyOf(y, args) == KeyOf(y, args);
    } else {
      hide KeyOf;
      KeyOfConcat(x[1..], y, args);
      FirstAndRest(x, args);
      FirstAndRest(x + y, args);
      assert (x + y)[1..] == x[1..] + y && TextAt(x + y, 0, args) == TextAt(x, 0, args);
      Associative(TextAt(x, 0, args), KeyOf(x[1..], args), KeyOf(y, args));
    }
  }

  lemma Associative(x: string, y: string, z: string)
    ensures (x + y) + z == x + (y + z)
  {
  }

  lemma KeyOfSplit(parts: seq<Part>, p: nat, args: seq<string>)
    requires p <= |parts|
    ensures KeyOf(parts, args) == KeyOf(parts[..p], args) + KeyOf(parts[p..], args)
  {
    assert parts[..p] + parts[p..] == parts;
    KeyOfConcat(parts[..p], parts[p..], args);
  }

  lemma {:induction false} LiteralsIgnoreArguments(parts: seq<Part>, args: seq<string>)
    requires forall k :: 0 <= k < |parts| ==> parts[k].Text?
    ensures KeyOf(parts, args) == KeyOf(parts, [])
  {
    if parts != [] {
      LiteralsIgnoreArguments(parts[1..], args);
    }
  }

  /** The key as its pieces around two neighbours. */
  lemma KeyAround(parts: seq<Part>, p: nat, q: nat, args: seq<string>)
    requires Neighbours(parts, p, q)
    ensures KeyOf(parts, args) == KeyOf(parts[..p + 1], args) + Separator(parts, p, q) + KeyOf(parts[q..], args)
  {
    hide KeyOf;
    KeyOfSplit(parts, q, args);
    KeyOfSplit(parts[..q], p + 1, args);
    assert parts[..q][..p + 1] == parts[..p + 1] && parts[..q][p + 1..] == parts[p + 1..q];
    LiteralsIgnoreArguments(parts[p + 1..q], args);
  }

  lemma FrontAndLast(parts: seq<Part>, args: seq<string>)
    requires parts != []
    ensures KeyOf(parts, args) == KeyOf(parts[..|parts| - 1], args) + TextAt(parts, |parts| - 1, args)
  {
    var last := parts[|parts| - 1..];
    KeyOfSplit(parts, |parts| - 1, args);
    FirstAndRest(last, args);
    assert last[1..] == [] && TextAt(last, 0, args) + "" == TextAt(parts, |parts| - 1, args);
  }

  lemma {:induction false} KeyDependsOnUsed(parts: seq<Part>, a: seq<string>, b: seq<string>)
    requires SameUsed(parts, a, b)
    ensures KeyOf(parts, a) == KeyOf(parts, b)
  {
    if parts != [] {
      if parts[0].Arg? { assert Uses(parts, parts[0].index); }
      FewerAreUsed(parts, 1, |parts|, a, b);
      assert parts[1..|parts|] == parts[1..];
      KeyDependsOnUsed(parts[1..], a, b);
    }
  }

  lemma FewerAreUsed(parts: seq<Part>, lo: nat, hi: nat, a: seq<string>, b: seq<string>)
    requires lo <= hi <= |parts| && SameUsed(parts, a, b)
    ensures SameUsed(parts[lo..hi], a, b)
  {
    forall i | 0 <= i < |a| && Uses(parts[lo..hi], i) ensures a[i] == b[i] {
      var k :| 0 <= k < hi - lo && parts[lo..hi][k] == Arg(i);
      assert parts[lo + k] == Arg(i);
    }
  }

  // ---- keys that are read from both ends ----

  /** No text of parameter i contains c. */
  ghost predicate Foreign(c: char, texts: seq<iset<string>>, i: nat) {
    i < |texts| ==> forall t :: t in texts[i] ==> c !in t
  }

  /** The separator behind position p, before q, has a character that parameter i never prints. */
  ghost predicate Marked(parts: seq<Part>, texts: seq<iset<string>>, p: nat, q: nat, i: nat)
    requires p < q <= |parts|
  {
    exists c :: c in Separator(parts, p, q) && Foreign(c, texts, i)
  }

  /** Of two neighbours, the parameter that the separator has to mark. */
  function Side(parts: seq<Part>, m: nat, p: nat, q: nat): nat
    requires Neighbours(parts, p, q)
  {
    if p < m then parts[p].index else parts[q].index
  }

  /**
   Between two arguments stands a character that one of the two never prints: the one in front for separators that begin
   before position m, the one behind for the others. So every argument is delimited from one end of the key or the
   other.
   */
  ghost predicate Separated(parts: seq<Part>, texts: seq<iset<string>>, m: nat) {
    forall p: nat, q: nat :: Neighbours(parts, p, q) ==>
      Marked(parts, texts, p, q, Side(parts, m, p, q))
  }

  lemma RestIsSeparated(parts: seq<Part>, texts: seq<iset<string>>, m: nat)
    requires parts != [] && m > 0 && Separated(parts, texts, m)
    ensures Separated(parts[1..], texts, m - 1)
  {
    var rest := parts[1..];
    forall p: nat, q: nat | Neighbours(rest, p, q)
      ensures Marked(rest, texts, p, q, Side(rest, m - 1, p, q))
    {
      assert forall k :: p < k < q ==> rest[k] == parts[k + 1];
      assert forall k :: p + 1 < k < q + 1 ==> parts[k] == rest[k - 1];
      assert Neighbours(parts, p + 1, q + 1);
      assert parts[p + 2..q + 1] == rest[p + 1..q];
      assert Marked(parts, texts, p + 1, q + 1, Side(parts, m, p + 1, q + 1));
    }
  }

  lemma FrontIsSeparated(parts: seq<Part>, texts: seq<iset<string>>)
    requires parts != [] && Separated(parts, texts, 0)
    ensures Separated(parts[..|parts| - 1], texts, 0)
  {
    var front := parts[..|parts| - 1];
    forall p: nat, q: nat | Neighbours(front, p, q)
      ensures Marked(front, texts, p, q, Side(front, 0, p, q))
    {
      assert forall k :: p < k < q ==> front[k] == parts[k];
      assert Neighbours(parts, p, q);
      assert parts[p + 1..q] == front[p + 1..q];
      assert Marked(parts, texts, p, q, Side(parts, 0, p, q));
    }
  }

  /** The first argument after position p, if there is one. */
  lemma {:induction false} NextNeighbour(parts: seq<Part>, p: nat, l: nat) returns (q: nat)
    requires p < l < |parts| && parts[p].Arg? && parts[l].Arg?
    ensures Neighbours(parts, p, q)
  {
    q := p + 1;
    while !parts[q].Arg?
      invariant p < q <= l && forall k :: p < k < q ==> parts[k].Text?
      decreases l - q
    {
      q := q + 1;
    }
  }

  /** The last argument before position q, if there is one. */
  lemma {:induction false} PreviousNeighbour(parts: seq<Part>, l: nat, q: nat) returns (p: nat)
    requires l < q < |parts| && parts[l].Arg? && parts[q].Arg?
    ensures Neighbours(parts, p, q)
  {
    p := q - 1;
    while !parts[p].Arg?
      invariant l <= p < q && forall k :: p < k < q ==> parts[k].Text?
      decreases p
    {
      p := p - 1;
    }
  }

  /** A mark that occurs in neither x nor x' ends both at the same place. */
  lemma MarkEndsText(x: string, x': string, m: string, r: string, r': string, c: char)
    requires x + (m + r) == x' + (m + r') && c in m && c !in x && c !in x'
    ensures x == x' && r == r'
  {
    if |x| <= |x'| {
      NotLonger(x, x', m, r, r', c);
    } else {
      NotLonger(x', x, m, r', r, c);
    }
    SameLengthInFront(x, x', m + r, m + r');
    SameLengthInFront(m, m, r, r');
  }

  lemma NotLonger(x: string, x': string, m: string, r: string, r': string, c: char)
    requires x + (m + r) == x' + (m + r') && c in m && c !in x && c !in x' && |x| <= |x'|
    ensures |x| == |x'|
  {
    var k := FirstOf(m, c);
    var key := x + (m + r);
    assert key[|x| + k] == c;
    assert key == x' + (m + r');
    assert |x| + k >= |x'| by { assert forall j :: 0 <= j < |x'| ==> key[j] == x'[j]; }
    assert key[|x| + k] == (m + r')[|x| + k - |x'|] == m[|x| + k - |x'|];
  }

  lemma SameLengthInFront(x: string, x': string, r: string, r': string)
    requires x + r == x' + r' && (|x| == |x'| || |r| == |r'|)
    ensures x == x' && r == r'
  {
    assert |x + r| == |x| + |r| && |x' + r'| == |x'| + |r'|;
    assert (x + r)[..|x|] == x && (x' + r')[..|x|] == x';
    assert (x + r)[|x|..] == r && (x' + r')[|x|..] == r';
  }

  lemma FirstOf(m: string, c: char) returns (k: nat)
    requires c in m
    ensures k < |m| && m[k] == c && forall j :: 0 <= j < k ==> m[j] != c
  {
    k := 0;
    while m[k] != c
      invariant k < |m| && forall j :: 0 <= j < k ==> m[j] != c
      decreases |m| - k
    {
      k := k + 1;
    }
  }

  function Reversed(s: string): (r: string)
    ensures |r| == |s| && forall k :: 0 <= k < |s| ==> r[k] == s[|s| - 1 - k]
  {
    seq(|s|, k requires 0 <= k < |s| => s[|s| - 1 - k])
  }

  lemma ReversedConcat(x: string, y: string)
    ensures Reversed(x + y) == Reversed(y) + Reversed(x)
  {
  }

  lemma ReversedTwice(x: string)
    ensures Reversed(Reversed(x)) == x
  {
  }

  /** The same from the other end. */
  lemma MarkBeginsText(l: string, l': string, m: string, x: string, x': string, c: char)
    requires l + m + x == l' + m + x' && c in m && c !in x && c !in x'
    ensures x == x' && l == l'
  {
    ReversedConcat(l + m, x);
    ReversedConcat(l, m);
    ReversedConcat(l' + m, x');
    ReversedConcat(l', m);
    var k := FirstOf(m, c);
    assert Reversed(m)[|m| - 1 - k] == c;
    assert c !in Reversed(x) && c !in Reversed(x');
    MarkEndsText(Reversed(x), Reversed(x'), Reversed(m), Reversed(l), Reversed(l'), c);
    ReversedTwice(x);
    ReversedTwice(x');
    ReversedTwice(l);
    ReversedTwice(l');
  }

  lemma NoForeign(c: char, args: seq<string>, texts: seq<iset<string>>, parts: seq<Part>, p: nat)
    requires p < |parts| && parts[p].Arg? && Among(args, texts) && Foreign(c, texts, parts[p].index)
    ensures c !in TextAt(parts, p, args)
  {
  }

  /** The first part of two equal keys is equal: its text ends at the mark behind it or at the end of the key. */
  lemma FirstIsRead(parts: seq<Part>, texts: seq<iset<string>>, m: nat, a: seq<string>, b: seq<string>)
    requires parts != [] && m > 0 && Separated(parts, texts, m)
    requires Among(a, texts) && Among(b, texts) && KeyOf(parts, a) == KeyOf(parts, b)
    ensures TextAt(parts, 0, a) == TextAt(parts, 0, b) && KeyOf(parts[1..], a) == KeyOf(parts[1..], b)
  {
    hide KeyOf, Among, Foreign;
    FirstAndRest(parts, a);
    FirstAndRest(parts, b);
    var x, x' := TextAt(parts, 0, a), TextAt(parts, 0, b);
    if parts[0].Arg? {
      if l: nat :| 0 < l < |parts| && parts[l].Arg? {
        var q := NextNeighbour(parts, 0, l);
        KeyAroundFirst(parts, q, a);
        KeyAroundFirst(parts, q, b);
        assert Marked(parts, texts, 0, q, parts[0].index);
        var c :| c in Separator(parts, 0, q) && Foreign(c, texts, parts[0].index);
        NoForeign(c, a, texts, parts, 0);
        NoForeign(c, b, texts, parts, 0);
        MarkEndsText(x, x', Separator(parts, 0, q), KeyOf(parts[q..], a), KeyOf(parts[q..], b), c);
      } else {
        LiteralsIgnoreArguments(parts[1..], a);
        LiteralsIgnoreArguments(parts[1..], b);
      }
    }
    SameLengthInFront(x, x', KeyOf(parts[1..], a), KeyOf(parts[1..], b));
  }

  lemma KeyAroundFirst(parts: seq<Part>, q: nat, args: seq<string>)
    requires Neighbours(parts, 0, q)
    ensures KeyOf(parts, args) == TextAt(parts, 0, args) + (Separator(parts, 0, q) + KeyOf(parts[q..], args))
  {
    hide KeyOf;
    FirstAndRest(parts, args);
    KeyOfSplit(parts[1..], q - 1, args);
    assert parts[1..][..q - 1] == parts[1..q] && parts[1..][q - 1..] == parts[q..];
    LiteralsIgnoreArguments(parts[1..q], args);
  }

  /** The same for the last part. */
  lemma LastIsRead(parts: seq<Part>, texts: seq<iset<string>>, a: seq<string>, b: seq<string>)
    requires parts != [] && Separated(parts, texts, 0)
    requires Among(a, texts) && Among(b, texts) && KeyOf(parts, a) == KeyOf(parts, b)
    ensures var last := |parts| - 1;
      TextAt(parts, last, a) == TextAt(parts, last, b) && KeyOf(parts[..last], a) == KeyOf(parts[..last], b)
  {
    hide KeyOf, Among, Foreign;
    var q := |parts| - 1;
    FrontAndLast(parts, a);
    FrontAndLast(parts, b);
    var x, x' := TextAt(parts, q, a), TextAt(parts, q, b);
    if parts[q].Arg? {
      if l: nat :| l < q && parts[l].Arg? {
        var p := PreviousNeighbour(parts, l, q);
        KeyAroundLast(parts, p, a);
        KeyAroundLast(parts, p, b);
        assert Marked(parts, texts, p, q, parts[q].index);
        var c :| c in Separator(parts, p, q) && Foreign(c, texts, parts[q].index);
        NoForeign(c, a, texts, parts, q);
        NoForeign(c, b, texts, parts, q);
        MarkBeginsText(KeyOf(parts[..p + 1], a), KeyOf(parts[..p + 1], b), Separator(parts, p, q), x, x', c);
      } else {
        LiteralsIgnoreArguments(parts[..q], a);
        LiteralsIgnoreArguments(parts[..q], b);
      }
    }
    SameLengthInFront(KeyOf(parts[..q], a), KeyOf(parts[..q], b), x, x');
  }

  lemma KeyAroundLast(parts: seq<Part>, p: nat, args: seq<string>)
    requires Neighbours(parts, p, |parts| - 1)
    ensures KeyOf(parts, args)
         == KeyOf(parts[..p + 1], args) + Separator(parts, p, |parts| - 1) + TextAt(parts, |parts| - 1, args)
  {
    hide KeyOf;
    var q := |parts| - 1;
    FrontAndLast(parts, args);
    KeyOfSplit(parts[..q], p + 1, args);
    assert parts[..q][..p + 1] == parts[..p + 1] && parts[..q][p + 1..] == parts[p + 1..q];
    LiteralsIgnoreArguments(parts[p + 1..q], args);
  }

  lemma {:induction false} SeparatedIsRead(parts: seq<Part>, texts: seq<iset<string>>, m: nat,
      a: seq<string>, b: seq<string>)
    requires Separated(parts, texts, m)
    requires Among(a, texts) && Among(b, texts) && KeyOf(parts, a) == KeyOf(parts, b)
    ensures SameUsed(parts, a, b)
    decreases |parts|
  {
    hide KeyOf, Separated;
    if parts == [] {
    } else if m > 0 {
      FirstIsRead(parts, texts, m, a, b);
      RestIsSeparated(parts, texts, m);
      SeparatedIsRead(parts[1..], texts, m - 1, a, b);
      OneMoreIsRead(parts, 0, parts[1..], a, b);
    } else {
      var last := |parts| - 1;
      LastIsRead(parts, texts, a, b);
      FrontIsSeparated(parts, texts);
      SeparatedIsRead(parts[..last], texts, 0, a, b);
      OneMoreIsRead(parts, last, parts[..last], a, b);
    }
  }

  lemma OneMoreIsRead(parts: seq<Part>, k: nat, others: seq<Part>, a: seq<string>, b: seq<string>)
    requires k < |parts| && TextAt(parts, k, a) == TextAt(parts, k, b) && SameUsed(others, a, b)
    requires forall l :: 0 <= l < |parts| && l != k ==> parts[l] in others
    ensures SameUsed(parts, a, b)
  {
  }

  /**
   Keys tell the texts of their arguments apart when the separators delimit them. With m == 0 each separator has to mark
   the argument behind it, with m == |parts| the argument in front of it.
   */
  lemma SeparatedIsUnambiguous(parts: seq<Part>, texts: seq<iset<string>>, m: nat)
    requires Separated(parts, texts, m)
    ensures Unambiguous(parts, texts)
  {
    forall a: seq<string>, b: seq<string> | Among(a, texts) && Among(b, texts) && KeyOf(parts, a) == KeyOf(parts, b)
      ensures SameUsed(parts, a, b)
    {
      SeparatedIsRead(parts, texts, m, a, b);
    }
  }

  // ---- parameters that print every text over some characters ----

  ghost function Over(alphabet: char -> bool): iset<string> {
    iset s: string | forall k :: 0 <= k < |s| ==> alphabet(s[k])
  }

  ghost function AllOver(alphabets: seq<char -> bool>): (texts: seq<iset<string>>)
    ensures |texts| == |alphabets| && forall i :: 0 <= i < |texts| ==> texts[i] == Over(alphabets[i])
  {
    seq(|alphabets|, i requires 0 <= i < |alphabets| => Over(alphabets[i]))
  }

  /** The separator consists of characters that both parameters print, and there is such a character at all. */
  ghost predicate Blurs(separator: string, x: char -> bool, y: char -> bool) {
    (forall c :: c in separator ==> x(c) && y(c)) && exists c :: x(c) && y(c)
  }

  /** With a separator m, ("", m) and (m, "") give the same key; with an empty one, ("", "c") and ("c", ""). */
  lemma BlurredIsAmbiguous(parts: seq<Part>, alphabets: seq<char -> bool>, p: nat, q: nat)
    requires EachUsedOnce(parts) && Neighbours(parts, p, q)
    requires parts[p].index < |alphabets| && parts[q].index < |alphabets|
    requires Blurs(Separator(parts, p, q), alphabets[parts[p].index], alphabets[parts[q].index])
    ensures !Unambiguous(parts, AllOver(alphabets))
  {
    var i, j := parts[p].index, parts[q].index;
    var mid := Separator(parts, p, q);
    var c :| alphabets[i](c) && alphabets[j](c);
    var m := if mid == "" then [c] else mid;
    var none: seq<string> := seq(|alphabets|, _ => "");
    DifferentIndexes(parts, p, q);
    SameKey(parts, p, q, none, m);
    OverGivesAmong(none, alphabets, j, m);
    OverGivesAmong(none, alphabets, i, m);
    assert Uses(parts, i);
    hide *;
    assert none[j := m][i] != none[i := m][i];
    ToldByNone(parts, AllOver(alphabets), none[j := m], none[i := m], i);
  }

  lemma OverGivesAmong(none: seq<string>, alphabets: seq<char -> bool>, i: nat, m: string)
    requires |none| == |alphabets| && forall k :: 0 <= k < |none| ==> none[k] == ""
    requires i < |none| && m in Over(alphabets[i])
    ensures Among(none[i := m], AllOver(alphabets))
  {
  }

  lemma ToldByNone(parts: seq<Part>, texts: seq<iset<string>>, a: seq<string>, b: seq<string>, i: nat)
    requires Among(a, texts) && Among(b, texts) && KeyOf(parts, a) == KeyOf(parts, b)
    requires i < |texts| && i < |a| && i < |b| && Uses(parts, i) && a[i] != b[i]
    ensures !Unambiguous(parts, texts)
  {
  }

  lemma SameKey(parts: seq<Part>, p: nat, q: nat, none: seq<string>, m: string)
    requires EachUsedOnce(parts) && Neighbours(parts, p, q)
    requires parts[p].index < |none| && parts[q].index < |none|
    requires none[parts[p].index] == none[parts[q].index] == "" && Separator(parts, p, q) in {"", m}
    ensures KeyOf(parts, none[parts[q].index := m]) == KeyOf(parts, none[parts[p].index := m])
  {
    var a, b := none[parts[q].index := m], none[parts[p].index := m];
    DifferentIndexes(parts, p, q);
    KeyOfPair(parts, p, q, a, none);
    KeyOfPair(parts, p, q, b, none);
    assert TextAt(parts, p, a) == "" == TextAt(parts, q, b) && TextAt(parts, q, a) == m == TextAt(parts, p, b);
    hide KeyOf, Separator, EachUsedOnce, TextAt;
    SameAssembled(KeyOf(parts[..p], none), Separator(parts, p, q), m, KeyOf(parts[q + 1..], none));
  }

  lemma DifferentIndexes(parts: seq<Part>, p: nat, q: nat)
    requires EachUsedOnce(parts) && Neighbours(parts, p, q)
    ensures parts[p].index != parts[q].index
  {
  }

  lemma SameAssembled(l: string, mid: string, m: string, r: string)
    requires mid == "" || mid == m
    ensures l + "" + mid + (m + r) == l + m + mid + ("" + r)
  {
    assert l + "" == l && "" + r == r;
    if mid == "" { assert l + mid + (m + r) == l + m + mid + r; }
  }

  /** The key, if no argument but those at p and q differs from none. */
  lemma KeyOfPair(parts: seq<Part>, p: nat, q: nat, args: seq<string>, none: seq<string>)
    requires EachUsedOnce(parts) && Neighbours(parts, p, q) && |args| == |none|
    requires forall k :: 0 <= k < |none| && k != parts[p].index && k != parts[q].index ==> args[k] == none[k]
    ensures KeyOf(parts, args) == KeyOf(parts[..p], none) + TextAt(parts, p, args) + Separator(parts, p, q)
      + (TextAt(parts, q, args) + KeyOf(parts[q + 1..], none))
  {
    UsedElsewhere(parts, p, q, args, none);
    hide KeyOf, EachUsedOnce, Separator;
    KeyAround(parts, p, q, args);
    FrontAndLast(parts[..p + 1], args);
    assert parts[..p + 1][..p] == parts[..p];
    FirstAndRest(parts[q..], args);
    assert parts[q..][1..] == parts[q + 1..];
    KeyDependsOnUsed(parts[..p], args, none);
    KeyDependsOnUsed(parts[q + 1..], args, none);
  }

  lemma UsedElsewhere(parts: seq<Part>, p: nat, q: nat, args: seq<string>, none: seq<string>)
    requires EachUsedOnce(parts) && Neighbours(parts, p, q) && |args| == |none|
    requires forall k :: 0 <= k < |none| && k != parts[p].index && k != parts[q].index ==> args[k] == none[k]
    ensures SameUsed(parts[..p], args, none) && SameUsed(parts[q + 1..], args, none)
  {
  }

  /**
   Two parameters are told apart exactly when the separator has a character that one of them never prints, or is empty
   between parameters that print no common character.
   */
  lemma TwoParametersIff(parts: seq<Part>, alphabets: seq<char -> bool>, p: nat, q: nat)
    requires EachUsedOnce(parts) && Neighbours(parts, p, q)
    requires forall k :: 0 <= k < |parts| && parts[k].Arg? ==> k == p || k == q
    requires parts[p].index < |alphabets| && parts[q].index < |alphabets|
    ensures Unambiguous(parts, AllOver(alphabets))
      <==> !Blurs(Separator(parts, p, q), alphabets[parts[p].index], alphabets[parts[q].index])
  {
    var sep, x, y := Separator(parts, p, q), alphabets[parts[p].index], alphabets[parts[q].index];
    if c :| c in sep && !(x(c) && y(c)) {
      OneMarkSuffices(parts, alphabets, p, q, c);
    } else if sep != "" || exists c :: x(c) && y(c) {
      if sep != "" { assert sep[0] in sep; }
      BlurredIsAmbiguous(parts, alphabets, p, q);
    } else {
      forall a: seq<string>, b: seq<string>
        | Among(a, AllOver(alphabets)) && Among(b, AllOver(alphabets)) && KeyOf(parts, a) == KeyOf(parts, b)
        ensures SameUsed(parts, a, b)
      {
        DisjointAreRead(parts, p, q, a, b, alphabets);
      }
    }
  }

  lemma OneMarkSuffices(parts: seq<Part>, alphabets: seq<char -> bool>, p: nat, q: nat, c: char)
    requires Neighbours(parts, p, q)
    requires forall k :: 0 <= k < |parts| && parts[k].Arg? ==> k == p || k == q
    requires parts[p].index < |alphabets| && parts[q].index < |alphabets|
    requires c in Separator(parts, p, q) && !(alphabets[parts[p].index](c) && alphabets[parts[q].index](c))
    ensures Unambiguous(parts, AllOver(alphabets))
  {
    hide KeyOf, Separator;
    var texts := AllOver(alphabets);
    var m := if alphabets[parts[p].index](c) then 0 else q;
    OutsideIsForeign(c, alphabets, Side(parts, m, p, q));
    assert Separated(parts, texts, m);
    SeparatedIsUnambiguous(parts, texts, m);
  }

  lemma OutsideIsForeign(c: char, alphabets: seq<char -> bool>, i: nat)
    requires i < |alphabets| && !alphabets[i](c)
    ensures Foreign(c, AllOver(alphabets), i)
  {
  }

  lemma DisjointAreRead(parts: seq<Part>, p: nat, q: nat, a: seq<string>, b: seq<string>, alphabets: seq<char -> bool>)
    requires EachUsedOnce(parts) && Neighbours(parts, p, q) && Separator(parts, p, q) == ""
    requires forall k :: 0 <= k < |parts| && parts[k].Arg? ==> k == p || k == q
    requires Among(a, AllOver(alphabets)) && Among(b, AllOver(alphabets)) && KeyOf(parts, a) == KeyOf(parts, b)
    requires parts[p].index < |alphabets| && parts[q].index < |alphabets|
    requires forall c :: alphabets[parts[p].index](c) ==> !alphabets[parts[q].index](c)
    ensures SameUsed(parts, a, b)
  {
    var i, j := parts[p].index, parts[q].index;
    var left, right := KeyOf(parts[..p], []), KeyOf(parts[q + 1..], []);
    KeyOfOnlyPair(parts, p, q, a);
    KeyOfOnlyPair(parts, p, q, b);
    hide KeyOf, Separator, EachUsedOnce, Over;
    SameLengthInFront(left, left, (a[i] + a[j]) + right, (b[i] + b[j]) + right);
    SameLengthInFront(a[i] + a[j], b[i] + b[j], right, right);
    DisjointSplit(a[i], a[j], b[i], b[j], alphabets[i], alphabets[j]);
  }

  lemma KeyOfOnlyPair(parts: seq<Part>, p: nat, q: nat, args: seq<string>)
    requires EachUsedOnce(parts) && Neighbours(parts, p, q) && Separator(parts, p, q) == ""
    requires forall k :: 0 <= k < |parts| && parts[k].Arg? ==> k == p || k == q
    requires parts[p].index < |args| && parts[q].index < |args|
    ensures KeyOf(parts, args) == KeyOf(parts[..p], [])
      + ((args[parts[p].index] + args[parts[q].index]) + KeyOf(parts[q + 1..], []))
  {
    hide KeyOf, Separator, EachUsedOnce;
    KeyOfPair(parts, p, q, args, args);
    LiteralsIgnoreArguments(parts[..p], args);
    LiteralsIgnoreArguments(parts[q + 1..], args);
    Regroup(KeyOf(parts[..p], []), args[parts[p].index], args[parts[q].index], KeyOf(parts[q + 1..], []));
  }

  lemma Regroup(l: string, s: string, t: string, r: string)
    ensures l + s + "" + (t + r) == l + ((s + t) + r)
  {
  }

  /** Where a longer first text ends, a character of it is one of the second. */
  lemma LongerIsCommon(s: string, t: string, s': string, t': string, x: char -> bool, y: char -> bool)
    requires s + t == s' + t' && s' in Over(x) && t in Over(y) && |s| < |s'|
    ensures exists c :: x(c) && y(c)
  {
    assert |s| + |t| == |s + t| == |s'| + |t'|;
    assert s'[|s|] == (s' + t')[|s|] == (s + t)[|s|] == t[0];
    assert x(s'[|s|]) && y(t[0]);
  }

  lemma DisjointSplit(s: string, t: string, s': string, t': string, x: char -> bool, y: char -> bool)
    requires s + t == s' + t' && s in Over(x) && s' in Over(x) && t in Over(y) && t' in Over(y)
    requires forall c :: x(c) ==> !y(c)
    ensures s == s' && t == t'
  {
    if |s| < |s'| {
      LongerIsCommon(s, t, s', t', x, y);
    } else if |s'| < |s| {
      LongerIsCommon(s', t', s, t, x, y);
    }
    SameLengthInFront(s, s', t, t');
  }

  lemma OnlyEmptyOver(alphabet: char -> bool)
    requires forall c :: !alphabet(c)
    ensures forall s :: s in Over(alphabet) ==> s == ""
  {
    forall s: string | s != "" ensures s !in Over(alphabet) {
      assert !alphabet(s[0]);
    }
  }

  /** Over one alphabet, and for any number of parameters, every separator has to have a character outside it. */
  lemma OneAlphabetIff(parts: seq<Part>, n: nat, alphabet: char -> bool)
    requires EachUsedOnce(parts) && forall i: nat :: Uses(parts, i) ==> i < n
    ensures Unambiguous(parts, AllOver(seq(n, _ => alphabet)))
      <==> forall p: nat, q: nat :: Neighbours(parts, p, q) ==> !Blurs(Separator(parts, p, q), alphabet, alphabet)
  {
    var alphabets := seq(n, _ => alphabet);
    var texts := AllOver(alphabets);
    if p: nat, q: nat :| Neighbours(parts, p, q) && Blurs(Separator(parts, p, q), alphabet, alphabet) {
      assert Uses(parts, parts[p].index) && Uses(parts, parts[q].index);
      BlurredIsAmbiguous(parts, alphabets, p, q);
    } else if c :| alphabet(c) {
      forall p: nat, q: nat | Neighbours(parts, p, q)
        ensures Marked(parts, texts, p, q, Side(parts, |parts|, p, q))
      {
        var d :| d in Separator(parts, p, q) && !alphabet(d);
        assert Foreign(d, texts, parts[p].index);
      }
      SeparatedIsUnambiguous(parts, texts, |parts|);
    } else {
      OnlyEmptyOver(alphabet);
    }
  }

  predicate AnyCharacter(c: char) {
    true
  }

  /** Parameters of type string print every text. */
  ghost function Strings(n: nat): (texts: seq<iset<string>>)
    ensures |texts| == n && forall i, s: string :: 0 <= i < n ==> s in texts[i]
  {
    AllOver(seq(n, _ => AnyCharacter))
  }

  /**
   When no parameter is mentioned twice and all are strings, keys are unambiguous exactly when at most one is mentioned:
   "user:#{tenant}:#{id}" gives the same key for ("", ":") and (":", "").
   */
  lemma StringKeysAreUnambiguousIffOneParameter(parts: seq<Part>, n: nat)
    requires EachUsedOnce(parts) && forall i: nat :: Uses(parts, i) ==> i < n
    ensures Unambiguous(parts, Strings(n)) <==>
      forall k, l :: 0 <= k < l < |parts| ==> !(parts[k].Arg? && parts[l].Arg?)
  {
    OneAlphabetIff(parts, n, AnyCharacter);
    forall p: nat, q: nat | Neighbours(parts, p, q) ensures Blurs(Separator(parts, p, q), AnyCharacter, AnyCharacter) {
      assert AnyCharacter('c');
    }
    if k, l :| 0 <= k < l < |parts| && parts[k].Arg? && parts[l].Arg? {
      var q := NextNeighbour(parts, k, l);
    }
  }

  // ---- parameters that are mentioned more than once ----

  lemma {:induction false} OnlyOneGivesLength(parts: seq<Part>, i: nat, a: seq<string>, b: seq<string>)
    requires |a| == |b| && i < |a| && forall k :: 0 <= k < |parts| && parts[k].Arg? ==> parts[k].index == i
    ensures |a[i]| <= |b[i]| ==> |KeyOf(parts, a)| <= |KeyOf(parts, b)|
    ensures |a[i]| < |b[i]| && Uses(parts, i) ==> |KeyOf(parts, a)| < |KeyOf(parts, b)|
  {
    if parts != [] {
      OnlyOneGivesLength(parts[1..], i, a, b);
      if Uses(parts, i) && parts[0].Text? {
        var k :| 0 <= k < |parts| && parts[k] == Arg(i);
        assert parts[1..][k - 1] == Arg(i);
      }
    }
  }

  lemma {:induction false} OneParameterIsRead(parts: seq<Part>, i: nat, a: seq<string>, b: seq<string>)
    requires |a| == |b| && i < |a| && forall k :: 0 <= k < |parts| && parts[k].Arg? ==> parts[k].index == i
    requires Uses(parts, i) && KeyOf(parts, a) == KeyOf(parts, b)
    ensures a[i] == b[i]
  {
    OnlyOneGivesLength(parts, i, a, b);
    OnlyOneGivesLength(parts, i, b, a);
    FirstAndRest(parts, a);
    FirstAndRest(parts, b);
    SameLengthInFront(TextAt(parts, 0, a), TextAt(parts, 0, b), KeyOf(parts[1..], a), KeyOf(parts[1..], b));
    if parts[0].Text? {
      var k :| 0 <= k < |parts| && parts[k] == Arg(i);
      assert parts[1..][k - 1] == Arg(i);
      OneParameterIsRead(parts[1..], i, a, b);
    }
  }

  /** A key that mentions one parameter, however often, tells its texts apart, whatever they are. */
  lemma OneParameterIsUnambiguous(parts: seq<Part>, i: nat, texts: seq<iset<string>>)
    requires i < |texts| && forall k :: 0 <= k < |parts| && parts[k].Arg? ==> parts[k].index == i
    ensures Unambiguous(parts, texts)
  {
    forall a: seq<string>, b: seq<string> | Among(a, texts) && Among(b, texts) && KeyOf(parts, a) == KeyOf(parts, b)
      ensures SameUsed(parts, a, b)
    {
      if Uses(parts, i) { OneParameterIsRead(parts, i, a, b); }
    }
  }

  /** "#{a}0#{b}#{a}1#{b}": with parameters that occur more than once, two of them may be told apart after all. */
  const TWICE: seq<Part> := [Arg(1), Text("0"), Arg(2), Arg(1), Text("1"), Arg(2)]

  lemma KeyOfTwice(args: seq<string>)
    requires |args| == 3
    ensures KeyOf(TWICE, args) == (args[1] + "0" + args[2]) + (args[1] + "1" + args[2])
  {
    assert KeyOf(TWICE[5..], args) == args[2];
    assert KeyOf(TWICE[4..], args) == "1" + args[2];
    assert KeyOf(TWICE[3..], args) == args[1] + ("1" + args[2]);
    assert KeyOf(TWICE[2..], args) == args[2] + (args[1] + ("1" + args[2]));
    assert KeyOf(TWICE[1..], args) == "0" + (args[2] + (args[1] + ("1" + args[2])));
    assert KeyOf(TWICE, args) == args[1] + ("0" + (args[2] + (args[1] + ("1" + args[2]))));
  }

  /** The two halves of the key differ only where a ends. */
  lemma HalvesTellApart(x: string, y: string, x': string, y': string)
    requires (x + "0" + y) + (x + "1" + y) == (x' + "0" + y') + (x' + "1" + y')
    ensures x == x' && y == y'
  {
    var l := |x + "0" + y|;
    assert l == |x' + "0" + y'|;
    var first, second := (x + "0" + y) + (x + "1" + y), (x' + "0" + y') + (x' + "1" + y');
    assert first[..l] == x + "0" + y && first[l..] == x + "1" + y;
    assert second[..l] == x' + "0" + y' && second[l..] == x' + "1" + y';
    MarkTellsLength(x, y, x', y');
    assert (x + "0" + y)[..|x|] == x && (x' + "0" + y')[..|x|] == x';
    assert (x + "0" + y)[|x| + 1..] == y && (x' + "0" + y')[|x| + 1..] == y';
  }

  lemma MarkTellsLength(x: string, y: string, x': string, y': string)
    requires x + "0" + y == x' + "0" + y' && x + "1" + y == x' + "1" + y'
    ensures |x| == |x'|
  {
    assert (x + "0" + y)[|x|] == '0' && (x + "1" + y)[|x|] == '1';
    assert (x' + "0" + y')[|x'|] == '0' && (x' + "1" + y')[|x'|] == '1';
    assert forall i :: 0 <= i < |x| ==> (x + "0" + y)[i] == x[i] == (x + "1" + y)[i];
    assert forall i :: 0 <= i < |x'| ==> (x' + "0" + y')[i] == x'[i] == (x' + "1" + y')[i];
  }

  lemma RepetitionMayTellApart()
    ensures Unambiguous(TWICE, Strings(3)) && Uses(TWICE, 1) && Uses(TWICE, 2)
  {
    assert TWICE[0] == Arg(1) && TWICE[2] == Arg(2);
    forall a: seq<string>, b: seq<string> | |a| == |b| == 3 && KeyOf(TWICE, a) == KeyOf(TWICE, b)
      ensures SameUsed(TWICE, a, b)
    {
      KeyOfTwice(a);
      KeyOfTwice(b);
      HalvesTellApart(a[1], a[2], b[1], b[2]);
      assert !Uses(TWICE, 0);
    }
  }

  // ---- from texts to arguments ----

  function Printed<T>(args: seq<T>, show: T -> string): (texts: seq<string>)
    ensures |texts| == |args| && forall i :: 0 <= i < |args| ==> texts[i] == show(args[i])
  {
    seq(|args|, i requires 0 <= i < |args| => show(args[i]))
  }

  /** Different arguments in the parameters that the key mentions give different keys; values is what each can take. */
  ghost predicate DeterminesArguments<T(!new)>(parts: seq<Part>, values: seq<iset<T>>, show: T -> string) {
    forall a: seq<T>, b: seq<T> ::
      Among(a, values) && Among(b, values) && KeyOf(parts, Printed(a, show)) == KeyOf(parts, Printed(b, show)) ==>
        SameUsed(parts, a, b)
  }

  ghost predicate PrintsApart<T(!new)>(values: iset<T>, show: T -> string) {
    forall v, w :: v in values && w in values && show(v) == show(w) ==> v == w
  }

  ghost function TextsOf<T(!new)>(values: seq<iset<T>>, show: T -> string): (texts: seq<iset<string>>)
    ensures |texts| == |values|
    ensures forall i, v :: 0 <= i < |values| && v in values[i] ==> show(v) in texts[i]
    ensures forall i, t :: 0 <= i < |values| && t in texts[i] ==> exists v :: v in values[i] && show(v) == t
  {
    seq(|values|, i requires 0 <= i < |values| => iset v | v in values[i] :: show(v))
  }

  lemma PrintedAmong<T(!new)>(args: seq<T>, values: seq<iset<T>>, show: T -> string)
    requires Among(args, values)
    ensures Among(Printed(args, show), TextsOf(values, show))
  {
  }

  ghost function ArgumentFor<T(!new)>(values: iset<T>, show: T -> string, text: string): (v: T)
    requires exists v :: v in values && show(v) == text
    ensures v in values && show(v) == text
  {
    var v :| v in values && show(v) == text; v
  }

  lemma ArgumentsFor<T(!new)>(texts: seq<string>, values: seq<iset<T>>, show: T -> string) returns (args: seq<T>)
    requires Among(texts, TextsOf(values, show))
    ensures Among(args, values) && Printed(args, show) == texts
  {
    args := seq(|texts|, i requires 0 <= i < |texts| => ArgumentFor(values[i], show, texts[i]));
  }

  ghost function AnyOf<T(!new)>(values: iset<T>): (v: T)
    requires values != iset{}
    ensures v in values
  {
    var v :| v in values; v
  }

  /** A key tells arguments apart exactly when it tells their texts apart and its parameters print different texts. */
  lemma DeterminesArgumentsIff<T(!new)>(parts: seq<Part>, values: seq<iset<T>>, show: T -> string)
    requires forall i :: 0 <= i < |values| ==> values[i] != iset{}
    ensures DeterminesArguments(parts, values, show) <==>
      && Unambiguous(parts, TextsOf(values, show))
      && forall i :: 0 <= i < |values| && Uses(parts, i) ==> PrintsApart(values[i], show)
  {
    hide KeyOf;
    if DeterminesArguments(parts, values, show) {
      TextsAreToldApart(parts, values, show);
      forall i | 0 <= i < |values| && Uses(parts, i) ensures PrintsApart(values[i], show) {
        ArgumentPrintsApart(parts, values, show, i);
      }
    } else {
      var a, b :| && Among(a, values) && Among(b, values)
                  && KeyOf(parts, Printed(a, show)) == KeyOf(parts, Printed(b, show)) && !SameUsed(parts, a, b);
      PrintedAmong(a, values, show);
      PrintedAmong(b, values, show);
    }
  }

  lemma TextsAreToldApart<T(!new)>(parts: seq<Part>, values: seq<iset<T>>, show: T -> string)
    requires DeterminesArguments(parts, values, show)
    ensures Unambiguous(parts, TextsOf(values, show))
  {
    hide KeyOf;
    var texts := TextsOf(values, show);
    forall s, t | Among(s, texts) && Among(t, texts) && KeyOf(parts, s) == KeyOf(parts, t)
      ensures SameUsed(parts, s, t)
    {
      var a := ArgumentsFor(s, values, show);
      var b := ArgumentsFor(t, values, show);
      assert SameUsed(parts, a, b);
    }
  }

  lemma ArgumentPrintsApart<T(!new)>(parts: seq<Part>, values: seq<iset<T>>, show: T -> string, i: nat)
    requires DeterminesArguments(parts, values, show) && forall k :: 0 <= k < |values| ==> values[k] != iset{}
    requires i < |values| && Uses(parts, i)
    ensures PrintsApart(values[i], show)
  {
    hide KeyOf;
    var others := seq(|values|, k requires 0 <= k < |values| => AnyOf(values[k]));
    forall v, w | v in values[i] && w in values[i] && show(v) == show(w) ensures v == w {
      var a, b := others[i := v], others[i := w];
      assert Among(a, values) && Among(b, values);
      assert Printed(a, show) == Printed(b, show);
      assert SameUsed(parts, a, b) && a[i] == v && b[i] == w;
    }
  }

  // ---- the types of Go ----

  /** Three types of parameters. Any other type is covered by the lemmas above, by what it prints. */
  datatype Argument = Int(n: int) | Str(s: string) | Strs(items: seq<string>)

  function Spaced(items: seq<string>): string {
    if items == [] then "" else if |items| == 1 then items[0] else items[0] + " " + Spaced(items[1..])
  }

  /** fmt.Sprint. */
  function Sprint(arg: Argument): string {
    match arg
    case Int(n) => V.FormatInt(n)
    case Str(s) => s
    case Strs(items) => "[" + Spaced(items) + "]"
  }

  ghost const INTS: iset<Argument> := iset v: Argument | v.Int? && V.MIN_INT64 <= v.n <= V.MAX_INT64
  ghost const STRS: iset<Argument> := iset v: Argument | v.Str?
  ghost const SLICES: iset<Argument> := iset v: Argument | v.Strs?

  predicate IsNumeric(c: char) {
    c == '-' || '0' <= c <= '9'
  }

  lemma IntsPrintApart()
    ensures PrintsApart(INTS, Sprint)
  {
    forall v, w | v in INTS && w in INTS && Sprint(v) == Sprint(w) ensures v == w {
      V.ParseFormatInt(v.n);
      V.ParseFormatInt(w.n);
    }
  }

  lemma OtherIsForeignToInts(c: char, values: seq<iset<Argument>>, i: nat)
    requires !IsNumeric(c) && i < |values| && values[i] == INTS
    ensures Foreign(c, TextsOf(values, Sprint), i)
  {
    forall t | t in TextsOf(values, Sprint)[i] ensures c !in t {
      var v :| v in values[i] && Sprint(v) == t;
    }
  }

  /**
   Integers, and among them at most one string, are told apart when every separator has a character that is neither a
   digit nor a minus sign, as in "#{page}:#{name}:#{id}". The string stands at position m; without one m is arbitrary.
   */
  lemma IntsAroundOneString(parts: seq<Part>, values: seq<iset<Argument>>, m: nat)
    requires forall i :: 0 <= i < |values| ==> values[i] != iset{}
    requires forall k :: 0 <= k < |parts| && parts[k].Arg? ==>
      parts[k].index < |values| && (values[parts[k].index] == INTS || (k == m && values[parts[k].index] == STRS))
    requires forall p: nat, q: nat :: Neighbours(parts, p, q) ==>
      exists c :: c in Separator(parts, p, q) && !IsNumeric(c)
    ensures DeterminesArguments(parts, values, Sprint)
  {
    var texts := TextsOf(values, Sprint);
    forall p: nat, q: nat | Neighbours(parts, p, q) ensures Marked(parts, texts, p, q, Side(parts, m, p, q)) {
      var c :| c in Separator(parts, p, q) && !IsNumeric(c);
      OtherIsForeignToInts(c, values, Side(parts, m, p, q));
    }
    SeparatedIsUnambiguous(parts, texts, m);
    IntsPrintApart();
    DeterminesArgumentsIff(parts, values, Sprint);
  }

  /** The template "#{a}:#{b}" for a method whose parameters behind the context are called a and b. */
  const TEMPLATE: seq<Segment> := [Placeholder("a"), Literal(":"), Placeholder("b")]
  const PAIR: seq<Part> := [Arg(1), Text(":"), Arg(2)]

  lemma TemplateParses()
    ensures Parse("#{a}:#{b}", 0) == TEMPLATE
  {
    hide Parse;
    assert Canonical(TEMPLATE[2..]) && Canonical(TEMPLATE[1..]) && Canonical(TEMPLATE);
    ParseInvertsRender(TEMPLATE);
    assert Render(TEMPLATE[2..]) == "#{b}" && Render(TEMPLATE[1..]) == ":#{b}";
    assert "#{a}:#{b}" == "#{a}" + ":#{b}" == Render(TEMPLATE);
  }

  lemma TemplateGivesPair()
    ensures ResolvedParts(Parse("#{a}:#{b}", 0), ["ctx", "a", "b"]) == PAIR
  {
    TemplateParses();
    hide Parse;
    var params := ["ctx", "a", "b"];
    assert params[..2] == ["ctx", "a"];
    assert ParamIndex(params, "b") == Some(2) && ParamIndex(params, "a") == Some(1);
    assert TEMPLATE[2..] == [Placeholder("b")] && TEMPLATE[2..][1..] == [];
    assert ResolvedParts(TEMPLATE[2..], params) == [Arg(2)];
    assert TEMPLATE[1..][1..] == TEMPLATE[2..];
    assert ResolvedParts(TEMPLATE[1..], params) == [Text(":"), Arg(2)];
  }

  lemma KeyOfPairIs(args: seq<string>)
    requires |args| == 3
    ensures KeyOf(PAIR, args) == args[1] + ":" + args[2]
  {
    assert KeyOf(PAIR[2..], args) == args[2];
    assert PAIR[1..][1..] == PAIR[2..];
    assert KeyOf(PAIR[1..], args) == ":" + args[2];
  }

  /** Its keys are unambiguous when one of the two is an integer and the other an integer or a string. */
  lemma PairWithIntIsDetermined(context: iset<Argument>, a: iset<Argument>, b: iset<Argument>)
    requires context != iset{} && ((a == INTS && (b == INTS || b == STRS)) || (a == STRS && b == INTS))
    ensures DeterminesArguments(PAIR, [context, a, b], Sprint)
  {
    assert Int(0) in INTS && Str("") in STRS;
    assert Separator(PAIR, 0, 2) == ":" by { assert PAIR[1..2] == [Text(":")]; }
    hide Separator;
    var values := [context, a, b];
    assert ":"[0] in Separator(PAIR, 0, 2) && !IsNumeric(':');
    assert forall p: nat, q: nat :: Neighbours(PAIR, p, q) ==> p == 0 && q == 2;
    assert forall i :: 0 <= i < |values| ==> values[i] != iset{};
    IntsAroundOneString(PAIR, values, if a == INTS then 2 else 0);
  }

  /** With two strings they are not. */
  lemma PairOfStringsIsAmbiguous(context: iset<Argument>)
    requires context != iset{}
    ensures !DeterminesArguments(PAIR, [context, STRS, STRS], Sprint)
  {
    var c :| c in context;
    var a, b := [c, Str(""), Str(":")], [c, Str(":"), Str("")];
    KeyOfPairIs(Printed(a, Sprint));
    KeyOfPairIs(Printed(b, Sprint));
    assert KeyOf(PAIR, Printed(a, Sprint)) == "::" == KeyOf(PAIR, Printed(b, Sprint));
    assert PAIR[0] == Arg(1) && Uses(PAIR, 1);
    hide KeyOf;
    assert Among(a, [context, STRS, STRS]) && Among(b, [context, STRS, STRS]) && !SameUsed(PAIR, a, b);
  }

  /** The template "#{tags}" with a parameter of type []string: {"a b"} and {"a", "b"} both print as [a b]. */
  lemma SliceIsAmbiguous(context: iset<Argument>)
    requires context != iset{}
    ensures Unambiguous([Arg(1)], TextsOf([context, SLICES], Sprint))
    ensures !DeterminesArguments([Arg(1)], [context, SLICES], Sprint)
  {
    OneParameterIsUnambiguous([Arg(1)], 1, TextsOf([context, SLICES], Sprint));
    assert Strs([]) in SLICES;
    SlicesPrintAlike();
    assert Uses([Arg(1)], 1) by { assert [Arg(1)][0] == Arg(1); }
    DeterminesArgumentsIff([Arg(1)], [context, SLICES], Sprint);
  }

  lemma SlicesPrintAlike()
    ensures !PrintsApart(SLICES, Sprint)
  {
    var v, w := Strs(["a b"]), Strs(["a", "b"]);
    assert ["a", "b"][1..] == ["b"];
    assert Spaced(["a", "b"]) == "a" + " " + "b" == "a b";
    assert v in SLICES && w in SLICES && Sprint(v) == Sprint(w);
  }
}
