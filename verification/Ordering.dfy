/** Byte order on strings, and the sorting that `sort.Slice` and `sort.Strings` perform with it. */
module Ordering {

  /** Go's `<` on strings: lexicographic, a proper prefix being smaller. */
  predicate Less(a: string, b: string)
  {
    b != [] && (a == [] || a[0] < b[0] || (a[0] == b[0] && Less(a[1..], b[1..])))
  }

  /** The strings differ first at character i, or the first one ends there. */
  ghost predicate LessAt(a: string, b: string, i: nat) {
    i <= |a| && i < |b| && a[..i] == b[..i] && (i < |a| ==> a[i] < b[i])
  }

  lemma {:induction false} LessIsLexicographic(a: string, b: string)
    ensures Less(a, b) <==> exists i: nat :: LessAt(a, b, i)
  {
    if a == [] || b == [] {
      if b != [] { assert LessAt(a, b, 0); }
    } else {
      LessIsLexicographic(a[1..], b[1..]);
      LessAtTail(a, b);
      if a[0] < b[0] { assert LessAt(a, b, 0); }
    }
  }

  lemma LessAtTail(a: string, b: string)
    requires a != [] && b != []
    ensures LessAt(a, b, 0) <==> a[0] < b[0]
    ensures forall i: nat :: LessAt(a, b, i + 1) <==> a[0] == b[0] && LessAt(a[1..], b[1..], i)
    ensures (exists i: nat :: LessAt(a, b, i)) <==>
      a[0] < b[0] || (a[0] == b[0] && exists i: nat :: LessAt(a[1..], b[1..], i))
  {
    forall i: nat ensures LessAt(a, b, i + 1) <==> a[0] == b[0] && LessAt(a[1..], b[1..], i) {
      if i + 1 <= |a| && i + 1 < |b| {
        assert a[..i + 1] == [a[0]] + a[1..][..i] && b[..i + 1] == [b[0]] + b[1..][..i];
      }
    }
    forall i: nat | LessAt(a, b, i) ensures a[0] < b[0] || (a[0] == b[0] && LessAt(a[1..], b[1..], i - 1)) {
      if i > 0 { assert LessAt(a, b, i - 1 + 1); }
    }
    forall i: nat | a[0] == b[0] && LessAt(a[1..], b[1..], i) ensures LessAt(a, b, i + 1) {
    }
  }

  lemma LessIrreflexive(a: string)
    ensures !Less(a, a)
  {
  }

  lemma LessTotal(a: string, b: string)
    ensures a == b || Less(a, b) || Less(b, a)
  {
    if a != [] && b != [] && a[0] == b[0] {
      LessTotal(a[1..], b[1..]);
      assert a == [a[0]] + a[1..] && b == [b[0]] + b[1..];
    }
  }

  lemma LessTransitive(a: string, b: string, c: string)
    requires Less(a, b) && Less(b, c)
    ensures Less(a, c)
  {
  }

  lemma LessAsymmetric(a: string, b: string)
    requires Less(a, b)
    ensures !Less(b, a)
  {
    if Less(b, a) {
      LessTransitive(a, b, a);
      LessIrreflexive(a);
    }
  }

  predicate Sorted(s: seq<string>)
  {
    forall i, j :: 0 <= i < j < |s| ==> !Less(s[j], s[i])
  }

  predicate StrictlySorted(s: seq<string>)
  {
    forall i, j :: 0 <= i < j < |s| ==> Less(s[i], s[j])
  }

  /** Places x in a sorted sequence, before the first element that is not smaller. */
  function Insert(x: string, s: seq<string>): (r: seq<string>)
    requires Sorted(s)
    ensures multiset(r) == multiset(s) + multiset{x}
    ensures Sorted(r)
  {
    if s == [] then [x]
    else if !Less(s[0], x) then
      InsertFront(x, s);
      assert multiset([x] + s) == multiset(s) + multiset{x};
      [x] + s
    else
      var t := Insert(x, s[1..]);
      InsertBack(x, s, t);
      assert s == [s[0]] + s[1..];
      [s[0]] + t
  }

  lemma InsertFront(x: string, s: seq<string>)
    requires Sorted(s) && s != [] && !Less(s[0], x)
    ensures Sorted([x] + s)
  {
    forall j | 0 <= j < |s| ensures !Less(s[j], x) {
      if Less(s[j], x) {
        LessTotal(s[0], s[j]);
        if Less(s[0], s[j]) { LessTransitive(s[0], s[j], x); }
      }
    }
  }

  lemma InsertBack(x: string, s: seq<string>, t: seq<string>)
    requires Sorted(s) && s != [] && Less(s[0], x)
    requires Sorted(t) && multiset(t) == multiset(s[1..]) + multiset{x}
    ensures Sorted([s[0]] + t)
  {
    LessAsymmetric(s[0], x);
    forall j | 0 <= j < |t| ensures !Less(t[j], s[0]) {
      assert t[j] in multiset(t);
      if t[j] != x {
        assert t[j] in multiset(s[1..]);
        assert t[j] in s[1..];
      }
    }
  }

  /** The result of sorting; by SortedIsUnique no other sorting function could give another. */
  function Sort(s: seq<string>): (r: seq<string>)
    ensures multiset(r) == multiset(s)
    ensures Sorted(r)
  {
    if s == [] then []
    else
      assert s == [s[0]] + s[1..];
      Insert(s[0], Sort(s[1..]))
  }

  lemma MultisetOfTail(s: seq<string>)
    requires s != []
    ensures multiset(s[1..]) == multiset(s) - multiset{s[0]}
  {
    assert s == [s[0]] + s[1..];
  }

  lemma SameHead(a: seq<string>, b: seq<string>)
    requires Sorted(a) && Sorted(b) && multiset(a) == multiset(b) && a != []
    ensures b != [] && a[0] == b[0]
  {
    hide Less, Sorted;
    assert a[0] in multiset(b);
    assert b != [] && a[0] in b;
    assert b[0] in multiset(a);
    assert b[0] in a;
    HeadIsLeast(a, b[0]);
    HeadIsLeast(b, a[0]);
    LessTotal(a[0], b[0]);
  }

  lemma TailIsSorted(s: seq<string>)
    requires Sorted(s) && s != []
    ensures Sorted(s[1..])
  {
    hide Less;
  }

  /** Two sorted arrangements of the same strings are the same sequence. */
  lemma {:induction false} SortedIsUnique(a: seq<string>, b: seq<string>)
    requires Sorted(a) && Sorted(b) && multiset(a) == multiset(b)
    ensures a == b
  {
    hide Less, Sorted;
    if a == [] {
      assert |b| == |multiset(b)|;
    } else {
      SameHead(a, b);
      MultisetOfTail(a);
      MultisetOfTail(b);
      TailIsSorted(a);
      TailIsSorted(b);
      SortedIsUnique(a[1..], b[1..]);
      assert a == [a[0]] + a[1..] && b == [b[0]] + b[1..];
    }
  }

  lemma HeadIsLeast(s: seq<string>, x: string)
    requires Sorted(s) && x in s
    ensures !Less(x, s[0])
  {
    LessIrreflexive(x);
  }

  /** Strictly sorted sequences are determined by the set of their elements. */
  lemma {:induction false} StrictlySortedIsUnique(a: seq<string>, b: seq<string>)
    requires StrictlySorted(a) && StrictlySorted(b)
    requires forall x :: x in a <==> x in b
    ensures a == b
  {
    StrictIsSortedSet(a);
    StrictIsSortedSet(b);
    forall x ensures multiset(a)[x] == multiset(b)[x] {
      assert x in multiset(a) <==> x in a;
      assert x in multiset(b) <==> x in b;
    }
    assert multiset(a) == multiset(b);
    SortedIsUnique(a, b);
  }

  lemma {:induction false} StrictIsSortedSet(s: seq<string>)
    requires StrictlySorted(s)
    ensures Sorted(s)
    ensures forall x :: multiset(s)[x] <= 1
  {
    forall i, j | 0 <= i < j < |s| ensures !Less(s[j], s[i]) {
      LessAsymmetric(s[i], s[j]);
    }
    if s != [] {
      StrictIsSortedSet(s[1..]);
      assert s == [s[0]] + s[1..];
      LessIrreflexive(s[0]);
      assert s[0] !in s[1..];
    }
  }

  /** Sorting a sequence without repetition gives a strictly sorted one. */
  lemma {:induction false} SortDistinct(s: seq<string>)
    requires forall i, j :: 0 <= i < j < |s| ==> s[i] != s[j]
    ensures StrictlySorted(Sort(s))
    ensures forall x :: x in Sort(s) <==> x in s
  {
    if s != [] {
      SortDistinct(s[1..]);
      InsertDistinct(s[0], Sort(s[1..]));
    }
  }

  lemma {:induction false} InsertDistinct(x: string, s: seq<string>)
    requires Sorted(s) && StrictlySorted(s) && x !in s
    ensures StrictlySorted(Insert(x, s))
    ensures forall y :: y in Insert(x, s) <==> y == x || y in s
  {
    if s == [] {
      assert Insert(x, s) == [x];
    } else {
      LessTotal(s[0], x);
      if Less(s[0], x) {
        InsertDistinct(x, s[1..]);
        var t := Insert(x, s[1..]);
        assert Insert(x, s) == [s[0]] + t;
        forall j | 0 <= j < |t| ensures Less(s[0], t[j]) {
          assert t[j] == x || t[j] in s[1..];
        }
      } else {
        assert Insert(x, s) == [x] + s;
        forall j | 0 <= j < |s| ensures Less(x, s[j]) {
          if j > 0 { LessTransitive(x, s[0], s[j]); }
        }
      }
    }
  }
}
