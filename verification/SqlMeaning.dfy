/** What SQL rewriting preserves: which colons are parameters, and that the output has none left. */
module SqlMeaning {
  import opened Model
  import opened Value
  import opened SqlCompile

  // ---- which places are parameters, said without scanning ----

  /** Single quotes before position i; an odd number means that i is inside a string literal. */
  function Quotes(s: string, i: nat): nat
    requires i <= |s|
  {
    if i == 0 then 0 else Quotes(s, i - 1) + if s[i - 1] == '\'' then 1 else 0
  }

  /** Colons directly before position i; an odd number means that a colon at i belongs to a cast. */
  function Colons(s: string, i: nat): nat
    requires i <= |s|
  {
    if i == 0 || s[i - 1] != ':' then 0 else Colons(s, i - 1) + 1
  }

  /** A colon that starts a name, outside string literals and not part of a cast. */
  predicate IsParameterAt(s: string, i: nat)
    requires i <= |s|
  {
    && i + 1 < |s| && s[i] == ':' && (s[i + 1] == '_' || 'a' <= s[i + 1] <= 'z' || 'A' <= s[i + 1] <= 'Z')
    && Quotes(s, i) % 2 == 0 && Colons(s, i) % 2 == 0
  }

  /** What names are made of. */
  predicate IsNameCharacter(c: char) {
    'a' <= c <= 'z' || 'A' <= c <= 'Z' || '0' <= c <= '9' || c == '_' || c == '.'
  }

  /**
   The name that starts at i: all the name characters that follow one another, but for dots at the end, which belong to
   the text behind the parameter.
   */
  ghost predicate IsNameAt(s: string, i: nat, name: string) {
    && i + |name| <= |s| && name == s[i..i + |name|] && name != ""
    && (forall k :: 0 <= k < |name| ==> IsNameCharacter(name[k])) && name[|name| - 1] != '.'
    && OnlyDotsFollow(s, i + |name|)
  }

  /** From i on, name characters follow as far as there are dots, and no farther. */
  ghost predicate OnlyDotsFollow(s: string, i: nat) {
    exists e: nat :: AreDots(s, i, e) && (e < |s| ==> !IsNameCharacter(s[e]))
  }

  ghost predicate AreDots(s: string, i: nat, e: nat) {
    i <= e <= |s| && forall k :: i <= k < e ==> s[k] == '.'
  }

  /** This settles what the name is. */
  lemma NameIsUnique(s: string, i: nat, x: string, y: string)
    requires IsNameAt(s, i, x) && IsNameAt(s, i, y)
    ensures x == y
  {
    assert |y| <= |x| by { NameIsNotLonger(s, i, x, y); }
    assert |x| <= |y| by { NameIsNotLonger(s, i, y, x); }
  }

  lemma NameIsNotLonger(s: string, i: nat, x: string, y: string)
    requires IsNameAt(s, i, x) && IsNameAt(s, i, y)
    ensures |y| <= |x|
  {
    var e: nat :| AreDots(s, i + |x|, e) && (e < |s| ==> !IsNameCharacter(s[e]));
    assert forall k :: i <= k < i + |y| ==> s[k] == y[k - i] && IsNameCharacter(s[k]);
    assert s[i + |y| - 1] != '.';
  }

  // ---- what the scan finds ----

  /** names are the names of the parameters that begin at i or later, in order. */
  ghost predicate Lists(s: string, i: nat, names: seq<string>)
    requires i <= |s|
    decreases |s| - i
  {
    if i == |s| then names == []
    else if IsParameterAt(s, i) then names != [] && IsNameAt(s, i + 1, names[0]) && Lists(s, i + 1, names[1..])
    else Lists(s, i + 1, names)
  }

  /** The pieces are what s consists of from i on, the parameters being exactly those that begin there. */
  ghost predicate Divide(s: string, i: nat, ps: seq<Piece>)
    decreases |ps|
  {
    if ps == [] then i == |s|
    else
      match ps[0]
      case Param(name) =>
        i <= |s| && IsParameterAt(s, i) && IsNameAt(s, i + 1, name) && Divide(s, i + 1 + |name|, ps[1..])
      case Text(t) =>
        && t != "" && i + |t| <= |s| && t == s[i..i + |t|]
        && (forall k :: i <= k < i + |t| ==> !IsParameterAt(s, k)) && Divide(s, i + |t|, ps[1..])
  }

  lemma {:induction false} NoneWithin(s: string, i: nat, j: nat, names: seq<string>)
    requires i <= j <= |s| && (forall k :: i <= k < j ==> !IsParameterAt(s, k)) && Lists(s, j, names)
    ensures Lists(s, i, names)
    decreases j - i
  {
    hide IsParameterAt, IsNameAt;
    if i < j { NoneWithin(s, i + 1, j, names); }
  }

  lemma NameHasNoParameter(s: string, i: nat, name: string)
    requires IsNameAt(s, i, name)
    ensures forall k :: i <= k < i + |name| ==> !IsParameterAt(s, k)
  {
    forall k | i <= k < i + |name| ensures !IsParameterAt(s, k) { assert IsNameCharacter(name[k - i]); }
  }

  lemma {:induction false} DivisionLists(s: string, i: nat, ps: seq<Piece>)
    requires Divide(s, i, ps)
    ensures i <= |s| && Lists(s, i, Params(ps))
    decreases |ps|
  {
    hide IsParameterAt, IsNameAt;
    if ps != [] {
      match ps[0] {
        case Param(name) =>
          DivisionLists(s, i + 1 + |name|, ps[1..]);
          NameHasNoParameter(s, i + 1, name);
          NoneWithin(s, i + 1, i + 1 + |name|, Params(ps[1..]));
          FirstIsListed(s, i, name, Params(ps[1..]));
        case Text(t) =>
          DivisionLists(s, i + |t|, ps[1..]);
          NoneWithin(s, i, i + |t|, Params(ps[1..]));
          assert [] + Params(ps[1..]) == Params(ps[1..]);
      }
    }
  }

  lemma FirstIsListed(s: string, i: nat, name: string, rest: seq<string>)
    requires i < |s| && IsParameterAt(s, i) && IsNameAt(s, i + 1, name) && Lists(s, i + 1, rest)
    ensures Lists(s, i, [name] + rest)
  {
    hide IsParameterAt, IsNameAt;
    assert ([name] + rest)[1..] == rest;
  }

  /** Scanning stands at i in the mode that the quotes before it call for, and not inside a cast. */
  ghost predicate InStep(s: string, i: nat, inString: bool)
    requires i <= |s|
  {
    && inString == (Quotes(s, i) % 2 == 1)
    && (!inString && i < |s| && s[i] == ':' ==> Colons(s, i) % 2 == 0)
  }

  /** The scanned name is the name. */
  lemma ScannedIsName(s: string, i: nat)
    requires i + 1 < |s| && StartsParam(s[i..])
    ensures IsNameAt(s, i + 1, Name(s[i + 1..]))
  {
    var t := s[i + 1..];
    var run, name := NameRun(t), Name(t);
    NameIsPrefix(t);
    NameRunIsPrefix(t);
    NameRunStops(t);
    TrimmedAreDots(run);
    assert s[i..][1] == t[0];
    var from, e := i + 1 + |name|, i + 1 + |run|;
    assert forall k :: i + 1 <= k < |s| ==> s[k] == t[k - i - 1];
    assert forall k :: from <= k < e ==> s[k] == run[k - i - 1];
    assert AreDots(s, from, e) && (e < |s| ==> !IsNameCharacter(s[e]));
  }

  /** Behind a parameter that ends at j. */
  lemma AfterParam(s: string, i: nat, j: nat)
    requires i + 1 < j <= |s| && InStep(s, i, false) && StartsParam(s[i..])
    requires forall k :: i < k < j ==> s[k] != ':' && s[k] != '\''
    ensures InStep(s, j, false) && IsParameterAt(s, i)
  {
    assert s[i] == s[i..][0] == ':' && s[i..][1] == s[i + 1];
    NothingWithin(s, i + 1, j);
  }

  lemma {:induction false} NothingWithin(s: string, i: nat, j: nat)
    requires i <= j <= |s| && forall k :: i <= k < j ==> s[k] != ':' && s[k] != '\''
    ensures Quotes(s, i) == Quotes(s, j) && (i < j ==> Colons(s, j) == 0)
    decreases j - i
  {
    if i < j { NothingWithin(s, i + 1, j); }
  }

  /** None of the characters that are copied together begins a parameter. */
  lemma CopyStaysInStep(s: string, i: nat, inString: bool)
    requires i < |s| && InStep(s, i, inString) && (inString || !StartsParam(s[i..]))
    ensures var k := CopyLength(s[i..], inString);
      && (k == 1 || k == 2) && i + k <= |s| && InStep(s, i + k, StaysInString(s[i..], inString))
      && forall j :: i <= j < i + k ==> !IsParameterAt(s, j)
  {
    var t, k := s[i..], CopyLength(s[i..], inString);
    assert t[0] == s[i] && (i + 1 < |s| ==> t[1] == s[i + 1]);
    assert !IsParameterAt(s, i);
    if k == 2 {
      PairCounts(s, i);
      assert !IsParameterAt(s, i + 1);
    } else {
      assert Quotes(s, i + 1) == Quotes(s, i) + if s[i] == '\'' then 1 else 0;
    }
  }

  /** Quotes and colons before the second character of a pair, and behind the pair. */
  lemma PairCounts(s: string, i: nat)
    requires i + 1 < |s| && s[i] == s[i + 1] && (s[i] == '\'' || s[i] == ':')
    ensures Quotes(s, i + 2) == Quotes(s, i) + if s[i] == '\'' then 2 else 0
    ensures s[i] == ':' ==> Colons(s, i + 1) == Colons(s, i) + 1 && Colons(s, i + 2) == Colons(s, i) + 2
  {
    assert Quotes(s, i + 2) == Quotes(s, i + 1) + if s[i + 1] == '\'' then 1 else 0;
    assert Quotes(s, i + 1) == Quotes(s, i) + if s[i] == '\'' then 1 else 0;
  }

  lemma {:induction false} PiecesFromAreExact(s: string, i: nat, inString: bool)
    requires i <= |s| && InStep(s, i, inString)
    ensures Divide(s, i, Pieces(s[i..], inString))
    decreases |s| - i
  {
    hide Name, StartsParam, CopyLength, StaysInString, InStep, IsParameterAt, IsNameAt;
    if i < |s| {
      var t := s[i..];
      if !inString && StartsParam(t) {
        ParamFirst(s, i);
        var name := Name(t[1..]);
        var j := i + 1 + |name|;
        assert t[1..] == s[i + 1..] && t[1 + |name|..] == s[j..];
        PiecesFromAreExact(s, j, false);
        DivideParam(s, i, name, Pieces(s[j..], false));
      } else {
        var k := CopyLength(t, inString);
        CopyStaysInStep(s, i, inString);
        assert t[k..] == s[i + k..] && t[..k] == s[i..i + k];
        PiecesFromAreExact(s, i + k, StaysInString(t, inString));
        DivideText(s, i, t[..k], Pieces(s[i + k..], StaysInString(t, inString)));
      }
    } else {
      assert s[i..] == "";
    }
  }

  lemma ParamFirst(s: string, i: nat)
    requires i < |s| && InStep(s, i, false) && StartsParam(s[i..])
    ensures var j := i + 1 + |Name(s[i + 1..])|;
      j <= |s| && InStep(s, j, false) && IsParameterAt(s, i) && IsNameAt(s, i + 1, Name(s[i + 1..]))
  {
    hide Name, InStep;
    ScannedIsName(s, i);
    var name := Name(s[i + 1..]);
    assert forall k :: i < k < i + 1 + |name| ==> s[k] == name[k - i - 1];
    assert forall k :: 0 <= k < |name| ==> IsNameCharacter(name[k]);
    AfterParam(s, i, i + 1 + |name|);
  }

  lemma DivideParam(s: string, i: nat, name: string, rest: seq<Piece>)
    requires i <= |s| && IsParameterAt(s, i) && IsNameAt(s, i + 1, name) && Divide(s, i + 1 + |name|, rest)
    ensures Divide(s, i, [Param(name)] + rest)
  {
    hide IsParameterAt, IsNameAt;
    assert ([Param(name)] + rest)[1..] == rest;
  }

  lemma DivideText(s: string, i: nat, t: string, rest: seq<Piece>)
    requires t != "" && i + |t| <= |s| && t == s[i..i + |t|] && Divide(s, i + |t|, rest)
    requires forall k :: i <= k < i + |t| ==> !IsParameterAt(s, k)
    ensures Divide(s, i, [Text(t)] + rest)
  {
    hide IsParameterAt, IsNameAt;
    assert ([Text(t)] + rest)[1..] == rest;
  }

  /**
   Compile takes the SQL apart at exactly those colons that start a name, lie outside string literals and are not part
   of a cast, and at the ends of the names behind them.
   */
  lemma PiecesAreExact(sql: string)
    ensures Divide(sql, 0, Pieces(sql, false))
  {
    assert sql[0..] == sql;
    PiecesFromAreExact(sql, 0, false);
  }

  /** So Params lists, in order, exactly the names of these parameters; the dialect plays no role. */
  lemma ParamsAreExact(sql: string, d: Dialect)
    ensures Lists(sql, 0, CompileSpec(sql, d).params)
  {
    hide Pieces, Params;
    PiecesAreExact(sql);
    DivisionLists(sql, 0, Pieces(sql, false));
  }

  // ---- compiling the output again ----

  lemma {:induction false} InertPrefix(t: string, rest: string)
    requires InertText(t)
    ensures Params(Pieces(t + rest, false)) == Params(Pieces(rest, false))
    decreases |t|
  {
    if t == "" {
      assert t + rest == rest;
    } else {
      var r := t + rest;
      assert t[0] != ':' && t[0] != '\'' && r[1..] == t[1..] + rest && r[..1] == [t[0]];
      CopyTurn(r, false, QUESTION, 0);
      assert InertText(t[1..]) by { assert forall i :: 0 <= i < |t[1..]| ==> t[1..][i] == t[i + 1]; }
      InertPrefix(t[1..], rest);
    }
  }

  /** How the output begins. */
  ghost predicate SameStart(s: string, inString: bool, d: Dialect, n: nat, r: string) {
    && (s == "" <==> r == "")
    && (s != "" ==> r[0] == if !inString && StartsParam(s) && d(n + 1) != "" then d(n + 1)[0] else s[0])
  }

  lemma CopiedAgain(s: string, inString: bool, d: Dialect, n: nat, rest: string)
    requires IsInert(d) && s != "" && (inString || !StartsParam(s))
    requires var k := CopyLength(s, inString); SameStart(s[k..], StaysInString(s, inString), d, n, rest)
    ensures var k := CopyLength(s, inString); var r := s[..k] + rest;
      && (inString || !StartsParam(r))
      && CopyLength(r, inString) == k && r[..k] == s[..k] && r[k..] == rest
      && StaysInString(r, inString) == StaysInString(s, inString)
  {
    assert d(n + 1) != "" && InertText(d(n + 1));
  }

  lemma {:induction false} OutputHasNoParams(s: string, inString: bool, d: Dialect, n: nat)
    requires IsInert(d)
    ensures var r := Positional(Pieces(s, inString), d, n);
      Params(Pieces(r, inString)) == [] && SameStart(s, inString, d, n, r)
    decreases |s|
  {
    if s != "" {
      hide Name, Pieces, Params, Positional, IsInert;
      if !inString && StartsParam(s) {
        ParamTurn(s, d, n);
        var rest := s[1 + |Name(s[1..])|..];
        OutputHasNoParams(rest, false, d, n + 1);
        Inert(d, n + 1);
        InertPrefix(d(n + 1), Positional(Pieces(rest, false), d, n + 1));
      } else {
        var k, mode := CopyLength(s, inString), StaysInString(s, inString);
        var out := Positional(Pieces(s[k..], mode), d, n);
        CopyTurn(s, inString, d, n);
        OutputHasNoParams(s[k..], mode, d, n);
        CopiedAgain(s, inString, d, n, out);
        CopyTurn(s[..k] + out, inString, d, n);
      }
    }
  }

  lemma Inert(d: Dialect, n: nat)
    requires IsInert(d)
    ensures d(n) != "" && InertText(d(n))
  {
  }

  lemma {:induction false} NoParamsNoChange(ps: seq<Piece>, d: Dialect, n: nat)
    requires Params(ps) == []
    ensures Positional(ps, d, n) == Named(ps)
  {
    if ps != [] { NoParamsNoChange(ps[1..], d, n); }
  }

  /** Recompiling compiled SQL, for whatever dialect, finds nothing and changes nothing. */
  lemma CompileIsIdempotent(sql: string, d: Dialect, d': Dialect)
    requires IsInert(d)
    ensures var c := CompileSpec(sql, d); CompileSpec(c.sql, d') == Compiled(c.sql, [])
  {
    hide Pieces, Params, Positional, Named;
    OutputHasNoParams(sql, false, d, 0);
    var r := CompileSpec(sql, d).sql;
    NoParamsNoChange(Pieces(r, false), d', 0);
    NamedIsInput(r, false);
  }
}
