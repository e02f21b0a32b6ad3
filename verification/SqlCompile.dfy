/**
 Named-parameter SQL to positional SQL (sqlgen/compile.go), and the argument lists generated for it
 (generator/di/repository.go).
 */
module SqlCompile {
  import opened Model
  import opened Value

  // ---- dialects ----

  /** The placeholder for a 1-based position. */
  type Dialect = nat -> string

  const POSTGRES: Dialect := (n: nat) => "$" + Decimal(n)
  const QUESTION: Dialect := (n: nat) => "?"
  const SQL_SERVER: Dialect := (n: nat) => "@p" + Decimal(n)

  /** Placeholders that cannot be mistaken for parameters, casts or quotes. */
  ghost predicate IsInert(d: Dialect) {
    forall n: nat :: d(n) != "" && InertText(d(n))
  }

  predicate InertText(s: string) {
    forall i :: 0 <= i < |s| ==> s[i] != ':' && s[i] != '\''
  }

  lemma BuiltinDialectsAreInert()
    ensures IsInert(POSTGRES) && IsInert(QUESTION) && IsInert(SQL_SERVER)
  {
    forall n: nat ensures InertText(Decimal(n)) {}
  }

  // ---- the text as pieces ----

  datatype Piece = Text(text: string) | Param(name: string)

  predicate IsNameStart(c: char) { c == '_' || 'a' <= c <= 'z' || 'A' <= c <= 'Z' }

  predicate IsNamePart(c: char) { IsNameStart(c) || '0' <= c <= '9' || c == '.' }

  function NameRun(s: string): string {
    if s != [] && IsNamePart(s[0]) then [s[0]] + NameRun(s[1..]) else ""
  }

  function TrimDots(s: string): string {
    if s != [] && s[|s| - 1] == '.' then TrimDots(s[..|s| - 1]) else s
  }

  /** scanName: the longest run of name characters, without trailing dots. */
  function Name(s: string): string {
    TrimDots(NameRun(s))
  }

  lemma {:induction false} NameRunIsPrefix(s: string)
    ensures NameRun(s) <= s
    ensures forall i :: 0 <= i < |NameRun(s)| ==> IsNamePart(s[i])
  {
    if s != [] && IsNamePart(s[0]) {
      NameRunIsPrefix(s[1..]);
      assert s == [s[0]] + s[1..];
    }
  }

  lemma {:induction false} TrimDotsIsPrefix(s: string)
    ensures TrimDots(s) <= s
    ensures s != [] && s[0] != '.' ==> TrimDots(s) != []
  {
    if s != [] && s[|s| - 1] == '.' {
      TrimDotsIsPrefix(s[..|s| - 1]);
      if s[0] != '.' { assert s[..|s| - 1][0] == s[0]; }
    }
  }

  lemma {:induction false} TrimmedAreDots(s: string)
    ensures TrimDots(s) == "" || TrimDots(s)[|TrimDots(s)| - 1] != '.'
    ensures |TrimDots(s)| <= |s| && forall k :: |TrimDots(s)| <= k < |s| ==> s[k] == '.'
  {
    if s != [] && s[|s| - 1] == '.' { TrimmedAreDots(s[..|s| - 1]); }
  }

  lemma {:induction false} NameRunStops(s: string)
    ensures |NameRun(s)| <= |s| && (|NameRun(s)| < |s| ==> !IsNamePart(s[|NameRun(s)|]))
  {
    if s != [] && IsNamePart(s[0]) { NameRunStops(s[1..]); }
  }

  lemma NameIsPrefix(s: string)
    ensures Name(s) <= s
    ensures s != [] && IsNameStart(s[0]) ==> Name(s) != []
    ensures forall i :: 0 <= i < |Name(s)| ==> IsNamePart(s[i])
  {
    NameRunIsPrefix(s);
    TrimDotsIsPrefix(NameRun(s));
  }

  predicate StartsParam(s: string) { |s| > 1 && s[0] == ':' && IsNameStart(s[1]) }

  predicate StartsCast(s: string) { |s| > 1 && s[0] == ':' && s[1] == ':' }

  predicate StartsEscapedQuote(s: string) { |s| > 1 && s[0] == '\'' && s[1] == '\'' }

  /** Text copied in one turn: an escaped quote and a cast go as a pair. */
  function CopyLength(s: string, inString: bool): (k: nat)
    requires s != []
    ensures 1 <= k <= |s|
  {
    if (if inString then StartsEscapedQuote(s) else StartsCast(s)) then 2 else 1
  }

  /** Whether what follows the copied text is inside a string literal. */
  predicate StaysInString(s: string, inString: bool)
    requires s != []
  {
    if inString then StartsEscapedQuote(s) || s[0] != '\'' else s[0] == '\''
  }

  /** What the loop of Compile makes of the rest of the SQL, inside or outside a string literal. */
  function Pieces(s: string, inString: bool): seq<Piece>
    decreases |s|
  {
    if s == [] then []
    else if !inString && StartsParam(s) then
      NameIsPrefix(s[1..]);
      [Param(Name(s[1..]))] + Pieces(s[1 + |Name(s[1..])|..], false)
    else
      var k := CopyLength(s, inString);
      [Text(s[..k])] + Pieces(s[k..], StaysInString(s, inString))
  }

  function Params(ps: seq<Piece>): seq<string> {
    if ps == [] then [] else (if ps[0].Param? then [ps[0].name] else []) + Params(ps[1..])
  }

  /** The text with placeholders from number n + 1 on. */
  function Positional(ps: seq<Piece>, d: Dialect, n: nat): string {
    if ps == [] then ""
    else if ps[0].Param? then d(n + 1) + Positional(ps[1..], d, n + 1)
    else ps[0].text + Positional(ps[1..], d, n)
  }

  /** The text with ":name" at each parameter. */
  function Named(ps: seq<Piece>): string {
    if ps == [] then "" else (if ps[0].Param? then ":" + ps[0].name else ps[0].text) + Named(ps[1..])
  }

  // ---- the code ----

  datatype Compiled = Compiled(sql: string, params: seq<string>)

  function CompileSpec(sql: string, d: Dialect): Compiled {
    var ps := Pieces(sql, false);
    Compiled(Positional(ps, d, 0), Params(ps))
  }

  lemma NameRunStep(s: string, i: nat, j: nat)
    requires i <= j < |s| && IsNamePart(s[j])
    ensures s[i..j] + NameRun(s[j..]) == s[i..j + 1] + NameRun(s[j + 1..])
  {
    assert s[j..][1..] == s[j + 1..] && s[i..j + 1] == s[i..j] + [s[j]];
  }

  method ScanName(sql: string, i: nat) returns (name: string, next: nat)
    requires i <= |sql|
    ensures name == Name(sql[i..]) && next == i + |name| <= |sql|
  {
    hide NameRun, TrimDots;
    var start, j := i, i;
    NameIsPrefix(sql[i..]);
    while j < |sql| && IsNamePart(sql[j])
      invariant i <= j <= |sql|
      invariant NameRun(sql[i..]) == sql[i..j] + NameRun(sql[j..])
    {
      NameRunStep(sql, i, j);
      j := j + 1;
    }
    NameRunEnds(sql[j..]);
    assert sql[i..j] + "" == sql[i..j];
    name := TrimDots(sql[start..j]);
    return name, start + |name|;
  }

  lemma NameRunEnds(s: string)
    requires s == [] || !IsNamePart(s[0])
    ensures NameRun(s) == ""
  {
  }

  method Compile(sql: string, d: Dialect) returns (c: Compiled)
    ensures c == CompileSpec(sql, d)
  {
    hide Name, Pieces, Positional, Params;
    var out, params, inString, i := "", [], false, 0;
    ghost var all := Pieces(sql, false);
    assert sql[0..] == sql;
    while i < |sql|
      invariant i <= |sql|
      invariant Positional(all, d, 0) == out + Positional(Pieces(sql[i..], inString), d, |params|)
      invariant Params(all) == params + Params(Pieces(sql[i..], inString))
      decreases |sql| - i
    {
      var c := sql[i];
      ghost var i', mode', out', params' := Turn(sql, i, inString, d, out, params);
      if inString {
        out := out + [c];
        if c == '\'' {
          if i + 1 < |sql| && sql[i + 1] == '\'' {
            out := out + "'";
            i := i + 2;
            continue;
          }
          inString := false;
        }
        i := i + 1;
      } else if c == '\'' {
        inString := true;
        out := out + [c];
        i := i + 1;
      } else if c == ':' && i + 1 < |sql| && sql[i + 1] == ':' {
        out := out + "::";
        i := i + 2;
      } else if c == ':' && i + 1 < |sql| && IsNameStart(sql[i + 1]) {
        var name, next := ScanName(sql, i + 1);
        params := params + [name];
        out := out + d(|params|);
        i := next;
      } else {
        out := out + [c];
        i := i + 1;
      }
    }
    NoPieces(sql[i..], inString, d, |params|);
    return Compiled(out, params);
  }

  /** What one turn of the loop makes of its variables. */
  lemma Turn(sql: string, i: nat, inString: bool, d: Dialect, out: string, params: seq<string>)
    returns (i': nat, mode': bool, out': string, params': seq<string>)
    requires i < |sql|
    ensures i < i' <= |sql|
    ensures out + Positional(Pieces(sql[i..], inString), d, |params|)
         == out' + Positional(Pieces(sql[i'..], mode'), d, |params'|)
    ensures params + Params(Pieces(sql[i..], inString)) == params' + Params(Pieces(sql[i'..], mode'))
    ensures var s := sql[i..];
      if !inString && StartsParam(s)
      then mode' == inString && i' == i + 1 + |Name(sql[i + 1..])|
           && params' == params + [Name(sql[i + 1..])] && out' == out + d(|params'|)
      else mode' == StaysInString(s, inString) && i' == i + CopyLength(s, inString) && params' == params
           && out' == if CopyLength(s, inString) == 2 then out + [sql[i]] + [sql[i + 1]] else out + [sql[i]]
  {
    hide Name, Pieces, Positional, Params;
    var s := sql[i..];
    assert s[1..] == sql[i + 1..];
    if !inString && StartsParam(s) {
      ParamTurn(s, d, |params|);
      var name := Name(s[1..]);
      i', mode', out', params' := i + 1 + |name|, false, out + d(|params| + 1), params + [name];
      assert s[1 + |name|..] == sql[i'..];
      Concat(out, d(|params| + 1), Positional(Pieces(sql[i'..], false), d, |params| + 1));
      Concat(params, [name], Params(Pieces(sql[i'..], false)));
    } else {
      CopyTurn(s, inString, d, |params|);
      var k := CopyLength(s, inString);
      i', mode', out', params' := i + k, StaysInString(s, inString), out + s[..k], params;
      assert s[k..] == sql[i'..];
      Concat(out, s[..k], Positional(Pieces(sql[i'..], mode'), d, |params|));
      if k == 2 { Concat(out, [sql[i]], [sql[i + 1]]); }
    }
  }

  lemma Concat<T>(a: seq<T>, b: seq<T>, c: seq<T>)
    ensures a + (b + c) == a + b + c
  {
  }

  lemma NoPieces(s: string, inString: bool, d: Dialect, n: nat)
    requires s == ""
    ensures Positional(Pieces(s, inString), d, n) == "" && Params(Pieces(s, inString)) == []
  {
  }

  lemma CopyTurn(s: string, inString: bool, d: Dialect, n: nat)
    requires s != [] && (inString || !StartsParam(s))
    ensures var k := CopyLength(s, inString); var rest := Pieces(s[k..], StaysInString(s, inString));
      && Positional(Pieces(s, inString), d, n) == s[..k] + Positional(rest, d, n)
      && Params(Pieces(s, inString)) == Params(rest)
    ensures s[..CopyLength(s, inString)] == if CopyLength(s, inString) == 2 then [s[0]] + [s[1]] else [s[0]]
  {
    var k := CopyLength(s, inString);
    var rest := Pieces(s[k..], StaysInString(s, inString));
    assert Pieces(s, inString) == [Text(s[..k])] + rest;
    assert ([Text(s[..k])] + rest)[1..] == rest;
  }

  lemma ParamTurn(s: string, d: Dialect, n: nat)
    requires StartsParam(s)
    ensures 1 + |Name(s[1..])| <= |s|
    ensures var rest := Pieces(s[1 + |Name(s[1..])|..], false);
      && Positional(Pieces(s, false), d, n) == d(n + 1) + Positional(rest, d, n + 1)
      && Params(Pieces(s, false)) == [Name(s[1..])] + Params(rest)
  {
    hide Name;
    NameIsPrefix(s[1..]);
    var rest := Pieces(s[1 + |Name(s[1..])|..], false);
    assert Pieces(s, false) == [Param(Name(s[1..]))] + rest;
    assert ([Param(Name(s[1..]))] + rest)[1..] == rest;
  }

  // ---- nothing but the parameters changes ----

  lemma NamedCons(piece: Piece, rest: seq<Piece>)
    ensures Named([piece] + rest) == (if piece.Param? then ":" + piece.name else piece.text) + Named(rest)
  {
    assert ([piece] + rest)[1..] == rest;
  }

  /** Putting ":name" back at each placeholder recovers the input. */
  lemma {:induction false} NamedIsInput(s: string, inString: bool)
    ensures Named(Pieces(s, inString)) == s
    decreases |s|
  {
    hide Name, StaysInString, CopyLength, Named;
    if s == [] {
      NamedOfNothing();
    } else if !inString && StartsParam(s) {
      var name := Name(s[1..]);
      NameIsPrefix(s[1..]);
      var rest := s[1 + |name|..];
      NamedIsInput(rest, false);
      NamedCons(Param(name), Pieces(rest, false));
      assert s == ":" + name + rest;
    } else {
      var k, next := CopyLength(s, inString), StaysInString(s, inString);
      NamedIsInput(s[k..], next);
      NamedCons(Text(s[..k]), Pieces(s[k..], next));
      assert s == s[..k] + s[k..];
    }
  }

  lemma NamedOfNothing()
    ensures Named([]) == ""
  {
  }
}
