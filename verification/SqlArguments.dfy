/**
 The argument lists that generator/di/repository.go renders next to compiled SQL. A driver that reads the compiled
 text and binds the evaluated arguments executes the SQL with the method's arguments for their names, exactly when
 the SQL is clean.
 */
module SqlArguments {
  import opened Model
  import opened SqlCompile
  import opened SqlDrivers

  /** A rendered argument: a<index><field>, item<field>, or an unresolved reference left as it is. */
  datatype ArgExpr = Arg(index: nat, field: string) | Item(field: string) | Unresolved(ref: string)

  function Dot(ref: string): (n: nat)
    ensures n <= |ref| && (n < |ref| ==> ref[n] == '.')
    ensures forall i :: 0 <= i < n ==> ref[i] != '.'
  {
    if ref != "" && ref[0] != '.' then 1 + Dot(ref[1..]) else 0
  }

  /** "user.ID" refers to field ".ID" of parameter "user". */
  function Base(ref: string): string { ref[..Dot(ref)] }

  function Field(ref: string): string { ref[Dot(ref)..] }

  /** The position of a parameter name; a later parameter hides an earlier one, unnamed ones have none. */
  function IndexOf(names: seq<string>, name: string): Option<nat> {
    if names == [] then None
    else if name != "" && names[|names| - 1] == name then Some(|names| - 1)
    else IndexOf(names[..|names| - 1], name)
  }

  /** The map byOrig over the first parameters. */
  function Indices(names: seq<string>): (m: map<string, nat>)
    ensures forall x :: x in m <==> IndexOf(names, x).Some?
    ensures forall x :: x in m ==> IndexOf(names, x) == Some(m[x])
  {
    if names == [] then map[]
    else
      var n := |names| - 1;
      if names[n] == "" then Indices(names[..n]) else Indices(names[..n])[names[n] := n]
  }

  lemma {:induction false} IndexOfNamed(names: seq<string>, name: string)
    ensures var r := IndexOf(names, name); r.Some? ==> IsLastNamed(names, name, r.value)
    ensures IndexOf(names, name).None? ==> name == "" || name !in names
  {
    if names != [] {
      var n := |names| - 1;
      IndexOfNamed(names[..n], name);
      assert names == names[..n] + [names[n]];
      var r := IndexOf(names[..n], name);
      if r.Some? && names[n] != name {
        assert forall j :: 0 <= j < n ==> names[..n][j] == names[j];
      }
      if r.Some? { HasName(names[..n], name); }
    }
  }

  lemma {:induction false} HasName(names: seq<string>, name: string)
    requires IndexOf(names, name).Some?
    ensures name != ""
  {
    if name == "" { NoName(names); }
  }

  lemma {:induction false} NoName(names: seq<string>)
    ensures IndexOf(names, "").None?
  {
    if names != [] { NoName(names[..|names| - 1]); }
  }

  /** Parameter i has the name and no later one does. */
  ghost predicate IsLastNamed(names: seq<string>, name: string, i: nat) {
    i < |names| && names[i] == name && forall j :: i < j < |names| ==> names[j] != name
  }

  /** The argument for a reference; item is the name of the slice parameter of an @Batch method. */
  function ArgFor(names: seq<string>, item: Option<string>, ref: string): ArgExpr {
    if item == Some(Base(ref)) then Item(Field(ref))
    else
      match IndexOf(names, Base(ref))
      case Some(i) => Arg(i, Field(ref))
      case None => Unresolved(ref)
  }

  method IndexParams(names: seq<string>) returns (byOrig: map<string, nat>)
    ensures byOrig == Indices(names)
  {
    byOrig := map[];
    var i := 0;
    while i < |names|
      invariant i <= |names| && byOrig == Indices(names[..i])
    {
      assert names[..i + 1][..i] == names[..i];
      if names[i] != "" { byOrig := byOrig[names[i] := i]; }
      i := i + 1;
    }
    assert names[..i] == names;
  }

  /** sqlArgs and batchSQLArgs, which differ in the loop variable only. */
  method SqlArgs(refs: seq<string>, names: seq<string>, item: Option<string>) returns (args: seq<ArgExpr>)
    ensures |args| == |refs| && forall k :: 0 <= k < |refs| ==> args[k] == ArgFor(names, item, refs[k])
  {
    var byOrig := IndexParams(names);
    args := [];
    while |args| < |refs|
      invariant |args| <= |refs| && forall k :: 0 <= k < |args| ==> args[k] == ArgFor(names, item, refs[k])
    {
      var ref := refs[|args|];
      var base, field := Base(ref), Field(ref);
      if item == Some(base) {
        args := args + [Item(field)];
      } else if base in byOrig {
        args := args + [Arg(byOrig[base], field)];
      } else {
        args := args + [Unresolved(ref)];
      }
    }
  }

  // ---- meaning ----

  /** A call of the method: its arguments, the current element of a batch, and field selection. */
  datatype Call<!V> = Call(actuals: seq<V>, element: Option<V>, select: (V, string) -> V)

  /** What a rendered argument evaluates to in the generated method. */
  function Eval<V>(e: ArgExpr, call: Call<V>): Option<V> {
    match e
    case Arg(i, f) => if i < |call.actuals| then Some(call.select(call.actuals[i], f)) else None
    case Item(f) => if call.element.Some? then Some(call.select(call.element.value, f)) else None
    case Unresolved(_) => None
  }

  /** What stands in front of the first dot, or the whole of a reference without one. */
  predicate EndsBase(ref: string, n: nat) {
    n <= |ref| && (forall i :: 0 <= i < n ==> ref[i] != '.') && (n < |ref| ==> ref[n] == '.')
  }

  /** What :ref stands for: a field of the batch element or of the last parameter with that name. */
  ghost predicate Denotes<V>(names: seq<string>, item: Option<string>, call: Call<V>, ref: string, v: V) {
    exists n: nat :: EndsBase(ref, n) && Selects(names, item, call, ref[..n], ref[n..], v)
  }

  ghost predicate Selects<V>(names: seq<string>, item: Option<string>, call: Call<V>, base: string, field: string, v: V)
  {
    if item == Some(base) then call.element.Some? && v == call.select(call.element.value, field)
    else
      exists i: nat :: IsLastNamed(names, base, i) && i < |call.actuals| && v == call.select(call.actuals[i], field)
  }

  lemma DenotesIs<V>(names: seq<string>, item: Option<string>, call: Call<V>, ref: string, v: V)
    ensures Denotes(names, item, call, ref, v) <==> Selects(names, item, call, Base(ref), Field(ref), v)
  {
    hide Selects;
    assert EndsBase(ref, Dot(ref));
    if n: nat :| EndsBase(ref, n) && Selects(names, item, call, ref[..n], ref[n..], v) {
      assert n == Dot(ref);
    }
  }

  /** A statement after binding: characters and values; a placeholder that has no argument stays without one. */
  datatype Bound<V> = Fixed(c: char) | Value(v: V) | Missing

  /** What the driver executes: placeholder n takes the n-th value. */
  function Bind<V>(cells: seq<Cell>, values: seq<V>): (b: seq<Bound<V>>)
    ensures |b| == |cells|
    ensures forall i :: 0 <= i < |cells| ==> b[i].Fixed? == cells[i].Char?
  {
    seq(|cells|, i requires 0 <= i < |cells| => BoundCell(cells[i], values))
  }

  function BoundCell<V>(cell: Cell, values: seq<V>): Bound<V> {
    match cell
    case Char(c) => Fixed(c)
    case Hole(n) => if 1 <= n <= |values| then Value(values[n - 1]) else Missing
  }

  function FixedText<V>(text: string): seq<Bound<V>> {
    seq(|text|, i requires 0 <= i < |text| => Fixed(text[i]))
  }

  /** The SQL with every parameter replaced by a value that its name denotes. */
  ghost predicate Substitutes<V>(names: seq<string>, item: Option<string>, call: Call<V>, ps: seq<Piece>,
      b: seq<Bound<V>>)
  {
    if ps == [] then b == []
    else
      match ps[0]
      case Text(t) => |t| <= |b| && b[..|t|] == FixedText(t) && Substitutes(names, item, call, ps[1..], b[|t|..])
      case Param(name) =>
        && b != [] && b[0].Value? && Denotes(names, item, call, name, b[0].v)
        && Substitutes(names, item, call, ps[1..], b[1..])
  }

  /** Values stand exactly where the cells have holes. */
  ghost predicate SameShape<V>(b: seq<Bound<V>>, cells: seq<Cell>) {
    |b| == |cells| && forall i :: 0 <= i < |b| ==> b[i].Fixed? == cells[i].Char?
  }

  lemma ShapeOfConcat<V>(b: seq<Bound<V>>, k: nat, x: seq<Cell>, y: seq<Cell>)
    requires k <= |b| && SameShape(b[..k], x) && SameShape(b[k..], y)
    ensures SameShape(b, x + y)
  {
    assert forall i :: 0 <= i < k ==> b[i] == b[..k][i];
    assert forall i :: k <= i < |b| ==> b[i] == b[k..][i - k];
  }

  /** Such a statement has values exactly where holes are meant. */
  lemma {:induction false} SubstitutesShape<V>(names: seq<string>, item: Option<string>, call: Call<V>, ps: seq<Piece>,
      b: seq<Bound<V>>, n: nat)
    requires Substitutes(names, item, call, ps, b)
    ensures SameShape(b, Intended(ps, n))
  {
    hide Denotes, SameShape;
    if ps == [] {
      NoShape<V>();
    } else if ps[0].Text? {
      var k := |ps[0].text|;
      SubstitutesShape(names, item, call, ps[1..], b[k..], n);
      TextShape(b[..k], ps[0].text);
      ShapeOfConcat(b, k, Chars(ps[0].text), Intended(ps[1..], n));
    } else {
      SubstitutesShape(names, item, call, ps[1..], b[1..], n + 1);
      HoleShape(b[..1], n + 1);
      ShapeOfConcat(b, 1, [Hole(n + 1)], Intended(ps[1..], n + 1));
    }
  }

  lemma NoShape<V>()
    ensures SameShape<V>([], [])
  {
  }

  lemma TextShape<V>(b: seq<Bound<V>>, text: string)
    requires b == FixedText(text)
    ensures SameShape(b, Chars(text))
  {
  }

  lemma HoleShape<V>(b: seq<Bound<V>>, n: nat)
    requires |b| == 1 && b[0].Value?
    ensures SameShape(b, [Hole(n)])
  {
  }

  lemma BindBehind<V>(a: seq<Cell>, b: seq<Cell>, values: seq<V>)
    ensures Bind(a + b, values) == Bind(a, values) + Bind(b, values)
  {
  }

  lemma BindText<V>(text: string, values: seq<V>)
    ensures Bind(Chars(text), values) == FixedText(text)
  {
  }

  /** Binding what is meant substitutes the values. */
  lemma {:induction false} BindSubstitutes<V>(names: seq<string>, item: Option<string>, call: Call<V>, ps: seq<Piece>,
      values: seq<V>, n: nat)
    requires |values| == n + |Params(ps)|
    requires forall k :: n <= k < |values| ==> Denotes(names, item, call, Params(ps)[k - n], values[k])
    ensures Substitutes(names, item, call, ps, Bind(Intended(ps, n), values))
    decreases |ps|
  {
    hide Denotes, Bind;
    if ps != [] {
      var rest, params := ps[1..], Params(ps[1..]);
      var m := if ps[0].Param? then n + 1 else n;
      assert Params(ps) == (if ps[0].Param? then [ps[0].name] else []) + params;
      forall k | m <= k < |values| ensures Denotes(names, item, call, params[k - m], values[k]) {
        assert Params(ps)[k - n] == params[k - m];
      }
      BindSubstitutes(names, item, call, rest, values, m);
      var tail := Intended(rest, m);
      if ps[0].Text? {
        BindBehind(Chars(ps[0].text), tail, values);
        BindText(ps[0].text, values);
        AfterText(ps[0].text, Bind(tail, values));
      } else {
        BindBehind([Hole(n + 1)], tail, values);
        BindHole(n, values);
        AfterValue(values[n], Bind(tail, values));
        assert Params(ps)[n - n] == ps[0].name;
      }
    }
  }

  lemma BindHole<V>(n: nat, values: seq<V>)
    requires n < |values|
    ensures Bind([Hole(n + 1)], values) == [Value(values[n])]
  {
  }

  lemma AfterText<V>(text: string, tail: seq<Bound<V>>)
    ensures var b := FixedText(text) + tail; b[..|text|] == FixedText(text) && b[|text|..] == tail
  {
  }

  lemma AfterValue<V>(v: V, tail: seq<Bound<V>>)
    ensures ([Value(v)] + tail)[1..] == tail
  {
  }

  /** validateParams: every reference must name a parameter. */
  ghost predicate Validated(refs: seq<string>, names: seq<string>) {
    forall k :: 0 <= k < |refs| ==> Base(refs[k]) != "" && Base(refs[k]) in names
  }

  /** An argument evaluates exactly when validation accepts its reference, and then to what it denotes. */
  lemma ArgDenotes<V>(names: seq<string>, item: Option<string>, call: Call<V>, ref: string)
    requires |call.actuals| == |names| && (item.Some? ==> call.element.Some? && item.value in names && item.value != "")
    ensures var r := Eval(ArgFor(names, item, ref), call);
      && (r.Some? <==> Base(ref) != "" && Base(ref) in names)
      && (r.Some? ==> Denotes(names, item, call, ref, r.value))
  {
    hide Denotes;
    IndexOfNamed(names, Base(ref));
    forall v ensures Denotes(names, item, call, ref, v) <==> Selects(names, item, call, Base(ref), Field(ref), v) {
      DenotesIs(names, item, call, ref, v);
    }
    if IndexOf(names, Base(ref)).Some? {
      HasName(names, Base(ref));
      assert IsLastNamed(names, Base(ref), IndexOf(names, Base(ref)).value);
    }
  }

  /** The generated arguments evaluate to values that the references denote. */
  lemma ArgumentsEvaluate<V>(refs: seq<string>, names: seq<string>, item: Option<string>, call: Call<V>,
      args: seq<ArgExpr>)
    returns (values: seq<V>)
    requires |call.actuals| == |names| && (item.Some? ==> call.element.Some? && item.value in names && item.value != "")
    requires |args| == |refs| && forall k :: 0 <= k < |refs| ==> args[k] == ArgFor(names, item, refs[k])
    requires Validated(refs, names)
    ensures |values| == |args| && forall k :: 0 <= k < |args| ==>
      Eval(args[k], call) == Some(values[k]) && Denotes(names, item, call, refs[k], values[k])
  {
    hide Denotes, ArgFor, Eval;
    values := [];
    while |values| < |args|
      invariant |values| <= |args|
      invariant forall k :: 0 <= k < |values| ==>
                  Eval(args[k], call) == Some(values[k]) && Denotes(names, item, call, refs[k], values[k])
    {
      ArgDenotes(names, item, call, refs[|values|]);
      values := values + [Eval(args[|values|], call).value];
    }
  }

  /**
   The main result. For validated SQL the generated call has one value per parameter. When the driver reads the
   compiled text and binds these values, it executes the SQL with every name replaced by what it denotes, if and
   only if the SQL is clean: it has no placeholder of its own, and no parameter that touches a word, outside string
   literals.
   */
  lemma GeneratedCallMeansSql<V>(sql: string, d: Dialect, st: Style, names: seq<string>, item: Option<string>,
      call: Call<V>, args: seq<ArgExpr>)
    returns (values: seq<V>)
    requires Writes(d, st) && Proper(st)
    requires |call.actuals| == |names| && (item.Some? ==> call.element.Some? && item.value in names && item.value != "")
    requires var refs := CompileSpec(sql, d).params;
      |args| == |refs| && forall k :: 0 <= k < |refs| ==> args[k] == ArgFor(names, item, refs[k])
    requires Validated(CompileSpec(sql, d).params, names)
    ensures |values| == |args| && forall k :: 0 <= k < |args| ==> Eval(args[k], call) == Some(values[k])
    ensures var bound := Bind(DriverReads(st, CompileSpec(sql, d).sql, false, false, 0), values);
      Substitutes(names, item, call, Pieces(sql, false), bound) <==> IsClean(st, sql, false, false)
  {
    hide Pieces, Positional, Denotes, ArgFor, Params, Substitutes, Bind, Eval, DriverReads, Intended, IsClean;
    hide Writes, Proper;
    hide Validated;
    var ps := Pieces(sql, false);
    values := ArgumentsEvaluate(Params(ps), names, item, call, args);
    ReadsAsMeantIfClean(st, sql, d, 0, false, false);
    BindSubstitutes(names, item, call, ps, values, 0);
    var cells := DriverReads(st, CompileSpec(sql, d).sql, false, false, 0);
    if Differ(cells, Intended(ps, 0)) { MisreadIsNoSubstitute(names, item, call, ps, cells, values); }
  }

  /** A reading that differs from what is meant cannot be bound to a substitute. */
  lemma MisreadIsNoSubstitute<V>(names: seq<string>, item: Option<string>, call: Call<V>, ps: seq<Piece>,
      cells: seq<Cell>, values: seq<V>)
    requires Differ(cells, Intended(ps, 0))
    ensures !Substitutes(names, item, call, ps, Bind(cells, values))
  {
    hide Substitutes, Intended;
    var b := Bind(cells, values);
    if Substitutes(names, item, call, ps, b) { SubstitutesShape(names, item, call, ps, b, 0); }
  }
}
