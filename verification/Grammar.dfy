/**
 What the annotation language is, apart from how it is parsed. A value, an argument and a whole annotation are described
 by the places where their parts begin and end; the parser accepts exactly these, and yields exactly their values.
 */
module Grammar {
  import opened Model
  import opened Lexer
  import opened Value
  import opened Parser
  import opened Arguments

  /** The next token from p on is of this kind, and ends at q. */
  predicate Sees(s: string, p: nat, kind: Kind, q: nat) {
    p <= |s| && Lex(s, p).tok.kind == kind && Lex(s, p).next == q
  }

  /** A comma may stand in front of a closing bracket. */
  predicate Closes(s: string, p: nat, close: Kind, q: nat) {
    Sees(s, p, close, q) || (p <= |s| && Lex(s, p).tok.kind == Comma && Sees(s, Lex(s, p).next, close, q))
  }

  /** From p to q stand parts, the i-th of them between from[i] and to[i], with commas between them, and a bracket. */
  ghost predicate IsList(s: string, p: nat, from: seq<nat>, to: seq<nat>, close: Kind, q: nat) {
    var n := |from|;
    && |to| == n
    && if n == 0 then Sees(s, p, close, q)
       else
         && from[0] == p && Closes(s, to[n - 1], close, q)
         && forall i :: 0 <= i < n - 1 ==> Sees(s, to[i], Comma, from[i + 1])
  }

  /** v stands between p and q; depth brackets are open around it. */
  ghost predicate IsValue(s: string, p: nat, v: Value, q: nat, depth: nat)
    decreases v, 0
  {
    && depth <= 32 && p <= |s|
    && var word := Lex(s, p).tok.text;
       match v
       case StringValue(val, raw) => Sees(s, p, Str, q) && word == val && Lex(s, p).tok.raw == raw
       case IntValue(n) => Sees(s, p, IntLit, q) && ParseInt(word) == Some(n)
       case FloatValue(f) => Sees(s, p, FloatLit, q) && word in PARSE_FLOAT && PARSE_FLOAT[word] == f
       case BoolValue(b) => Sees(s, p, Ident, q) && word == if b then "true" else "false"
       case NullValue => Sees(s, p, Ident, q) && word == "null"
       case IdentValue(name) =>
         Sees(s, p, Ident, q) && word == name && name != "true" && name != "false" && name != "null"
       case ArrayValue(elements) =>
         && Lex(s, p).tok.kind == LBracket
         && exists from: seq<nat>, to: seq<nat> ::
              && |from| == |elements| && IsList(s, Lex(s, p).next, from, to, RBracket, q)
              && forall i :: 0 <= i < |elements| ==> IsValue(s, from[i], elements[i], to[i], depth + 1)
       case ObjectValue(fields) =>
         && Lex(s, p).tok.kind == LBrace
         && exists keys: seq<string>, from: seq<nat>, to: seq<nat> ::
              && |from| == |keys| && IsList(s, Lex(s, p).next, from, to, RBrace, q)
              && AreKeys(keys, fields)
              && forall i :: 0 <= i < |keys| ==>
                   keys[i] in fields && IsField(s, from[i], keys[i], fields[keys[i]], to[i], depth + 1)
  }

  ghost predicate IsField(s: string, p: nat, key: string, v: Value, q: nat, depth: nat)
    decreases v, 1
  {
    BeginsField(s, p, key) && IsValue(s, BehindEquals(s, p), v, q, depth)
  }

  /** Every key of the object is given once. */
  ghost predicate AreKeys(keys: seq<string>, fields: map<string, Value>) {
    && (forall i, j :: 0 <= i < j < |keys| ==> keys[i] != keys[j])
    && forall k :: k in keys <==> k in fields
  }

  /** A name and an equals sign. */
  predicate BeginsField(s: string, p: nat, name: string) {
    && p <= |s| && Lex(s, p).tok.kind == Ident && Lex(s, p).tok.text == name
    && Lex(s, Lex(s, p).next).tok.kind == Equals
  }

  function BehindEquals(s: string, p: nat): (q: nat)
    requires p <= |s|
    ensures p <= q <= |s|
  {
    Lex(s, Lex(s, p).next).next
  }

  /** The value that is parsed from p on. */
  function ParsedAt(s: string, p: nat, depth: nat): Parsed<Value>
    requires p <= |s|
  {
    ValueAt(s, Lex(s, p).tok, Lex(s, p).next, depth)
  }

  /** Behind an opening bracket comes the closing one or the first part. */
  lemma Opens(s: string, p: nat, depth: nat)
    requires p <= |s| && depth <= 32
    ensures p <= Lex(s, p).next <= |s|
    ensures var start := Lex(s, p).next; Lex(s, p).tok.kind == LBracket ==>
      p < start && ParsedAt(s, p, depth) == OpenedArray(s, start, depth)
    ensures var start := Lex(s, p).next; Lex(s, p).tok.kind == LBrace ==>
      p < start && ParsedAt(s, p, depth) == OpenedObject(s, start, depth)
  {
    hide Lex, ElementsAt, FieldsAt;
    var start := Lex(s, p).next;
    assert ArrayAt(s, start, depth) == OpenedArray(s, start, depth);
    assert ObjectAt(s, start, depth) == OpenedObject(s, start, depth);
    hide ArrayAt, ObjectAt;
  }

  function OpenedArray(s: string, start: nat, depth: nat): Parsed<Value>
    requires start <= |s|
  {
    if Lex(s, start).tok.kind == RBracket then Ok(ArrayValue([]), Lex(s, start).next)
    else ElementsAt(s, start, depth, [])
  }

  function OpenedObject(s: string, start: nat, depth: nat): Parsed<Value>
    requires start <= |s|
  {
    if Lex(s, start).tok.kind == RBrace then Ok(ObjectValue(map[]), Lex(s, start).next)
    else FieldsAt(s, start, depth, map[])
  }

  lemma ParsedIsNotDeep(s: string, p: nat, depth: nat)
    requires p <= |s| && ParsedAt(s, p, depth).Ok?
    ensures depth <= 32
  {
    hide Lex, ArrayAt, ObjectAt;
  }

  // ---- what is parsed is a value ----

  lemma {:induction false} ParsedIsValue(s: string, p: nat, depth: nat)
    requires p <= |s| && ParsedAt(s, p, depth).Ok?
    ensures IsValue(s, p, ParsedAt(s, p, depth).value, ParsedAt(s, p, depth).next, depth)
    decreases |s| - p, 1
  {
    hide Lex;
    var lex := Lex(s, p);
    if lex.tok.kind == LBracket {
      ParsedIsArray(s, p, depth);
    } else if lex.tok.kind == LBrace {
      ParsedIsObject(s, p, depth);
    }
  }

  lemma {:induction false} ParsedIsArray(s: string, p: nat, depth: nat)
    requires p <= |s| && Lex(s, p).tok.kind == LBracket && ParsedAt(s, p, depth).Ok?
    ensures IsValue(s, p, ParsedAt(s, p, depth).value, ParsedAt(s, p, depth).next, depth)
    decreases |s| - p, 0
  {
    hide Lex, ElementsAt, ParsedAt, IsList, IsValue;
    ParsedIsNotDeep(s, p, depth);
    Opens(s, p, depth);
    var start := Lex(s, p).next;
    var r := ParsedAt(s, p, depth);
    var from: seq<nat>, to: seq<nat> := [], [];
    if Lex(s, start).tok.kind == RBracket {
      EmptyList(s, start, RBracket, r.next);
    } else {
      from, to := ParsedAreElements(s, start, depth, []);
    }
    ListLength(s, start, from, to, RBracket, r.next);
    ArrayFromParts(s, p, r.value, r.next, depth, from, to);
  }

  lemma ArrayFromParts(s: string, p: nat, v: Value, q: nat, depth: nat, from: seq<nat>, to: seq<nat>)
    requires p <= |s| && depth <= 32 && Lex(s, p).tok.kind == LBracket && v.ArrayValue?
    requires |from| == |to| == |v.elements| && IsList(s, Lex(s, p).next, from, to, RBracket, q)
    requires forall i :: 0 <= i < |v.elements| ==> IsValue(s, from[i], v.elements[i], to[i], depth + 1)
    ensures IsValue(s, p, v, q, depth)
  {
    hide Lex, Sees, Closes;
  }

  lemma ArrayParts(s: string, p: nat, v: Value, q: nat, depth: nat) returns (from: seq<nat>, to: seq<nat>)
    requires v.ArrayValue? && IsValue(s, p, v, q, depth)
    ensures depth <= 32 && p <= |s| && Lex(s, p).tok.kind == LBracket
    ensures |from| == |to| == |v.elements| && IsList(s, Lex(s, p).next, from, to, RBracket, q)
    ensures ElementsStand(s, v, from, to, depth + 1)
  {
    hide Lex, Sees, Closes;
    from, to :|
      && |from| == |v.elements| && IsList(s, Lex(s, p).next, from, to, RBracket, q)
      && forall i :: 0 <= i < |v.elements| ==> IsValue(s, from[i], v.elements[i], to[i], depth + 1);
  }

  lemma EmptyList(s: string, p: nat, close: Kind, q: nat)
    ensures IsList(s, p, [], [], close, q) <==> Sees(s, p, close, q)
  {
  }

  /** A list begins with its first part; behind that it is closed, or another list comes behind a comma. */
  lemma ListStep(s: string, p: nat, to0: nat, from: seq<nat>, to: seq<nat>, close: Kind, q: nat)
    requires from == [] ==> Closes(s, to0, close, q)
    requires from != [] ==> Sees(s, to0, Comma, from[0]) && IsList(s, from[0], from, to, close, q)
    requires |from| == |to|
    ensures IsList(s, p, [p] + from, [to0] + to, close, q)
  {
    hide Closes, Sees;
    var from', to' := [p] + from, [to0] + to;
    forall i | 0 <= i < |from'| - 1 ensures Sees(s, to'[i], Comma, from'[i + 1]) {
      if i > 0 { assert Sees(s, to[i - 1], Comma, from[i - 1 + 1]); }
    }
  }

  lemma {:induction false} ParsedAreElements(s: string, p: nat, depth: nat, done: seq<Value>)
    returns (from: seq<nat>, to: seq<nat>)
    requires p <= |s| && ElementsAt(s, p, depth, done).Ok?
    ensures var r := ElementsAt(s, p, depth, done);
      && r.value.ArrayValue? && done <= r.value.elements
      && |from| == |r.value.elements| - |done| && from != [] && IsList(s, p, from, to, RBracket, r.next)
      && forall i :: 0 <= i < |from| ==> IsValue(s, from[i], r.value.elements[|done| + i], to[i], depth + 1)
    decreases |s| - p, 2
  {
    hide Lex, ValueAt, IsValue, IsList;
    var r := ElementsAt(s, p, depth, done);
    ParsedIsValue(s, p, depth + 1);
    var e := ParsedAt(s, p, depth + 1);
    var sep := Lex(s, e.next);
    var rest, ends: seq<nat> := [], [];
    ValueConsumes(s, p, depth + 1);
    if sep.tok.kind == Comma && Lex(s, sep.next).tok.kind != RBracket {
      rest, ends := ParsedAreElements(s, sep.next, depth, done + [e.value]);
      ListHead(s, sep.next, rest, ends, RBracket, r.next);
    }
    from, to := [p] + rest, [e.next] + ends;
    ListStep(s, p, e.next, rest, ends, RBracket, r.next);
    forall i | 0 <= i < |from| ensures IsValue(s, from[i], r.value.elements[|done| + i], to[i], depth + 1) {
      if i > 0 {
        assert from[i] == rest[i - 1] && to[i] == ends[i - 1];
        assert IsValue(s, rest[i - 1], r.value.elements[|done + [e.value]| + (i - 1)], ends[i - 1], depth + 1);
      } else {
        assert r.value.elements[|done|] == (done + [e.value])[|done|];
      }
    }
  }

  lemma ListHead(s: string, p: nat, from: seq<nat>, to: seq<nat>, close: Kind, q: nat)
    requires IsList(s, p, from, to, close, q) && from != []
    ensures from[0] == p && |to| == |from|
  {
  }

  lemma ValueConsumes(s: string, p: nat, depth: nat)
    requires p <= |s| && ParsedAt(s, p, depth).Ok?
    ensures p < Lex(s, p).next <= ParsedAt(s, p, depth).next <= |s|
  {
    hide Lex, ArrayAt, ObjectAt;
  }

  lemma {:induction false} ParsedIsObject(s: string, p: nat, depth: nat)
    requires p <= |s| && Lex(s, p).tok.kind == LBrace && ParsedAt(s, p, depth).Ok?
    ensures IsValue(s, p, ParsedAt(s, p, depth).value, ParsedAt(s, p, depth).next, depth)
    decreases |s| - p, 0
  {
    hide Lex, FieldsAt, ParsedAt, IsList, AreKeys, BeginsField, IsValue;
    ParsedIsNotDeep(s, p, depth);
    Opens(s, p, depth);
    var start := Lex(s, p).next;
    var r := ParsedAt(s, p, depth);
    var keys: seq<string>, from: seq<nat>, to: seq<nat> := [], [], [];
    if Lex(s, start).tok.kind == RBrace {
      EmptyList(s, start, RBrace, r.next);
      NoKeys();
    } else {
      keys, from, to := ParsedAreFields(s, start, depth, map[]);
      AllKeys(keys, r.value.fields);
    }
    ListLength(s, start, from, to, RBrace, r.next);
    ObjectFromParts(s, p, r.value, r.next, depth, keys, from, to);
  }

  lemma ObjectFromParts(s: string, p: nat, v: Value, q: nat, depth: nat, keys: seq<string>, from: seq<nat>,
      to: seq<nat>)
    requires p <= |s| && depth <= 32 && Lex(s, p).tok.kind == LBrace && FieldsStand(s, v, keys, from, to, depth + 1)
    requires IsList(s, Lex(s, p).next, from, to, RBrace, q) && AreKeys(keys, v.fields)
    ensures IsValue(s, p, v, q, depth)
  {
    hide Lex, Sees, Closes, BeginsField, AreKeys, IsField;
  }

  lemma NoKeys()
    ensures AreKeys([], map[])
  {
  }

  /** keys are what fields has beyond done. */
  ghost predicate Beyond(keys: seq<string>, done: map<string, Value>, fields: map<string, Value>) {
    && (forall i, j :: 0 <= i < j < |keys| ==> keys[i] != keys[j])
    && (forall i :: 0 <= i < |keys| ==> keys[i] !in done)
    && (forall k :: k in fields <==> k in done || k in keys)
    && (forall k :: k in done ==> k in fields && fields[k] == done[k])
  }

  lemma AllKeys(keys: seq<string>, fields: map<string, Value>)
    requires Beyond(keys, map[], fields)
    ensures AreKeys(keys, fields)
  {
  }

  lemma OneBeyond(key: string, v: Value, keys: seq<string>, done: map<string, Value>, fields: map<string, Value>)
    requires key !in done && Beyond(keys, done[key := v], fields)
    ensures Beyond([key] + keys, done, fields) && key in fields && fields[key] == v
  {
    var all := [key] + keys;
    forall i, j | 0 <= i < j < |all| ensures all[i] != all[j] {
      assert all[j] == keys[j - 1];
    }
    forall k ensures k in fields <==> k in done || k in all {
      assert k in all <==> k == key || k in keys;
    }
  }

  lemma LastBeyond(done: map<string, Value>)
    ensures Beyond([], done, done)
  {
  }

  /** One turn of the loop of parseObject. */
  lemma FieldIsParsed(s: string, p: nat, depth: nat, done: map<string, Value>)
    requires p <= |s| && FieldsAt(s, p, depth, done).Ok?
    ensures var key, start := Lex(s, p).tok.text, BehindEquals(s, p);
      && BeginsField(s, p, key) && key !in done && ParsedAt(s, start, depth + 1).Ok?
      && ParsedAt(s, start, depth + 1).next <= |s|
    ensures var r, e := FieldsAt(s, p, depth, done), ParsedAt(s, BehindEquals(s, p), depth + 1);
      var done' := done[Lex(s, p).tok.text := e.value];
      || (Closes(s, e.next, RBrace, r.next) && r.value == ObjectValue(done'))
      || (Sees(s, e.next, Comma, Lex(s, e.next).next) && r == FieldsAt(s, Lex(s, e.next).next, depth, done'))
  {
    hide Lex, ValueAt;
    var start := BehindEquals(s, p);
    assert ParsedAt(s, start, depth + 1) == ValueAt(s, Lex(s, start).tok, Lex(s, start).next, depth + 1);
  }

  lemma NextIsBehind(s: string, p: nat, depth: nat)
    requires p <= |s| && ParsedAt(s, BehindEquals(s, p), depth).Ok?
    ensures var e := ParsedAt(s, BehindEquals(s, p), depth); p < e.next <= Lex(s, e.next).next <= |s|
  {
    ValueConsumes(s, BehindEquals(s, p), depth);
    hide Lex, ParsedAt;
  }

  /** All the fields of v that keys name stand there. */
  ghost predicate FieldsStand(s: string, v: Value, keys: seq<string>, from: seq<nat>, to: seq<nat>, depth: nat) {
    && v.ObjectValue? && |from| == |to| == |keys|
    && forall i :: 0 <= i < |keys| ==>
         keys[i] in v.fields && IsField(s, from[i], keys[i], v.fields[keys[i]], to[i], depth)
  }

  lemma OneMoreStands(s: string, v: Value, key: string, p: nat, q: nat, keys: seq<string>, from: seq<nat>,
      to: seq<nat>, depth: nat)
    requires FieldsStand(s, v, keys, from, to, depth)
    requires key in v.fields && IsField(s, p, key, v.fields[key], q, depth)
    ensures FieldsStand(s, v, [key] + keys, [p] + from, [q] + to, depth)
  {
    hide IsField;
  }

  lemma {:induction false} ParsedAreFields(s: string, p: nat, depth: nat, done: map<string, Value>)
    returns (keys: seq<string>, from: seq<nat>, to: seq<nat>)
    requires p <= |s| && FieldsAt(s, p, depth, done).Ok?
    ensures var r := FieldsAt(s, p, depth, done);
      && r.value.ObjectValue? && Beyond(keys, done, r.value.fields)
      && from != [] && IsList(s, p, from, to, RBrace, r.next)
      && FieldsStand(s, r.value, keys, from, to, depth + 1)
    decreases |s| - p, 2
  {
    hide Lex, ParsedAt, FieldsAt, IsValue, IsList, Beyond, FieldsStand, BeginsField, Closes, Sees;
    var r := FieldsAt(s, p, depth, done);
    var key, start := Lex(s, p).tok.text, BehindEquals(s, p);
    FieldIsParsed(s, p, depth, done);
    ParsedIsValue(s, start, depth + 1);
    NextIsBehind(s, p, depth + 1);
    var e := ParsedAt(s, start, depth + 1);
    var names, rest, ends := [], [], [];
    if Closes(s, e.next, RBrace, r.next) && r.value == ObjectValue(done[key := e.value]) {
      LastBeyond(done[key := e.value]);
      NoneStand(s, r.value, depth + 1);
    } else {
      names, rest, ends := ParsedAreFields(s, Lex(s, e.next).next, depth, done[key := e.value]);
      ListHead(s, Lex(s, e.next).next, rest, ends, RBrace, r.next);
    }
    keys, from, to := [key] + names, [p] + rest, [e.next] + ends;
    OneBeyond(key, e.value, names, done, r.value.fields);
    ListStep(s, p, e.next, rest, ends, RBrace, r.next);
    OneMoreStands(s, r.value, key, p, e.next, names, rest, ends, depth + 1);
  }

  lemma NoneStand(s: string, v: Value, depth: nat)
    requires v.ObjectValue?
    ensures FieldsStand(s, v, [], [], [], depth)
  {
  }

  // ---- every value is parsed ----

  lemma {:induction false} ValueIsParsed(s: string, p: nat, v: Value, q: nat, depth: nat)
    requires IsValue(s, p, v, q, depth)
    ensures ParsedAt(s, p, depth) == Ok(v, q)
    decreases v, 1
  {
    hide Lex, ArrayAt, ObjectAt;
    match v {
      case ArrayValue(_) => ArrayIsParsed(s, p, v, q, depth);
      case ObjectValue(_) => ObjectIsParsed(s, p, v, q, depth);
      case _ =>
    }
  }

  lemma ValueBegins(s: string, p: nat, v: Value, q: nat, depth: nat)
    requires IsValue(s, p, v, q, depth)
    ensures p <= |s| && Lex(s, p).tok.kind != RBracket && Lex(s, p).tok.kind != RBrace
  {
    hide Lex, IsList, AreKeys, BeginsField;
  }

  /** An array without elements, and one whose elements the loop of parseArray reads. */
  lemma ArrayOpens(s: string, p: nat, v: Value, q: nat, depth: nat)
    requires v.ArrayValue? && depth <= 32 && p <= |s| && Lex(s, p).tok.kind == LBracket
    ensures v.elements == [] && Sees(s, Lex(s, p).next, RBracket, q) ==> ParsedAt(s, p, depth) == Ok(v, q)
    ensures Lex(s, Lex(s, p).next).tok.kind != RBracket && ElementsAt(s, Lex(s, p).next, depth, []) == Ok(v, q) ==>
      ParsedAt(s, p, depth) == Ok(v, q)
  {
    hide Lex, ElementsAt, ParsedAt;
    Opens(s, p, depth);
  }

  lemma {:induction false} ArrayIsParsed(s: string, p: nat, v: Value, q: nat, depth: nat)
    requires v.ArrayValue? && IsValue(s, p, v, q, depth)
    ensures ParsedAt(s, p, depth) == Ok(v, q)
    decreases v, 0
  {
    hide *;
    var from, to := ArrayParts(s, p, v, q, depth);
    ArrayOpens(s, p, v, q, depth);
    var start := Lex(s, p).next;
    if from == [] {
      assert to == [];
      EmptyList(s, start, RBracket, q);
    } else {
      ListHead(s, start, from, to, RBracket, q);
      ElementStands(s, v, from, to, depth + 1, 0);
      ValueBegins(s, from[0], v.elements[0], to[0], depth + 1);
      ElementsAreParsed(s, start, v, from, to, q, depth, 0);
      assert v.elements[..0] == [];
    }
  }

  lemma ListLength(s: string, p: nat, from: seq<nat>, to: seq<nat>, close: Kind, q: nat)
    requires IsList(s, p, from, to, close, q)
    ensures |to| == |from|
  {
  }

  /** One turn of the loop of parseArray over an element that stands there. */
  lemma ElementIsRead(s: string, p: nat, depth: nat, done: seq<Value>, v: Value, q: nat)
    requires p <= |s| && ParsedAt(s, p, depth + 1) == Ok(v, q)
    ensures forall end :: Closes(s, q, RBracket, end) ==>
      ElementsAt(s, p, depth, done) == Ok(ArrayValue(done + [v]), end)
    ensures q <= |s|
    ensures var sep := Lex(s, q); sep.tok.kind == Comma && Lex(s, sep.next).tok.kind != RBracket ==>
      ElementsAt(s, p, depth, done) == ElementsAt(s, sep.next, depth, done + [v])
  {
    hide Lex, ValueAt;
    assert ParsedAt(s, p, depth + 1) == ValueAt(s, Lex(s, p).tok, Lex(s, p).next, depth + 1);
  }

  ghost predicate ElementsStand(s: string, v: Value, from: seq<nat>, to: seq<nat>, depth: nat) {
    && v.ArrayValue? && |from| == |to| == |v.elements|
    && forall i :: 0 <= i < |v.elements| ==> IsValue(s, from[i], v.elements[i], to[i], depth)
  }

  lemma ElementStands(s: string, v: Value, from: seq<nat>, to: seq<nat>, depth: nat, i: nat)
    requires v.ArrayValue? && |from| == |to| == |v.elements| && i < |from| && ElementsStand(s, v, from, to, depth)
    ensures IsValue(s, from[i], v.elements[i], to[i], depth)
  {
    hide IsValue;
  }

  lemma {:induction false} ElementsAreParsed(s: string, p: nat, v: Value, from: seq<nat>, to: seq<nat>, q: nat,
      depth: nat, i: nat)
    requires v.ArrayValue? && |from| == |to| == |v.elements| && i < |from|
    requires IsList(s, p, from, to, RBracket, q) && ElementsStand(s, v, from, to, depth + 1)
    ensures from[i] <= |s| && ElementsAt(s, from[i], depth, v.elements[..i]) == Ok(v, q)
    decreases v, 0, |from| - i
  {
    hide Lex, ParsedAt, ElementsAt, IsValue, ElementsStand;
    ElementStands(s, v, from, to, depth + 1, i);
    ValueIsParsed(s, from[i], v.elements[i], to[i], depth + 1);
    ValueBegins(s, from[i], v.elements[i], to[i], depth + 1);
    assert v.elements[..i] + [v.elements[i]] == v.elements[..i + 1];
    ElementIsRead(s, from[i], depth, v.elements[..i], v.elements[i], to[i]);
    if i + 1 < |from| {
      assert Sees(s, to[i], Comma, from[i + 1]);
      ElementStands(s, v, from, to, depth + 1, i + 1);
      ValueBegins(s, from[i + 1], v.elements[i + 1], to[i + 1], depth + 1);
      ElementsAreParsed(s, p, v, from, to, q, depth, i + 1);
    } else {
      assert v.elements[..i + 1] == v.elements;
    }
  }

  /** The first n of the fields. */
  ghost function Fields(fields: map<string, Value>, keys: seq<string>, n: nat): map<string, Value>
    requires n <= |keys|
  {
    map k | k in fields && k in keys[..n] :: fields[k]
  }

  lemma OneMoreField(fields: map<string, Value>, keys: seq<string>, n: nat)
    requires AreKeys(keys, fields) && n < |keys|
    ensures keys[n] in fields && keys[n] !in Fields(fields, keys, n)
    ensures Fields(fields, keys, n + 1) == Fields(fields, keys, n)[keys[n] := fields[keys[n]]]
    ensures n + 1 == |keys| ==> Fields(fields, keys, n + 1) == fields
  {
    assert keys[..n + 1] == keys[..n] + [keys[n]];
    assert keys[n] in keys;
  }

  /** An object without fields, and one whose fields the loop of parseObject reads. */
  lemma ObjectOpens(s: string, p: nat, v: Value, q: nat, depth: nat)
    requires v.ObjectValue? && depth <= 32 && p <= |s| && Lex(s, p).tok.kind == LBrace
    ensures v.fields == map[] && Sees(s, Lex(s, p).next, RBrace, q) ==> ParsedAt(s, p, depth) == Ok(v, q)
    ensures Lex(s, Lex(s, p).next).tok.kind != RBrace && FieldsAt(s, Lex(s, p).next, depth, map[]) == Ok(v, q) ==>
      ParsedAt(s, p, depth) == Ok(v, q)
  {
    hide Lex, FieldsAt, ParsedAt;
    Opens(s, p, depth);
  }

  lemma {:induction false} ObjectIsParsed(s: string, p: nat, v: Value, q: nat, depth: nat)
    requires v.ObjectValue? && IsValue(s, p, v, q, depth)
    ensures ParsedAt(s, p, depth) == Ok(v, q)
    decreases v, 0
  {
    hide *;
    var keys, from, to := ObjectParts(s, p, v, q, depth);
    ObjectOpens(s, p, v, q, depth);
    var start := Lex(s, p).next;
    ListLength(s, start, from, to, RBrace, q);
    if from == [] {
      assert to == [];
      EmptyList(s, start, RBrace, q);
      NoKeyNoField(v.fields, keys);
    } else {
      ListHead(s, start, from, to, RBrace, q);
      FieldStands(s, v, keys, from, to, depth + 1, 0);
      FieldBegins(s, from[0], keys[0]);
      FieldsAreParsed(s, start, v, keys, from, to, q, depth, 0);
      NoFields(v.fields, keys);
    }
  }

  lemma NoKeyNoField(fields: map<string, Value>, keys: seq<string>)
    requires AreKeys(keys, fields) && keys == []
    ensures fields == map[]
  {
    assert fields.Keys == {};
  }

  lemma NoFields(fields: map<string, Value>, keys: seq<string>)
    ensures Fields(fields, keys, 0) == map[]
  {
  }

  lemma ObjectParts(s: string, p: nat, v: Value, q: nat, depth: nat)
    returns (keys: seq<string>, from: seq<nat>, to: seq<nat>)
    requires v.ObjectValue? && IsValue(s, p, v, q, depth)
    ensures depth <= 32 && p <= |s| && Lex(s, p).tok.kind == LBrace
    ensures |from| == |to| == |keys| && FieldsStand(s, v, keys, from, to, depth + 1)
    ensures IsList(s, Lex(s, p).next, from, to, RBrace, q) && AreKeys(keys, v.fields)
  {
    hide Lex, BeginsField, AreKeys, Sees, Closes, IsField;
    keys, from, to :|
      && |from| == |keys| && IsList(s, Lex(s, p).next, from, to, RBrace, q) && AreKeys(keys, v.fields)
      && forall i :: 0 <= i < |keys| ==>
           keys[i] in v.fields && IsField(s, from[i], keys[i], v.fields[keys[i]], to[i], depth + 1);
  }

  lemma FieldBegins(s: string, p: nat, key: string)
    requires BeginsField(s, p, key)
    ensures p <= |s| && Lex(s, p).tok.kind == Ident
  {
    hide Lex;
  }

  lemma FieldStands(s: string, v: Value, keys: seq<string>, from: seq<nat>, to: seq<nat>, depth: nat, i: nat)
    requires FieldsStand(s, v, keys, from, to, depth) && i < |keys|
    ensures keys[i] in v.fields && BeginsField(s, from[i], keys[i]) && from[i] <= |s|
    ensures IsValue(s, BehindEquals(s, from[i]), v.fields[keys[i]], to[i], depth)
  {
    hide IsValue, Lex;
    assert IsField(s, from[i], keys[i], v.fields[keys[i]], to[i], depth);
  }

  /** One turn of the loop of parseObject over a field that stands there. */
  lemma FieldIsRead(s: string, p: nat, depth: nat, done: map<string, Value>, key: string, v: Value, q: nat)
    requires BeginsField(s, p, key) && key !in done && ParsedAt(s, BehindEquals(s, p), depth + 1) == Ok(v, q)
    ensures forall end :: Closes(s, q, RBrace, end) ==>
      FieldsAt(s, p, depth, done) == Ok(ObjectValue(done[key := v]), end)
    ensures q <= |s|
    ensures var sep := Lex(s, q); sep.tok.kind == Comma && Lex(s, sep.next).tok.kind != RBrace ==>
      FieldsAt(s, p, depth, done) == FieldsAt(s, sep.next, depth, done[key := v])
  {
    hide Lex, ValueAt;
    var start := BehindEquals(s, p);
    assert ParsedAt(s, start, depth + 1) == ValueAt(s, Lex(s, start).tok, Lex(s, start).next, depth + 1);
  }

  lemma {:induction false} FieldsAreParsed(s: string, p: nat, v: Value, keys: seq<string>, from: seq<nat>, to: seq<nat>,
      q: nat, depth: nat, i: nat)
    requires v.ObjectValue? && |from| == |to| == |keys| && i < |from|
    requires FieldsStand(s, v, keys, from, to, depth + 1) && AreKeys(keys, v.fields)
    requires IsList(s, p, from, to, RBrace, q)
    ensures from[i] <= |s| && FieldsAt(s, from[i], depth, Fields(v.fields, keys, i)) == Ok(v, q)
    decreases v, 0, |from| - i
  {
    hide Lex, ParsedAt, FieldsAt, IsValue, AreKeys, Fields, BeginsField, FieldsStand;
    FieldStands(s, v, keys, from, to, depth + 1, i);
    var e := v.fields[keys[i]];
    ValueIsParsed(s, BehindEquals(s, from[i]), e, to[i], depth + 1);
    OneMoreField(v.fields, keys, i);
    FieldIsRead(s, from[i], depth, Fields(v.fields, keys, i), keys[i], e, to[i]);
    if i + 1 < |from| {
      assert Sees(s, to[i], Comma, from[i + 1]);
      FieldStands(s, v, keys, from, to, depth + 1, i + 1);
      FieldBegins(s, from[i + 1], keys[i + 1]);
      FieldsAreParsed(s, p, v, keys, from, to, q, depth, i + 1);
    }
  }

  /** The parser reads from p on exactly the value that stands there. */
  lemma ValueIsExact(s: string, p: nat, v: Value, q: nat, depth: nat)
    requires p <= |s|
    ensures ValueAt(s, Lex(s, p).tok, Lex(s, p).next, depth) == Ok(v, q) <==> IsValue(s, p, v, q, depth)
  {
    hide *;
    assert ParsedAt(s, p, depth) == ValueAt(s, Lex(s, p).tok, Lex(s, p).next, depth) by { ParsedAtIs(s, p, depth); }
    if ParsedAt(s, p, depth) == Ok(v, q) { ParsedIsValue(s, p, depth); }
    if IsValue(s, p, v, q, depth) { ValueIsParsed(s, p, v, q, depth); }
  }

  lemma ParsedAtIs(s: string, p: nat, depth: nat)
    requires p <= |s|
    ensures ParsedAt(s, p, depth) == ValueAt(s, Lex(s, p).tok, Lex(s, p).next, depth)
  {
  }

  // ---- arguments ----

  /** An argument between p and q: a value, or a name, an equals sign and a value. */
  ghost predicate IsArgument(s: string, p: nat, item: Item, q: nat) {
    match item.name
    case Some(x) => BeginsField(s, p, x) && IsValue(s, BehindEquals(s, p), item.value, q, 0)
    case None => IsValue(s, p, item.value, q, 0)
  }

  ghost predicate AreArguments(s: string, p: nat, items: seq<Item>, from: seq<nat>, to: seq<nat>, q: nat) {
    && |from| == |items| && IsList(s, p, from, to, RParen, q)
    && forall i :: 0 <= i < |items| ==> IsArgument(s, from[i], items[i], to[i])
  }

  ghost predicate HasArguments(s: string, p: nat, items: seq<Item>, q: nat) {
    exists from: seq<nat>, to: seq<nat> :: AreArguments(s, p, items, from, to, q)
  }

  lemma ParsedIsArgument(s: string, p: nat)
    requires p <= |s| && ItemAt(s, p).Ok?
    ensures IsArgument(s, p, ItemAt(s, p).value, ItemAt(s, p).next) && p < ItemAt(s, p).next <= |s|
  {
    hide Lex, ValueAt, IsValue;
    var first := Lex(s, p);
    if first.tok.kind == Ident && Lex(s, first.next).tok.kind == Equals {
      ParsedIsValue(s, BehindEquals(s, p), 0);
      ValueConsumes(s, BehindEquals(s, p), 0);
    } else {
      ParsedIsValue(s, p, 0);
      ValueConsumes(s, p, 0);
    }
  }

  /** A word in front of an equals sign is a name; but then no comma or bracket follows on the word. */
  lemma ArgumentIsParsed(s: string, p: nat, item: Item, q: nat)
    requires IsArgument(s, p, item, q) && q <= |s| && Lex(s, q).tok.kind != Equals
    ensures p <= |s| && ItemAt(s, p) == Ok(item, q)
  {
    hide Lex, ValueAt, IsValue;
    match item.name {
      case Some(x) => ValueIsParsed(s, BehindEquals(s, p), item.value, q, 0);
      case None =>
        ValueIsParsed(s, p, item.value, q, 0);
        WordEndsAt(s, p, item.value, q, 0);
    }
  }

  lemma WordEndsAt(s: string, p: nat, v: Value, q: nat, depth: nat)
    requires IsValue(s, p, v, q, depth)
    ensures p <= |s| && (Lex(s, p).tok.kind == Ident ==> Lex(s, p).next == q) && Lex(s, p).tok.kind != Error
    ensures Lex(s, p).tok.kind != RParen
  {
    hide Lex, IsList, AreKeys, BeginsField;
  }

  lemma {:induction false} ParsedAreArguments(s: string, p: nat, done: seq<Item>)
    returns (from: seq<nat>, to: seq<nat>)
    requires p <= |s| && ItemsFrom(s, p, done).Ok?
    ensures var r := ItemsFrom(s, p, done);
      && done <= r.value && from != [] && AreArguments(s, p, r.value[|done|..], from, to, r.next)
    decreases |s| - p
  {
    hide Lex, ItemAt, IsArgument, IsList;
    var r := ItemsFrom(s, p, done);
    ParsedIsArgument(s, p);
    var e := ItemAt(s, p);
    var sep := Lex(s, e.next);
    var rest, ends: seq<nat> := [], [];
    if sep.tok.kind == Comma && Lex(s, sep.next).tok.kind != RParen {
      rest, ends := ParsedAreArguments(s, sep.next, done + [e.value]);
      ListHead(s, sep.next, rest, ends, RParen, r.next);
    }
    from, to := [p] + rest, [e.next] + ends;
    ListStep(s, p, e.next, rest, ends, RParen, r.next);
    assert r.value[|done|..] == [e.value] + r.value[|done| + 1..];
    var items, more := r.value[|done|..], r.value[|done| + 1..];
    forall i | 0 <= i < |items| ensures IsArgument(s, from[i], items[i], to[i]) {
      if i > 0 { assert IsArgument(s, rest[i - 1], more[i - 1], ends[i - 1]); }
    }
  }

  lemma {:induction false} ArgumentsAreParsed(s: string, p: nat, items: seq<Item>, from: seq<nat>, to: seq<nat>, q: nat,
      i: nat)
    requires AreArguments(s, p, items, from, to, q) && i < |from|
    ensures from[i] <= |s| && ItemsFrom(s, from[i], items[..i]) == Ok(items, q)
    decreases |from| - i
  {
    hide Lex, ItemAt, IsArgument;
    ArgumentStands(s, p, items, from, to, q, i);
    assert items[..i] + [items[i]] == items[..i + 1];
    if i + 1 < |from| {
      assert Sees(s, to[i], Comma, from[i + 1]);
      ArgumentBegins(s, from[i + 1], items[i + 1], to[i + 1]);
      ArgumentsAreParsed(s, p, items, from, to, q, i + 1);
    } else {
      assert items[..i + 1] == items;
    }
  }

  lemma ArgumentStands(s: string, p: nat, items: seq<Item>, from: seq<nat>, to: seq<nat>, q: nat, i: nat)
    requires AreArguments(s, p, items, from, to, q) && i < |from|
    ensures from[i] <= |s| && ItemAt(s, from[i]) == Ok(items[i], to[i])
  {
    hide Lex, ItemAt, IsArgument;
    assert IsArgument(s, from[i], items[i], to[i]);
    if i + 1 < |from| { assert Sees(s, to[i], Comma, from[i + 1]); }
    ArgumentIsParsed(s, from[i], items[i], to[i]);
  }

  lemma ArgumentBegins(s: string, p: nat, item: Item, q: nat)
    requires IsArgument(s, p, item, q)
    ensures p <= |s| && Lex(s, p).tok.kind != RParen
  {
    hide Lex, IsValue;
    if item.name.None? { WordEndsAt(s, p, item.value, q, 0); }
  }

  /** The arguments behind '(' are exactly those that stand there. */
  lemma ArgumentsAreExact(s: string, p: nat, items: seq<Item>, q: nat)
    requires p <= |s|
    ensures ItemsAt(s, p) == Ok(items, q) <==> HasArguments(s, p, items, q)
  {
    hide Lex, IsArgument, ItemsFrom, IsList;
    if ItemsAt(s, p) == Ok(items, q) {
      if Lex(s, p).tok.kind == RParen {
        EmptyList(s, p, RParen, q);
        assert AreArguments(s, p, items, [], [], q);
      } else {
        var from, to := ParsedAreArguments(s, p, []);
        assert items[0..] == items;
      }
    }
    if from: seq<nat>, to: seq<nat> :| AreArguments(s, p, items, from, to, q) {
      if from == [] {
        assert to == [] by { ListLength(s, p, from, to, RParen, q); }
        EmptyList(s, p, RParen, q);
      } else {
        ListHead(s, p, from, to, RParen, q);
        ArgumentBegins(s, from[0], items[0], to[0]);
        ArgumentsAreParsed(s, p, items, from, to, q, 0);
        assert items[..0] == [];
      }
    }
  }

  // ---- annotations ----

  /** Only one map is bound by a list of arguments. */
  lemma BindingIsUnique(items: seq<Item>, a: map<string, Value>, b: map<string, Value>)
    requires BoundBy(items, a) && BoundBy(items, b)
    ensures a == b
  {
    hide KeyOf;
    forall x ensures x in a <==> x in b {
      if x in a { var k :| 0 <= k < |items| && KeyOf(items, k) == x; }
      if x in b { var k :| 0 <= k < |items| && KeyOf(items, k) == x; }
    }
    forall x | x in a ensures a[x] == b[x] {
      var k :| 0 <= k < |items| && KeyOf(items, k) == x;
      var last := LastOfKey(items, k);
    }
  }

  lemma {:induction false} LastOfKey(items: seq<Item>, k: nat) returns (last: nat)
    requires k < |items|
    ensures k <= last < |items| && IsLastOfKey(items, last) && KeyOf(items, last) == KeyOf(items, k)
    decreases |items| - k
  {
    hide KeyOf;
    if IsLastOfKey(items, k) {
      last := k;
    } else {
      var j :| k < j < |items| && KeyOf(items, j) == KeyOf(items, k);
      last := LastOfKey(items, j);
    }
  }

  /** An at sign, a name and perhaps a list of arguments, and nothing behind it. */
  ghost predicate IsAnnotation(s: string, name: string, args: map<string, Value>, at: nat) {
    var name0 := Lex(s, 0).next;
    var behind := Lex(s, name0).next;
    && Lex(s, 0).tok.kind == At && Lex(s, 0).tok.offset == at
    && Lex(s, name0).tok.kind == Ident && Lex(s, name0).tok.text == name
    && if Lex(s, behind).tok.kind == EOF then args == map[]
       else
         && Lex(s, behind).tok.kind == LParen
         && EndsWithArguments(s, Lex(s, behind).next, args)
  }

  /** The parser accepts exactly the annotations. */
  lemma AnnotationIsExact(s: string, name: string, args: map<string, Value>, at: nat)
    ensures AnnotationIn(s) == Annotated(name, args, at) <==> IsAnnotation(s, name, args, at)
  {
    hide Lex, ArgumentsAt, HasArguments, NamesAreFree, BoundBy, ItemsAt;
    var behind := Lex(s, Lex(s, 0).next).next;
    if Lex(s, behind).tok.kind == LParen {
      var p := Lex(s, behind).next;
      ListIsExact(s, p, args);
    }
  }

  /** A closed list and nothing behind it. */
  ghost predicate EndsWithArguments(s: string, p: nat, args: map<string, Value>) {
    exists items: seq<Item>, q: nat ::
      && HasArguments(s, p, items, q) && q <= |s| && Lex(s, q).tok.kind == EOF
      && NamesAreFree(items) && BoundBy(items, args)
  }

  lemma ListIsExact(s: string, p: nat, args: map<string, Value>)
    requires p <= |s|
    ensures (var r := ArgumentsAt(s, p); r.Ok? && r.value == args && Lex(s, r.next).tok.kind == EOF)
      <==> EndsWithArguments(s, p, args)
  {
    hide Lex, ArgumentsAt, HasArguments, NamesAreFree, BoundBy, ItemsAt;
    ArgumentsAreBound(s, p);
    var r, all := ArgumentsAt(s, p), ItemsAt(s, p);
    if r.Ok? && r.value == args && Lex(s, r.next).tok.kind == EOF {
      ArgumentsAreExact(s, p, all.value, all.next);
    }
    if items: seq<Item>, q: nat :|
      && HasArguments(s, p, items, q) && q <= |s| && Lex(s, q).tok.kind == EOF
      && NamesAreFree(items) && BoundBy(items, args)
    {
      ArgumentsAreExact(s, p, items, q);
      BindingIsUnique(items, args, r.value);
    }
  }

  /**
   Prose that only mentions an annotation: behind an at sign and a name comes something else than a list, or a list that
   is in order has something behind it.
   */
  ghost predicate IsMention(s: string) {
    var name := Lex(s, 0).next;
    var behind := Lex(s, name).next;
    && Lex(s, 0).tok.kind == At && Lex(s, name).tok.kind == Ident && Lex(s, behind).tok.kind != EOF
    && (Lex(s, behind).tok.kind == LParen ==> GoesOn(s, Lex(s, behind).next))
  }

  ghost predicate GoesOn(s: string, p: nat) {
    exists items: seq<Item>, q: nat ::
      HasArguments(s, p, items, q) && NamesAreFree(items) && q <= |s| && Lex(s, q).tok.kind != EOF
  }

  /** Exactly mentions are passed over in silence; what is neither one nor an annotation gives a diagnostic. */
  lemma MentionIsExact(s: string)
    ensures AnnotationIn(s) == Mention <==> IsMention(s)
  {
    hide Lex, ArgumentsAt, GoesOn;
    var behind := Lex(s, Lex(s, 0).next).next;
    if Lex(s, behind).tok.kind == LParen { ArgumentsGoOn(s, Lex(s, behind).next); }
  }

  lemma ArgumentsGoOn(s: string, p: nat)
    requires p <= |s|
    ensures (var r := ArgumentsAt(s, p); r.Ok? && Lex(s, r.next).tok.kind != EOF) <==> GoesOn(s, p)
  {
    hide Lex, ArgumentsAt, HasArguments, NamesAreFree, BoundBy, ItemsAt;
    ArgumentsAreBound(s, p);
    var all := ItemsAt(s, p);
    if all.Ok? { ArgumentsAreExact(s, p, all.value, all.next); }
    if items: seq<Item>, q: nat :|
      HasArguments(s, p, items, q) && NamesAreFree(items) && q <= |s| && Lex(s, q).tok.kind != EOF
    {
      ArgumentsAreExact(s, p, items, q);
    }
  }
}
