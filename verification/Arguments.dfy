/** What an annotation's argument list means: which argument each key keeps, and when the list is refused. */
module Arguments {
  import opened Model
  import opened Lexer
  import opened Value
  import opened Parser

  /** An argument as it is written: with a name, or positional. */
  datatype Item = Item(name: Option<string>, value: Value)

  /** One argument, whatever was bound before. */
  function ItemAt(s: string, p: nat): (r: Parsed<Item>)
    requires p <= |s|
    ensures r.Ok? ==> p <= r.next <= |s|
  {
    var first := Lex(s, p);
    var eq := Lex(s, first.next);
    if first.tok.kind == Error then SyntaxError(first.tok, Lexical(first.tok.text))
    else if first.tok.kind == Ident && eq.tok.kind == Equals then
      var val := Lex(s, eq.next);
      match ValueAt(s, val.tok, val.next, 0)
      case Err(d) => Err(d)
      case Ok(v, p') => Ok(Item(Some(first.tok.text), v), p')
    else
      match ValueAt(s, first.tok, first.next, 0)
      case Err(d) => Err(d)
      case Ok(v, p') => Ok(Item(None, v), p')
  }

  /** The arguments from p on, behind those already read. */
  function ItemsFrom(s: string, p: nat, done: seq<Item>): (r: Parsed<seq<Item>>)
    requires p <= |s|
    ensures r.Ok? ==> done <= r.value
    decreases |s| - p
  {
    match ItemAt(s, p)
    case Err(d) => Err(d)
    case Ok(item, p') =>
      var sep := Lex(s, p');
      match sep.tok.kind
      case Comma =>
        var closing := Lex(s, sep.next);
        if closing.tok.kind == RParen then Ok(done + [item], closing.next)
        else ItemsFrom(s, sep.next, done + [item])
      case RParen => Ok(done + [item], sep.next)
      case _ => SyntaxError(sep.tok, ArgumentSeparator(sep.tok.kind))
  }

  /** The arguments of a list behind '('; what they are called and bound to plays no role yet. */
  function ItemsAt(s: string, p: nat): Parsed<seq<Item>>
    requires p <= |s|
  {
    var first := Lex(s, p);
    if first.tok.kind == RParen then Ok([], first.next) else ItemsFrom(s, p, [])
  }

  function Positionals(items: seq<Item>): nat {
    if items == [] then 0
    else
      var n := |items| - 1;
      Positionals(items[..n]) + if items[n].name.None? then 1 else 0
  }

  /** The key of argument k: its name, or value, value1, value2, ... by its place among the positional ones. */
  function KeyOf(items: seq<Item>, k: nat): string
    requires k < |items|
  {
    match items[k].name
    case Some(x) => x
    case None => if Positionals(items[..k]) == 0 then "value" else "value" + Decimal(Positionals(items[..k]))
  }

  /** No argument is given by a name that an earlier one already has for its key. */
  ghost predicate NamesAreFree(items: seq<Item>) {
    forall i, k :: 0 <= i < k < |items| && items[k].name.Some? ==> KeyOf(items, i) != KeyOf(items, k)
  }

  ghost predicate IsLastOfKey(items: seq<Item>, k: nat)
    requires k < |items|
  {
    forall j :: k < j < |items| ==> KeyOf(items, j) != KeyOf(items, k)
  }

  /** Exactly the keys of the arguments are bound, each to the last argument of that key. */
  ghost predicate BoundBy(items: seq<Item>, args: Arguments) {
    && (forall x :: x in args ==> exists k :: 0 <= k < |items| && KeyOf(items, k) == x)
    && forall k :: 0 <= k < |items| ==>
         KeyOf(items, k) in args && (IsLastOfKey(items, k) ==> args[KeyOf(items, k)] == items[k].value)
  }

  ghost predicate Reached(items: seq<Item>, b: Bindings) {
    NamesAreFree(items) && BoundBy(items, b.args) && b.positional == Positionals(items)
  }

  lemma KeyStays(items: seq<Item>, item: Item, k: nat)
    requires k < |items|
    ensures KeyOf(items + [item], k) == KeyOf(items, k)
  {
    assert (items + [item])[..k] == items[..k];
  }

  lemma NewKey(items: seq<Item>, item: Item)
    ensures Positionals(items + [item]) == Positionals(items) + if item.name.None? then 1 else 0
    ensures KeyOf(items + [item], |items|)
      == if item.name.Some? then item.name.value else PositionalKey(Positionals(items))
  {
    assert (items + [item])[..|items|] == items;
  }

  /** One more argument that is accepted. */
  lemma Accepted(items: seq<Item>, b: Bindings, item: Item)
    requires Reached(items, b) && (item.name.Some? ==> item.name.value !in b.args)
    ensures var key := if item.name.Some? then item.name.value else PositionalKey(b.positional);
      Reached(items + [item], Bindings(b.args[key := item.value], Positionals(items + [item])))
  {
    NewKey(items, item);
    hide KeyOf, Positionals, PositionalKey, BoundBy, NamesAreFree;
    AcceptedIsFree(items, b.args, item);
    AcceptedIsBound(items, b.args, item);
  }

  lemma AcceptedIsFree(items: seq<Item>, args: Arguments, item: Item)
    requires NamesAreFree(items) && BoundBy(items, args) && (item.name.Some? ==> item.name.value !in args)
    ensures NamesAreFree(items + [item])
  {
    NewKey(items, item);
    forall k | 0 <= k < |items| ensures KeyOf(items + [item], k) == KeyOf(items, k) && KeyOf(items, k) in args {
      KeyStays(items, item, k);
    }
    hide KeyOf, Positionals, PositionalKey, BoundBy;
  }

  lemma AcceptedIsBound(items: seq<Item>, args: Arguments, item: Item)
    requires BoundBy(items, args)
    ensures BoundBy(items + [item], args[KeyOf(items + [item], |items|) := item.value])
  {
    var n, all := |items|, items + [item];
    var args' := args[KeyOf(all, n) := item.value];
    forall k | 0 <= k < n + 1
      ensures KeyOf(all, k) in args' && (IsLastOfKey(all, k) ==> args'[KeyOf(all, k)] == all[k].value)
    {
      if k < n {
        KeyStays(items, item, k);
        assert KeyOf(items, k) in args;
        if IsLastOfKey(all, k) { LastBefore(items, item, k); }
      }
    }
    hide KeyOf, IsLastOfKey;
    forall x | x in args' ensures exists k :: 0 <= k < n + 1 && KeyOf(all, k) == x {
      if x != KeyOf(all, n) {
        var k :| 0 <= k < n && KeyOf(items, k) == x;
        KeyStays(items, item, k);
      }
    }
  }

  lemma LastBefore(items: seq<Item>, item: Item, k: nat)
    requires k < |items| && IsLastOfKey(items + [item], k)
    ensures IsLastOfKey(items, k) && KeyOf(items + [item], |items|) != KeyOf(items, k)
  {
    forall j | k <= j < |items| ensures KeyOf(items + [item], j) == KeyOf(items, j) { KeyStays(items, item, j); }
    hide KeyOf;
  }

  /** An argument whose name is taken spoils every longer list too. */
  lemma Refused(items: seq<Item>, b: Bindings, item: Item, all: seq<Item>)
    requires Reached(items, b) && item.name.Some? && item.name.value in b.args && items + [item] <= all
    ensures !NamesAreFree(all)
  {
    var i :| 0 <= i < |items| && KeyOf(items, i) == item.name.value;
    KeyStays(items, item, i);
    PrefixKey(items + [item], all, i);
    PrefixKey(items + [item], all, |items|);
    NewKey(items, item);
    hide KeyOf;
    assert all[|items|] == item;
  }

  lemma PrefixKey(items: seq<Item>, all: seq<Item>, k: nat)
    requires items <= all && k < |items|
    ensures KeyOf(all, k) == KeyOf(items, k)
  {
    assert all[..k] == items[..k] && all[k] == items[k];
  }

  lemma BindingIsItem(s: string, p: nat, b: Bindings)
    requires p <= |s|
    ensures var item, r := ItemAt(s, p), BindingAt(s, p, b);
      && (item.Err? ==> r.Err?)
      && (item.Ok? ==>
            var key := if item.value.name.Some? then item.value.name.value else PositionalKey(b.positional);
            var next := b.positional + if item.value.name.Some? then 0 else 1;
            if item.value.name.Some? && key in b.args then r.Err?
            else r == Ok(Bindings(b.args[key := item.value.value], next), item.next))
  {
    hide Lex, ValueAt, PositionalKey;
  }

  lemma {:induction false} BindingsAre(s: string, p: nat, b: Bindings, done: seq<Item>)
    requires p <= |s| && Reached(done, b)
    ensures var items, r := ItemsFrom(s, p, done), BindingsAt(s, p, b);
      && (r.Ok? <==> items.Ok? && NamesAreFree(items.value))
      && (r.Ok? ==> r.next == items.next && BoundBy(items.value, r.value))
    decreases |s| - p
  {
    hide Lex, ItemAt, BindingAt, BoundBy, NamesAreFree, PositionalKey, Positionals, Reached;
    BindingIsItem(s, p, b);
    var item := ItemAt(s, p);
    if item.Ok? {
      var items := ItemsFrom(s, p, done);
      if item.value.name.Some? && item.value.name.value in b.args {
        if items.Ok? { Refused(done, b, item.value, items.value); }
      } else {
        var b' := BindingAt(s, p, b).value;
        Accepted(done, b, item.value);
        NewKey(done, item.value);
        ReachedIs(done, b);
        ReachedIs(done + [item.value], b');
        var sep := Lex(s, item.next);
        if sep.tok.kind == Comma && Lex(s, sep.next).tok.kind != RParen {
          BindingsAre(s, sep.next, b', done + [item.value]);
        }
      }
    }
  }

  lemma ReachedIs(items: seq<Item>, b: Bindings)
    ensures Reached(items, b) ==> NamesAreFree(items) && BoundBy(items, b.args) && b.positional == Positionals(items)
  {
  }

  /**
   A list of arguments is accepted exactly when it can be read and no argument is given by a name that an earlier
   one has for its key; then every key keeps its last argument.
   */
  lemma ArgumentsAreBound(s: string, p: nat)
    requires p <= |s|
    ensures var items, r := ItemsAt(s, p), ArgumentsAt(s, p);
      && (r.Ok? <==> items.Ok? && NamesAreFree(items.value))
      && (r.Ok? ==> r.next == items.next && BoundBy(items.value, r.value))
  {
    hide Lex;
    BindingsAre(s, p, Bindings(map[], 0), []);
  }

  lemma PositionalKeysDiffer(i: nat, k: nat)
    requires i < k
    ensures PositionalKey(i) != PositionalKey(k)
  {
    if i > 0 {
      assert PositionalKey(i)[5..] == Decimal(i) && PositionalKey(k)[5..] == Decimal(k);
      DecimalValue(i);
      DecimalValue(k);
    }
  }

  lemma {:induction false} PositionalsGrow(items: seq<Item>, i: nat, k: nat)
    requires i < k <= |items| && items[i].name.None?
    ensures Positionals(items[..i]) < Positionals(items[..k])
    decreases k
  {
    assert items[..k][..k - 1] == items[..k - 1];
    if i < k - 1 { PositionalsGrow(items, i, k - 1); }
  }

  /**
   In a list that is accepted, an argument loses its key only if it was given by name, and only to a positional one
   behind it: @A(value = 1, 2) means @A(2), without a diagnostic.
   */
  lemma OnlyPositionalsOverwrite(items: seq<Item>, i: nat, k: nat)
    requires NamesAreFree(items) && i < k < |items| && KeyOf(items, i) == KeyOf(items, k)
    ensures items[i].name.Some? && items[k].name.None?
  {
    if items[i].name.None? && items[k].name.None? {
      PositionalsGrow(items, i, k);
      PositionalKeysDiffer(Positionals(items[..i]), Positionals(items[..k]));
    }
  }

  lemma KeysOfPair(x: Item, y: Item)
    requires {x.name, y.name} == {Some("value"), None}
    ensures KeyOf([x, y], 0) == "value" == KeyOf([x, y], 1)
  {
    var items := [x, y];
    assert items[..0] == [] && items[..1] == [x] && [x][..0] == [];
    assert x.name.Some? ==> Positionals(items[..1]) == 0;
  }

  /** The smallest such list: the named value is gone. The other way round it is refused. */
  lemma NamedValueIsOverwritten(v: Value, w: Value, args: Arguments)
    ensures var items := [Item(Some("value"), v), Item(None, w)];
      NamesAreFree(items) && (BoundBy(items, args) ==> args == map["value" := w])
    ensures !NamesAreFree([Item(None, w), Item(Some("value"), v)])
  {
    var items, swapped := [Item(Some("value"), v), Item(None, w)], [Item(None, w), Item(Some("value"), v)];
    KeysOfPair(items[0], items[1]);
    KeysOfPair(swapped[0], swapped[1]);
    hide KeyOf;
    assert swapped[1].name.Some? && KeyOf(swapped, 0) == KeyOf(swapped, 1);
    if BoundBy(items, args) {
      assert IsLastOfKey(items, 1);
      assert forall x :: x in args <==> x == "value";
    }
  }
}
