/**
 The recursive parser of one annotation (annotation/parser.go). The functions `...At` say what is
 read from a position of the buffer; class `Parser` does it over the token stream.
 */
module Parser {
  import opened Model
  import opened Lexer
  import opened Value

  const MAX_NESTING_DEPTH := 32

  datatype Code = Syntax | DuplicateArgument

  /** What a diagnostic complains about; the wording of messages is not modelled. */
  datatype Reason =
    | ExpectedAt | ExpectedName | Lexical(text: string) | DuplicateName(name: string) | TooDeep
    | InvalidInteger(text: string) | InvalidFloat(text: string) | NoValue(found: Kind)
    | ArgumentSeparator(found: Kind) | ArraySeparator(found: Kind) | ObjectSeparator(found: Kind)
    | FieldName(found: Kind) | FieldEquals(name: string)

  /** offset is relative to the buffer being parsed. */
  datatype Diag = Diag(code: Code, offset: nat, reason: Reason)

  datatype Parsed<+T> = Ok(value: T, next: nat) | Err(diag: Diag)

  function SyntaxError<T>(tok: Token, reason: Reason): Parsed<T> {
    Err(Diag(Syntax, tok.offset, reason))
  }

  /** A value beginning with tok, the rest of which starts at p; depth guards nesting. */
  function ValueAt(s: string, tok: Token, p: nat, depth: nat): (r: Parsed<Value>)
    requires p <= |s|
    ensures r.Ok? ==> p <= r.next <= |s|
    ensures r.Err? && tok.offset <= |s| ==> r.diag.offset <= |s|
    decreases |s| - p, if tok.kind == LBracket || tok.kind == LBrace then 3 else 0
  {
    if depth > MAX_NESTING_DEPTH then SyntaxError(tok, TooDeep)
    else
      match tok.kind
      case Str => Ok(StringValue(tok.text, tok.raw), p)
      case IntLit =>
        (match ParseInt(tok.text)
         case Some(n) => Ok(IntValue(n), p)
         case None => SyntaxError(tok, InvalidInteger(tok.text)))
      case FloatLit =>
        if tok.text in PARSE_FLOAT then Ok(FloatValue(PARSE_FLOAT[tok.text]), p)
        else SyntaxError(tok, InvalidFloat(tok.text))
      case Ident => Ok(WordValue(tok.text), p)
      case LBracket => ArrayAt(s, p, depth)
      case LBrace => ObjectAt(s, p, depth)
      case Error => SyntaxError(tok, Lexical(tok.text))
      case _ => SyntaxError(tok, NoValue(tok.kind))
  }

  function WordValue(word: string): Value {
    match word
    case "true" => BoolValue(true)
    case "false" => BoolValue(false)
    case "null" => NullValue
    case _ => IdentValue(word)
  }

  function ArrayAt(s: string, p: nat, depth: nat): (r: Parsed<Value>)
    requires p <= |s|
    ensures if r.Ok? then p <= r.next <= |s| else r.diag.offset <= |s|
    decreases |s| - p, 2
  {
    var first := Lex(s, p);
    if first.tok.kind == RBracket then Ok(ArrayValue([]), first.next) else ElementsAt(s, p, depth, [])
  }

  /** The loop of parseArray, with the elements read so far. */
  function ElementsAt(s: string, p: nat, depth: nat, elements: seq<Value>): (r: Parsed<Value>)
    requires p <= |s|
    ensures if r.Ok? then p <= r.next <= |s| else r.diag.offset <= |s|
    decreases |s| - p, 1
  {
    var elem := Lex(s, p);
    match ValueAt(s, elem.tok, elem.next, depth + 1)
    case Err(d) => Err(d)
    case Ok(v, p') =>
      var sep := Lex(s, p');
      match sep.tok.kind
      case Comma =>
        var closing := Lex(s, sep.next);
        if closing.tok.kind == RBracket then Ok(ArrayValue(elements + [v]), closing.next)
        else ElementsAt(s, sep.next, depth, elements + [v])
      case RBracket => Ok(ArrayValue(elements + [v]), sep.next)
      case _ => SyntaxError(sep.tok, ArraySeparator(sep.tok.kind))
  }

  function ObjectAt(s: string, p: nat, depth: nat): (r: Parsed<Value>)
    requires p <= |s|
    ensures if r.Ok? then p <= r.next <= |s| else r.diag.offset <= |s|
    decreases |s| - p, 2
  {
    var first := Lex(s, p);
    if first.tok.kind == RBrace then Ok(ObjectValue(map[]), first.next) else FieldsAt(s, p, depth, map[])
  }

  /** The loop of parseObject, with the fields read so far. */
  function FieldsAt(s: string, p: nat, depth: nat, fields: map<string, Value>): (r: Parsed<Value>)
    requires p <= |s|
    ensures if r.Ok? then p <= r.next <= |s| else r.diag.offset <= |s|
    decreases |s| - p, 1
  {
    var key := Lex(s, p);
    if key.tok.kind != Ident then SyntaxError(key.tok, FieldName(key.tok.kind))
    else
      var eq := Lex(s, key.next);
      if eq.tok.kind != Equals then SyntaxError(eq.tok, FieldEquals(key.tok.text))
      else
        var first := Lex(s, eq.next);
        match ValueAt(s, first.tok, first.next, depth + 1)
        case Err(d) => Err(d)
        case Ok(v, p') =>
          if key.tok.text in fields then Err(Diag(DuplicateArgument, key.tok.offset, DuplicateName(key.tok.text)))
          else
            var fields' := fields[key.tok.text := v];
            var sep := Lex(s, p');
            match sep.tok.kind
            case Comma =>
              var closing := Lex(s, sep.next);
              if closing.tok.kind == RBrace then Ok(ObjectValue(fields'), closing.next)
              else FieldsAt(s, sep.next, depth, fields')
            case RBrace => Ok(ObjectValue(fields'), sep.next)
            case _ => SyntaxError(sep.tok, ObjectSeparator(sep.tok.kind))
  }

  /** The argument-map key of the n-th positional argument: "value", "value1", "value2", ... */
  function PositionalKey(n: nat): string {
    if n == 0 then "value" else "value" + Decimal(n)
  }

  type Arguments = map<string, Value>

  /** The arguments read so far, and how many of them were positional. */
  datatype Bindings = Bindings(args: Arguments, positional: nat)

  /** The list behind '(' up to and including ')'. */
  function ArgumentsAt(s: string, p: nat): (r: Parsed<Arguments>)
    requires p <= |s|
    ensures if r.Ok? then p <= r.next <= |s| else r.diag.offset <= |s|
  {
    var first := Lex(s, p);
    if first.tok.kind == RParen then Ok(map[], first.next) else BindingsAt(s, p, Bindings(map[], 0))
  }

  /** The loop of parseArguments. */
  function BindingsAt(s: string, p: nat, b: Bindings): (r: Parsed<Arguments>)
    requires p <= |s|
    ensures if r.Ok? then p <= r.next <= |s| else r.diag.offset <= |s|
    decreases |s| - p
  {
    match BindingAt(s, p, b)
    case Err(d) => Err(d)
    case Ok(b', p') =>
      var sep := Lex(s, p');
      match sep.tok.kind
      case Comma =>
        var closing := Lex(s, sep.next);
        if closing.tok.kind == RParen then Ok(b'.args, closing.next) else BindingsAt(s, sep.next, b')
      case RParen => Ok(b'.args, sep.next)
      case Error => SyntaxError(sep.tok, Lexical(sep.tok.text))
      case _ => SyntaxError(sep.tok, ArgumentSeparator(sep.tok.kind))
  }

  /** One argument, "name = value" or a bare value. */
  function BindingAt(s: string, p: nat, b: Bindings): (r: Parsed<Bindings>)
    requires p <= |s|
    ensures if r.Ok? then p <= r.next <= |s| else r.diag.offset <= |s|
  {
    var first := Lex(s, p);
    var eq := Lex(s, first.next);
    if first.tok.kind == Error then SyntaxError(first.tok, Lexical(first.tok.text))
    else if first.tok.kind == Ident && eq.tok.kind == Equals then
      var val := Lex(s, eq.next);
      match ValueAt(s, val.tok, val.next, 0)
      case Err(d) => Err(d)
      case Ok(v, p') =>
        if first.tok.text in b.args then Err(Diag(DuplicateArgument, first.tok.offset, DuplicateName(first.tok.text)))
        else Ok(Bindings(b.args[first.tok.text := v], b.positional), p')
    else
      match ValueAt(s, first.tok, first.next, 0)
      case Err(d) => Err(d)
      case Ok(v, p') => Ok(Bindings(b.args[PositionalKey(b.positional) := v], b.positional + 1), p')
  }

  /** A whole buffer: an annotation, prose that only mentions one (nil, nil), or an error. */
  datatype Outcome = Annotated(name: string, args: Arguments, at: nat) | Mention | Malformed(diag: Diag)

  function AnnotationIn(s: string): (r: Outcome)
    ensures r.Annotated? ==> r.at <= |s|
    ensures r.Malformed? ==> r.diag.offset <= |s|
  {
    var at := Lex(s, 0);
    var name := Lex(s, at.next);
    if at.tok.kind != At then Malformed(Diag(Syntax, at.tok.offset, ExpectedAt))
    else if name.tok.kind != Ident then Malformed(Diag(Syntax, name.tok.offset, ExpectedName))
    else
      var paren := Lex(s, name.next);
      if paren.tok.kind == LParen then
        match ArgumentsAt(s, paren.next)
        case Err(d) => Malformed(d)
        case Ok(args, end) =>
          if Lex(s, end).tok.kind != EOF then Mention else Annotated(name.tok.text, args, at.tok.offset)
      else if paren.tok.kind != EOF then Mention
      else Annotated(name.tok.text, map[], at.tok.offset)
  }

  // ---- the code ----

  datatype Result<+T> = Success(value: T) | Failure(diag: Diag)

  class Parser {
    const stream: TokenStream

    constructor (input: string)
      ensures stream.Valid() && stream.at == 0 && stream.lex.input == input && fresh(stream) && fresh(stream.lex)
    {
      stream := new TokenStream(input);
    }

    /** r and the position of the stream are what the parsed result says. */
    ghost predicate Agrees<T>(p: Parsed<T>, r: Result<T>)
      reads stream, stream.lex
    {
      && stream.Valid()
      && match p
         case Ok(v, next) => r == Success(v) && stream.at == next
         case Err(d) => r == Failure(d)
    }

    method ParseValue(tok: Token, depth: nat) returns (r: Result<Value>)
      requires stream.Valid()
      modifies stream, stream.lex
      ensures Agrees(ValueAt(stream.lex.input, tok, old(stream.at), depth), r)
      decreases |stream.lex.input| - stream.at, if tok.kind == LBracket || tok.kind == LBrace then 3 else 0
    {
      if depth > MAX_NESTING_DEPTH { return Failure(Diag(Syntax, tok.offset, TooDeep)); }
      match tok.kind {
        case Str => r := Success(StringValue(tok.text, tok.raw));
        case IntLit =>
          var n := ParseInt(tok.text);
          if n.None? { return Failure(Diag(Syntax, tok.offset, InvalidInteger(tok.text))); }
          r := Success(IntValue(n.value));
        case FloatLit =>
          if tok.text !in PARSE_FLOAT { return Failure(Diag(Syntax, tok.offset, InvalidFloat(tok.text))); }
          r := Success(FloatValue(PARSE_FLOAT[tok.text]));
        case Ident => r := Success(WordValue(tok.text));
        case LBracket => r := ParseArray(depth);
        case LBrace => r := ParseObject(depth);
        case Error => r := Failure(Diag(Syntax, tok.offset, Lexical(tok.text)));
        case _ => r := Failure(Diag(Syntax, tok.offset, NoValue(tok.kind)));
      }
    }

    method ParseArray(depth: nat) returns (r: Result<Value>)
      requires stream.Valid()
      modifies stream, stream.lex
      ensures Agrees(ArrayAt(stream.lex.input, old(stream.at), depth), r)
      decreases |stream.lex.input| - stream.at, 2
    {
      var elements: seq<Value> := [];
      var first := stream.Peek();
      if first.kind == RBracket {
        first := stream.Next();
        return Success(ArrayValue(elements));
      }
      ghost var start := stream.at;
      while true
        invariant stream.Valid() && start <= stream.at
        invariant ElementsAt(stream.lex.input, start, depth, []) ==
                  ElementsAt(stream.lex.input, stream.at, depth, elements)
        decreases |stream.lex.input| - stream.at
      {
        var elemTok := stream.Next();
        var elem := ParseValue(elemTok, depth + 1);
        if elem.Failure? { return elem; }
        elements := elements + [elem.value];
        var sep := stream.Next();
        match sep.kind {
          case Comma =>
            var closing := stream.Peek();
            if closing.kind == RBracket {
              closing := stream.Next();
              return Success(ArrayValue(elements));
            }
          case RBracket => return Success(ArrayValue(elements));
          case _ => return Failure(Diag(Syntax, sep.offset, ArraySeparator(sep.kind)));
        }
      }
    }

    method ParseObject(depth: nat) returns (r: Result<Value>)
      requires stream.Valid()
      modifies stream, stream.lex
      ensures Agrees(ObjectAt(stream.lex.input, old(stream.at), depth), r)
      decreases |stream.lex.input| - stream.at, 2
    {
      hide ValueAt, Lex;
      var fields: map<string, Value> := map[];
      var first := stream.Peek();
      if first.kind == RBrace {
        first := stream.Next();
        return Success(ObjectValue(fields));
      }
      ghost var start := stream.at;
      while true
        invariant stream.Valid() && start <= stream.at
        invariant FieldsAt(stream.lex.input, start, depth, map[]) ==
                  FieldsAt(stream.lex.input, stream.at, depth, fields)
        decreases |stream.lex.input| - stream.at
      {
        var keyTok := stream.Next();
        if keyTok.kind != Ident { return Failure(Diag(Syntax, keyTok.offset, FieldName(keyTok.kind))); }
        var eq := stream.Next();
        if eq.kind != Equals { return Failure(Diag(Syntax, eq.offset, FieldEquals(keyTok.text))); }
        var valTok := stream.Next();
        var val := ParseValue(valTok, depth + 1);
        if val.Failure? { return val; }
        if keyTok.text in fields {
          return Failure(Diag(DuplicateArgument, keyTok.offset, DuplicateName(keyTok.text)));
        }
        fields := fields[keyTok.text := val.value];
        var sep := stream.Next();
        match sep.kind {
          case Comma =>
            var closing := stream.Peek();
            if closing.kind == RBrace {
              closing := stream.Next();
              return Success(ObjectValue(fields));
            }
          case RBrace => return Success(ObjectValue(fields));
          case _ => return Failure(Diag(Syntax, sep.offset, ObjectSeparator(sep.kind)));
        }
      }
    }

    /** parseArguments, called with the stream in front of '('. */
    method ParseArguments() returns (r: Result<Arguments>)
      requires stream.Valid()
      modifies stream, stream.lex
      ensures Agrees(ArgumentsAt(stream.lex.input, Lex(stream.lex.input, old(stream.at)).next), r)
    {
      var paren := stream.Next();
      var args: Arguments, positional: nat := map[], 0;
      var closing := stream.Peek();
      if closing.kind == RParen {
        closing := stream.Next();
        return Success(args);
      }
      ghost var start := stream.at;
      while true
        invariant stream.Valid() && start <= stream.at
        invariant BindingsAt(stream.lex.input, start, Bindings(map[], 0)) ==
                  BindingsAt(stream.lex.input, stream.at, Bindings(args, positional))
        decreases |stream.lex.input| - stream.at
      {
        var one := ParseArgument(Bindings(args, positional));
        if one.Failure? { return Failure(one.diag); }
        args, positional := one.value.args, one.value.positional;
        var sep := stream.Next();
        match sep.kind {
          case Comma =>
            closing := stream.Peek();
            if closing.kind == RParen {
              closing := stream.Next();
              return Success(args);
            }
          case RParen => return Success(args);
          case Error => return Failure(Diag(Syntax, sep.offset, Lexical(sep.text)));
          case _ => return Failure(Diag(Syntax, sep.offset, ArgumentSeparator(sep.kind)));
        }
      }
    }

    /** The first half of the loop body of parseArguments. */
    method ParseArgument(b: Bindings) returns (r: Result<Bindings>)
      requires stream.Valid()
      modifies stream, stream.lex
      ensures Agrees(BindingAt(stream.lex.input, old(stream.at), b), r)
    {
      var first := stream.Next();
      if first.kind == Error { return Failure(Diag(Syntax, first.offset, Lexical(first.text))); }
      var eq := stream.Peek();
      if first.kind == Ident && eq.kind == Equals {
        eq := stream.Next();
        var valTok := stream.Next();
        var val := ParseValue(valTok, 0);
        if val.Failure? { return Failure(val.diag); }
        if first.text in b.args { return Failure(Diag(DuplicateArgument, first.offset, DuplicateName(first.text))); }
        return Success(Bindings(b.args[first.text := val.value], b.positional));
      }
      var val := ParseValue(first, 0);
      if val.Failure? { return Failure(val.diag); }
      return Success(Bindings(b.args[PositionalKey(b.positional) := val.value], b.positional + 1));
    }

    method ParseAnnotation() returns (r: Outcome)
      requires stream.Valid() && stream.at == 0
      modifies stream, stream.lex
      ensures r == AnnotationIn(stream.lex.input)
    {
      var at := stream.Next();
      if at.kind != At { return Malformed(Diag(Syntax, at.offset, ExpectedAt)); }
      var name := stream.Next();
      if name.kind != Ident { return Malformed(Diag(Syntax, name.offset, ExpectedName)); }
      var args: Arguments := map[];
      var tok := stream.Peek();
      if tok.kind == LParen {
        var parsed := ParseArguments();
        if parsed.Failure? { return Malformed(parsed.diag); }
        args := parsed.value;
      }
      tok := stream.Peek();
      if tok.kind != EOF { return Mention; }
      return Annotated(name.text, args, at.offset);
    }
  }

  /** parseOne, with positions left as offsets into the buffer. */
  method ParseOne(buf: string) returns (r: Outcome)
    ensures r == AnnotationIn(buf)
  {
    var p := new Parser(buf);
    r := p.ParseAnnotation();
  }
}
