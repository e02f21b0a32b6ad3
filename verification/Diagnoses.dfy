/** What the parser's diagnostics say is true of the token that they point at. */
module Diagnoses {
  import opened Model
  import opened Lexer
  import opened Value
  import opened Parser

  /** The diagnostic is at this token, and its code and its reason are true of it. */
  predicate IsTrueOf(d: Diag, tok: Token) {
    && d.offset == tok.offset && (d.code == DuplicateArgument <==> d.reason.DuplicateName?)
    && match d.reason
       case ExpectedAt => tok.kind != At
       case ExpectedName => tok.kind != Ident
       case Lexical(text) => tok.kind == Error && tok.text == text
       case DuplicateName(name) => tok.kind == Ident && tok.text == name
       case TooDeep => true
       case InvalidInteger(text) => tok.kind == IntLit && tok.text == text && ParseInt(text).None?
       case InvalidFloat(text) => tok.kind == FloatLit && tok.text == text && text !in PARSE_FLOAT
       case NoValue(found) =>
         tok.kind == found && found !in {Str, IntLit, FloatLit, Ident, LBracket, LBrace, Error}
       case ArgumentSeparator(found) => tok.kind == found && found !in {Comma, RParen, Error}
       case ArraySeparator(found) => tok.kind == found && found !in {Comma, RBracket}
       case ObjectSeparator(found) => tok.kind == found && found !in {Comma, RBrace}
       case FieldName(found) => tok.kind == found && found != Ident
       case FieldEquals(name) => tok.kind != Equals
  }

  /** Somewhere from p on begins a token that the diagnostic is true of. */
  ghost predicate IsTrue(s: string, p: nat, d: Diag) {
    exists q: nat :: p <= q <= |s| && IsTrueOf(d, Lex(s, q).tok)
  }

  lemma TrueHere(s: string, p: nat, q: nat, d: Diag)
    requires p <= q <= |s| && IsTrueOf(d, Lex(s, q).tok)
    ensures IsTrue(s, p, d)
  {
  }

  lemma TrueFurther(s: string, p: nat, q: nat, d: Diag)
    requires p <= q && IsTrue(s, q, d)
    ensures IsTrue(s, p, d)
  {
    hide IsTrueOf;
  }

  /** A value that is refused: true of its own first token, or of a later one. */
  lemma {:induction false} ValueDiagnosis(s: string, p: nat, depth: nat)
    requires p <= |s| && ValueAt(s, Lex(s, p).tok, Lex(s, p).next, depth).Err?
    ensures IsTrue(s, p, ValueAt(s, Lex(s, p).tok, Lex(s, p).next, depth).diag)
    decreases |s| - p, 0
  {
    hide Lex, IsTrue;
    var lex := Lex(s, p);
    var d := ValueAt(s, lex.tok, lex.next, depth).diag;
    if depth <= MAX_NESTING_DEPTH && (lex.tok.kind == LBracket || lex.tok.kind == LBrace) {
      Further(s, p);
      if lex.tok.kind == LBracket {
        ElementsDiagnosis(s, lex.next, depth, []);
      } else {
        FieldsDiagnosis(s, lex.next, depth, map[]);
      }
      TrueFurther(s, p, lex.next, d);
    } else {
      TrueHere(s, p, p, d);
    }
  }

  lemma Further(s: string, p: nat)
    requires p <= |s|
    ensures p <= Lex(s, p).next <= |s| && (Lex(s, p).tok.kind != EOF ==> p < Lex(s, p).next)
  {
    hide Lex;
  }

  lemma ValueIsFurther(s: string, p: nat, depth: nat)
    requires p <= |s| && ValueAt(s, Lex(s, p).tok, Lex(s, p).next, depth).Ok?
    ensures p < ValueAt(s, Lex(s, p).tok, Lex(s, p).next, depth).next <= |s|
  {
    hide Lex, ArrayAt, ObjectAt;
    Further(s, p);
  }

  lemma {:induction false} ElementsDiagnosis(s: string, p: nat, depth: nat, done: seq<Value>)
    requires p <= |s| && ElementsAt(s, p, depth, done).Err?
    ensures IsTrue(s, p, ElementsAt(s, p, depth, done).diag)
    decreases |s| - p, 1
  {
    hide Lex, ValueAt, IsTrue;
    var d := ElementsAt(s, p, depth, done).diag;
    var e := ValueAt(s, Lex(s, p).tok, Lex(s, p).next, depth + 1);
    if e.Err? {
      ValueDiagnosis(s, p, depth + 1);
    } else {
      ValueIsFurther(s, p, depth + 1);
      Further(s, e.next);
      var sep := Lex(s, e.next);
      if sep.tok.kind == Comma {
        ElementsDiagnosis(s, sep.next, depth, done + [e.value]);
        TrueFurther(s, p, sep.next, d);
      } else {
        TrueHere(s, p, e.next, d);
      }
    }
  }

  lemma {:induction false} FieldsDiagnosis(s: string, p: nat, depth: nat, done: map<string, Value>)
    requires p <= |s| && FieldsAt(s, p, depth, done).Err?
    ensures IsTrue(s, p, FieldsAt(s, p, depth, done).diag)
    decreases |s| - p, 1
  {
    hide Lex, ValueAt, IsTrue;
    var d := FieldsAt(s, p, depth, done).diag;
    var key := Lex(s, p);
    Further(s, p);
    if key.tok.kind != Ident {
      TrueHere(s, p, p, d);
    } else if Lex(s, key.next).tok.kind != Equals {
      TrueHere(s, p, key.next, d);
    } else {
      FieldDiagnosis(s, p, depth, done);
    }
  }

  /** A field whose name and equals sign are there. */
  lemma {:induction false} FieldDiagnosis(s: string, p: nat, depth: nat, done: map<string, Value>)
    requires p <= |s| && FieldsAt(s, p, depth, done).Err?
    requires Lex(s, p).tok.kind == Ident && Lex(s, Lex(s, p).next).tok.kind == Equals
    ensures IsTrue(s, p, FieldsAt(s, p, depth, done).diag)
    decreases |s| - p, 0
  {
    hide Lex, ValueAt, IsTrue;
    var d := FieldsAt(s, p, depth, done).diag;
    var key := Lex(s, p);
    var start := Lex(s, key.next).next;
    Further(s, p);
    Further(s, key.next);
    var e := ValueAt(s, Lex(s, start).tok, Lex(s, start).next, depth + 1);
    if e.Err? {
      ValueDiagnosis(s, start, depth + 1);
      TrueFurther(s, p, start, d);
    } else if key.tok.text in done {
      TrueHere(s, p, p, d);
    } else {
      ValueIsFurther(s, start, depth + 1);
      Further(s, e.next);
      var sep := Lex(s, e.next);
      if sep.tok.kind == Comma {
        FieldsDiagnosis(s, sep.next, depth, done[key.tok.text := e.value]);
        TrueFurther(s, p, sep.next, d);
      } else {
        TrueHere(s, p, e.next, d);
      }
    }
  }

  lemma BindingDiagnosis(s: string, p: nat, b: Bindings)
    requires p <= |s| && BindingAt(s, p, b).Err?
    ensures IsTrue(s, p, BindingAt(s, p, b).diag)
  {
    hide Lex, ValueAt, IsTrue;
    var d := BindingAt(s, p, b).diag;
    var first := Lex(s, p);
    var eq := Lex(s, first.next);
    Further(s, p);
    Further(s, first.next);
    if first.tok.kind == Error {
      TrueHere(s, p, p, d);
    } else if first.tok.kind == Ident && eq.tok.kind == Equals {
      var start := eq.next;
      if ValueAt(s, Lex(s, start).tok, Lex(s, start).next, 0).Err? {
        ValueDiagnosis(s, start, 0);
        TrueFurther(s, p, start, d);
      } else {
        TrueHere(s, p, p, d);
      }
    } else {
      ValueDiagnosis(s, p, 0);
    }
  }

  lemma BindingIsFurther(s: string, p: nat, b: Bindings)
    requires p <= |s| && BindingAt(s, p, b).Ok?
    ensures p < BindingAt(s, p, b).next <= |s|
  {
    hide Lex, ValueAt;
    var first := Lex(s, p);
    Further(s, p);
    if first.tok.kind == Ident && Lex(s, first.next).tok.kind == Equals {
      ValueIsFurther(s, Lex(s, first.next).next, 0);
    } else {
      ValueIsFurther(s, p, 0);
    }
  }

  lemma {:induction false} BindingsDiagnosis(s: string, p: nat, b: Bindings)
    requires p <= |s| && BindingsAt(s, p, b).Err?
    ensures IsTrue(s, p, BindingsAt(s, p, b).diag)
    decreases |s| - p
  {
    hide Lex, BindingAt, IsTrue;
    var d := BindingsAt(s, p, b).diag;
    var one := BindingAt(s, p, b);
    if one.Err? {
      BindingDiagnosis(s, p, b);
    } else {
      BindingIsFurther(s, p, b);
      Further(s, one.next);
      var sep := Lex(s, one.next);
      if sep.tok.kind == Comma {
        BindingsDiagnosis(s, sep.next, one.value);
        TrueFurther(s, p, sep.next, d);
      } else {
        TrueHere(s, p, one.next, d);
      }
    }
  }

  /** Every diagnostic of a buffer points at a token of it, and what it says is true of that token. */
  lemma DiagnosisIsTrue(s: string)
    requires AnnotationIn(s).Malformed?
    ensures IsTrue(s, 0, AnnotationIn(s).diag)
  {
    hide Lex, IsTrue, BindingsAt;
    var d := AnnotationIn(s).diag;
    var at := Lex(s, 0);
    Further(s, 0);
    if at.tok.kind != At {
      TrueHere(s, 0, 0, d);
    } else if Lex(s, at.next).tok.kind != Ident {
      TrueHere(s, 0, at.next, d);
    } else {
      var paren := Lex(s, Lex(s, at.next).next);
      Further(s, at.next);
      BindingsDiagnosis(s, paren.next, Bindings(map[], 0));
      TrueFurther(s, 0, paren.next, d);
    }
  }
}
