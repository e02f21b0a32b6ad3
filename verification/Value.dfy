/** Annotation values and their deterministic printer (annotation/value.go). */
module Value {
  import opened Model
  import opened Ordering

  datatype Value =
    | StringValue(val: string, raw: bool)
    | IntValue(n: int)
    | FloatValue(bits: int)   // the IEEE bits; text conversions are the tables below
    | BoolValue(b: bool)
    | IdentValue(name: string)
    | NullValue
    | ArrayValue(elements: seq<Value>)
    | ObjectValue(fields: map<string, Value>)

  // strconv.ParseFloat and strconv.FormatFloat, left open.
  const PARSE_FLOAT: map<string, int>
  const FORMAT_FLOAT: map<int, string>

  // Characters beyond ASCII for which strconv.IsPrint is false, left open.
  const UNPRINTABLE: set<char>

  const MIN_INT64 := -0x8000_0000_0000_0000
  const MAX_INT64 := 0x7fff_ffff_ffff_ffff

  // ---- integers ----

  function Digit(d: nat): char
    requires d < 10
  {
    '0' + d as char
  }

  function DigitValue(c: char): int {
    c as int - '0' as int
  }

  function Decimal(n: nat): (s: string)
    ensures |s| > 0 && forall i :: 0 <= i < |s| ==> '0' <= s[i] <= '9'
  {
    if n < 10 then [Digit(n)] else Decimal(n / 10) + [Digit(n % 10)]
  }

  function FormatInt(n: int): string {
    if n < 0 then "-" + Decimal(-n) else Decimal(n)
  }

  function DigitsValue(s: string): int {
    if s == [] then 0 else DigitsValue(s[..|s| - 1]) * 10 + DigitValue(s[|s| - 1])
  }

  /** strconv.ParseInt(text, 10, 64) on an optionally signed run of digits. */
  function ParseInt(text: string): Option<int> {
    var n := if text != [] && text[0] == '-' then -DigitsValue(text[1..])
             else if text != [] && text[0] == '+' then DigitsValue(text[1..])
             else DigitsValue(text);
    if MIN_INT64 <= n <= MAX_INT64 then Some(n) else None
  }

  lemma {:induction false} DecimalValue(n: nat)
    ensures DigitsValue(Decimal(n)) == n
  {
    if n >= 10 {
      DecimalValue(n / 10);
      assert Decimal(n)[..|Decimal(n)| - 1] == Decimal(n / 10);
    }
  }

  lemma ParseFormatInt(n: int)
    ensures ParseInt(FormatInt(n)) == if MIN_INT64 <= n <= MAX_INT64 then Some(n) else None
  {
    hide Decimal, DigitsValue;
    var text := FormatInt(n);
    if n < 0 {
      DecimalValue(-n);
      assert text[0] == '-' && text[1..] == Decimal(-n);
    } else {
      DecimalValue(n);
      assert '0' <= text[0] <= '9';
    }
  }

  /** The number that decimal digits write, the last counting ones, the one before it tens, and so on. */
  function Tens(digits: string): int {
    if digits == "" then 0 else Tens(digits[..|digits| - 1]) * 10 + (digits[|digits| - 1] as int - 48)
  }

  /** An integer is read from its sign and its digits, if it fits into 64 bits. */
  lemma ParseIntIsExact(text: string, n: int)
    ensures ParseInt(text) == Some(n) <==>
      && -9223372036854775808 <= n <= 9223372036854775807
      && n == if text != "" && text[0] == '-' then -Tens(text[1..])
              else if text != "" && text[0] == '+' then Tens(text[1..])
              else Tens(text)
  {
    hide Tens, DigitsValue;
    TensAre(text);
    if text != "" { TensAre(text[1..]); }
  }

  lemma {:induction false} TensAre(digits: string)
    ensures Tens(digits) == DigitsValue(digits)
  {
    if digits != "" { TensAre(digits[..|digits| - 1]); }
  }

  /** Integers are written in decimal digits, without zeros in front and with a minus sign if they are negative. */
  lemma FormatIntIsExact(n: int)
    ensures var text := FormatInt(n); var digits := if n < 0 then text[1..] else text;
      && (n < 0 ==> text[0] == '-') && digits != "" && (digits[0] == '0' ==> digits == "0")
      && (forall i :: 0 <= i < |digits| ==> '0' <= digits[i] <= '9')
      && Tens(digits) == if n < 0 then -n else n
  {
    var m: nat := if n < 0 then -n else n;
    DecimalValue(m);
    TensAre(Decimal(m));
    NoLeadingZero(m);
    hide Decimal;
    assert n < 0 ==> FormatInt(n)[1..] == Decimal(m);
  }

  lemma {:induction false} NoLeadingZero(n: nat)
    ensures Decimal(n)[0] == '0' ==> n == 0
    ensures n == 0 ==> Decimal(n) == "0"
  {
    if n >= 10 { NoLeadingZero(n / 10); }
  }

  // ---- strings ----

  /** Characters that strconv.Quote leaves alone or writes with an escape the annotation lexer knows. */
  predicate IsPlain(c: char) {
    || c == '\n' || c == '\t' || c == '\r'
    || (' ' <= c < 127 as char)
    || (128 as char <= c && c !in UNPRINTABLE)
  }

  function Hex(n: nat, width: nat): string {
    if width == 0 then "" else Hex(n / 16, width - 1) + ["0123456789abcdef"[n % 16]]
  }

  /** One character as strconv.Quote writes it. */
  function QuoteChar(c: char): string {
    if c == '\n' then "\\n" else if c == '\t' then "\\t" else if c == '\r' then "\\r"
    else if c == '"' then "\\\"" else if c == '\\' then "\\\\"
    else if IsPlain(c) then [c]
    else if c == 7 as char then "\\a" else if c == 8 as char then "\\b"
    else if c == 11 as char then "\\v" else if c == 12 as char then "\\f"
    else if c < ' ' || c == 127 as char then "\\x" + Hex(c as int, 2)
    else if c < 0x10000 as char then "\\u" + Hex(c as int, 4)
    else "\\U" + Hex(c as int, 8)
  }

  function QuoteBody(s: string): string {
    if s == [] then "" else QuoteChar(s[0]) + QuoteBody(s[1..])
  }

  // ---- quoted strings are Go string literals ----

  function HexDigitValue(c: char): int {
    if '0' <= c <= '9' then c as int - 48 else if 'a' <= c <= 'f' then c as int - 87 else -1
  }

  /** The number that hexadecimal digits write, in lower case. */
  function HexValue(digits: string): int {
    if digits == "" then 0 else 16 * HexValue(digits[..|digits| - 1]) + HexDigitValue(digits[|digits| - 1])
  }

  predicate AreHexDigits(digits: string) {
    forall i :: 0 <= i < |digits| ==> '0' <= digits[i] <= '9' || 'a' <= digits[i] <= 'f'
  }

  /** What stands behind a backslash for a character: a letter for it, or its number in hexadecimal digits. */
  predicate IsGoEscape(letter: char, digits: string, c: char) {
    match letter
    case 'a' => digits == "" && c as int == 7
    case 'b' => digits == "" && c as int == 8
    case 't' => digits == "" && c as int == 9
    case 'n' => digits == "" && c as int == 10
    case 'v' => digits == "" && c as int == 11
    case 'f' => digits == "" && c as int == 12
    case 'r' => digits == "" && c as int == 13
    case '"' => digits == "" && c == '"'
    case '\\' => digits == "" && c == '\\'
    case 'x' => |digits| == 2 && AreHexDigits(digits) && HexValue(digits) == c as int < 128
    case 'u' => |digits| == 4 && AreHexDigits(digits) && HexValue(digits) == c as int
    case 'U' => |digits| == 8 && AreHexDigits(digits) && HexValue(digits) == c as int
    case _ => false
  }

  /** t writes the character c in a Go string literal. */
  predicate WritesChar(t: string, c: char) {
    if t != "" && t[0] == '\\' then |t| >= 2 && IsGoEscape(t[1], t[2..], c)
    else t == [c] && c != '"' && c != '\n'
  }

  /** body, between two quotes, is a Go string literal for text. */
  ghost predicate IsGoLiteral(body: string, text: string)
    decreases |text|
  {
    if text == "" then body == ""
    else
      exists n :: 0 < n <= |body| && WritesChar(body[..n], text[0]) && IsGoLiteral(body[n..], text[1..])
  }

  function Power16(width: nat): nat {
    if width == 0 then 1 else 16 * Power16(width - 1)
  }

  lemma {:induction false} HexIsRead(n: nat, width: nat)
    requires n < Power16(width)
    ensures |Hex(n, width)| == width && AreHexDigits(Hex(n, width)) && HexValue(Hex(n, width)) == n
  {
    if width > 0 {
      HexIsRead(n / 16, width - 1);
      var front, all := Hex(n / 16, width - 1), Hex(n, width);
      assert all[..width - 1] == front && all == front + [all[width - 1]];
      HexDigitIs(n % 16);
    }
  }

  lemma HexDigitIs(d: nat)
    requires d < 16
    ensures var c := "0123456789abcdef"[d]; ('0' <= c <= '9' || 'a' <= c <= 'f') && HexDigitValue(c) == d
  {
  }

  lemma QuotedCharIsGo(c: char)
    ensures QuoteChar(c) != "" && WritesChar(QuoteChar(c), c)
  {
    var n := c as int;
    hide Hex, HexValue, AreHexDigits;
    if n < 32 || n == 127 {
      assert Power16(2) == 256 by { assert Power16(0) == 1; }
      HexIsRead(n, 2);
      assert ("\\x" + Hex(n, 2))[2..] == Hex(n, 2);
    } else if n < 0x10000 {
      Powers();
      HexIsRead(n, 4);
      assert ("\\u" + Hex(n, 4))[2..] == Hex(n, 4);
    } else {
      Powers();
      HexIsRead(n, 8);
      assert ("\\U" + Hex(n, 8))[2..] == Hex(n, 8);
    }
  }

  lemma Powers()
    ensures Power16(4) == 0x10000 && Power16(8) > 0x110000
  {
    assert Power16(2) == 256 by { assert Power16(0) == 1; }
    assert Power16(6) == 256 * Power16(4) && Power16(8) == 256 * Power16(6);
  }

  /** strconv.Quote writes a Go string literal for the string. */
  lemma {:induction false} QuotedIsGoLiteral(s: string)
    ensures IsGoLiteral(QuoteBody(s), s)
  {
    hide QuoteChar, WritesChar;
    if s != "" {
      QuotedIsGoLiteral(s[1..]);
      QuotedCharIsGo(s[0]);
      var n, body := |QuoteChar(s[0])|, QuoteBody(s);
      assert body[..n] == QuoteChar(s[0]) && body[n..] == QuoteBody(s[1..]);
    }
  }

  // ---- the printer ----

  /** The keys of a field map in byte order. */
  ghost function SortedKeys(keys: set<string>): (r: seq<string>)
    ensures Sorted(r) && StrictlySorted(r)
    ensures forall k :: k in r <==> k in keys
  {
    if keys == {} then []
    else
      var k :| k in keys;
      InsertDistinct(k, SortedKeys(keys - {k}));
      Insert(k, SortedKeys(keys - {k}))
  }

  ghost function GoString(v: Value): string
    decreases v
  {
    match v
    case StringValue(val, raw) => if raw then "`" + val + "`" else "\"" + QuoteBody(val) + "\""
    case IntValue(n) => FormatInt(n)
    case FloatValue(f) => if f in FORMAT_FLOAT then FORMAT_FLOAT[f] else ""
    case BoolValue(b) => if b then "true" else "false"
    case IdentValue(name) => name
    case NullValue => "null"
    case ArrayValue(_) => "[" + ElementsFrom(v, 0) + "]"
    case ObjectValue(fields) => "{" + FieldsFrom(v, SortedKeys(fields.Keys), 0) + "}"
  }

  /** Elements i and after, separated by commas. */
  ghost function ElementsFrom(v: Value, i: nat): string
    requires v.ArrayValue? && i <= |v.elements|
    decreases v, |v.elements| - i
  {
    if i == |v.elements| then ""
    else if i + 1 == |v.elements| then GoString(v.elements[i])
    else GoString(v.elements[i]) + ", " + ElementsFrom(v, i + 1)
  }

  /** The fields named by keys[i] and after, separated by commas. */
  ghost function FieldsFrom(v: Value, keys: seq<string>, i: nat): string
    requires v.ObjectValue? && i <= |keys| && forall k :: k in keys ==> k in v.fields
    decreases v, |keys| - i
  {
    if i == |keys| then ""
    else if i + 1 == |keys| then keys[i] + "=" + GoString(v.fields[keys[i]])
    else keys[i] + "=" + GoString(v.fields[keys[i]]) + ", " + FieldsFrom(v, keys, i + 1)
  }

  function Join(parts: seq<string>): string {
    if parts == [] then "" else if |parts| == 1 then parts[0] else parts[0] + ", " + Join(parts[1..])
  }

  lemma {:induction false} JoinElements(v: Value, parts: seq<string>, i: nat)
    requires v.ArrayValue? && |parts| == |v.elements| && i <= |parts|
    requires forall k :: 0 <= k < |parts| ==> parts[k] == GoString(v.elements[k])
    ensures Join(parts[i..]) == ElementsFrom(v, i)
    decreases |parts| - i
  {
    if i < |parts| {
      JoinElements(v, parts, i + 1);
      assert parts[i..][1..] == parts[i + 1..];
    }
  }

  lemma {:induction false} JoinFields(v: Value, keys: seq<string>, parts: seq<string>, i: nat)
    requires v.ObjectValue? && |parts| == |keys| && i <= |parts| && forall k :: k in keys ==> k in v.fields
    requires forall k :: 0 <= k < |parts| ==> parts[k] == keys[k] + "=" + GoString(v.fields[keys[k]])
    ensures Join(parts[i..]) == FieldsFrom(v, keys, i)
    decreases |parts| - i
  {
    if i < |parts| {
      JoinFields(v, keys, parts, i + 1);
      assert parts[i..][1..] == parts[i + 1..];
    }
  }

  lemma QuoteBodyStep(b: string, s: string, i: nat)
    requires i < |s|
    ensures b + QuoteBody(s[i..]) == b + QuoteChar(s[i]) + QuoteBody(s[i + 1..])
  {
    assert s[i..][1..] == s[i + 1..];
    var head := QuoteChar(s[i]);
    assert QuoteBody(s[i..]) == head + QuoteBody(s[i + 1..]);
  }

  method Quote(s: string) returns (r: string)
    ensures r == "\"" + QuoteBody(s) + "\""
  {
    var b, i := "", 0;
    while i < |s|
      invariant i <= |s| && QuoteBody(s) == b + QuoteBody(s[i..])
    {
      QuoteBodyStep(b, s, i);
      b := b + QuoteChar(s[i]);
      i := i + 1;
    }
    return "\"" + b + "\"";
  }

  method Render(v: Value) returns (s: string)
    ensures s == GoString(v)
    decreases v
  {
    match v
    case StringValue(val, raw) =>
      if raw { s := "`" + val + "`"; } else { s := Quote(val); }
    case IntValue(n) => s := FormatInt(n);
    case FloatValue(f) => s := if f in FORMAT_FLOAT then FORMAT_FLOAT[f] else "";
    case BoolValue(b) => s := if b then "true" else "false";
    case IdentValue(name) => s := name;
    case NullValue => s := "null";
    case ArrayValue(elements) =>
      var parts, i := [], 0;
      while i < |elements|
        invariant |parts| == i <= |elements|
        invariant forall k :: 0 <= k < i ==> parts[k] == GoString(elements[k])
      {
        var part := Render(elements[i]);
        parts := parts + [part];
        i := i + 1;
      }
      JoinElements(v, parts, 0);
      assert parts[0..] == parts;
      s := "[" + Join(parts) + "]";
    case ObjectValue(fields) =>
      s := RenderObject(v);
  }

  method RenderObject(v: Value) returns (s: string)
    requires v.ObjectValue?
    ensures s == GoString(v)
    decreases v, 2
  {
    var keys := CollectKeys(v.fields.Keys);
    var parts := RenderFields(v, keys);
    JoinFields(v, keys, parts, 0);
    assert parts[0..] == parts;
    s := "{" + Join(parts) + "}";
  }

  method RenderFields(v: Value, keys: seq<string>) returns (parts: seq<string>)
    requires v.ObjectValue? && forall k :: k in keys ==> k in v.fields
    ensures |parts| == |keys|
    ensures forall k :: 0 <= k < |keys| ==> parts[k] == keys[k] + "=" + GoString(v.fields[keys[k]])
    decreases v, 1
  {
    parts := [];
    while |parts| < |keys|
      invariant |parts| <= |keys|
      invariant forall k :: 0 <= k < |parts| ==> parts[k] == keys[k] + "=" + GoString(v.fields[keys[k]])
    {
      var part := RenderField(v, keys[|parts|]);
      parts := parts + [part];
    }
  }

  method RenderField(v: Value, key: string) returns (s: string)
    requires v.ObjectValue? && key in v.fields
    ensures s == key + "=" + GoString(v.fields[key])
    decreases v, 0
  {
    s := Render(v.fields[key]);
    s := key + "=" + s;
  }

  /** Map iteration yields the keys in any order; sorting makes the result independent of it. */
  method CollectKeys(all: set<string>) returns (keys: seq<string>)
    ensures keys == SortedKeys(all)
  {
    keys := [];
    var rest := all;
    while rest != {}
      invariant rest <= all && forall k :: k in keys <==> k in all && k !in rest
      invariant forall i, j :: 0 <= i < j < |keys| ==> keys[i] != keys[j]
      decreases rest
    {
      var k :| k in rest;
      keys := keys + [k];
      rest := rest - {k};
    }
    SortDistinct(keys);
    keys := Sort(keys);
    StrictlySortedIsUnique(keys, SortedKeys(all));
  }
}
