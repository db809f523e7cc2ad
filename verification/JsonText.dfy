/**
 * JSON values, and the text JSON.stringify prints for them: two different values never print alike.
 *
 * The proof reads a printed value off the front of a longer text. A number ends where no number
 * character follows, which is why it is always followed by a comma or a bracket; a string ends at
 * its first quote that is not escaped; arrays and objects are read item by item. So equal texts
 * start with equal values and go on with equal rests, which is what PrintUnique states for any
 * two rests.
 */
module JsonText {
  /** Numbers are kept as they print. An object's fields keep their order. */
  datatype Json =
    | Null
    | Bool(b: bool)
    | Num(token: string)
    | Str(text: string)
    | Arr(items: seq<Json>)
    | Obj(fields: seq<Field>)

  datatype Field = Field(key: string, value: Json)

  predicate IsNumChar(c: char) { '0' <= c <= '9' || c == '-' || c == '+' || c == '.' || c == 'e' || c == 'E' }

  predicate IsNumToken(t: string) {
    t != "" && ('0' <= t[0] <= '9' || t[0] == '-') && forall i :: 0 <= i < |t| ==> IsNumChar(t[i])
  }

  /** Number tokens are numbers all through the value. */
  predicate Printable(j: Json)
    decreases j, 0
  {
    match j
    case Num(t) => IsNumToken(t)
    case Arr(items) => AllPrintable(items)
    case Obj(fields) => FieldsPrintable(fields)
    case _ => true
  }

  predicate AllPrintable(items: seq<Json>)
    decreases items, 0
  {
    items == [] || (Printable(items[0]) && AllPrintable(items[1..]))
  }

  predicate FieldsPrintable(fields: seq<Field>)
    decreases fields, 0
  {
    fields == [] || (Printable(fields[0].value) && FieldsPrintable(fields[1..]))
  }

  // ---------------------------------------------------------------- printing

  function HexDigit(d: nat): char
    requires d < 16
  {
    if d < 10 then ('0' as int + d) as char else ('a' as int + (d - 10)) as char
  }

  /** A character inside a JSON string. */
  function EscapeChar(c: char): string {
    if c == '"' then "\\\"" else if c == '\\' then "\\\\"
    else if c == '\U{08}' then "\\b" else if c == '\U{0C}' then "\\f"
    else if c == '\n' then "\\n" else if c == '\r' then "\\r" else if c == '\t' then "\\t"
    else if c < ' ' then ['\\', 'u', '0', '0', HexDigit(c as int / 16), HexDigit(c as int % 16)]
    else [c]
  }

  function Escaped(s: string): string {
    if s == "" then "\"" else EscapeChar(s[0]) + Escaped(s[1..])
  }

  /** The text after the opening bracket; first tells whether a comma is due. */
  function Print(j: Json): string
    decreases j, 0
  {
    match j
    case Null => "null"
    case Bool(b) => if b then "true" else "false"
    case Num(t) => t
    case Str(s) => "\"" + Escaped(s)
    case Arr(items) => "[" + PrintItems(items, true)
    case Obj(fields) => "{" + PrintFields(fields, true)
  }

  function PrintItems(items: seq<Json>, first: bool): string
    decreases items, 0
  {
    if items == [] then "]"
    else (if first then "" else ",") + (Print(items[0]) + PrintItems(items[1..], false))
  }

  function PrintFields(fields: seq<Field>, first: bool): string
    decreases fields, 0
  {
    if fields == [] then "}"
    else
      (if first then "" else ",") +
        ("\"" + Escaped(fields[0].key) + ":" + (Print(fields[0].value) + PrintFields(fields[1..], false)))
  }

  // ---------------------------------------------------------------- unique reading

  lemma EscapeCharUnique(c: char, d: char, x: string, y: string)
    requires EscapeChar(c) + x == EscapeChar(d) + y
    ensures c == d && x == y
  {
    var s := EscapeChar(c) + x;
    assert s[0] == EscapeChar(c)[0] && s[0] == EscapeChar(d)[0];
    assert |EscapeChar(c)| > 1 ==> s[1] == EscapeChar(c)[1];
    assert |EscapeChar(d)| > 1 ==> s[1] == EscapeChar(d)[1];
    assert |EscapeChar(c)| > 2 ==> s[4] == EscapeChar(c)[4] && s[5] == EscapeChar(c)[5];
    assert |EscapeChar(d)| > 2 ==> s[4] == EscapeChar(d)[4] && s[5] == EscapeChar(d)[5];
    assert c == d;
    assert s[|EscapeChar(c)|..] == x && s[|EscapeChar(d)|..] == y;
  }

  lemma EscapeCharIsNoQuote(c: char, x: string, y: string)
    ensures EscapeChar(c) + x != "\"" + y
  {
    assert (EscapeChar(c) + x)[0] == EscapeChar(c)[0] && ("\"" + y)[0] == '"';
  }

  lemma EscapedCons(s: string, x: string)
    requires s != ""
    ensures Escaped(s) + x == EscapeChar(s[0]) + (Escaped(s[1..]) + x)
  {
  }

  lemma EscapedNil(x: string)
    ensures Escaped("") + x == "\"" + x && (Escaped("") + x)[1..] == x
  {
  }

  lemma {:induction false} EscapedUnique(s: string, t: string, x: string, y: string)
    requires Escaped(s) + x == Escaped(t) + y
    ensures s == t && x == y
    decreases |s|
  {
    EscapedNil(x);
    EscapedNil(y);
    if s == "" {
      if t != "" {
        EscapedCons(t, y);
        EscapeCharIsNoQuote(t[0], Escaped(t[1..]) + y, x);
      }
    } else if t == "" {
      EscapedCons(s, x);
      EscapeCharIsNoQuote(s[0], Escaped(s[1..]) + x, y);
    } else {
      EscapedCons(s, x);
      EscapedCons(t, y);
      EscapeCharUnique(s[0], t[0], Escaped(s[1..]) + x, Escaped(t[1..]) + y);
      EscapedUnique(s[1..], t[1..], x, y);
      assert s == [s[0]] + s[1..] && t == [t[0]] + t[1..];
    }
  }

  predicate EndsNumber(x: string) { x == "" || !IsNumChar(x[0]) }

  lemma {:induction false} TokenUnique(s: string, t: string, x: string, y: string)
    requires (forall i :: 0 <= i < |s| ==> IsNumChar(s[i])) && (forall i :: 0 <= i < |t| ==> IsNumChar(t[i]))
    requires EndsNumber(x) && EndsNumber(y) && s + x == t + y
    ensures s == t && x == y
    decreases |s|
  {
    assert s != "" ==> (s + x)[0] == s[0];
    assert t != "" ==> (t + y)[0] == t[0];
    if s == "" {
      assert "" + x == x && "" + y == y;
    } else {
      assert (s + x)[1..] == s[1..] + x && (t + y)[1..] == t[1..] + y;
      TokenUnique(s[1..], t[1..], x, y);
      assert s == [s[0]] + s[1..] && t == [t[0]] + t[1..];
    }
  }

  /** The first character tells the kind of value. */
  function Kind(j: Json): char {
    match j
    case Null => 'n'
    case Bool(b) => if b then 't' else 'f'
    case Num(_) => '0'
    case Str(_) => '"'
    case Arr(_) => '['
    case Obj(_) => '{'
  }

  function KindOfChar(c: char): char { if '0' <= c <= '9' || c == '-' then '0' else c }

  lemma FirstChar(j: Json, x: string)
    requires Printable(j)
    ensures |Print(j)| > 0 && (Print(j) + x)[0] == Print(j)[0] && KindOfChar(Print(j)[0]) == Kind(j)
  {
  }

  lemma Cancel(p: string, x: string, y: string)
    requires p + x == p + y
    ensures x == y
  {
    assert (p + x)[|p|..] == x && (p + y)[|p|..] == y;
  }

  lemma BracketCancel(p: string, u: string, x: string, v: string, y: string)
    requires (p + u) + x == (p + v) + y
    ensures u + x == v + y
  {
    assert (p + u) + x == p + (u + x) && (p + v) + y == p + (v + y);
    Cancel(p, u + x, v + y);
  }

  lemma QuotedUnique(s: string, t: string, x: string, y: string)
    requires ("\"" + Escaped(s)) + x == ("\"" + Escaped(t)) + y
    ensures s == t && x == y
  {
    BracketCancel("\"", Escaped(s), x, Escaped(t), y);
    EscapedUnique(s, t, x, y);
  }

  lemma ScalarUnique(a: Json, b: Json, x: string, y: string)
    requires Printable(a) && Printable(b) && EndsNumber(x) && EndsNumber(y)
    requires Kind(a) == Kind(b) && !a.Arr? && !a.Obj? && Print(a) + x == Print(b) + y
    ensures a == b && x == y
  {
    match a
    case Null => Cancel("null", x, y);
    case Bool(v) => Cancel(Print(a), x, y);
    case Num(t) => TokenUnique(t, b.token, x, y);
    case Str(t) => QuotedUnique(t, b.text, x, y);
  }

  lemma KindUnique(a: Json, b: Json, x: string, y: string)
    requires Printable(a) && Printable(b) && Print(a) + x == Print(b) + y
    ensures Kind(a) == Kind(b)
  {
    FirstChar(a, x);
    FirstChar(b, y);
  }

  /** Main result: a printed value can be read off the front of any text that does not go on
      with a number character; so printing is injective. */
  lemma {:induction false} PrintUnique(a: Json, b: Json, x: string, y: string)
    requires Printable(a) && Printable(b) && EndsNumber(x) && EndsNumber(y)
    requires Print(a) + x == Print(b) + y
    ensures a == b && x == y
    decreases a, 0
  {
    KindUnique(a, b, x, y);
    if a.Arr? {
      var u, v := PrintItems(a.items, true), PrintItems(b.items, true);
      BracketCancel("[", u, x, v, y);
      ItemsUnique(a.items, b.items, true, x, y);
    } else if a.Obj? {
      var u, v := PrintFields(a.fields, true), PrintFields(b.fields, true);
      BracketCancel("{", u, x, v, y);
      FieldsUnique(a.fields, b.fields, true, x, y);
    } else {
      ScalarUnique(a, b, x, y);
    }
  }

  lemma ItemsRest(items: seq<Json>)
    ensures |PrintItems(items, false)| > 0 && !IsNumChar(PrintItems(items, false)[0])
  {
  }

  lemma FieldsRest(fields: seq<Field>)
    ensures |PrintFields(fields, false)| > 0 && !IsNumChar(PrintFields(fields, false)[0])
  {
  }

  /** An item list never starts like the closing bracket. */
  lemma ItemsStart(items: seq<Json>, first: bool, x: string)
    requires items != [] && AllPrintable(items)
    ensures |PrintItems(items, first) + x| > 0 && (PrintItems(items, first) + x)[0] != ']'
  {
    FirstChar(items[0], PrintItems(items[1..], false) + x);
    if first {
      assert PrintItems(items, first) + x == Print(items[0]) + (PrintItems(items[1..], false) + x);
    }
  }

  lemma ItemsCons(items: seq<Json>, first: bool, x: string)
    requires items != []
    ensures var tail := Print(items[0]) + (PrintItems(items[1..], false) + x);
      PrintItems(items, first) + x == if first then tail else "," + tail
  {
  }

  lemma {:induction false} ItemsUnique(a: seq<Json>, b: seq<Json>, first: bool, x: string, y: string)
    requires AllPrintable(a) && AllPrintable(b)
    requires PrintItems(a, first) + x == PrintItems(b, first) + y
    ensures a == b && x == y
    decreases a, 0
  {
    var s := PrintItems(a, first) + x;
    if a == [] && b == [] {
      assert s[1..] == x && s[1..] == y;
    } else if a == [] {
      ItemsStart(b, first, y);
    } else if b == [] {
      ItemsStart(a, first, x);
    } else {
      ItemsCons(a, first, x);
      ItemsCons(b, first, y);
      var u, v := PrintItems(a[1..], false) + x, PrintItems(b[1..], false) + y;
      assert Print(a[0]) + u == Print(b[0]) + v by {
        if !first { assert s[1..] == Print(a[0]) + u && s[1..] == Print(b[0]) + v; }
      }
      ItemsRest(a[1..]);
      ItemsRest(b[1..]);
      PrintUnique(a[0], b[0], u, v);
      ItemsUnique(a[1..], b[1..], false, x, y);
      assert a == [a[0]] + a[1..] && b == [b[0]] + b[1..];
    }
  }

  lemma Sum4(comma: string, key: string, value: string, rest: string, x: string)
    ensures (comma + ("\"" + key + ":" + (value + rest))) + x == comma + ("\"" + (key + (":" + (value + (rest + x)))))
    ensures comma == "" ==>
      comma + ("\"" + (key + (":" + (value + (rest + x))))) == "\"" + (key + (":" + (value + (rest + x))))
  {
  }

  lemma FieldsCons(fields: seq<Field>, first: bool, x: string)
    requires fields != []
    ensures var tail := "\"" + (Escaped(fields[0].key) +
      (":" + (Print(fields[0].value) + (PrintFields(fields[1..], false) + x))));
      PrintFields(fields, first) + x == if first then tail else "," + tail
  {
    Sum4(if first then "" else ",", Escaped(fields[0].key), Print(fields[0].value), PrintFields(fields[1..], false), x);
  }

  lemma KeyUnique(k: string, l: string, u: string, v: string, first: bool)
    requires var s, t := "\"" + (Escaped(k) + (":" + u)), "\"" + (Escaped(l) + (":" + v));
      (if first then s else "," + s) == (if first then t else "," + t)
    ensures k == l && u == v
  {
    var s, t := "\"" + (Escaped(k) + (":" + u)), "\"" + (Escaped(l) + (":" + v));
    if !first {
      Cancel(",", s, t);
    }
    Cancel("\"", Escaped(k) + (":" + u), Escaped(l) + (":" + v));
    EscapedUnique(k, l, ":" + u, ":" + v);
    Cancel(":", u, v);
  }

  lemma FieldsStart(fields: seq<Field>, first: bool, x: string)
    requires fields != []
    ensures |PrintFields(fields, first) + x| > 0 && (PrintFields(fields, first) + x)[0] != '}'
  {
    FieldsCons(fields, first, x);
  }

  lemma {:induction false} FieldsUnique(a: seq<Field>, b: seq<Field>, first: bool, x: string, y: string)
    requires FieldsPrintable(a) && FieldsPrintable(b)
    requires PrintFields(a, first) + x == PrintFields(b, first) + y
    ensures a == b && x == y
    decreases a, 0
  {
    var s := PrintFields(a, first) + x;
    if a == [] && b == [] {
      assert s[1..] == x && s[1..] == y;
    } else if a == [] {
      FieldsStart(b, first, y);
    } else if b == [] {
      FieldsStart(a, first, x);
    } else {
      FieldsCons(a, first, x);
      FieldsCons(b, first, y);
      var u, v := Print(a[0].value) + (PrintFields(a[1..], false) + x), Print(b[0].value) +
        (PrintFields(b[1..], false) + y);
      KeyUnique(a[0].key, b[0].key, u, v, first);
      FieldsRest(a[1..]);
      FieldsRest(b[1..]);
      PrintUnique(a[0].value, b[0].value, PrintFields(a[1..], false) + x, PrintFields(b[1..], false) + y);
      FieldsUnique(a[1..], b[1..], false, x, y);
      assert a == [a[0]] + a[1..] && b == [b[0]] + b[1..];
    }
  }
}
