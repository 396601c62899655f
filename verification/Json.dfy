/** JSON text of trees made of lists, strings, booleans and the numbers 0 and 1, as `json.dumps` writes them with
    compact separators and without ASCII escaping. Strings follow section 7 of RFC 8259. */
module Json {
  import opened Sorting

  datatype Json = JString(s: string) | JBool(b: bool) | JBit(one: bool) | JList(items: seq<Json>)

  function HexDigit(n: int): (c: char)
    requires 0 <= n < 16
  {
    if n < 10 then '0' + n as char else 'a' + (n - 10) as char
  }

  /** `ESCAPE_DCT`: the two special characters, the five short forms, then `\\u00hh`. */
  function EscapeChar(c: char): (r: string)
    ensures r != "" && r[0] != '"'
  {
    if c == '"' then ['\\', '"']
    else if c == '\\' then ['\\', '\\']
    else if c == '\n' then ['\\', 'n']
    else if c == '\r' then ['\\', 'r']
    else if c == '\t' then ['\\', 't']
    else if c == '\U{0C}' then ['\\', 'f']
    else if c == '\U{08}' then ['\\', 'b']
    else if c < ' ' then ['\\', 'u', '0', '0', HexDigit(c as int / 16), HexDigit(c as int % 16)]
    else [c]
  }

  function Escape(s: string): string {
    if s == "" then "" else EscapeChar(s[0]) + Escape(s[1..])
  }

  function Print(t: Json): (r: string)
    ensures r != "" && r[0] != ']'
    decreases t, 1
  {
    match t
    case JString(s) => ['"'] + Escape(s) + ['"']
    case JBool(b) => if b then "true" else "false"
    case JBit(one) => if one then "1" else "0"
    case JList(items) => ['['] + if items == [] then "]" else Print(items[0]) + PrintRest(items[1..])
  }

  /** The later items, each after a comma, and the closing bracket. */
  function PrintRest(items: seq<Json>): (r: string)
    ensures r != ""
    decreases items, 0
  {
    if items == [] then "]" else [','] + (Print(items[0]) + PrintRest(items[1..]))
  }

  // ----- Printed texts can be told apart, whatever follows them -----

  lemma EscapeCharCancel(c: char, d: char, r: string, q: string)
    requires EscapeChar(c) + r == EscapeChar(d) + q
    ensures c == d && r == q
  {
    var x, y := EscapeChar(c), EscapeChar(d);
    assert x[0] == (x + r)[0] == (y + q)[0] == y[0];
    if |x| >= 2 && |y| >= 2 {
      assert x[1] == (x + r)[1] == (y + q)[1] == y[1];
    }
    assert |x| == |y|;
    SplitEqual(x, y, r, q);
  }

  lemma {:induction false} EscapeCancel(s: string, t: string, r: string, q: string)
    requires Escape(s) + ['"'] + r == Escape(t) + ['"'] + q
    ensures s == t && r == q
    decreases |s|
  {
    hide EscapeChar;
    var x, y := Escape(s) + ['"'] + r, Escape(t) + ['"'] + q;
    if s != "" {
      assert x == EscapeChar(s[0]) + (Escape(s[1..]) + ['"'] + r);
      assert x[0] == EscapeChar(s[0])[0];
    } else {
      assert x == ['"'] + r;
    }
    if t != "" {
      assert y == EscapeChar(t[0]) + (Escape(t[1..]) + ['"'] + q);
      assert y[0] == EscapeChar(t[0])[0];
    } else {
      assert y == ['"'] + q;
    }
    assert x[0] == y[0];
    if s != "" {
      EscapeCharCancel(s[0], t[0], Escape(s[1..]) + ['"'] + r, Escape(t[1..]) + ['"'] + q);
      EscapeCancel(s[1..], t[1..], r, q);
      assert s == [s[0]] + s[1..] && t == [t[0]] + t[1..];
    } else {
      SplitEqual(['"'], ['"'], r, q);
    }
  }

  lemma PrintKind(t: Json, r: string)
    ensures var c := (Print(t) + r)[0];
      && (t.JString? <==> c == '"') && (t.JList? <==> c == '[')
      && (t.JBool? <==> c == 't' || c == 'f') && (t.JBit? <==> c == '0' || c == '1')
  {
  }

  /** No printed text is a proper beginning of another one: from text and rest together, both can
      be read off. */
  lemma {:induction false} PrintCancel(t: Json, u: Json, r: string, q: string)
    requires Print(t) + r == Print(u) + q
    ensures t == u && r == q
    decreases t, 1
  {
    PrintKind(t, r);
    PrintKind(u, q);
    match t
    case JString(s) =>
      StringCancel(s, u.s, r, q);
    case JBool(b) =>
      assert (Print(t) + r)[0] == (Print(u) + q)[0];
      assert b == u.b;
      SplitEqual(Print(t), Print(u), r, q);
    case JBit(one) =>
      assert (Print(t) + r)[0] == (Print(u) + q)[0];
      assert one == u.one;
      SplitEqual(Print(t), Print(u), r, q);
    case JList(items) =>
      ListCancel(items, u.items, r, q);
  }

  lemma StringCancel(s: string, t: string, r: string, q: string)
    requires Print(JString(s)) + r == Print(JString(t)) + q
    ensures s == t && r == q
  {
    var a, b := Escape(s) + ['"'] + r, Escape(t) + ['"'] + q;
    assert Print(JString(s)) + r == ['"'] + a && Print(JString(t)) + q == ['"'] + b;
    SplitEqual(['"'], ['"'], a, b);
    EscapeCancel(s, t, r, q);
  }

  /** What follows the opening bracket. */
  function PrintBody(items: seq<Json>): (r: string)
    ensures r != "" && (r[0] == ']' <==> items == [])
  {
    if items == [] then "]" else Print(items[0]) + PrintRest(items[1..])
  }

  lemma BodyStarts(items: seq<Json>, r: string)
    ensures Print(JList(items)) + r == ['['] + (PrintBody(items) + r)
    ensures items != [] ==> PrintBody(items) + r == Print(items[0]) + (PrintRest(items[1..]) + r)
  {
  }

  lemma RestIsCommaBody(items: seq<Json>)
    ensures PrintRest(items) == if items == [] then "]" else [','] + PrintBody(items)
  {
    hide Print;
  }

  lemma RestStarts(items: seq<Json>, r: string)
    ensures PrintRest(items)[0] == if items == [] then ']' else ','
    ensures items != [] ==> PrintRest(items) + r == [','] + (PrintBody(items) + r)
  {
    hide Print, PrintRest, PrintBody;
    RestIsCommaBody(items);
    if items != [] {
      assert [','] + PrintBody(items) + r == [','] + (PrintBody(items) + r);
    }
  }

  lemma {:induction false} ListCancel(xs: seq<Json>, ys: seq<Json>, r: string, q: string)
    requires Print(JList(xs)) + r == Print(JList(ys)) + q
    ensures xs == ys && r == q
    decreases xs, 4
  {
    hide Print, PrintRest;
    BodyStarts(xs, r);
    BodyStarts(ys, q);
    SplitEqual(['['], ['['], PrintBody(xs) + r, PrintBody(ys) + q);
    assert PrintBody(xs)[0] == (PrintBody(xs) + r)[0] == PrintBody(ys)[0];
    if xs == [] {
      SplitEqual("]", "]", r, q);
    } else {
      ItemsCancel(xs, ys, r, q);
    }
  }

  /** Two non-empty item lists, each printed as head and rest. */
  lemma {:induction false} ItemsCancel(xs: seq<Json>, ys: seq<Json>, r: string, q: string)
    requires xs != [] && ys != []
    requires PrintBody(xs) + r == PrintBody(ys) + q
    ensures xs == ys && r == q
    decreases xs, 2
  {
    hide Print, PrintRest, PrintBody;
    BodyStarts(xs, r);
    BodyStarts(ys, q);
    PrintCancel(xs[0], ys[0], PrintRest(xs[1..]) + r, PrintRest(ys[1..]) + q);
    RestCancel(xs[1..], ys[1..], r, q);
    assert xs == [xs[0]] + xs[1..] && ys == [ys[0]] + ys[1..];
  }

  lemma {:induction false} RestCancel(xs: seq<Json>, ys: seq<Json>, r: string, q: string)
    requires PrintRest(xs) + r == PrintRest(ys) + q
    ensures xs == ys && r == q
    decreases xs, 3
  {
    hide Print, PrintBody;
    RestStarts(xs, r);
    RestStarts(ys, q);
    assert PrintRest(xs)[0] == (PrintRest(xs) + r)[0] == PrintRest(ys)[0];
    if xs == [] {
      SplitEqual("]", "]", r, q);
    } else {
      hide PrintRest;
      SplitEqual([','], [','], PrintBody(xs) + r, PrintBody(ys) + q);
      ItemsCancel(xs, ys, r, q);
    }
  }

  lemma PrintInjective(t: Json, u: Json)
    requires Print(t) == Print(u)
    ensures t == u
  {
    assert Print(t) + "" == Print(u) + "";
    PrintCancel(t, u, "", "");
  }
}
