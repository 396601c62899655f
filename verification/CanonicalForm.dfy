/** The bytes behind a fingerprint, written out: numbers and strings as text, the canonical JSON of
    every kind of value, and the framed stream. Digests are stored, so each byte counts. */
module CanonicalForm {
  import Text
  import opened Arithmetic
  import opened Sorting
  import opened Utf8
  import opened Json
  import opened Fingerprint

  // ----- Numbers -----

  predicate Digits(s: string) { s != "" && forall i :: 0 <= i < |s| ==> '0' <= s[i] <= '9' }

  /** No leading zero, except in "0" itself. */
  predicate Plain(s: string) { Digits(s) && (s[0] == '0' ==> s == "0") }

  lemma {:induction false} DecNatIsPlain(n: nat)
    ensures Plain(DecNat(n)) && FromDigits(DecNat(n)) == n
  {
    DigitsRoundTrip(n);
    if n >= 10 {
      DecNatIsPlain(n / 10);
      assert DecNat(n) == DecNat(n / 10) + ['0' + (n % 10) as char];
      assert DecNat(n / 10) == "0" ==> FromDigits("0") == 0 by { assert "0"[..0] == ""; }
    }
  }

  lemma {:induction false} DigitsGrow(s: string)
    requires Digits(s)
    ensures FromDigits(s) >= 0 && (s[0] != '0' ==> FromDigits(s) >= 1) && (s[0] != '0' && |s| > 1 ==> FromDigits(s) >= 10)
  {
    var init := s[..|s| - 1];
    if init != "" {
      DigitsGrow(init);
    }
  }

  lemma DecNatSnoc(m: nat, d: nat)
    requires m >= 1 && d < 10
    ensures DecNat(10 * m + d) == DecNat(m) + ['0' + d as char]
  {
    hide DecNat;
    var n := 10 * m + d;
    assert n / 10 == m && n % 10 == d;
    DecNatUnfold(n);
  }

  lemma DecNatUnfold(n: nat)
    ensures DecNat(n) == if n < 10 then ['0' + n as char] else DecNat(n / 10) + ['0' + (n % 10) as char]
  {
  }

  /** `str` of an integer: there is exactly one plain text per number. */
  lemma {:induction false} OneTextPerNumber(s: string)
    requires Plain(s)
    ensures FromDigits(s) >= 0 && s == DecNat(FromDigits(s))
  {
    DigitsGrow(s);
    var init, last := s[..|s| - 1], s[|s| - 1];
    assert s == init + [last];
    var d := last as int - '0' as int;
    assert FromDigits(s) == FromDigits(init) * 10 + d;
    if init == "" {
      hide DecNat;
      DecNatUnfold(d);
    } else {
      OneTextPerNumber(init);
      DigitsGrow(init);
      hide DecNat, FromDigits;
      DecNatSnoc(FromDigits(init), d);
    }
  }

  lemma DecimalIsStr(i: int)
    ensures i >= 0 ==> Plain(Decimal(i)) && FromDigits(Decimal(i)) == i
    ensures i < 0 ==> Decimal(i) != "" && Decimal(i)[0] == '-' && Plain(Decimal(i)[1..]) && FromDigits(Decimal(i)[1..]) == -i
  {
    DecNatIsPlain(if i < 0 then -i else i);
  }

  // ----- Strings and lists -----

  /** A character that JSON needs no escape for. */
  predicate Bare(c: char) { c >= ' ' && c != '"' && c != '\\' }

  lemma {:induction false} BareText(s: string)
    requires forall i :: 0 <= i < |s| ==> Bare(s[i])
    ensures Escape(s) == s
  {
    if s != "" {
      BareText(s[1..]);
      assert s == [s[0]] + s[1..];
    }
  }

  function HexValue(c: char): int {
    if '0' <= c <= '9' then c as int - '0' as int else if 'a' <= c <= 'f' then c as int - 'a' as int + 10 else -1
  }

  /** The other characters: short escapes, and four lower-case hexadecimal digits for the rest. */
  lemma EscapesOfSpecials(c: char)
    requires !Bare(c)
    ensures EscapeChar('"') == "\\\"" && EscapeChar('\\') == "\\\\" && EscapeChar('\n') == "\\n" && EscapeChar('\r') == "\\r"
    ensures EscapeChar('\t') == "\\t" && EscapeChar('\U{8}') == "\\b" && EscapeChar('\U{C}') == "\\f"
    ensures c !in "\"\\\n\r\t\U{8}\U{C}" ==>
      var e := EscapeChar(c);
      |e| == 6 && e[..4] == "\\u00" && HexValue(e[4]) >= 0 && HexValue(e[5]) >= 0 && HexValue(e[4]) * 16 + HexValue(e[5]) == c as int
  {
  }

  function Texts(items: seq<Json>): (r: seq<string>)
    ensures |r| == |items| && forall i :: 0 <= i < |items| ==> r[i] == Print(items[i])
  {
    if items == [] then [] else [Print(items[0])] + Texts(items[1..])
  }

  lemma {:induction false} RestIsJoin(items: seq<Json>)
    requires items != []
    ensures Print(items[0]) + PrintRest(items[1..]) == Text.Join(Texts(items), ",") + "]"
  {
    hide Print;
    if |items| > 1 {
      RestIsJoin(items[1..]);
      assert Texts(items)[1..] == Texts(items[1..]);
      assert PrintRest(items[1..]) == "," + (Print(items[1..][0]) + PrintRest(items[1..][1..]));
    }
  }

  /** Lists are printed with commas and no white space. */
  lemma PrintList(items: seq<Json>)
    ensures Print(JList(items)) == "[" + Text.Join(Texts(items), ",") + "]"
  {
    if items != [] {
      RestIsJoin(items);
    }
  }

  function Quote(s: string): string { "\"" + s + "\"" }

  /** Arrays of two and of three texts. */
  function Array2(a: string, b: string): string { "[" + (a + "," + b) + "]" }

  function Array3(a: string, b: string, c: string): string { "[" + (a + "," + (b + "," + c)) + "]" }

  lemma JoinTwo(a: string, b: string)
    ensures "[" + Text.Join([a, b], ",") + "]" == Array2(a, b)
  {
    assert [a, b][1..] == [b] && Text.Join([b], ",") == b;
  }

  lemma JoinThree(a: string, b: string, c: string)
    ensures "[" + Text.Join([a, b, c], ",") + "]" == Array3(a, b, c)
  {
    assert [a, b, c][1..] == [b, c];
    assert [b, c][1..] == [c] && Text.Join([c], ",") == c;
  }

  predicate AllBare(s: string) { forall i :: 0 <= i < |s| ==> Bare(s[i]) }

  /** A tagged string as it stands in the text. */
  lemma PrintTag(tag: string)
    requires AllBare(tag)
    ensures Print(JString(tag)) == Quote(tag)
  {
    BareText(tag);
  }

  // ----- The canonical JSON of every kind of value -----

  lemma {:induction false} HexIsBare(bs: seq<Byte>)
    ensures |Hex(bs)| == 2 * |bs| && forall i :: 0 <= i < |Hex(bs)| ==> Bare(Hex(bs)[i])
    ensures forall k :: 0 <= k < |bs| ==> HexValue(Hex(bs)[2 * k]) * 16 + HexValue(Hex(bs)[2 * k + 1]) == bs[k]
  {
    if bs != [] {
      HexIsBare(bs[1..]);
      var head := [HexDigit(bs[0] / 16), HexDigit(bs[0] % 16)];
      assert Hex(bs) == head + Hex(bs[1..]);
      forall k | 0 < k < |bs|
        ensures HexValue(Hex(bs)[2 * k]) * 16 + HexValue(Hex(bs)[2 * k + 1]) == bs[k]
      {
        assert Hex(bs)[2 * k] == Hex(bs[1..])[2 * (k - 1)] && Hex(bs)[2 * k + 1] == Hex(bs[1..])[2 * (k - 1) + 1];
      }
    }
  }

  lemma DecimalIsBare(i: int)
    ensures Escape(Decimal(i)) == Decimal(i)
  {
    DecimalIsStr(i);
    hide DecNat;
    assert i < 0 ==> Decimal(i) == ['-'] + Decimal(i)[1..];
    BareText(Decimal(i));
  }

  lemma PrintString(s: string)
    ensures Print(JString(s)) == Quote(Escape(s))
  {
  }

  lemma PrintOne(tag: string)
    requires AllBare(tag)
    ensures Print(JList([JString(tag)])) == "[" + Quote(tag) + "]"
  {
    hide Print, Escape, Quote;
    PrintTag(tag);
    PrintList([JString(tag)]);
    assert Texts([JString(tag)]) == [Print(JString(tag))];
  }

  lemma PrintTwo(tag: string, x: Json)
    requires AllBare(tag)
    ensures Print(JList([JString(tag), x])) == Array2(Quote(tag), Print(x))
  {
    hide Print, Escape, Quote, Array2;
    PrintTag(tag);
    PrintList([JString(tag), x]);
    assert Texts([JString(tag), x]) == [Print(JString(tag)), Print(x)];
    JoinTwo(Print(JString(tag)), Print(x));
  }

  lemma PrintThree(tag: string, name: string, x: Json)
    requires AllBare(tag)
    ensures Print(JList([JString(tag), JString(name), x])) == Array3(Quote(tag), Quote(Escape(name)), Print(x))
  {
    hide Print, Escape, Quote, Array3;
    PrintTag(tag);
    PrintString(name);
    PrintList([JString(tag), JString(name), x]);
    assert Texts([JString(tag), JString(name), x]) == [Print(JString(tag)), Print(JString(name)), Print(x)];
    JoinThree(Print(JString(tag)), Print(JString(name)), Print(x));
  }

  function ArrayOf(texts: seq<string>): string { "[" + Text.Join(texts, ",") + "]" }

  /** The text of a value, kind by kind. */
  function JsonText(v: Value): string
    decreases v, 1
  {
    match v
    case None => "[" + Quote("none") + "]"
    case Bool(b) => Array2(Quote("bool"), if b then "true" else "false")
    case Int(i) => Array2(Quote("int"), Quote(Decimal(i)))
    case Str(s) => Array2(Quote("string"), Quote(Escape(s)))
    case Buffer(buffer, bs) => BufferText(buffer, Quote(Hex(bs)))
    case Complex(re, im) => Array3(Quote("complex"), Quote(Hex(re)), Quote(Hex(im)))
    case Date(iso) => Array2(Quote("date"), Quote(Escape(iso)))
    case Time(iso, fold) => Array3(Quote("time"), Quote(Escape(iso)), if fold then "1" else "0")
    case DateTime(iso, fold) => Array3(Quote("datetime"), Quote(Escape(iso)), if fold then "1" else "0")
    case Path(name, posix) => Array3(Quote("path"), Quote(Escape(name)), Quote(Escape(posix)))
    case Wrapped(wrapper, name, inner) => WrapperText(wrapper, Quote(Escape(name)), JsonText(inner))
    case Sequence(name, items) => Array3(Quote("sequence"), Quote(Escape(name)), ArrayOf(ItemTexts(items)))
    case Unordered(name, items) => Array3(Quote("set"), Quote(Escape(name)), ArrayOf(Sorted(ItemTexts(items))))
    case Mapping(name, entries) => Array3(Quote("mapping"), Quote(Escape(name)), ArrayOf(Sorted(EntryTexts(entries))))
  }

  function BufferText(buffer: BufferKind, text: string): string {
    match buffer
    case Bytes => Array2(Quote("bytes"), text)
    case ByteArray => Array2(Quote("bytearray"), text)
    case MemoryView => Array2(Quote("memoryview"), text)
    case Float => Array2(Quote("float"), text)
  }

  function WrapperText(wrapper: Wrapper, name: string, text: string): string {
    match wrapper
    case Enum => Array3(Quote("enum"), name, text)
    case Model => Array3(Quote("pydantic_model"), name, text)
    case Special => Array3(Quote("special"), name, text)
  }

  /** In code-point order. */
  function Sorted(texts: seq<string>): seq<string> { Sort(texts, StrLe) }

  lemma SortedHolds(texts: seq<string>)
    ensures multiset(Sorted(texts)) == multiset(texts)
    ensures forall i, j :: 0 <= i < j < |Sorted(texts)| ==> StrLe(Sorted(texts)[i], Sorted(texts)[j])
  {
    StrLeOrder();
    SortSorts(texts, StrLe);
  }

  function ItemTexts(items: seq<Value>): seq<string>
    decreases items, 0
  {
    if items == [] then [] else [JsonText(items[0])] + ItemTexts(items[1..])
  }

  function EntryText(e: Entry): string
    decreases e, 1
  {
    Array2(JsonText(e.key), JsonText(e.item))
  }

  function EntryTexts(entries: seq<Entry>): seq<string>
    decreases entries, 0
  {
    if entries == [] then [] else [EntryText(entries[0])] + EntryTexts(entries[1..])
  }

  // ----- Sorting trees by their text is sorting texts -----

  lemma {:induction false} InsertText(x: Json, xs: seq<Json>)
    ensures Texts(Insert(x, xs, TextLe())) == Insert(Print(x), Texts(xs), StrLe)
  {
    hide Print, StrLe;
    if xs != [] {
      InsertText(x, xs[1..]);
      assert Texts(xs)[1..] == Texts(xs[1..]);
      if TextLe()(x, xs[0]) {
        assert ([x] + xs)[1..] == xs;
      } else {
        var rest := Insert(x, xs[1..], TextLe());
        assert ([xs[0]] + rest)[1..] == rest;
      }
    } else {
      assert [x][1..] == [];
    }
  }

  lemma {:induction false} SortText(xs: seq<Json>)
    ensures Texts(Sort(xs, TextLe())) == Sorted(Texts(xs))
  {
    hide Print, StrLe, Insert;
    if xs != [] {
      SortText(xs[1..]);
      assert Texts(xs)[1..] == Texts(xs[1..]);
      InsertText(xs[0], Sort(xs[1..], TextLe()));
    }
  }

  lemma TaggedText(tag: string, name: string, items: seq<Json>)
    requires AllBare(tag)
    ensures Print(Tagged(tag, name, items)) == Array3(Quote(tag), Quote(Escape(name)), ArrayOf(Texts(items)))
  {
    hide Print, Escape, Array3, Quote;
    PrintThree(tag, name, JList(items));
    PrintList(items);
  }

  lemma {:induction false} ItemsText(items: seq<Value>)
    ensures Texts(CanonicalItems(items)) == ItemTexts(items)
    decreases items, 0
  {
    hide Print, Canonical, JsonText;
    if items != [] {
      CanonicalJsonIs(items[0]);
      ItemsText(items[1..]);
      assert CanonicalItems(items)[1..] == CanonicalItems(items[1..]);
    }
  }

  lemma {:induction false} EntryIsText(e: Entry)
    ensures Print(CanonicalEntry(e)) == EntryText(e)
    decreases e, 3
  {
    hide Print, Canonical, JsonText, Array2;
    CanonicalJsonIs(e.key);
    CanonicalJsonIs(e.item);
    var key, item := Canonical(e.key), Canonical(e.item);
    PrintList([key, item]);
    assert Texts([key, item]) == [Print(key), Print(item)];
    JoinTwo(Print(key), Print(item));
  }

  lemma {:induction false} EntriesText(entries: seq<Entry>)
    ensures Texts(CanonicalEntries(entries)) == EntryTexts(entries)
    decreases entries, 0
  {
    hide Print, CanonicalEntry, EntryText;
    if entries != [] {
      EntryIsText(entries[0]);
      EntriesText(entries[1..]);
      assert CanonicalEntries(entries)[1..] == CanonicalEntries(entries[1..]);
    }
  }

  /** `canonical_json`: the printed tree is that text. */
  lemma {:induction false} CanonicalJsonIs(v: Value)
    ensures Print(Canonical(v)) == JsonText(v)
    decreases v, 2
  {
    hide Print, Canonical, JsonText;
    match v
    case Wrapped(wrapper, name, inner) => WrappedIsText(wrapper, name, inner);
    case Sequence(name, items) => SequenceIsText(name, items);
    case Unordered(name, items) => UnorderedIsText(name, items);
    case Mapping(name, entries) => MappingIsText(name, entries);
    case _ => ScalarText(v);
  }

  lemma WrapperIs(wrapper: Wrapper, name: string, x: Json)
    ensures Print(JList([JString(WrapperTag(wrapper)), JString(name), x])) == WrapperText(wrapper, Quote(Escape(name)), Print(x))
  {
    hide Print, Escape, Array3, Quote;
    match wrapper
    case Enum => PrintThree("enum", name, x);
    case Model => PrintThree("pydantic_model", name, x);
    case Special => PrintThree("special", name, x);
  }

  lemma WrappedUnfolds(wrapper: Wrapper, name: string, inner: Value)
    ensures Canonical(Wrapped(wrapper, name, inner)) == JList([JString(WrapperTag(wrapper)), JString(name), Canonical(inner)])
    ensures JsonText(Wrapped(wrapper, name, inner)) == WrapperText(wrapper, Quote(Escape(name)), JsonText(inner))
  {
    hide WrapperTag, WrapperText, Escape, Quote, Array2, Array3;
  }

  lemma {:induction false} WrappedIsText(wrapper: Wrapper, name: string, inner: Value)
    ensures Print(Canonical(Wrapped(wrapper, name, inner))) == JsonText(Wrapped(wrapper, name, inner))
    decreases inner, 3
  {
    hide *;
    CanonicalJsonIs(inner);
    WrappedUnfolds(wrapper, name, inner);
    WrapperIs(wrapper, name, Canonical(inner));
  }

  lemma SequenceUnfolds(name: string, items: seq<Value>)
    ensures Canonical(Sequence(name, items)) == Tagged("sequence", name, CanonicalItems(items))
    ensures JsonText(Sequence(name, items)) == Array3(Quote("sequence"), Quote(Escape(name)), ArrayOf(ItemTexts(items)))
  {
    hide Tagged, CanonicalItems, ItemTexts, ArrayOf, Escape, Quote, Array2, Array3;
  }

  lemma {:induction false} SequenceIsText(name: string, items: seq<Value>)
    ensures Print(Canonical(Sequence(name, items))) == JsonText(Sequence(name, items))
    decreases items, 1
  {
    TagsAreBare();
    hide *;
    ItemsText(items);
    SequenceUnfolds(name, items);
    TaggedText("sequence", name, CanonicalItems(items));
  }

  lemma TagsAreBare()
    ensures AllBare("sequence") && AllBare("set") && AllBare("mapping")
  {
  }

  lemma SortedTreeText(tag: string, name: string, items: seq<Json>)
    requires AllBare(tag)
    ensures Print(Tagged(tag, name, Sort(items, TextLe()))) == Array3(Quote(tag), Quote(Escape(name)), ArrayOf(Sorted(Texts(items))))
  {
    hide *;
    SortText(items);
    TaggedText(tag, name, Sort(items, TextLe()));
  }

  lemma UnorderedUnfolds(name: string, items: seq<Value>)
    ensures Canonical(Unordered(name, items)) == Tagged("set", name, Sort(CanonicalItems(items), TextLe()))
    ensures JsonText(Unordered(name, items)) == Array3(Quote("set"), Quote(Escape(name)), ArrayOf(Sorted(ItemTexts(items))))
  {
    hide Tagged, CanonicalItems, ItemTexts, ArrayOf, Escape, Quote, Array2, Array3, Sort, Sorted, TextLe;
  }

  lemma {:induction false} UnorderedIsText(name: string, items: seq<Value>)
    ensures Print(Canonical(Unordered(name, items))) == JsonText(Unordered(name, items))
    decreases items, 1
  {
    TagsAreBare();
    hide *;
    ItemsText(items);
    UnorderedUnfolds(name, items);
    SortedTreeText("set", name, CanonicalItems(items));
  }

  lemma MappingUnfolds(name: string, entries: seq<Entry>)
    ensures Canonical(Mapping(name, entries)) == Tagged("mapping", name, Sort(CanonicalEntries(entries), TextLe()))
    ensures JsonText(Mapping(name, entries)) == Array3(Quote("mapping"), Quote(Escape(name)), ArrayOf(Sorted(EntryTexts(entries))))
  {
    hide Tagged, CanonicalEntries, EntryTexts, ArrayOf, Escape, Quote, Array2, Array3, Sort, Sorted, TextLe;
  }

  lemma {:induction false} MappingIsText(name: string, entries: seq<Entry>)
    ensures Print(Canonical(Mapping(name, entries))) == JsonText(Mapping(name, entries))
    decreases entries, 1
  {
    TagsAreBare();
    hide *;
    EntriesText(entries);
    MappingUnfolds(name, entries);
    SortedTreeText("mapping", name, CanonicalEntries(entries));
  }

  lemma BufferIs(buffer: BufferKind, bs: seq<Byte>)
    ensures Print(JList([JString(BufferTag(buffer)), JString(Hex(bs))])) == BufferText(buffer, Quote(Hex(bs)))
  {
    hide Print, Escape, Array2, Quote, Hex;
    PrintString(Hex(bs));
    HexText(bs);
    match buffer
    case Bytes => PrintTwo("bytes", JString(Hex(bs)));
    case ByteArray => PrintTwo("bytearray", JString(Hex(bs)));
    case MemoryView => PrintTwo("memoryview", JString(Hex(bs)));
    case Float => PrintTwo("float", JString(Hex(bs)));
  }

  lemma ScalarText(v: Value)
    requires IsScalar(v)
    ensures Print(Canonical(v)) == JsonText(v)
  {
    hide Print, Escape, Array2, Array3, Quote, Hex, Decimal, BufferText, BufferTag;
    match v
    case None => PrintOne("none");
    case Bool(b) => PrintTwo("bool", JBool(b)); PrintConstants();
    case Int(i) => PrintTwo("int", JString(Decimal(i))); PrintString(Decimal(i)); DecimalIsBare(i);
    case Str(s) => PrintTwo("string", JString(s)); PrintString(s);
    case Date(iso) => PrintTwo("date", JString(iso)); PrintString(iso);
    case Buffer(buffer, bs) => BufferIs(buffer, bs);
    case Complex(re, im) => PrintThree("complex", Hex(re), JString(Hex(im))); PrintString(Hex(im)); HexText(re); HexText(im);
    case Time(iso, fold) => PrintThree("time", iso, JBit(fold)); PrintConstants();
    case DateTime(iso, fold) => PrintThree("datetime", iso, JBit(fold)); PrintConstants();
    case Path(name, posix) => PrintThree("path", name, JString(posix)); PrintString(posix);
  }

  lemma HexText(bs: seq<Byte>)
    ensures Escape(Hex(bs)) == Hex(bs)
  {
    HexIsBare(bs);
    BareText(Hex(bs));
  }

  lemma PrintConstants()
    ensures Print(JBool(true)) == "true" && Print(JBool(false)) == "false"
    ensures Print(JBit(true)) == "1" && Print(JBit(false)) == "0"
  {
  }

  // ----- The stream -----

  lemma {:induction false} PowerPositive(k: nat)
    ensures Power256(k) > 0
  {
    if k > 0 {
      PowerPositive(k - 1);
    }
  }

  /** The most significant byte comes first. */
  lemma {:induction false} BigEndianAt(n: nat, k: nat, i: nat)
    requires i < k
    ensures Power256(k - 1 - i) > 0 && BigEndian(n, k)[i] == n / Power256(k - 1 - i) % 256
  {
    PowerPositive(k - 1 - i);
    if i < k - 1 {
      BigEndianAt(n / 256, k - 1, i);
      DivideTwice(n, Power256(k - 2 - i));
    }
  }

  lemma DivideTwice(n: nat, d: nat)
    requires d > 0
    ensures n / 256 / d == n / (256 * d)
  {
    var m, q := n / 256, n / 256 / d;
    var r, s := m % d, n % 256;
    assert m == d * q + r && n == 256 * m + s;
    assert 256 * (d * q) == 256 * d * q;
    QuotientUnique(n, 256 * d, q);
  }

  lemma {:induction false} Ascii(s: string)
    requires forall i :: 0 <= i < |s| ==> s[i] < '\U{80}'
    ensures |Encode(s)| == |s| && forall i :: 0 <= i < |s| ==> Encode(s)[i] == s[i] as int
  {
    if s != "" {
      Ascii(s[1..]);
    }
  }

  /** The parts of every stream in order: prefix, domain, version, value, each part after the first
      behind its length in eight bytes. */
  lemma StreamIs(v: Value, domain: string, version: int)
    ensures Stream(v, domain, version) == Encode("dbt-ml-canonical-fingerprint")
      + (BigEndian(|Encode(domain)|, 8) + Encode(domain))
      + (BigEndian(|Encode(Decimal(version))|, 8) + Encode(Decimal(version)))
      + (BigEndian(|Encode(JsonText(v))|, 8) + Encode(JsonText(v)))
  {
    CanonicalJsonIs(v);
    hide Encode, BigEndian, Decimal, Print, Canonical, JsonText;
  }
}
