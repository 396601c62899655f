/** Canonical fingerprints: a type-tagged canonical tree, its JSON text, and the framed bytes
    that are fed to the digest. */
module Fingerprint {
  import opened Sorting
  import opened Utf8
  import opened Json

  /** A value as its canonical form sees it. Containers and wrapped values carry their type's name;
      sets and mappings are listed in the order they iterate. */
  datatype Value =
    | None
    | Bool(b: bool)
    | Int(i: int)
    | Str(s: string)
    | Buffer(buffer: BufferKind, bs: seq<Byte>)
    | Complex(re: seq<Byte>, im: seq<Byte>)
    | Date(iso: string)
    | Time(iso: string, fold: bool)
    | DateTime(iso: string, fold: bool)
    | Path(name: string, posix: string)
    | Wrapped(wrapper: Wrapper, name: string, inner: Value)
    | Sequence(name: string, items: seq<Value>)
    | Unordered(name: string, items: seq<Value>)
    | Mapping(name: string, entries: seq<Entry>)

  /** What is hashed as bytes; a float as the eight it is packed into. */
  datatype BufferKind = Bytes | ByteArray | MemoryView | Float

  /** What is hashed as a type's name around another value: an enum's value, a model's dump, and
      a special value's conversion, such as a decimal's text. */
  datatype Wrapper = Enum | Model | Special

  datatype Entry = Entry(key: Value, item: Value)

  // ----- Equality of values, order of sets and dictionaries aside -----

  ghost predicate IsPermutation(p: seq<nat>, n: nat) {
    |p| == n && Distinct(p) && forall i :: 0 <= i < n ==> p[i] < n
  }

  ghost predicate Same(v: Value, w: Value)
    decreases v
  {
    match v
    case Wrapped(wrapper, name, inner) => w.Wrapped? && wrapper == w.wrapper && name == w.name && Same(inner, w.inner)
    case Sequence(name, xs) => w.Sequence? && name == w.name && |xs| == |w.items|
      && forall i :: 0 <= i < |xs| ==> Same(xs[i], w.items[i])
    case Unordered(name, xs) => w.Unordered? && name == w.name && |xs| == |w.items|
      && exists p :: IsPermutation(p, |xs|) && forall i :: 0 <= i < |xs| ==> Same(xs[i], w.items[p[i]])
    case Mapping(name, es) => w.Mapping? && name == w.name && |es| == |w.entries|
      && exists p :: IsPermutation(p, |es|) && forall i :: 0 <= i < |es| ==>
           Same(es[i].key, w.entries[p[i]].key) && Same(es[i].item, w.entries[p[i]].item)
    case _ => v == w
  }

  /** The permutation `p` pairs equal items. */
  ghost predicate SameItems(p: seq<nat>, xs: seq<Value>, ys: seq<Value>) {
    |xs| == |ys| && IsPermutation(p, |xs|) && forall i :: 0 <= i < |xs| ==> Same(xs[i], ys[p[i]])
  }

  ghost predicate SameEntry(e: Entry, f: Entry) {
    Same(e.key, f.key) && Same(e.item, f.item)
  }

  ghost predicate SameEntries(p: seq<nat>, es: seq<Entry>, fs: seq<Entry>) {
    |es| == |fs| && IsPermutation(p, |es|) && forall i :: 0 <= i < |es| ==> SameEntry(es[i], fs[p[i]])
  }

  // ----- Canonical trees -----

  function DecNat(n: nat): (r: string)
    ensures r != "" && '0' <= r[0] <= '9'
  {
    if n < 10 then ['0' + n as char] else DecNat(n / 10) + ['0' + (n % 10) as char]
  }

  /** `str(i)`. */
  function Decimal(i: int): string {
    if i < 0 then ['-'] + DecNat(-i) else DecNat(i)
  }

  /** `bytes.hex()`. */
  function Hex(bs: seq<Byte>): string {
    if bs == [] then "" else [HexDigit(bs[0] / 16), HexDigit(bs[0] % 16)] + Hex(bs[1..])
  }

  function TextLe(): (Json, Json) -> bool { (a, b) => StrLe(Print(a), Print(b)) }

  function Tagged(tag: string, identity: string, items: seq<Json>): Json {
    JList([JString(tag), JString(identity), JList(items)])
  }

  function Canonical(v: Value): Json
    decreases v, 1
  {
    match v
    case None => JList([JString("none")])
    case Bool(b) => JList([JString("bool"), JBool(b)])
    case Int(i) => JList([JString("int"), JString(Decimal(i))])
    case Str(s) => JList([JString("string"), JString(s)])
    case Buffer(buffer, bs) => JList([JString(BufferTag(buffer)), JString(Hex(bs))])
    case Complex(re, im) => JList([JString("complex"), JString(Hex(re)), JString(Hex(im))])
    case Date(iso) => JList([JString("date"), JString(iso)])
    case Time(iso, fold) => JList([JString("time"), JString(iso), JBit(fold)])
    case DateTime(iso, fold) => JList([JString("datetime"), JString(iso), JBit(fold)])
    case Path(name, posix) => JList([JString("path"), JString(name), JString(posix)])
    case Wrapped(wrapper, name, inner) => JList([JString(WrapperTag(wrapper)), JString(name), Canonical(inner)])
    case Sequence(name, xs) => Tagged("sequence", name, CanonicalItems(xs))
    case Unordered(name, xs) => Tagged("set", name, Sort(CanonicalItems(xs), TextLe()))
    case Mapping(name, es) => Tagged("mapping", name, Sort(CanonicalEntries(es), TextLe()))
  }

  function BufferTag(buffer: BufferKind): string {
    match buffer
    case Bytes => "bytes"
    case ByteArray => "bytearray"
    case MemoryView => "memoryview"
    case Float => "float"
  }

  function WrapperTag(wrapper: Wrapper): string {
    match wrapper
    case Enum => "enum"
    case Model => "pydantic_model"
    case Special => "special"
  }

  function CanonicalItems(xs: seq<Value>): (r: seq<Json>)
    ensures |r| == |xs| && forall i :: 0 <= i < |xs| ==> r[i] == Canonical(xs[i])
    decreases xs, 0
  {
    if xs == [] then [] else [Canonical(xs[0])] + CanonicalItems(xs[1..])
  }

  function CanonicalEntry(e: Entry): Json
    decreases e, 1
  {
    JList([Canonical(e.key), Canonical(e.item)])
  }

  function CanonicalEntries(es: seq<Entry>): (r: seq<Json>)
    ensures |r| == |es| && forall i :: 0 <= i < |es| ==> r[i] == CanonicalEntry(es[i])
    decreases es, 0
  {
    if es == [] then [] else [CanonicalEntry(es[0])] + CanonicalEntries(es[1..])
  }

  // ----- Rearrangements -----

  lemma TextLeOrder()
    ensures TotalPreorder(TextLe()) && Antisymmetric(TextLe())
  {
    StrLeOrder();
    var le := TextLe();
    forall a, b | le(a, b) && le(b, a)
      ensures a == b
    {
      PrintInjective(a, b);
    }
  }

  /** Sorting by the printed text identifies exactly the rearrangements of one another. */
  lemma SortedAgree(a: seq<Json>, b: seq<Json>)
    ensures Sort(a, TextLe()) == Sort(b, TextLe()) <==> multiset(a) == multiset(b)
  {
    if multiset(a) == multiset(b) {
      TextLeOrder();
      SortSorts(a, TextLe());
      SortSorts(b, TextLe());
      SortedIsUnique(Sort(a, TextLe()), Sort(b, TextLe()), TextLe());
    }
  }

  ghost predicate Rearranges<T(!new)>(p: seq<nat>, a: seq<T>, b: seq<T>) {
    |a| == |b| && IsPermutation(p, |a|) && forall i :: 0 <= i < |a| ==> a[i] == b[p[i]]
  }

  lemma MultisetWithout<T>(xs: seq<T>, i: nat)
    requires i < |xs|
    ensures multiset(xs) == multiset(Without(xs, i)) + multiset{xs[i]}
  {
    assert xs == xs[..i] + [xs[i]] + xs[i + 1..];
  }

  lemma EqualRest<T>(m: multiset<T>, k: multiset<T>, x: T)
    requires m + multiset{x} == k + multiset{x}
    ensures m == k
  {
    assert m == (m + multiset{x}) - multiset{x};
    assert k == (k + multiset{x}) - multiset{x};
  }

  function SkipOver(j: nat, k: nat): nat { if k < j then k else k + 1 }

  /** `q` numbers the places of a list without its place `j`; put `j` at the end. */
  function PlaceLast(q: seq<nat>, j: nat): seq<nat> {
    seq(|q|, i requires 0 <= i < |q| => SkipOver(j, q[i])) + [j]
  }

  lemma PlaceLastMatches<T>(q: seq<nat>, j: nat, a: seq<T>, b: seq<T>)
    requires |a| == |b| == |q| + 1 && j < |b| && b[j] == a[|q|]
    requires forall i :: 0 <= i < |q| ==> q[i] < |q| && a[i] == Without(b, j)[q[i]]
    ensures forall i :: 0 <= i < |a| ==> PlaceLast(q, j)[i] < |b| && a[i] == b[PlaceLast(q, j)[i]]
  {
  }

  lemma PlaceLastPermutes(q: seq<nat>, j: nat)
    requires IsPermutation(q, |q|) && j <= |q|
    ensures IsPermutation(PlaceLast(q, j), |q| + 1)
  {
  }

  lemma {:induction false} MultisetGivesPermutation<T(!new)>(a: seq<T>, b: seq<T>) returns (p: seq<nat>)
    requires multiset(a) == multiset(b)
    ensures Rearranges(p, a, b)
    decreases |a|
  {
    assert |a| == |multiset(a)| == |multiset(b)| == |b|;
    if a == [] { return []; }
    var n := |a| - 1;
    assert a[n] in multiset(b);
    var j: nat :| j < |b| && b[j] == a[n];
    MultisetWithout(a, n);
    MultisetWithout(b, j);
    var c, d := a[..n], Without(b, j);
    assert Without(a, n) == c;
    EqualRest(multiset(c), multiset(d), a[n]);
    var q := MultisetGivesPermutation(c, d);
    assert forall i :: 0 <= i < n ==> a[i] == c[i];
    PlaceLastMatches(q, j, a, b);
    PlaceLastPermutes(q, j);
    hide IsPermutation;
    return PlaceLast(q, j);
  }

  lemma {:induction false} PermutationGivesMultiset<T(!new)>(a: seq<T>, b: seq<T>, p: seq<nat>)
    requires Rearranges(p, a, b)
    ensures multiset(a) == multiset(b)
    decreases |a|
  {
    if a != [] {
      var n := |a| - 1;
      var j := p[n];
      var q := seq(n, i requires 0 <= i < n => if p[i] < j then p[i] else if p[i] > j then (p[i] - 1) as nat else 0);
      assert forall i :: 0 <= i < n ==> p[i] != j;
      MultisetWithout(a, n);
      MultisetWithout(b, j);
      assert Without(a, n) == a[..n];
      PermutationGivesMultiset(a[..n], Without(b, j), q);
    }
  }

  /** Sorted trees agree exactly when some permutation takes one list to the other. */
  lemma SortedIffRearranged(a: seq<Json>, b: seq<Json>)
    ensures Sort(a, TextLe()) == Sort(b, TextLe()) <==> exists p :: Rearranges(p, a, b)
  {
    hide Sort;
    SortedAgree(a, b);
    if multiset(a) == multiset(b) {
      var p := MultisetGivesPermutation(a, b);
    }
    if p :| Rearranges(p, a, b) {
      PermutationGivesMultiset(a, b, p);
    }
  }

  // ----- Scalars print apart -----

  function FromDigits(s: string): int {
    if s == "" then 0 else FromDigits(s[..|s| - 1]) * 10 + (s[|s| - 1] as int - '0' as int)
  }

  lemma {:induction false} DigitsRoundTrip(n: nat)
    ensures FromDigits(DecNat(n)) == n
  {
    if n < 10 {
      assert ['0' + n as char][..0] == "";
    } else {
      DigitsRoundTrip(n / 10);
      assert DecNat(n)[..|DecNat(n)| - 1] == DecNat(n / 10);
    }
  }

  lemma DecimalInjective(i: int, j: int)
    requires Decimal(i) == Decimal(j)
    ensures i == j
  {
    assert i < 0 <==> Decimal(i)[0] == '-';
    assert j < 0 <==> Decimal(j)[0] == '-';
    if i < 0 {
      assert DecNat(-i) == Decimal(i)[1..] == DecNat(-j);
      DigitsRoundTrip(-i);
      DigitsRoundTrip(-j);
    } else {
      DigitsRoundTrip(i);
      DigitsRoundTrip(j);
    }
  }

  lemma {:induction false} HexInjective(a: seq<Byte>, b: seq<Byte>)
    requires Hex(a) == Hex(b)
    ensures a == b
  {
    if a != [] {
      assert Hex(a)[0] == Hex(b)[0] && Hex(a)[1] == Hex(b)[1];
      assert Hex(a)[2..] == Hex(a[1..]) && Hex(b)[2..] == Hex(b[1..]);
      HexInjective(a[1..], b[1..]);
      assert a == [a[0]] + a[1..] && b == [b[0]] + b[1..];
    }
  }

  // ----- Canonical trees agree exactly on equal values -----

  lemma {:induction false} ItemsIff(xs: seq<Value>, ys: seq<Value>)
    requires |xs| == |ys|
    ensures CanonicalItems(xs) == CanonicalItems(ys) <==>
      forall i :: 0 <= i < |xs| ==> Same(xs[i], ys[i])
    decreases xs, 0
  {
    forall i | 0 <= i < |xs|
      ensures CanonicalItems(xs)[i] == CanonicalItems(ys)[i] <==> Same(xs[i], ys[i])
    {
      CanonicalIffSame(xs[i], ys[i]);
    }
  }

  ghost predicate ItemsTell(a: seq<Json>, b: seq<Json>, xs: seq<Value>, ys: seq<Value>) {
    && |a| == |xs| && |b| == |ys|
    && forall i, j :: 0 <= i < |xs| && 0 <= j < |ys| ==> (a[i] == b[j] <==> Same(xs[i], ys[j]))
  }

  lemma RearrangedItems(a: seq<Json>, b: seq<Json>, xs: seq<Value>, ys: seq<Value>)
    requires ItemsTell(a, b, xs, ys)
    ensures (exists p :: Rearranges(p, a, b)) <==> exists p :: SameItems(p, xs, ys)
  {
    hide Same;
    if p :| Rearranges(p, a, b) {
      assert SameItems(p, xs, ys);
    }
    if p :| SameItems(p, xs, ys) {
      assert Rearranges(p, a, b);
    }
  }

  lemma {:induction false} SetsIff(xs: seq<Value>, ys: seq<Value>)
    ensures Sort(CanonicalItems(xs), TextLe()) == Sort(CanonicalItems(ys), TextLe()) <==> exists p :: SameItems(p, xs, ys)
    decreases xs, 0
  {
    hide Sort, Same, Canonical, SameItems, Rearranges, TextLe;
    var a, b := CanonicalItems(xs), CanonicalItems(ys);
    SortedIffRearranged(a, b);
    forall i, j | 0 <= i < |xs| && 0 <= j < |ys|
      ensures a[i] == b[j] <==> Same(xs[i], ys[j])
    {
      CanonicalIffSame(xs[i], ys[j]);
    }
    RearrangedItems(a, b, xs, ys);
  }

  ghost predicate EntriesTell(a: seq<Json>, b: seq<Json>, xs: seq<Entry>, ys: seq<Entry>) {
    && |a| == |xs| && |b| == |ys|
    && forall i, j :: 0 <= i < |xs| && 0 <= j < |ys| ==> (a[i] == b[j] <==> SameEntry(xs[i], ys[j]))
  }

  lemma RearrangedEntries(a: seq<Json>, b: seq<Json>, xs: seq<Entry>, ys: seq<Entry>)
    requires EntriesTell(a, b, xs, ys)
    ensures (exists p :: Rearranges(p, a, b)) <==> exists p :: SameEntries(p, xs, ys)
  {
    hide SameEntry;
    if p :| Rearranges(p, a, b) {
      assert SameEntries(p, xs, ys);
    }
    if p :| SameEntries(p, xs, ys) {
      assert Rearranges(p, a, b);
    }
  }

  lemma {:induction false} EntryIff(e: Entry, f: Entry)
    ensures CanonicalEntry(e) == CanonicalEntry(f) <==> SameEntry(e, f)
    decreases e, 0
  {
    hide Canonical, Same;
    CanonicalIffSame(e.key, f.key);
    CanonicalIffSame(e.item, f.item);
  }

  lemma {:induction false} EntriesIff(xs: seq<Entry>, ys: seq<Entry>)
    ensures Sort(CanonicalEntries(xs), TextLe()) == Sort(CanonicalEntries(ys), TextLe()) <==> exists p :: SameEntries(p, xs, ys)
    decreases xs, 0
  {
    hide Sort, SameEntry, CanonicalEntry, SameEntries, Rearranges, TextLe;
    var a, b := CanonicalEntries(xs), CanonicalEntries(ys);
    SortedIffRearranged(a, b);
    forall i, j | 0 <= i < |xs| && 0 <= j < |ys|
      ensures a[i] == b[j] <==> SameEntry(xs[i], ys[j])
    {
      EntryIff(xs[i], ys[j]);
    }
    RearrangedEntries(a, b, xs, ys);
  }

  lemma TaggedEqual(tag: string, identity: string, xs: seq<Json>, tag2: string, identity2: string, ys: seq<Json>)
    ensures Tagged(tag, identity, xs) == Tagged(tag2, identity2, ys) <==> tag == tag2 && identity == identity2 && xs == ys
  {
    var a, b := Tagged(tag, identity, xs).items, Tagged(tag2, identity2, ys).items;
    assert a == b <==> a[0] == b[0] && a[1] == b[1] && a[2] == b[2];
  }

  /** What separates the value kinds. */
  function Tag(v: Value): string {
    match v
    case None => "none"
    case Bool(_) => "bool"
    case Int(_) => "int"
    case Str(_) => "string"
    case Buffer(buffer, _) => BufferTag(buffer)
    case Complex(_, _) => "complex"
    case Date(_) => "date"
    case Time(_, _) => "time"
    case DateTime(_, _) => "datetime"
    case Path(_, _) => "path"
    case Wrapped(wrapper, _, _) => WrapperTag(wrapper)
    case Sequence(_, _) => "sequence"
    case Unordered(_, _) => "set"
    case Mapping(_, _) => "mapping"
  }

  /** The tags are pairwise distinct, so a tag tells the kind. */
  ghost predicate SameKind(v: Value, w: Value) {
    match v
    case None => w.None?
    case Bool(_) => w.Bool?
    case Int(_) => w.Int?
    case Str(_) => w.Str?
    case Buffer(buffer, _) => w.Buffer? && buffer == w.buffer
    case Complex(_, _) => w.Complex?
    case Date(_) => w.Date?
    case Time(_, _) => w.Time?
    case DateTime(_, _) => w.DateTime?
    case Path(_, _) => w.Path?
    case Wrapped(wrapper, _, _) => w.Wrapped? && wrapper == w.wrapper
    case Sequence(_, _) => w.Sequence?
    case Unordered(_, _) => w.Unordered?
    case Mapping(_, _) => w.Mapping?
  }

  lemma TagShows(v: Value)
    ensures Canonical(v).JList? && |Canonical(v).items| >= 1
    ensures Canonical(v).items[0] == JString(Tag(v))
  {
    hide CanonicalItems, CanonicalEntries, Sort, Hex, Decimal;
  }

  lemma KindTells(v: Value, w: Value)
    requires Canonical(v) == Canonical(w)
    ensures SameKind(v, w)
  {
    hide Canonical;
    TagShows(v);
    TagShows(w);
  }

  ghost predicate IsScalar(v: Value) {
    !v.Wrapped? && !v.Sequence? && !v.Unordered? && !v.Mapping?
  }

  lemma ScalarsIff(v: Value, w: Value)
    requires SameKind(v, w) && IsScalar(v)
    ensures Canonical(v) == Canonical(w) <==> v == w
  {
    hide Decimal, Hex;
    var a, b := Canonical(v).items, Canonical(w).items;
    if a == b {
      match v
      case None =>
      case Int(i) =>
        assert a[1] == b[1];
        DecimalInjective(i, w.i);
      case Buffer(_, bs) =>
        assert a[1] == b[1];
        HexInjective(bs, w.bs);
      case Complex(re, im) =>
        assert a[1] == b[1] && a[2] == b[2];
        HexInjective(re, w.re);
        HexInjective(im, w.im);
      case Time(_, _) => assert a[1] == b[1] && a[2] == b[2];
      case DateTime(_, _) => assert a[1] == b[1] && a[2] == b[2];
      case Path(_, _) => assert a[1] == b[1] && a[2] == b[2];
      case Bool(_) => assert a[1] == b[1];
      case Str(_) => assert a[1] == b[1];
      case Date(_) => assert a[1] == b[1];
    }
  }

  lemma {:induction false} CanonicalIffSame(v: Value, w: Value)
    ensures Canonical(v) == Canonical(w) <==> Same(v, w)
    decreases v, 1
  {
    if Canonical(v) == Canonical(w) {
      KindTells(v, w);
    }
    if SameKind(v, w) {
      SameKindIff(v, w);
    }
  }

  lemma SameUnordered(v: Value, w: Value)
    requires SameKind(v, w)
    ensures v.Unordered? ==> (Same(v, w) <==> v.name == w.name && exists p :: SameItems(p, v.items, w.items))
    ensures v.Mapping? ==> (Same(v, w) <==> v.name == w.name && exists p :: SameEntries(p, v.entries, w.entries))
  {
    if v.Unordered? {
      if Same(v, w) {
        var p :| IsPermutation(p, |v.items|) && forall i :: 0 <= i < |v.items| ==> Same(v.items[i], w.items[p[i]]);
        assert SameItems(p, v.items, w.items);
      }
    } else if v.Mapping? {
      if Same(v, w) {
        var p :| IsPermutation(p, |v.entries|) && forall i :: 0 <= i < |v.entries| ==>
          Same(v.entries[i].key, w.entries[p[i]].key) && Same(v.entries[i].item, w.entries[p[i]].item);
        assert SameEntries(p, v.entries, w.entries);
      }
      if p :| SameEntries(p, v.entries, w.entries) {
        assert forall i :: 0 <= i < |v.entries| ==> SameEntry(v.entries[i], w.entries[p[i]]);
      }
    }
  }

  lemma {:induction false} SameKindIff(v: Value, w: Value)
    requires SameKind(v, w)
    ensures Canonical(v) == Canonical(w) <==> Same(v, w)
    decreases v, 0
  {
    hide CanonicalItems, CanonicalEntries, Sort, Hex, Decimal, Tagged, TextLe;
    SameUnordered(v, w);
    match v
    case Wrapped(_, _, inner) =>
      CanonicalIffSame(inner, w.inner);
      WrappedEqual(v, w);
    case Sequence(name, xs) =>
      if |xs| == |w.items| { ItemsIff(xs, w.items); }
      TaggedEqual("sequence", name, CanonicalItems(xs), "sequence", w.name, CanonicalItems(w.items));
    case Unordered(name, xs) =>
      SetsIff(xs, w.items);
      TaggedEqual("set", name, Sort(CanonicalItems(xs), TextLe()), "set", w.name, Sort(CanonicalItems(w.items), TextLe()));
    case Mapping(name, es) =>
      EntriesIff(es, w.entries);
      TaggedEqual("mapping", name, Sort(CanonicalEntries(es), TextLe()),
                  "mapping", w.name, Sort(CanonicalEntries(w.entries), TextLe()));
    case _ => ScalarsIff(v, w);
  }

  lemma WrappedEqual(v: Value, w: Value)
    requires v.Wrapped? && w.Wrapped? && v.wrapper == w.wrapper
    ensures Canonical(v) == Canonical(w) <==> v.name == w.name && Canonical(v.inner) == Canonical(w.inner)
  {
    var a, b := Canonical(v).items, Canonical(w).items;
    assert a == b <==> a[1] == b[1] && a[2] == b[2];
  }

  // ----- Length frames -----

  const FINGERPRINT_PREFIX: string := "dbt-ml-canonical-fingerprint"
  const FRAME_LIMIT: int := 0x1_0000_0000_0000_0000

  /** `n.to_bytes(k, "big")`, without the overflow check. */
  function BigEndian(n: nat, k: nat): (r: seq<Byte>)
    ensures |r| == k
  {
    if k == 0 then [] else BigEndian(n / 256, k - 1) + [n % 256]
  }

  function FromBigEndian(b: seq<Byte>): nat {
    if b == [] then 0 else FromBigEndian(b[..|b| - 1]) * 256 + b[|b| - 1]
  }

  function Power256(k: nat): nat { if k == 0 then 1 else 256 * Power256(k - 1) }

  lemma {:induction false} BigEndianRoundTrip(n: nat, k: nat)
    requires n < Power256(k)
    ensures FromBigEndian(BigEndian(n, k)) == n
  {
    if k > 0 {
      BigEndianRoundTrip(n / 256, k - 1);
      assert BigEndian(n, k)[..k - 1] == BigEndian(n / 256, k - 1);
    }
  }

  function Frame(value: seq<Byte>): seq<Byte> { BigEndian(|value|, 8) + value }

  lemma EightBytes()
    ensures Power256(8) == FRAME_LIMIT
  {
    assert Power256(2) == 0x1_0000;
    assert Power256(4) == 0x1_0000_0000;
    assert Power256(6) == 0x1_0000_0000_0000;
  }

  /** Frame and rest can both be read off the concatenation. */
  lemma FrameCancel(a: seq<Byte>, b: seq<Byte>, r: seq<Byte>, q: seq<Byte>)
    requires |a| < FRAME_LIMIT && |b| < FRAME_LIMIT
    requires Frame(a) + r == Frame(b) + q
    ensures a == b && r == q
  {
    EightBytes();
    hide Power256, BigEndian;
    assert Frame(a) + r == BigEndian(|a|, 8) + (a + r);
    assert Frame(b) + q == BigEndian(|b|, 8) + (b + q);
    SplitEqual(BigEndian(|a|, 8), BigEndian(|b|, 8), a + r, b + q);
    BigEndianRoundTrip(|a|, 8);
    BigEndianRoundTrip(|b|, 8);
    SplitEqual(a, b, r, q);
  }

  // ----- The digest input -----

  function CanonicalBytes(v: Value): seq<Byte> { Encode(Print(Canonical(v))) }

  function Stream(v: Value, domain: string, version: int): seq<Byte> {
    Encode(FINGERPRINT_PREFIX) + Frame(Encode(domain)) + Frame(Encode(Decimal(version))) + Frame(CanonicalBytes(v))
  }

  predicate FitsFrames(v: Value, domain: string, version: int) {
    |Encode(domain)| < FRAME_LIMIT && |Encode(Decimal(version))| < FRAME_LIMIT && |CanonicalBytes(v)| < FRAME_LIMIT
  }

  /** The bytes fed to the digest agree exactly when domain, version and value agree. */
  lemma StreamIffSame(v: Value, domain: string, version: int, w: Value, domain2: string, version2: int)
    requires FitsFrames(v, domain, version) && FitsFrames(w, domain2, version2)
    ensures Stream(v, domain, version) == Stream(w, domain2, version2)
       <==> domain == domain2 && version == version2 && Same(v, w)
  {
    hide Same, Canonical, Print, Encode, Frame, Decimal;
    CanonicalIffSame(v, w);
    if Stream(v, domain, version) == Stream(w, domain2, version2) {
      var prefix := Encode(FINGERPRINT_PREFIX);
      var a, b, c := Encode(domain), Encode(Decimal(version)), CanonicalBytes(v);
      var x, y, z := Encode(domain2), Encode(Decimal(version2)), CanonicalBytes(w);
      FramesCancel(prefix, a, b, c, x, y, z);
      EncodeInjective(domain, domain2);
      EncodeInjective(Decimal(version), Decimal(version2));
      DecimalInjective(version, version2);
      EncodeInjective(Print(Canonical(v)), Print(Canonical(w)));
      PrintInjective(Canonical(v), Canonical(w));
    }
  }

  lemma FramesCancel(prefix: seq<Byte>, a: seq<Byte>, b: seq<Byte>, c: seq<Byte>, x: seq<Byte>, y: seq<Byte>, z: seq<Byte>)
    requires |a| < FRAME_LIMIT && |b| < FRAME_LIMIT && |c| < FRAME_LIMIT
    requires |x| < FRAME_LIMIT && |y| < FRAME_LIMIT && |z| < FRAME_LIMIT
    requires prefix + Frame(a) + Frame(b) + Frame(c) == prefix + Frame(x) + Frame(y) + Frame(z)
    ensures a == x && b == y && c == z
  {
    hide Frame;
    var r, q := Frame(b) + Frame(c), Frame(y) + Frame(z);
    assert prefix + Frame(a) + Frame(b) + Frame(c) == prefix + (Frame(a) + r);
    assert prefix + Frame(x) + Frame(y) + Frame(z) == prefix + (Frame(x) + q);
    SplitEqual(prefix, prefix, Frame(a) + r, Frame(x) + q);
    FrameCancel(a, x, r, q);
    FrameCancel(b, y, Frame(c), Frame(z));
    assert Frame(c) + [] == Frame(z) + [];
    FrameCancel(c, z, [], []);
  }

  /** `hashlib.blake2b`, of which only the bytes it was fed and its size are modelled. */
  class Digest {
    const size: int
    var fed: seq<Byte>

    constructor (size: int)
      ensures this.size == size && fed == []
    {
      this.size := size;
      fed := [];
    }

    method Update(data: seq<Byte>)
      modifies this
      ensures fed == old(fed) + data
    {
      fed := fed + data;
    }
  }

  datatype Error = EmptyDomain | VersionNotPositive | BadDigestSize | Overflow
  datatype Result<+T> = Ok(value: T) | Err(error: Error)
  datatype Hashed = Hashed(size: int, input: seq<Byte>)

  method UpdateFrame(digest: Digest, value: seq<Byte>) returns (fits: bool)
    modifies digest
    ensures fits <==> |value| < FRAME_LIMIT
    ensures digest.fed == old(digest.fed) + if fits then Frame(value) else []
  {
    if |value| >= FRAME_LIMIT { return false; }
    digest.Update(BigEndian(|value|, 8));
    digest.Update(value);
    assert digest.fed == old(digest.fed) + Frame(value);
    return true;
  }

  /** The order of the checks is that of the source; what is hashed is exactly `Stream`. */
  method CanonicalFingerprint(value: Value, domain: string, version: int, digestSize: int) returns (r: Result<Hashed>)
    ensures r ==
      if domain == "" then Err(EmptyDomain)
      else if version < 1 then Err(VersionNotPositive)
      else if !(1 <= digestSize <= 64) then Err(BadDigestSize)
      else if !FitsFrames(value, domain, version) then Err(Overflow)
      else Ok(Hashed(digestSize, Stream(value, domain, version)))
  {
    hide Frame, Encode, Canonical, Print, Decimal;
    if domain == "" { return Err(EmptyDomain); }
    if version < 1 { return Err(VersionNotPositive); }
    if !(1 <= digestSize <= 64) { return Err(BadDigestSize); }
    var digest := new Digest(digestSize);
    digest.Update(Encode(FINGERPRINT_PREFIX));
    var fits := UpdateFrame(digest, Encode(domain));
    if !fits { return Err(Overflow); }
    fits := UpdateFrame(digest, Encode(Decimal(version)));
    if !fits { return Err(Overflow); }
    fits := UpdateFrame(digest, CanonicalBytes(value));
    if !fits { return Err(Overflow); }
    assert [] + Encode(FINGERPRINT_PREFIX) == Encode(FINGERPRINT_PREFIX);
    return Ok(Hashed(digest.size, digest.fed));
  }
}
