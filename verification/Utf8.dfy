/** UTF-8, as `str.encode("utf-8")` and the strict `bytes.decode("utf-8")`. */
module Utf8 {
  import opened Text
  import opened Sorting

  type Byte = x: int | 0 <= x < 256

  /** The low six bits of `n`, and what is left above them. */
  function Low(n: nat): (r: nat)
    ensures r < 64
  {
    n % 64
  }

  function High(n: nat): nat { n / 64 }

  /** Six bits put below `high`. */
  function Shift(high: int, low: int): int { high * 64 + low }

  lemma HighLow(high: nat, low: nat)
    requires low < 64
    ensures High(Shift(high, low)) == high && Low(Shift(high, low)) == low
  {
  }

  function EncodeChar(c: char): (r: seq<Byte>)
    ensures 1 <= |r| <= 4
  {
    var n := c as int;
    if n < 0x80 then [n]
    else if n < 0x800 then [0xC0 + High(n), 0x80 + Low(n)]
    else if n < 0x10000 then [0xE0 + High(High(n)), 0x80 + Low(High(n)), 0x80 + Low(n)]
    else [0xF0 + High(High(High(n))), 0x80 + Low(High(High(n))), 0x80 + Low(High(n)), 0x80 + Low(n)]
  }

  function Encode(s: string): seq<Byte> {
    if s == "" then [] else EncodeChar(s[0]) + Encode(s[1..])
  }

  predicate Continuation(b: Byte) { 0x80 <= b < 0xC0 }

  /** A code point that may appear in UTF-8: no surrogate, and in range. */
  predicate Scalar(n: int) { 0 <= n < 0xD800 || 0xE000 <= n < 0x110000 }

  /** The first character and how many bytes it took; overlong forms, surrogates and cut-off
      sequences are refused. */
  function DecodeChar(b: seq<Byte>): (r: Option<(char, nat)>)
    requires b != []
    ensures r.Some? ==> 1 <= r.value.1 <= |b|
  {
    if b[0] < 0x80 then Some((b[0] as char, 1))
    else if 0xC0 <= b[0] < 0xE0 && |b| >= 2 && Continuation(b[1]) then
      var n := Shift(b[0] - 0xC0, b[1] - 0x80);
      if 0x80 <= n && Scalar(n) then Some((n as char, 2)) else None
    else if 0xE0 <= b[0] < 0xF0 && |b| >= 3 && Continuation(b[1]) && Continuation(b[2]) then
      var n := Shift(Shift(b[0] - 0xE0, b[1] - 0x80), b[2] - 0x80);
      if 0x800 <= n && Scalar(n) then Some((n as char, 3)) else None
    else if 0xF0 <= b[0] < 0xF8 && |b| >= 4 && Continuation(b[1]) && Continuation(b[2]) && Continuation(b[3]) then
      var n := Shift(Shift(Shift(b[0] - 0xF0, b[1] - 0x80), b[2] - 0x80), b[3] - 0x80);
      if 0x10000 <= n && Scalar(n) then Some((n as char, 4)) else None
    else None
  }

  function Decode(b: seq<Byte>): Option<string> {
    if b == [] then Some("")
    else
      match DecodeChar(b)
      case None => None
      case Some((c, used)) =>
        match Decode(b[used..])
        case None => None
        case Some(rest) => Some([c] + rest)
  }

  lemma DecodeCharOfEncoded(c: char, rest: seq<Byte>)
    ensures DecodeChar(EncodeChar(c) + rest) == Some((c, |EncodeChar(c)|))
  {
    var n := c as int;
    var b := EncodeChar(c) + rest;
    assert forall i :: 0 <= i < |EncodeChar(c)| ==> b[i] == EncodeChar(c)[i];
    assert 0x800 <= n ==> 0x20 <= High(n);
    hide Low;
  }

  /** Decoding gives back what was encoded. */
  lemma {:induction false} RoundTrip(s: string)
    ensures Decode(Encode(s)) == Some(s)
  {
    if s != "" {
      RoundTrip(s[1..]);
      DecodeCharOfEncoded(s[0], Encode(s[1..]));
      assert Encode(s)[|EncodeChar(s[0])|..] == Encode(s[1..]);
      assert s == [s[0]] + s[1..];
    }
  }

  lemma EncodeInjective(s: string, t: string)
    requires Encode(s) == Encode(t)
    ensures s == t
  {
    RoundTrip(s);
    RoundTrip(t);
  }

  lemma DecodeCharStrict(b: seq<Byte>)
    requires b != [] && DecodeChar(b).Some?
    ensures EncodeChar(DecodeChar(b).value.0) == b[..DecodeChar(b).value.1]
  {
    hide Low, High;
    var (c, used) := DecodeChar(b).value;
    if used >= 2 {
      var base := if used == 2 then 0xC0 else if used == 3 then 0xE0 else 0xF0;
      var m := b[0] - base;
      HighLow(m, b[1] - 0x80);
      if used >= 3 {
        HighLow(Shift(m, b[1] - 0x80), b[2] - 0x80);
        if used >= 4 {
          HighLow(Shift(Shift(m, b[1] - 0x80), b[2] - 0x80), b[3] - 0x80);
        }
      }
    }
    assert |EncodeChar(c)| == used;
  }

  lemma DecodeStep(b: seq<Byte>)
    requires b != [] && Decode(b).Some?
    ensures DecodeChar(b).Some?
    ensures var rest := b[DecodeChar(b).value.1..];
      Decode(rest).Some? && Decode(b) == Some([DecodeChar(b).value.0] + Decode(rest).value)
  {
    hide DecodeChar;
  }

  lemma EncodeCons(c: char, rest: string)
    ensures Encode([c] + rest) == EncodeChar(c) + Encode(rest)
  {
    hide EncodeChar;
    assert ([c] + rest)[1..] == rest;
  }

  lemma Halves(b: seq<Byte>, n: nat)
    requires n <= |b|
    ensures b[..n] + b[n..] == b
  {
  }

  /** Whatever decodes is the encoding of its text: no second spelling is accepted. */
  lemma {:induction false} DecodeStrict(b: seq<Byte>)
    requires Decode(b).Some?
    ensures Encode(Decode(b).value) == b
    decreases |b|
  {
    if b != [] {
      hide *;
      DecodeStep(b);
      DecodeCharStrict(b);
      var used := DecodeChar(b).value.1;
      DecodeStrict(b[used..]);
      EncodeCons(DecodeChar(b).value.0, Decode(b[used..]).value);
      Halves(b, used);
    }
  }

  // ----- The encoding, written out, and its order -----

  /** The ranges of RFC 3629, section 3: which lead byte, how many bytes that continue it, and which
      number their bits make up. */
  lemma CharBytes(c: char)
    ensures var n, e := c as int, EncodeChar(c);
      && (|e| == 1 <==> n < 0x80) && (|e| == 2 <==> 0x80 <= n < 0x800)
      && (|e| == 3 <==> 0x800 <= n < 0x10000) && (|e| == 4 <==> 0x10000 <= n)
      && (|e| == 1 ==> e[0] == n)
      && (|e| == 2 ==> 0xC0 <= e[0] < 0xE0 && n == 64 * (e[0] as int - 0xC0) + (e[1] as int - 0x80))
      && (|e| == 3 ==> 0xE0 <= e[0] < 0xF0 && n == 4096 * (e[0] as int - 0xE0) + 64 * (e[1] as int - 0x80) + (e[2] as int - 0x80))
      && (|e| == 4 ==> 0xF0 <= e[0] < 0xF8)
      && (|e| == 4 ==> n == 262144 * (e[0] as int - 0xF0) + 4096 * (e[1] as int - 0x80) + 64 * (e[2] as int - 0x80) + (e[3] as int - 0x80))
      && forall i :: 1 <= i < |e| ==> 0x80 <= e[i] < 0xC0
  {
  }

  /** Byte by byte, a prefix first. */
  predicate BytesLe(a: seq<Byte>, b: seq<Byte>) {
    a == [] || (b != [] && (a[0] < b[0] || (a[0] == b[0] && BytesLe(a[1..], b[1..]))))
  }

  lemma {:induction false} BytesCancel(head: seq<Byte>, a: seq<Byte>, b: seq<Byte>)
    ensures BytesLe(head + a, head + b) <==> BytesLe(a, b)
  {
    if head == [] {
      assert head + a == a && head + b == b;
    } else {
      assert (head + a)[1..] == head[1..] + a && (head + b)[1..] == head[1..] + b;
      BytesCancel(head[1..], a, b);
    }
  }

  /** Where two texts first differ decides, whatever follows. */
  lemma {:induction false} BytesDiffer(a: seq<Byte>, b: seq<Byte>, i: nat)
    requires i < |a| && i < |b| && a[..i] == b[..i] && a[i] != b[i]
    ensures BytesLe(a, b) <==> a[i] < b[i]
  {
    if i > 0 {
      assert a[0] == a[..i][0] == b[..i][0] == b[0];
      assert a[1..][..i - 1] == a[..i][1..] && b[1..][..i - 1] == b[..i][1..];
      BytesDiffer(a[1..], b[1..], i - 1);
    }
  }

  /** The bytes of two characters first differ where the smaller character has the smaller byte. */
  lemma CharsDiffer(c: char, d: char) returns (i: nat)
    requires c != d
    ensures var e, f := EncodeChar(c), EncodeChar(d);
      i < |e| && i < |f| && e[..i] == f[..i] && e[i] != f[i] && (e[i] < f[i] <==> c < d)
  {
    CharBytes(c);
    CharBytes(d);
    var e, f := EncodeChar(c), EncodeChar(d);
    hide EncodeChar;
    if e[0] != f[0] {
      i := 0;
    } else if e[1] != f[1] {
      i := 1;
      assert e[..1] == [e[0]] && f[..1] == [f[0]];
    } else if e[2] != f[2] {
      i := 2;
      assert e[..2] == [e[0], e[1]] && f[..2] == [f[0], f[1]];
    } else {
      i := 3;
      assert e[..3] == [e[0], e[1], e[2]] && f[..3] == [f[0], f[1], f[2]];
    }
  }

  /** The order of the bytes is the order of the code points, so a store that compares bytes and a
      program that compares characters list keys alike. */
  lemma {:induction false} BytesInOrder(s: string, t: string)
    ensures BytesLe(Encode(s), Encode(t)) <==> StrLe(s, t)
  {
    hide EncodeChar;
    if s != "" && t != "" {
      var e, f, x, y := EncodeChar(s[0]), EncodeChar(t[0]), Encode(s[1..]), Encode(t[1..]);
      if s[0] == t[0] {
        BytesCancel(e, x, y);
        BytesInOrder(s[1..], t[1..]);
      } else {
        var i := CharsDiffer(s[0], t[0]);
        assert (e + x)[..i] == e[..i] && (f + y)[..i] == f[..i];
        BytesDiffer(e + x, f + y, i);
      }
    }
  }
}
