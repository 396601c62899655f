/** The URL-safe alphabet of section 5 of RFC 4648. */
module Base64 {
  import opened Text
  import opened Utf8

  function Letter(n: int): (c: char)
    requires 0 <= n < 64
    ensures c != ':' && c != '='
  {
    if n < 26 then 'A' + n as char
    else if n < 52 then 'a' + (n - 26) as char
    else if n < 62 then '0' + (n - 52) as char
    else if n == 62 then '-' else '_'
  }

  /** The value of a letter of the alphabet, -1 for any other character. */
  function Sextet(c: char): (n: int)
    ensures -1 <= n < 64
  {
    if 'A' <= c <= 'Z' then c as int - 'A' as int
    else if 'a' <= c <= 'z' then c as int - 'a' as int + 26
    else if '0' <= c <= '9' then c as int - '0' as int + 52
    else if c == '-' then 62
    else if c == '_' then 63
    else -1
  }

  lemma SextetOfLetter(n: int)
    requires 0 <= n < 64
    ensures Sextet(Letter(n)) == n
  {
  }

  /** The 24 bits of three bytes as four sextets, and back. */
  function S0(a: Byte): (n: int)
    ensures 0 <= n < 64
  {
    a / 4
  }
  function S1(a: Byte, b: Byte): (n: int)
    ensures 0 <= n < 64
  {
    a % 4 * 16 + b / 16
  }
  function S2(b: Byte, c: Byte): (n: int)
    ensures 0 <= n < 64
  {
    b % 16 * 4 + c / 64
  }
  function S3(c: Byte): (n: int)
    ensures 0 <= n < 64
  {
    c % 64
  }

  type Six = n: int | 0 <= n < 64

  function B0(s0: Six, s1: Six): Byte { s0 * 4 + s1 / 16 }
  function B1(s1: Six, s2: Six): Byte { s1 % 16 * 16 + s2 / 4 }
  function B2(s2: Six, s3: Six): Byte { s2 % 4 * 64 + s3 }

  lemma Regroup(a: Byte, b: Byte, c: Byte)
    ensures B0(S0(a), S1(a, b)) == a && B1(S1(a, b), S2(b, c)) == b && B2(S2(b, c), S3(c)) == c
  {
  }

  /** Three bytes become four letters; one or two bytes at the end are padded. */
  function Encode64(b: seq<Byte>): string {
    if |b| == 0 then ""
    else if |b| == 1 then [Letter(S0(b[0])), Letter(S1(b[0], 0)), '=', '=']
    else if |b| == 2 then [Letter(S0(b[0])), Letter(S1(b[0], b[1])), Letter(S2(b[1], 0)), '=']
    else Group(b[0], b[1], b[2]) + Encode64(b[3..])
  }

  function Group(a: Byte, b: Byte, c: Byte): (r: string)
    ensures |r| == 4
  {
    [Letter(S0(a)), Letter(S1(a, b)), Letter(S2(b, c)), Letter(S3(c))]
  }

  /** The strict decoder: whole groups of four, padding only at the very end. */
  function Decode64(s: string): Option<seq<Byte>> {
    if s == "" then Some([])
    else if |s| < 4 || Sextet(s[0]) < 0 || Sextet(s[1]) < 0 then None
    else
      var first := B0(Sextet(s[0]), Sextet(s[1]));
      if s[2] == '=' && s[3] == '=' then
        if |s| == 4 then Some([first]) else None
      else if Sextet(s[2]) < 0 then None
      else
        var second := B1(Sextet(s[1]), Sextet(s[2]));
        if s[3] == '=' then
          if |s| == 4 then Some([first, second]) else None
        else if Sextet(s[3]) < 0 then None
        else
          var third := B2(Sextet(s[2]), Sextet(s[3]));
          match Decode64(s[4..])
          case None => None
          case Some(rest) => Some([first, second, third] + rest)
  }

  lemma DecodeGroup(a: Byte, b: Byte, c: Byte, rest: string)
    requires Decode64(rest).Some?
    ensures Decode64(Group(a, b, c) + rest) == Some([a, b, c] + Decode64(rest).value)
  {
    var s := Group(a, b, c) + rest;
    assert s[0] == Letter(S0(a)) && s[1] == Letter(S1(a, b)) && s[2] == Letter(S2(b, c)) && s[3] == Letter(S3(c));
    assert s[4..] == rest;
    SextetOfLetter(S0(a));
    SextetOfLetter(S1(a, b));
    SextetOfLetter(S2(b, c));
    SextetOfLetter(S3(c));
    Regroup(a, b, c);
    hide Letter, Sextet, S0, S1, S2, S3, B0, B1, B2;
  }

  lemma DecodePadded(x: char, y: char)
    requires Sextet(x) >= 0 && Sextet(y) >= 0
    ensures Decode64([x, y, '=', '=']) == Some([B0(Sextet(x), Sextet(y))])
  {
    hide Sextet, B0, B1, B2;
  }

  lemma DecodeOne(a: Byte)
    ensures Decode64([Letter(S0(a)), Letter(S1(a, 0)), '=', '=']) == Some([a])
  {
    hide *;
    SextetOfLetter(S0(a));
    SextetOfLetter(S1(a, 0));
    DecodePadded(Letter(S0(a)), Letter(S1(a, 0)));
    Regroup(a, 0, 0);
  }

  lemma DecodeTwo(a: Byte, b: Byte)
    ensures Decode64([Letter(S0(a)), Letter(S1(a, b)), Letter(S2(b, 0)), '=']) == Some([a, b])
  {
    SextetOfLetter(S0(a));
    SextetOfLetter(S1(a, b));
    SextetOfLetter(S2(b, 0));
    Regroup(a, b, 0);
    hide Letter, Sextet, S0, S1, S2, S3, B0, B1, B2;
    var s := [Letter(S0(a)), Letter(S1(a, b)), Letter(S2(b, 0)), '='];
    assert s[0] == Letter(S0(a)) && s[1] == Letter(S1(a, b)) && s[2] == Letter(S2(b, 0)) && s[3] == '=';
  }

  lemma {:induction false} Base64RoundTrip(b: seq<Byte>)
    ensures Decode64(Encode64(b)) == Some(b)
  {
    hide Group, Decode64;
    if |b| == 0 {
      EmptyDecodes();
    } else if |b| == 1 {
      DecodeOne(b[0]);
      assert b == [b[0]];
    } else if |b| == 2 {
      DecodeTwo(b[0], b[1]);
      assert b == [b[0], b[1]];
    } else {
      Base64RoundTrip(b[3..]);
      DecodeGroup(b[0], b[1], b[2], Encode64(b[3..]));
      assert b == [b[0], b[1], b[2]] + b[3..];
    }
  }

  lemma EmptyDecodes()
    ensures Decode64("") == Some([])
  {
  }

  /** Four letters for every three bytes begun. */
  lemma {:induction false} EncodedLength(b: seq<Byte>)
    ensures |Encode64(b)| == (|b| + 2) / 3 * 4
  {
    hide Group, Letter;
    if |b| >= 3 {
      EncodedLength(b[3..]);
      assert (|b| + 2) / 3 == (|b[3..]| + 2) / 3 + 1;
    }
  }

  // ----- The alphabet and the bits, written out -----

  /** Upper case, lower case, digits, hyphen and underscore, by their code points. */
  lemma AlphabetIs(n: int)
    requires 0 <= n < 64
    ensures Letter(n) as int == if n < 26 then 65 + n else if n < 52 then 71 + n else if n < 62 then n - 4 else if n == 62 then 45 else 95
  {
  }

  /** Three bytes and their four letters make up the same 24 bits, first byte and letter first. */
  lemma GroupBits(a: Byte, b: Byte, c: Byte)
    ensures 65536 * (a as int) + 256 * (b as int) + c as int
         == 262144 * S0(a) + 4096 * S1(a, b) + 64 * S2(b, c) + S3(c)
    ensures Group(a, b, c) == [Letter(S0(a)), Letter(S1(a, b)), Letter(S2(b, c)), Letter(S3(c))]
  {
  }

  /** What is left after the whole groups is filled with zero bits and padded. */
  lemma PaddedEnds(a: Byte, b: Byte)
    ensures Encode64([]) == ""
    ensures Encode64([a]) == Group(a, 0, 0)[..2] + "=="
    ensures Encode64([a, b]) == Group(a, b, 0)[..3] + "="
  {
  }

  /** Whole groups stand side by side. */
  lemma EncodeGroups(a: Byte, b: Byte, c: Byte, rest: seq<Byte>)
    ensures Encode64([a, b, c] + rest) == Group(a, b, c) + Encode64(rest)
  {
    var all := [a, b, c] + rest;
    assert all[0] == a && all[1] == b && all[2] == c && all[3..] == rest;
  }
}
