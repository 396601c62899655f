/** The string operations of Python that the pipeline relies on: `strip`, `find`,
    `in`, `split` on a separator, and the code-point order of `str`. */
module Text {

  datatype Option<+T> = None | Some(value: T)

  /** `str.isspace` for one character: what `strip` removes and `split()` cuts at. */
  predicate IsSpace(c: char) {
    || '\t' <= c <= '\r' || '\U{1C}' <= c <= ' ' || c == '\U{85}' || c == '\U{A0}'
    || c == '\U{1680}' || '\U{2000}' <= c <= '\U{200A}' || c == '\U{2028}' || c == '\U{2029}'
    || c == '\U{202F}' || c == '\U{205F}' || c == '\U{3000}'
  }

  /** How many characters `lstrip` removes. */
  function Lead(s: string): (n: nat)
    ensures n <= |s|
    ensures forall i :: 0 <= i < n ==> IsSpace(s[i])
    ensures n < |s| ==> !IsSpace(s[n])
  {
    if s == "" || !IsSpace(s[0]) then 0 else 1 + Lead(s[1..])
  }

  /** How many characters `rstrip` removes. */
  function Trail(s: string): (n: nat)
    ensures n <= |s|
    ensures forall i :: |s| - n <= i < |s| ==> IsSpace(s[i])
    ensures n < |s| ==> !IsSpace(s[|s| - n - 1])
  {
    if s == "" || !IsSpace(s[|s| - 1]) then 0 else 1 + Trail(s[..|s| - 1])
  }

  function Strip(s: string): (r: string)
    ensures Lead(s) + |r| <= |s| && r == s[Lead(s)..Lead(s) + |r|]
    ensures forall i :: 0 <= i < |s| && !IsSpace(s[i]) ==> Lead(s) <= i < Lead(s) + |r|
    ensures r == "" <==> Lead(s) == |s|
    ensures r != "" ==> !IsSpace(r[0]) && !IsSpace(r[|r| - 1])
  {
    var t := s[Lead(s)..];
    t[..|t| - Trail(t)]
  }

  predicate OccursAt(t: string, p: string, i: int) {
    0 <= i && i + |p| <= |t| && t[i..i + |p|] == p
  }

  /** `t.find(p, from)`; `None` stands for -1. */
  function Find(t: string, p: string, from: nat): (r: Option<nat>)
    ensures r.Some? ==> from <= r.value && OccursAt(t, p, r.value)
    ensures r.Some? ==> forall j :: from <= j < r.value ==> !OccursAt(t, p, j)
    ensures r.None? ==> forall j :: from <= j ==> !OccursAt(t, p, j)
    decreases |t| - from
  {
    if from + |p| > |t| then None
    else if t[from..from + |p|] == p then Some(from)
    else Find(t, p, from + 1)
  }

  /** `p in t`. */
  predicate Contains(t: string, p: string) {
    Find(t, p, 0).Some?
  }

  /** `t.split(sep)`: cut at the leftmost occurrence, then go on after it. */
  function Split(t: string, sep: string): (parts: seq<string>)
    requires sep != ""
    ensures parts != []
  {
    match Find(t, sep, 0)
    case None => [t]
    case Some(i) => [t[..i]] + Split(t[i + |sep|..], sep)
  }

  function Concat(parts: seq<string>): string {
    if parts == [] then "" else parts[0] + Concat(parts[1..])
  }

  lemma {:induction false} ConcatAppend(xs: seq<string>, ys: seq<string>)
    ensures Concat(xs + ys) == Concat(xs) + Concat(ys)
  {
    if xs == [] {
      assert xs + ys == ys;
    } else {
      assert (xs + ys)[1..] == xs[1..] + ys;
      ConcatAppend(xs[1..], ys);
    }
  }

  /** `sep.join(parts)`. */
  function Join(parts: seq<string>, sep: string): string {
    if parts == [] then ""
    else if |parts| == 1 then parts[0]
    else parts[0] + sep + Join(parts[1..], sep)
  }

  /** `split` loses nothing, and no part still holds the separator. */
  lemma {:induction false} SplitRejoins(t: string, sep: string)
    requires sep != ""
    ensures Join(Split(t, sep), sep) == t
    ensures forall part :: part in Split(t, sep) ==> !Contains(part, sep)
    decreases |t|
  {
    match Find(t, sep, 0)
    case None =>
    case Some(i) =>
      var rest := t[i + |sep|..];
      SplitRejoins(rest, sep);
      assert Split(t, sep)[1..] == Split(rest, sep);
      assert t == t[..i] + sep + rest;
      if Contains(t[..i], sep) {
        var j := Find(t[..i], sep, 0).value;
        assert t[..i][j..j + |sep|] == t[j..j + |sep|];
        assert OccursAt(t, sep, j);
        assert false;
      }
  }

  /** The 29 white-space characters of Unicode as Python knows them. */
  const WHITE_SPACE := "\t\n\U{B}\U{C}\r\U{1C}\U{1D}\U{1E}\U{1F} \U{85}\U{A0}\U{1680}\U{2000}\U{2001}\U{2002}\U{2003}\U{2004}\U{2005}\U{2006}\U{2007}\U{2008}\U{2009}\U{200A}\U{2028}\U{2029}\U{202F}\U{205F}\U{3000}"

  lemma WhiteSpaceIs(c: char)
    ensures IsSpace(c) <==> c in WHITE_SPACE
  {
  }
}
