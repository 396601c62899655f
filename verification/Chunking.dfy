/** The recursive and the token splitter: how a document becomes chunks, each with its
    offset in the source. */
module Chunking {
  import opened Text
  import opened Arithmetic

  // ----- Separator hierarchy -----

  const RECURSIVE_SEPARATORS: seq<string> := ["\n\n", "\n", ". ", " ", ""]

  /** Every suffix of the hierarchy that the recursion meets still ends in the hard cut. */
  predicate Hierarchy(separators: seq<string>) {
    separators != [] && separators[|separators| - 1] == ""
  }

  /** The first separator that occurs in the text, the empty one counting as always there. */
  function Choose(text: string, separators: seq<string>): (i: nat)
    requires Hierarchy(separators)
    ensures i < |separators|
    ensures separators[i] == "" || Contains(text, separators[i])
    ensures forall j :: 0 <= j < i ==> separators[j] != "" && !Contains(text, separators[j])
    ensures separators[i] != "" ==> Hierarchy(separators[i + 1..])
  {
    if separators[0] == "" || Contains(text, separators[0]) then 0
    else 1 + Choose(text, separators[1..])
  }

  // ----- Recursive splitting -----

  /** `split` consumed the separator; every part but the last gets it back. */
  function Segments(parts: seq<string>, separator: string): (r: seq<string>)
    ensures |r| == |parts|
  {
    if parts == [] then []
    else if |parts| == 1 then parts
    else [parts[0] + separator] + Segments(parts[1..], separator)
  }

  function HardCuts(text: string, size: nat): seq<string>
    requires size > 0
  {
    if text == "" then []
    else if |text| <= size then [text]
    else [text[..size]] + HardCuts(text[size..], size)
  }

  function Pieces(text: string, size: nat, separators: seq<string>): seq<string>
    requires size > 0 && Hierarchy(separators)
    decreases |separators|, 0
  {
    if |text| <= size then
      if text == "" then [] else [text]
    else
      var i := Choose(text, separators);
      if separators[i] == "" then HardCuts(text, size)
      else PiecesOfAll(Segments(Split(text, separators[i]), separators[i]), size, separators[i + 1..])
  }

  function PiecesOfAll(segments: seq<string>, size: nat, separators: seq<string>): seq<string>
    requires size > 0 && Hierarchy(separators)
    decreases |separators|, 1, segments
  {
    if segments == [] then []
    else Pieces(segments[0], size, separators) + PiecesOfAll(segments[1..], size, separators)
  }

  lemma {:induction false} SegmentAt(parts: seq<string>, separator: string, i: nat)
    requires i < |parts|
    ensures Segments(parts, separator)[i] == if i < |parts| - 1 then parts[i] + separator else parts[i]
  {
    if i > 0 {
      SegmentAt(parts[1..], separator, i - 1);
    }
  }

  method Recurse(text: string, chunkSize: nat, separators: seq<string>) returns (pieces: seq<string>)
    requires chunkSize > 0 && Hierarchy(separators)
    ensures pieces == Pieces(text, chunkSize, separators)
    decreases |separators|, 1
  {
    hide HardCuts, PiecesOfAll, Split, Segments, Find;
    if |text| <= chunkSize {
      return if text != "" then [text] else [];
    }
    var i := 0;
    while separators[i] != "" && !Contains(text, separators[i])
      invariant 0 <= i < |separators|
      invariant Choose(text, separators) == i + Choose(text, separators[i..])
      decreases |separators| - i
    {
      assert separators[i..][1..] == separators[i + 1..];
      i := i + 1;
    }
    if separators[i] == "" {
      pieces := HardCut(text, chunkSize);
    } else {
      pieces := RecurseParts(Split(text, separators[i]), separators[i], chunkSize, separators[i + 1..]);
    }
  }

  method HardCut(text: string, chunkSize: nat) returns (pieces: seq<string>)
    requires chunkSize > 0
    ensures pieces == HardCuts(text, chunkSize)
  {
    pieces := [];
    var at := 0;
    assert text[0..] == text;
    while at < |text|
      invariant HardCuts(text, chunkSize) == pieces + HardCuts(text[if at < |text| then at else |text|..], chunkSize)
    {
      var end := if at + chunkSize < |text| then at + chunkSize else |text|;
      ghost var rest := text[at..];
      assert rest[..end - at] == text[at..end];
      assert rest[end - at..] == text[end..];
      assert |rest| <= chunkSize ==> rest == text[at..end] && text[end..] == "";
      pieces := pieces + [text[at..end]];
      at := at + chunkSize;
    }
  }

  lemma PiecesOfAllStep(segments: seq<string>, k: nat, size: nat, separators: seq<string>)
    requires size > 0 && Hierarchy(separators) && k < |segments|
    ensures PiecesOfAll(segments[k..], size, separators)
         == Pieces(segments[k], size, separators) + PiecesOfAll(segments[k + 1..], size, separators)
  {
    hide Pieces;
    assert segments[k..][1..] == segments[k + 1..];
  }

  lemma PiecesOfShort(text: string, size: nat, separators: seq<string>)
    requires size > 0 && Hierarchy(separators) && |text| <= size
    ensures Pieces(text, size, separators) == if text == "" then [] else [text]
  {
  }

  /** The loop over the parts of one split: short segments stay, long ones go to finer separators. */
  method RecurseParts(parts: seq<string>, separator: string, chunkSize: nat, remaining: seq<string>)
    returns (pieces: seq<string>)
    requires chunkSize > 0 && Hierarchy(remaining)
    ensures pieces == PiecesOfAll(Segments(parts, separator), chunkSize, remaining)
    decreases |remaining|, 2
  {
    hide Segments, Pieces, PiecesOfAll, Hierarchy;
    ghost var segments := Segments(parts, separator);
    pieces := [];
    assert segments[0..] == segments;
    for k := 0 to |parts|
      invariant PiecesOfAll(segments, chunkSize, remaining)
             == pieces + PiecesOfAll(segments[k..], chunkSize, remaining)
    {
      var segment := if k < |parts| - 1 then parts[k] + separator else parts[k];
      SegmentAt(parts, separator, k);
      PiecesOfAllStep(segments, k, chunkSize, remaining);
      if |segment| <= chunkSize {
        PiecesOfShort(segment, chunkSize, remaining);
      }
      if segment != "" {
        if |segment| <= chunkSize {
          pieces := pieces + [segment];
        } else {
          var finer := Recurse(segment, chunkSize, remaining);
          pieces := pieces + finer;
        }
      }
    }
    PiecesOfNone(segments[|parts|..], chunkSize, remaining);
  }

  lemma PiecesOfNone(segments: seq<string>, size: nat, separators: seq<string>)
    requires size > 0 && Hierarchy(separators) && segments == []
    ensures PiecesOfAll(segments, size, separators) == []
  {
  }

  /** The splits concatenate back to the document, none is empty and none is too long. */
  predicate Tiles(pieces: seq<string>, text: string, size: nat) {
    && Concat(pieces) == text
    && forall p :: p in pieces ==> 0 < |p| <= size
  }

  lemma {:induction false} SegmentsRejoin(parts: seq<string>, separator: string)
    ensures Concat(Segments(parts, separator)) == Join(parts, separator)
  {
    if |parts| > 1 {
      SegmentsRejoin(parts[1..], separator);
    } else if |parts| == 1 {
      assert Concat(parts) == parts[0] + Concat(parts[1..]);
    }
  }

  lemma {:induction false} HardCutsTile(text: string, size: nat)
    requires size > 0
    ensures Tiles(HardCuts(text, size), text, size)
  {
    if |text| > size {
      HardCutsTile(text[size..], size);
      assert text == text[..size] + text[size..];
    } else if text != "" {
      assert Concat([text]) == text + Concat([]);
    }
  }

  lemma {:induction false} PiecesTile(text: string, size: nat, separators: seq<string>)
    requires size > 0 && Hierarchy(separators)
    ensures Tiles(Pieces(text, size, separators), text, size)
    decreases |separators|, 0
  {
    hide HardCuts, PiecesOfAll, Split, Segments, Find, Choose, Join;
    if |text| <= size {
      if text != "" {
        assert Concat([text]) == text + Concat([]);
      }
    } else {
      var i := Choose(text, separators);
      if separators[i] == "" {
        HardCutsTile(text, size);
      } else {
        var parts := Split(text, separators[i]);
        PiecesOfAllTile(Segments(parts, separators[i]), size, separators[i + 1..]);
        SegmentsRejoin(parts, separators[i]);
        SplitRejoins(text, separators[i]);
      }
    }
  }

  lemma {:induction false} PiecesOfAllTile(segments: seq<string>, size: nat, separators: seq<string>)
    requires size > 0 && Hierarchy(separators)
    ensures Tiles(PiecesOfAll(segments, size, separators), Concat(segments), size)
    decreases |separators|, 1, segments
  {
    hide Pieces;
    if segments != [] {
      PiecesTile(segments[0], size, separators);
      PiecesOfAllTile(segments[1..], size, separators);
      ConcatAppend(Pieces(segments[0], size, separators), PiecesOfAll(segments[1..], size, separators));
    }
  }

  // ----- The carried tail -----

  function Abs(n: int): nat { if n < 0 then -n else n }

  /** Positions just after an occurrence of `separator` that begins in [from, latest). */
  function Candidates(text: string, separator: string, from: nat, latest: int): (r: seq<int>)
    ensures forall p :: p in r ==> from <= p <= |text|
    decreases |text| - from
  {
    match Find(text, separator, from)
    case None => []
    case Some(i) =>
      if i < latest && i < |text| then [i + |separator|] + Candidates(text, separator, i + 1, latest) else []
  }

  /** `min(candidates, key=abs(p - target))`: the first of the closest ones. */
  function Nearest(candidates: seq<int>, target: int): (best: int)
    requires candidates != []
    ensures best in candidates
    ensures forall p :: p in candidates ==> Abs(best - target) <= Abs(p - target)
  {
    if |candidates| == 1 then candidates[0]
    else
      var rest := Nearest(candidates[1..], target);
      assert forall p :: p in candidates ==> p == candidates[0] || p in candidates[1..];
      if Abs(candidates[0] - target) <= Abs(rest - target) then candidates[0] else rest
  }

  function Earliest(text: string, overlap: nat): nat {
    if |text| > 2 * overlap then |text| - 2 * overlap else 0
  }

  function Latest(text: string, overlap: nat): int {
    |text| - LeastKept(overlap)
  }

  /** Where the tail begins, trying the separators in order. */
  function SnapFrom(text: string, overlap: nat, separators: seq<string>): (cut: int)
    requires 0 < overlap < |text|
    ensures 0 <= cut <= |text|
  {
    if separators == [] then |text| - overlap
    else if separators[0] == "" then SnapFrom(text, overlap, separators[1..])
    else
      var candidates := Candidates(text, separators[0], Earliest(text, overlap), Latest(text, overlap));
      if candidates != [] then Nearest(candidates, |text| - overlap)
      else SnapFrom(text, overlap, separators[1..])
  }

  /** `p` is a legal start for the tail: just after `separator`, inside the band. */
  predicate InBand(text: string, overlap: nat, separator: string, p: int) {
    && OccursAt(text, separator, p - |separator|)
    && Earliest(text, overlap) <= p - |separator| < Latest(text, overlap)
  }

  lemma {:induction false} CandidatesInBand(text: string, separator: string, from: nat, latest: int, p: int)
    requires separator != "" && latest <= |text|
    ensures p in Candidates(text, separator, from, latest)
       <==> OccursAt(text, separator, p - |separator|) && from <= p - |separator| < latest
    decreases |text| - from
  {
    hide OccursAt, Find;
    match Find(text, separator, from)
    case None =>
      assert from <= p - |separator| ==> !OccursAt(text, separator, p - |separator|);
    case Some(i) =>
      if i < latest {
        CandidatesInBand(text, separator, i + 1, latest, p);
        assert from <= p - |separator| < i ==> !OccursAt(text, separator, p - |separator|);
      } else {
        assert from <= p - |separator| < i ==> !OccursAt(text, separator, p - |separator|);
      }
  }

  lemma CandidatesMeaning(text: string, overlap: nat, separator: string)
    requires separator != "" && overlap > 0
    ensures var candidates := Candidates(text, separator, Earliest(text, overlap), Latest(text, overlap));
      forall p :: p in candidates <==> InBand(text, overlap, separator, p)
  {
    hide OccursAt, Find, Candidates;
    forall p
      ensures p in Candidates(text, separator, Earliest(text, overlap), Latest(text, overlap))
         <==> InBand(text, overlap, separator, p)
    {
      CandidatesInBand(text, separator, Earliest(text, overlap), Latest(text, overlap), p);
    }
  }

  /** At most as far from the target, and further left when equally far. */
  predicate Closer(p: int, q: int, target: int) {
    Abs(p - target) < Abs(q - target) || (Abs(p - target) == Abs(q - target) && p <= q)
  }

  predicate Ascend(xs: seq<int>) { forall i, j :: 0 <= i < j < |xs| ==> xs[i] < xs[j] }

  lemma {:induction false} CandidatesAscend(text: string, separator: string, from: nat, latest: int)
    ensures Ascend(Candidates(text, separator, from, latest))
    ensures forall p :: p in Candidates(text, separator, from, latest) ==> from + |separator| <= p
    decreases |text| - from
  {
    hide Find, OccursAt;
    match Find(text, separator, from)
    case None =>
    case Some(i) =>
      if i < latest && i < |text| {
        CandidatesAscend(text, separator, i + 1, latest);
        var rest := Candidates(text, separator, i + 1, latest);
        assert forall k :: 0 <= k < |rest| ==> rest[k] in rest;
        assert Candidates(text, separator, from, latest) == [i + |separator|] + rest;
      }
  }

  lemma {:induction false} FirstOfNearest(candidates: seq<int>, target: int)
    requires candidates != [] && Ascend(candidates)
    ensures forall p :: p in candidates ==> Closer(Nearest(candidates, target), p, target)
  {
    if |candidates| > 1 {
      FirstOfNearest(candidates[1..], target);
      assert candidates[0] < Nearest(candidates[1..], target) by {
        var k :| 0 <= k < |candidates[1..]| && candidates[1..][k] == Nearest(candidates[1..], target);
        assert candidates[k + 1] == candidates[1..][k];
      }
      assert forall p :: p in candidates ==> p == candidates[0] || p in candidates[1..];
    }
  }

  lemma NearestIsFirst(text: string, overlap: nat, separator: string)
    ensures var candidates := Candidates(text, separator, Earliest(text, overlap), Latest(text, overlap));
      candidates != [] ==> forall p :: p in candidates ==> Closer(Nearest(candidates, |text| - overlap), p, |text| - overlap)
  {
    hide Candidates, Closer, Ascend;
    CandidatesAscend(text, separator, Earliest(text, overlap), Latest(text, overlap));
    var candidates := Candidates(text, separator, Earliest(text, overlap), Latest(text, overlap));
    if candidates != [] {
      FirstOfNearest(candidates, |text| - overlap);
    }
  }

  lemma {:induction false} SnapFromMeaning(text: string, overlap: nat, separators: seq<string>) returns (chosen: nat)
    requires 0 < overlap < |text|
    ensures chosen <= |separators|
    ensures forall j, p :: 0 <= j < chosen && separators[j] != "" ==> !InBand(text, overlap, separators[j], p)
    ensures var cut := SnapFrom(text, overlap, separators);
      if chosen == |separators| then cut == |text| - overlap
      else
        && separators[chosen] != "" && InBand(text, overlap, separators[chosen], cut)
        && forall p :: InBand(text, overlap, separators[chosen], p) ==> Closer(cut, p, |text| - overlap)
  {
    hide OccursAt, Find, Candidates, Earliest, Latest, InBand, Nearest, Abs, Closer;
    if separators == [] {
      chosen := 0;
    } else {
      var separator := separators[0];
      if separator != "" {
        CandidatesMeaning(text, overlap, separator);
        NearestIsFirst(text, overlap, separator);
        var candidates := Candidates(text, separator, Earliest(text, overlap), Latest(text, overlap));
        if candidates != [] {
          return 0;
        }
      }
      var rest := SnapFromMeaning(text, overlap, separators[1..]);
      chosen := rest + 1;
      forall j, p | 0 <= j < chosen && separators[j] != ""
        ensures !InBand(text, overlap, separators[j], p)
      {
        if j > 0 {
          assert separators[j] == separators[1..][j - 1];
        }
      }
    }
  }

  function Tail(text: string, overlap: nat): string {
    if overlap == 0 || text == "" then ""
    else if overlap >= |text| then text
    else text[SnapFrom(text, overlap, RECURSIVE_SEPARATORS)..]
  }

  /** Half the overlap, and never nothing: how much a snapped tail keeps at least. */
  function LeastKept(overlap: nat): nat { if overlap / 2 > 1 then overlap / 2 else 1 }

  lemma {:induction false} SnapBounds(text: string, overlap: nat, separators: seq<string>)
    requires 0 < overlap < |text|
    ensures var cut := SnapFrom(text, overlap, separators);
      && |text| - cut <= 2 * overlap - 1
      && (cut != |text| - overlap ==>
            exists separator :: separator in separators && separator != "" && InBand(text, overlap, separator, cut)
              && |text| - cut >= LeastKept(overlap) + 1 - |separator|)
  {
    hide SnapFrom, OccursAt;
    var chosen := SnapFromMeaning(text, overlap, separators);
    if chosen < |separators| {
      assert separators[chosen] in separators;
    }
  }

  /** The tail is a suffix of its chunk, and at most `2 * overlap - 1` long. */
  lemma TailBounds(text: string, overlap: nat)
    ensures |Tail(text, overlap)| <= |text|
    ensures Tail(text, overlap) == text[|text| - |Tail(text, overlap)|..]
    ensures overlap == 0 ==> Tail(text, overlap) == ""
    ensures overlap > 0 ==> |Tail(text, overlap)| <= 2 * overlap - 1
  {
    hide SnapFrom, InBand, LeastKept;
    if 0 < overlap < |text| {
      SnapBounds(text, overlap, RECURSIVE_SEPARATORS);
    }
  }

  /** A tail of another length than asked begins just after a separator, and it keeps at least
      half the overlap, less that separator. */
  lemma TailSnapped(text: string, overlap: nat)
    requires 0 < overlap < |text| && |Tail(text, overlap)| != overlap
    ensures exists separator ::
              && separator in RECURSIVE_SEPARATORS && separator != ""
              && InBand(text, overlap, separator, |text| - |Tail(text, overlap)|)
              && |Tail(text, overlap)| >= LeastKept(overlap) + 1 - |separator|
  {
    hide SnapFrom, InBand, LeastKept;
    SnapBounds(text, overlap, RECURSIVE_SEPARATORS);
  }

  /** The `find` loop of one separator. */
  method CandidatesIn(text: string, separator: string, earliest: nat, latest: int) returns (candidates: seq<int>)
    requires separator != "" && earliest <= |text| && latest <= |text|
    ensures candidates == Candidates(text, separator, earliest, latest)
  {
    hide Find, OccursAt;
    candidates := [];
    ghost var from := earliest;
    var position := Find(text, separator, earliest);
    while position.Some? && position.value < latest
      invariant from <= |text| && position == Find(text, separator, from)
      invariant Candidates(text, separator, earliest, latest)
             == candidates + Candidates(text, separator, from, latest)
      decreases |text| - from
    {
      candidates := candidates + [position.value + |separator|];
      from := position.value + 1;
      position := Find(text, separator, position.value + 1);
    }
  }

  method SnapTo(text: string, overlap: nat, separators: seq<string>) returns (cut: int)
    requires 0 < overlap < |text|
    ensures cut == SnapFrom(text, overlap, separators)
  {
    hide Candidates, Nearest;
    var target := |text| - overlap;
    var earliest := if |text| - 2 * overlap > 0 then |text| - 2 * overlap else 0;
    var latest := |text| - if overlap / 2 > 1 then overlap / 2 else 1;
    for k := 0 to |separators|
      invariant SnapFrom(text, overlap, separators) == SnapFrom(text, overlap, separators[k..])
    {
      var separator := separators[k];
      assert separators[k..][1..] == separators[k + 1..];
      if separator != "" {
        var candidates := CandidatesIn(text, separator, earliest, latest);
        if candidates != [] {
          return Nearest(candidates, target);
        }
      }
    }
    return target;
  }

  method OverlapTail(text: string, overlap: nat) returns (tail: string)
    ensures tail == Tail(text, overlap)
  {
    if overlap <= 0 || text == "" { return ""; }
    if overlap >= |text| { return text; }
    var cut := SnapTo(text, overlap, RECURSIVE_SEPARATORS);
    return text[cut..];
  }

  // ----- Packing -----

  datatype Placed = Placed(start: int, text: string)

  /** The packing loop's state: chunks so far, the open chunk and where it begins, and how
      much of the source was consumed. */
  datatype Packing = Packing(chunks: seq<Placed>, current: string, start: int, position: nat)

  function AppendChunk(chunks: seq<Placed>, start: int, text: string): seq<Placed> {
    var stripped := Strip(text);
    if stripped == "" then chunks
    else chunks + [Placed(start + (|text| - |text[Lead(text)..]|), stripped)]
  }

  function Pack(p: Packing, split: string, size: int, overlap: nat): Packing {
    if p.current != "" && |p.current| + |split| > size then
      var tail := Tail(p.current, overlap);
      Packing(AppendChunk(p.chunks, p.start, p.current), tail + split,
              p.position - |tail|, p.position + |split|)
    else
      Packing(p.chunks, p.current + split, if p.current == "" then p.position else p.start,
              p.position + |split|)
  }

  function PackAll(p: Packing, splits: seq<string>, size: int, overlap: nat): Packing
    decreases splits
  {
    if splits == [] then p else PackAll(Pack(p, splits[0], size, overlap), splits[1..], size, overlap)
  }

  const UNPACKED := Packing([], "", 0, 0)

  function Merged(splits: seq<string>, size: int, overlap: nat): seq<Placed> {
    var p := PackAll(UNPACKED, splits, size, overlap);
    AppendChunk(p.chunks, p.start, p.current)
  }

  lemma PackAllStep(p: Packing, splits: seq<string>, k: nat, size: int, overlap: nat)
    requires k < |splits|
    ensures PackAll(p, splits[k..], size, overlap)
         == PackAll(Pack(p, splits[k], size, overlap), splits[k + 1..], size, overlap)
  {
    hide Pack;
    assert splits[k..][1..] == splits[k + 1..];
  }

  method MergeWithOverlap(splits: seq<string>, chunkSize: int, overlap: nat) returns (chunks: seq<Placed>)
    ensures chunks == Merged(splits, chunkSize, overlap)
  {
    hide PackAll, AppendChunk, Tail;
    chunks := [];
    var current, currentStart, position := "", 0, 0;
    assert splits[0..] == splits;
    for k := 0 to |splits|
      invariant 0 <= position
      invariant PackAll(UNPACKED, splits, chunkSize, overlap)
             == PackAll(Packing(chunks, current, currentStart, position), splits[k..], chunkSize, overlap)
    {
      var split := splits[k];
      PackAllStep(Packing(chunks, current, currentStart, position), splits, k, chunkSize, overlap);
      if current != "" && |current| + |split| > chunkSize {
        chunks := AppendChunk(chunks, currentStart, current);
        var tail := OverlapTail(current, overlap);
        currentStart := position - |tail|;
        current := tail + split;
      } else {
        if current == "" {
          currentStart := position;
        }
        current := current + split;
      }
      position := position + |split|;
    }
    PackAllNone(Packing(chunks, current, currentStart, position), splits[|splits|..], chunkSize, overlap);
    chunks := AppendChunk(chunks, currentStart, current);
  }

  lemma PackAllNone(p: Packing, splits: seq<string>, size: int, overlap: nat)
    requires splits == []
    ensures PackAll(p, splits, size, overlap) == p
  {
  }

  /** A chunk's text is the stretch of the source that its offset announces, without white
      space at either end. */
  predicate Exact(chunk: Placed, source: string) {
    && 0 <= chunk.start && chunk.start + |chunk.text| <= |source|
    && source[chunk.start..chunk.start + |chunk.text|] == chunk.text
    && chunk.text != "" && !IsSpace(chunk.text[0]) && !IsSpace(chunk.text[|chunk.text| - 1])
  }

  predicate Covers(chunks: seq<Placed>, i: int) {
    exists c :: c in chunks && c.start <= i < c.start + |c.text|
  }

  /** The longest a chunk can get: a full split after the longest carried tail. */
  function MostCharacters(size: nat, overlap: nat): nat {
    if overlap == 0 then size else size + 2 * overlap - 1
  }

  /** What holds of finished chunks over the consumed source `done`, up to `limit`. */
  predicate Sound(chunks: seq<Placed>, done: string, limit: int, size: nat, overlap: nat) {
    && (forall c :: c in chunks ==> Exact(c, done) && |c.text| <= MostCharacters(size, overlap))
    && (forall i :: 0 <= i < limit && i < |done| && !IsSpace(done[i]) ==> Covers(chunks, i))
  }

  predicate Ascending(chunks: seq<Placed>, bound: int) {
    && (forall j, k :: 0 <= j < k < |chunks| ==> chunks[j].start <= chunks[k].start)
    && (forall c :: c in chunks ==> c.start <= bound)
  }

  /** The loop invariant: the open chunk is exactly the source between its start and here. */
  predicate PackInv(p: Packing, done: string, size: nat, overlap: nat) {
    && p.position == |done| && 0 <= p.start <= |done|
    && p.current == done[p.start..]
    && |p.current| <= MostCharacters(size, overlap)
    && Sound(p.chunks, done, p.start, size, overlap)
    && Ascending(p.chunks, p.start + Lead(p.current))
  }

  lemma {:induction false} SoundGrows(chunks: seq<Placed>, done: string, split: string, limit: int, size: nat, overlap: nat)
    requires limit <= |done| && Sound(chunks, done, limit, size, overlap)
    ensures Sound(chunks, done + split, limit, size, overlap)
  {
    forall c | c in chunks
      ensures Exact(c, done + split)
    {
      assert Exact(c, done);
      assert (done + split)[c.start..c.start + |c.text|] == done[c.start..c.start + |c.text|];
    }
  }

  lemma SoundUpTo(chunks: seq<Placed>, done: string, limit: int, lower: int, size: nat, overlap: nat)
    requires lower <= limit && Sound(chunks, done, limit, size, overlap)
    ensures Sound(chunks, done, lower, size, overlap)
  {
    hide Exact, Covers;
  }

  /** Closing the open chunk covers everything consumed so far and keeps starts ascending. */
  lemma CloseChunk(p: Packing, done: string, size: nat, overlap: nat)
    requires PackInv(p, done, size, overlap)
    ensures Sound(AppendChunk(p.chunks, p.start, p.current), done, |done|, size, overlap)
    ensures Ascending(AppendChunk(p.chunks, p.start, p.current), p.start + Lead(p.current))
  {
    hide Lead, Exact, Covers;
    var chunks := AppendChunk(p.chunks, p.start, p.current);
    if Strip(p.current) != "" {
      assert chunks == p.chunks + [Placed(p.start + Lead(p.current), Strip(p.current))];
      ClosedChunkExact(p, done);
    }
    forall i | 0 <= i < |done| && !IsSpace(done[i])
      ensures Covers(chunks, i)
    {
      ClosedChunkCovers(p, done, i);
    }
  }

  lemma ClosedChunkCovers(p: Packing, done: string, i: nat)
    requires 0 <= p.start <= |done| && p.current == done[p.start..]
    requires i < |done| && !IsSpace(done[i])
    requires i < p.start ==> Covers(p.chunks, i)
    ensures Covers(AppendChunk(p.chunks, p.start, p.current), i)
  {
    hide Lead, IsSpace;
    var chunks := AppendChunk(p.chunks, p.start, p.current);
    assert p.chunks <= chunks;
    if i < p.start {
      var c :| c in p.chunks && c.start <= i < c.start + |c.text|;
      assert c in chunks;
    } else {
      assert p.current[i - p.start] == done[i];
      assert Placed(p.start + Lead(p.current), Strip(p.current)) in chunks;
    }
  }

  lemma ClosedChunkExact(p: Packing, done: string)
    requires 0 <= p.start <= |done| && p.current == done[p.start..]
    requires Strip(p.current) != ""
    ensures Exact(Placed(p.start + Lead(p.current), Strip(p.current)), done)
  {
    hide Lead;
    var stripped, lead := Strip(p.current), Lead(p.current);
    assert done[p.start + lead..p.start + lead + |stripped|] == p.current[lead..lead + |stripped|];
  }

  lemma {:induction false} LeadOfPrefix(s: string, t: string)
    ensures Lead(s + t) >= Lead(s)
    ensures Lead(s) < |s| ==> Lead(s + t) == Lead(s)
  {
    var n := Lead(s + t);
    if n < |s| {
      assert s[n] == (s + t)[n];
    }
    if Lead(s) < |s| {
      assert s[Lead(s)] == (s + t)[Lead(s)];
    }
  }

  lemma AscendingLater(chunks: seq<Placed>, bound: int, later: int)
    requires Ascending(chunks, bound) && bound <= later
    ensures Ascending(chunks, later)
  {
  }

  lemma PackFlush(p: Packing, done: string, split: string, size: nat, overlap: nat)
    requires PackInv(p, done, size, overlap) && |split| <= size
    requires p.current != "" && |p.current| + |split| > size
    ensures PackInv(Pack(p, split, size, overlap), done + split, size, overlap)
  {
    hide Tail, Sound, AppendChunk, Ascending, Lead;
    var tail := Tail(p.current, overlap);
    TailBounds(p.current, overlap);
    CloseChunk(p, done, size, overlap);
    var chunks := AppendChunk(p.chunks, p.start, p.current);
    assert Pack(p, split, size, overlap)
        == Packing(chunks, tail + split, |done| - |tail|, |done| + |split|);
    assert |tail + split| <= MostCharacters(size, overlap);
    hide Pack, PackInv, MostCharacters;
    FlushedInv(p, done, tail, split, chunks, size, overlap);
  }

  lemma FlushedInv(p: Packing, done: string, tail: string, split: string, chunks: seq<Placed>, size: nat, overlap: nat)
    requires 0 <= p.start <= |done| && p.current == done[p.start..]
    requires |tail| <= |p.current| && tail == p.current[|p.current| - |tail|..]
    requires tail + split == (done + split)[|done| - |tail|..]
    requires |tail + split| <= MostCharacters(size, overlap)
    requires Sound(chunks, done, |done|, size, overlap)
    requires Ascending(chunks, p.start + Lead(p.current))
    ensures PackInv(Packing(chunks, tail + split, |done| - |tail|, |done| + |split|), done + split, size, overlap)
  {
    hide Sound, Ascending, Lead;
    var start := |done| - |tail|;
    SoundGrows(chunks, done, split, |done|, size, overlap);
    SoundUpTo(chunks, done + split, |done|, start, size, overlap);
    AscendingLater(chunks, p.start + Lead(p.current), start + Lead(tail + split));
  }

  lemma {:induction false} PackGrow(p: Packing, done: string, split: string, size: nat, overlap: nat)
    requires PackInv(p, done, size, overlap)
    requires |p.current| + |split| <= MostCharacters(size, overlap)
    ensures PackInv(Packing(p.chunks, p.current + split, p.start, |done + split|), done + split, size, overlap)
  {
    hide Sound, Ascending, Lead;
    assert p.current + split == (done + split)[p.start..];
    SoundGrows(p.chunks, done, split, p.start, size, overlap);
    LeadOfPrefix(p.current, split);
    AscendingLater(p.chunks, p.start + Lead(p.current), p.start + Lead(p.current + split));
  }

  lemma {:induction false} PackStep(p: Packing, done: string, split: string, size: nat, overlap: nat)
    requires PackInv(p, done, size, overlap) && |split| <= size
    ensures PackInv(Pack(p, split, size, overlap), done + split, size, overlap)
  {
    if p.current != "" && |p.current| + |split| > size {
      PackFlush(p, done, split, size, overlap);
    } else {
      hide Tail, Sound, AppendChunk, Ascending, Lead;
      PackGrow(p, done, split, size, overlap);
    }
  }

  lemma {:induction false} PackAllInv(p: Packing, done: string, splits: seq<string>, size: nat, overlap: nat)
    requires PackInv(p, done, size, overlap)
    requires forall s :: s in splits ==> |s| <= size
    ensures PackInv(PackAll(p, splits, size, overlap), done + Concat(splits), size, overlap)
    decreases splits
  {
    hide Pack, PackInv;
    if splits == [] {
      assert done + Concat(splits) == done;
    } else {
      PackStep(p, done, splits[0], size, overlap);
      PackAllInv(Pack(p, splits[0], size, overlap), done + splits[0], splits[1..], size, overlap);
      assert done + Concat(splits) == done + splits[0] + Concat(splits[1..]);
    }
  }

  // ----- The whole recursive splitter -----

  function PlacedChunks(text: string, size: nat, overlap: nat): seq<Placed>
    requires size > 0
  {
    Merged(Pieces(text, size, RECURSIVE_SEPARATORS), size, overlap)
  }

  method SplitRecursive(text: string, chunkSize: nat, overlap: nat) returns (chunks: seq<Placed>)
    requires chunkSize > 0
    ensures chunks == PlacedChunks(text, chunkSize, overlap)
  {
    var splits := Recurse(text, chunkSize, RECURSIVE_SEPARATORS);
    chunks := MergeWithOverlap(splits, chunkSize, overlap);
  }

  /** Every chunk is an exact slice of the source at its offset, every printed character of the
      source is in some chunk, no chunk is longer than the bound, and starts never go back. */
  lemma ChunksFaithful(text: string, size: nat, overlap: nat)
    requires size > 0
    ensures var chunks := PlacedChunks(text, size, overlap);
      && (forall c :: c in chunks ==> Exact(c, text) && |c.text| <= MostCharacters(size, overlap))
      && (forall i :: 0 <= i < |text| && !IsSpace(text[i]) ==> Covers(chunks, i))
      && (forall j, k :: 0 <= j < k < |chunks| ==> chunks[j].start <= chunks[k].start)
  {
    hide Tail, Pieces, Exact, Covers;
    var splits := Pieces(text, size, RECURSIVE_SEPARATORS);
    PiecesTile(text, size, RECURSIVE_SEPARATORS);
    PackedFaithful(splits, text, size, overlap);
  }

  lemma PackedFaithful(splits: seq<string>, text: string, size: nat, overlap: nat)
    requires Tiles(splits, text, size)
    ensures Sound(Merged(splits, size, overlap), text, |text|, size, overlap)
    ensures exists bound :: Ascending(Merged(splits, size, overlap), bound)
  {
    hide Pack, Sound, Ascending, AppendChunk;
    EmptyPacking(size, overlap);
    assert "" + Concat(splits) == text;
    PackAllInv(UNPACKED, "", splits, size, overlap);
    CloseChunk(PackAll(UNPACKED, splits, size, overlap), text, size, overlap);
  }

  lemma EmptyPacking(size: nat, overlap: nat)
    ensures PackInv(UNPACKED, "", size, overlap)
  {
  }

  // ----- Does a chunk stay within the size? -----

  function Run(n: nat): string { seq(n, _ => 'a') }

  lemma NoSeparatorInRun(n: nat, separator: string)
    requires separator in RECURSIVE_SEPARATORS && separator != ""
    ensures forall i :: !OccursAt(Run(n), separator, i)
  {
    assert separator[0] != 'a';
    forall i
      ensures !OccursAt(Run(n), separator, i)
    {
      if 0 <= i && i + |separator| <= n {
        assert Run(n)[i..i + |separator|][0] == 'a';
      }
    }
  }

  lemma StripOfRun(s: string)
    requires forall i :: 0 <= i < |s| ==> !IsSpace(s[i])
    ensures Strip(s) == s && Lead(s) == 0
  {
    if s != "" {
      assert !IsSpace(s[0]) && !IsSpace(s[|s| - 1]);
    }
  }

  /** A long word is cut hard at `size`, and the plain slice carried over pushes the second
      chunk past it. */
  lemma OverlapOverruns(size: nat, overlap: nat)
    requires 0 < overlap < size
    ensures Placed(size - overlap, Run(size + overlap)) in PlacedChunks(Run(2 * size), size, overlap)
  {
    hide Tail, Strip, Lead, Pieces, OccursAt;
    var word := Run(size);
    TailOfRun(size, overlap);
    RunSplits(size);
    var first, second := Packing([], word, 0, size), Packing([], Run(size + overlap), size - overlap, 2 * size);
    assert Pack(UNPACKED, word, size, overlap) == first by {
      assert "" + word == word;
    }
    var flushed := Pack(first, word, size, overlap);
    assert Run(overlap) + word == second.current;
    assert flushed.current == second.current && flushed.start == second.start;
    assert PackAll(first, [word], size, overlap) == PackAll(flushed, [], size, overlap);
    assert PackAll(UNPACKED, [word, word], size, overlap) == PackAll(first, [word], size, overlap);
    StripOfRun(second.current);
    assert second.current[0..] == second.current;
  }

  lemma TailOfRun(size: nat, overlap: nat)
    requires 0 < overlap < size
    ensures Tail(Run(size), overlap) == Run(overlap)
  {
    hide Tail, OccursAt;
    TailBounds(Run(size), overlap);
    forall separator | separator in RECURSIVE_SEPARATORS && separator != ""
      ensures forall i :: !OccursAt(Run(size), separator, i)
    {
      NoSeparatorInRun(size, separator);
    }
    if |Tail(Run(size), overlap)| != overlap {
      TailSnapped(Run(size), overlap);
    }
  }

  lemma RunSplits(size: nat)
    requires 0 < size
    ensures Pieces(Run(2 * size), size, RECURSIVE_SEPARATORS) == [Run(size), Run(size)]
  {
    var text := Run(2 * size);
    var i := Choose(text, RECURSIVE_SEPARATORS);
    if RECURSIVE_SEPARATORS[i] != "" {
      NoSeparatorInRun(2 * size, RECURSIVE_SEPARATORS[i]);
      assert false;
    }
    assert text[..size] == Run(size) && text[size..] == Run(size);
    assert HardCuts(text, size) == [Run(size)] + HardCuts(Run(size), size);
  }

  // ----- The longest chunk -----

  /** Two separators, a word that just fits into the carried tail, and a word of the full size. */
  function Tight(size: nat, overlap: nat): string
    requires overlap > 0
  {
    "\n" + Spaced(size, overlap)
  }

  function Spaced(size: nat, overlap: nat): string
    requires overlap > 0
  {
    " " + Carried(overlap) + Run(size)
  }

  function Carried(overlap: nat): string
    requires overlap > 0
  {
    Run(2 * overlap - 2) + " "
  }

  /** One character that differs rules an occurrence out. */
  lemma NotAt(t: string, separator: string, k: int, j: nat)
    requires j < |separator| && (0 <= k && k + |separator| <= |t| ==> t[k + j] != separator[j])
    ensures !OccursAt(t, separator, k)
  {
    if 0 <= k && k + |separator| <= |t| {
      assert t[k..k + |separator|][j] == t[k + j];
    }
  }

  lemma OneCharacter(t: string, c: char, k: int)
    ensures OccursAt(t, [c], k) <==> 0 <= k < |t| && t[k] == c
  {
    if 0 <= k < |t| {
      assert t[k..k + 1] == [t[k]];
    }
  }

  lemma FindIs(t: string, separator: string, i: nat)
    requires OccursAt(t, separator, i) && forall j :: 0 <= j < i ==> !OccursAt(t, separator, j)
    ensures Find(t, separator, 0) == Some(i)
  {
    hide OccursAt, Find;
  }

  lemma SplitOnce(t: string, separator: string, i: nat)
    requires separator != "" && OccursAt(t, separator, i) && forall j :: 0 <= j < i ==> !OccursAt(t, separator, j)
    ensures Contains(t, separator) && i + |separator| <= |t|
    ensures Split(t, separator) == [t[..i]] + Split(t[i + |separator|..], separator)
  {
    hide OccursAt, Find;
    FindIs(t, separator, i);
    SplitAtFind(t, separator);
  }

  lemma SplitAtFind(t: string, separator: string)
    requires separator != "" && Contains(t, separator)
    ensures var i := Find(t, separator, 0).value;
      i + |separator| <= |t| && Split(t, separator) == [t[..i]] + Split(t[i + |separator|..], separator)
  {
    hide Find;
  }

  lemma ChooseIs(t: string, separators: seq<string>, i: nat)
    requires Hierarchy(separators) && i < |separators| && Contains(t, separators[i])
    requires forall j, k :: 0 <= j < i ==> separators[j] != "" && !OccursAt(t, separators[j], k)
    ensures Choose(t, separators) == i
  {
    hide OccursAt;
    forall j | 0 <= j < i
      ensures !Contains(t, separators[j])
    {
      assert Find(t, separators[j], 0).None?;
    }
  }

  lemma TightSplits(size: nat, overlap: nat)
    requires 1 < overlap < size
    ensures Pieces(Tight(size, overlap), size, RECURSIVE_SEPARATORS)
         == ["\n"] + Pieces(Spaced(size, overlap), size, [". ", " ", ""])
  {
    hide Pieces, Find, Contains;
    var t, rest := Tight(size, overlap), Spaced(size, overlap);
    assert t[1..] == rest;
    forall k ensures !OccursAt(t, "\n\n", k) { NotAt(t, "\n\n", k, 1); }
    forall k ensures !OccursAt(rest, "\n", k) { OneCharacter(rest, '\n', k); }
    OneCharacter(t, '\n', 0);
    hide OccursAt;
    SplitOnce(t, "\n", 0);
    NoSplit(rest, "\n");
    ChooseIs(t, RECURSIVE_SEPARATORS, 1);
    assert Split(t, "\n") == ["", rest] by { assert t[..0] == ""; }
    SegmentsOfTwo("", rest, "\n");
    assert "" + "\n" == "\n";
    PiecesUnfold(t, size, RECURSIVE_SEPARATORS);
    assert RECURSIVE_SEPARATORS[2..] == [". ", " ", ""];
    TwoPieces("\n", rest, size, [". ", " ", ""]);
    PiecesOfShort("\n", size, [". ", " ", ""]);
  }

  lemma NoSplit(t: string, separator: string)
    requires separator != "" && forall k :: !OccursAt(t, separator, k)
    ensures Split(t, separator) == [t]
  {
    hide OccursAt;
  }

  lemma PiecesUnfold(t: string, size: nat, separators: seq<string>)
    requires size > 0 && Hierarchy(separators) && |t| > size && separators[Choose(t, separators)] != ""
    ensures var i := Choose(t, separators);
      Pieces(t, size, separators) == PiecesOfAll(Segments(Split(t, separators[i]), separators[i]), size, separators[i + 1..])
  {
    hide PiecesOfAll, Segments, Split;
  }

  lemma TwoPieces(a: string, b: string, size: nat, separators: seq<string>)
    requires size > 0 && Hierarchy(separators)
    ensures PiecesOfAll([a, b], size, separators) == Pieces(a, size, separators) + Pieces(b, size, separators)
  {
    hide Pieces;
    assert [a, b][1..] == [b];
    assert PiecesOfAll([b], size, separators) == Pieces(b, size, separators) + PiecesOfAll([], size, separators) by {
      assert [b][1..] == [];
    }
  }

  lemma ThreePieces(a: string, b: string, c: string, size: nat, separators: seq<string>)
    requires size > 0 && Hierarchy(separators)
    ensures PiecesOfAll([a, b, c], size, separators)
         == Pieces(a, size, separators) + Pieces(b, size, separators) + Pieces(c, size, separators)
  {
    hide Pieces;
    assert [a, b, c][1..] == [b, c];
    TwoPieces(b, c, size, separators);
  }

  lemma SpacedSplits(size: nat, overlap: nat)
    requires 1 < overlap < size
    ensures Pieces(Spaced(size, overlap), size, [". ", " ", ""])
         == [" "] + Pieces(Carried(overlap), size, [""]) + [Run(size)]
  {
    hide Pieces, Find, Contains;
    var t, word := Spaced(size, overlap), Run(2 * overlap - 2);
    var rest := word + " " + Run(size);
    assert t == " " + rest;
    assert t[1..] == rest && rest[..|word|] == word && rest[|word| + 1..] == Run(size);
    forall k ensures !OccursAt(t, ". ", k) { NotAt(t, ". ", k, 0); }
    OneCharacter(t, ' ', 0);
    forall k ensures OccursAt(rest, " ", k) <==> k == |word| { OneCharacter(rest, ' ', k); }
    forall k ensures !OccursAt(Run(size), " ", k) { OneCharacter(Run(size), ' ', k); }
    hide OccursAt;
    SplitOnce(t, " ", 0);
    SplitOnce(rest, " ", |word|);
    NoSplit(Run(size), " ");
    ChooseIs(t, [". ", " ", ""], 1);
    assert Split(t, " ") == ["", word, Run(size)] by { assert t[..0] == ""; }
    SegmentsOfThree("", word, Run(size), " ");
    assert "" + " " == " ";
    PiecesUnfold(t, size, [". ", " ", ""]);
    assert [". ", " ", ""][2..] == [""];
    ThreePieces(" ", Carried(overlap), Run(size), size, [""]);
    PiecesOfShort(" ", size, [""]);
    PiecesOfShort(Run(size), size, [""]);
  }

  lemma SegmentsOfTwo(a: string, b: string, separator: string)
    ensures Segments([a, b], separator) == [a + separator, b]
  {
    assert [a, b][1..] == [b];
    assert Segments([b], separator) == [b];
  }

  lemma SegmentsOfThree(a: string, b: string, c: string, separator: string)
    ensures Segments([a, b, c], separator) == [a + separator, b + separator, c]
  {
    assert [a, b, c][1..] == [b, c];
    SegmentsOfTwo(b, c, separator);
  }

  lemma CarriedSplits(size: nat, overlap: nat)
    requires 1 < overlap < size
    ensures Pieces(Carried(overlap), size, [""]) ==
      if 2 * overlap - 1 <= size then [Carried(overlap)] else [Run(size), Carried(overlap)[size..]]
  {
    var t := Carried(overlap);
    if |t| > size {
      assert t[..size] == Run(size);
      assert HardCuts(t[size..], size) == [t[size..]];
    }
  }

  /** The tail that starts after the only occurrence in the band of the first separator with any. */
  lemma TailIs(text: string, overlap: nat, i: nat, cut: int)
    requires 0 < overlap < |text| && i < |RECURSIVE_SEPARATORS| && RECURSIVE_SEPARATORS[i] != ""
    requires InBand(text, overlap, RECURSIVE_SEPARATORS[i], cut)
    requires forall p :: InBand(text, overlap, RECURSIVE_SEPARATORS[i], p) ==> p == cut
    requires forall j, p :: 0 <= j < i ==> !InBand(text, overlap, RECURSIVE_SEPARATORS[j], p)
    ensures 0 <= cut <= |text| && Tail(text, overlap) == text[cut..]
  {
    hide SnapFrom, InBand;
    var chosen := SnapFromMeaning(text, overlap, RECURSIVE_SEPARATORS);
    assert chosen == i;
  }

  /** The tail of the last chunk but one is the longest there is. */
  lemma CarriedIsTail(prefix: string, overlap: nat)
    requires overlap > 1 && prefix in ["", "\n"]
    ensures Tail(prefix + " " + Carried(overlap), overlap) == Carried(overlap)
  {
    var text, n := prefix + " " + Carried(overlap), |prefix|;
    assert text[n + 1..] == Carried(overlap);
    assert forall k :: n <= k < |text| ==> text[k] == if k == n || k == |text| - 1 then ' ' else 'a';
    forall k | n <= k
      ensures !OccursAt(text, "\n\n", k) && !OccursAt(text, "\n", k) && !OccursAt(text, ". ", k)
    {
      NotAt(text, "\n\n", k, 0);
      NotAt(text, "\n", k, 0);
      NotAt(text, ". ", k, 0);
    }
    forall k ensures n <= k < |text| - 1 ==> (OccursAt(text, " ", k) <==> k == n) { OneCharacter(text, ' ', k); }
    hide OccursAt;
    TailIs(text, overlap, 3, n + 1);
  }

  /** A word longer than the size is cut, and its first part carried over whole. */
  lemma WordIsTail(size: nat, overlap: nat)
    requires 1 < overlap < size && 2 * overlap - 1 > size
    ensures Tail("\n " + Run(size), overlap) == " " + Run(size)
  {
    var text := "\n " + Run(size);
    forall k ensures !OccursAt(text, "\n\n", k) { NotAt(text, "\n\n", k, 1); }
    forall k ensures OccursAt(text, "\n", k) <==> k == 0 { OneCharacter(text, '\n', k); }
    hide OccursAt;
    TailIs(text, overlap, 1, 1);
    assert text[1..] == " " + Run(size);
  }

  lemma PackFirst(p: Packing, split: string, rest: seq<string>, size: int, overlap: nat)
    ensures PackAll(p, [split] + rest, size, overlap) == PackAll(Pack(p, split, size, overlap), rest, size, overlap)
  {
    hide Pack;
    assert ([split] + rest)[1..] == rest;
  }

  /** The separators stay open until the carried word follows them, one before or both. */
  lemma PackedToCarried(size: nat, overlap: nat, rest: seq<string>) returns (p: Packing, prefix: string)
    requires 1 < overlap < size
    ensures prefix in ["", "\n"] && p.current == prefix + " " + Carried(overlap)
    ensures PackAll(UNPACKED, ["\n"] + ([" "] + (Pieces(Carried(overlap), size, [""]) + rest)), size, overlap)
         == PackAll(p, rest, size, overlap)
  {
    hide Tail, Pieces, Carried, PackAll, AppendChunk;
    var carried := Carried(overlap);
    CarriedSplits(size, overlap);
    PackFirst(UNPACKED, "\n", [" "] + (Pieces(carried, size, [""]) + rest), size, overlap);
    p := Pack(UNPACKED, "\n", size, overlap);
    assert p.current == "\n";
    PackFirst(p, " ", Pieces(carried, size, [""]) + rest, size, overlap);
    p := Pack(p, " ", size, overlap);
    assert p.current == "\n ";
    WholeIsTail("\n ", overlap);
    if 2 * overlap - 1 <= size {
      PackFirst(p, carried, rest, size, overlap);
      p, prefix := Pack(p, carried, size, overlap), "\n";
      assert "\n" + " " == "\n ";
    } else {
      CarriedIsCut(size, overlap);
      var more := carried[size..];
      assert Pieces(carried, size, [""]) + rest == [Run(size)] + ([more] + rest);
      PackFirst(p, Run(size), [more] + rest, size, overlap);
      p := Pack(p, Run(size), size, overlap);
      assert p.current == "\n " + Run(size);
      PackFirst(p, more, rest, size, overlap);
      WordIsTail(size, overlap);
      p, prefix := Pack(p, more, size, overlap), "";
      assert p.current == " " + Run(size) + more == " " + (Run(size) + more);
      assert "" + " " == " ";
    }
  }

  lemma WholeIsTail(text: string, overlap: nat)
    requires 0 < |text| <= overlap
    ensures Tail(text, overlap) == text
  {
  }

  lemma CarriedIsCut(size: nat, overlap: nat)
    requires 1 < overlap < size < 2 * overlap - 1
    ensures |Carried(overlap)| > size && Run(size) + Carried(overlap)[size..] == Carried(overlap)
    ensures Carried(overlap)[size..] != ""
  {
    assert Carried(overlap)[..size] == Run(size);
  }

  /** The bound on the length of a chunk is exact, for every size and every overlap below it. */
  lemma LongestChunk(size: nat, overlap: nat)
    requires overlap < size
    ensures exists text, c :: c in PlacedChunks(text, size, overlap) && |c.text| == MostCharacters(size, overlap)
  {
    hide PlacedChunks, Run;
    if overlap == 0 {
      WholeChunk(size);
    } else if overlap == 1 {
      OverlapOverruns(size, overlap);
      assert |Run(size + overlap)| == MostCharacters(size, overlap) by { RunLength(size + overlap); }
    } else {
      TightChunk(size, overlap);
    }
  }

  lemma RunLength(n: nat)
    ensures |Run(n)| == n
  {
  }

  lemma WholeChunk(size: nat)
    requires 0 < size
    ensures Placed(0, Run(size)) in PlacedChunks(Run(size), size, 0)
    ensures |Run(size)| == MostCharacters(size, 0)
  {
    hide Strip, Lead, Pieces;
    var word := Run(size);
    PiecesOfShort(word, size, RECURSIVE_SEPARATORS);
    var p := Pack(UNPACKED, word, size, 0);
    assert PackAll(UNPACKED, [word], size, 0) == PackAll(p, [], size, 0) == p;
    assert p.current == word;
    StripOfRun(word);
    assert word[0..] == word;
  }

  lemma TightChunk(size: nat, overlap: nat)
    requires 1 < overlap < size
    ensures exists c :: c in PlacedChunks(Tight(size, overlap), size, overlap) && |c.text| == MostCharacters(size, overlap)
  {
    hide Tail, Pieces, Pack, Strip, Lead;
    var carried, word := Carried(overlap), Run(size);
    TightSplits(size, overlap);
    SpacedSplits(size, overlap);
    var splits := Pieces(carried, size, [""]);
    assert ["\n"] + ([" "] + splits + [word]) == ["\n"] + ([" "] + (splits + [word]));
    var p, prefix := PackedToCarried(size, overlap, [word]);
    CarriedIsTail(prefix, overlap);
    var last := LastPack(p, prefix + " ", carried, size, overlap);
    assert PackAll(p, [word], size, overlap) == PackAll(last, [], size, overlap) == last;
    var text := carried + word;
    assert !IsSpace(text[0]) && !IsSpace(text[|text| - 1]);
    StripNothing(text);
    var c := AppendChunk(last.chunks, last.start, last.current)[|last.chunks|];
    assert c.text == text;
    assert c in PlacedChunks(Tight(size, overlap), size, overlap);
  }

  lemma LastPack(p: Packing, before: string, carried: string, size: nat, overlap: nat) returns (last: Packing)
    requires size > 0 && before != "" && p.current == before + carried && Tail(p.current, overlap) == carried
    ensures last == Pack(p, Run(size), size, overlap) && last.current == carried + Run(size)
  {
    hide Tail, AppendChunk;
    last := Pack(p, Run(size), size, overlap);
  }

  lemma StripNothing(s: string)
    requires s != "" && !IsSpace(s[0]) && !IsSpace(s[|s| - 1])
    ensures Strip(s) == s
  {
  }

  /** The documentation of `chunk.in_text_metadata` promises chunks that never exceed the size.
      That promise holds for every document exactly when nothing is carried over. */
  lemma WithinSizeIffNoOverlap(size: nat, overlap: nat)
    requires 0 < size && overlap < size
    ensures (forall text, c :: c in PlacedChunks(text, size, overlap) ==> |c.text| <= size) <==> overlap == 0
  {
    hide PlacedChunks;
    if overlap == 0 {
      forall text, c | c in PlacedChunks(text, size, overlap)
        ensures |c.text| <= size
      {
        ChunksFaithful(text, size, overlap);
      }
    } else {
      OverlapOverruns(size, overlap);
      assert |Run(size + overlap)| > size;
    }
  }

  // ----- Headings -----

  datatype Heading = Heading(offset: int, name: string)

  /** Headings as detection returns them, in document order. */
  predicate InOrder(headings: seq<Heading>) {
    forall i, j :: 0 <= i < j < |headings| ==> headings[i].offset <= headings[j].offset
  }

  /** `bisect_right` over the offsets, on the range still open. */
  function BisectRight(headings: seq<Heading>, x: int, lo: nat, hi: nat): (r: nat)
    requires lo <= hi <= |headings|
    ensures lo <= r <= hi
    ensures InOrder(headings) ==> forall i :: lo <= i < r ==> headings[i].offset <= x
    ensures InOrder(headings) ==> forall i :: r <= i < hi ==> headings[i].offset > x
    decreases hi - lo
  {
    if lo == hi then lo
    else
      var mid := (lo + hi) / 2;
      if x < headings[mid].offset then BisectRight(headings, x, lo, mid)
      else BisectRight(headings, x, mid + 1, hi)
  }

  function SectionIndex(headings: seq<Heading>, start: int): int {
    BisectRight(headings, start, 0, |headings|) - 1
  }

  function SectionAt(headings: seq<Heading>, start: int): Option<string> {
    if headings == [] then None
    else
      var index := SectionIndex(headings, start);
      if index >= 0 then Some(headings[index].name) else None
  }

  /** A chunk's section is the last heading at or before its start, and there is none exactly
      when every heading comes later. */
  lemma SectionIsLastHeading(headings: seq<Heading>, start: int)
    requires InOrder(headings)
    ensures SectionAt(headings, start).None? <==> forall h :: h in headings ==> start < h.offset
    ensures SectionAt(headings, start).Some? ==>
      exists i :: 0 <= i < |headings| && SectionAt(headings, start) == Some(headings[i].name)
        && headings[i].offset <= start && forall j :: i < j < |headings| ==> start < headings[j].offset
  {
    if headings != [] {
      var index := SectionIndex(headings, start);
      assert index >= 0 ==> headings[index] in headings;
    }
  }

  /** Attribution only moves forward through the document. */
  lemma SectionsMoveForward(text: string, size: nat, overlap: nat, headings: seq<Heading>, j: nat, k: nat)
    requires size > 0 && InOrder(headings) && j < k < |PlacedChunks(text, size, overlap)|
    ensures SectionIndex(headings, PlacedChunks(text, size, overlap)[j].start)
         <= SectionIndex(headings, PlacedChunks(text, size, overlap)[k].start)
  {
    hide PlacedChunks;
    ChunksFaithful(text, size, overlap);
    var a, b := PlacedChunks(text, size, overlap)[j].start, PlacedChunks(text, size, overlap)[k].start;
    assert a <= b;
    var i := SectionIndex(headings, a);
    assert i >= 0 ==> headings[i].offset <= b;
  }

  // ----- Token windows -----

  function Windows<T>(tokens: seq<T>, size: nat, step: nat): seq<seq<T>>
    requires 0 < step <= size
  {
    if tokens == [] then []
    else if |tokens| <= size then [tokens]
    else [tokens[..size]] + Windows(tokens[step..], size, step)
  }

  /** The first window, then every later one without the tokens it shares with its predecessor. */
  function Unwindowed<T>(windows: seq<seq<T>>, overlap: nat): seq<T>
    decreases |windows|
  {
    if windows == [] then []
    else if |windows| == 1 then windows[0]
    else
      var last := windows[|windows| - 1];
      Unwindowed(windows[..|windows| - 1], overlap) + From(last, overlap)
  }

  function CeilDiv(a: int, b: int): int
    requires b > 0
  {
    (a + b - 1) / b
  }

  lemma CeilDivStep(a: int, b: int)
    requires 0 < b && 0 < a
    ensures CeilDiv(a, b) == if a <= b then 1 else CeilDiv(a - b, b) + 1
  {
    if a <= b {
      QuotientUnique(a + b - 1, b, 1);
    } else {
      var q := (a - 1) / b;
      assert b * q <= a - 1 < b * q + b;
      assert b * (q + 1) == b * q + b && b * (q + 2) == b * q + b + b;
      QuotientUnique(a + b - 1, b, q + 1);
    }
  }

  lemma {:induction false} WindowCount<T>(tokens: seq<T>, size: nat, step: nat)
    requires 0 < step <= size
    ensures |Windows(tokens, size, step)|
         == if tokens == [] then 0 else if |tokens| <= size then 1 else CeilDiv(|tokens| - size, step) + 1
    decreases |tokens|
  {
    hide CeilDiv;
    if |tokens| > size {
      WindowCount(tokens[step..], size, step);
      CeilDivStep(|tokens| - size, step);
    }
  }

  /** Window `i` is longer than the overlap and begins with the end of the full window before it. */
  predicate Continues<T(==)>(windows: seq<seq<T>>, i: nat, size: nat, overlap: nat)
    requires 1 <= i < |windows|
  {
    && |windows[i - 1]| == size >= overlap && |windows[i]| > overlap
    && windows[i][..overlap] == windows[i - 1][size - overlap..]
  }

  lemma {:induction false} WindowsShare<T>(tokens: seq<T>, size: nat, overlap: nat)
    requires overlap < size
    ensures var windows := Windows(tokens, size, size - overlap);
      && (tokens != [] ==> windows != [] && windows[0] == if |tokens| <= size then tokens else tokens[..size])
      && (forall w :: w in windows ==> 0 < |w| <= size)
      && forall i | 1 <= i < |windows| :: Continues(windows, i, size, overlap)
    decreases |tokens|
  {
    var step := size - overlap;
    if |tokens| > size {
      var rest := tokens[step..];
      WindowsShare(rest, size, overlap);
      var windows, later := Windows(tokens, size, step), Windows(rest, size, step);
      assert windows == [tokens[..size]] + later;
      forall i | 1 <= i < |windows|
        ensures Continues(windows, i, size, overlap)
      {
        if i == 1 {
          assert later[0][..overlap] == rest[..overlap] == tokens[..size][step..];
        } else {
          assert Continues(later, i - 1, size, overlap);
        }
      }
    }
  }

  lemma {:induction false} UnwindowedAfter<T>(first: seq<T>, later: seq<seq<T>>, overlap: nat)
    requires later != [] && overlap <= |later[0]|
    ensures |Unwindowed(later, overlap)| >= overlap
    ensures Unwindowed([first] + later, overlap) == first + Unwindowed(later, overlap)[overlap..]
    decreases |later|
  {
    hide From;
    var windows := [first] + later;
    var n := |later| - 1;
    assert windows[..|windows| - 1] == [first] + later[..n];
    if n == 0 {
      assert later == [later[0]];
      assert [first] + later[..n] == [first];
      assert Unwindowed([first], overlap) == first;
      FromIsDrop(later[0], overlap);
    } else {
      UnwindowedAfter(first, later[..n], overlap);
      assert windows[n + 1] == later[n];
    }
  }

  lemma FromIsDrop<T>(s: seq<T>, k: nat)
    requires k <= |s|
    ensures From(s, k) == s[k..]
  {
  }

  lemma CutRejoins<T>(tokens: seq<T>, size: nat, overlap: nat)
    requires overlap < size < |tokens|
    ensures tokens[..size] + tokens[size - overlap..][overlap..] == tokens
  {
    assert tokens[size - overlap..][overlap..] == tokens[size..];
  }

  lemma WindowsUnfold<T>(tokens: seq<T>, size: nat, step: nat)
    requires 0 < step <= size < |tokens|
    ensures Windows(tokens, size, step) == [tokens[..size]] + Windows(tokens[step..], size, step)
  {
  }

  /** Dropping from each later window what it shares with the one before gives the tokens back. */
  lemma {:induction false} WindowsReassemble<T>(tokens: seq<T>, size: nat, overlap: nat)
    requires overlap < size
    ensures Unwindowed(Windows(tokens, size, size - overlap), overlap) == tokens
    decreases |tokens|
  {
    hide *;
    var step := size - overlap;
    if |tokens| > size {
      var rest := tokens[step..];
      WindowsReassemble(rest, size, overlap);
      WindowsUnfold(tokens, size, step);
      FirstWindow(rest, size, overlap);
      UnwindowedAfter(tokens[..size], Windows(rest, size, step), overlap);
      CutRejoins(tokens, size, overlap);
    } else {
      OneWindow(tokens, size, step, overlap);
    }
  }

  lemma FirstWindow<T>(tokens: seq<T>, size: nat, overlap: nat)
    requires overlap < size && overlap <= |tokens| && tokens != []
    ensures var windows := Windows(tokens, size, size - overlap);
      windows != [] && overlap <= |windows[0]|
  {
  }

  lemma OneWindow<T>(tokens: seq<T>, size: nat, step: nat, overlap: nat)
    requires 0 < step <= size && |tokens| <= size
    ensures Unwindowed(Windows(tokens, size, step), overlap) == tokens
  {
    if tokens != [] {
      assert Unwindowed([tokens], overlap) == tokens;
    }
  }

  function NonEmpty(pieces: seq<string>): seq<string> {
    if pieces == [] then []
    else (if pieces[0] != "" then [pieces[0]] else []) + NonEmpty(pieces[1..])
  }

  function Decoded<T>(windows: seq<seq<T>>, decode: seq<T> -> string): seq<string> {
    seq(|windows|, i requires 0 <= i < |windows| => Strip(decode(windows[i])))
  }

  lemma DecodedAppend<T>(windows: seq<seq<T>>, window: seq<T>, decode: seq<T> -> string)
    ensures Decoded(windows + [window], decode) == Decoded(windows, decode) + [Strip(decode(window))]
  {
    hide Strip;
  }

  function From<T>(tokens: seq<T>, start: nat): seq<T> {
    if start < |tokens| then tokens[start..] else []
  }

  lemma WindowsStep<T>(tokens: seq<T>, start: nat, end: nat, size: nat, step: nat)
    requires 0 < step <= size && start < |tokens|
    requires end == if start + size < |tokens| then start + size else |tokens|
    ensures Windows(From(tokens, start), size, step) == [tokens[start..end]]
         + if start + size >= |tokens| then [] else Windows(From(tokens, start + step), size, step)
  {
    var rest := From(tokens, start);
    assert rest[..end - start] == tokens[start..end];
    if start + size >= |tokens| {
      assert rest == tokens[start..end];
    } else {
      assert rest[step..] == From(tokens, start + step);
    }
  }

  method SplitTokens<T>(tokens: seq<T>, decode: seq<T> -> string, chunkSize: nat, overlap: nat)
    returns (pieces: seq<string>)
    requires overlap < chunkSize
    ensures pieces == NonEmpty(Decoded(Windows(tokens, chunkSize, chunkSize - overlap), decode))
  {
    hide Strip, Decoded, Windows, From;
    var step := chunkSize - overlap;
    pieces := [];
    ghost var done: seq<seq<T>> := [];
    var start := 0;
    FromEnds(tokens, chunkSize, step, decode);
    while start < |tokens|
      invariant 0 <= start
      invariant Windows(tokens, chunkSize, step) == done + Windows(From(tokens, start), chunkSize, step)
      invariant pieces == Decoded(done, decode)
    {
      var end := if start + chunkSize < |tokens| then start + chunkSize else |tokens|;
      var window := tokens[start..end];
      WindowsStep(tokens, start, end, chunkSize, step);
      DecodedAppend(done, window, decode);
      pieces := pieces + [Strip(decode(window))];
      done := done + [window];
      if start + chunkSize >= |tokens| {
        assert Windows(tokens, chunkSize, step) == done;
        return NonEmpty(pieces);
      }
      start := start + step;
    }
    assert Windows(tokens, chunkSize, step) == done;
    pieces := NonEmpty(pieces);
  }

  lemma FromEnds<T>(tokens: seq<T>, size: nat, step: nat, decode: seq<T> -> string)
    requires 0 < step <= size
    ensures From(tokens, 0) == tokens
    ensures forall start: nat :: start >= |tokens| ==> Windows(From(tokens, start), size, step) == []
    ensures Decoded([], decode) == []
  {
  }

  // ----- Entry point -----

  datatype Strategy = Recursive | Tokens

  datatype ChunkConfig = ChunkConfig(strategy: Strategy, chunkSize: nat, overlap: nat) {
    /** What configuration validation has already established. */
    predicate Valid() { 0 < chunkSize && overlap < chunkSize }
  }

  datatype Chunk = Chunk(index: nat, text: string, section: Option<string>)
  datatype ChunkingError = NoRoomForText | OverlapTooLarge
  datatype Result<+T> = Ok(value: T) | Err(error: ChunkingError)

  method SplitText<T>(text: string, tokens: seq<T>, decode: seq<T> -> string, config: ChunkConfig,
                      headings: seq<Heading>, reserved: nat)
    returns (r: Result<seq<Chunk>>)
    requires config.Valid()
    ensures Strip(text) == "" ==> r == Ok([])
    ensures Strip(text) != "" && config.chunkSize <= reserved ==> r == Err(NoRoomForText)
    ensures Strip(text) != "" && reserved < config.chunkSize <= reserved + config.overlap ==> r == Err(OverlapTooLarge)
    ensures Strip(text) != "" && reserved + config.overlap < config.chunkSize ==>
      var size := config.chunkSize - reserved;
      && r.Ok?
      && (forall i :: 0 <= i < |r.value| ==> r.value[i].index == i)
      && match config.strategy
         case Tokens =>
           var pieces := NonEmpty(Decoded(Windows(tokens, size, size - config.overlap), decode));
           |r.value| == |pieces|
           && forall i :: 0 <= i < |pieces| ==> r.value[i].text == pieces[i] && r.value[i].section == None
         case Recursive =>
           var placed := PlacedChunks(text, size, config.overlap);
           |r.value| == |placed|
           && forall i :: 0 <= i < |placed| ==>
                r.value[i].text == placed[i].text && r.value[i].section == SectionAt(headings, placed[i].start)
  {
    hide Pieces, Windows, Strip, SectionAt, Decoded, NonEmpty, PlacedChunks;
    assert text == "" ==> Strip(text) == "";
    if text == "" || Strip(text) == "" { return Ok([]); }
    var size := config.chunkSize - reserved;
    if size <= 0 { return Err(NoRoomForText); }
    if config.overlap >= size { return Err(OverlapTooLarge); }
    if config.strategy == Tokens {
      var pieces := SplitTokens(tokens, decode, size, config.overlap);
      return Ok(seq(|pieces|, i requires 0 <= i < |pieces| => Chunk(i, pieces[i], None)));
    }
    var placed := SplitRecursive(text, size, config.overlap);
    r := Ok(seq(|placed|, i requires 0 <= i < |placed| =>
                Chunk(i, placed[i].text, SectionAt(headings, placed[i].start))));
  }
}
