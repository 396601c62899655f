/** What the recursive splitter does, said of its output: where pieces are cut, and how greedily
    they are packed. */
module ChunkLaws {
  import opened Text
  import opened Chunking

  /** Where piece `k` begins. */
  function Offset(pieces: seq<string>, k: nat): nat
    requires k <= |pieces|
  {
    |Concat(pieces[..k])|
  }

  lemma OffsetStep(pieces: seq<string>, k: nat)
    requires k < |pieces|
    ensures Offset(pieces, k + 1) == Offset(pieces, k) + |pieces[k]|
    ensures Offset(pieces, k + 1) <= |Concat(pieces)|
    ensures Concat(pieces)[Offset(pieces, k)..Offset(pieces, k + 1)] == pieces[k]
  {
    var head, tail := pieces[..k], pieces[k + 1..];
    assert pieces[..k + 1] == head + [pieces[k]];
    ConcatAppend(head, [pieces[k]]);
    assert Concat([pieces[k]]) == pieces[k] by { assert Concat([pieces[k]]) == pieces[k] + Concat([]); }
    assert pieces == pieces[..k + 1] + tail;
    ConcatAppend(pieces[..k + 1], tail);
    assert Concat(pieces) == Concat(head) + pieces[k] + Concat(tail);
  }

  // ----- Packing is greedy -----

  /** A chunk before stripping: pieces `first` to `cut`, after what was carried over. */
  datatype Open = Open(start: int, first: nat, cut: nat, text: string)

  /** Pieces join an open text as long as it stays within the size, and a new one is opened, with
      the carried tail in front, only when the next piece no longer fits. */
  ghost predicate Greedy(opens: seq<Open>, pieces: seq<string>, size: nat, overlap: nat, upto: nat)
    requires upto <= |pieces|
  {
    && (opens == [] <==> upto == 0)
    && (opens != [] ==> opens[0].start == 0 && opens[0].first == 0 && opens[|opens| - 1].cut == upto)
    && (forall j :: 0 <= j < |opens| ==> Slices(opens[j], pieces, upto))
    && (forall j :: 0 <= j < |opens| ==> StaysWithin(opens[j], pieces, size))
    && (forall j :: 0 <= j < |opens| - 1 ==> Follows(opens[j], opens[j + 1], pieces, size, overlap))
  }

  ghost predicate Slices(o: Open, pieces: seq<string>, upto: nat)
    requires upto <= |pieces|
  {
    && o.first < o.cut <= upto && 0 <= o.start <= Offset(pieces, o.first)
    && Offset(pieces, o.cut) <= |Concat(pieces)| && o.start <= Offset(pieces, o.cut)
    && o.text == Concat(pieces)[o.start..Offset(pieces, o.cut)]
  }

  /** Past its first piece an open text never grows beyond the size. */
  ghost predicate StaysWithin(o: Open, pieces: seq<string>, size: nat)
    requires o.cut <= |pieces|
  {
    forall k :: o.first + 1 < k <= o.cut ==> Offset(pieces, k) - o.start <= size
  }

  ghost predicate Follows(o: Open, next: Open, pieces: seq<string>, size: nat, overlap: nat)
    requires o.cut <= |pieces|
  {
    && next.first == o.cut < |pieces| && |o.text| + |pieces[o.cut]| > size
    && next.start == Offset(pieces, o.cut) - |Tail(o.text, overlap)|
  }

  /** The chunks: what stripping leaves of the open texts, where it stands. */
  function Stripped(opens: seq<Open>): seq<Placed> {
    if opens == [] then []
    else
      var last := opens[|opens| - 1];
      Stripped(opens[..|opens| - 1])
      + if Strip(last.text) == "" then [] else [Placed(last.start + Lead(last.text), Strip(last.text))]
  }

  ghost predicate At(p: Packing, opens: seq<Open>, pieces: seq<string>, size: nat, overlap: nat, k: nat)
    requires k <= |pieces|
  {
    && Greedy(opens, pieces, size, overlap, k) && p.position == Offset(pieces, k)
    && if opens == [] then p == UNPACKED
       else
         var last := opens[|opens| - 1];
         p.current == last.text != "" && p.start == last.start && p.chunks == Stripped(opens[..|opens| - 1])
  }

  lemma StrippedSnoc(opens: seq<Open>, o: Open)
    ensures Stripped(opens + [o]) == AppendChunk(Stripped(opens), o.start, o.text)
  {
    hide Strip, Lead;
    assert (opens + [o])[..|opens|] == opens;
    assert |o.text| - |o.text[Lead(o.text)..]| == Lead(o.text);
  }

  lemma FirstPiece(pieces: seq<string>, size: nat, overlap: nat) returns (opens: seq<Open>)
    requires pieces != [] && pieces[0] != ""
    ensures At(Pack(UNPACKED, pieces[0], size, overlap), opens, pieces, size, overlap, 1)
  {
    OffsetStep(pieces, 0);
    assert pieces[..0] == [];
    hide Tail, AppendChunk, Concat, Strip, Lead;
    opens := [Open(0, 0, 1, pieces[0])];
    assert Stripped(opens[..0]) == [];
    assert "" + pieces[0] == pieces[0];
  }

  lemma Grows(p: Packing, opens: seq<Open>, pieces: seq<string>, size: nat, overlap: nat, k: nat) returns (longer: seq<Open>)
    requires 0 < k < |pieces| && At(p, opens, pieces, size, overlap, k) && |p.current| + |pieces[k]| <= size
    ensures At(Pack(p, pieces[k], size, overlap), longer, pieces, size, overlap, k + 1)
  {
    hide Stripped, Lead, Strip, Tail, Concat, AppendChunk;
    OffsetStep(pieces, k);
    var n := |opens| - 1;
    var last := opens[n];
    var more := last.(cut := k + 1, text := last.text + pieces[k]);
    longer := opens[n := more];
    assert longer[..n] == opens[..n];
    assert Slices(last, pieces, k);
    assert StaysWithin(last, pieces, size);
    assert Slices(more, pieces, k + 1);
    assert StaysWithin(more, pieces, size);
    forall j | 0 <= j < n
      ensures Slices(longer[j], pieces, k + 1) && StaysWithin(longer[j], pieces, size)
      ensures Follows(longer[j], longer[j + 1], pieces, size, overlap)
    {
      assert Slices(opens[j], pieces, k) && StaysWithin(opens[j], pieces, size);
      assert Follows(opens[j], opens[j + 1], pieces, size, overlap);
    }
  }

  /** The text opened after `last` was closed. */
  lemma OpenedAfter(last: Open, pieces: seq<string>, overlap: nat, k: nat) returns (next: Open)
    requires 0 < k < |pieces| && pieces[k] != "" && Slices(last, pieces, k) && last.cut == k && last.text != ""
    ensures next.text == Tail(last.text, overlap) + pieces[k] != "" && next.first == k && next.cut == k + 1
    ensures next.start == Offset(pieces, k) - |Tail(last.text, overlap)|
    ensures Slices(next, pieces, k + 1)
  {
    hide Tail, Concat;
    OffsetStep(pieces, k);
    TailBounds(last.text, overlap);
    var tail, all := Tail(last.text, overlap), Concat(pieces);
    var start, end := Offset(pieces, k) - |tail|, Offset(pieces, k + 1);
    hide Offset;
    next := Open(start, k, k + 1, tail + pieces[k]);
    assert tail == all[start..Offset(pieces, k)];
    assert all[start..end] == all[start..Offset(pieces, k)] + all[Offset(pieces, k)..end];
  }

  lemma GreedySnoc(opens: seq<Open>, next: Open, pieces: seq<string>, size: nat, overlap: nat, k: nat)
    requires 0 < k < |pieces| && Greedy(opens, pieces, size, overlap, k)
    requires Slices(next, pieces, k + 1) && next.first == k && next.cut == k + 1
    requires var last := opens[|opens| - 1];
      |last.text| + |pieces[k]| > size && next.start == Offset(pieces, k) - |Tail(last.text, overlap)|
    ensures Greedy(opens + [next], pieces, size, overlap, k + 1)
  {
    hide Tail, Offset, Concat;
    var n, longer := |opens|, opens + [next];
    forall j | 0 <= j <= n
      ensures Slices(longer[j], pieces, k + 1) && StaysWithin(longer[j], pieces, size)
    {
      if j < n {
        assert Slices(opens[j], pieces, k) && StaysWithin(opens[j], pieces, size);
      }
    }
    forall j | 0 <= j < n
      ensures Follows(longer[j], longer[j + 1], pieces, size, overlap)
    {
      assert Slices(opens[j], pieces, k);
      if j < n - 1 {
        assert Follows(opens[j], opens[j + 1], pieces, size, overlap);
      }
    }
  }

  lemma Flushes(p: Packing, opens: seq<Open>, pieces: seq<string>, size: nat, overlap: nat, k: nat) returns (longer: seq<Open>)
    requires 0 < k < |pieces| && pieces[k] != "" && At(p, opens, pieces, size, overlap, k) && |p.current| + |pieces[k]| > size
    ensures At(Pack(p, pieces[k], size, overlap), longer, pieces, size, overlap, k + 1)
  {
    hide Stripped, Tail, Concat, AppendChunk, Slices, StaysWithin, Follows;
    var n := |opens| - 1;
    var last := opens[n];
    StrippedSnoc(opens[..n], last);
    assert opens[..n] + [last] == opens;
    assert Slices(last, pieces, k);
    var next := OpenedAfter(last, pieces, overlap, k);
    GreedySnoc(opens, next, pieces, size, overlap, k);
    hide Greedy;
    OffsetStep(pieces, k);
    longer := opens + [next];
    assert longer[..|opens|] == opens;
  }

  lemma {:induction false} PackedFrom(p: Packing, opens: seq<Open>, pieces: seq<string>, size: nat, overlap: nat, k: nat)
    returns (all: seq<Open>)
    requires 0 < k <= |pieces| && At(p, opens, pieces, size, overlap, k) && forall piece :: piece in pieces ==> piece != ""
    ensures At(PackAll(p, pieces[k..], size, overlap), all, pieces, size, overlap, |pieces|)
    decreases |pieces| - k
  {
    hide Pack, At;
    if k == |pieces| {
      all := opens;
    } else {
      PackAllStep(p, pieces, k, size, overlap);
      assert pieces[k] in pieces;
      var longer: seq<Open>;
      if |p.current| + |pieces[k]| > size {
        longer := Flushes(p, opens, pieces, size, overlap, k);
      } else {
        longer := Grows(p, opens, pieces, size, overlap, k);
      }
      all := PackedFrom(Pack(p, pieces[k], size, overlap), longer, pieces, size, overlap, k + 1);
    }
  }

  lemma PackedGreedily(pieces: seq<string>, size: nat, overlap: nat) returns (opens: seq<Open>)
    requires forall piece :: piece in pieces ==> piece != ""
    ensures Greedy(opens, pieces, size, overlap, |pieces|) && Merged(pieces, size, overlap) == Stripped(opens)
  {
    hide Pack, Greedy, AppendChunk, Stripped;
    if pieces == [] {
      opens := [];
      NothingIsGreedy(pieces, size, overlap);
    } else {
      assert pieces[0] in pieces;
      opens := FirstPiece(pieces, size, overlap);
      assert pieces[0..] == pieces && pieces[0 + 1..] == pieces[1..];
      PackAllStep(UNPACKED, pieces, 0, size, overlap);
      opens := PackedFrom(Pack(UNPACKED, pieces[0], size, overlap), opens, pieces, size, overlap, 1);
      NotNothing(opens, pieces, size, overlap);
      var n := |opens| - 1;
      StrippedSnoc(opens[..n], opens[n]);
      assert opens[..n] + [opens[n]] == opens;
    }
  }

  lemma NothingIsGreedy(pieces: seq<string>, size: nat, overlap: nat)
    requires pieces == []
    ensures Greedy([], pieces, size, overlap, 0) && Merged(pieces, size, overlap) == Stripped([])
  {
    assert Strip("") == "";
  }

  lemma NotNothing(opens: seq<Open>, pieces: seq<string>, size: nat, overlap: nat)
    requires pieces != [] && Greedy(opens, pieces, size, overlap, |pieces|)
    ensures opens != []
  {
  }

  /** Packing is greedy: the chunks are what stripping leaves of open texts that take in one piece
      after the other, as many as fit, each after the tail carried over from the one before. */
  lemma PackingIsGreedy(text: string, size: nat, overlap: nat) returns (opens: seq<Open>)
    requires size > 0
    ensures var pieces := Pieces(text, size, RECURSIVE_SEPARATORS);
      && Concat(pieces) == text && Greedy(opens, pieces, size, overlap, |pieces|)
      && PlacedChunks(text, size, overlap) == Stripped(opens)
  {
    hide Pieces, Greedy, Merged, Stripped;
    PiecesTile(text, size, RECURSIVE_SEPARATORS);
    opens := PackedGreedily(Pieces(text, size, RECURSIVE_SEPARATORS), size, overlap);
  }

  /** There is only one way to pack greedily. */
  lemma {:induction false} GreedyIsUnique(a: seq<Open>, b: seq<Open>, pieces: seq<string>, size: nat, overlap: nat, j: nat)
    requires Greedy(a, pieces, size, overlap, |pieces|) && Greedy(b, pieces, size, overlap, |pieces|)
    requires j < |a| && j < |b|
    ensures a[j] == b[j] && (j == |a| - 1 <==> j == |b| - 1)
  {
    hide Tail, Concat;
    if j > 0 {
      GreedyIsUnique(a, b, pieces, size, overlap, j - 1);
      assert Follows(a[j - 1], a[j], pieces, size, overlap) && Follows(b[j - 1], b[j], pieces, size, overlap);
    }
    assert Slices(a[j], pieces, |pieces|) && Slices(b[j], pieces, |pieces|);
    NoLaterCut(a, b, pieces, size, overlap, j);
    NoLaterCut(b, a, pieces, size, overlap, j);
    if j < |a| - 1 { assert Follows(a[j], a[j + 1], pieces, size, overlap); }
    if j < |b| - 1 { assert Follows(b[j], b[j + 1], pieces, size, overlap); }
  }

  lemma NoLaterCut(a: seq<Open>, b: seq<Open>, pieces: seq<string>, size: nat, overlap: nat, j: nat)
    requires Greedy(a, pieces, size, overlap, |pieces|) && Greedy(b, pieces, size, overlap, |pieces|)
    requires j < |a| && j < |b| && a[j].first == b[j].first && a[j].start == b[j].start
    ensures b[j].cut <= a[j].cut
  {
    hide Tail, Concat, Offset;
    assert Slices(a[j], pieces, |pieces|) && Slices(b[j], pieces, |pieces|);
    if b[j].cut > a[j].cut {
      if j < |a| - 1 {
        assert Follows(a[j], a[j + 1], pieces, size, overlap);
        OffsetStep(pieces, a[j].cut);
      }
    }
  }

  // ----- Pieces are cut where they must be -----

  /** Coarser separators than `level` occur at most at the very end. */
  ghost predicate CoarseAtEnd(t: string, level: nat)
    requires level <= |RECURSIVE_SEPARATORS|
  {
    forall j, q :: 0 <= j < level && OccursAt(t, RECURSIVE_SEPARATORS[j], q) ==> q + |RECURSIVE_SEPARATORS[j]| == |t|
  }

  ghost predicate OnlyAtEnd(t: string, separator: string) {
    forall q :: OccursAt(t, separator, q) ==> q + |separator| == |t|
  }

  /** The cut before piece `k` divides a stretch, pieces `a` to `b`, that is too long to stay whole
      and that no coarser separator could divide. It comes after an occurrence of the separator, as
      do all others of that separator in the stretch; without any separator, after `size` characters. */
  ghost predicate CutIn(pieces: seq<string>, k: nat, size: nat, level: nat, a: nat, b: nat)
    requires k <= |pieces|
  {
    && level < |RECURSIVE_SEPARATORS| && a < k < b <= |pieces|
    && |Concat(pieces[a..b])| > size && CoarseAtEnd(Concat(pieces[a..b]), level)
    && var separator := RECURSIVE_SEPARATORS[level];
       if separator == "" then |pieces[k - 1]| == size
       else Ends(Concat(pieces[a..k]), separator) && forall m :: a <= m < b ==> OnlyAtEnd(pieces[m], separator)
  }

  predicate Ends(t: string, separator: string) {
    |separator| <= |t| && t[|t| - |separator|..] == separator
  }

  ghost predicate CutAt(pieces: seq<string>, k: nat, size: nat)
    requires k <= |pieces|
  {
    exists level: nat, a: nat, b: nat :: CutIn(pieces, k, size, level, a, b)
  }

  lemma CutShifts(before: seq<string>, pieces: seq<string>, later: seq<string>, k: nat, size: nat)
    requires k <= |pieces| && CutAt(pieces, k, size)
    ensures CutAt(before + pieces + later, |before| + k, size)
  {
    hide Concat, CoarseAtEnd, OnlyAtEnd, Ends;
    var level: nat, a: nat, b: nat :| CutIn(pieces, k, size, level, a, b);
    var all, n := before + pieces + later, |before|;
    SliceShifts(before, pieces, later, a, b);
    SliceShifts(before, pieces, later, a, k);
    forall m | n + a <= m < n + b
      ensures all[m] == pieces[m - n]
    {
    }
    hide RECURSIVE_SEPARATORS;
    assert CutIn(all, n + k, size, level, n + a, n + b);
  }

  lemma SliceShifts<T>(before: seq<T>, xs: seq<T>, later: seq<T>, a: nat, b: nat)
    requires a <= b <= |xs|
    ensures (before + xs + later)[|before| + a..|before| + b] == xs[a..b]
  {
  }

  /** A stretch of a text inherits what holds of the text's end. */
  lemma CoarseInPart(t: string, level: nat, offset: nat, part: string)
    requires level <= |RECURSIVE_SEPARATORS| && CoarseAtEnd(t, level)
    requires offset + |part| <= |t| && t[offset..offset + |part|] == part
    ensures CoarseAtEnd(part, level)
  {
    forall j, q | 0 <= j < level && OccursAt(part, RECURSIVE_SEPARATORS[j], q)
      ensures q + |RECURSIVE_SEPARATORS[j]| == |part|
    {
      OccursInPart(t, RECURSIVE_SEPARATORS[j], offset, part, q);
    }
  }

  lemma OccursInPart(t: string, separator: string, offset: nat, part: string, q: int)
    requires offset + |part| <= |t| && t[offset..offset + |part|] == part && OccursAt(part, separator, q)
    ensures OccursAt(t, separator, offset + q)
  {
    var found := part[q..q + |separator|];
    forall i | 0 <= i < |separator|
      ensures t[offset + q + i] == separator[i]
    {
      assert found[i] == part[q + i] == t[offset..offset + |part|][q + i];
    }
    assert t[offset + q..offset + q + |separator|] == separator;
  }

  lemma OnlyAtEndInPart(t: string, separator: string, offset: nat, part: string)
    requires OnlyAtEnd(t, separator) && offset + |part| <= |t| && t[offset..offset + |part|] == part
    ensures OnlyAtEnd(part, separator)
  {
    forall q | OccursAt(part, separator, q)
      ensures q + |separator| == |part|
    {
      OccursInPart(t, separator, offset, part, q);
    }
  }

  /** Each segment of a split ends with the separator, the last one excepted, and holds no other. */
  lemma {:induction false} SegmentsOfSplit(t: string, separator: string)
    requires separator != ""
    ensures var segments := Segments(Split(t, separator), separator);
      && segments != []
      && (forall m :: 0 <= m < |segments| ==> OnlyAtEnd(segments[m], separator))
      && (forall m :: 0 <= m < |segments| - 1 ==> Ends(segments[m], separator))
    decreases |t|
  {
    hide OnlyAtEnd, Find;
    match Find(t, separator, 0)
    case None =>
      LastSegment(t, separator);
    case Some(i) =>
      var rest := t[i + |separator|..];
      SegmentsOfSplit(rest, separator);
      FirstSegment(t, separator, i);
      var parts := Split(t, separator);
      assert parts == [t[..i]] + Split(rest, separator);
      assert parts[1..] == Split(rest, separator);
      assert Segments(parts, separator) == [t[..i] + separator] + Segments(parts[1..], separator);
  }

  lemma LastSegment(t: string, separator: string)
    requires Find(t, separator, 0) == None
    ensures OnlyAtEnd(t, separator)
  {
    NoOccurrence(t, separator);
  }

  lemma NoOccurrence(t: string, separator: string)
    requires Find(t, separator, 0) == None
    ensures forall q :: !OccursAt(t, separator, q)
  {
    hide Find;
    forall q ensures !OccursAt(t, separator, q) {
      if q < 0 {
      } else {
        assert 0 <= q;
      }
    }
  }

  lemma FirstSegment(t: string, separator: string, i: nat)
    requires Find(t, separator, 0) == Some(i) && separator != ""
    ensures i + |separator| <= |t| && OnlyAtEnd(t[..i] + separator, separator) && Ends(t[..i] + separator, separator)
  {
    var part := t[..i] + separator;
    assert t[0..|part|] == part;
    forall q | OccursAt(part, separator, q)
      ensures q + |separator| == |part|
    {
      OccursInPart(t, separator, 0, part, q);
    }
  }

  lemma PartOfConcat(segments: seq<string>, m: nat) returns (offset: nat)
    requires m < |segments|
    ensures offset + |segments[m]| <= |Concat(segments)| && Concat(segments)[offset..offset + |segments[m]|] == segments[m]
  {
    OffsetStep(segments, m);
    offset := Offset(segments, m);
  }

  /** `level` says which suffix of the hierarchy is left. */
  lemma {:induction false} PiecesAreCut(t: string, size: nat, level: nat)
    requires size > 0 && level < |RECURSIVE_SEPARATORS| && CoarseAtEnd(t, level)
    ensures var pieces := Pieces(t, size, RECURSIVE_SEPARATORS[level..]);
      forall k :: 0 < k < |pieces| ==> CutAt(pieces, k, size)
    decreases |RECURSIVE_SEPARATORS| - level, 2
  {
    hide CutAt, CoarseAtEnd, HardCuts, PiecesOfAll, Choose, Split;
    if |t| > size {
      var i := Choose(t, RECURSIVE_SEPARATORS[level..]);
      CoarseAtChosen(t, level, i);
      if RECURSIVE_SEPARATORS[level..][i] == "" {
        HardCutsAreCuts(t, size, level + i);
      } else {
        CutsAtSeparator(t, size, level, i);
      }
    }
  }

  lemma HardCutsAreCuts(t: string, size: nat, level: nat)
    requires size > 0 && |t| > size && level < |RECURSIVE_SEPARATORS| && RECURSIVE_SEPARATORS[level] == "" && CoarseAtEnd(t, level)
    ensures forall k :: 0 < k < |HardCuts(t, size)| ==> CutAt(HardCuts(t, size), k, size)
  {
    var pieces := HardCuts(t, size);
    HardCutsTile(t, size);
    hide HardCuts, Concat, CoarseAtEnd;
    forall k | 0 < k < |pieces|
      ensures CutAt(pieces, k, size)
    {
      HardCutLength(t, size, k - 1);
      assert pieces[0..|pieces|] == pieces;
      assert CutIn(pieces, k, size, level, 0, |pieces|);
    }
  }

  lemma CoarseAtChosen(t: string, level: nat, i: nat)
    requires level < |RECURSIVE_SEPARATORS| && CoarseAtEnd(t, level) && i == Choose(t, RECURSIVE_SEPARATORS[level..])
    ensures CoarseAtEnd(t, level + i)
  {
    hide OccursAt, Choose, Find;
    var separators := RECURSIVE_SEPARATORS[level..];
    forall j | level <= j < level + i
      ensures forall q :: !OccursAt(t, RECURSIVE_SEPARATORS[j], q)
    {
      assert separators[j - level] == RECURSIVE_SEPARATORS[j] && !Contains(t, separators[j - level]);
      NoOccurrence(t, RECURSIVE_SEPARATORS[j]);
    }
  }

  lemma {:induction false} HardCutLength(t: string, size: nat, k: nat)
    requires size > 0 && k < |HardCuts(t, size)|
    ensures k < |HardCuts(t, size)| - 1 ==> |HardCuts(t, size)[k]| == size
  {
    if |t| > size && k > 0 {
      HardCutLength(t[size..], size, k - 1);
    }
  }

  /** A text that is split at a separator: every cut lies after one, or inside a segment. */
  lemma {:induction false} CutsAtSeparator(t: string, size: nat, level: nat, i: nat)
    requires size > 0 && |t| > size && level < |RECURSIVE_SEPARATORS| && i == Choose(t, RECURSIVE_SEPARATORS[level..])
    requires RECURSIVE_SEPARATORS[level..][i] != "" && CoarseAtEnd(t, level + i)
    ensures var pieces := Pieces(t, size, RECURSIVE_SEPARATORS[level..]);
      forall k :: 0 < k < |pieces| ==> CutAt(pieces, k, size)
    decreases |RECURSIVE_SEPARATORS| - level, 1
  {
    SplitIntoSegments(t, size, level, i);
    var separator := RECURSIVE_SEPARATORS[level + i];
    hide *;
    SegmentsAreCut(Segments(Split(t, separator), separator), size, level + i + 1);
    CutsAfterSeparator(Pieces(t, size, RECURSIVE_SEPARATORS[level..]), t, size, level + i);
  }

  lemma SplitIntoSegments(t: string, size: nat, level: nat, i: nat)
    requires size > 0 && |t| > size && level < |RECURSIVE_SEPARATORS| && i == Choose(t, RECURSIVE_SEPARATORS[level..])
    requires RECURSIVE_SEPARATORS[level..][i] != "" && CoarseAtEnd(t, level + i)
    ensures var separator := RECURSIVE_SEPARATORS[level + i];
      var segments, pieces := Segments(Split(t, separator), separator), Pieces(t, size, RECURSIVE_SEPARATORS[level..]);
      && separator != "" && level + i + 1 < |RECURSIVE_SEPARATORS|
      && pieces == PiecesOfAll(segments, size, RECURSIVE_SEPARATORS[level + i + 1..]) && Concat(pieces) == t
      && (forall m :: 0 <= m < |segments| ==> CoarseAtEnd(segments[m], level + i + 1))
      && (forall m :: 0 <= m < |segments| - 1 ==> Ends(segments[m], separator))
  {
    var chosen, separator := level + i, RECURSIVE_SEPARATORS[level + i];
    LevelChosen(t, size, level, i);
    hide *;
    SegmentsOfSplit(t, separator);
    SplitConcats(t, separator);
    SegmentsStayCoarse(Segments(Split(t, separator), separator), t, chosen);
  }

  lemma LevelChosen(t: string, size: nat, level: nat, i: nat)
    requires size > 0 && |t| > size && level < |RECURSIVE_SEPARATORS| && i == Choose(t, RECURSIVE_SEPARATORS[level..])
    requires RECURSIVE_SEPARATORS[level..][i] != ""
    ensures var separator := RECURSIVE_SEPARATORS[level + i];
      && separator != "" && level + i + 1 < |RECURSIVE_SEPARATORS|
      && Pieces(t, size, RECURSIVE_SEPARATORS[level..])
           == PiecesOfAll(Segments(Split(t, separator), separator), size, RECURSIVE_SEPARATORS[level + i + 1..])
      && Concat(Pieces(t, size, RECURSIVE_SEPARATORS[level..])) == t
  {
    hide PiecesOfAll, Split, Segments, Concat, Choose, Pieces;
    PiecesUnfold(t, size, RECURSIVE_SEPARATORS[level..]);
    assert RECURSIVE_SEPARATORS[level..][i + 1..] == RECURSIVE_SEPARATORS[level + i + 1..];
    PiecesTile(t, size, RECURSIVE_SEPARATORS[level..]);
  }

  lemma SplitConcats(t: string, separator: string)
    requires separator != ""
    ensures Concat(Segments(Split(t, separator), separator)) == t
  {
    hide *;
    SplitRejoins(t, separator);
    SegmentsRejoin(Split(t, separator), separator);
  }

  lemma SegmentsStayCoarse(segments: seq<string>, t: string, level: nat)
    requires level < |RECURSIVE_SEPARATORS| && CoarseAtEnd(t, level) && Concat(segments) == t
    requires forall m :: 0 <= m < |segments| ==> OnlyAtEnd(segments[m], RECURSIVE_SEPARATORS[level])
    ensures forall m :: 0 <= m < |segments| ==> CoarseAtEnd(segments[m], level + 1)
  {
    hide Concat, CoarseAtEnd, OnlyAtEnd;
    forall m | 0 <= m < |segments|
      ensures CoarseAtEnd(segments[m], level + 1)
    {
      var offset := PartOfConcat(segments, m);
      CoarseInPart(t, level, offset, segments[m]);
      OneCoarser(segments[m], level);
    }
  }

  lemma OneCoarser(t: string, level: nat)
    requires level < |RECURSIVE_SEPARATORS| && CoarseAtEnd(t, level) && OnlyAtEnd(t, RECURSIVE_SEPARATORS[level])
    ensures CoarseAtEnd(t, level + 1)
  {
    hide OccursAt;
  }

  lemma CutsAfterSeparator(pieces: seq<string>, t: string, size: nat, level: nat)
    requires level < |RECURSIVE_SEPARATORS| && RECURSIVE_SEPARATORS[level] != ""
    requires Concat(pieces) == t && |t| > size && CoarseAtEnd(t, level)
    requires forall m :: 0 <= m < |pieces| ==> OnlyAtEnd(pieces[m], RECURSIVE_SEPARATORS[level])
    requires forall k :: 0 < k < |pieces| ==> CutAt(pieces, k, size) || Ends(Concat(pieces[..k]), RECURSIVE_SEPARATORS[level])
    ensures forall k :: 0 < k < |pieces| ==> CutAt(pieces, k, size)
  {
    hide *;
    forall k | 0 < k < |pieces|
      ensures CutAt(pieces, k, size)
    {
      CutAfterSeparator(pieces, k, t, size, level);
    }
  }

  lemma CutAfterSeparator(pieces: seq<string>, k: nat, t: string, size: nat, level: nat)
    requires level < |RECURSIVE_SEPARATORS| && RECURSIVE_SEPARATORS[level] != "" && 0 < k < |pieces|
    requires Concat(pieces) == t && |t| > size && CoarseAtEnd(t, level)
    requires forall m :: 0 <= m < |pieces| ==> OnlyAtEnd(pieces[m], RECURSIVE_SEPARATORS[level])
    requires CutAt(pieces, k, size) || Ends(Concat(pieces[..k]), RECURSIVE_SEPARATORS[level])
    ensures CutAt(pieces, k, size)
  {
    hide Concat, CoarseAtEnd, OnlyAtEnd, Ends;
    if Ends(Concat(pieces[..k]), RECURSIVE_SEPARATORS[level]) {
      assert pieces[0..|pieces|] == pieces && pieces[0..k] == pieces[..k];
      assert CutIn(pieces, k, size, level, 0, |pieces|);
    }
  }

  lemma {:induction false} SegmentsAreCut(segments: seq<string>, size: nat, level: nat)
    requires size > 0 && 0 < level < |RECURSIVE_SEPARATORS| && RECURSIVE_SEPARATORS[level - 1] != ""
    requires forall m :: 0 <= m < |segments| ==> CoarseAtEnd(segments[m], level)
    requires forall m :: 0 <= m < |segments| - 1 ==> Ends(segments[m], RECURSIVE_SEPARATORS[level - 1])
    ensures var pieces, separator := PiecesOfAll(segments, size, RECURSIVE_SEPARATORS[level..]), RECURSIVE_SEPARATORS[level - 1];
      && (forall m :: 0 <= m < |pieces| ==> OnlyAtEnd(pieces[m], separator))
      && (forall k :: 0 < k < |pieces| ==> CutAt(pieces, k, size) || Ends(Concat(pieces[..k]), separator))
    decreases |RECURSIVE_SEPARATORS| - level, 3, |segments|
  {
    var separators, separator := RECURSIVE_SEPARATORS[level..], RECURSIVE_SEPARATORS[level - 1];
    assert Hierarchy(separators);
    hide *;
    if segments == [] {
      NoPieces(size, separators);
    } else {
      var head, rest := Pieces(segments[0], size, separators), PiecesOfAll(segments[1..], size, separators);
      PiecesAreCut(segments[0], size, level);
      HeadTiles(segments[0], size, separators);
      SegmentsAreCut(segments[1..], size, level);
      OnlyAtEndInPieces(segments[0], head, level);
      PiecesOfAllStep(segments, 0, size, separators);
      assert segments[0..] == segments && segments[0 + 1..] == segments[1..];
      if rest != [] {
        RestIsNotEmpty(segments, rest, size, level);
      }
      JoinedCuts(head, rest, size, separator);
    }
  }

  lemma JoinedCuts(head: seq<string>, rest: seq<string>, size: nat, separator: string)
    requires forall m :: 0 <= m < |head| ==> OnlyAtEnd(head[m], separator)
    requires forall m :: 0 <= m < |rest| ==> OnlyAtEnd(rest[m], separator)
    requires forall k :: 0 < k < |head| ==> CutAt(head, k, size)
    requires forall k :: 0 < k < |rest| ==> CutAt(rest, k, size) || Ends(Concat(rest[..k]), separator)
    requires rest != [] ==> Ends(Concat(head), separator)
    ensures forall m :: 0 <= m < |head + rest| ==> OnlyAtEnd((head + rest)[m], separator)
    ensures forall k :: 0 < k < |head + rest| ==> CutAt(head + rest, k, size) || Ends(Concat((head + rest)[..k]), separator)
  {
    hide CutAt, OnlyAtEnd, Ends, Concat;
    var pieces := head + rest;
    forall k | 0 < k < |pieces|
      ensures CutAt(pieces, k, size) || Ends(Concat(pieces[..k]), separator)
    {
      if k < |head| {
        CutShifts([], head, rest, k, size);
        assert [] + head + rest == pieces;
      } else if k == |head| {
        assert pieces[..k] == head;
      } else {
        LaterCut(head, rest, k - |head|, size, separator);
      }
    }
  }

  lemma NoPieces(size: nat, separators: seq<string>)
    requires size > 0 && Hierarchy(separators)
    ensures PiecesOfAll([], size, separators) == []
  {
  }

  lemma HeadTiles(t: string, size: nat, separators: seq<string>)
    requires size > 0 && Hierarchy(separators)
    ensures Concat(Pieces(t, size, separators)) == t
  {
    PiecesTile(t, size, separators);
  }

  lemma RestIsNotEmpty(segments: seq<string>, rest: seq<string>, size: nat, level: nat)
    requires size > 0 && level < |RECURSIVE_SEPARATORS| && segments != [] && rest != []
    requires rest == PiecesOfAll(segments[1..], size, RECURSIVE_SEPARATORS[level..])
    ensures |segments| > 1
  {
  }

  lemma LaterCut(head: seq<string>, rest: seq<string>, k: nat, size: nat, separator: string)
    requires k <= |rest| && (CutAt(rest, k, size) || Ends(Concat(rest[..k]), separator))
    ensures CutAt(head + rest, |head| + k, size) || Ends(Concat((head + rest)[..|head| + k]), separator)
  {
    hide CutAt;
    if CutAt(rest, k, size) {
      CutShifts(head, rest, [], k, size);
      assert head + rest + [] == head + rest;
    } else {
      assert (head + rest)[..|head| + k] == head + rest[..k];
      ConcatAppend(head, rest[..k]);
    }
  }

  lemma OnlyAtEndInPieces(segment: string, pieces: seq<string>, level: nat)
    requires 0 < level < |RECURSIVE_SEPARATORS| && CoarseAtEnd(segment, level) && Concat(pieces) == segment
    ensures forall m :: 0 <= m < |pieces| ==> OnlyAtEnd(pieces[m], RECURSIVE_SEPARATORS[level - 1])
  {
    hide OccursAt, Concat;
    assert OnlyAtEnd(segment, RECURSIVE_SEPARATORS[level - 1]);
    forall m | 0 <= m < |pieces|
      ensures OnlyAtEnd(pieces[m], RECURSIVE_SEPARATORS[level - 1])
    {
      var offset := PartOfConcat(pieces, m);
      OnlyAtEndInPart(segment, RECURSIVE_SEPARATORS[level - 1], offset, pieces[m]);
    }
  }

  /** Pieces are cut only where a stretch is too long, at the coarsest separator that divides it,
      and wherever that separator stands; a text that fits is one piece. */
  lemma PiecesMeaning(text: string, size: nat)
    requires size > 0
    ensures var pieces := Pieces(text, size, RECURSIVE_SEPARATORS);
      && Concat(pieces) == text && (forall piece :: piece in pieces ==> 0 < |piece| <= size)
      && (|text| <= size ==> |pieces| <= 1)
      && forall k :: 0 < k < |pieces| ==> CutAt(pieces, k, size)
  {
    PiecesTile(text, size, RECURSIVE_SEPARATORS);
    assert RECURSIVE_SEPARATORS[0..] == RECURSIVE_SEPARATORS;
    hide CutAt, PiecesOfAll, Choose, HardCuts;
    PiecesAreCut(text, size, 0);
  }

  // ----- The carried tail starts at the best boundary -----

  /** `p` comes just after an occurrence of `separator` that begins at most twice the overlap, and
      at least half the overlap and one character, before the end. */
  ghost predicate Boundary(text: string, overlap: nat, separator: string, p: int) {
    var begin := p - |separator|;
    OccursAt(text, separator, begin) && |text| - 2 * overlap <= begin < |text| - (if overlap <= 3 then 1 else overlap / 2)
  }

  /** The tail starts after the coarsest separator that has any boundary, at the boundary closest to
      the overlap asked for, the earlier of two as close; without any boundary it is a plain slice. */
  lemma TailMeaning(text: string, overlap: nat) returns (cut: int, level: nat)
    requires 0 < overlap < |text|
    ensures 0 <= cut <= |text| && Tail(text, overlap) == text[cut..] && level <= 4
    ensures forall j, p :: 0 <= j < level ==> !Boundary(text, overlap, ["\n\n", "\n", ". ", " "][j], p)
    ensures level == 4 ==> cut == |text| - overlap
    ensures level < 4 ==> Boundary(text, overlap, ["\n\n", "\n", ". ", " "][level], cut)
    ensures level < 4 ==> forall p :: Boundary(text, overlap, ["\n\n", "\n", ". ", " "][level], p) ==>
      var asked := |text| - overlap;
      var far, further := (if cut < asked then asked - cut else cut - asked), if p < asked then asked - p else p - asked;
      far < further || (far == further && cut <= p)
  {
    hide SnapFrom, InBand, Boundary;
    var separators := ["\n\n", "\n", ". ", " "];
    assert RECURSIVE_SEPARATORS == separators + [""];
    level := SnapFromMeaning(text, overlap, RECURSIVE_SEPARATORS);
    cut := SnapFrom(text, overlap, RECURSIVE_SEPARATORS);
    forall j, p: int | 0 <= j < 4
      ensures InBand(text, overlap, RECURSIVE_SEPARATORS[j], p) <==> Boundary(text, overlap, separators[j], p)
    {
      assert RECURSIVE_SEPARATORS[j] == separators[j];
      BandIs(text, overlap, separators[j], p);
    }
    if level >= 4 {
      assert level == 5;
      level := 4;
    }
  }

  lemma BandIs(text: string, overlap: nat, separator: string, p: int)
    ensures InBand(text, overlap, separator, p) <==> Boundary(text, overlap, separator, p)
  {
    assert LeastKept(overlap) == if overlap <= 3 then 1 else overlap / 2;
    assert OccursAt(text, separator, p - |separator|) ==> 0 <= p - |separator|;
    hide OccursAt, LeastKept;
  }

  // ----- Token windows -----

  /** Dropping empty pieces keeps the others and their order. */
  lemma NonEmptyKeeps(pieces: seq<string>, piece: string, later: seq<string>)
    ensures NonEmpty([]) == [] && "" !in NonEmpty(pieces)
    ensures NonEmpty([piece] + later) == (if piece == "" then [] else [piece]) + NonEmpty(later)
  {
    NothingEmpty(pieces);
    assert ([piece] + later)[1..] == later;
    NonEmptySplits([piece], later);
    NonEmptyOne(piece);
  }

  lemma {:induction false} NothingEmpty(pieces: seq<string>)
    ensures "" !in NonEmpty(pieces)
  {
    if pieces != [] {
      NothingEmpty(pieces[1..]);
    }
  }

  lemma NonEmptyOne(piece: string)
    ensures NonEmpty([piece]) == if piece == "" then [] else [piece]
  {
  }

  lemma {:induction false} NonEmptySplits(a: seq<string>, b: seq<string>)
    ensures NonEmpty(a + b) == NonEmpty(a) + NonEmpty(b)
  {
    if a == [] {
      assert a + b == b;
    } else {
      assert (a + b)[1..] == a[1..] + b;
      NonEmptySplits(a[1..], b);
    }
  }
}
