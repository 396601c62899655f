/** Bitemporal document versions: what registry validation guarantees, and what a query as of two
    instants returns. Instants are integers. */
module Temporal {
  import opened Sorting
  import opened Text

  /** Half-open; without an end, open-ended. */
  datatype Interval = Interval(start: int, end: Option<int>) {
    /** `interval_contains`. */
    predicate Contains(instant: int) { start <= instant && (end == None || instant < end.value) }

    predicate NonEmpty() { end.Some? ==> start < end.value }

    predicate EndsBefore(next: Interval) { end.Some? && end.value <= next.start }
  }

  datatype Row = Row(documentId: string, versionId: string, contextId: string,
    validityKnown: bool, validFrom: Option<int>, validTo: Option<int>, recorded: Interval)

  /** Some instant lies in both. */
  ghost predicate Overlap(a: Interval, b: Interval) { exists t :: a.Contains(t) && b.Contains(t) }

  /** `_validate_temporal`. */
  predicate TemporalRow(row: Row) {
    && (if row.validityKnown then row.validFrom.Some? && Interval(row.validFrom.value, row.validTo).NonEmpty()
        else row.validFrom == None && row.validTo == None)
    && row.recorded.NonEmpty()
  }

  /** No two rows of one document are recorded at the same instant. */
  ghost predicate OneVersionAtATime(rows: seq<Row>) {
    forall i, j :: 0 <= i < j < |rows| && rows[i].documentId == rows[j].documentId ==>
      !Overlap(rows[i].recorded, rows[j].recorded)
  }

  // ----- Checking neighbours is enough -----

  datatype Item = Item(position: nat, row: Row)

  predicate ByStart(a: Item, b: Item) { a.row.recorded.start <= b.row.recorded.start }

  /** Every version ends before its successor in the list starts. */
  predicate Chained(versions: seq<Item>) {
    forall k :: 0 < k < |versions| ==> versions[k - 1].row.recorded.EndsBefore(versions[k].row.recorded)
  }

  ghost predicate Apart(versions: seq<Item>) {
    forall i, j :: 0 <= i < j < |versions| ==> !Overlap(versions[i].row.recorded, versions[j].row.recorded)
  }

  lemma OverlapUnlessEndsBefore(a: Interval, b: Interval)
    requires a.NonEmpty() && b.NonEmpty() && a.start <= b.start
    ensures Overlap(a, b) <==> !a.EndsBefore(b)
  {
    if !a.EndsBefore(b) {
      assert a.Contains(b.start) && b.Contains(b.start);
    }
  }

  /** In a list sorted by start, comparing neighbours finds every overlap. */
  lemma ChainedIffApart(versions: seq<Item>)
    requires SortedBy(versions, ByStart) && forall v :: v in versions ==> v.row.recorded.NonEmpty()
    ensures Chained(versions) <==> Apart(versions)
  {
    forall i, j | 0 <= i < j < |versions|
      ensures Overlap(versions[i].row.recorded, versions[j].row.recorded)
         <==> !versions[i].row.recorded.EndsBefore(versions[j].row.recorded)
    {
      assert ByStart(versions[i], versions[j]);
      OverlapUnlessEndsBefore(versions[i].row.recorded, versions[j].row.recorded);
    }
    if Chained(versions) {
      forall i, j | 0 <= i < j < |versions|
        ensures versions[i].row.recorded.EndsBefore(versions[j].row.recorded)
      {
        assert versions[i + 1 - 1].row.recorded.EndsBefore(versions[i + 1].row.recorded);
        assert i + 1 < j ==> ByStart(versions[i + 1], versions[j]);
      }
    }
  }

  // ----- Registry validation -----

  datatype Verdict = Accepted | BadRow(position: nat) | Overlapping(position: nat)

  predicate IsItem(rows: seq<Row>, item: Item, document: string) {
    item.position < |rows| && rows[item.position] == item.row && item.row.documentId == document
  }

  /** The versions of one document, in row order. */
  function ItemsOf(rows: seq<Row>, document: string): (items: seq<Item>)
    ensures Distinct(items) && forall v :: v in items <==> IsItem(rows, v, document)
  {
    if rows == [] then []
    else
      var last := |rows| - 1;
      var init, item := ItemsOf(rows[..last], document), Item(last, rows[last]);
      DistinctSnoc(init, item);
      if rows[last].documentId == document then init + [item] else init
  }

  /** The versions of a document in the order they are compared. */
  function Timeline(rows: seq<Row>, document: string): seq<Item> { Sort(ItemsOf(rows, document), ByStart) }

  lemma TimelineHolds(rows: seq<Row>, document: string)
    ensures var versions := Timeline(rows, document);
      && SortedBy(versions, ByStart) && Distinct(versions)
      && forall v :: v in versions <==> IsItem(rows, v, document)
  {
    var items := ItemsOf(rows, document);
    SortSorts(items, ByStart);
    DistinctTransfers(items, Timeline(rows, document));
    forall v ensures v in Timeline(rows, document) <==> v in items {
      assert v in multiset(Timeline(rows, document)) <==> v in multiset(items);
    }
  }

  /** All timelines chained is the same as no two rows of one document overlapping. */
  lemma TimelinesChainedIff(rows: seq<Row>)
    requires forall row :: row in rows ==> row.recorded.NonEmpty()
    ensures OneVersionAtATime(rows) <==> forall row :: row in rows ==> Chained(Timeline(rows, row.documentId))
  {
    forall row | row in rows
      ensures Chained(Timeline(rows, row.documentId)) <==> Apart(Timeline(rows, row.documentId))
    {
      TimelineHolds(rows, row.documentId);
      ChainedIffApart(Timeline(rows, row.documentId));
    }
    hide Chained, Timeline;
    if OneVersionAtATime(rows) {
      forall row | row in rows
        ensures Apart(Timeline(rows, row.documentId))
      {
        OneVersionKeepsApart(rows, row.documentId);
      }
    }
    if forall row :: row in rows ==> Chained(Timeline(rows, row.documentId)) {
      forall i, j | 0 <= i < j < |rows| && rows[i].documentId == rows[j].documentId
        ensures !Overlap(rows[i].recorded, rows[j].recorded)
      {
        ApartSeparates(rows, i, j);
      }
    }
  }

  lemma OneVersionKeepsApart(rows: seq<Row>, document: string)
    requires OneVersionAtATime(rows)
    ensures Apart(Timeline(rows, document))
  {
    TimelineHolds(rows, document);
    var versions := Timeline(rows, document);
    forall i, j | 0 <= i < j < |versions|
      ensures !Overlap(versions[i].row.recorded, versions[j].row.recorded)
    {
      var a, b := versions[i], versions[j];
      assert a in versions && b in versions && a != b;
      if a.position > b.position {
        assert !Overlap(b.row.recorded, a.row.recorded);
      }
    }
  }

  lemma ApartSeparates(rows: seq<Row>, i: nat, j: nat)
    requires i < j < |rows| && rows[i].documentId == rows[j].documentId
    requires Apart(Timeline(rows, rows[i].documentId))
    ensures !Overlap(rows[i].recorded, rows[j].recorded)
  {
    TimelineHolds(rows, rows[i].documentId);
    var versions := Timeline(rows, rows[i].documentId);
    hide Timeline;
    var a, b := Item(i, rows[i]), Item(j, rows[j]);
    assert a in versions && b in versions;
    var p :| 0 <= p < |versions| && versions[p] == a;
    var q :| 0 <= q < |versions| && versions[q] == b;
    if q < p {
      assert !Overlap(b.row.recorded, a.row.recorded);
    }
  }

  /** The version at `position` follows one that has not ended before it. */
  predicate StartsTooEarly(versions: seq<Item>, position: nat) {
    exists k :: 0 < k < |versions| && versions[k].position == position && !versions[k - 1].row.recorded.EndsBefore(versions[k].row.recorded)
  }

  /** Another row of the same document overlaps the row at `position`. */
  ghost predicate Conflicts(rows: seq<Row>, position: nat) {
    && position < |rows|
    && exists j :: 0 <= j < |rows| && j != position && SharesTime(rows[j], rows[position])
  }

  ghost predicate SharesTime(a: Row, b: Row) { a.documentId == b.documentId && Overlap(a.recorded, b.recorded) }

  /** The scan with `previous_end` and `previous_open`. */
  method FirstOverlap(versions: seq<Item>) returns (bad: Option<nat>)
    ensures bad == None <==> Chained(versions)
    ensures bad.Some? ==> StartsTooEarly(versions, bad.value)
  {
    var previousEnd: Option<int>, previousOpen := None, false;
    for k := 0 to |versions|
      invariant Chained(versions[..k])
      invariant k > 0 ==> previousEnd == versions[k - 1].row.recorded.end && previousOpen == (previousEnd == None)
      invariant k == 0 ==> previousEnd == None && !previousOpen
    {
      var interval := versions[k].row.recorded;
      if previousOpen || (previousEnd.Some? && interval.start < previousEnd.value) {
        assert !versions[k - 1].row.recorded.EndsBefore(interval);
        return Some(versions[k].position);
      }
      previousEnd := interval.end;
      previousOpen := previousEnd == None;
    }
    assert versions[..|versions|] == versions;
    return None;
  }

  function Documents(rows: seq<Row>): seq<string> {
    seq(|rows|, i requires 0 <= i < |rows| => rows[i].documentId)
  }

  lemma NextRow(rows: seq<Row>, k: nat)
    requires k < |rows|
    ensures var document, known := rows[k].documentId, Dedup(Documents(rows[..k]));
      && Dedup(Documents(rows[..k + 1])) == (if document in known then known else known + [document])
      && ItemsOf(rows[..k + 1], document) == ItemsOf(rows[..k], document) + [Item(k, rows[k])]
      && forall d :: d != document ==> ItemsOf(rows[..k + 1], d) == ItemsOf(rows[..k], d)
  {
    assert rows[..k + 1][..k] == rows[..k];
    var before, after := Documents(rows[..k]), Documents(rows[..k + 1]);
    assert after[..k] == before && after[k] == rows[k].documentId;
  }

  lemma NoRows(rows: seq<Row>)
    ensures Dedup(Documents(rows[..0])) == [] && forall d :: ItemsOf(rows[..0], d) == []
  {
  }

  /** `by_document`: the rows of each document, and the documents in order of first appearance. */
  method GroupByDocument(rows: seq<Row>) returns (keys: seq<string>, groups: map<string, seq<Item>>)
    ensures keys == Dedup(Documents(rows))
    ensures forall d :: d in keys ==> d in groups && groups[d] == ItemsOf(rows, d)
  {
    keys, groups := [], map[];
    NoRows(rows);
    hide *;
    for k := 0 to |rows|
      invariant keys == Dedup(Documents(rows[..k]))
      invariant forall d :: d in keys <==> d in groups
      invariant forall d :: d in groups ==> groups[d] == ItemsOf(rows[..k], d)
      invariant forall d :: d !in groups ==> ItemsOf(rows[..k], d) == []
    {
      NextRow(rows, k);
      var document := rows[k].documentId;
      if document !in groups {
        keys, groups := keys + [document], groups[document := []];
      }
      groups := groups[document := groups[document] + [Item(k, rows[k])]];
    }
    assert rows[..|rows|] == rows;
  }

  /** `_validate_document_version_intervals`: the position of a row that overlaps another. */
  method ValidateVersions(rows: seq<Row>) returns (bad: Option<nat>)
    requires forall row :: row in rows ==> row.recorded.NonEmpty()
    ensures bad == None <==> OneVersionAtATime(rows)
    ensures bad.Some? ==> Conflicts(rows, bad.value)
  {
    var keys, groups := GroupByDocument(rows);
    hide Chained, OneVersionAtATime, StartsTooEarly, Conflicts, ItemsOf, IsItem, Sort;
    for k := 0 to |keys|
      invariant forall i :: 0 <= i < k ==> Chained(Timeline(rows, keys[i]))
    {
      var document := keys[k];
      assert document in keys;
      var versions := Sort(groups[document], ByStart);
      assert versions == Timeline(rows, document);
      var found := FirstOverlap(versions);
      if found.Some? {
        OverlapFound(rows, document, found.value);
        return found;
      }
    }
    forall row | row in rows
      ensures Chained(Timeline(rows, row.documentId))
    {
      var i :| 0 <= i < |rows| && rows[i] == row;
      assert Documents(rows)[i] in keys;
    }
    TimelinesChainedIff(rows);
    return None;
  }

  /** Registry validation, as far as time goes: every row by itself, then every document. */
  method ValidateRegistry(rows: seq<Row>) returns (verdict: Verdict)
    ensures verdict == Accepted <==> (forall row :: row in rows ==> TemporalRow(row)) && OneVersionAtATime(rows)
    ensures verdict.BadRow? ==> verdict.position < |rows| && !TemporalRow(rows[verdict.position])
    ensures verdict.BadRow? ==> forall k :: 0 <= k < verdict.position < |rows| ==> TemporalRow(rows[k])
    ensures verdict.Overlapping? ==> Conflicts(rows, verdict.position)
  {
    for k := 0 to |rows|
      invariant forall i :: 0 <= i < k ==> TemporalRow(rows[i])
    {
      if !TemporalRow(rows[k]) {
        return BadRow(k);
      }
    }
    var bad := ValidateVersions(rows);
    return if bad == None then Accepted else Overlapping(bad.value);
  }

  lemma OverlapFound(rows: seq<Row>, document: string, position: nat)
    requires forall row :: row in rows ==> row.recorded.NonEmpty()
    requires StartsTooEarly(Timeline(rows, document), position)
    ensures Conflicts(rows, position) && !OneVersionAtATime(rows)
  {
    TimelineHolds(rows, document);
    var versions := Timeline(rows, document);
    var k :| 0 < k < |versions| && versions[k].position == position && !versions[k - 1].row.recorded.EndsBefore(versions[k].row.recorded);
    hide Timeline;
    var a, b := versions[k - 1], versions[k];
    assert a in versions && b in versions && a != b && ByStart(a, b);
    OverlapUnlessEndsBefore(a.row.recorded, b.row.recorded);
    assert SharesTime(rows[a.position], rows[position]);
    if a.position > position {
      assert Overlap(rows[position].recorded, rows[a.position].recorded);
    }
  }

  // ----- The query -----

  predicate Known(row: Row) { row.validityKnown ==> row.validFrom.Some? }

  predicate Active(row: Row, validAt: int, recordedAt: int, includeUnknown: bool)
    requires Known(row)
  {
    && (if row.validityKnown then Interval(row.validFrom.value, row.validTo).Contains(validAt) else includeUnknown)
    && row.recorded.Contains(recordedAt)
  }

  function Selected(rows: seq<Row>, validAt: int, recordedAt: int, includeUnknown: bool): seq<Row>
    requires forall row :: row in rows ==> Known(row)
  {
    if rows == [] then []
    else
      var init, last := Selected(rows[..|rows| - 1], validAt, recordedAt, includeUnknown), rows[|rows| - 1];
      if Active(last, validAt, recordedAt, includeUnknown) then init + [last] else init
  }

  /** The order of `(document_id, document_version_id, context_id)`. */
  predicate ByIds(a: Row, b: Row) {
    || StrLt(a.documentId, b.documentId)
    || (a.documentId == b.documentId && StrLt(a.versionId, b.versionId))
    || (a.documentId == b.documentId && a.versionId == b.versionId && StrLe(a.contextId, b.contextId))
  }

  lemma ByIdsOrder()
    ensures TotalPreorder(ByIds)
  {
    StrLeOrder();
    hide StrLe;
  }

  /** `active_as_of`; `None` when a row claims a known validity without a start. */
  method ActiveAsOf(rows: seq<Row>, validAt: int, recordedAt: int, includeUnknown: bool) returns (r: Option<seq<Row>>)
    ensures r == None <==> exists row :: row in rows && !Known(row)
    ensures r.Some? ==> r.value == Sort(Selected(rows, validAt, recordedAt, includeUnknown), ByIds)
  {
    var selected: seq<Row> := [];
    for k := 0 to |rows|
      invariant forall row :: row in rows[..k] ==> Known(row)
      invariant selected == Selected(rows[..k], validAt, recordedAt, includeUnknown)
    {
      var row := rows[k];
      if !Known(row) {
        return None;
      }
      assert rows[..k + 1][..k] == rows[..k] && rows[..k + 1] == rows[..k] + [row];
      if Active(row, validAt, recordedAt, includeUnknown) {
        selected := selected + [row];
      }
    }
    assert rows[..|rows|] == rows;
    return Some(Sort(selected, ByIds));
  }

  lemma {:induction false} SelectedHolds(rows: seq<Row>, validAt: int, recordedAt: int, includeUnknown: bool)
    requires forall row :: row in rows ==> Known(row)
    ensures var s := Selected(rows, validAt, recordedAt, includeUnknown);
      forall row :: row in s <==> row in rows && Active(row, validAt, recordedAt, includeUnknown)
  {
    if rows != [] {
      SelectedHolds(rows[..|rows| - 1], validAt, recordedAt, includeUnknown);
      assert rows == rows[..|rows| - 1] + [rows[|rows| - 1]];
    }
  }

  predicate OncePerDocument(rows: seq<Row>) {
    forall i, j :: 0 <= i < j < |rows| ==> rows[i].documentId != rows[j].documentId
  }

  /** Active rows of one document are one and the same row of the registry. */
  lemma {:induction false} SelectedOncePerDocument(rows: seq<Row>, validAt: int, recordedAt: int, includeUnknown: bool)
    requires (forall row :: row in rows ==> Known(row)) && OneVersionAtATime(rows)
    ensures OncePerDocument(Selected(rows, validAt, recordedAt, includeUnknown))
  {
    if rows != [] {
      var last := |rows| - 1;
      var init := rows[..last];
      assert OneVersionAtATime(init);
      SelectedOncePerDocument(init, validAt, recordedAt, includeUnknown);
      SelectedHolds(init, validAt, recordedAt, includeUnknown);
      var s := Selected(init, validAt, recordedAt, includeUnknown);
      assert rows[last] in rows;
      if Active(rows[last], validAt, recordedAt, includeUnknown) {
        assert Selected(rows, validAt, recordedAt, includeUnknown) == s + [rows[last]];
        forall i | 0 <= i < |s|
          ensures s[i].documentId != rows[last].documentId
        {
          assert s[i] in s;
          var p :| 0 <= p < last && rows[p] == s[i];
          assert rows[p].recorded.Contains(recordedAt) && rows[last].recorded.Contains(recordedAt);
          assert Overlap(rows[p].recorded, rows[last].recorded);
        }
      }
    }
  }

  lemma OnceInAnyOrder(s: seq<Row>, r: seq<Row>)
    requires OncePerDocument(s) && multiset(s) == multiset(r)
    ensures OncePerDocument(r)
  {
    assert Distinct(s);
    DistinctTransfers(s, r);
    forall i, j | 0 <= i < j < |r|
      ensures r[i].documentId != r[j].documentId
    {
      assert r[i] in multiset(r) && r[j] in multiset(r);
      assert r[i] in s && r[j] in s && r[i] != r[j];
    }
  }

  /** In a registry that validation accepts, a query as of any two instants succeeds and returns
      every active row, sorted, and never two versions of one document. */
  lemma OneVersionAsOf(rows: seq<Row>, validAt: int, recordedAt: int, includeUnknown: bool)
    requires (forall row :: row in rows ==> TemporalRow(row)) && OneVersionAtATime(rows)
    ensures forall row :: row in rows ==> Known(row)
    ensures var r := Sort(Selected(rows, validAt, recordedAt, includeUnknown), ByIds);
      && SortedBy(r, ByIds) && OncePerDocument(r)
      && forall row :: row in r <==> row in rows && Active(row, validAt, recordedAt, includeUnknown)
  {
    assert forall row :: row in rows ==> Known(row);
    var s := Selected(rows, validAt, recordedAt, includeUnknown);
    SelectedHolds(rows, validAt, recordedAt, includeUnknown);
    SelectedOncePerDocument(rows, validAt, recordedAt, includeUnknown);
    hide Selected, ByIds, OneVersionAtATime, TemporalRow, OncePerDocument, Sort, Active;
    ByIdsOrder();
    SortSorts(s, ByIds);
    var r := Sort(s, ByIds);
    forall row ensures row in r <==> row in s {
      assert row in multiset(r) <==> row in multiset(s);
    }
    OnceInAnyOrder(s, r);
  }

  /** An open-ended version is the latest of its document: every other one ended before it began. */
  lemma OpenEndedIsLatest(rows: seq<Row>, i: nat, j: nat)
    requires (forall row :: row in rows ==> TemporalRow(row)) && OneVersionAtATime(rows)
    requires i < |rows| && j < |rows| && i != j && rows[i].documentId == rows[j].documentId
    requires rows[i].recorded.end == None
    ensures rows[j].recorded.EndsBefore(rows[i].recorded) && rows[j].recorded.start < rows[i].recorded.start
  {
    var a, b := rows[i].recorded, rows[j].recorded;
    assert rows[i] in rows && rows[j] in rows;
    var lo, hi := if i < j then i else j, if i < j then j else i;
    assert !Overlap(rows[lo].recorded, rows[hi].recorded);
    assert !Overlap(a, b) && !Overlap(b, a);
    if b.start <= a.start {
      OverlapUnlessEndsBefore(b, a);
    } else {
      OverlapUnlessEndsBefore(a, b);
    }
  }

  // ----- The intervals, written out -----

  /** Half-open: the start belongs to it, the end does not. */
  lemma IntervalIs(i: Interval, t: int)
    ensures i.Contains(t) <==> !(t < i.start) && (i.end.Some? ==> t < i.end.value)
    ensures i.NonEmpty() <==> exists u :: i.Contains(u)
  {
    assert i.NonEmpty() ==> i.Contains(i.start);
  }

  /** A well-formed row was recorded at some instant; its validity, if known, has a start and does
      not end before it began, and has no bound at all otherwise. */
  lemma TemporalRowIs(row: Row)
    ensures TemporalRow(row) <==>
      && (exists t :: row.recorded.Contains(t))
      && (row.validityKnown ==> row.validFrom.Some? && (row.validTo.Some? ==> row.validFrom.value < row.validTo.value))
      && (!row.validityKnown ==> row.validFrom == None && row.validTo == None)
  {
    IntervalIs(row.recorded, 0);
  }

  /** Active means: recorded by then and not yet superseded, and valid then or, if asked for, of
      unknown validity. */
  lemma ActiveIs(row: Row, validAt: int, recordedAt: int, includeUnknown: bool)
    requires Known(row)
    ensures Active(row, validAt, recordedAt, includeUnknown) <==>
      && row.recorded.start <= recordedAt && (row.recorded.end.Some? ==> recordedAt < row.recorded.end.value)
      && (row.validityKnown ==> row.validFrom.value <= validAt && (row.validTo.Some? ==> validAt < row.validTo.value))
      && (!row.validityKnown ==> includeUnknown)
  {
  }

  /** On an accepted registry the documents of a result strictly ascend. */
  lemma ResultAscends(rows: seq<Row>, validAt: int, recordedAt: int, includeUnknown: bool, i: nat, j: nat)
    requires (forall row :: row in rows ==> TemporalRow(row)) && OneVersionAtATime(rows)
    requires forall row :: row in rows ==> Known(row)
    requires i < j < |Sort(Selected(rows, validAt, recordedAt, includeUnknown), ByIds)|
    ensures var r := Sort(Selected(rows, validAt, recordedAt, includeUnknown), ByIds); StrLt(r[i].documentId, r[j].documentId)
  {
    OneVersionAsOf(rows, validAt, recordedAt, includeUnknown);
    hide Selected, Sort, OneVersionAtATime, TemporalRow, StrLe;
    var r := Sort(Selected(rows, validAt, recordedAt, includeUnknown), ByIds);
    assert ByIds(r[i], r[j]) && r[i].documentId != r[j].documentId;
  }
}
