/** Streaming a relation in batches, after a check that its key column identifies its rows. */
module TableRead {
  import opened Sorting
  import opened Text

  const MAX_READ_BATCH_SIZE := 100000

  /** One row of a relation: its key column, NULL as `None`, and the fingerprint of its content,
      empty for content that cannot be published. */
  datatype RelationRow = RelationRow(key: Option<string>, fingerprint: string)

  datatype UpstreamRecord = UpstreamRecord(recordKey: string, fingerprint: string)

  function UpstreamKeys(records: seq<UpstreamRecord>): seq<string> {
    seq(|records|, i requires 0 <= i < |records| => records[i].recordKey)
  }

  /** The keyed rows, as records. */
  function Records(rows: seq<RelationRow>): seq<UpstreamRecord> {
    if rows == [] then []
    else
      var last := rows[|rows| - 1];
      Records(rows[..|rows| - 1]) + if last.key.Some? then [UpstreamRecord(last.key.value, last.fingerprint)] else []
  }

  /** What a probe of the key column finds. */
  function KeysOf(rows: seq<RelationRow>): set<string> {
    set row | row in rows && row.key.Some? :: row.key.value
  }

  // ----- The key domain -----

  /** `COUNTIF(key IS NULL)`. */
  function Nulls(rows: seq<RelationRow>): nat {
    if rows == [] then 0 else Nulls(rows[..|rows| - 1]) + if rows[|rows| - 1].key.None? then 1 else 0
  }

  /** `COUNT(key) - COUNT(DISTINCT key)`. */
  function Duplicates(rows: seq<RelationRow>): nat {
    var keys := UpstreamKeys(Records(rows));
    |keys| - |Dedup(keys)|
  }

  lemma RecordsSnoc(rows: seq<RelationRow>, row: RelationRow)
    ensures Records(rows + [row]) == Records(rows) + if row.key.Some? then [UpstreamRecord(row.key.value, row.fingerprint)] else []
  {
    assert (rows + [row])[..|rows|] == rows;
  }

  lemma {:induction false} RecordsAppend(a: seq<RelationRow>, b: seq<RelationRow>)
    ensures Records(a + b) == Records(a) + Records(b)
  {
    if b == [] {
      assert a + b == a;
    } else {
      var init, last := b[..|b| - 1], b[|b| - 1];
      assert b == init + [last];
      assert a + b == a + init + [last];
      RecordsAppend(a, init);
      RecordsSnoc(a + init, last);
      RecordsSnoc(init, last);
    }
  }

  /** Both counts are zero exactly when every row has a key and no key has two rows. */
  lemma {:induction false} KeyDomainIff(rows: seq<RelationRow>)
    ensures Nulls(rows) == 0 <==> forall row :: row in rows ==> row.key.Some?
    ensures Duplicates(rows) == 0 <==> Distinct(UpstreamKeys(Records(rows)))
  {
    DedupShrinks(UpstreamKeys(Records(rows)));
    if rows != [] {
      KeyDomainIff(rows[..|rows| - 1]);
      assert rows == rows[..|rows| - 1] + [rows[|rows| - 1]];
    }
  }

  ghost predicate KeyDomainValid(rows: seq<RelationRow>) {
    (forall row :: row in rows ==> row.key.Some?) && Distinct(UpstreamKeys(Records(rows)))
  }

  // ----- Any order of delivery -----

  /** The warehouse may deliver the rows in any order, in pages of any size. */
  ghost predicate Delivers(pages: seq<seq<RelationRow>>, rows: seq<RelationRow>) {
    multiset(Flatten(pages)) == multiset(rows)
  }

  lemma RecordCountSnoc(init: seq<RelationRow>, last: RelationRow, r: UpstreamRecord)
    requires multiset(Records(init))[r] == multiset(init)[RelationRow(Some(r.recordKey), r.fingerprint)]
    ensures multiset(Records(init + [last]))[r] == multiset(init + [last])[RelationRow(Some(r.recordKey), r.fingerprint)]
  {
    RecordsSnoc(init, last);
    hide *;
    if last.key.Some? {
      var record := UpstreamRecord(last.key.value, last.fingerprint);
      assert record == r <==> last == RelationRow(Some(r.recordKey), r.fingerprint);
    }
  }

  lemma NoRecords(r: UpstreamRecord)
    ensures multiset(Records([]))[r] == 0
  {
  }

  lemma {:induction false} RecordCount(rows: seq<RelationRow>, r: UpstreamRecord)
    ensures multiset(Records(rows))[r] == multiset(rows)[RelationRow(Some(r.recordKey), r.fingerprint)]
  {
    hide *;
    if rows == [] {
      NoRecords(r);
    } else {
      var init, last := rows[..|rows| - 1], rows[|rows| - 1];
      RecordCount(init, r);
      RecordCountSnoc(init, last, r);
      assert rows == init + [last];
    }
  }

  lemma SameRowsSameRecords(a: seq<RelationRow>, b: seq<RelationRow>)
    requires multiset(a) == multiset(b)
    ensures multiset(Records(a)) == multiset(Records(b))
  {
    forall r ensures multiset(Records(a))[r] == multiset(Records(b))[r] {
      RecordCount(a, r);
      RecordCount(b, r);
    }
  }

  /** The key identifies the record. */
  lemma KeysIdentify(records: seq<UpstreamRecord>)
    ensures Distinct(UpstreamKeys(records)) <==>
      Distinct(records) && forall a, b :: a in records && b in records && a.recordKey == b.recordKey ==> a == b
  {
    var keys := UpstreamKeys(records);
    assert forall i :: 0 <= i < |records| ==> keys[i] == records[i].recordKey;
    if Distinct(keys) {
      forall a, b | a in records && b in records && a.recordKey == b.recordKey
        ensures a == b
      {
        var i :| 0 <= i < |records| && records[i] == a;
        var j :| 0 <= j < |records| && records[j] == b;
        assert keys[i] == keys[j];
      }
    }
  }

  lemma KeysStayDistinct(a: seq<UpstreamRecord>, b: seq<UpstreamRecord>)
    requires multiset(a) == multiset(b) && Distinct(UpstreamKeys(a))
    ensures Distinct(UpstreamKeys(b)) && forall r :: r in a <==> r in b
  {
    KeysIdentify(a);
    KeysIdentify(b);
    DistinctTransfers(a, b);
    hide Distinct;
    forall r ensures r in a <==> r in b {
      assert r in multiset(a) <==> r in multiset(b);
    }
  }

  lemma {:induction false} KeysAreRecords(rows: seq<RelationRow>)
    ensures forall k :: k in KeysOf(rows) <==> exists r :: r in Records(rows) && r.recordKey == k
  {
    if rows != [] {
      var init, last := rows[..|rows| - 1], rows[|rows| - 1];
      assert rows == init + [last];
      KeysAreRecords(init);
      RecordsSnoc(init, last);
      assert KeysOf(rows) == KeysOf(init) + if last.key.Some? then {last.key.value} else {};
      if last.key.Some? {
        assert UpstreamRecord(last.key.value, last.fingerprint) in Records(rows);
      }
    }
  }

  // ----- The batches -----

  /** `projected.slice(offset, batch_size)` for every offset. */
  function Slices(page: seq<RelationRow>, size: nat): seq<seq<UpstreamRecord>>
    requires size > 0
  {
    if page == [] then []
    else if |page| <= size then [Records(page)]
    else [Records(page[..size])] + Slices(page[size..], size)
  }

  function Batches(pages: seq<seq<RelationRow>>, size: nat): seq<seq<UpstreamRecord>>
    requires size > 0
  {
    if pages == [] then [] else Batches(pages[..|pages| - 1], size) + Slices(pages[|pages| - 1], size)
  }

  lemma {:induction false} RecordsAtMost(rows: seq<RelationRow>)
    ensures |Records(rows)| <= |rows|
  {
    if rows != [] {
      RecordsAtMost(rows[..|rows| - 1]);
    }
  }

  lemma {:induction false} SlicesTile(page: seq<RelationRow>, size: nat)
    requires size > 0
    ensures Flatten(Slices(page, size)) == Records(page)
    ensures forall b :: b in Slices(page, size) ==> |b| <= size
  {
    if page == [] {
    } else if |page| <= size {
      RecordsAtMost(page);
      FlattenOne(Records(page));
    } else {
      var head, rest := page[..size], page[size..];
      SlicesTile(rest, size);
      RecordsAtMost(head);
      assert page == head + rest;
      RecordsAppend(head, rest);
      FlattenOne(Records(head));
      FlattenAppend([Records(head)], Slices(rest, size));
    }
  }

  /** The batches are the delivered rows, cut up, and none is larger than asked. */
  lemma {:induction false} BatchesTile(pages: seq<seq<RelationRow>>, size: nat)
    requires size > 0
    ensures Flatten(Batches(pages, size)) == Records(Flatten(pages))
    ensures forall b :: b in Batches(pages, size) ==> |b| <= size
  {
    if pages != [] {
      var init, last := pages[..|pages| - 1], pages[|pages| - 1];
      BatchesTile(init, size);
      SlicesTile(last, size);
      FlattenAppend(Batches(init, size), Slices(last, size));
      RecordsAppend(Flatten(init), last);
    }
  }

  /** Whatever the order of delivery, the batches carry the relation's records, every key once. */
  lemma BatchesCarryRelation(pages: seq<seq<RelationRow>>, rows: seq<RelationRow>, size: nat)
    requires size > 0 && Delivers(pages, rows) && KeyDomainValid(rows)
    ensures var records := Flatten(Batches(pages, size));
      && multiset(records) == multiset(Records(rows)) && Distinct(UpstreamKeys(records))
      && (forall r :: r in records <==> r in Records(rows))
  {
    BatchesTile(pages, size);
    SameRowsSameRecords(Flatten(pages), rows);
    KeysStayDistinct(Records(rows), Flatten(Batches(pages, size)));
  }

  lemma SlicesFrom(page: seq<RelationRow>, offset: nat, size: nat)
    requires size > 0 && offset < |page|
    ensures Slices(page[offset..], size) == [Records(Slice(page, offset, size))] + Slices(TailFrom(page, offset + size), size)
  {
    var rest := page[offset..];
    if |rest| > size {
      assert rest[..size] == Slice(page, offset, size) && rest[size..] == page[offset + size..];
    }
  }

  function TailFrom(page: seq<RelationRow>, offset: nat): seq<RelationRow> {
    if offset <= |page| then page[offset..] else []
  }

  /** The inner loop over the offsets of one page. */
  method SlicePage(page: seq<RelationRow>, size: nat) returns (slices: seq<seq<UpstreamRecord>>)
    requires size > 0
    ensures slices == Slices(page, size)
  {
    hide Records;
    slices := [];
    var offset := 0;
    assert page[0..] == page;
    while offset < |page|
      invariant slices + Slices(TailFrom(page, offset), size) == Slices(page, size)
      decreases |page| - offset
    {
      SlicesFrom(page, offset, size);
      slices := slices + [Records(Slice(page, offset, size))];
      offset := offset + size;
    }
  }

  /** `batches()` of a snapshot with a key column: the counts come with every row, and are looked
      at before the first batch is handed out. */
  method ReadBatches(relation: seq<RelationRow>, pages: seq<seq<RelationRow>>, size: nat)
    returns (batches: Option<seq<seq<UpstreamRecord>>>)
    requires Delivers(pages, relation)
    ensures batches.Some? <==> 1 <= size <= 100000 && KeyDomainValid(relation)
    ensures batches.Some? ==> batches.value == Batches(pages, size)
  {
    if !(1 <= size <= MAX_READ_BATCH_SIZE) {
      return None;
    }
    KeyDomainIff(relation);
    hide Distinct, Records, UpstreamKeys, Nulls, Duplicates, Delivers;
    var validated, read := false, [];
    for k := 0 to |pages|
      invariant read == Batches(pages[..k], size)
      invariant validated ==> KeyDomainValid(relation)
      invariant !validated ==> k == 0
    {
      var page := pages[k];
      if !validated {
        if Nulls(relation) != 0 || Duplicates(relation) != 0 {
          return None;
        }
        validated := true;
      }
      assert pages[..k + 1][..k] == pages[..k];
      var slices := SlicePage(page, size);
      read := read + slices;
    }
    assert pages[..|pages|] == pages;
    if pages == [] {
      NothingDelivered(relation);
    }
    return Some(read);
  }

  lemma NothingDelivered(relation: seq<RelationRow>)
    requires Delivers([], relation)
    ensures KeyDomainValid(relation)
  {
    assert |relation| == |multiset(relation)| == |multiset(Flatten<RelationRow>([]))| == 0;
  }

  function Start(size: nat, i: nat): nat { i * size }

  function SizeAt(length: int, size: nat, i: nat): int {
    if Start(size, i + 1) <= length then size else length - Start(size, i)
  }

  lemma SizeOfFirst(length: nat, size: nat)
    ensures Start(size, 0) == 0 && SizeAt(length, size, 0) == if size <= length then size else length
  {
  }

  lemma SizeOfLater(length: int, size: nat, i: nat)
    requires i > 0
    ensures SizeAt(length - size, size, i - 1) == SizeAt(length, size, i)
    ensures Start(size, i - 1) == Start(size, i) - size
  {
    assert (i - 1) * size == i * size - size && (i + 1) * size == i * size + size;
  }

  lemma SlicesUnfold(page: seq<RelationRow>, size: nat)
    requires size > 0 && page != []
    ensures Slices(page, size) == if |page| <= size then [Records(page)] else [Records(page[..size])] + Slices(page[size..], size)
  {
    hide Records;
  }

  lemma {:induction false} SliceSizes(page: seq<RelationRow>, size: nat, i: nat)
    requires size > 0 && EachKeyed(page) && page != [] && i < |Slices(page, size)|
    ensures Start(size, i) < |page| && |Slices(page, size)[i]| == SizeAt(|page|, size, i)
  {
    hide *;
    SlicesUnfold(page, size);
    SizeOfFirst(|page|, size);
    if |page| <= size {
      AllKeyed(page);
      assert i == 0;
    } else {
      PartsAreKeyed(page, size);
      var head, rest := page[..size], page[size..];
      if i == 0 {
        AllKeyed(head);
      } else {
        SliceSizes(rest, size, i - 1);
        SizeOfLater(|page|, size, i);
        assert Slices(page, size)[i] == Slices(rest, size)[i - 1];
      }
    }
  }

  /** Every batch of a page but the last is of the size asked for. */
  lemma SlicesAreFull(page: seq<RelationRow>, size: nat, i: nat)
    requires size > 0 && (forall row :: row in page ==> row.key.Some?) && i < |Slices(page, size)|
    ensures i * size < |page|
    ensures |Slices(page, size)[i]| == if (i + 1) * size <= |page| then size else |page| - i * size
  {
    SliceSizes(page, size, i);
  }

  ghost predicate EachKeyed(page: seq<RelationRow>) { forall row :: row in page ==> row.key.Some? }

  lemma PartsAreKeyed(page: seq<RelationRow>, size: nat)
    requires EachKeyed(page) && size <= |page|
    ensures EachKeyed(page[..size]) && EachKeyed(page[size..])
  {
  }

  lemma {:induction false} AllKeyed(rows: seq<RelationRow>)
    requires EachKeyed(rows)
    ensures |Records(rows)| == |rows|
  {
    if rows != [] {
      AllKeyed(rows[..|rows| - 1]);
    }
  }
}
