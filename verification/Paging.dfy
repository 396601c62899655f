/** Keyset paging over one warehouse snapshot with opaque cursors, and the loop that drives a
    reader to exhaustion while the warehouse goes on changing. */
module Paging {
  import opened Text
  import opened Sorting
  import opened Arithmetic
  import opened Utf8
  import opened Base64
  import opened StateStore
  import opened StateTable
  import opened TableRead

  // ----- Cursors -----

  const MAX_STATE_CURSOR_CHARS := 8192

  predicate ValidCursor(cursor: string) { 0 < |cursor| <= MAX_STATE_CURSOR_CHARS }

  /** `uuid4().hex`: never holds the colon that ends it in a cursor. */
  predicate IsNonce(nonce: string) { |nonce| == 32 && ':' !in nonce }

  function CursorText(nonce: string, lastKey: string): string { nonce + [':'] + Encode64(Encode(lastKey)) }

  /** `None` stands for the adapter error on a cursor that is too long. */
  function EncodeCursor(nonce: string, lastKey: string): Option<string> {
    if ValidCursor(CursorText(nonce, lastKey)) then Some(CursorText(nonce, lastKey)) else None
  }

  function FirstColon(s: string): (i: nat)
    ensures i <= |s| && (i < |s| ==> s[i] == ':') && forall j :: 0 <= j < i ==> s[j] != ':'
  {
    if s == "" || s[0] == ':' then 0 else 1 + FirstColon(s[1..])
  }

  /** The keyset position of a cursor; `None` for a cursor that is invalid, foreign or malformed. */
  function DecodeCursor(cursor: string, nonce: string): Option<string> {
    var i := FirstColon(cursor);
    if !ValidCursor(cursor) || i == |cursor| || cursor[..i] != nonce then None
    else
      match Decode64(cursor[i + 1..])
      case None => None
      case Some(payload) => Decode(payload)
  }

  lemma CursorParts(nonce: string, lastKey: string)
    requires ':' !in nonce
    ensures var cursor := CursorText(nonce, lastKey);
      && FirstColon(cursor) == |nonce| < |cursor| && cursor[..|nonce|] == nonce
      && cursor[|nonce| + 1..] == Encode64(Encode(lastKey))
  {
    var cursor := CursorText(nonce, lastKey);
    assert cursor[|nonce|] == ':';
    assert forall i :: 0 <= i < |nonce| ==> cursor[i] == nonce[i];
  }

  /** A reader gets back the key it put in a cursor, and refuses every other reader's cursor. */
  lemma CursorRoundTrip(nonce: string, other: string, lastKey: string)
    requires IsNonce(nonce) && IsNonce(other) && EncodeCursor(nonce, lastKey).Some?
    ensures DecodeCursor(EncodeCursor(nonce, lastKey).value, nonce) == Some(lastKey)
    ensures other != nonce ==> DecodeCursor(EncodeCursor(nonce, lastKey).value, other) == None
  {
    hide Decode, Decode64, Encode, Encode64;
    CursorParts(nonce, lastKey);
    Base64RoundTrip(Encode(lastKey));
    RoundTrip(lastKey);
  }

  /** A key fits a cursor exactly when its UTF-8 form has at most 6117 bytes. */
  lemma CursorFitsIff(nonce: string, lastKey: string)
    requires IsNonce(nonce)
    ensures EncodeCursor(nonce, lastKey).Some? <==> |Encode(lastKey)| <= 6117
  {
    hide Encode, Encode64;
    EncodedLength(Encode(lastKey));
    assert |CursorText(nonce, lastKey)| == 33 + (|Encode(lastKey)| + 2) / 3 * 4;
  }

  /** A key of 6118 one-byte characters is one too long. */
  lemma LongKeyDoesNotFit(nonce: string, lastKey: string)
    requires IsNonce(nonce) && |lastKey| == 6118 && forall i :: 0 <= i < |lastKey| ==> lastKey[i] < '\U{80}'
    ensures EncodeCursor(nonce, lastKey) == None
  {
    hide Encode, EncodeCursor;
    OneByteEach(lastKey);
    CursorFitsIff(nonce, lastKey);
  }

  lemma {:induction false} OneByteEach(s: string)
    requires forall i :: 0 <= i < |s| ==> s[i] < '\U{80}'
    ensures |Encode(s)| == |s|
  {
    if s != "" {
      OneByteEach(s[1..]);
    }
  }

  // ----- A warehouse that remembers -----

  datatype Probe = Probe(table: string, keyColumn: string)

  /** The rows of the state table and of the other relations by their key columns, at one moment. */
  datatype Snapshot = Snapshot(state: seq<StateRow>, relations: map<Probe, seq<RelationRow>>)

  class Warehouse {
    /** Every version so far; `FOR SYSTEM_TIME AS OF` reads an old one. */
    var history: seq<Snapshot>

    constructor (initial: Snapshot)
      ensures history == [initial]
    {
      history := [initial];
    }

    function Current(): Snapshot
      reads this
      requires history != []
    {
      history[|history| - 1]
    }

    /** One statement that changes the state table. */
    method Write(state: seq<StateRow>)
      requires history != []
      modifies this
      ensures history == old(history) + [old(Current()).(state := state)]
    {
      history := history + [Current().(state := state)];
    }

    /** Any statements by anyone, the caller included. */
    method Interfere()
      modifies this
      ensures old(history) <= history
    {
      var later: seq<Snapshot> := *;
      history := history + later;
    }
  }

  // ----- The page query -----

  /** A page record is a state record: the time of its last run is not modelled. */
  datatype Page = Page(records: seq<StateRecord>, nextCursor: Option<string>)

  predicate ByKey(a: StateRecord, b: StateRecord) { StrLe(a.recordKey, b.recordKey) }

  /** The relation and its column are there to be probed. */
  predicate Available(snapshot: Snapshot, probe: Option<Probe>) { probe.Some? ==> probe.value in snapshot.relations }

  /** The keys that still exist upstream; none without a probe. */
  function Upstream(snapshot: Snapshot, probe: Option<Probe>): set<string>
    requires Available(snapshot, probe)
  {
    if probe.None? then {} else KeysOf(snapshot.relations[probe.value])
  }

  /** The scope's rows whose key does not exist upstream. */
  function Matching(rows: seq<StateRow>, scope: StateScope, upstream: set<string>): seq<StateRecord> {
    if rows == [] then []
    else
      (if rows[0].scope == scope && rows[0].record.recordKey !in upstream then [rows[0].record] else [])
      + Matching(rows[1..], scope, upstream)
  }

  /** `record_key > last`, or everything before the first page. */
  predicate After(last: Option<string>, k: string) { last.None? || StrLt(last.value, k) }

  function Beyond(rows: seq<StateRecord>, last: Option<string>): (r: seq<StateRecord>)
    ensures |r| <= |rows|
  {
    if rows == [] then []
    else (if After(last, rows[0].recordKey) then [rows[0]] else []) + Beyond(rows[1..], last)
  }

  /** `ORDER BY record_key`. How the warehouse orders the rows of one key is open; every such order
      is that of some order of the table's rows, and no run asks for a key twice. */
  function Answer(snapshot: Snapshot, scope: StateScope, probe: Option<Probe>, last: Option<string>): seq<StateRecord>
    requires Available(snapshot, probe)
  {
    Sort(Beyond(Matching(snapshot.state, scope, Upstream(snapshot, probe)), last), ByKey)
  }

  lemma ByKeyOrder()
    ensures TotalPreorder(ByKey)
  {
    StrLeOrder();
    hide StrLe;
  }

  lemma {:induction false} BeyondHolds(rows: seq<StateRecord>, last: Option<string>)
    ensures forall r :: r in Beyond(rows, last) <==> r in rows && After(last, r.recordKey)
  {
    if rows != [] {
      BeyondHolds(rows[1..], last);
      assert forall r :: r in rows <==> r == rows[0] || r in rows[1..];
    }
  }

  lemma BeyondCons(x: StateRecord, rest: seq<StateRecord>, last: Option<string>)
    ensures Beyond([x] + rest, last) == (if After(last, x.recordKey) then [x] else []) + Beyond(rest, last)
  {
    assert ([x] + rest)[1..] == rest;
  }

  lemma InsertCons(x: StateRecord, y: StateRecord, rest: seq<StateRecord>)
    ensures Insert(x, [y] + rest, ByKey) == if ByKey(x, y) then [x] + ([y] + rest) else [y] + Insert(x, rest, ByKey)
  {
    assert ([y] + rest)[1..] == rest;
  }

  /** What comes first stays first among the rows beyond a key. */
  lemma InsertFirst(x: StateRecord, xs: seq<StateRecord>, last: Option<string>)
    requires SortedBy(xs, ByKey) && xs != [] && ByKey(x, xs[0])
    ensures Insert(x, Beyond(xs, last), ByKey) == [x] + Beyond(xs, last)
  {
    BeyondHolds(xs, last);
    ByKeyOrder();
    hide ByKey, After, Beyond;
    var rest := Beyond(xs, last);
    if rest != [] {
      assert rest[0] in rest;
      var i :| 0 <= i < |xs| && xs[i] == rest[0];
      assert ByKey(x, rest[0]) by { if i > 0 { assert ByKey(xs[0], xs[i]); } }
    }
  }

  lemma {:induction false} InsertBeyond(x: StateRecord, xs: seq<StateRecord>, last: Option<string>)
    requires SortedBy(xs, ByKey)
    ensures Beyond(Insert(x, xs, ByKey), last)
         == if After(last, x.recordKey) then Insert(x, Beyond(xs, last), ByKey) else Beyond(xs, last)
  {
    hide *;
    if xs == [] {
      InsertNothing(x);
      BeyondCons(x, [], last);
    } else {
      var y, rest := xs[0], xs[1..];
      assert xs == [y] + rest;
      assert SortedBy(rest, ByKey) by { SortedTail(xs); }
      InsertCons(x, y, rest);
      BeyondCons(y, rest, last);
      if ByKey(x, y) {
        assert [] + Beyond(xs, last) == Beyond(xs, last);
        BeyondCons(x, xs, last);
        InsertFirst(x, xs, last);
      } else {
        InsertBeyond(x, rest, last);
        BeyondCons(y, Insert(x, rest, ByKey), last);
        InsertCons(x, y, Beyond(rest, last));
        assert [] + Beyond(rest, last) == Beyond(rest, last);
        assert [] + Beyond(Insert(x, rest, ByKey), last) == Beyond(Insert(x, rest, ByKey), last);
      }
    }
  }

  lemma InsertNothing(x: StateRecord)
    ensures Insert(x, [], ByKey) == [x] == [x] + []
    ensures forall last :: Beyond([], last) == []
  {
  }

  lemma SortedTail(xs: seq<StateRecord>)
    requires xs != [] && SortedBy(xs, ByKey)
    ensures SortedBy(xs[1..], ByKey)
  {
  }

  lemma SortCons(x: StateRecord, rest: seq<StateRecord>)
    ensures Sort([x] + rest, ByKey) == Insert(x, Sort(rest, ByKey), ByKey)
  {
    assert ([x] + rest)[1..] == rest;
  }

  /** Selecting and sorting commute. */
  lemma {:induction false} SortBeyond(xs: seq<StateRecord>, last: Option<string>)
    ensures Sort(Beyond(xs, last), ByKey) == Beyond(Sort(xs, ByKey), last)
  {
    if xs != [] {
      var x, rest := xs[0], xs[1..];
      SortBeyond(rest, last);
      ByKeyOrder();
      SortSorts(rest, ByKey);
      hide *;
      assert xs == [x] + rest && [] + Beyond(rest, last) == Beyond(rest, last);
      InsertBeyond(x, Sort(rest, ByKey), last);
      SortCons(x, rest);
      BeyondCons(x, rest, last);
      SortCons(x, Beyond(rest, last));
    }
  }

  // ----- The reader -----

  const MAX_STATE_PAGE_SIZE := 100000

  /** What `fetch_page` lets through: well-formed records, strictly ascending keys, and on a full
      page a last key that fits a cursor. */
  predicate Accepted(page: seq<StateRecord>, pageSize: nat, nonce: string) {
    && (forall r :: r in page ==> r.WellFormed())
    && (forall i :: 0 < i < |page| ==> StrLt(page[i - 1].recordKey, page[i].recordKey))
    && (page != [] && |page| == pageSize ==> EncodeCursor(nonce, page[|page| - 1].recordKey).Some?)
  }

  function NextCursor(page: seq<StateRecord>, pageSize: nat, nonce: string): Option<string> {
    if page != [] && |page| == pageSize then EncodeCursor(nonce, page[|page| - 1].recordKey) else None
  }

  class StatePageReader {
    const warehouse: Warehouse
    const at: nat
    const scope: StateScope
    const probe: Option<Probe>
    const pageSize: nat
    const nonce: string
    var closed: bool

    predicate Valid()
      reads this, warehouse
    {
      at < |warehouse.history| && Available(warehouse.history[at], probe) && pageSize >= 1 && IsNonce(nonce)
    }

    /** The snapshot this reader is pinned to. */
    function Pinned(): Snapshot
      reads warehouse
      requires at < |warehouse.history|
    {
      warehouse.history[at]
    }

    /** All rows this reader has to show, in order. */
    function Rows(): seq<StateRecord>
      reads this, warehouse
      requires Valid()
    {
      Answer(Pinned(), scope, probe, None)
    }

    constructor (warehouse: Warehouse, scope: StateScope, probe: Option<Probe>, pageSize: nat, nonce: string)
      requires warehouse.history != [] && pageSize >= 1 && IsNonce(nonce)
      requires Available(warehouse.Current(), probe)
      ensures Valid() && !closed
      ensures this.warehouse == warehouse && this.at == |warehouse.history| - 1 && this.scope == scope
      ensures this.probe == probe && this.pageSize == pageSize && this.nonce == nonce
    {
      this.warehouse, this.at, this.scope := warehouse, |warehouse.history| - 1, scope;
      this.probe, this.pageSize, this.nonce, closed := probe, pageSize, nonce, false;
    }

    /** `fetch_page`; `None` stands for an adapter error. */
    method FetchPage(cursor: Option<string>) returns (page: Option<Page>)
      requires Valid()
      ensures page.Some? ==> !closed && (cursor.Some? ==> DecodeCursor(cursor.value, nonce).Some?)
      ensures !closed && (cursor.Some? ==> DecodeCursor(cursor.value, nonce).Some?) ==>
        var last := if cursor.None? then None else DecodeCursor(cursor.value, nonce);
        var records := FirstN(Answer(Pinned(), scope, probe, last), pageSize);
        && (page.Some? <==> Accepted(records, pageSize, nonce))
        && (page.Some? ==> page.value == Page(records, NextCursor(records, pageSize, nonce)))
    {
      hide DecodeCursor, EncodeCursor, Answer;
      if closed { return None; }
      if cursor.Some? && DecodeCursor(cursor.value, nonce).None? { return None; }
      var last := if cursor.None? then None else DecodeCursor(cursor.value, nonce);
      var rows := FirstN(Answer(Pinned(), scope, probe, last), pageSize);
      var records: seq<StateRecord> := [];
      for k := 0 to |rows|
        invariant records == rows[..k] && forall r :: r in rows[..k] ==> r.WellFormed()
      {
        if !rows[k].WellFormed() { return None; }
        records := records + [rows[k]];
      }
      assert records == rows;
      var next: Option<string> := None;
      if |records| == pageSize {
        next := EncodeCursor(nonce, records[|records| - 1].recordKey);
        if next.None? { return None; }
      }
      if |records| > pageSize { return None; }
      var previous: Option<string> := None;
      for i := 0 to |records|
        invariant previous == if i == 0 then None else Some(records[i - 1].recordKey)
        invariant forall j :: 0 < j < i ==> StrLt(records[j - 1].recordKey, records[j].recordKey)
      {
        if !After(previous, records[i].recordKey) { return None; }
        previous := Some(records[i].recordKey);
      }
      return Some(Page(records, next));
    }

    method Close()
      modifies this
      ensures closed
    {
      closed := true;
    }
  }

  /** `state_page_reader`: refused on a page size out of range and on a relation or column that is
      not there to be probed. */
  method OpenStatePageReader(warehouse: Warehouse, scope: StateScope, probe: Option<Probe>, pageSize: nat, nonce: string)
    returns (reader: Option<StatePageReader>)
    requires warehouse.history != [] && IsNonce(nonce)
    ensures reader.Some? <==> 1 <= pageSize <= 100000 && Available(warehouse.Current(), probe)
    ensures reader.Some? ==>
      var r := reader.value;
      && fresh(r) && r.Valid() && !r.closed && r.warehouse == warehouse && r.at == |warehouse.history| - 1
      && r.scope == scope && r.probe == probe && r.pageSize == pageSize && r.nonce == nonce
  {
    if !(1 <= pageSize <= MAX_STATE_PAGE_SIZE) || !Available(warehouse.Current(), probe) {
      return None;
    }
    var r := new StatePageReader(warehouse, scope, probe, pageSize, nonce);
    return Some(r);
  }

  lemma {:induction false} BeyondNothing(rows: seq<StateRecord>)
    ensures Beyond(rows, None) == rows
  {
    if rows != [] {
      BeyondNothing(rows[1..]);
    }
  }

  lemma {:induction false} BeyondTwice(rows: seq<StateRecord>, first: string, second: string)
    requires StrLt(first, second)
    ensures Beyond(Beyond(rows, Some(first)), Some(second)) == Beyond(rows, Some(second))
  {
    if rows != [] {
      var x, rest := rows[0], rows[1..];
      BeyondTwice(rest, first, second);
      assert After(Some(second), x.recordKey) ==> After(Some(first), x.recordKey) by {
        StrLeOrder();
        hide StrLe;
      }
      hide After;
      BeyondCons(x, Beyond(rest, Some(first)), Some(second));
      assert [] + Beyond(rest, Some(first)) == Beyond(rest, Some(first));
    }
  }

  /** The page query after a key continues the answer where that key ends. */
  lemma AnswerBeyond(snapshot: Snapshot, scope: StateScope, probe: Option<Probe>, last: Option<string>)
    requires Available(snapshot, probe)
    ensures Answer(snapshot, scope, probe, last) == Beyond(Answer(snapshot, scope, probe, None), last)
  {
    var rows := Matching(snapshot.state, scope, Upstream(snapshot, probe));
    hide Beyond, Matching, Sort;
    SortBeyond(rows, last);
    BeyondNothing(rows);
  }

  // ----- Driving a reader to exhaustion -----

  /** What is left after the first page; `None` after a page that was not full. */
  function Rest(rows: seq<StateRecord>, pageSize: nat): (rest: Option<seq<StateRecord>>)
    requires pageSize >= 1
    ensures rest.Some? ==> |rest.value| < |rows|
  {
    if |rows| < pageSize then None
    else
      BeyondShrinks(rows, pageSize - 1);
      Some(Beyond(rows, Some(rows[pageSize - 1].recordKey)))
  }

  lemma {:induction false} BeyondShrinks(rows: seq<StateRecord>, i: nat)
    requires i < |rows|
    ensures |Beyond(rows, Some(rows[i].recordKey))| < |rows|
  {
    if i > 0 {
      BeyondShrinksMore(rows[1..], i - 1, rows[i].recordKey);
    }
  }

  lemma {:induction false} BeyondShrinksMore(rows: seq<StateRecord>, i: nat, key: string)
    requires i < |rows| && rows[i].recordKey == key
    ensures |Beyond(rows, Some(key))| < |rows|
  {
    if i > 0 {
      BeyondShrinksMore(rows[1..], i - 1, key);
    }
  }

  /** Every page fetched is let through. */
  ghost predicate Passes(rows: seq<StateRecord>, pageSize: nat, nonce: string)
    requires pageSize >= 1
    decreases |rows|
  {
    Accepted(FirstN(rows, pageSize), pageSize, nonce) && (|rows| >= pageSize ==> Passes(Rest(rows, pageSize).value, pageSize, nonce))
  }

  /** The records of all pages. */
  function Fetched(rows: seq<StateRecord>, pageSize: nat): seq<StateRecord>
    requires pageSize >= 1
    decreases |rows|
  {
    FirstN(rows, pageSize) + match Rest(rows, pageSize) case Some(rest) => Fetched(rest, pageSize) case None => []
  }

  function FetchesFor(rows: seq<StateRecord>, pageSize: nat): nat
    requires pageSize >= 1
    decreases |rows|
  {
    1 + match Rest(rows, pageSize) case Some(rest) => FetchesFor(rest, pageSize) case None => 0
  }

  /** Where a run stands: what is left decides, and completes, the whole. */
  ghost predicate Onward(rows: seq<StateRecord>, pageSize: nat, nonce: string,
                         left: Option<seq<StateRecord>>, done: seq<StateRecord>, fetches: nat)
    requires pageSize >= 1
  {
    match left
    case Some(todo) =>
      && (Passes(rows, pageSize, nonce) <==> Passes(todo, pageSize, nonce))
      && Fetched(rows, pageSize) == done + Fetched(todo, pageSize)
      && FetchesFor(rows, pageSize) == fetches + FetchesFor(todo, pageSize)
    case None =>
      Passes(rows, pageSize, nonce) && Fetched(rows, pageSize) == done && FetchesFor(rows, pageSize) == fetches
  }

  lemma OnwardStarts(rows: seq<StateRecord>, pageSize: nat, nonce: string)
    requires pageSize >= 1
    ensures Onward(rows, pageSize, nonce, Some(rows), [], 0)
  {
    hide Passes, Fetched, FetchesFor;
    assert [] + Fetched(rows, pageSize) == Fetched(rows, pageSize);
  }

  lemma OnwardStep(rows: seq<StateRecord>, pageSize: nat, nonce: string, left: seq<StateRecord>, done: seq<StateRecord>, fetches: nat)
    requires pageSize >= 1 && Onward(rows, pageSize, nonce, Some(left), done, fetches)
    ensures done <= Fetched(rows, pageSize)
    ensures var page := FirstN(left, pageSize);
      && (page == [] ==> Rest(left, pageSize) == None)
      && if Accepted(page, pageSize, nonce) then Onward(rows, pageSize, nonce, Rest(left, pageSize), done + page, fetches + 1)
         else !Passes(rows, pageSize, nonce)
  {
    hide Accepted, Beyond;
    var page, tail := FirstN(left, pageSize), Fetched(left, pageSize);
    assert tail == page + if Rest(left, pageSize).Some? then Fetched(Rest(left, pageSize).value, pageSize) else [];
    assert done + tail == done + page + tail[|page|..];
    assert page + [] == page && done + page + [] == done + page;
  }

  lemma OnwardDone(rows: seq<StateRecord>, pageSize: nat, nonce: string,
                   left: Option<seq<StateRecord>>, done: seq<StateRecord>, fetches: nat)
    requires pageSize >= 1 && Onward(rows, pageSize, nonce, left, done, fetches)
    ensures done <= Fetched(rows, pageSize)
  {
    hide Passes, Fetched, FetchesFor;
  }

  lemma OnwardEnds(rows: seq<StateRecord>, pageSize: nat, nonce: string, done: seq<StateRecord>, fetches: nat)
    requires pageSize >= 1 && Onward(rows, pageSize, nonce, None, done, fetches)
    ensures Passes(rows, pageSize, nonce) && Fetched(rows, pageSize) == done && FetchesFor(rows, pageSize) == fetches
  {
    hide Passes, Fetched, FetchesFor;
  }

  datatype Pulled = Yield(records: seq<StateRecord>) | Exhausted | Failed

  /** The generator `iter_validated_state_pages` between two of its steps. */
  class PageStream {
    const reader: StatePageReader
    var started: bool
    var ended: bool
    /** The cursor of the last fetch, and the one its page carried. */
    var cursor: Option<string>
    var next: Option<string>
    var lastKey: Option<string>
    var fetches: nat
    /** The key behind `cursor`. */
    ghost var before: string
    /** The rows still to be fetched; `None` once the final page was. */
    ghost var left: Option<seq<StateRecord>>
    /** All rows of the run, and those yielded so far. */
    ghost const all: seq<StateRecord>
    ghost var done: seq<StateRecord>

    ghost predicate Valid()
      reads this, reader, reader.warehouse
    {
      Core() && all == reader.Rows() && Onward(all, reader.pageSize, reader.nonce, left, done, fetches)
    }

    ghost predicate Core()
      reads this, reader, reader.warehouse
    {
      && reader.Valid() && !reader.closed
      && if ended then left == None
         else if !started then cursor == None && lastKey == None && left == Some(reader.Rows())
         else
           && lastKey.Some? && (next == None ==> left == None)
           && (next.Some? ==> next == EncodeCursor(reader.nonce, lastKey.value) && left == Some(Beyond(reader.Rows(), lastKey)))
           && (cursor.Some? ==> cursor == EncodeCursor(reader.nonce, before) && StrLt(before, lastKey.value))
    }

    constructor (reader: StatePageReader)
      requires reader.Valid() && !reader.closed
      ensures Valid() && this.reader == reader && all == reader.Rows() && done == [] && fetches == 0
    {
      this.reader, started, ended, cursor, next, lastKey, fetches := reader, false, false, None, None, None, 0;
      left, done, all := Some(reader.Rows()), [], reader.Rows();
      new;
      OnwardStarts(all, reader.pageSize, reader.nonce);
    }

    /** How far it is to the end. */
    ghost function ToGo(): nat
      reads this
    {
      if left.Some? then |left.value| + 1 else 0
    }

    /** At the head of the loop, `cursor` about to be fetched. */
    ghost predicate AtFetch()
      reads this, reader, reader.warehouse
    {
      && reader.Valid() && !reader.closed && !ended
      && left == Some(Beyond(reader.Rows(), lastKey))
      && (lastKey == None ==> cursor == None)
      && (lastKey.Some? ==> cursor.Some? && cursor == EncodeCursor(reader.nonce, lastKey.value) && before == lastKey.value)
    }

    /** From the start or from a `yield` to the head of the loop, or to the end. */
    method Resume() returns (ends: Option<Pulled>)
      requires Core()
      modifies this
      ensures left == old(left) && done == old(done) && fetches == old(fetches)
      ensures old(left) == None ==> Core() && ends == Some(Exhausted)
      ensures old(left).Some? ==> ends == None && AtFetch()
    {
      hide EncodeCursor, IsNonce, Answer, Beyond, StrLt, Available;
      BeyondNothing(reader.Rows());
      if ended { return Some(Exhausted); }
      if started {
        if next.None? {
          ended := true;
          return Some(Exhausted);
        }
        if cursor.Some? {
          CursorsDiffer(reader.nonce, before, lastKey.value);
        }
        if next == cursor { return Some(Failed); }
        cursor := next;
        before := lastKey.value;
      }
      return None;
    }

    /** From the head of the loop to the next `yield`, the end, or an error. */
    method Fetch() returns (r: Pulled)
      requires AtFetch()
      modifies this
      ensures Core() && fetches == old(fetches) + 1 && done == old(done) + if r.Yield? then r.records else []
      ensures var page := FirstN(old(left).value, reader.pageSize);
        && (r == Failed <==> !Accepted(page, reader.pageSize, reader.nonce))
        && (r != Failed ==> r == (if page == [] then Exhausted else Yield(page)) && left == Rest(old(left).value, reader.pageSize))
    {
      hide EncodeCursor, DecodeCursor, IsNonce, Answer, Beyond, StrLt, Available, Accepted, NextCursor, Rest, FirstN;
      if lastKey.Some? {
        CursorRoundTrip(reader.nonce, reader.nonce, lastKey.value);
      }
      AnswerBeyond(reader.Pinned(), reader.scope, reader.probe, lastKey);
      var fetched := reader.FetchPage(cursor);
      fetches := fetches + 1;
      if fetched.None? {
        ended, left := true, None;
        return Failed;
      }
      var page := fetched.value;
      PageAdvances(reader.Rows(), lastKey, reader.pageSize, reader.nonce);
      left := Rest(left.value, reader.pageSize);
      if page.records == [] {
        ended := true;
        return if page.nextCursor == None then Exhausted else Failed;
      }
      if lastKey.Some? && !StrLt(lastKey.value, page.records[0].recordKey) { return Failed; }
      started, lastKey, next := true, Some(page.records[|page.records| - 1].recordKey), page.nextCursor;
      done := done + page.records;
      return Yield(page.records);
    }

    /** `next()` on the generator: a page that was let through, the end of a run that passes, or the
        error that shows that it does not. */
    method Pull() returns (r: Pulled)
      requires Valid()
      modifies this
      ensures r != Failed ==> Valid()
      ensures done == old(done) + if r.Yield? then r.records else []
      ensures done <= Fetched(all, reader.pageSize)
      ensures r == Failed ==> !Passes(all, reader.pageSize, reader.nonce)
      ensures r == Exhausted ==> Passes(all, reader.pageSize, reader.nonce)
      ensures r == Exhausted ==> done == Fetched(all, reader.pageSize) && fetches == FetchesFor(all, reader.pageSize)
      ensures r.Yield? ==> r.records != [] && Accepted(r.records, reader.pageSize, reader.nonce) && ToGo() < old(ToGo())
    {
      hide *;
      Unfold();
      LengthToGo();
      var ends := Resume();
      if ends.Some? {
        OnwardEnds(all, reader.pageSize, reader.nonce, done, fetches);
        Keep();
        assert done + [] == done;
        return ends.value;
      }
      ghost var before := left.value;
      OnwardStep(all, reader.pageSize, reader.nonce, before, done, fetches);
      RestShrinks(before, reader.pageSize);
      ghost var page := FirstN(before, reader.pageSize);
      assert done + [] == done && (page == [] ==> done + page == done);
      r := Fetch();
      if r != Failed {
        Keep();
        OnwardDone(all, reader.pageSize, reader.nonce, left, done, fetches);
        LengthToGo();
        if r == Exhausted {
          OnwardEnds(all, reader.pageSize, reader.nonce, done, fetches);
        }
      }
    }

    lemma LengthToGo()
      ensures ToGo() == if left.Some? then |left.value| + 1 else 0
    {
    }

    lemma Unfold()
      requires Valid()
      ensures Core() && reader.Valid() && reader.pageSize >= 1
      ensures all == reader.Rows() && Onward(all, reader.pageSize, reader.nonce, left, done, fetches)
    {
    }

    lemma Keep()
      requires Core() && all == reader.Rows() && Onward(all, reader.pageSize, reader.nonce, left, done, fetches)
      ensures Valid()
    {
    }
  }

  lemma RestShrinks(rows: seq<StateRecord>, pageSize: nat)
    requires pageSize >= 1
    ensures Rest(rows, pageSize).Some? ==> |Rest(rows, pageSize).value| < |rows|
  {
  }

  lemma {:induction false} LastIsBeyond(page: seq<StateRecord>, last: Option<string>)
    requires page != [] && After(last, page[0].recordKey)
    requires forall i :: 0 < i < |page| ==> StrLt(page[i - 1].recordKey, page[i].recordKey)
    ensures After(last, page[|page| - 1].recordKey)
  {
    if |page| > 1 {
      var init := page[..|page| - 1];
      LastIsBeyond(init, last);
      StrLeOrder();
      hide StrLe;
      assert StrLt(page[|page| - 2].recordKey, page[|page| - 1].recordKey);
    }
  }

  /** What an accepted page says about the rows left after it. */
  lemma PageAdvances(all: seq<StateRecord>, last: Option<string>, pageSize: nat, nonce: string)
    requires pageSize >= 1 && Accepted(FirstN(Beyond(all, last), pageSize), pageSize, nonce)
    ensures var rows := Beyond(all, last);
      var page, rest := FirstN(rows, pageSize), Rest(rows, pageSize);
      && (page == [] ==> rest == None && NextCursor(page, pageSize, nonce) == None)
      && (page != [] ==>
            var key := page[|page| - 1].recordKey;
            && After(last, page[0].recordKey) && After(last, key)
            && (NextCursor(page, pageSize, nonce) == None ==> rest == None)
            && (NextCursor(page, pageSize, nonce).Some? ==>
                  NextCursor(page, pageSize, nonce) == EncodeCursor(nonce, key) && rest == Some(Beyond(all, Some(key)))))
  {
    hide Beyond, StrLt, EncodeCursor;
    var rows := Beyond(all, last);
    var page := FirstN(rows, pageSize);
    BeyondHolds(all, last);
    if page != [] {
      assert page[0] == rows[0] && rows[0] in rows;
      LastIsBeyond(page, last);
      if last.Some? {
        BeyondTwice(all, last.value, page[|page| - 1].recordKey);
      } else {
        BeyondNothing(all);
      }
    }
  }

  lemma CursorsDiffer(nonce: string, a: string, b: string)
    requires IsNonce(nonce) && StrLt(a, b) && EncodeCursor(nonce, a).Some?
    ensures EncodeCursor(nonce, a) != EncodeCursor(nonce, b)
  {
    CursorRoundTrip(nonce, nonce, a);
    if EncodeCursor(nonce, b).Some? {
      CursorRoundTrip(nonce, nonce, b);
    }
  }

  /** Drive a reader to exhaustion, its consumer and everybody else changing the warehouse after
      every page. It succeeds exactly when every page is let through, and then has yielded the
      records of all pages. */
  method Drive(reader: StatePageReader) returns (pages: seq<seq<StateRecord>>, ok: bool, fetches: nat)
    requires reader.Valid() && !reader.closed
    modifies reader.warehouse
    ensures old(reader.warehouse.history) <= reader.warehouse.history
    ensures var rows := old(reader.Rows());
      && (ok <==> Passes(rows, reader.pageSize, reader.nonce))
      && (ok ==> Flatten(pages) == Fetched(rows, reader.pageSize) && fetches == FetchesFor(rows, reader.pageSize))
      && Flatten(pages) <= Fetched(rows, reader.pageSize)
    ensures forall page :: page in pages ==> page != []
  {
    hide Accepted, Beyond, Answer, Available, IsNonce, EncodeCursor, Onward, Passes, Fetched, FetchesFor, Flatten, Rest, FirstN;
    var stream := new PageStream(reader);
    pages := [];
    NothingFlat();
    while true
      invariant stream.Valid() && stream.reader == reader && fresh(stream) && stream.all == old(reader.Rows())
      invariant old(reader.warehouse.history) <= reader.warehouse.history
      invariant Flatten(pages) == stream.done && forall page :: page in pages ==> page != []
      decreases stream.ToGo()
    {
      var pulled := stream.Pull();
      match pulled
      case Failed => return pages, false, stream.fetches;
      case Exhausted => return pages, true, stream.fetches;
      case Yield(page) =>
        FlattenSnoc(pages, page);
        pages := pages + [page];
        reader.warehouse.Interfere();
    }
  }

  lemma NothingFlat()
    ensures Flatten<StateRecord>([]) == []
  {
  }

  lemma {:induction false} FetchedMembers(rows: seq<StateRecord>, pageSize: nat)
    requires pageSize >= 1
    ensures forall r :: r in Fetched(rows, pageSize) ==> r in rows
    decreases |rows|
  {
    if |rows| >= pageSize {
      var last := Some(rows[pageSize - 1].recordKey);
      BeyondHolds(rows, last);
      FetchedMembers(Rest(rows, pageSize).value, pageSize);
    }
  }

  lemma PageOff(rows: seq<StateRecord>, pageSize: nat, nonce: string)
    requires 1 <= pageSize <= |rows|
    ensures var rest := Rest(rows, pageSize).value;
      && (Passes(rows, pageSize, nonce) ==> Passes(rest, pageSize, nonce))
      && Fetched(rows, pageSize) == FirstN(rows, pageSize) + Fetched(rest, pageSize)
      && FetchesFor(rows, pageSize) == 1 + FetchesFor(rest, pageSize)
  {
  }

  // ----- Which tables pass -----

  function KeySet(rows: seq<StateRecord>): set<string> { set r | r in rows :: r.recordKey }

  predicate Strict(rows: seq<StateRecord>) {
    forall i :: 0 < i < |rows| ==> StrLt(rows[i - 1].recordKey, rows[i].recordKey)
  }

  /** The rows of one key, in order. */
  function Under(rows: seq<StateRecord>, key: string): seq<StateRecord> {
    if rows == [] then [] else (if rows[0].recordKey == key then [rows[0]] else []) + Under(rows[1..], key)
  }

  lemma {:induction false} StrictPairs(rows: seq<StateRecord>, i: nat, j: nat)
    requires Strict(rows) && i < j < |rows|
    ensures StrLt(rows[i].recordKey, rows[j].recordKey)
    decreases j
  {
    hide StrLe;
    if i + 1 < j {
      StrictPairs(rows, i, j - 1);
      assert StrLt(rows[j - 1].recordKey, rows[j].recordKey);
      StrChain(rows[i].recordKey, rows[j - 1].recordKey, rows[j].recordKey);
    }
  }

  lemma StrictLists(rows: seq<StateRecord>)
    requires Strict(rows)
    ensures Lists(RecordKeys(rows), KeySet(rows))
  {
    var keys := RecordKeys(rows);
    forall i, j | 0 <= i < j < |keys|
      ensures keys[i] != keys[j] && StrLe(keys[i], keys[j])
    {
      StrictPairs(rows, i, j);
    }
    hide Strict, StrLe;
    forall k ensures k in keys <==> k in KeySet(rows) {
      if k in KeySet(rows) {
        var r :| r in rows && r.recordKey == k;
        var i :| 0 <= i < |rows| && rows[i] == r;
        assert keys[i] == k;
      }
    }
  }

  lemma UnderCons(x: StateRecord, rest: seq<StateRecord>, key: string)
    ensures Under([x] + rest, key) == (if x.recordKey == key then [x] else []) + Under(rest, key)
  {
    assert ([x] + rest)[1..] == rest;
  }

  lemma {:induction false} UnderAppend(a: seq<StateRecord>, b: seq<StateRecord>, key: string)
    ensures Under(a + b, key) == Under(a, key) + Under(b, key)
  {
    if a == [] {
      assert a + b == b;
    } else {
      var x, rest := a[0], a[1..];
      UnderAppend(rest, b, key);
      UnderCons(x, rest, key);
      UnderCons(x, rest + b, key);
      ConsAppend(a, b);
      hide *;
      var head := if x.recordKey == key then [x] else [];
      assert head + (Under(rest, key) + Under(b, key)) == head + Under(rest, key) + Under(b, key);
    }
  }

  lemma {:induction false} UnderNone(rows: seq<StateRecord>, key: string)
    ensures Under(rows, key) == [] <==> forall r :: r in rows ==> r.recordKey != key
  {
    if rows != [] {
      UnderNone(rows[1..], key);
      assert rows == [rows[0]] + rows[1..];
    }
  }

  lemma {:induction false} UnderBeyond(rows: seq<StateRecord>, last: Option<string>, key: string)
    requires After(last, key)
    ensures Under(Beyond(rows, last), key) == Under(rows, key)
  {
    if rows != [] {
      var x, rest := rows[0], rows[1..];
      UnderBeyond(rest, last, key);
      UnderCons(x, rest, key);
      UnderCons(x, Beyond(rest, last), key);
      BeyondCons(x, rest, last);
      hide *;
      assert rows == [x] + rest;
      if After(last, x.recordKey) {
      } else {
        assert [] + Beyond(rest, last) == Beyond(rest, last) && [] + Under(rest, key) == Under(rest, key);
      }
    }
  }

  /** A strictly ascending head of sorted rows, cut anywhere: its keys are the smallest, the first
      row of each is the one in the head, and only the last may go on behind the cut. */
  lemma HeadOfSorted(rows: seq<StateRecord>, n: nat)
    requires SortedBy(rows, ByKey) && 0 < n <= |rows| && Strict(rows[..n])
    ensures var rest := Beyond(rows, Some(rows[n - 1].recordKey));
      && SortedBy(rest, ByKey)
      && KeySet(rows) == KeySet(rows[..n]) + KeySet(rest)
      && Ascending(KeySet(rows)) == RecordKeys(rows[..n]) + Ascending(KeySet(rest))
    ensures forall i :: 0 <= i < n ==> Under(rows, rows[i].recordKey) != [] && Under(rows, rows[i].recordKey)[0] == rows[i]
    ensures forall i :: 0 <= i < n && (i < n - 1 || n == |rows|) ==> |Under(rows, rows[i].recordKey)| == 1
  {
    var head, last := rows[..n], Some(rows[n - 1].recordKey);
    var rest := Beyond(rows, last);
    HeadKeys(rows, n);
    BeyondSorted(rows, last);
    StrictLists(head);
    BeyondHolds(rows, last);
    forall x, y | x in RecordKeys(head) && y in Ascending(KeySet(rest))
      ensures StrLt(x, y)
    {
      hide Beyond, Strict, StrLe;
      assert y in KeySet(rest);
      var r :| r in rest && r.recordKey == y;
      var i := KeyAt(head, x);
      HeadBelow(rows, n, i, y);
    }
    ListsJoin(RecordKeys(head), Ascending(KeySet(rest)), KeySet(head), KeySet(rest));
    AscendingIs(RecordKeys(head) + Ascending(KeySet(rest)), KeySet(rows));
    forall i | 0 <= i < n
      ensures Under(rows, rows[i].recordKey) != [] && Under(rows, rows[i].recordKey)[0] == rows[i]
      ensures i < n - 1 || n == |rows| ==> |Under(rows, rows[i].recordKey)| == 1
    {
      UnderHead(rows, n, i);
    }
  }

  lemma BeyondSorted(rows: seq<StateRecord>, last: Option<string>)
    requires SortedBy(rows, ByKey)
    ensures SortedBy(Beyond(rows, last), ByKey)
  {
    if rows != [] {
      SortedTail(rows);
      BeyondSorted(rows[1..], last);
      BeyondHolds(rows[1..], last);
      hide ByKey, After;
      var rest := Beyond(rows[1..], last);
      forall i | 0 <= i < |rest|
        ensures ByKey(rows[0], rest[i])
      {
        assert rest[i] in rest;
        HeadFirst(rows, rest[i]);
      }
    }
  }

  lemma HeadFirst(rows: seq<StateRecord>, r: StateRecord)
    requires rows != [] && SortedBy(rows, ByKey) && r in rows[1..]
    ensures ByKey(rows[0], r)
  {
    hide ByKey;
    var j :| 0 <= j < |rows[1..]| && rows[1..][j] == r;
    assert rows[j + 1] == r;
  }

  lemma HeadKeys(rows: seq<StateRecord>, n: nat)
    requires SortedBy(rows, ByKey) && 0 < n <= |rows|
    ensures KeySet(rows) == KeySet(rows[..n]) + KeySet(Beyond(rows, Some(rows[n - 1].recordKey)))
  {
    var last := rows[n - 1];
    BeyondHolds(rows, Some(last.recordKey));
    forall r | r in rows
      ensures r in rows[..n] || r.recordKey == last.recordKey || StrLt(last.recordKey, r.recordKey)
    {
      var i :| 0 <= i < |rows| && rows[i] == r;
      if i >= n {
        assert ByKey(rows[n - 1], rows[i]);
      } else {
        assert rows[..n][i] == r;
      }
    }
    hide StrLe, Beyond;
    assert rows[..n][n - 1] == last;
    forall r | r in rows[..n] ensures r in rows { }
  }

  lemma HeadBelow(rows: seq<StateRecord>, n: nat, i: nat, key: string)
    requires i < n <= |rows| && Strict(rows[..n]) && StrLt(rows[n - 1].recordKey, key)
    ensures StrLt(rows[i].recordKey, key)
  {
    hide StrLe, Strict;
    if i < n - 1 {
      StrictPairs(rows[..n], i, n - 1);
      StrChain(rows[i].recordKey, rows[n - 1].recordKey, key);
    }
  }

  lemma KeyAt(rows: seq<StateRecord>, key: string) returns (i: nat)
    requires key in RecordKeys(rows)
    ensures i < |rows| && rows[i].recordKey == key
  {
    i :| 0 <= i < |rows| && RecordKeys(rows)[i] == key;
  }

  lemma UnderSplit(rows: seq<StateRecord>, i: nat)
    requires i < |rows|
    ensures var key := rows[i].recordKey; Under(rows, key) == Under(rows[..i], key) + [rows[i]] + Under(rows[i + 1..], key)
  {
    hide Under;
    var x, key := rows[i], rows[i].recordKey;
    var before, after := rows[..i], rows[i + 1..];
    SplitAround(rows, i);
    UnderAppend(before, [x] + after, key);
    UnderCons(x, after, key);
  }

  lemma UnderNoneAt(rows: seq<StateRecord>, key: string)
    requires forall j :: 0 <= j < |rows| ==> rows[j].recordKey != key
    ensures Under(rows, key) == []
  {
    UnderNone(rows, key);
  }

  lemma UnderHead(rows: seq<StateRecord>, n: nat, i: nat)
    requires SortedBy(rows, ByKey) && i < n <= |rows| && Strict(rows[..n])
    ensures Under(rows, rows[i].recordKey) != [] && Under(rows, rows[i].recordKey)[0] == rows[i]
    ensures i < n - 1 || n == |rows| ==> |Under(rows, rows[i].recordKey)| == 1
  {
    hide Under, Strict, StrLe, StrLt, SortedBy;
    var key := rows[i].recordKey;
    UnderSplit(rows, i);
    forall j | 0 <= j < i
      ensures rows[..i][j].recordKey != key
    {
      StrictPairs(rows[..n], j, i);
      assert StrLt(rows[..n][j].recordKey, rows[..n][i].recordKey) && rows[..n][j] == rows[j] && rows[..n][i] == rows[i];
      StrLtDiffers(rows[j].recordKey, key);
    }
    UnderNoneAt(rows[..i], key);
    if i < n - 1 || n == |rows| {
      var after := rows[i + 1..];
      forall j | 0 <= j < |after|
        ensures after[j].recordKey != key
      {
        LaterDiffers(rows, n, i, i + 1 + j);
      }
      UnderNoneAt(after, key);
    }
  }

  lemma StrLtDiffers(a: string, b: string)
    requires StrLt(a, b)
    ensures a != b
  {
  }

  lemma LaterDiffers(rows: seq<StateRecord>, n: nat, i: nat, m: nat)
    requires SortedBy(rows, ByKey) && n <= |rows| && Strict(rows[..n]) && i < m < |rows| && i < n
    requires i < n - 1 || n == |rows|
    ensures rows[i].recordKey != rows[m].recordKey
  {
    hide Strict, StrLe;
    var head := rows[..n];
    if m < n {
      StrictPairs(head, i, m);
    } else {
      StrictPairs(head, i, n - 1);
      assert ByKey(rows[n - 1], rows[m]);
      StrChain(rows[i].recordKey, rows[n - 1].recordKey, rows[m].recordKey);
    }
  }

  // ----- What a run yields, and exactly when it succeeds -----

  function Fetches(n: nat, pageSize: nat): nat
    requires pageSize >= 1
  {
    if n < pageSize then 1 else 1 + Fetches(n - pageSize, pageSize)
  }

  lemma {:induction false} FetchCount(n: nat, pageSize: nat)
    requires pageSize >= 1
    ensures Fetches(n, pageSize) == n / pageSize + 1
  {
    if n < pageSize {
      QuotientUnique(n, pageSize, 0);
    } else {
      FetchCount(n - pageSize, pageSize);
      QuotientStep(n, pageSize);
    }
  }

  /** On any table, a run that succeeds has yielded every matching key once, in ascending order, in
      one fetch more than the full pages. */
  lemma {:induction false} FetchedKeys(rows: seq<StateRecord>, pageSize: nat, nonce: string)
    requires pageSize >= 1 && SortedBy(rows, ByKey) && Passes(rows, pageSize, nonce)
    ensures RecordKeys(Fetched(rows, pageSize)) == Ascending(KeySet(rows))
    ensures FetchesFor(rows, pageSize) == Fetches(|Ascending(KeySet(rows))|, pageSize)
    decreases |rows|
  {
    var page := FirstN(rows, pageSize);
    if |rows| < pageSize {
      StrictLists(rows);
      AscendingIs(RecordKeys(rows), KeySet(rows));
      assert Fetched(rows, pageSize) == rows + [] == rows;
    } else {
      var rest := Rest(rows, pageSize).value;
      AcceptedIsStrict(page, pageSize, nonce);
      HeadOfSorted(rows, pageSize);
      PageOff(rows, pageSize, nonce);
      FetchedKeys(rest, pageSize, nonce);
      KeysConcat(page, Fetched(rest, pageSize));
      assert |RecordKeys(page)| == pageSize;
      hide Accepted, ByKey, SortedBy, Under, RecordKeys, Fetched, FetchesFor, Passes, Strict, KeySet, Ascending, Rest;
    }
  }

  lemma AcceptedIsStrict(page: seq<StateRecord>, pageSize: nat, nonce: string)
    requires Accepted(page, pageSize, nonce)
    ensures Strict(page)
  {
  }

  lemma KeysConcat(a: seq<StateRecord>, b: seq<StateRecord>)
    ensures RecordKeys(a + b) == RecordKeys(a) + RecordKeys(b)
  {
  }

  /** Every key that ends a full page fits a cursor. */
  ghost predicate BoundariesFit(keys: seq<string>, pageSize: nat, nonce: string)
    requires pageSize >= 1
    decreases |keys|
  {
    |keys| < pageSize || (EncodeCursor(nonce, keys[pageSize - 1]).Some? && BoundariesFit(keys[pageSize..], pageSize, nonce))
  }

  /** Every key has one row, except that a key which ends a full page may have more. */
  ghost predicate OnlyBoundariesRepeat(rows: seq<StateRecord>, keys: seq<string>, pageSize: nat)
    requires pageSize >= 1
    decreases |keys|
  {
    && (forall i :: 0 <= i < |keys| && i < pageSize - 1 ==> |Under(rows, keys[i])| == 1)
    && (|keys| >= pageSize ==> OnlyBoundariesRepeat(rows, keys[pageSize..], pageSize))
  }

  /** The row read for a key, its first one, is well formed. */
  ghost predicate FirstRowsWellFormed(rows: seq<StateRecord>, keys: seq<string>) {
    forall k :: k in keys ==> Under(rows, k) != [] ==> Under(rows, k)[0].WellFormed()
  }

  /** A repeated key inside a page is in the way. */
  lemma {:induction false} HeadIsStrict(rows: seq<StateRecord>, pageSize: nat, n: nat)
    requires pageSize >= 1 && SortedBy(rows, ByKey) && n <= |rows| && n <= pageSize
    requires OnlyBoundariesRepeat(rows, Ascending(KeySet(rows)), pageSize)
    ensures Strict(rows[..n])
  {
    if n > 1 {
      HeadIsStrict(rows, pageSize, n - 1);
      HeadOfSorted(rows, n - 1);
      var keys, i, head := Ascending(KeySet(rows)), n - 2, rows[..n - 1];
      var later := Ascending(KeySet(Beyond(rows, Some(rows[n - 2].recordKey))));
      hide Under, KeySet, Ascending, StrLe, RecordKeys, SortedBy, Strict, Beyond;
      HeadIndex(head, later, keys);
      assert keys[i] == head[i].recordKey == rows[i].recordKey;
      assert |Under(rows, keys[i])| == 1;
      hide OnlyBoundariesRepeat;
      NextIsStrict(rows, i);
      StrictSnoc(rows, n);
    }
  }

  lemma NextIsStrict(rows: seq<StateRecord>, i: nat)
    requires SortedBy(rows, ByKey) && i + 1 < |rows| && |Under(rows, rows[i].recordKey)| == 1
    ensures StrLt(rows[i].recordKey, rows[i + 1].recordKey)
  {
    hide Under, StrLe;
    assert ByKey(rows[i], rows[i + 1]);
    if rows[i].recordKey == rows[i + 1].recordKey {
      UnderBoth(rows, i);
    }
  }

  lemma StrictSnoc(rows: seq<StateRecord>, n: nat)
    requires 2 <= n <= |rows| && Strict(rows[..n - 1]) && StrLt(rows[n - 2].recordKey, rows[n - 1].recordKey)
    ensures Strict(rows[..n])
  {
    hide StrLt;
    var head, longer := rows[..n - 1], rows[..n];
    forall i | 0 < i < n
      ensures StrLt(longer[i - 1].recordKey, longer[i].recordKey)
    {
      if i < n - 1 {
        assert StrLt(head[i - 1].recordKey, head[i].recordKey);
      }
    }
  }

  lemma UnderBoth(rows: seq<StateRecord>, i: nat)
    requires i + 1 < |rows| && rows[i].recordKey == rows[i + 1].recordKey
    ensures |Under(rows, rows[i].recordKey)| >= 2
  {
    UnderSplit(rows, i);
    var after := rows[i + 1..];
    assert after[0] == rows[i + 1];
  }

  /** When a run over sorted rows succeeds, for any rows: every page-ending key fits a cursor, only
      page-ending keys have several rows, and the row read for each key is well formed. The further
      rows of a page-ending key are skipped. */
  lemma {:induction false} PassesIff(rows: seq<StateRecord>, pageSize: nat, nonce: string)
    requires pageSize >= 1 && SortedBy(rows, ByKey)
    ensures var keys := Ascending(KeySet(rows));
      Passes(rows, pageSize, nonce) <==>
        BoundariesFit(keys, pageSize, nonce) && OnlyBoundariesRepeat(rows, keys, pageSize) && FirstRowsWellFormed(rows, keys)
    decreases |rows|
  {
    var keys := Ascending(KeySet(rows));
    var n := if |rows| < pageSize then |rows| else pageSize;
    if OnlyBoundariesRepeat(rows, keys, pageSize) {
      HeadIsStrict(rows, pageSize, n);
    }
    if Strict(rows[..n]) {
      if |rows| < pageSize {
        ShortPasses(rows, pageSize, nonce);
      } else {
        FullPasses(rows, pageSize, nonce);
        PassesIff(Rest(rows, pageSize).value, pageSize, nonce);
      }
    } else {
      assert FirstN(rows, pageSize) == rows[..n];
    }
  }

  lemma ShortPasses(rows: seq<StateRecord>, pageSize: nat, nonce: string)
    requires pageSize >= 1 && SortedBy(rows, ByKey) && |rows| < pageSize && Strict(rows)
    ensures var keys := Ascending(KeySet(rows));
      && (Passes(rows, pageSize, nonce) <==> FirstRowsWellFormed(rows, keys))
      && BoundariesFit(keys, pageSize, nonce) && OnlyBoundariesRepeat(rows, keys, pageSize)
  {
    var keys := Ascending(KeySet(rows));
    StrictLists(rows);
    AscendingIs(RecordKeys(rows), KeySet(rows));
    if rows != [] {
      assert rows[..|rows|] == rows;
      HeadOfSorted(rows, |rows|);
    }
    assert Passes(rows, pageSize, nonce) <==> forall r :: r in rows ==> r.WellFormed();
    hide Under, ByKey, SortedBy, Strict, StrLt, Passes;
    forall r | r in rows
      ensures r.recordKey in keys && Under(rows, r.recordKey) != [] && Under(rows, r.recordKey)[0] == r
    {
      var i :| 0 <= i < |rows| && rows[i] == r;
      assert keys[i] == r.recordKey;
    }
    forall k | k in keys
      ensures Under(rows, k) != [] && Under(rows, k)[0] in rows
    {
      var i := KeyAt(rows, k);
    }
  }

  lemma {:induction false} RepeatAgrees(rows: seq<StateRecord>, rest: seq<StateRecord>, keys: seq<string>, pageSize: nat)
    requires pageSize >= 1 && forall k :: k in keys ==> Under(rows, k) == Under(rest, k)
    ensures OnlyBoundariesRepeat(rows, keys, pageSize) <==> OnlyBoundariesRepeat(rest, keys, pageSize)
    decreases |keys|
  {
    hide Under;
    if |keys| >= pageSize {
      RepeatAgrees(rows, rest, keys[pageSize..], pageSize);
    }
    assert forall i :: 0 <= i < |keys| ==> keys[i] in keys;
  }

  lemma RestUnder(rows: seq<StateRecord>, last: Option<string>, key: string)
    requires key in KeySet(Beyond(rows, last))
    ensures Under(rows, key) == Under(Beyond(rows, last), key)
  {
    BeyondHolds(rows, last);
    UnderBeyond(rows, last, key);
  }

  lemma FullPageKeys(rows: seq<StateRecord>, pageSize: nat)
    requires 1 <= pageSize <= |rows| && SortedBy(rows, ByKey) && Strict(rows[..pageSize])
    ensures var keys, rest := Ascending(KeySet(rows)), Rest(rows, pageSize).value;
      && SortedBy(rest, ByKey) && |keys| >= pageSize && keys[pageSize..] == Ascending(KeySet(rest))
      && (forall i :: 0 <= i < pageSize ==>
            keys[i] == rows[i].recordKey && Under(rows, keys[i]) != [] && Under(rows, keys[i])[0] == rows[i])
      && (forall k :: k in keys[pageSize..] ==> Under(rows, k) == Under(rest, k))
  {
    var keys, rest, page := Ascending(KeySet(rows)), Rest(rows, pageSize).value, rows[..pageSize];
    var later := Ascending(KeySet(rest));
    HeadOfSorted(rows, pageSize);
    assert forall k :: k in later ==> k in KeySet(rest);
    hide Under, Strict, SortedBy, ByKey, Lists, KeySet, Beyond, Ascending;
    forall k | k in later
      ensures Under(rows, k) == Under(rest, k)
    {
      RestUnder(rows, Some(rows[pageSize - 1].recordKey), k);
    }
    HeadIndex(page, later, keys);
    forall i | 0 <= i < pageSize
      ensures keys[i] == rows[i].recordKey
    {
      assert page[i] == rows[i];
    }
  }

  lemma HeadIndex(page: seq<StateRecord>, later: seq<string>, keys: seq<string>)
    requires keys == RecordKeys(page) + later
    ensures |keys| >= |page| && keys[|page|..] == later
    ensures forall i :: 0 <= i < |page| ==> keys[i] == page[i].recordKey
  {
  }

  lemma FullAccepted(rows: seq<StateRecord>, pageSize: nat, nonce: string)
    requires 1 <= pageSize <= |rows| && Strict(rows[..pageSize])
    ensures Passes(rows, pageSize, nonce) <==>
      && (forall r :: r in rows[..pageSize] ==> r.WellFormed())
      && EncodeCursor(nonce, rows[pageSize - 1].recordKey).Some?
      && Passes(Rest(rows, pageSize).value, pageSize, nonce)
  {
    hide EncodeCursor, StrLt, Rest;
    var page := FirstN(rows, pageSize);
    assert page == rows[..pageSize] && page[|page| - 1] == rows[pageSize - 1];
  }

  /** All sides of the condition, one full page further. */
  lemma FullPasses(rows: seq<StateRecord>, pageSize: nat, nonce: string)
    requires 1 <= pageSize <= |rows| && SortedBy(rows, ByKey) && Strict(rows[..pageSize])
    ensures var keys, rest := Ascending(KeySet(rows)), Rest(rows, pageSize).value;
      var later, allWell := Ascending(KeySet(rest)), forall r :: r in rows[..pageSize] ==> r.WellFormed();
      && SortedBy(rest, ByKey) && |keys| >= pageSize
      && (Passes(rows, pageSize, nonce) <==>
            allWell && EncodeCursor(nonce, keys[pageSize - 1]).Some? && Passes(rest, pageSize, nonce))
      && (BoundariesFit(keys, pageSize, nonce) <==>
            EncodeCursor(nonce, keys[pageSize - 1]).Some? && BoundariesFit(later, pageSize, nonce))
      && (OnlyBoundariesRepeat(rows, keys, pageSize) ==> OnlyBoundariesRepeat(rest, later, pageSize))
      && (OnlyBoundariesRepeat(rest, later, pageSize) ==> OnlyBoundariesRepeat(rows, keys, pageSize))
      && (FirstRowsWellFormed(rows, keys) <==> allWell && FirstRowsWellFormed(rest, later))
  {
    var keys, rest := Ascending(KeySet(rows)), Rest(rows, pageSize).value;
    FullPageKeys(rows, pageSize);
    FullAccepted(rows, pageSize, nonce);
    RepeatAgrees(rows, rest, keys[pageSize..], pageSize);
    FirstRowsSplit(rows, rest, keys, pageSize);
    HeadOfSorted(rows, pageSize);
    hide Passes, Strict, SortedBy, KeySet, Under, RecordKeys, FirstRowsWellFormed, EncodeCursor, Rest, Ascending;
  }

  lemma FirstRowsSplit(rows: seq<StateRecord>, rest: seq<StateRecord>, keys: seq<string>, n: nat)
    requires n <= |keys| && n <= |rows|
    requires forall i :: 0 <= i < n ==> Under(rows, keys[i]) != [] && Under(rows, keys[i])[0] == rows[i]
    requires forall k :: k in keys[n..] ==> Under(rows, k) == Under(rest, k)
    ensures FirstRowsWellFormed(rows, keys) <==> (forall r :: r in rows[..n] ==> r.WellFormed()) && FirstRowsWellFormed(rest, keys[n..])
  {
    hide Under;
    if FirstRowsWellFormed(rows, keys) {
      forall r | r in rows[..n]
        ensures r.WellFormed()
      {
        var i :| 0 <= i < n && rows[..n][i] == r;
        assert keys[i] in keys;
      }
      forall k | k in keys[n..]
        ensures k in keys
      {
        var i :| 0 <= i < |keys[n..]| && keys[n..][i] == k;
        assert keys[n + i] == k;
      }
    }
    if (forall r :: r in rows[..n] ==> r.WellFormed()) && FirstRowsWellFormed(rest, keys[n..]) {
      forall k | k in keys && Under(rows, k) != []
        ensures Under(rows, k)[0].WellFormed()
      {
        var i :| 0 <= i < |keys| && keys[i] == k;
        if i < n {
          assert rows[..n][i] == rows[i];
        } else {
          assert keys[n..][i - n] == k;
        }
      }
    }
  }

  /** One key with two rows: skipped when it ends a full page, an error inside a page. */
  lemma TwoRowsOfOneKey(a: StateRecord, b: StateRecord, nonce: string)
    requires a.recordKey == b.recordKey && a.WellFormed() && EncodeCursor(nonce, a.recordKey).Some?
    ensures Passes([a, b], 1, nonce) && Fetched([a, b], 1) == [a]
    ensures !Passes([a, b], 2, nonce)
  {
    hide EncodeCursor;
    var rest := Beyond([a, b], Some(a.recordKey));
    BeyondCons(a, [b], Some(a.recordKey));
    BeyondCons(b, [], Some(a.recordKey));
    assert [a, b] == [a] + [b] && [b] == [b] + [];
    assert rest == [];
    assert Rest([a, b], 1) == Some([]);
    var page := FirstN([a, b], 2);
    assert page[0] == a && page[1] == b;
    assert !StrLt(page[0].recordKey, page[1].recordKey);
  }

  /** A well-formed row whose key is one character too long, alone on its page. */
  lemma LongBoundaryKeyFails(r: StateRecord, nonce: string)
    requires IsNonce(nonce) && |r.recordKey| == 6118
    requires forall i :: 0 <= i < |r.recordKey| ==> r.recordKey[i] < '\U{80}'
    ensures !Passes([r], 1, nonce) && Passes([r], 2, nonce) == r.WellFormed()
    ensures !BoundariesFit([r.recordKey], 1, nonce)
  {
    LongKeyDoesNotFit(nonce, r.recordKey);
    assert FirstN([r], 1) == [r] == FirstN([r], 2);
  }

  lemma {:induction false} BoundariesFitMeaning(keys: seq<string>, pageSize: nat, nonce: string)
    requires pageSize >= 1 && IsNonce(nonce)
    ensures (forall k :: k in keys ==> |Encode(k)| <= 6117) ==> BoundariesFit(keys, pageSize, nonce)
    decreases |keys|
  {
    if (forall k :: k in keys ==> |Encode(k)| <= 6117) && |keys| >= pageSize {
      CursorFitsIff(nonce, keys[pageSize - 1]);
      BoundariesFitMeaning(keys[pageSize..], pageSize, nonce);
    }
  }

  // ----- In terms of the snapshot -----

  /** The scope's keys that do not exist upstream. */
  function StaleKeys(rows: seq<StateRow>, scope: StateScope, upstream: set<string>): set<string> {
    set row | row in rows && row.scope == scope && row.record.recordKey !in upstream :: row.record.recordKey
  }

  lemma {:induction false} MatchingHolds(rows: seq<StateRow>, scope: StateScope, upstream: set<string>)
    ensures forall r :: r in Matching(rows, scope, upstream) <==> StateRow(scope, r) in rows && r.recordKey !in upstream
  {
    if rows != [] {
      MatchingHolds(rows[1..], scope, upstream);
      assert forall row :: row in rows <==> row == rows[0] || row in rows[1..];
    }
  }

  lemma SortUnder(xs: seq<StateRecord>, key: string)
    ensures Under(Sort(xs, ByKey), key) == Under(xs, key)
  {
    if xs != [] {
      SortUnder(xs[1..], key);
      InsertUnder(xs[0], Sort(xs[1..], ByKey), key);
    }
  }

  lemma {:induction false} InsertUnder(x: StateRecord, xs: seq<StateRecord>, key: string)
    ensures Under(Insert(x, xs, ByKey), key) == (if x.recordKey == key then [x] else []) + Under(xs, key)
  {
    if xs == [] {
      assert Insert(x, [], ByKey) == [x] + [];
      UnderCons(x, [], key);
    } else {
      var y, rest := xs[0], xs[1..];
      assert xs == [y] + rest;
      InsertCons(x, y, rest);
      if ByKey(x, y) {
        UnderCons(x, xs, key);
      } else {
        assert x.recordKey != y.recordKey by { StrLeTotal(x.recordKey, y.recordKey); }
        InsertUnder(x, rest, key);
        UnderCons(y, Insert(x, rest, ByKey), key);
        UnderCons(y, rest, key);
      }
    }
  }

  lemma {:induction false} MatchingUnder(rows: seq<StateRow>, scope: StateScope, upstream: set<string>, key: string)
    requires key !in upstream
    ensures |Under(Matching(rows, scope, upstream), key)| == |ValuesAt(rows, StateKey(scope, key))|
  {
    if rows != [] {
      MatchingUnder(rows[1..], scope, upstream, key);
      var row, rest := rows[0], Matching(rows[1..], scope, upstream);
      assert row.Key() == StateKey(scope, key) <==> row.scope == scope && row.record.recordKey == key;
      hide Under;
      if row.scope == scope && row.record.recordKey !in upstream {
        assert Matching(rows, scope, upstream) == [row.record] + rest;
        UnderCons(row.record, rest, key);
      } else {
        assert Matching(rows, scope, upstream) == [] + rest == rest;
      }
    }
  }

  lemma AnswerMembers(snapshot: Snapshot, scope: StateScope, probe: Option<Probe>)
    requires Available(snapshot, probe)
    ensures var rows, upstream := Answer(snapshot, scope, probe, None), Upstream(snapshot, probe);
      && SortedBy(rows, ByKey)
      && (forall r :: r in rows <==> StateRow(scope, r) in snapshot.state && r.recordKey !in upstream)
  {
    var found := Matching(snapshot.state, scope, Upstream(snapshot, probe));
    var rows := Answer(snapshot, scope, probe, None);
    BeyondNothing(found);
    ByKeyOrder();
    SortSorts(found, ByKey);
    MatchingHolds(snapshot.state, scope, Upstream(snapshot, probe));
    hide ByKey, SortedBy, Matching, Beyond;
    forall r ensures r in rows <==> r in found {
      assert r in multiset(rows) <==> r in multiset(found);
    }
  }

  /** What a reader has to show: sorted, its keys the stale ones, and as many rows under each as the
      table has. */
  lemma AnswerHolds(snapshot: Snapshot, scope: StateScope, probe: Option<Probe>)
    requires Available(snapshot, probe)
    ensures var rows, upstream := Answer(snapshot, scope, probe, None), Upstream(snapshot, probe);
      && SortedBy(rows, ByKey)
      && KeySet(rows) == StaleKeys(snapshot.state, scope, upstream)
      && (forall r :: r in rows <==> StateRow(scope, r) in snapshot.state && r.recordKey !in upstream)
      && (forall key :: key !in upstream ==> |Under(rows, key)| == |ValuesAt(snapshot.state, StateKey(scope, key))|)
  {
    var upstream := Upstream(snapshot, probe);
    var found := Matching(snapshot.state, scope, upstream);
    var rows := Answer(snapshot, scope, probe, None);
    AnswerMembers(snapshot, scope, probe);
    BeyondNothing(found);
    hide SortedBy, Matching, ValuesAt, Beyond, Under, Upstream;
    forall key | key !in upstream
      ensures |Under(rows, key)| == |ValuesAt(snapshot.state, StateKey(scope, key))|
    {
      SortUnder(found, key);
      MatchingUnder(snapshot.state, scope, upstream, key);
    }
    hide Answer;
    forall key ensures key in KeySet(rows) <==> key in StaleKeys(snapshot.state, scope, upstream) {
      if key in StaleKeys(snapshot.state, scope, upstream) {
        var row :| row in snapshot.state && row.scope == scope && row.record.recordKey == key && key !in upstream;
        assert row == StateRow(scope, row.record);
        assert row.record in rows;
      }
    }
  }

  /** On a table with one well-formed row per key, a run succeeds exactly when every key that ends a
      full page fits a cursor. */
  lemma KeyedTablePasses(snapshot: Snapshot, scope: StateScope, probe: Option<Probe>, pageSize: nat, nonce: string)
    requires Available(snapshot, probe) && pageSize >= 1 && Keyed(snapshot.state)
    requires forall row :: row in snapshot.state && row.scope == scope ==> row.record.WellFormed()
    ensures Passes(Answer(snapshot, scope, probe, None), pageSize, nonce) <==>
      BoundariesFit(Ascending(StaleKeys(snapshot.state, scope, Upstream(snapshot, probe))), pageSize, nonce)
  {
    var rows := Answer(snapshot, scope, probe, None);
    var keys := Ascending(KeySet(rows));
    AnswerHolds(snapshot, scope, probe);
    PassesIff(rows, pageSize, nonce);
    hide Answer, Passes, ByKey, SortedBy, BoundariesFit, Upstream, ValuesAt, StaleKeys;
    forall k | k in keys
      ensures |Under(rows, k)| == 1 && Under(rows, k)[0].WellFormed()
    {
      var r :| r in rows && r.recordKey == k;
      UnderNone(rows, k);
      UnderMembers(rows, k);
      assert |ValuesAt(snapshot.state, StateKey(scope, k))| <= 1;
      assert Under(rows, k)[0] in rows;
    }
    NothingRepeats(rows, keys, pageSize);
  }

  lemma {:induction false} UnderMembers(rows: seq<StateRecord>, key: string)
    ensures forall r :: r in Under(rows, key) ==> r in rows
  {
    if rows != [] {
      UnderMembers(rows[1..], key);
    }
  }

  lemma {:induction false} NothingRepeats(rows: seq<StateRecord>, keys: seq<string>, pageSize: nat)
    requires pageSize >= 1 && forall k :: k in keys ==> |Under(rows, k)| == 1
    ensures OnlyBoundariesRepeat(rows, keys, pageSize)
    decreases |keys|
  {
    hide Under;
    if |keys| >= pageSize {
      NothingRepeats(rows, keys[pageSize..], pageSize);
    }
  }

  /** A row without a key, a fingerprint or a code version is refused. */
  lemma EmptyFieldFails(r: StateRecord, nonce: string)
    ensures Passes([r], 2, nonce) <==> r.recordKey != "" && r.value.fingerprint != "" && r.value.codeVersion != ""
  {
    hide EncodeCursor;
    assert FirstN([r], 2) == [r] && r in [r];
    assert Accepted([r], 2, nonce) <==> r.WellFormed();
  }
}
