/** Bounded reconciliation: point lookups, classification, batched upserts and deletions of
    publication state, and the whole pass that brings one scope in line with its upstream. */
module Reconcile {
  import opened Sorting
  import opened Text
  import opened StateStore
  import opened StateTable
  import opened TableRead
  import opened Paging

  const KEY_REQUEST_BATCH := 5000
  const STATE_MERGE_INLINE_MAX := 5000
  const STATE_MERGE_LOAD_BATCH := 20000
  const MAX_STATE_SUBSET_KEYS := 100000

  // ----- Point lookups -----

  /** The first value of every key that has one. */
  function Subset(rows: seq<StateRow>, scope: StateScope, keys: seq<string>): map<string, StateValue> {
    map k | k in keys && ValuesAt(rows, StateKey(scope, k)) != [] :: ValuesAt(rows, StateKey(scope, k))[0]
  }

  /** A key that a lookup accepts: at most one row, and that one well formed. */
  predicate Readable(rows: seq<StateRow>, scope: StateScope, key: string) {
    var values := ValuesAt(rows, StateKey(scope, key));
    values == [] || (|values| == 1 && values[0].WellFormed())
  }

  predicate AllReadable(rows: seq<StateRow>, scope: StateScope, keys: seq<string>) {
    forall k :: k in keys ==> Readable(rows, scope, k)
  }

  /** `validate_state_keys`. */
  predicate ValidKeys(keys: seq<string>) { "" !in keys && Distinct(keys) }

  lemma ValuesSnoc(rows: seq<StateRow>, row: StateRow, k: StateKey)
    ensures ValuesAt(rows + [row], k) == ValuesAt(rows, k) + if row.Key() == k then [row.record.value] else []
  {
    ValuesAppend(rows, [row], k);
    assert [row][1..] == [];
  }

  /** Where reading a chunk stands after some rows. */
  predicate ReadUpTo(rows: seq<StateRow>, scope: StateScope, chunk: seq<string>, found: map<string, StateValue>, state: map<string, StateValue>) {
    AllReadable(rows, scope, chunk) && state == found + Subset(rows, scope, chunk)
  }

  lemma ReadStarts(scope: StateScope, chunk: seq<string>, found: map<string, StateValue>)
    ensures forall rows: seq<StateRow> :: ReadUpTo(rows[..0], scope, chunk, found, found)
  {
  }

  lemma ReadEnds(rows: seq<StateRow>, scope: StateScope, chunk: seq<string>, found: map<string, StateValue>, state: map<string, StateValue>)
    requires ReadUpTo(rows, scope, chunk, found, state)
    ensures AllReadable(rows, scope, chunk) && state == found + Subset(rows, scope, chunk)
  {
  }

  lemma OtherRow(rows: seq<StateRow>, row: StateRow, scope: StateScope, chunk: seq<string>)
    requires row.scope != scope || row.record.recordKey !in chunk
    ensures AllReadable(rows + [row], scope, chunk) <==> AllReadable(rows, scope, chunk)
    ensures Subset(rows + [row], scope, chunk) == Subset(rows, scope, chunk)
  {
    forall k | k in chunk
      ensures ValuesAt(rows + [row], StateKey(scope, k)) == ValuesAt(rows, StateKey(scope, k))
    {
      ValuesSnoc(rows, row, StateKey(scope, k));
    }
    hide ValuesAt;
  }

  lemma FirstRow(rows: seq<StateRow>, row: StateRow, scope: StateScope, chunk: seq<string>)
    requires row.scope == scope && row.record.recordKey in chunk && row.record.value.WellFormed()
    requires AllReadable(rows, scope, chunk) && ValuesAt(rows, row.Key()) == []
    ensures AllReadable(rows + [row], scope, chunk)
    ensures Subset(rows + [row], scope, chunk) == Subset(rows, scope, chunk)[row.record.recordKey := row.record.value]
  {
    var key, value := row.record.recordKey, row.record.value;
    var before, after := Subset(rows, scope, chunk), Subset(rows + [row], scope, chunk);
    forall k: string
      ensures k in chunk ==> Readable(rows + [row], scope, k)
      ensures k in after <==> k == key || k in before
      ensures k in after ==> after[k] == if k == key then value else before[k]
    {
      ValuesSnoc(rows, row, StateKey(scope, k));
      hide ValuesAt;
      assert [] + [value] == [value];
      assert ValuesAt(rows, StateKey(scope, k)) + [] == ValuesAt(rows, StateKey(scope, k));
      assert k in chunk ==> Readable(rows, scope, k);
    }
    hide AllReadable, Readable, Subset;
    assert after == before[key := value];
  }

  lemma ReadRow(rows: seq<StateRow>, row: StateRow, scope: StateScope, chunk: seq<string>,
                found: map<string, StateValue>, state: map<string, StateValue>)
    requires ReadUpTo(rows, scope, chunk, found, state) && forall k :: k in chunk ==> k !in found
    ensures var key, value := row.record.recordKey, row.record.value;
      if row.scope != scope || key !in chunk then ReadUpTo(rows + [row], scope, chunk, found, state)
      else if key in state || !value.WellFormed() then !AllReadable(rows + [row], scope, chunk)
      else ReadUpTo(rows + [row], scope, chunk, found, state[key := value])
  {
    hide ValuesAt;
    var key, value := row.record.recordKey, row.record.value;
    if row.scope != scope || key !in chunk {
      OtherRow(rows, row, scope, chunk);
    } else if key in state || !value.WellFormed() {
      ValuesSnoc(rows, row, row.Key());
      assert !Readable(rows + [row], scope, key);
    } else {
      FirstRow(rows, row, scope, chunk);
    }
  }

  lemma SubsetAppend(rows: seq<StateRow>, scope: StateScope, a: seq<string>, b: seq<string>)
    ensures Subset(rows, scope, a + b) == Subset(rows, scope, a) + Subset(rows, scope, b)
    ensures AllReadable(rows, scope, a + b) <==> AllReadable(rows, scope, a) && AllReadable(rows, scope, b)
  {
    hide ValuesAt, Readable;
    assert forall k :: k in a + b <==> k in a || k in b;
  }

  lemma NoKeys(rows: seq<StateRow>, scope: StateScope)
    ensures Subset(rows, scope, []) == map[] && AllReadable(rows, scope, [])
  {
  }

  lemma SliceIsFresh(keys: seq<string>, start: nat, size: nat)
    requires Distinct(keys) && start < |keys|
    ensures forall k :: k in Slice(keys, start, size) ==> k !in FirstN(keys, start) && k in keys
  {
    var slice := Slice(keys, start, size);
    forall k | k in slice
      ensures k !in FirstN(keys, start) && k in keys
    {
      var i :| 0 <= i < |slice| && slice[i] == k;
      assert keys[start + i] == k;
    }
  }

  // ----- The adapter over a warehouse -----

  class StateAdapter {
    const warehouse: Warehouse

    constructor (warehouse: Warehouse)
      ensures this.warehouse == warehouse
    {
      this.warehouse := warehouse;
    }

    function State(): seq<StateRow>
      reads warehouse
      requires warehouse.history != []
    {
      warehouse.Current().state
    }

    /** One request of a subset lookup: every row it returns is taken in, a second one under a key
        or a malformed one is an error. */
    method ReadChunk(scope: StateScope, chunk: seq<string>, found: map<string, StateValue>) returns (r: Option<map<string, StateValue>>)
      requires warehouse.history != [] && forall k :: k in chunk ==> k !in found
      ensures r.Some? <==> AllReadable(State(), scope, chunk)
      ensures r.Some? ==> r.value == found + Subset(State(), scope, chunk)
    {
      hide *;
      var rows, state := State(), found;
      ReadStarts(scope, chunk, found);
      for i := 0 to |rows|
        invariant ReadUpTo(rows[..i], scope, chunk, found, state)
      {
        var row := rows[i];
        ReadRow(rows[..i], row, scope, chunk, found, state);
        assert rows[..i + 1] == rows[..i] + [row];
        if row.scope == scope && row.record.recordKey in chunk {
          if row.record.recordKey in state || !row.record.value.WellFormed() {
            StillUnreadable(rows, i + 1, scope, chunk);
            return None;
          }
          state := state[row.record.recordKey := row.record.value];
        }
      }
      assert rows[..|rows|] == rows;
      ReadEnds(rows, scope, chunk, found, state);
      return Some(state);
    }

    /** `fetch_state_subset`: however the keys are cut into requests, the answer is the same. */
    method FetchStateSubset(scope: StateScope, keys: seq<string>) returns (r: Option<map<string, StateValue>>)
      requires warehouse.history != []
      ensures r.Some? <==> ValidKeys(keys) && |keys| <= MAX_STATE_SUBSET_KEYS && AllReadable(State(), scope, keys)
      ensures r.Some? <==> "" !in keys && Distinct(keys) && |keys| <= 100000 && AllReadable(State(), scope, keys)
      ensures r.Some? ==> r.value == Subset(State(), scope, keys)
    {
      hide Readable, ValuesAt, Slice, Distinct;
      NoKeys(State(), scope);
      if !ValidKeys(keys) { return None; }
      if |keys| > MAX_STATE_SUBSET_KEYS { return None; }
      var found: map<string, StateValue> := map[];
      var start := 0;
      while start < |keys|
        invariant found == Subset(State(), scope, FirstN(keys, start))
        invariant AllReadable(State(), scope, FirstN(keys, start))
      {
        var chunk := Slice(keys, start, KEY_REQUEST_BATCH);
        SliceIsFresh(keys, start, KEY_REQUEST_BATCH);
        NextSlice(keys, start, KEY_REQUEST_BATCH);
        var read := ReadChunk(scope, chunk, found);
        if read.None? { return None; }
        SubsetAppend(State(), scope, FirstN(keys, start), chunk);
        found := read.value;
        start := start + KEY_REQUEST_BATCH;
      }
      assert FirstN(keys, start) == keys;
      return Some(found);
    }

    /** `delete_state`. */
    method DeleteState(scope: StateScope, keys: seq<string>) returns (ok: bool)
      requires warehouse.history != []
      modifies warehouse
      ensures warehouse.history != [] && old(warehouse.history) <= warehouse.history
      ensures ok <==> ValidKeys(keys)
      ensures warehouse.Current() == old(warehouse.Current()).(state := if ok then DeleteRows(old(State()), scope, keys) else old(State()))
    {
      hide DeleteRows, Slice, ValidKeys;
      if !ValidKeys(keys) { return false; }
      ghost var rows := State();
      var start := 0;
      DeleteNothing(rows, scope);
      while start < |keys|
        invariant warehouse.history != [] && old(warehouse.history) <= warehouse.history
        invariant warehouse.Current() == old(warehouse.Current()).(state := DeleteRows(rows, scope, FirstN(keys, start)))
      {
        var chunk := Slice(keys, start, KEY_REQUEST_BATCH);
        DeleteAppend(rows, scope, FirstN(keys, start), chunk);
        NextSlice(keys, start, KEY_REQUEST_BATCH);
        warehouse.Write(DeleteRows(State(), scope, chunk));
        start := start + KEY_REQUEST_BATCH;
      }
      assert FirstN(keys, start) == keys;
      return true;
    }

    /** `_merge_state`: small sets ship inline, large ones through a staging table. */
    method MergeState(scope: StateScope, records: seq<StateRecord>, replace: bool)
      requires warehouse.history != [] && UniqueKeys(records)
      modifies warehouse
      ensures warehouse.history != [] && old(warehouse.history) <= warehouse.history
      ensures warehouse.Current() == old(warehouse.Current()).(state := MergeRows(old(State()), scope, records, replace))
    {
      hide MergeRows, UniqueKeys;
      if |records| <= STATE_MERGE_INLINE_MAX {
        warehouse.Write(MergeRows(State(), scope, records, replace));
      } else {
        var staging: seq<StateRecord> := [];
        var start := 0;
        while start < |records|
          invariant staging == FirstN(records, start) && warehouse.history == old(warehouse.history)
        {
          NextSlice(records, start, STATE_MERGE_LOAD_BATCH);
          staging := staging + Slice(records, start, STATE_MERGE_LOAD_BATCH);
          start := start + STATE_MERGE_LOAD_BATCH;
        }
        assert staging == records;
        warehouse.Write(MergeRows(State(), scope, staging, replace));
      }
    }

    /** `upsert_state`. */
    method UpsertState(scope: StateScope, records: seq<StateRecord>) returns (ok: bool)
      requires warehouse.history != []
      modifies warehouse
      ensures warehouse.history != [] && old(warehouse.history) <= warehouse.history
      ensures ok <==> UniqueKeys(records)
      ensures warehouse.Current() == old(warehouse.Current()).(state := if ok then MergeRows(old(State()), scope, records, false) else old(State()))
    {
      hide MergeRows, UniqueKeys;
      if !UniqueKeys(records) { return false; }
      if records == [] {
        MergeNothing(State(), scope);
        return true;
      }
      MergeState(scope, records, false);
      return true;
    }

    /** `replace_state`. */
    method ReplaceState(scope: StateScope, records: seq<StateRecord>) returns (ok: bool)
      requires warehouse.history != []
      modifies warehouse
      ensures warehouse.history != [] && old(warehouse.history) <= warehouse.history
      ensures ok <==> UniqueKeys(records)
      ensures warehouse.Current() == old(warehouse.Current()).(state := if ok then MergeRows(old(State()), scope, records, true) else old(State()))
    {
      hide MergeRows, UniqueKeys;
      if !UniqueKeys(records) { return false; }
      MergeState(scope, records, true);
      return true;
    }
  }

  /** What the rows up to here already forbid, more rows cannot mend. */
  lemma StillUnreadable(rows: seq<StateRow>, i: nat, scope: StateScope, chunk: seq<string>)
    requires i <= |rows| && !AllReadable(rows[..i], scope, chunk)
    ensures !AllReadable(rows, scope, chunk)
  {
    var key :| key in chunk && !Readable(rows[..i], scope, key);
    assert rows == rows[..i] + rows[i..];
    ValuesAppend(rows[..i], rows[i..], StateKey(scope, key));
    hide ValuesAt;
    assert !Readable(rows, scope, key);
  }

  lemma {:induction false} MergeNothing(rows: seq<StateRow>, scope: StateScope)
    ensures MergeRows(rows, scope, [], false) == rows
  {
    if rows != [] {
      MergeNothing(rows[1..], scope);
    }
  }

  // ----- Classification -----

  datatype Classified = Classified(added: seq<UpstreamRecord>, altered: seq<UpstreamRecord>, same: seq<UpstreamRecord>)

  datatype Class = New | Changed | Unchanged

  /** Unchanged takes equal fingerprint and code version; forcing republishes known keys. */
  function ClassOf(r: UpstreamRecord, prior: map<string, StateValue>, codeVersion: string, force: bool): Class {
    if r.recordKey !in prior then New
    else if !force && prior[r.recordKey] == StateValue(r.fingerprint, codeVersion) then Unchanged
    else Changed
  }

  /** The records of one class, in batch order. */
  function OfClass(records: seq<UpstreamRecord>, prior: map<string, StateValue>, codeVersion: string, force: bool, c: Class): seq<UpstreamRecord> {
    if records == [] then []
    else
      var last := records[|records| - 1];
      OfClass(records[..|records| - 1], prior, codeVersion, force, c)
      + if ClassOf(last, prior, codeVersion, force) == c then [last] else []
  }

  method ClassifyBatch(records: seq<UpstreamRecord>, prior: map<string, StateValue>, codeVersion: string, force: bool)
    returns (r: Classified)
    ensures r.added == OfClass(records, prior, codeVersion, force, New)
    ensures r.altered == OfClass(records, prior, codeVersion, force, Changed)
    ensures r.same == OfClass(records, prior, codeVersion, force, Unchanged)
  {
    var added: seq<UpstreamRecord>, altered: seq<UpstreamRecord>, same: seq<UpstreamRecord> := [], [], [];
    for k := 0 to |records|
      invariant added == OfClass(records[..k], prior, codeVersion, force, New)
      invariant altered == OfClass(records[..k], prior, codeVersion, force, Changed)
      invariant same == OfClass(records[..k], prior, codeVersion, force, Unchanged)
    {
      assert records[..k + 1][..k] == records[..k];
      var record := records[k];
      if record.recordKey !in prior {
        added := added + [record];
      } else if !force && prior[record.recordKey].fingerprint == record.fingerprint
                && prior[record.recordKey].codeVersion == codeVersion {
        same := same + [record];
      } else {
        altered := altered + [record];
      }
    }
    assert records[..|records|] == records;
    return Classified(added, altered, same);
  }

  // ----- What publishing upstream records does to the rows -----

  function AsRecord(r: UpstreamRecord, codeVersion: string): StateRecord {
    StateRecord(r.recordKey, StateValue(r.fingerprint, codeVersion))
  }

  function AsState(records: seq<UpstreamRecord>, codeVersion: string): seq<StateRecord> {
    seq(|records|, i requires 0 <= i < |records| => AsRecord(records[i], codeVersion))
  }

  /** The upstream records upserted one after another. */
  function Published(rows: seq<StateRow>, scope: StateScope, codeVersion: string, records: seq<UpstreamRecord>): seq<StateRow> {
    if records == [] then rows
    else
      MergeRows(Published(rows, scope, codeVersion, records[..|records| - 1]), scope,
        [AsRecord(records[|records| - 1], codeVersion)], false)
  }

  lemma {:induction false} PublishedAppend(rows: seq<StateRow>, scope: StateScope, codeVersion: string,
                                           a: seq<UpstreamRecord>, b: seq<UpstreamRecord>)
    ensures Published(rows, scope, codeVersion, a + b) == Published(Published(rows, scope, codeVersion, a), scope, codeVersion, b)
  {
    if b == [] {
      assert a + b == a;
    } else {
      hide MergeRows;
      assert (a + b)[..|a + b| - 1] == a + b[..|b| - 1];
      PublishedAppend(rows, scope, codeVersion, a, b[..|b| - 1]);
    }
  }

  /** The fingerprint that the last record of a key carries. */
  function LastFingerprint(records: seq<UpstreamRecord>, key: string): string {
    if records == [] then ""
    else if records[|records| - 1].recordKey == key then records[|records| - 1].fingerprint
    else LastFingerprint(records[..|records| - 1], key)
  }

  predicate Carries(records: seq<UpstreamRecord>, key: string) { exists r :: r in records && r.recordKey == key }

  /** One upsert: every row of the key gets the value, and there is at least one. */
  lemma UpsertValues(rows: seq<StateRow>, scope: StateScope, r: StateRecord, k: StateKey)
    ensures ValuesAt(MergeRows(rows, scope, [r], false), k)
         == if k == StateKey(scope, r.recordKey) then Copies(AtLeastOne(|ValuesAt(rows, k)|), r.value) else ValuesAt(rows, k)
    ensures OtherScopes(MergeRows(rows, scope, [r], false), scope) == OtherScopes(rows, scope)
  {
    assert [r][1..] == [];
    MergeValues(rows, scope, [r], false, k);
  }

  lemma CarriesSnoc(records: seq<UpstreamRecord>, last: UpstreamRecord, key: string)
    ensures Carries(records + [last], key) <==> last.recordKey == key || Carries(records, key)
  {
    assert forall r :: r in records + [last] <==> r in records || r == last;
  }

  lemma {:induction false} PublishedAt(rows: seq<StateRow>, scope: StateScope, codeVersion: string, records: seq<UpstreamRecord>, k: StateKey)
    ensures var values := ValuesAt(rows, k);
      ValuesAt(Published(rows, scope, codeVersion, records), k)
        == if k.scope == scope && Carries(records, k.recordKey)
           then Copies(AtLeastOne(|values|), StateValue(LastFingerprint(records, k.recordKey), codeVersion))
           else values
    ensures OtherScopes(Published(rows, scope, codeVersion, records), scope) == OtherScopes(rows, scope)
  {
    if records != [] {
      var init, last := records[..|records| - 1], records[|records| - 1];
      var before := Published(rows, scope, codeVersion, init);
      assert records == init + [last];
      CarriesSnoc(init, last, k.recordKey);
      PublishedAt(rows, scope, codeVersion, init, k);
      assert Published(rows, scope, codeVersion, records) == MergeRows(before, scope, [AsRecord(last, codeVersion)], false);
      hide ValuesAt, MergeRows, OtherScopes, Published, Carries;
      UpsertValues(before, scope, AsRecord(last, codeVersion), k);
    }
  }

  lemma {:induction false} LastOfDistinct(records: seq<UpstreamRecord>, r: UpstreamRecord)
    requires Distinct(UpstreamKeys(records)) && r in records
    ensures LastFingerprint(records, r.recordKey) == r.fingerprint
  {
    var init, last := records[..|records| - 1], records[|records| - 1];
    assert records == init + [last];
    assert UpstreamKeys(records) == UpstreamKeys(init) + [last.recordKey];
    DistinctSnoc(UpstreamKeys(init), last.recordKey);
    if r in init {
      var i :| 0 <= i < |init| && init[i] == r;
      assert UpstreamKeys(init)[i] == r.recordKey;
      LastOfDistinct(init, r);
    }
  }

  /** Rows still to be written: those of the new and changed keys. */
  function Pending(records: seq<UpstreamRecord>, keys: set<string>): seq<UpstreamRecord> {
    if records == [] then []
    else
      var last := records[|records| - 1];
      Pending(records[..|records| - 1], keys) + if last.recordKey in keys then [last] else []
  }

  lemma CarriesIff(records: seq<UpstreamRecord>, key: string)
    ensures Carries(records, key) <==> key in UpstreamKeys(records)
  {
    if Carries(records, key) {
      var r :| r in records && r.recordKey == key;
      KeyIn(records, r);
    }
    if key in UpstreamKeys(records) {
      var i :| 0 <= i < |records| && UpstreamKeys(records)[i] == key;
      assert records[i] in records;
    }
  }

  lemma KeyIn(batch: seq<UpstreamRecord>, r: UpstreamRecord)
    requires r in batch
    ensures r.recordKey in UpstreamKeys(batch)
  {
    var i :| 0 <= i < |batch| && batch[i] == r;
    assert UpstreamKeys(batch)[i] == r.recordKey;
  }

  lemma {:induction false} PendingMembers(records: seq<UpstreamRecord>, keys: set<string>)
    ensures forall r :: r in Pending(records, keys) <==> r in records && r.recordKey in keys
  {
    if records != [] {
      assert records == records[..|records| - 1] + [records[|records| - 1]];
      PendingMembers(records[..|records| - 1], keys);
    }
  }

  lemma {:induction false} PendingDistinct(records: seq<UpstreamRecord>, keys: set<string>)
    requires Distinct(UpstreamKeys(records))
    ensures Distinct(UpstreamKeys(Pending(records, keys)))
  {
    if records != [] {
      hide Distinct;
      var init, last := records[..|records| - 1], records[|records| - 1];
      assert UpstreamKeys(records) == UpstreamKeys(init) + [last.recordKey];
      DistinctSnoc(UpstreamKeys(init), last.recordKey);
      PendingDistinct(init, keys);
      PendingMembers(init, keys);
      var pending := Pending(init, keys);
      assert UpstreamKeys(pending + [last]) == UpstreamKeys(pending) + [last.recordKey];
      DistinctSnoc(UpstreamKeys(pending), last.recordKey);
      CarriesIff(pending, last.recordKey);
      CarriesIff(init, last.recordKey);
      assert Pending(records, keys) == pending || Pending(records, keys) == pending + [last];
    } else {
      assert UpstreamKeys([]) == [];
    }
  }

  lemma {:induction false} OfClassMembers(records: seq<UpstreamRecord>, prior: map<string, StateValue>, codeVersion: string, force: bool, c: Class)
    ensures forall r :: r in OfClass(records, prior, codeVersion, force, c) <==>
      r in records && ClassOf(r, prior, codeVersion, force) == c
  {
    if records != [] {
      var init, last := records[..|records| - 1], records[|records| - 1];
      assert records == init + [last];
      OfClassMembers(init, prior, codeVersion, force, c);
    }
  }


  // ----- A batch is published as its records are -----

  lemma {:induction false} UpdatedAppend(a: seq<StateRow>, b: seq<StateRow>, scope: StateScope, records: seq<StateRecord>)
    ensures Updated(a + b, scope, records, false) == Updated(a, scope, records, false) + Updated(b, scope, records, false)
  {
    if a == [] {
      assert a + b == b;
    } else {
      ConsAppend(a, b);
      var rest := a[1..] + b;
      assert (a + b)[1..] == rest;
      UpdatedAppend(a[1..], b, scope, records);
      hide UpdatedRow;
      var head := UpdatedRow(a[0], scope, records, false);
      assert head + (Updated(a[1..], scope, records, false) + Updated(b, scope, records, false))
          == head + Updated(a[1..], scope, records, false) + Updated(b, scope, records, false);
    }
  }

  lemma {:induction false} MatchSnoc(records: seq<StateRecord>, r: StateRecord, key: string)
    requires r.recordKey !in RecordKeys(records)
    ensures Match(records + [r], key) == if key == r.recordKey then Some(r) else Match(records, key)
  {
    if records == [] {
      assert [] + [r] == [r] && [r][1..] == [];
    } else {
      assert (records + [r])[1..] == records[1..] + [r];
      assert RecordKeys(records) == [records[0].recordKey] + RecordKeys(records[1..]);
      MatchSnoc(records[1..], r, key);
    }
  }

  lemma MatchOne(r: StateRecord, key: string)
    ensures Match([r], key) == if key == r.recordKey then Some(r) else None
  {
    assert [r][1..] == [];
  }

  /** Updating by one more record is a second update. */
  lemma {:induction false} UpdatedSnoc(rows: seq<StateRow>, scope: StateScope, records: seq<StateRecord>, r: StateRecord)
    requires r.recordKey !in RecordKeys(records)
    ensures Updated(rows, scope, records + [r], false) == Updated(Updated(rows, scope, records, false), scope, [r], false)
  {
    if rows != [] {
      var row, rest := rows[0], rows[1..];
      UpdatedSnoc(rest, scope, records, r);
      UpdatedRowSnoc(row, scope, records, r);
      hide UpdatedRow;
      UpdatedAppend(UpdatedRow(row, scope, records, false), Updated(rest, scope, records, false), scope, [r]);
    }
  }

  lemma UpdatedRowSnoc(row: StateRow, scope: StateScope, records: seq<StateRecord>, r: StateRecord)
    requires r.recordKey !in RecordKeys(records)
    ensures UpdatedRow(row, scope, records + [r], false) == Updated(UpdatedRow(row, scope, records, false), scope, [r], false)
  {
    MatchSnoc(records, r, row.record.recordKey);
    MatchFinds(records, row.record.recordKey);
    MatchOne(r, row.record.recordKey);
    hide Match;
    var once := UpdatedRow(row, scope, records, false);
    assert |once| == 1 && once[1..] == [];
    assert once[0].record.recordKey == row.record.recordKey && once[0].scope == row.scope;
    assert Updated(once, scope, [r], false) == UpdatedRow(once[0], scope, [r], false) + [] == UpdatedRow(once[0], scope, [r], false);
  }

  lemma {:induction false} InsertedSnoc(rows: seq<StateRow>, scope: StateScope, records: seq<StateRecord>, r: StateRecord)
    ensures Inserted(rows, scope, records + [r]) == Inserted(rows, scope, records)
      + if ValuesAt(rows, StateKey(scope, r.recordKey)) == [] then [StateRow(scope, r)] else []
  {
    hide ValuesAt;
    if records == [] {
      assert [] + [r] == [r] && [r][1..] == [];
    } else {
      assert (records + [r])[1..] == records[1..] + [r];
      InsertedSnoc(rows, scope, records[1..], r);
    }
  }

  /** Rows just inserted are not touched by an update of another key. */
  lemma {:induction false} UpdateSkips(rows: seq<StateRow>, scope: StateScope, r: StateRecord)
    requires forall row :: row in rows ==> row.record.recordKey != r.recordKey
    ensures Updated(rows, scope, [r], false) == rows
  {
    if rows != [] {
      assert rows[0].record.recordKey != r.recordKey;
      MatchOne(r, rows[0].record.recordKey);
      UpdateSkips(rows[1..], scope, r);
      assert UpdatedRow(rows[0], scope, [r], false) == [rows[0]];
    }
  }

  lemma {:induction false} InsertedCarry(rows: seq<StateRow>, scope: StateScope, records: seq<StateRecord>)
    ensures forall row :: row in Inserted(rows, scope, records) ==> row.record.recordKey in RecordKeys(records)
  {
    hide ValuesAt;
    if records != [] {
      assert RecordKeys(records) == [records[0].recordKey] + RecordKeys(records[1..]);
      InsertedCarry(rows, scope, records[1..]);
    }
  }

  lemma MergeIs(rows: seq<StateRow>, scope: StateScope, records: seq<StateRecord>)
    ensures MergeRows(rows, scope, records, false) == Updated(rows, scope, records, false) + Inserted(rows, scope, records)
    ensures Inserted(rows, scope, []) == []
  {
  }

  /** Merging one more record is merging it afterwards. */
  lemma MergeSnoc(rows: seq<StateRow>, scope: StateScope, records: seq<StateRecord>, r: StateRecord)
    requires UniqueKeys(records) && r.recordKey !in RecordKeys(records)
    ensures MergeRows(rows, scope, records + [r], false) == MergeRows(MergeRows(rows, scope, records, false), scope, [r], false)
  {
    var k := StateKey(scope, r.recordKey);
    var updated, inserted := Updated(rows, scope, records, false), Inserted(rows, scope, records);
    InsertedCarry(rows, scope, records);
    assert forall row :: row in inserted ==> row.record.recordKey != r.recordKey;
    MatchFinds(records, r.recordKey);
    MergeValues(rows, scope, records, false, k);
    hide *;
    UpdateSkips(inserted, scope, r);
    UpdatedSnoc(rows, scope, records, r);
    InsertedSnoc(rows, scope, records, r);
    UpdatedAppend(updated, inserted, scope, [r]);
    MergeIs(rows, scope, records);
    MergeIs(rows, scope, records + [r]);
    MergeIs(updated + inserted, scope, [r]);
    InsertedSnoc(updated + inserted, scope, [], r);
    assert [] + [r] == [r];
    var more := if ValuesAt(rows, k) == [] then [StateRow(scope, r)] else [];
    assert [] + more == more;
    Regroup(Updated(updated, scope, [r], false), inserted, more);
  }

  lemma Regroup<T>(a: seq<T>, b: seq<T>, c: seq<T>)
    ensures a + (b + c) == a + b + c
  {
  }

  lemma AsStateSnoc(records: seq<UpstreamRecord>, codeVersion: string)
    requires records != []
    ensures var init, last := records[..|records| - 1], records[|records| - 1];
      && AsState(records, codeVersion) == AsState(init, codeVersion) + [AsRecord(last, codeVersion)]
      && UpstreamKeys(records) == UpstreamKeys(init) + [last.recordKey]
    ensures RecordKeys(AsState(records, codeVersion)) == UpstreamKeys(records)
  {
  }

  /** Upserting a batch is publishing its records one after another. */
  lemma {:induction false} UpsertPublishes(rows: seq<StateRow>, scope: StateScope, codeVersion: string, records: seq<UpstreamRecord>)
    requires Distinct(UpstreamKeys(records))
    ensures UniqueKeys(AsState(records, codeVersion))
    ensures MergeRows(rows, scope, AsState(records, codeVersion), false) == Published(rows, scope, codeVersion, records)
  {
    if records == [] {
      MergeNothing(rows, scope);
      assert AsState(records, codeVersion) == [];
    } else {
      var init, last := records[..|records| - 1], records[|records| - 1];
      AsStateSnoc(records, codeVersion);
      DistinctSnoc(UpstreamKeys(init), last.recordKey);
      UpsertPublishes(rows, scope, codeVersion, init);
      assert RecordKeys(AsState(init, codeVersion)) == UpstreamKeys(init);
      hide MergeRows, Distinct, UpstreamKeys, RecordKeys;
      MergeSnoc(rows, scope, AsState(init, codeVersion), AsRecord(last, codeVersion));
    }
  }

  /** Upserting the value a key already has changes nothing. */
  lemma {:induction false} UpsertSame(rows: seq<StateRow>, scope: StateScope, r: StateRecord)
    requires forall v :: v in ValuesAt(rows, StateKey(scope, r.recordKey)) ==> v == r.value
    ensures Updated(rows, scope, [r], false) == rows
  {
    if rows != [] {
      var row, k := rows[0], StateKey(scope, r.recordKey);
      var head, later := if row.Key() == k then [row.record.value] else [], ValuesAt(rows[1..], k);
      assert ValuesAt(rows, k) == head + later;
      MatchOne(r, row.record.recordKey);
      if row.Key() == k {
        assert (head + later)[0] == row.record.value;
        assert row.record.value in ValuesAt(rows, k) && row.record.recordKey == r.recordKey;
        assert row.record == StateRecord(r.recordKey, r.value) == r;
        assert row == StateRow(scope, r);
      }
      assert UpdatedRow(row, scope, [r], false) == [row];
      forall v | v in later ensures v == r.value { assert v in head + later; }
      UpsertSame(rows[1..], scope, r);
    }
  }

  lemma UpsertHeld(rows: seq<StateRow>, scope: StateScope, r: StateRecord)
    requires ValuesAt(rows, StateKey(scope, r.recordKey)) == [r.value]
    ensures MergeRows(rows, scope, [r], false) == rows
  {
    UpsertSame(rows, scope, r);
    InsertedSnoc(rows, scope, [], r);
    assert [] + [r] == [r];
    assert Inserted(rows, scope, []) == [];
    assert rows + [] == rows;
  }

  // ----- One pass over the upstream -----

  /** What a batch must be: keys that a lookup takes, and records that can be stored. */
  predicate ValidBatch(batch: seq<UpstreamRecord>, codeVersion: string) {
    && ValidKeys(UpstreamKeys(batch)) && |batch| <= MAX_STATE_SUBSET_KEYS
    && forall r :: r in batch ==> AsRecord(r, codeVersion).WellFormed()
  }

  /** The keys that classification leaves to be written. */
  function PendingKeys(c: Classified): set<string> {
    (set r | r in c.added :: r.recordKey) + (set r | r in c.altered :: r.recordKey)
  }

  function ClassesOf(rows: seq<StateRow>, scope: StateScope, codeVersion: string, batch: seq<UpstreamRecord>, force: bool): Classified {
    var prior := Subset(rows, scope, UpstreamKeys(batch));
    Classified(OfClass(batch, prior, codeVersion, force, New),
               OfClass(batch, prior, codeVersion, force, Changed),
               OfClass(batch, prior, codeVersion, force, Unchanged))
  }

  /** A record whose key is not pending is unchanged: the table holds it as it is. */
  lemma NotPending(rows: seq<StateRow>, scope: StateScope, codeVersion: string, batch: seq<UpstreamRecord>, force: bool, r: UpstreamRecord)
    requires r in batch && Readable(rows, scope, r.recordKey)
    ensures r.recordKey !in PendingKeys(ClassesOf(rows, scope, codeVersion, batch, force)) ==>
      ValuesAt(rows, StateKey(scope, r.recordKey)) == [StateValue(r.fingerprint, codeVersion)]
    ensures !AsRecord(r, codeVersion).value.WellFormed() ==> r.recordKey in PendingKeys(ClassesOf(rows, scope, codeVersion, batch, force))
  {
    hide ValuesAt, OfClass;
    var prior := Subset(rows, scope, UpstreamKeys(batch));
    OfClassMembers(batch, prior, codeVersion, force, New);
    OfClassMembers(batch, prior, codeVersion, force, Changed);
    KeyIn(batch, r);
    if ClassOf(r, prior, codeVersion, force) != Unchanged {
      assert r in OfClass(batch, prior, codeVersion, force, New) || r in OfClass(batch, prior, codeVersion, force, Changed);
    }
  }

  /** Leaving the unchanged records out makes no difference to the table. */
  lemma {:induction false} SkippingIsPublishing(rows: seq<StateRow>, scope: StateScope, codeVersion: string,
                                               batch: seq<UpstreamRecord>, keys: set<string>)
    requires Distinct(UpstreamKeys(batch))
    requires forall r :: r in batch && r.recordKey !in keys ==>
      ValuesAt(rows, StateKey(scope, r.recordKey)) == [StateValue(r.fingerprint, codeVersion)]
    ensures Published(rows, scope, codeVersion, Pending(batch, keys)) == Published(rows, scope, codeVersion, batch)
  {
    if batch != [] {
      var init, last := batch[..|batch| - 1], batch[|batch| - 1];
      AsStateSnoc(batch, codeVersion);
      DistinctSnoc(UpstreamKeys(init), last.recordKey);
      assert batch == init + [last];
      SkippingIsPublishing(rows, scope, codeVersion, init, keys);
      var pending := Pending(init, keys);
      if last.recordKey in keys {
        assert (pending + [last])[..|pending|] == pending;
      } else {
        assert Pending(batch, keys) == pending;
        PublishedAt(rows, scope, codeVersion, init, StateKey(scope, last.recordKey));
        CarriesIff(init, last.recordKey);
        UpsertHeld(Published(rows, scope, codeVersion, init), scope, AsRecord(last, codeVersion));
      }
    }
  }

  lemma PendingPublishesBatch(rows: seq<StateRow>, scope: StateScope, codeVersion: string, batch: seq<UpstreamRecord>, force: bool)
    requires Distinct(UpstreamKeys(batch)) && AllReadable(rows, scope, UpstreamKeys(batch))
    ensures var pending := Pending(batch, PendingKeys(ClassesOf(rows, scope, codeVersion, batch, force)));
      Published(rows, scope, codeVersion, pending) == Published(rows, scope, codeVersion, batch)
  {
    hide Published, ClassesOf, PendingKeys, ValuesAt, Distinct, Readable;
    var keys := PendingKeys(ClassesOf(rows, scope, codeVersion, batch, force));
    forall r | r in batch && r.recordKey !in keys
      ensures ValuesAt(rows, StateKey(scope, r.recordKey)) == [StateValue(r.fingerprint, codeVersion)]
    {
      KeyIn(batch, r);
      NotPending(rows, scope, codeVersion, batch, force, r);
    }
    SkippingIsPublishing(rows, scope, codeVersion, batch, keys);
  }

  /** The classification of every batch, each against the table as the batches before left it. */
  function Classes(rows: seq<StateRow>, scope: StateScope, codeVersion: string, batches: seq<seq<UpstreamRecord>>, force: bool): seq<Classified> {
    if batches == [] then []
    else
      var init, last := batches[..|batches| - 1], batches[|batches| - 1];
      Classes(rows, scope, codeVersion, init, force)
      + [ClassesOf(Published(rows, scope, codeVersion, Flatten(init)), scope, codeVersion, last, force)]
  }

  lemma PassSnoc(rows: seq<StateRow>, scope: StateScope, codeVersion: string,
                 batches: seq<seq<UpstreamRecord>>, batch: seq<UpstreamRecord>, force: bool)
    ensures var before := Published(rows, scope, codeVersion, Flatten(batches));
      && Published(rows, scope, codeVersion, Flatten(batches + [batch])) == Published(before, scope, codeVersion, batch)
      && Classes(rows, scope, codeVersion, batches + [batch], force)
           == Classes(rows, scope, codeVersion, batches, force) + [ClassesOf(before, scope, codeVersion, batch, force)]
    ensures Flatten(batches + [batch]) == Flatten(batches) + batch
  {
    hide MergeRows, ClassesOf;
    assert (batches + [batch])[..|batches|] == batches;
    PublishedAppend(rows, scope, codeVersion, Flatten(batches), batch);
  }

  /** What a whole pass over the batches needs of them and of the table it starts from. */
  predicate Publishable(rows: seq<StateRow>, scope: StateScope, codeVersion: string, batches: seq<seq<UpstreamRecord>>) {
    && (forall b :: b in batches ==> ValidBatch(b, codeVersion))
    && AllReadable(rows, scope, UpstreamKeys(Flatten(batches)))
  }

  /** Publishing well-formed records leaves a key as readable as it was. */
  lemma ReadableStays(rows: seq<StateRow>, scope: StateScope, codeVersion: string, records: seq<UpstreamRecord>, key: string)
    requires AllReadable(rows, scope, UpstreamKeys(records)) && forall r :: r in records ==> AsRecord(r, codeVersion).WellFormed()
    ensures Readable(Published(rows, scope, codeVersion, records), scope, key) <==> Readable(rows, scope, key)
  {
    PublishedAt(rows, scope, codeVersion, records, StateKey(scope, key));
    if Carries(records, key) {
      var r := LastIsCarried(records, key);
      KeyIn(records, r);
      assert Readable(rows, scope, key);
      hide ValuesAt, Published;
      assert AsRecord(r, codeVersion).WellFormed();
    }
  }

  lemma {:induction false} LastIsCarried(records: seq<UpstreamRecord>, key: string) returns (r: UpstreamRecord)
    requires Carries(records, key)
    ensures r in records && r.recordKey == key && LastFingerprint(records, key) == r.fingerprint
  {
    var init, last := records[..|records| - 1], records[|records| - 1];
    assert records == init + [last];
    if last.recordKey == key { return last; }
    r := LastIsCarried(init, key);
  }

  /** One more batch is publishable when it is valid and its keys can be read where it comes in. */
  lemma PublishableSnoc(rows: seq<StateRow>, scope: StateScope, codeVersion: string,
                        batches: seq<seq<UpstreamRecord>>, batch: seq<UpstreamRecord>)
    requires Publishable(rows, scope, codeVersion, batches)
    ensures var before := Published(rows, scope, codeVersion, Flatten(batches));
      Publishable(rows, scope, codeVersion, batches + [batch]) <==>
        ValidBatch(batch, codeVersion) && AllReadable(before, scope, UpstreamKeys(batch))
  {
    var records := Flatten(batches);
    FlattenMembers(batches);
    FlattenSnoc(batches, batch);
    hide Readable, Published, ValidKeys, Flatten;
    assert forall b :: b in batches + [batch] <==> b in batches || b == batch;
    assert UpstreamKeys(records + batch) == UpstreamKeys(records) + UpstreamKeys(batch);
    forall k | k in UpstreamKeys(batch)
      ensures Readable(Published(rows, scope, codeVersion, records), scope, k) <==> Readable(rows, scope, k)
    {
      ReadableStays(rows, scope, codeVersion, records, k);
    }
  }

  lemma {:induction false} FlattenMembers(batches: seq<seq<UpstreamRecord>>)
    ensures forall r :: r in Flatten(batches) ==> exists b :: b in batches && r in b
  {
    if batches != [] {
      FlattenMembers(batches[..|batches| - 1]);
      assert batches == batches[..|batches| - 1] + [batches[|batches| - 1]];
    }
  }

  predicate NoWork(c: Classified) { c.added == [] && c.altered == [] }

  /** Every batch with something to write was let through: the lease held, and the store
      acknowledged its rows. */
  ghost predicate Granted(classes: seq<Classified>, granted: nat -> bool) {
    forall k :: 0 <= k < |classes| ==> granted(k) || NoWork(classes[k])
  }

  lemma PendingEmptyIff(rows: seq<StateRow>, scope: StateScope, codeVersion: string, batch: seq<UpstreamRecord>, force: bool)
    ensures var c := ClassesOf(rows, scope, codeVersion, batch, force);
      Pending(batch, PendingKeys(c)) == [] <==> NoWork(c)
  {
    var prior, c := Subset(rows, scope, UpstreamKeys(batch)), ClassesOf(rows, scope, codeVersion, batch, force);
    OfClassMembers(batch, prior, codeVersion, force, New);
    OfClassMembers(batch, prior, codeVersion, force, Changed);
    PendingMembers(batch, PendingKeys(c));
    hide OfClass, Pending, Subset, ClassOf;
    var pending := Pending(batch, PendingKeys(c));
    if c.added != [] { assert c.added[0] in c.added && c.added[0] in pending; }
    if c.altered != [] { assert c.altered[0] in c.altered && c.altered[0] in pending; }
    if pending != [] { assert pending[0] in pending && pending[0].recordKey in PendingKeys(c); }
  }

  lemma {:induction false} ClassAt(rows: seq<StateRow>, scope: StateScope, codeVersion: string,
                                  batches: seq<seq<UpstreamRecord>>, force: bool, k: nat)
    requires k < |batches|
    ensures |Classes(rows, scope, codeVersion, batches, force)| == |batches|
    ensures |Classes(rows, scope, codeVersion, batches[..k + 1], force)| == k + 1
    ensures Classes(rows, scope, codeVersion, batches, force)[k] == Classes(rows, scope, codeVersion, batches[..k + 1], force)[k]
    decreases |batches|
  {
    hide ClassesOf, Published, Flatten;
    var init := batches[..|batches| - 1];
    ClassesCount(rows, scope, codeVersion, init, force);
    ClassesCount(rows, scope, codeVersion, batches[..k + 1], force);
    if k < |init| {
      ClassAt(rows, scope, codeVersion, init, force, k);
      assert init[..k + 1] == batches[..k + 1];
    } else {
      assert batches[..k + 1] == batches;
    }
  }

  lemma {:induction false} ClassesCount(rows: seq<StateRow>, scope: StateScope, codeVersion: string, batches: seq<seq<UpstreamRecord>>, force: bool)
    ensures |Classes(rows, scope, codeVersion, batches, force)| == |batches|
  {
    if batches != [] {
      ClassesCount(rows, scope, codeVersion, batches[..|batches| - 1], force);
    }
  }

  lemma NotGranted(rows: seq<StateRow>, scope: StateScope, codeVersion: string,
                   batches: seq<seq<UpstreamRecord>>, force: bool, k: nat, granted: nat -> bool)
    requires k < |batches| && !granted(k)
    requires |Classes(rows, scope, codeVersion, batches[..k + 1], force)| == k + 1
    requires !NoWork(Classes(rows, scope, codeVersion, batches[..k + 1], force)[k])
    ensures !Granted(Classes(rows, scope, codeVersion, batches, force), granted)
  {
    hide Classes;
    ClassAt(rows, scope, codeVersion, batches, force, k);
  }

  /** The publishing loop: look up, classify, upsert what is new or changed once the store
      acknowledged it. However it ends, a prefix of the batches is published. */
  method PublishBatches(adapter: StateAdapter, scope: StateScope, codeVersion: string,
                        batches: seq<seq<UpstreamRecord>>, force: bool, granted: nat -> bool)
    returns (ok: bool, classes: seq<Classified>, ghost published: nat)
    requires adapter.warehouse.history != []
    modifies adapter.warehouse
    ensures adapter.warehouse.history != [] && old(adapter.warehouse.history) <= adapter.warehouse.history
    ensures adapter.warehouse.Current().relations == old(adapter.warehouse.Current()).relations
    ensures OtherScopes(adapter.State(), scope) == OtherScopes(old(adapter.State()), scope)
    ensures ok <==> (Publishable(old(adapter.State()), scope, codeVersion, batches)
                     && Granted(Classes(old(adapter.State()), scope, codeVersion, batches, force), granted))
    ensures published <= |batches| && (ok ==> published == |batches|)
    ensures Publishable(old(adapter.State()), scope, codeVersion, batches[..published])
    ensures adapter.State() == Published(old(adapter.State()), scope, codeVersion, Flatten(batches[..published]))
    ensures ok ==> classes == Classes(old(adapter.State()), scope, codeVersion, batches, force)
  {
    hide Published, Classes, ClassesOf, OfClass, Distinct, MergeRows, Pending, Publishable, ValidBatch, AllReadable, UniqueKeys,
         Subset, PendingKeys, OtherScopes, AsState, ValidKeys, UpstreamKeys, Flatten, NoWork;
    classes := [];
    ghost var rows := adapter.State();
    PassStarts(rows, scope, codeVersion, force);
    for k := 0 to |batches|
      invariant adapter.warehouse.history != [] && old(adapter.warehouse.history) <= adapter.warehouse.history
      invariant adapter.warehouse.Current().relations == old(adapter.warehouse.Current()).relations
      invariant Publishable(rows, scope, codeVersion, batches[..k])
      invariant adapter.State() == Published(rows, scope, codeVersion, Flatten(batches[..k]))
      invariant OtherScopes(adapter.State(), scope) == OtherScopes(rows, scope)
      invariant classes == Classes(rows, scope, codeVersion, batches[..k], force) && |classes| == k
      invariant Granted(classes, granted)
    {
      var batch := batches[k];
      assert batches[..k + 1] == batches[..k] + [batch];
      ghost var before := adapter.State();
      PassSnoc(rows, scope, codeVersion, batches[..k], batch, force);
      PublishableSnoc(rows, scope, codeVersion, batches[..k], batch);
      ValidBatchKeys(batch, codeVersion);
      var prior := adapter.FetchStateSubset(scope, UpstreamKeys(batch));
      if prior.None? {
        Refused(rows, scope, codeVersion, batches, k);
        return false, classes, k;
      }
      var outcome := ClassifyBatch(batch, prior.value, codeVersion, force);
      ClassesUnfold(before, scope, codeVersion, batch, force);
      var pending := Pending(batch, PendingKeys(outcome));
      PendingIsWellFormedIff(before, scope, codeVersion, batch, force);
      if exists r :: r in pending && !AsRecord(r, codeVersion).WellFormed() {
        Refused(rows, scope, codeVersion, batches, k);
        return false, classes, k;
      }
      classes := classes + [outcome];
      PendingUpserts(before, scope, codeVersion, batch, force);
      PendingEmptyIff(before, scope, codeVersion, batch, force);
      if pending == [] {
        MergeNothing(before, scope);
        assert AsState([], codeVersion) == [] by { NoState(codeVersion); }
        continue;
      }
      if !granted(k) {
        NotGranted(rows, scope, codeVersion, batches, force, k, granted);
        return false, classes, k;
      }
      var written := adapter.UpsertState(scope, AsState(pending, codeVersion));
    }
    assert batches[..|batches|] == batches;
    return true, classes, |batches|;
  }

  lemma NoState(codeVersion: string)
    ensures AsState([], codeVersion) == []
  {
  }

  lemma ValidBatchKeys(batch: seq<UpstreamRecord>, codeVersion: string)
    ensures |UpstreamKeys(batch)| == |batch|
    ensures ValidBatch(batch, codeVersion) ==> ValidKeys(UpstreamKeys(batch)) && |batch| <= MAX_STATE_SUBSET_KEYS
  {
  }

  lemma PassStarts(rows: seq<StateRow>, scope: StateScope, codeVersion: string, force: bool)
    ensures forall batches: seq<seq<UpstreamRecord>> ::
      && Published(rows, scope, codeVersion, Flatten(batches[..0])) == rows
      && Classes(rows, scope, codeVersion, batches[..0], force) == []
      && Publishable(rows, scope, codeVersion, batches[..0])
  {
  }

  /** A batch that is refused leaves the whole unpublishable. */
  lemma Refused(rows: seq<StateRow>, scope: StateScope, codeVersion: string, batches: seq<seq<UpstreamRecord>>, k: nat)
    requires k < |batches| && !Publishable(rows, scope, codeVersion, batches[..k + 1])
    ensures !Publishable(rows, scope, codeVersion, batches)
  {
    FlattenPrefix(batches, k + 1);
    hide ValidBatch, Readable, Flatten;
    if Publishable(rows, scope, codeVersion, batches) {
      var part, all := UpstreamKeys(Flatten(batches[..k + 1])), UpstreamKeys(Flatten(batches));
      assert forall i :: 0 <= i < |part| ==> part[i] == all[i];
      assert false;
    }
  }

  lemma {:induction false} FlattenPrefix(batches: seq<seq<UpstreamRecord>>, k: nat)
    requires k <= |batches|
    ensures Flatten(batches[..k]) <= Flatten(batches)
    decreases |batches|
  {
    if k < |batches| {
      var init := batches[..|batches| - 1];
      assert init[..k] == batches[..k];
      FlattenPrefix(init, k);
    } else {
      assert batches[..k] == batches;
    }
  }

  lemma ClassesUnfold(rows: seq<StateRow>, scope: StateScope, codeVersion: string, batch: seq<UpstreamRecord>, force: bool)
    ensures var prior := Subset(rows, scope, UpstreamKeys(batch));
      ClassesOf(rows, scope, codeVersion, batch, force)
        == Classified(OfClass(batch, prior, codeVersion, force, New), OfClass(batch, prior, codeVersion, force, Changed),
                      OfClass(batch, prior, codeVersion, force, Unchanged))
    ensures |UpstreamKeys(batch)| == |batch|
  {
  }

  /** Whether a batch holds a record that cannot be stored shows among the pending ones. */
  lemma PendingIsWellFormedIff(rows: seq<StateRow>, scope: StateScope, codeVersion: string, batch: seq<UpstreamRecord>, force: bool)
    requires AllReadable(rows, scope, UpstreamKeys(batch)) && ValidKeys(UpstreamKeys(batch)) && |batch| <= MAX_STATE_SUBSET_KEYS
    ensures var pending := Pending(batch, PendingKeys(ClassesOf(rows, scope, codeVersion, batch, force)));
      ValidBatch(batch, codeVersion) <==> forall r :: r in pending ==> AsRecord(r, codeVersion).WellFormed()
  {
    hide ClassesOf, PendingKeys, Readable;
    var keys := PendingKeys(ClassesOf(rows, scope, codeVersion, batch, force));
    PendingMembers(batch, keys);
    hide Pending;
    forall r | r in batch
      ensures !AsRecord(r, codeVersion).WellFormed() ==> r.recordKey in keys
    {
      KeyIn(batch, r);
      NotPending(rows, scope, codeVersion, batch, force, r);
    }
  }

  /** Upserting what is pending publishes the batch. */
  lemma PendingUpserts(rows: seq<StateRow>, scope: StateScope, codeVersion: string, batch: seq<UpstreamRecord>, force: bool)
    requires ValidBatch(batch, codeVersion) && AllReadable(rows, scope, UpstreamKeys(batch))
    ensures var pending := AsState(Pending(batch, PendingKeys(ClassesOf(rows, scope, codeVersion, batch, force))), codeVersion);
      && UniqueKeys(pending)
      && MergeRows(rows, scope, pending, false) == Published(rows, scope, codeVersion, batch)
      && OtherScopes(MergeRows(rows, scope, pending, false), scope) == OtherScopes(rows, scope)
  {
    hide ClassesOf, PendingKeys, Published, MergeRows, AllReadable, Distinct, AsState, OtherScopes;
    var keys := PendingKeys(ClassesOf(rows, scope, codeVersion, batch, force));
    PendingDistinct(batch, keys);
    PendingPublishesBatch(rows, scope, codeVersion, batch, force);
    UpsertPublishes(rows, scope, codeVersion, Pending(batch, keys));
    PublishedAt(rows, scope, codeVersion, batch, StateKey(scope, ""));
  }

  /** Delete the keys of one page that was let through, after the keys deleted before. */
  method DeletePage(adapter: StateAdapter, scope: StateScope, page: seq<StateRecord>, ghost pageSize: nat, ghost nonce: string,
                    ghost table: seq<StateRow>, ghost done: seq<StateRecord>)
    requires adapter.warehouse.history != [] && Accepted(page, pageSize, nonce)
    requires adapter.State() == DeleteRows(table, scope, RecordKeys(done))
    modifies adapter.warehouse
    ensures adapter.warehouse.history != [] && old(adapter.warehouse.history) <= adapter.warehouse.history
    ensures adapter.warehouse.Current().relations == old(adapter.warehouse.Current()).relations
    ensures adapter.State() == DeleteRows(table, scope, RecordKeys(done + page))
  {
    hide DeleteRows, RecordKeys, Accepted, ValidKeys;
    AcceptedCanGo(page, pageSize, nonce);
    DeleteAppend(table, scope, RecordKeys(done), RecordKeys(page));
    KeysConcat(done, page);
    var gone := adapter.DeleteState(scope, RecordKeys(page));
  }

  /** The deleting loop: every stale page's keys leave the state table before the next page is
      fetched, once the lease was verified and the store acknowledged the page. A page that is let
      through can be deleted, so only the paging and that grant can fail. */
  method DeleteStalePages(adapter: StateAdapter, scope: StateScope, reader: StatePageReader, granted: nat -> bool)
    returns (ok: bool, ghost done: seq<StateRecord>, ghost asked: nat)
    requires reader.Valid() && !reader.closed && reader.warehouse == adapter.warehouse
    modifies adapter.warehouse
    ensures adapter.warehouse.history != [] && old(adapter.warehouse.history) <= adapter.warehouse.history
    ensures adapter.warehouse.Current().relations == old(adapter.warehouse.Current()).relations
    ensures adapter.State() == DeleteRows(old(adapter.State()), scope, RecordKeys(done))
    ensures ok <==> (Passes(old(reader.Rows()), reader.pageSize, reader.nonce) && forall i :: 0 <= i < asked ==> granted(i))
    ensures asked <= |Fetched(old(reader.Rows()), reader.pageSize)|
    ensures done <= Fetched(old(reader.Rows()), reader.pageSize)
    ensures ok ==> done == Fetched(old(reader.Rows()), reader.pageSize)
  {
    hide Accepted, Beyond, Answer, Available, IsNonce, EncodeCursor, Onward, Passes, Fetched, FetchesFor, Rest, FirstN, DeleteRows,
         RecordKeys, Matching;
    ghost var table := adapter.State();
    var stream := new PageStream(reader);
    done, asked := [], 0;
    NothingDeleted(table, scope);
    var ordinal := 0;
    while true
      invariant stream.Valid() && stream.reader == reader && fresh(stream) && stream.all == old(reader.Rows()) && stream.done == done
      invariant adapter.warehouse.history != [] && old(adapter.warehouse.history) <= adapter.warehouse.history
      invariant adapter.warehouse.Current().relations == old(adapter.warehouse.Current()).relations
      invariant adapter.State() == DeleteRows(table, scope, RecordKeys(done))
      invariant asked == ordinal <= |done| && done <= Fetched(stream.all, reader.pageSize)
      invariant forall i :: 0 <= i < asked ==> granted(i)
      decreases stream.ToGo()
    {
      var pulled := stream.Pull();
      match pulled
      case Failed => return false, done, asked;
      case Exhausted => return true, done, asked;
      case Yield(page) =>
        asked := asked + 1;
        if !granted(ordinal) {
          return false, done, asked;
        }
        DeletePage(adapter, scope, page, reader.pageSize, reader.nonce, table, done);
        done := done + page;
        ordinal := ordinal + 1;
    }
  }

  lemma NothingDeleted(rows: seq<StateRow>, scope: StateScope)
    ensures DeleteRows(rows, scope, RecordKeys([])) == rows
  {
    assert RecordKeys([]) == [];
    DeleteNothing(rows, scope);
  }

  lemma AcceptedCanGo(page: seq<StateRecord>, pageSize: nat, nonce: string)
    requires Accepted(page, pageSize, nonce)
    ensures ValidKeys(RecordKeys(page))
  {
    AcceptedIsStrict(page, pageSize, nonce);
    StrictLists(page);
    hide Strict, EncodeCursor, StrLt;
    forall key | key in RecordKeys(page)
      ensures key != ""
    {
      var i := KeyAt(page, key);
      assert page[i] in page;
    }
  }

  /** Where a pass can stand when it ends, however it ends: some batches are published, and after
      all of them some stale keys are gone. */
  ghost predicate CutOff(before: seq<StateRow>, after: seq<StateRow>, scope: StateScope, codeVersion: string,
                         batches: seq<seq<UpstreamRecord>>, upstream: set<string>)
  {
    exists published: nat, gone :: PartWay(before, after, scope, codeVersion, batches, upstream, published, gone)
  }

  ghost predicate PartWay(before: seq<StateRow>, after: seq<StateRow>, scope: StateScope, codeVersion: string,
                          batches: seq<seq<UpstreamRecord>>, upstream: set<string>, published: nat, gone: seq<string>)
  {
    && published <= |batches| && (gone != [] ==> published == |batches|)
    && Publishable(before, scope, codeVersion, batches[..published])
    && after == DeleteRows(Published(before, scope, codeVersion, Flatten(batches[..published])), scope, gone)
    && forall key :: key in gone ==> key !in upstream
  }

  /** Publish every batch, then delete page by page what is no longer upstream. It succeeds exactly
      when the batches can be published, the reader opens, every page is let through, and every
      batch with something to write and every stale page is granted. */
  method ReconcileBatches(adapter: StateAdapter, scope: StateScope, codeVersion: string, batches: seq<seq<UpstreamRecord>>,
                          probe: Probe, force: bool, pageSize: nat, nonce: string, batchGranted: nat -> bool, pageGranted: nat -> bool)
    returns (ok: bool, classes: seq<Classified>, ghost asked: nat)
    requires adapter.warehouse.history != [] && IsNonce(nonce) && Available(adapter.warehouse.Current(), Some(probe))
    modifies adapter.warehouse
    ensures adapter.warehouse.history != [] && adapter.warehouse.Current().relations == old(adapter.warehouse.Current()).relations
    ensures OtherScopes(adapter.State(), scope) == OtherScopes(old(adapter.State()), scope)
    ensures var now := old(adapter.warehouse.Current());
      var published := now.(state := Published(now.state, scope, codeVersion, Flatten(batches)));
      && (ok <==>
            && Publishable(now.state, scope, codeVersion, batches)
            && Granted(Classes(now.state, scope, codeVersion, batches, force), batchGranted)
            && 1 <= pageSize <= MAX_STATE_PAGE_SIZE
            && Passes(Answer(published, scope, Some(probe), None), pageSize, nonce)
            && forall i :: 0 <= i < asked ==> pageGranted(i))
      && (pageSize >= 1 ==> asked <= |Fetched(Answer(published, scope, Some(probe), None), pageSize)|)
      && (ok ==>
            && classes == Classes(now.state, scope, codeVersion, batches, force)
            && adapter.State() ==
                 DeleteRows(published.state, scope, Ascending(StaleKeys(published.state, scope, KeysOf(now.relations[probe])))))
      && CutOff(now.state, adapter.State(), scope, codeVersion, batches, KeysOf(now.relations[probe]))
  {
    hide Published, Classes, Publishable, DeleteRows, Flatten, Answer, Passes, IsNonce, OtherScopes, StaleKeys, Fetched, Granted, PartWay;
    ghost var now := adapter.warehouse.Current();
    ghost var upto;
    asked := 0;
    ok, classes, upto := PublishBatches(adapter, scope, codeVersion, batches, force, batchGranted);
    CutOffPublishing(now.state, scope, codeVersion, batches, KeysOf(now.relations[probe]), upto);
    if !ok { return; }
    ghost var published := adapter.warehouse.Current();
    assert batches[..|batches|] == batches;
    assert published == now.(state := adapter.State());
    var reader := OpenStatePageReader(adapter.warehouse, scope, Some(probe), pageSize, nonce);
    if reader.None? { return false, classes, asked; }
    ghost var rows := reader.value.Rows();
    assert rows == Answer(published, scope, Some(probe), None);
    ghost var done;
    ok, done, asked := DeleteStalePages(adapter, scope, reader.value, pageGranted);
    DeleteValues(published.state, scope, RecordKeys(done), StateKey(scope, ""));
    AnswerHolds(published, scope, Some(probe));
    DoneIsStale(rows, pageSize, done);
    CutOffDeleting(now.state, scope, codeVersion, batches, KeysOf(now.relations[probe]), RecordKeys(done));
    if ok {
      FetchedKeys(rows, pageSize, nonce);
    }
  }

  lemma CutOffPublishing(before: seq<StateRow>, scope: StateScope, codeVersion: string,
                         batches: seq<seq<UpstreamRecord>>, upstream: set<string>, published: nat)
    requires published <= |batches| && Publishable(before, scope, codeVersion, batches[..published])
    ensures CutOff(before, Published(before, scope, codeVersion, Flatten(batches[..published])), scope, codeVersion, batches, upstream)
  {
    hide Published, Publishable, DeleteRows, Flatten;
    var after := Published(before, scope, codeVersion, Flatten(batches[..published]));
    DeleteNothing(after, scope);
    assert PartWay(before, after, scope, codeVersion, batches, upstream, published, []);
  }

  lemma CutOffDeleting(before: seq<StateRow>, scope: StateScope, codeVersion: string,
                       batches: seq<seq<UpstreamRecord>>, upstream: set<string>, gone: seq<string>)
    requires Publishable(before, scope, codeVersion, batches) && forall key :: key in gone ==> key !in upstream
    ensures CutOff(before, DeleteRows(Published(before, scope, codeVersion, Flatten(batches)), scope, gone),
      scope, codeVersion, batches, upstream)
  {
    hide Published, Publishable, DeleteRows, Flatten;
    assert batches[..|batches|] == batches;
    assert PartWay(before, DeleteRows(Published(before, scope, codeVersion, Flatten(batches)), scope, gone),
      scope, codeVersion, batches, upstream, |batches|, gone);
  }

  lemma DoneIsStale(rows: seq<StateRecord>, pageSize: nat, done: seq<StateRecord>)
    requires pageSize >= 1 && done <= Fetched(rows, pageSize)
    ensures forall key :: key in RecordKeys(done) ==> exists r :: r in rows && r.recordKey == key
  {
    FetchedMembers(rows, pageSize);
    hide Fetched;
    forall key | key in RecordKeys(done)
      ensures exists r :: r in rows && r.recordKey == key
    {
      var i := KeyAt(done, key);
      assert done[i] in Fetched(rows, pageSize);
    }
  }

  // ----- A pass over a relation -----

  /** Every row can be stored, and the table has at most one well-formed row for its key. */
  ghost predicate CanPublish(rows: seq<StateRow>, scope: StateScope, codeVersion: string, relation: seq<RelationRow>) {
    forall r :: r in Records(relation) ==> AsRecord(r, codeVersion).WellFormed() && Readable(rows, scope, r.recordKey)
  }

  lemma UpstreamKeysAppend(a: seq<UpstreamRecord>, b: seq<UpstreamRecord>)
    ensures UpstreamKeys(a + b) == UpstreamKeys(a) + UpstreamKeys(b)
  {
  }

  lemma DistinctParts<T>(a: seq<T>, b: seq<T>)
    requires Distinct(a + b)
    ensures Distinct(a) && Distinct(b)
  {
    forall i, j | 0 <= i < j < |a| ensures a[i] != a[j] { assert (a + b)[i] == a[i] && (a + b)[j] == a[j]; }
    forall i, j | 0 <= i < j < |b| ensures b[i] != b[j] { assert (a + b)[|a| + i] == b[i] && (a + b)[|a| + j] == b[j]; }
  }

  lemma {:induction false} BatchKeysDistinct(batches: seq<seq<UpstreamRecord>>)
    requires Distinct(UpstreamKeys(Flatten(batches)))
    ensures forall b :: b in batches ==> Distinct(UpstreamKeys(b))
    ensures forall b, r :: b in batches && r in b ==> r in Flatten(batches)
  {
    if batches != [] {
      var init, last := batches[..|batches| - 1], batches[|batches| - 1];
      assert batches == init + [last];
      UpstreamKeysAppend(Flatten(init), last);
      DistinctParts(UpstreamKeys(Flatten(init)), UpstreamKeys(last));
      hide Distinct, UpstreamKeys;
      BatchKeysDistinct(init);
    }
  }

  /** However the relation is delivered and cut up, the batches can be published exactly when its
      rows can. */
  lemma PublishableIff(rows: seq<StateRow>, scope: StateScope, codeVersion: string,
                       relation: seq<RelationRow>, pages: seq<seq<RelationRow>>, size: nat)
    requires 1 <= size <= MAX_READ_BATCH_SIZE && KeyDomainValid(relation) && Delivers(pages, relation)
    ensures Publishable(rows, scope, codeVersion, Batches(pages, size)) <==> CanPublish(rows, scope, codeVersion, relation)
  {
    var batches := Batches(pages, size);
    var records := Flatten(batches);
    BatchesCarryRelation(pages, relation, size);
    BatchesTile(pages, size);
    BatchKeysDistinct(batches);
    FlattenMembers(batches);
    hide Batches, Flatten, Records, Distinct, Readable, KeyDomainValid, Delivers;
    if CanPublish(rows, scope, codeVersion, relation) {
      forall b | b in batches
        ensures ValidBatch(b, codeVersion)
      {
        forall r | r in b ensures AsRecord(r, codeVersion).WellFormed() { assert r in records; }
        forall i | 0 <= i < |b| ensures UpstreamKeys(b)[i] != "" { assert AsRecord(b[i], codeVersion).WellFormed(); }
      }
      forall k | k in UpstreamKeys(records)
        ensures Readable(rows, scope, k)
      {
        CarriesIff(records, k);
      }
    }
    if Publishable(rows, scope, codeVersion, batches) {
      forall r | r in Records(relation)
        ensures AsRecord(r, codeVersion).WellFormed() && Readable(rows, scope, r.recordKey)
      {
        assert r in records;
        KeyIn(records, r);
      }
    }
  }

  /** Everything a pass aims at: the key column identifies the rows, each can be stored, and the
      scope is in line with them. */
  ghost predicate Settled(now: Snapshot, scope: StateScope, codeVersion: string, probe: Probe) {
    && probe in now.relations && KeyDomainValid(now.relations[probe])
    && (forall r :: r in Records(now.relations[probe]) ==> AsRecord(r, codeVersion).WellFormed())
    && InLine(now.state, scope, codeVersion, Records(now.relations[probe]))
  }

  /** The order of the records does not matter when each key comes once. */
  lemma InLineAnyOrder(rows: seq<StateRow>, scope: StateScope, codeVersion: string, a: seq<UpstreamRecord>, b: seq<UpstreamRecord>)
    requires Distinct(UpstreamKeys(a)) && Distinct(UpstreamKeys(b)) && forall r :: r in a <==> r in b
    ensures InLine(rows, scope, codeVersion, a) <==> InLine(rows, scope, codeVersion, b)
  {
    hide Distinct, ValuesAt, LastFingerprint;
    forall key ensures Carries(a, key) <==> Carries(b, key) {}
    forall key | Carries(a, key)
      ensures LastFingerprint(a, key) == LastFingerprint(b, key)
    {
      var r :| r in a && r.recordKey == key;
      LastOfDistinct(a, r);
      LastOfDistinct(b, r);
    }
  }

  /** The whole pass over a relation. The key column is checked before the first batch; then the
      rows are published in whatever order they come, and what is no longer in the relation is
      deleted. A pass that succeeds leaves the scope in line with the relation, and the next one
      succeeds without anything to do; and however a pass ends, no other scope is touched. */
  method ReconcileScope(adapter: StateAdapter, scope: StateScope, codeVersion: string, probe: Probe, pages: seq<seq<RelationRow>>,
                        force: bool, batchSize: nat, nonce: string, batchGranted: nat -> bool, pageGranted: nat -> bool)
    returns (ok: bool, classes: seq<Classified>, ghost asked: nat)
    requires adapter.warehouse.history != [] && IsNonce(nonce)
    requires probe in adapter.warehouse.Current().relations ==> Delivers(pages, adapter.warehouse.Current().relations[probe])
    modifies adapter.warehouse
    ensures adapter.warehouse.history != [] && adapter.warehouse.Current().relations == old(adapter.warehouse.Current()).relations
    ensures OtherScopes(adapter.State(), scope) == OtherScopes(old(adapter.State()), scope)
    ensures var now := old(adapter.warehouse.Current());
      if !(1 <= batchSize <= 100000) || probe !in now.relations || !KeyDomainValid(now.relations[probe])
      then !ok && adapter.State() == now.state
      else
        var relation, batches := now.relations[probe], Batches(pages, batchSize);
        var published := now.(state := Published(now.state, scope, codeVersion, Flatten(batches)));
        && (ok <==>
              && CanPublish(now.state, scope, codeVersion, relation)
              && Granted(Classes(now.state, scope, codeVersion, batches, force), batchGranted)
              && Passes(Answer(published, scope, Some(probe), None), batchSize, nonce)
              && forall i :: 0 <= i < asked ==> pageGranted(i))
        && (ok ==>
              && classes == Classes(now.state, scope, codeVersion, batches, force)
              && adapter.State() == DeleteRows(published.state, scope, Ascending(StaleKeys(published.state, scope, KeysOf(relation)))))
        && CutOff(now.state, adapter.State(), scope, codeVersion, batches, KeysOf(relation))
    ensures ok ==> Settled(adapter.warehouse.Current(), scope, codeVersion, probe)
    ensures Settled(old(adapter.warehouse.Current()), scope, codeVersion, probe) && 1 <= batchSize <= 100000 && !force ==>
      ok && NothingToDo(classes) && adapter.State() == old(adapter.State())
  {
    hide Published, Classes, Publishable, DeleteRows, Flatten, Answer, Passes, IsNonce, OtherScopes, StaleKeys, Fetched, Granted,
         CutOff, Settled, KeyDomainValid, Delivers, Batches, CanPublish, NothingToDo;
    ghost var now := adapter.warehouse.Current();
    asked := 0;
    if probe !in adapter.warehouse.Current().relations {
      NotSettled(now, scope, codeVersion, probe);
      return false, [], asked;
    }
    var batches := ReadBatches(adapter.warehouse.Current().relations[probe], pages, batchSize);
    if batches.None? {
      if 1 <= batchSize <= MAX_READ_BATCH_SIZE {
        NotSettled(now, scope, codeVersion, probe);
      }
      return false, [], asked;
    }
    PublishableIff(now.state, scope, codeVersion, now.relations[probe], pages, batchSize);
    ok, classes, asked := ReconcileBatches(adapter, scope, codeVersion, batches.value, probe, force, batchSize, nonce, batchGranted, pageGranted);
    if ok {
      PassSettles(now, scope, codeVersion, probe, pages, batchSize);
      assert adapter.warehouse.Current() == now.(state := adapter.State());
    }
    if Settled(now, scope, codeVersion, probe) && !force {
      SettledPass(now, scope, codeVersion, probe, pages, batchSize, nonce, batchGranted);
    }
  }

  lemma NotSettled(now: Snapshot, scope: StateScope, codeVersion: string, probe: Probe)
    requires probe !in now.relations || !KeyDomainValid(now.relations[probe])
    ensures !Settled(now, scope, codeVersion, probe)
  {
  }

  // ----- Convergence -----

  /** At most one row for every upstream key: what a pass that could look them up has seen. */
  predicate Single(rows: seq<StateRow>, scope: StateScope, records: seq<UpstreamRecord>) {
    forall r :: r in records ==> |ValuesAt(rows, StateKey(scope, r.recordKey))| <= 1
  }

  lemma PublishableIsSingle(rows: seq<StateRow>, scope: StateScope, codeVersion: string, batches: seq<seq<UpstreamRecord>>)
    requires Publishable(rows, scope, codeVersion, batches)
    ensures Single(rows, scope, Flatten(batches))
  {
    hide ValuesAt, ValidBatch, Flatten;
    var records := Flatten(batches);
    forall r | r in records
      ensures |ValuesAt(rows, StateKey(scope, r.recordKey))| <= 1
    {
      KeyIn(records, r);
      assert Readable(rows, scope, r.recordKey);
    }
  }

  lemma {:induction false} StaleIffHeld(rows: seq<StateRow>, scope: StateScope, upstream: set<string>, key: string)
    ensures key in StaleKeys(rows, scope, upstream) <==> key !in upstream && ValuesAt(rows, StateKey(scope, key)) != []
  {
    InAllKeys(rows, StateKey(scope, key));
    if key in StaleKeys(rows, scope, upstream) {
      var row :| row in rows && row.scope == scope && row.record.recordKey == key;
      assert row.Key() in AllKeys(rows);
    }
    if ValuesAt(rows, StateKey(scope, key)) != [] {
      var row :| row in rows && row.Key() == StateKey(scope, key);
      assert row.record.recordKey == key;
    }
  }

  lemma AscendingHolds(s: set<string>, key: string)
    ensures key in Ascending(s) <==> key in s
  {
  }

  /** After a pass the scope holds one row for every upstream key, with the fingerprint it last
      carried and the publishing code version, and no other row, whatever stale rows it held before;
      every other scope's rows are as they were, in order. */
  lemma PassConverges(rows: seq<StateRow>, scope: StateScope, codeVersion: string,
                      records: seq<UpstreamRecord>, upstream: set<string>, key: string)
    requires Single(rows, scope, records) && forall k :: k in upstream <==> Carries(records, k)
    ensures var published := Published(rows, scope, codeVersion, records);
      var after := DeleteRows(published, scope, Ascending(StaleKeys(published, scope, upstream)));
      && OtherScopes(after, scope) == OtherScopes(rows, scope)
      && ValuesAt(after, StateKey(scope, key))
           == if Carries(records, key) then [StateValue(LastFingerprint(records, key), codeVersion)] else []
  {
    var published := Published(rows, scope, codeVersion, records);
    var stale := Ascending(StaleKeys(published, scope, upstream));
    var k := StateKey(scope, key);
    PublishedAt(rows, scope, codeVersion, records, k);
    StaleIffHeld(published, scope, upstream, key);
    AscendingHolds(StaleKeys(published, scope, upstream), key);
    DeleteValues(published, scope, stale, k);
    hide ValuesAt, Published, DeleteRows, OtherScopes, StaleKeys, Ascending, LastFingerprint;
    if Carries(records, key) {
      var r :| r in records && r.recordKey == key;
      assert |ValuesAt(rows, k)| <= 1;
      assert Copies(1, StateValue(LastFingerprint(records, key), codeVersion)) == [StateValue(LastFingerprint(records, key), codeVersion)];
    }
  }

  /** No key comes with two different fingerprints. */
  ghost predicate Functional(records: seq<UpstreamRecord>) {
    forall a, b :: a in records && b in records && a.recordKey == b.recordKey ==> a.fingerprint == b.fingerprint
  }

  /** The scope is the upstream's key-to-fingerprint map, one row each. */
  ghost predicate InLine(rows: seq<StateRow>, scope: StateScope, codeVersion: string, records: seq<UpstreamRecord>) {
    forall key :: ValuesAt(rows, StateKey(scope, key))
      == if Carries(records, key) then [StateValue(LastFingerprint(records, key), codeVersion)] else []
  }

  /** A finished pass brings its scope in line. */
  lemma PassBringsInLine(rows: seq<StateRow>, scope: StateScope, codeVersion: string,
                         records: seq<UpstreamRecord>, upstream: set<string>)
    requires Single(rows, scope, records) && forall k :: k in upstream <==> Carries(records, k)
    ensures var published := Published(rows, scope, codeVersion, records);
      InLine(DeleteRows(published, scope, Ascending(StaleKeys(published, scope, upstream))), scope, codeVersion, records)
  {
    hide Published, DeleteRows, LastFingerprint, StaleKeys, ValuesAt, Single, Carries, OtherScopes;
    forall key: string {
      PassConverges(rows, scope, codeVersion, records, upstream, key);
    }
  }

  ghost predicate NothingToDo(classes: seq<Classified>) {
    forall c :: c in classes ==> NoWork(c)
  }

  predicate Held(rows: seq<StateRow>, scope: StateScope, codeVersion: string, r: UpstreamRecord) {
    ValuesAt(rows, StateKey(scope, r.recordKey)) == [StateValue(r.fingerprint, codeVersion)]
  }

  /** Every record is already in the table, as it is. */
  ghost predicate Agrees(rows: seq<StateRow>, scope: StateScope, codeVersion: string, records: seq<UpstreamRecord>) {
    forall r :: r in records ==> Held(rows, scope, codeVersion, r)
  }

  /** Publishing what the table already holds leaves it as it is. */
  lemma {:induction false} RepublishingIsIdle(rows: seq<StateRow>, scope: StateScope, codeVersion: string, records: seq<UpstreamRecord>)
    requires Agrees(rows, scope, codeVersion, records)
    ensures Published(rows, scope, codeVersion, records) == rows
  {
    if records != [] {
      var init, last := records[..|records| - 1], records[|records| - 1];
      assert Held(rows, scope, codeVersion, last);
      RepublishingIsIdle(rows, scope, codeVersion, init);
      UpsertHeld(rows, scope, AsRecord(last, codeVersion));
    }
  }

  lemma UnchangedIff(rows: seq<StateRow>, scope: StateScope, codeVersion: string, batch: seq<UpstreamRecord>)
    requires Single(rows, scope, batch)
    ensures var c := ClassesOf(rows, scope, codeVersion, batch, false);
      c.added == [] && c.altered == [] <==> Agrees(rows, scope, codeVersion, batch)
  {
    var prior := Subset(rows, scope, UpstreamKeys(batch));
    var c := ClassesOf(rows, scope, codeVersion, batch, false);
    OfClassMembers(batch, prior, codeVersion, false, New);
    OfClassMembers(batch, prior, codeVersion, false, Changed);
    forall r | r in batch
      ensures ClassOf(r, prior, codeVersion, false) == Unchanged <==> Held(rows, scope, codeVersion, r)
    {
      KeyIn(batch, r);
      hide ValuesAt, OfClass;
      assert |ValuesAt(rows, StateKey(scope, r.recordKey))| <= 1;
    }
    hide OfClass, Held, Subset, ClassOf;
    if c.added != [] { assert c.added[0] in c.added; }
    if c.altered != [] { assert c.altered[0] in c.altered; }
  }

  /** A whole unforced pass has nothing to do exactly when every upstream record agrees with the table. */
  lemma {:induction false} IdlePassIff(rows: seq<StateRow>, scope: StateScope, codeVersion: string, batches: seq<seq<UpstreamRecord>>)
    requires Single(rows, scope, Flatten(batches))
    ensures NothingToDo(Classes(rows, scope, codeVersion, batches, false)) <==> Agrees(rows, scope, codeVersion, Flatten(batches))
    decreases |batches|
  {
    if batches != [] {
      var init, last := batches[..|batches| - 1], batches[|batches| - 1];
      assert batches == init + [last];
      PassSnoc(rows, scope, codeVersion, init, last, false);
      hide ClassesOf, Published, Held, ValuesAt, Flatten, Classes;
      var done := Flatten(init);
      assert forall r :: r in done + last <==> r in done || r in last;
      IdlePassIff(rows, scope, codeVersion, init);
      var before := Published(rows, scope, codeVersion, done);
      NothingToDoSnoc(Classes(rows, scope, codeVersion, init, false), ClassesOf(before, scope, codeVersion, last, false));
      if Agrees(rows, scope, codeVersion, done) {
        RepublishingIsIdle(rows, scope, codeVersion, done);
        UnchangedIff(rows, scope, codeVersion, last);
      }
    } else {
      assert Flatten(batches) == [];
    }
  }

  lemma NothingToDoSnoc(classes: seq<Classified>, c: Classified)
    ensures NothingToDo(classes + [c]) <==> NothingToDo(classes) && c.added == [] && c.altered == []
  {
    assert c in classes + [c];
  }

  /** On a scope that was brought in line, a second pass classifies every record as unchanged and
      finds no stale key, exactly when no upstream key carries two fingerprints. */
  lemma SecondPassIdleIff(rows: seq<StateRow>, scope: StateScope, codeVersion: string,
                          batches: seq<seq<UpstreamRecord>>, upstream: set<string>)
    requires InLine(rows, scope, codeVersion, Flatten(batches))
    requires forall k :: k in upstream <==> Carries(Flatten(batches), k)
    ensures NothingToDo(Classes(rows, scope, codeVersion, batches, false)) <==> Functional(Flatten(batches))
    ensures StaleKeys(rows, scope, upstream) == {}
  {
    var records := Flatten(batches);
    hide Classes, Flatten, LastFingerprint, ValuesAt, StaleKeys;
    forall r | r in records
      ensures Carries(records, r.recordKey)
      ensures exists last :: last in records && last.recordKey == r.recordKey && LastFingerprint(records, r.recordKey) == last.fingerprint
    {
      var last := LastIsCarried(records, r.recordKey);
    }
    forall key ensures key !in StaleKeys(rows, scope, upstream) {
      StaleIffHeld(rows, scope, upstream, key);
    }
    IdlePassIff(rows, scope, codeVersion, batches);
  }

  lemma DistinctIsFunctional(records: seq<UpstreamRecord>)
    requires Distinct(UpstreamKeys(records))
    ensures Functional(records)
  {
    KeysIdentify(records);
  }

  lemma RelationIsCarried(relation: seq<RelationRow>, pages: seq<seq<RelationRow>>, size: nat)
    requires size > 0 && KeyDomainValid(relation) && Delivers(pages, relation)
    ensures forall k :: k in KeysOf(relation) <==> Carries(Flatten(Batches(pages, size)), k)
  {
    BatchesCarryRelation(pages, relation, size);
    KeysAreRecords(relation);
  }

  /** A pass over a relation whose key column was checked is followed by idle ones: whatever the
      order of delivery, the next pass has nothing to write and nothing to delete. */
  lemma SecondPassIsIdle(rows: seq<StateRow>, scope: StateScope, codeVersion: string,
                         relation: seq<RelationRow>, pages: seq<seq<RelationRow>>, size: nat)
    requires size > 0 && KeyDomainValid(relation) && Delivers(pages, relation)
    requires InLine(rows, scope, codeVersion, Records(relation))
    ensures NothingToDo(Classes(rows, scope, codeVersion, Batches(pages, size), false))
    ensures Published(rows, scope, codeVersion, Flatten(Batches(pages, size))) == rows
    ensures StaleKeys(rows, scope, KeysOf(relation)) == {}
  {
    hide Classes, Flatten, Batches, Published, InLine, StaleKeys, Records, Delivers, Functional, Carries, NothingToDo, Agrees, Single;
    var batches := Batches(pages, size);
    BatchesCarryRelation(pages, relation, size);
    InLineAnyOrder(rows, scope, codeVersion, Records(relation), Flatten(batches));
    RelationIsCarried(relation, pages, size);
    DistinctIsFunctional(Flatten(batches));
    SecondPassIdleIff(rows, scope, codeVersion, batches, KeysOf(relation));
    InLineIsSingle(rows, scope, codeVersion, Flatten(batches));
    IdlePassIff(rows, scope, codeVersion, batches);
    RepublishingIsIdle(rows, scope, codeVersion, Flatten(batches));
  }

  lemma InLineIsSingle(rows: seq<StateRow>, scope: StateScope, codeVersion: string, records: seq<UpstreamRecord>)
    requires InLine(rows, scope, codeVersion, records)
    ensures Single(rows, scope, records)
  {
    hide ValuesAt, LastFingerprint;
  }

  lemma PassSettles(now: Snapshot, scope: StateScope, codeVersion: string, probe: Probe, pages: seq<seq<RelationRow>>, size: nat)
    requires 1 <= size <= MAX_READ_BATCH_SIZE && probe in now.relations && KeyDomainValid(now.relations[probe])
    requires Delivers(pages, now.relations[probe]) && CanPublish(now.state, scope, codeVersion, now.relations[probe])
    ensures var published := Published(now.state, scope, codeVersion, Flatten(Batches(pages, size)));
      var after := DeleteRows(published, scope, Ascending(StaleKeys(published, scope, KeysOf(now.relations[probe]))));
      Settled(now.(state := after), scope, codeVersion, probe)
  {
    hide Published, DeleteRows, Flatten, Batches, StaleKeys, Ascending, InLine, Records, Delivers, KeyDomainValid, Publishable, Carries, Readable,
         Distinct;
    var relation, batches := now.relations[probe], Batches(pages, size);
    PublishableIff(now.state, scope, codeVersion, relation, pages, size);
    PublishableIsSingle(now.state, scope, codeVersion, batches);
    RelationIsCarried(relation, pages, size);
    PassBringsInLine(now.state, scope, codeVersion, Flatten(batches), KeysOf(relation));
    BatchesCarryRelation(pages, relation, size);
    KeyDomainKeys(relation);
    var published := Published(now.state, scope, codeVersion, Flatten(batches));
    var after := DeleteRows(published, scope, Ascending(StaleKeys(published, scope, KeysOf(relation))));
    InLineAnyOrder(after, scope, codeVersion, Records(relation), Flatten(batches));
  }

  lemma KeyDomainKeys(relation: seq<RelationRow>)
    requires KeyDomainValid(relation)
    ensures Distinct(UpstreamKeys(Records(relation)))
  {
  }

  /** An unforced pass over a settled scope asks for no grant, and succeeds. */
  lemma SettledPass(now: Snapshot, scope: StateScope, codeVersion: string, probe: Probe, pages: seq<seq<RelationRow>>, size: nat,
                    nonce: string, granted: nat -> bool)
    requires 1 <= size <= MAX_READ_BATCH_SIZE && Settled(now, scope, codeVersion, probe) && Delivers(pages, now.relations[probe])
    ensures CanPublish(now.state, scope, codeVersion, now.relations[probe])
    ensures var published, classes := Published(now.state, scope, codeVersion, Flatten(Batches(pages, size))),
                                      Classes(now.state, scope, codeVersion, Batches(pages, size), false);
      && published == now.state && NothingToDo(classes) && Granted(classes, granted)
      && Answer(now, scope, Some(probe), None) == []
      && Passes([], size, nonce) && Fetched([], size) == []
      && DeleteRows(now.state, scope, Ascending(StaleKeys(now.state, scope, KeysOf(now.relations[probe])))) == now.state
  {
    hide Published, Classes, InLine, StaleKeys, Records, Flatten, Batches, DeleteRows, Answer, Passes, Fetched, KeyDomainValid, CanPublish,
         Delivers, NothingToDo, Ascending;
    var relation := now.relations[probe];
    SettledCanPublish(now.state, scope, codeVersion, relation);
    SecondPassIsIdle(now.state, scope, codeVersion, relation, pages, size);
    NothingIsGranted(Classes(now.state, scope, codeVersion, Batches(pages, size), false), granted);
    NothingStale(now, scope, probe);
    NoRowsPass(size, nonce);
  }

  lemma NothingIsGranted(classes: seq<Classified>, granted: nat -> bool)
    requires NothingToDo(classes)
    ensures Granted(classes, granted)
  {
  }

  lemma NothingStale(now: Snapshot, scope: StateScope, probe: Probe)
    requires Available(now, Some(probe)) && StaleKeys(now.state, scope, KeysOf(now.relations[probe])) == {}
    ensures Answer(now, scope, Some(probe), None) == []
    ensures DeleteRows(now.state, scope, Ascending(StaleKeys(now.state, scope, KeysOf(now.relations[probe])))) == now.state
  {
    AnswerHolds(now, scope, Some(probe));
    hide StaleKeys, Answer, DeleteRows;
    var rows := Answer(now, scope, Some(probe), None);
    assert rows != [] ==> rows[0].recordKey in KeySet(rows);
    DeleteNothing(now.state, scope);
    AscendingIs([], {});
  }

  lemma NoRowsPass(size: nat, nonce: string)
    requires size >= 1
    ensures Passes([], size, nonce) && Fetched([], size) == []
  {
  }

  lemma SettledCanPublish(rows: seq<StateRow>, scope: StateScope, codeVersion: string, relation: seq<RelationRow>)
    requires InLine(rows, scope, codeVersion, Records(relation))
    requires forall r :: r in Records(relation) ==> AsRecord(r, codeVersion).WellFormed()
    ensures CanPublish(rows, scope, codeVersion, relation)
  {
    hide ValuesAt, LastFingerprint, Records;
    var records := Records(relation);
    forall r | r in records
      ensures Readable(rows, scope, r.recordKey)
    {
      var last := LastIsCarried(records, r.recordKey);
      assert AsRecord(last, codeVersion).WellFormed();
    }
  }

  /** A pass that was cut off anywhere can be run again: what could be published before can be
      published now. */
  lemma CutOffResumes(before: seq<StateRow>, after: seq<StateRow>, scope: StateScope, codeVersion: string,
                      relation: seq<RelationRow>, batches: seq<seq<UpstreamRecord>>)
    requires CanPublish(before, scope, codeVersion, relation)
    requires CutOff(before, after, scope, codeVersion, batches, KeysOf(relation))
    ensures CanPublish(after, scope, codeVersion, relation)
  {
    var published: nat, gone :| PartWay(before, after, scope, codeVersion, batches, KeysOf(relation), published, gone);
    var part := batches[..published];
    var mid := Published(before, scope, codeVersion, Flatten(part));
    FlattenMembers(part);
    forall r | r in Records(relation)
      ensures Readable(after, scope, r.recordKey)
    {
      ReadableStays(before, scope, codeVersion, Flatten(part), r.recordKey);
      DeleteValues(mid, scope, gone, StateKey(scope, r.recordKey));
    }
  }

  lemma OneRecordIsValid(r: UpstreamRecord, codeVersion: string)
    requires AsRecord(r, codeVersion).WellFormed()
    ensures ValidBatch([r], codeVersion)
  {
    assert UpstreamKeys([r]) == [r.recordKey];
  }

  lemma TwoAreNotFunctional(a: UpstreamRecord, b: UpstreamRecord)
    requires a.recordKey == b.recordKey && a.fingerprint != b.fingerprint
    ensures !Functional([a, b])
    ensures forall k :: k in {a.recordKey} <==> Carries([a, b], k)
  {
    assert a in [a, b] && b in [a, b];
  }

  /** Why the key column is checked: one key in two batches with two fingerprints would pass the
      checks on each batch, and the pass after one that brought the scope in line would not be idle. */
  lemma KeyCheckIsNeeded(rows: seq<StateRow>, scope: StateScope, codeVersion: string, a: UpstreamRecord, b: UpstreamRecord)
    requires AsRecord(a, codeVersion).WellFormed() && AsRecord(b, codeVersion).WellFormed()
    requires a.recordKey == b.recordKey && a.fingerprint != b.fingerprint
    requires InLine(rows, scope, codeVersion, [a, b])
    ensures ValidBatch([a], codeVersion) && ValidBatch([b], codeVersion)
    ensures !NothingToDo(Classes(rows, scope, codeVersion, [[a], [b]], false))
    ensures forall relation :: Records(relation) == [a, b] ==> Duplicates(relation) != 0
  {
    hide *;
    OneRecordIsValid(a, codeVersion);
    OneRecordIsValid(b, codeVersion);
    TwoAreNotFunctional(a, b);
    FlattenTwo([a], [b]);
    assert [a] + [b] == [a, b];
    SecondPassIdleIff(rows, scope, codeVersion, [[a], [b]], {a.recordKey});
    forall relation | Records(relation) == [a, b]
      ensures Duplicates(relation) != 0
    {
      KeyDomainIff(relation);
      if Distinct(UpstreamKeys([a, b])) {
        DistinctIsFunctional([a, b]);
      }
    }
  }

  // ----- The classes, written out -----

  /** New: the table has no row for the key. Unchanged: it has the same fingerprint and code version,
      and nothing is forced. Changed: everything else. */
  lemma ClassesAre(rows: seq<StateRow>, scope: StateScope, codeVersion: string, batch: seq<UpstreamRecord>, force: bool, r: UpstreamRecord)
    requires r in batch && Readable(rows, scope, r.recordKey)
    ensures var c, values := ClassesOf(rows, scope, codeVersion, batch, force), ValuesAt(rows, StateKey(scope, r.recordKey));
      && (r in c.added <==> values == [])
      && (r in c.same <==> !force && values == [StateValue(r.fingerprint, codeVersion)])
      && (r in c.altered <==> values != [] && (force || values != [StateValue(r.fingerprint, codeVersion)]))
  {
    hide ValuesAt, OfClass;
    var prior := Subset(rows, scope, UpstreamKeys(batch));
    OfClassMembers(batch, prior, codeVersion, force, New);
    OfClassMembers(batch, prior, codeVersion, force, Changed);
    OfClassMembers(batch, prior, codeVersion, force, Unchanged);
    KeyIn(batch, r);
  }
}
