/** Fenced replacement of one state scope: batches are staged, and one gated MERGE over plain rows
    makes the staged set the scope's state or changes nothing. */
module Replace {
  import opened Sorting
  import opened Text
  import opened StateStore
  import opened StateTable

  datatype LedgerRow = LedgerRow(scope: StateScope, publicationId: string, fencingToken: int)

  datatype Fence = Fence(publicationId: string, fencingToken: int)

  /** A source row of the MERGE: a staged record, or the sentinel that keeps the gate evaluated. */
  datatype SourceRow = Staged(record: StateRecord) | Sentinel

  // ----- The statement -----

  function Holders(ledger: seq<LedgerRow>, scope: StateScope, fence: Fence): nat {
    if ledger == [] then 0
    else
      var mine := ledger[0] == LedgerRow(scope, fence.publicationId, fence.fencingToken);
      Holders(ledger[1..], scope, fence) + if mine then 1 else 0
  }

  /** The count of matching ledger rows is exactly one. */
  predicate FenceHolds(ledger: Option<seq<LedgerRow>>, scope: StateScope, fence: Option<Fence>) {
    fence.Some? ==> ledger.Some? && Holders(ledger.value, scope, fence.value) == 1
  }

  /** The staged rows among the source rows. */
  function StagedRows(source: seq<SourceRow>): seq<StateRecord> {
    if source == [] then []
    else StagedRows(source[..|source| - 1]) + match source[|source| - 1] case Staged(r) => [r] case Sentinel => []
  }

  /** The MERGE as a whole. Its gate is evaluated once per source row, and a failing gate is an
      error of the statement; without any source row it would not be evaluated at all. */
  function Merge(target: seq<StateRow>, scope: StateScope, source: seq<SourceRow>, gate: bool): Option<seq<StateRow>> {
    if source != [] && !gate then None
    else
      Some(MergeRows(target, scope, StagedRows(source), true))
  }

  // ----- What a replacement achieves -----

  /** The scope's rows are exactly the records, one row each. */
  ghost predicate HoldsExactly(rows: seq<StateRow>, scope: StateScope, records: seq<StateRecord>) {
    forall key :: ValuesAt(rows, StateKey(scope, key)) == match Match(records, key) case Some(r) => [r.value] case None => []
  }

  /** The target held at most one row for every staged key. */
  ghost predicate NoStagedKeyTwice(target: seq<StateRow>, scope: StateScope, records: seq<StateRecord>) {
    forall r :: r in records ==> |ValuesAt(target, StateKey(scope, r.recordKey))| <= 1
  }

  /** A successful MERGE leaves every other scope's rows as they were, in order; and it makes the
      scope exactly the staged records, one row each, if and only if the scope did not already
      hold two rows under one staged key. */
  lemma MergeReplacesScope(target: seq<StateRow>, scope: StateScope, source: seq<SourceRow>, gate: bool)
    requires Merge(target, scope, source, gate).Some? && UniqueKeys(StagedRows(source))
    ensures var rows, records := Merge(target, scope, source, gate).value, StagedRows(source);
      && OtherScopes(rows, scope) == OtherScopes(target, scope)
      && (HoldsExactly(rows, scope, records) <==> NoStagedKeyTwice(target, scope, records))
  {
    var rows, records := Merge(target, scope, source, gate).value, StagedRows(source);
    hide UniqueKeys, StagedRows, OtherScopes, MergeRows, ValuesAt;
    forall key: string
      ensures var values := ValuesAt(target, StateKey(scope, key));
        ValuesAt(rows, StateKey(scope, key))
          == match Match(records, key) case Some(r) => Copies(AtLeastOne(|values|), r.value) case None => []
      ensures Match(records, key).Some? <==> exists r :: r in records && r.recordKey == key
    {
      MergeValues(target, scope, records, true, StateKey(scope, key));
      MatchIffCarried(records, key);
    }
    MergeValues(target, scope, records, true, StateKey(scope, ""));
    hide Match;
    assert forall v: StateValue :: Copies(1, v) == [v];
    if HoldsExactly(rows, scope, records) {
      forall r | r in records
        ensures |ValuesAt(target, StateKey(scope, r.recordKey))| <= 1
      {
        assert Match(records, r.recordKey).Some?;
        assert |ValuesAt(rows, StateKey(scope, r.recordKey))| == 1;
      }
    }
  }

  lemma MatchIffCarried(records: seq<StateRecord>, key: string)
    ensures Match(records, key).Some? <==> exists r :: r in records && r.recordKey == key
    ensures Match(records, key).Some? ==> Match(records, key).value in records && Match(records, key).value.recordKey == key
  {
    MatchFinds(records, key);
    forall r | r in records
      ensures r.recordKey in RecordKeys(records)
    {
      var i :| 0 <= i < |records| && records[i] == r;
      assert RecordKeys(records)[i] == r.recordKey;
    }
  }

  /** Two target rows under one staged key: the MERGE succeeds and leaves both, with equal values. */
  lemma TwoRowsBothUpdated(scope: StateScope, r: StateRecord, a: StateValue, b: StateValue)
    ensures var target := [StateRow(scope, StateRecord(r.recordKey, a)), StateRow(scope, StateRecord(r.recordKey, b))];
      var rows := [StateRow(scope, r), StateRow(scope, r)];
      && Merge(target, scope, Sources([r]), true) == Some(rows)
      && !HoldsExactly(rows, scope, [r])
  {
    var first, second := StateRow(scope, StateRecord(r.recordKey, a)), StateRow(scope, StateRecord(r.recordKey, b));
    var target, rows := [first, second], [StateRow(scope, r), StateRow(scope, r)];
    SourcesStage([r]);
    assert target[1..] == [second] && [second][1..] == [] && rows[1..] == [StateRow(scope, r)] && [r][1..] == [];
    assert Match([r], r.recordKey) == Some(r);
    assert Updated([second], scope, [r], true) == [StateRow(scope, r)];
    assert Updated(target, scope, [r], true) == rows;
    assert ValuesAt(target, StateKey(scope, r.recordKey)) != [];
    assert Inserted(target, scope, [r]) == [];
    var row, k := StateRow(scope, r), StateKey(scope, r.recordKey);
    assert rows == [row] + [row];
    ValuesAppend([row], [row], k);
    assert [row][1..] == [] && ValuesAt([row], k) == [r.value];
    assert |ValuesAt(rows, k)| == 2;
    assert MergeRows(target, scope, [r], true) == rows + [] == rows;
    assert Sources([r]) != [];
    assert Merge(target, scope, Sources([r]), true) == Some(rows);
  }

  /** Why the sentinel is there: with nothing staged and no sentinel, a lost fence would go
      unnoticed and the scope would be emptied; with it, the statement fails. */
  lemma SentinelGuardsEmptyStaging(target: seq<StateRow>, scope: StateScope)
    ensures Merge(target, scope, [Sentinel], false) == None
    ensures Merge(target, scope, [], false) == Some(OtherScopes(target, scope))
    ensures Merge(target, scope, [Sentinel], true) == Some(OtherScopes(target, scope))
  {
    assert [Sentinel][..0] == [];
    assert StagedRows([Sentinel]) == [];
    EmptyUpdate(target, scope);
    assert MergeRows(target, scope, [], true) == Updated(target, scope, [], true);
  }

  lemma {:induction false} EmptyUpdate(target: seq<StateRow>, scope: StateScope)
    ensures Updated(target, scope, [], true) == OtherScopes(target, scope)
  {
    if target != [] {
      EmptyUpdate(target[1..], scope);
    }
  }

  // ----- The adapter operation -----

  datatype Error = DuplicateInBatch | StaleFence | DuplicateAcrossBatches
  datatype Result = Ok(written: nat) | Err(error: Error)

  class Dataset {
    var state: seq<StateRow>
    /** `None` when the serving ledger table does not exist. */
    var ledger: Option<seq<LedgerRow>>
    /** The staging table, while there is one. */
    var staging: Option<seq<StateRecord>>

    constructor (state: seq<StateRow>, ledger: Option<seq<LedgerRow>>)
      ensures this.state == state && this.ledger == ledger && staging == None
    {
      this.state, this.ledger, staging := state, ledger, None;
    }

    /** `WRITE_APPEND` load, which creates the table when it is missing. */
    method Load(batch: seq<StateRecord>)
      modifies this`staging
      ensures staging == Some((if old(staging).Some? then old(staging).value else []) + batch)
    {
      staging := Some((if staging.Some? then staging.value else []) + batch);
    }

    /** `_run_state_replace_merge`. When both gate conditions fail, either error may surface. */
    method RunMerge(scope: StateScope, fence: Option<Fence>) returns (error: Option<Error>)
      requires staging.Some?
      modifies this`state
      ensures error == None <==> FenceHolds(ledger, scope, fence) && UniqueKeys(staging.value)
      ensures error == Some(StaleFence) ==> !FenceHolds(ledger, scope, fence)
      ensures error == Some(DuplicateAcrossBatches) ==> !UniqueKeys(staging.value)
      ensures error != Some(DuplicateInBatch)
      ensures error.Some? ==> state == old(state)
      ensures error == None ==>
        Some(state) == Merge(old(state), scope, Sources(staging.value), true) && StagedRows(Sources(staging.value)) == staging.value
    {
      SourcesStage(staging.value);
      var fenced, unique := FenceHolds(ledger, scope, fence), UniqueKeys(staging.value);
      var merged := Merge(state, scope, Sources(staging.value), fenced && unique);
      match merged
      case Some(rows) =>
        state := rows;
        return None;
      case None =>
        if unique { return Some(StaleFence); }
        if fenced { return Some(DuplicateAcrossBatches); }
        if * { return Some(StaleFence); }
        return Some(DuplicateAcrossBatches);
    }

    /** `replace_state_scope`: validate and load batch by batch, merge once, always drop staging. */
    method ReplaceStateScope(scope: StateScope, batches: seq<seq<StateRecord>>, fence: Option<Fence>) returns (r: Result)
      requires staging == None
      modifies this`state, this`staging
      ensures staging == None
      ensures r.Ok? <==> (forall b :: b in batches ==> UniqueKeys(b)) && FenceHolds(ledger, scope, fence) && UniqueKeys(Flatten(batches))
      ensures r.Err? ==> state == old(state)
      ensures r == Err(DuplicateInBatch) <==> exists b :: b in batches && !UniqueKeys(b)
      ensures r == Err(StaleFence) ==> !FenceHolds(ledger, scope, fence)
      ensures r == Err(DuplicateAcrossBatches) ==> !UniqueKeys(Flatten(batches))
      ensures r.Ok? ==> r.written == |Flatten(batches)| && Some(state) == Merge(old(state), scope, Sources(Flatten(batches)), true)
    {
      hide UniqueKeys, FenceHolds, Merge;
      var total := 0;
      for k := 0 to |batches|
        invariant state == old(state) && total == |Flatten(batches[..k])|
        invariant forall b :: b in batches[..k] ==> UniqueKeys(b)
        invariant staging == if Flatten(batches[..k]) == [] then None else Some(Flatten(batches[..k]))
      {
        var batch := batches[k];
        assert batch in batches && batches[..k + 1][..k] == batches[..k] && batches[..k + 1] == batches[..k] + [batch];
        if !UniqueKeys(batch) {
          staging := None;
          return Err(DuplicateInBatch);
        }
        FlattenSnoc(batches[..k], batch);
        assert Flatten(batches[..k]) + [] == Flatten(batches[..k]) && [] + batch == batch;
        if batch != [] {
          Load(batch);
          total := total + |batch|;
        }
      }
      assert batches[..|batches|] == batches;
      if total == 0 {
        staging := Some([]);
      }
      var error := RunMerge(scope, fence);
      staging := None;
      return if error.Some? then Err(error.value) else Ok(total);
    }
  }

  function StagedSources(records: seq<StateRecord>): seq<SourceRow> {
    seq(|records|, i requires 0 <= i < |records| => Staged(records[i]))
  }

  /** The staging table, and the sentinel by UNION ALL. */
  function Sources(records: seq<StateRecord>): seq<SourceRow> { StagedSources(records) + [Sentinel] }

  lemma {:induction false} StagedSourcesStage(records: seq<StateRecord>)
    ensures StagedRows(StagedSources(records)) == records
  {
    if records != [] {
      var init := records[..|records| - 1];
      assert StagedSources(records)[..|records| - 1] == StagedSources(init);
      StagedSourcesStage(init);
    }
  }

  lemma SourcesStage(records: seq<StateRecord>)
    ensures StagedRows(Sources(records)) == records
  {
    assert Sources(records)[..|records|] == StagedSources(records);
    StagedSourcesStage(records);
  }

  /** All or nothing: a replacement that succeeds makes a well-kept scope exactly the staged
      records and touches no other scope. */
  lemma ReplacementIsExact(target: seq<StateRow>, scope: StateScope, records: seq<StateRecord>, rows: seq<StateRow>)
    requires UniqueKeys(records) && Some(rows) == Merge(target, scope, Sources(records), true)
    ensures OtherScopes(rows, scope) == OtherScopes(target, scope)
    ensures HoldsExactly(rows, scope, records) <==> NoStagedKeyTwice(target, scope, records)
  {
    SourcesStage(records);
    hide Merge, UniqueKeys;
    MergeReplacesScope(target, scope, Sources(records), true);
  }

  // ----- The fence, written out -----

  lemma {:induction false} HoldersAre(ledger: seq<LedgerRow>, scope: StateScope, fence: Fence)
    ensures Holders(ledger, scope, fence) == multiset(ledger)[LedgerRow(scope, fence.publicationId, fence.fencingToken)]
  {
    if ledger != [] {
      HoldersAre(ledger[1..], scope, fence);
      assert ledger == [ledger[0]] + ledger[1..];
    }
  }

  /** The fence holds when exactly one ledger row names the scope, the publication and its token;
      without a fence there is nothing to hold, and without a ledger nothing can. */
  lemma FenceIs(ledger: Option<seq<LedgerRow>>, scope: StateScope, fence: Option<Fence>)
    ensures fence.None? ==> FenceHolds(ledger, scope, fence)
    ensures fence.Some? && ledger.None? ==> !FenceHolds(ledger, scope, fence)
    ensures fence.Some? && ledger.Some? ==> (FenceHolds(ledger, scope, fence) <==>
      multiset(ledger.value)[LedgerRow(scope, fence.value.publicationId, fence.value.fencingToken)] == 1)
  {
    if fence.Some? && ledger.Some? {
      HoldersAre(ledger.value, scope, fence.value);
    }
  }
}
