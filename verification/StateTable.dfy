/** The relational meaning of the state statements on plain rows, and on tables that hold one row
    per key. */
module StateTable {
  import opened Sorting
  import opened Text
  import opened StateStore

  // ----- The statements -----

  /** The values a table holds for a key, in row order. */
  function ValuesAt(rows: seq<StateRow>, k: StateKey): seq<StateValue> {
    if rows == [] then []
    else (if rows[0].Key() == k then [rows[0].record.value] else []) + ValuesAt(rows[1..], k)
  }

  /** The rows of all other scopes. */
  function OtherScopes(rows: seq<StateRow>, scope: StateScope): seq<StateRow> {
    if rows == [] then []
    else (if rows[0].scope != scope then [rows[0]] else []) + OtherScopes(rows[1..], scope)
  }

  /** `COUNT(*) - COUNT(DISTINCT record_key) = 0`. */
  predicate UniqueKeys(records: seq<StateRecord>) { Distinct(RecordKeys(records)) }

  /** The source row for a key. */
  function Match(records: seq<StateRecord>, key: string): Option<StateRecord> {
    if records == [] then None
    else if records[0].recordKey == key then Some(records[0]) else Match(records[1..], key)
  }

  /** `WHEN MATCHED THEN UPDATE`, and with `replace` `WHEN NOT MATCHED BY SOURCE THEN DELETE`. */
  function UpdatedRow(row: StateRow, scope: StateScope, records: seq<StateRecord>, replace: bool): seq<StateRow> {
    if row.scope != scope then [row]
    else
      match Match(records, row.record.recordKey)
      case Some(r) => [StateRow(scope, r)]
      case None => if replace then [] else [row]
  }

  function Updated(target: seq<StateRow>, scope: StateScope, records: seq<StateRecord>, replace: bool): seq<StateRow> {
    if target == [] then []
    else UpdatedRow(target[0], scope, records, replace) + Updated(target[1..], scope, records, replace)
  }

  /** `WHEN NOT MATCHED THEN INSERT`. */
  function Inserted(target: seq<StateRow>, scope: StateScope, records: seq<StateRecord>): seq<StateRow> {
    if records == [] then []
    else
      (if ValuesAt(target, StateKey(scope, records[0].recordKey)) == [] then [StateRow(scope, records[0])] else [])
      + Inserted(target, scope, records[1..])
  }

  /** `MERGE` of source rows with unique keys: every matching row is updated, however many there are. */
  function MergeRows(target: seq<StateRow>, scope: StateScope, records: seq<StateRecord>, replace: bool): seq<StateRow> {
    Updated(target, scope, records, replace) + Inserted(target, scope, records)
  }

  /** `DELETE` of some keys of one scope. */
  function DeleteRows(target: seq<StateRow>, scope: StateScope, keys: seq<string>): seq<StateRow> {
    if target == [] then []
    else
      var row, rest := target[0], DeleteRows(target[1..], scope, keys);
      if row.scope == scope && row.record.recordKey in keys then rest else [row] + rest
  }

  // ----- What they leave under a key, and in other scopes -----

  function Copies(n: nat, v: StateValue): (vs: seq<StateValue>)
    ensures |vs| == n && forall i :: 0 <= i < n ==> vs[i] == v
  {
    if n == 0 then [] else [v] + Copies(n - 1, v)
  }

  lemma {:induction false} ValuesAppend(a: seq<StateRow>, b: seq<StateRow>, k: StateKey)
    ensures ValuesAt(a + b, k) == ValuesAt(a, k) + ValuesAt(b, k)
  {
    if a == [] {
      assert a + b == b;
    } else {
      assert (a + b)[1..] == a[1..] + b;
      ValuesAppend(a[1..], b, k);
    }
  }

  lemma {:induction false} OthersAppend(a: seq<StateRow>, b: seq<StateRow>, scope: StateScope)
    ensures OtherScopes(a + b, scope) == OtherScopes(a, scope) + OtherScopes(b, scope)
  {
    if a == [] {
      assert a + b == b;
    } else {
      assert (a + b)[1..] == a[1..] + b;
      OthersAppend(a[1..], b, scope);
    }
  }

  lemma {:induction false} MatchFinds(records: seq<StateRecord>, key: string)
    ensures Match(records, key).Some? <==> key in RecordKeys(records)
    ensures Match(records, key).Some? ==> Match(records, key).value in records && Match(records, key).value.recordKey == key
  {
    if records != [] {
      assert RecordKeys(records) == [records[0].recordKey] + RecordKeys(records[1..]);
      MatchFinds(records[1..], key);
    }
  }

  lemma UniqueTail(records: seq<StateRecord>)
    requires records != [] && UniqueKeys(records)
    ensures UniqueKeys(records[1..]) && records[0].recordKey !in RecordKeys(records[1..])
  {
    var keys, rest := RecordKeys(records), RecordKeys(records[1..]);
    forall i | 0 <= i < |rest|
      ensures rest[i] == keys[i + 1] && rest[i] != records[0].recordKey
    {
      assert keys[0] == records[0].recordKey;
    }
  }

  lemma {:induction false} UpdatedOthers(target: seq<StateRow>, scope: StateScope, records: seq<StateRecord>, replace: bool)
    ensures OtherScopes(Updated(target, scope, records, replace), scope) == OtherScopes(target, scope)
  {
    if target != [] {
      UpdatedOthers(target[1..], scope, records, replace);
      OthersAppend(UpdatedRow(target[0], scope, records, replace), Updated(target[1..], scope, records, replace), scope);
    }
  }

  /** The values a key keeps. */
  function NewValues(values: seq<StateValue>, scope: StateScope, records: seq<StateRecord>, replace: bool, k: StateKey): seq<StateValue> {
    if k.scope != scope then values
    else
      match Match(records, k.recordKey)
      case Some(r) => Copies(|values|, r.value)
      case None => if replace then [] else values
  }

  lemma UpdatedRowValues(row: StateRow, scope: StateScope, records: seq<StateRecord>, replace: bool, k: StateKey)
    ensures ValuesAt(UpdatedRow(row, scope, records, replace), k) == NewValues(ValuesAt([row], k), scope, records, replace, k)
  {
    MatchFinds(records, row.record.recordKey);
    hide Match;
    assert Copies(1, row.record.value) == [row.record.value];
  }

  lemma NewValuesAppend(a: seq<StateValue>, b: seq<StateValue>, scope: StateScope, records: seq<StateRecord>, replace: bool, k: StateKey)
    ensures NewValues(a + b, scope, records, replace, k) == NewValues(a, scope, records, replace, k) + NewValues(b, scope, records, replace, k)
  {
    hide Match;
  }

  lemma {:induction false} UpdatedValues(target: seq<StateRow>, scope: StateScope, records: seq<StateRecord>, replace: bool, k: StateKey)
    ensures ValuesAt(Updated(target, scope, records, replace), k) == NewValues(ValuesAt(target, k), scope, records, replace, k)
  {
    if target != [] {
      var rest := Updated(target[1..], scope, records, replace);
      UpdatedValues(target[1..], scope, records, replace, k);
      UpdatedRowValues(target[0], scope, records, replace, k);
      assert target == [target[0]] + target[1..];
      ValuesAppend([target[0]], target[1..], k);
      hide Updated, UpdatedRow, NewValues, ValuesAt;
      ValuesAppend(UpdatedRow(target[0], scope, records, replace), rest, k);
      NewValuesAppend(ValuesAt([target[0]], k), ValuesAt(target[1..], k), scope, records, replace, k);
    } else {
      assert Copies(0, StateValue("", "")) == [];
    }
  }

  lemma HeadValues(head: seq<StateRow>, scope: StateScope, first: StateRecord, k: StateKey)
    requires head == [] || head == [StateRow(scope, first)]
    ensures OtherScopes(head, scope) == []
    ensures ValuesAt(head, k) == if head != [] && k == StateKey(scope, first.recordKey) then [first.value] else []
  {
  }

  lemma {:induction false} InsertedValues(target: seq<StateRow>, scope: StateScope, records: seq<StateRecord>, k: StateKey)
    requires UniqueKeys(records)
    ensures OtherScopes(Inserted(target, scope, records), scope) == []
    ensures ValuesAt(Inserted(target, scope, records), k)
         == if k.scope == scope && ValuesAt(target, k) == []
            then match Match(records, k.recordKey) case Some(r) => [r.value] case None => []
            else []
  {
    if records != [] {
      var first := records[0];
      UniqueTail(records);
      InsertedValues(target, scope, records[1..], k);
      MatchFinds(records[1..], k.recordKey);
      var head := if ValuesAt(target, StateKey(scope, first.recordKey)) == [] then [StateRow(scope, first)] else [];
      var rest := Inserted(target, scope, records[1..]);
      assert Inserted(target, scope, records) == head + rest;
      HeadValues(head, scope, first, k);
      hide Inserted, ValuesAt, OtherScopes, UniqueKeys;
      ValuesAppend(head, rest, k);
      OthersAppend(head, rest, scope);
    }
  }

  /** A MERGE gives every row of a matched key the source's value, inserts one row for a key that had
      none, with `replace` deletes the scope's other rows, and keeps other scopes in order. */
  lemma MergeValues(target: seq<StateRow>, scope: StateScope, records: seq<StateRecord>, replace: bool, k: StateKey)
    requires UniqueKeys(records)
    ensures OtherScopes(MergeRows(target, scope, records, replace), scope) == OtherScopes(target, scope)
    ensures ValuesAt(MergeRows(target, scope, records, replace), k)
         == if k.scope != scope then ValuesAt(target, k)
            else match Match(records, k.recordKey)
                 case Some(r) => Copies(AtLeastOne(|ValuesAt(target, k)|), r.value)
                 case None => if replace then [] else ValuesAt(target, k)
  {
    hide Match, UniqueKeys, OtherScopes, Updated, Inserted;
    UpdatedOthers(target, scope, records, replace);
    UpdatedValues(target, scope, records, replace, k);
    InsertedValues(target, scope, records, k);
    ValuesAppend(Updated(target, scope, records, replace), Inserted(target, scope, records), k);
    OthersAppend(Updated(target, scope, records, replace), Inserted(target, scope, records), scope);
  }

  function AtLeastOne(n: nat): nat { if n == 0 then 1 else n }

  lemma {:induction false} DeleteValues(target: seq<StateRow>, scope: StateScope, keys: seq<string>, k: StateKey)
    ensures OtherScopes(DeleteRows(target, scope, keys), scope) == OtherScopes(target, scope)
    ensures ValuesAt(DeleteRows(target, scope, keys), k)
         == if k.scope == scope && k.recordKey in keys then [] else ValuesAt(target, k)
  {
    if target != [] {
      DeleteValues(target[1..], scope, keys, k);
    }
  }

  lemma {:induction false} DeleteAppend(target: seq<StateRow>, scope: StateScope, a: seq<string>, b: seq<string>)
    ensures DeleteRows(DeleteRows(target, scope, a), scope, b) == DeleteRows(target, scope, a + b)
  {
    if target != [] {
      DeleteAppend(target[1..], scope, a, b);
    }
  }

  lemma {:induction false} DeleteNothing(target: seq<StateRow>, scope: StateScope)
    ensures DeleteRows(target, scope, []) == target
  {
    if target != [] {
      DeleteNothing(target[1..], scope);
    }
  }

  // ----- Tables with one row per key -----

  type KeyedTable = map<StateKey, StateValue>

  ghost predicate Keyed(rows: seq<StateRow>) { forall k :: |ValuesAt(rows, k)| <= 1 }

  function AllKeys(rows: seq<StateRow>): set<StateKey> { set row | row in rows :: row.Key() }

  lemma {:induction false} InAllKeys(rows: seq<StateRow>, k: StateKey)
    ensures k in AllKeys(rows) <==> ValuesAt(rows, k) != []
  {
    if rows != [] {
      InAllKeys(rows[1..], k);
      assert rows == [rows[0]] + rows[1..];
    }
  }

  /** The rows as a map from keys to values. */
  function TableOf(rows: seq<StateRow>): (t: KeyedTable)
    ensures forall k :: k in t <==> ValuesAt(rows, k) != []
    ensures forall k :: k in t ==> t[k] == ValuesAt(rows, k)[0]
  {
    assert forall k :: k in AllKeys(rows) <==> ValuesAt(rows, k) != [] by {
      forall k ensures k in AllKeys(rows) <==> ValuesAt(rows, k) != [] { InAllKeys(rows, k); }
    }
    map k | k in AllKeys(rows) :: ValuesAt(rows, k)[0]
  }

  function SourceKeys(scope: StateScope, records: seq<StateRecord>): set<StateKey> {
    set key | key in RecordKeys(records) :: StateKey(scope, key)
  }

  function SourceValue(records: seq<StateRecord>, key: string): StateValue
    requires key in RecordKeys(records)
  {
    MatchFinds(records, key);
    Match(records, key).value.value
  }

  /** `MERGE` on a map: what the statement is meant to do. */
  function MergeStatement(table: KeyedTable, scope: StateScope, source: seq<StateRecord>, replace: bool): KeyedTable {
    map k | k in table.Keys + SourceKeys(scope, source)
          && (k in SourceKeys(scope, source) || !(replace && k.scope == scope)) ::
      if k in SourceKeys(scope, source) then SourceValue(source, k.recordKey) else table[k]
  }

  function DeleteStatement(table: KeyedTable, scope: StateScope, keys: seq<string>): KeyedTable {
    map k | k in table && !(k.scope == scope && k.recordKey in keys) :: table[k]
  }

  /** On a table with one row per key the row MERGE is the map MERGE, and the table stays keyed. */
  lemma RowMergeIsMapMerge(rows: seq<StateRow>, scope: StateScope, records: seq<StateRecord>, replace: bool)
    requires Keyed(rows) && UniqueKeys(records)
    ensures Keyed(MergeRows(rows, scope, records, replace))
    ensures TableOf(MergeRows(rows, scope, records, replace)) == MergeStatement(TableOf(rows), scope, records, replace)
  {
    var after := MergeRows(rows, scope, records, replace);
    var merged := MergeStatement(TableOf(rows), scope, records, replace);
    forall k: StateKey
      ensures |ValuesAt(after, k)| <= 1
      ensures k in TableOf(after) <==> k in merged
      ensures k in merged ==> TableOf(after)[k] == merged[k]
    {
      MergeValues(rows, scope, records, replace, k);
      MatchFinds(records, k.recordKey);
      hide ValuesAt, MergeRows, UniqueKeys, TableOf, Match;
      assert |ValuesAt(rows, k)| <= 1;
      assert k in SourceKeys(scope, records) <==> k.scope == scope && k.recordKey in RecordKeys(records);
    }
  }

  /** The row DELETE is the map DELETE. */
  lemma RowDeleteIsMapDelete(rows: seq<StateRow>, scope: StateScope, keys: seq<string>)
    requires Keyed(rows)
    ensures Keyed(DeleteRows(rows, scope, keys))
    ensures TableOf(DeleteRows(rows, scope, keys)) == DeleteStatement(TableOf(rows), scope, keys)
  {
    forall k: StateKey
      ensures |ValuesAt(DeleteRows(rows, scope, keys), k)| <= 1
      ensures k in TableOf(DeleteRows(rows, scope, keys)) <==> k in DeleteStatement(TableOf(rows), scope, keys)
      ensures k in DeleteStatement(TableOf(rows), scope, keys) ==>
        TableOf(DeleteRows(rows, scope, keys))[k] == DeleteStatement(TableOf(rows), scope, keys)[k]
    {
      DeleteValues(rows, scope, keys, k);
      hide ValuesAt, DeleteRows, TableOf;
    }
  }
}
