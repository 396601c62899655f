/** Publication state: scopes, values, the rows of a state table, and sorted key lists. */
module StateStore {
  import opened Sorting

  datatype StateScope = StateScope(modelName: string, stage: string, targetIdentity: string)
  datatype StateKey = StateKey(scope: StateScope, recordKey: string)
  datatype StateValue = StateValue(fingerprint: string, codeVersion: string) {
    predicate WellFormed() { fingerprint != "" && codeVersion != "" }
  }
  datatype StateRecord = StateRecord(recordKey: string, value: StateValue) {
    /** What the record types of the source refuse to be without. */
    predicate WellFormed() { recordKey != "" && value.WellFormed() }
  }

  /** BigQuery does not enforce keys: a state table is a list of rows, and a key may have several. */
  datatype StateRow = StateRow(scope: StateScope, record: StateRecord) {
    function Key(): StateKey { StateKey(scope, record.recordKey) }
  }

  // ----- The sorted list of a set of keys -----

  ghost predicate Lists(xs: seq<string>, s: set<string>) {
    Distinct(xs) && SortedBy(xs, StrLe) && forall x :: x in xs <==> x in s
  }

  lemma {:induction false} ListsExists(s: set<string>) returns (xs: seq<string>)
    ensures Lists(xs, s)
    decreases s
  {
    if s == {} { return []; }
    var x :| x in s;
    var rest := ListsExists(s - {x});
    DistinctSnoc(rest, x);
    xs := Sort(rest + [x], StrLe);
    SortLists(rest + [x], s);
  }

  lemma SortLists(ys: seq<string>, s: set<string>)
    requires Distinct(ys) && forall y :: y in ys <==> y in s
    ensures Lists(Sort(ys, StrLe), s)
  {
    var xs := Sort(ys, StrLe);
    StrLeOrder();
    SortSorts(ys, StrLe);
    DistinctTransfers(ys, xs);
    forall y ensures y in xs <==> y in s {
      assert y in multiset(xs) <==> y in multiset(ys);
    }
  }

  lemma {:induction false} SameMembersSameBag(xs: seq<string>, ys: seq<string>)
    requires Distinct(xs) && Distinct(ys) && forall x :: x in xs <==> x in ys
    ensures multiset(xs) == multiset(ys)
  {
    DistinctIffSimple(xs);
    DistinctIffSimple(ys);
    forall x ensures multiset(xs)[x] == multiset(ys)[x] {
      assert x in xs <==> multiset(xs)[x] > 0;
      assert x in ys <==> multiset(ys)[x] > 0;
    }
  }

  lemma ListsUnique(xs: seq<string>, ys: seq<string>, s: set<string>)
    requires Lists(xs, s) && Lists(ys, s)
    ensures xs == ys
  {
    SameMembersSameBag(xs, ys);
    StrLeOrder();
    SortedIsUnique(xs, ys, StrLe);
  }

  lemma SomeListExists(s: set<string>)
    ensures exists xs :: Lists(xs, s)
  {
    var xs := ListsExists(s);
  }

  ghost function Ascending(s: set<string>): (xs: seq<string>)
    ensures Lists(xs, s)
  {
    SomeListExists(s);
    var xs :| Lists(xs, s);
    xs
  }

  lemma AscendingIs(xs: seq<string>, s: set<string>)
    requires Lists(xs, s)
    ensures Ascending(s) == xs
  {
    ListsUnique(xs, Ascending(s), s);
  }

  /** The keys after the i-th smallest are the tail of the list. */
  lemma AscendingAfter(s: set<string>, i: nat)
    requires 0 < i <= |Ascending(s)|
    ensures Ascending(set k | k in s && StrLt(Ascending(s)[i - 1], k)) == Ascending(s)[i..]
  {
    var xs := Ascending(s);
    var tail := xs[i..];
    forall k ensures k in tail <==> k in s && StrLt(xs[i - 1], k) {
      StrLeOrder();
      if k in s {
        var j :| 0 <= j < |xs| && xs[j] == k;
        if j >= i {
          assert tail[j - i] == k;
        } else {
          StrLeTotal(xs[i - 1], k);
        }
      }
    }
    AscendingIs(tail, set k | k in s && StrLt(xs[i - 1], k));
  }

  /** Lists of sets that follow each other make up the list of both. */
  lemma ListsJoin(xs: seq<string>, ys: seq<string>, s: set<string>, t: set<string>)
    requires Lists(xs, s) && Lists(ys, t) && forall x, y :: x in xs && y in ys ==> StrLt(x, y)
    ensures Lists(xs + ys, s + t)
  {
    hide StrLe;
    var zs := xs + ys;
    forall i, j | 0 <= i < j < |zs|
      ensures zs[i] != zs[j] && StrLe(zs[i], zs[j])
    {
      if j < |xs| {
        assert zs[i] == xs[i] && zs[j] == xs[j];
      } else if i < |xs| {
        assert zs[i] == xs[i] && xs[i] in xs && zs[j] == ys[j - |xs|] && ys[j - |xs|] in ys;
      } else {
        assert zs[i] == ys[i - |xs|] && zs[j] == ys[j - |xs|];
      }
    }
  }

  function RecordKeys(records: seq<StateRecord>): seq<string> {
    seq(|records|, i requires 0 <= i < |records| => records[i].recordKey)
  }
}
