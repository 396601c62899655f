/** The one-time rename of persisted tables: planning, renames that may stop at any point, and
    resuming by planning again. */
module Migration {
  import opened Sorting
  import opened Text
  import opened StateStore

  datatype Rename = Rename(legacy: string, current: string)

  const MIGRATED: seq<Rename> := [
    Rename("dbt_ml_state", "stel_state"),
    Rename("dbt_ml_serving_ledger", "stel_serving_ledger"),
    Rename("dbt_ml_serving_leases", "stel_serving_leases")]

  const LEGACY_PREFIX := "dbt_ml_test_failures__"
  const CURRENT_PREFIX := "stel_test_failures__"

  /** A table's rows. */
  type Rows = seq<string>

  // ----- Planning -----

  predicate IsFailuresTable(name: string) { LEGACY_PREFIX <= name }

  function Prefixed(name: string): Rename
    requires IsFailuresTable(name)
  {
    Rename(name, CURRENT_PREFIX + name[|LEGACY_PREFIX|..])
  }

  function Named(pairs: seq<Rename>, present: set<string>): seq<Rename> {
    if pairs == [] then []
    else (if pairs[0].legacy in present then [pairs[0]] else []) + Named(pairs[1..], present)
  }

  function PrefixedAll(names: seq<string>): seq<Rename> {
    if names == [] then []
    else PrefixedAll(names[..|names| - 1])
         + if IsFailuresTable(names[|names| - 1]) then [Prefixed(names[|names| - 1])] else []
  }

  /** Every present object under a legacy name, in the order planning meets it. */
  ghost function Legacy(present: set<string>): seq<Rename> {
    Named(MIGRATED, present) + PrefixedAll(Ascending(present))
  }

  datatype Plan = Planned(renames: seq<Rename>) | Conflicts(pairs: seq<Rename>)

  function Taken(found: seq<Rename>, present: set<string>): seq<Rename> {
    if found == [] then []
    else Taken(found[..|found| - 1], present) + if found[|found| - 1].current in present then [found[|found| - 1]] else []
  }

  /** Nothing is planned while any object exists under both spellings. */
  ghost function PlanOf(present: set<string>): Plan {
    var conflicts := Taken(Legacy(present), present);
    if conflicts == [] then Planned(Legacy(present)) else Conflicts(conflicts)
  }

  lemma {:induction false} TakenNone(found: seq<Rename>, present: set<string>)
    ensures Taken(found, present) == [] <==> forall r :: r in found ==> r.current !in present
  {
    if found != [] {
      var init, last := found[..|found| - 1], found[|found| - 1];
      TakenNone(init, present);
      assert forall r :: r in found <==> r in init || r == last;
    }
  }

  lemma SortedListIsAscending(listed: seq<string>, present: set<string>)
    requires Distinct(listed) && forall n :: n in listed <==> n in present
    ensures Sort(listed, StrLe) == Ascending(present)
  {
    SortLists(listed, present);
    AscendingIs(Sort(listed, StrLe), present);
  }

  lemma NothingFound(present: set<string>)
    ensures Named([], present) == [] && PrefixedAll([]) == [] && Taken([], present) == []
  {}

  lemma LegacyAndPlan(present: set<string>)
    ensures Legacy(present) == Named(MIGRATED, present) + PrefixedAll(Ascending(present))
    ensures PlanOf(present) == var conflicts := Taken(Legacy(present), present);
      if conflicts == [] then Planned(Legacy(present)) else Conflicts(conflicts)
  {}

  /** `plan_name_migration`. */
  method PlanNameMigration(present: set<string>) returns (plan: Plan)
    ensures plan == PlanOf(present)
  {
    hide *;
    var renames, conflicts: seq<Rename> := [], [];
    ghost var seen: seq<Rename> := [];
    NothingFound(present);
    assert MIGRATED[|MIGRATED|..] == [];
    assert MIGRATED[0..] == MIGRATED && [] + Named(MIGRATED, present) == Named(MIGRATED, present);
    LegacyAndPlan(present);
    for k := 0 to |MIGRATED|
      invariant Named(MIGRATED, present) == seen + Named(MIGRATED[k..], present)
      invariant conflicts == Taken(seen, present) && (conflicts == [] ==> renames == seen)
    {
      var pair := MIGRATED[k];
      NamedStep(MIGRATED, k, seen, present);
      if pair.legacy !in present {
        continue;
      }
      TakenStep(seen, pair, present);
      seen := seen + [pair];
      if pair.current in present {
        conflicts := conflicts + [pair];
        continue;
      }
      renames := renames + [pair];
    }
    assert seen + [] == seen;
    ghost var named := seen;
    var listed := Listing(present);
    SortedListIsAscending(listed, present);
    var names := Sort(listed, StrLe);
    for k := 0 to |names|
      invariant seen == named + PrefixedAll(names[..k])
      invariant conflicts == Taken(seen, present) && (conflicts == [] ==> renames == seen)
    {
      var name := names[k];
      PrefixedStep(names, k, named);
      if !IsFailuresTable(name) {
        continue;
      }
      var rename := Prefixed(name);
      TakenStep(seen, rename, present);
      seen := seen + [rename];
      if rename.current in present {
        conflicts := conflicts + [rename];
        continue;
      }
      renames := renames + [rename];
    }
    assert names[..|names|] == names;
    plan := if conflicts == [] then Planned(renames) else Conflicts(conflicts);
  }

  lemma NamedStep(pairs: seq<Rename>, k: nat, seen: seq<Rename>, present: set<string>)
    requires k < |pairs|
    ensures seen + Named(pairs[k..], present)
         == (if pairs[k].legacy in present then seen + [pairs[k]] else seen) + Named(pairs[k + 1..], present)
  {
    assert pairs[k..][1..] == pairs[k + 1..];
  }

  lemma PrefixedStep(names: seq<string>, k: nat, named: seq<Rename>)
    requires k < |names|
    ensures named + PrefixedAll(names[..k + 1])
         == named + PrefixedAll(names[..k]) + if IsFailuresTable(names[k]) then [Prefixed(names[k])] else []
  {
    hide IsFailuresTable;
    assert names[..k + 1][..k] == names[..k];
  }

  lemma TakenStep(seen: seq<Rename>, next: Rename, present: set<string>)
    ensures Taken(seen + [next], present) == if next.current in present then Taken(seen, present) + [next] else Taken(seen, present)
  {
    assert (seen + [next])[..|seen|] == seen;
  }

  // ----- The two spellings -----

  /** A rename that planning may produce. */
  predicate Spelled(r: Rename) { r in MIGRATED || (IsFailuresTable(r.legacy) && r == Prefixed(r.legacy)) }

  lemma MigratedNames(i: nat, j: nat)
    requires i < j < |MIGRATED|
    ensures MIGRATED[i].legacy != MIGRATED[j].legacy && MIGRATED[i].current != MIGRATED[j].current
  {
    if i == 0 {
      assert MIGRATED[i].legacy[8] == 't' != MIGRATED[j].legacy[8];
      assert MIGRATED[i].current[6] == 't' != MIGRATED[j].current[6];
    } else {
      assert MIGRATED[i].legacy[17] == 'd' != MIGRATED[j].legacy[17];
      assert MIGRATED[i].current[15] == 'd' != MIGRATED[j].current[15];
    }
  }

  lemma MigratedIsNoFailuresTable(r: Rename)
    requires r in MIGRATED
    ensures !IsFailuresTable(r.legacy) && !(CURRENT_PREFIX <= r.current)
    ensures r.legacy[..1] == "d" && r.current[..1] == "s"
  {
    assert r.legacy[7] == 's' && LEGACY_PREFIX[7] == 't';
    assert r.current[5] == 's' && CURRENT_PREFIX[5] == 't';
  }

  /** Legacy names and current names never meet, and a rename is determined by either of its names. */
  lemma SpellingsApart(r: Rename, q: Rename)
    requires Spelled(r) && Spelled(q)
    ensures r.legacy != q.current
    ensures r.legacy == q.legacy || r.current == q.current ==> r == q
  {
    assert |LEGACY_PREFIX| == 22 && LEGACY_PREFIX[0] == 'd' && CURRENT_PREFIX[0] == 's';
    if r in MIGRATED { MigratedIsNoFailuresTable(r); }
    if q in MIGRATED { MigratedIsNoFailuresTable(q); }
    hide MIGRATED;
    if r in MIGRATED && q in MIGRATED {
      var i :| 0 <= i < |MIGRATED| && MIGRATED[i] == r;
      var j :| 0 <= j < |MIGRATED| && MIGRATED[j] == q;
      if i < j { MigratedNames(i, j); } else if j < i { MigratedNames(j, i); }
      assert r.legacy[0] == r.legacy[..1][0] && q.current[0] == q.current[..1][0];
    } else if r !in MIGRATED && q !in MIGRATED {
      assert r.legacy == LEGACY_PREFIX + r.current[|CURRENT_PREFIX|..];
      assert q.legacy == LEGACY_PREFIX + q.current[|CURRENT_PREFIX|..];
      assert r.legacy[0] == 'd' && q.current[0] == 's';
    } else if r in MIGRATED {
      assert r.legacy[0] == r.legacy[..1][0] && q.current[0] == 's';
    } else {
      assert r.legacy[0] == 'd' && q.current[0] == q.current[..1][0];
    }
  }

  lemma {:induction false} NamedHolds(pairs: seq<Rename>, present: set<string>)
    ensures forall r :: r in Named(pairs, present) <==> r in pairs && r.legacy in present
  {
    if pairs != [] {
      NamedHolds(pairs[1..], present);
      assert pairs == [pairs[0]] + pairs[1..];
    }
  }

  lemma {:induction false} PrefixedAllHolds(names: seq<string>)
    ensures forall r :: r in PrefixedAll(names) <==> r.legacy in names && IsFailuresTable(r.legacy) && r == Prefixed(r.legacy)
  {
    if names != [] {
      var init, last := names[..|names| - 1], names[|names| - 1];
      PrefixedAllHolds(init);
      assert forall n :: n in names <==> n in init || n == last;
      assert IsFailuresTable(last) ==> Prefixed(last).legacy == last;
      hide IsFailuresTable, Prefixed;
      if IsFailuresTable(last) {
        assert PrefixedAll(names) == PrefixedAll(init) + [Prefixed(last)];
      } else {
        assert PrefixedAll(names) == PrefixedAll(init);
      }
    }
  }

  lemma {:induction false} PrefixedAllAligned(names: seq<string>)
    requires forall n :: n in names ==> IsFailuresTable(n)
    ensures |PrefixedAll(names)| == |names| && forall i :: 0 <= i < |names| ==> PrefixedAll(names)[i] == Prefixed(names[i])
  {
    hide IsFailuresTable, Prefixed;
    if names != [] {
      var init, last := names[..|names| - 1], names[|names| - 1];
      assert last in names;
      PrefixedAllAligned(init);
      assert PrefixedAll(names) == PrefixedAll(init) + [Prefixed(last)];
    }
  }

  lemma LegacyHolds(present: set<string>)
    ensures forall r :: r in Legacy(present) <==> Spelled(r) && r.legacy in present
  {
    NamedHolds(MIGRATED, present);
    PrefixedAllHolds(Ascending(present));
    hide Named, PrefixedAll, MIGRATED, IsFailuresTable, Prefixed;
  }

  // ----- One rename takes the head off the plan -----

  function Failures(present: set<string>): set<string> { set n | n in present && IsFailuresTable(n) }

  function FailuresIn(names: seq<string>): seq<string> {
    if names == [] then []
    else FailuresIn(names[..|names| - 1]) + if IsFailuresTable(names[|names| - 1]) then [names[|names| - 1]] else []
  }

  lemma {:induction false} FailuresInHolds(names: seq<string>)
    ensures forall n :: n in FailuresIn(names) <==> n in names && IsFailuresTable(n)
    ensures PrefixedAll(FailuresIn(names)) == PrefixedAll(names)
  {
    hide IsFailuresTable, Prefixed;
    if names != [] {
      var init, last := names[..|names| - 1], names[|names| - 1];
      var fs := FailuresIn(init);
      FailuresInHolds(init);
      assert forall n :: n in names <==> n in init || n == last;
      if IsFailuresTable(last) {
        assert (fs + [last])[..|fs|] == fs;
      } else {
        assert FailuresIn(names) == fs;
      }
    }
  }

  /** A filtered list stays in order. */
  lemma {:induction false} FailuresInOrder(names: seq<string>)
    requires Distinct(names) && SortedBy(names, StrLe)
    ensures Distinct(FailuresIn(names)) && SortedBy(FailuresIn(names), StrLe)
  {
    hide IsFailuresTable, StrLe;
    if names != [] {
      var init, last := names[..|names| - 1], names[|names| - 1];
      assert names == init + [last];
      DistinctSnoc(init, last);
      FailuresInOrder(init);
      FailuresInHolds(init);
      var fs := FailuresIn(init);
      DistinctSnoc(fs, last);
      assert fs + [] == fs;
      assert FailuresIn(names) == fs + if IsFailuresTable(last) then [last] else [];
      hide Distinct, FailuresIn;
      forall i | 0 <= i < |fs|
        ensures StrLe(fs[i], last)
      {
        assert fs[i] in fs;
        var p :| 0 <= p < |init| && init[p] == fs[i];
        assert StrLe(names[p], names[|init|]);
      }
      assert SortedBy(fs + [last], StrLe);
    }
  }

  lemma PrefixedFromFailures(present: set<string>)
    ensures PrefixedAll(Ascending(present)) == PrefixedAll(Ascending(Failures(present)))
  {
    var names := Ascending(present);
    FailuresInHolds(names);
    FailuresInOrder(names);
    AscendingIs(FailuresIn(names), Failures(present));
  }

  lemma {:induction false} NamedIgnores(pairs: seq<Rename>, present: set<string>, h: Rename)
    requires forall r :: r in pairs ==> r.legacy != h.current && r.legacy != h.legacy
    ensures Named(pairs, present - {h.legacy} + {h.current}) == Named(pairs, present)
  {
    if pairs != [] {
      assert pairs == [pairs[0]] + pairs[1..];
      NamedIgnores(pairs[1..], present, h);
    }
  }

  lemma {:induction false} NamedLosesHead(pairs: seq<Rename>, present: set<string>, h: Rename)
    requires Named(pairs, present) != [] && h == Named(pairs, present)[0]
    requires forall i, j :: 0 <= i < j < |pairs| ==> pairs[i].legacy != pairs[j].legacy
    requires forall r :: r in pairs ==> r.legacy != h.current
    ensures Named(pairs, present - {h.legacy} + {h.current}) == Named(pairs, present)[1..]
  {
    var rest := pairs[1..];
    assert pairs == [pairs[0]] + rest;
    assert forall i :: 0 <= i < |rest| ==> rest[i] == pairs[i + 1];
    assert forall i :: 0 <= i < |rest| ==> rest[i].legacy != pairs[0].legacy;
    if pairs[0].legacy in present {
      NamedIgnores(rest, present, h);
    } else {
      NamedLosesHead(rest, present, h);
    }
  }

  lemma NamedGoesFirst(present: set<string>, h: Rename)
    requires Named(MIGRATED, present) != [] && h == Named(MIGRATED, present)[0]
    ensures var after := present - {h.legacy} + {h.current};
      && Named(MIGRATED, after) == Named(MIGRATED, present)[1..]
      && Failures(after) == Failures(present)
  {
    assert h in Named(MIGRATED, present);
    NamedHolds(MIGRATED, present);
    forall r | r in MIGRATED
      ensures r.legacy != h.current
    {
      SpellingsApart(r, h);
    }
    forall i, j | 0 <= i < j < |MIGRATED|
      ensures MIGRATED[i].legacy != MIGRATED[j].legacy
    {
      MigratedNames(i, j);
    }
    MigratedIsNoFailuresTable(h);
    NoFailuresTableIsCurrent(h);
    hide MIGRATED, Named, IsFailuresTable;
    NamedLosesHead(MIGRATED, present, h);
  }

  lemma FailuresGoNext(present: set<string>, h: Rename)
    requires var rs := PrefixedAll(Ascending(Failures(present))); rs != [] && h == rs[0]
    ensures var after := present - {h.legacy} + {h.current};
      && Named(MIGRATED, after) == Named(MIGRATED, present)
      && PrefixedAll(Ascending(Failures(after))) == PrefixedAll(Ascending(Failures(present)))[1..]
  {
    var fs := Ascending(Failures(present));
    PrefixedAllAligned(fs);
    assert h.legacy == fs[0] && fs[0] in fs && Spelled(h);
    forall r | r in MIGRATED
      ensures r.legacy != h.current && r.legacy != h.legacy
    {
      SpellingsApart(r, h);
      MigratedIsNoFailuresTable(r);
    }
    NoFailuresTableIsCurrent(h);
    hide MIGRATED, Named, PrefixedAll, Prefixed, IsFailuresTable;
    NamedIgnores(MIGRATED, present, h);
    FailuresLoseHead(present, present - {h.legacy} + {h.current}, h);
    PrefixedAllAligned(fs[1..]);
  }

  lemma LegacySplits(present: set<string>)
    ensures Legacy(present) == Named(MIGRATED, present) + PrefixedAll(Ascending(Failures(present)))
  {
    hide MIGRATED, Named, PrefixedAll, Failures;
    PrefixedFromFailures(present);
  }

  lemma LegacyLosesHead(present: set<string>)
    requires Legacy(present) != []
    ensures var h := Legacy(present)[0]; Legacy(present - {h.legacy} + {h.current}) == Legacy(present)[1..]
  {
    hide *;
    var h := Legacy(present)[0];
    LegacySplits(present);
    LegacySplits(present - {h.legacy} + {h.current});
    var named, rest := Named(MIGRATED, present), PrefixedAll(Ascending(Failures(present)));
    if named != [] {
      NamedGoesFirst(present, h);
      assert (named + rest)[1..] == named[1..] + rest;
    } else {
      assert [] + rest == rest && [] + rest[1..] == rest[1..];
      FailuresGoNext(present, h);
    }
  }

  lemma NoFailuresTableIsCurrent(h: Rename)
    requires Spelled(h)
    ensures !IsFailuresTable(h.current)
  {
    if IsFailuresTable(h.current) {
      var q := Prefixed(h.current);
      assert Spelled(q);
      SpellingsApart(q, h);
    }
  }

  lemma FailuresLoseHead(present: set<string>, after: set<string>, h: Rename)
    requires after == present - {h.legacy} + {h.current} && !IsFailuresTable(h.current)
    requires Ascending(Failures(present)) != [] && h.legacy == Ascending(Failures(present))[0]
    ensures Ascending(Failures(after)) == Ascending(Failures(present))[1..]
  {
    hide IsFailuresTable;
    var f := Failures(present);
    var xs := Ascending(f);
    AscendingAfter(f, 1);
    forall k ensures k in f && StrLt(xs[0], k) <==> k in Failures(after) {
      if k in f && k != xs[0] {
        var i :| 0 <= i < |xs| && xs[i] == k;
        assert StrLe(xs[0], xs[i]);
      }
    }
    assert (set k | k in f && StrLt(xs[0], k)) == Failures(after);
  }

  /** After the first planned rename, planning again gives the remaining renames in order. */
  lemma PlanLosesHead(present: set<string>, renames: seq<Rename>)
    requires PlanOf(present) == Planned(renames) && renames != []
    ensures var h := renames[0];
      && h.legacy in present && h.current !in present && Spelled(h)
      && PlanOf(present - {h.legacy} + {h.current}) == Planned(renames[1..])
  {
    var h := renames[0];
    var after := present - {h.legacy} + {h.current};
    assert h in renames;
    LegacyHolds(present);
    LegacyLosesHead(present);
    LegacyHolds(after);
    TakenNone(renames, present);
    hide Spelled, Legacy;
    forall r | r in renames[1..]
      ensures r.current !in after
    {
      assert r in renames && r in Legacy(after);
      SpellingsApart(r, h);
    }
    TakenNone(renames[1..], after);
  }

  // ----- Tables keep their rows -----

  function Renamed(tables: map<string, Rows>, r: Rename): map<string, Rows>
    requires r.legacy in tables
  {
    (tables - {r.legacy})[r.current := tables[r.legacy]]
  }

  /** The tables after the renames that landed; one that cannot land changes nothing. */
  function Applied(tables: map<string, Rows>, landed: seq<Rename>): map<string, Rows> {
    if landed == [] then tables
    else
      var t, r := Applied(tables, landed[..|landed| - 1]), landed[|landed| - 1];
      if r.legacy in t then Renamed(t, r) else t
  }

  /** Where a table is found after the renames that landed. */
  function NameAfter(name: string, landed: seq<Rename>): string {
    if landed == [] then name
    else if landed[|landed| - 1].legacy == name then landed[|landed| - 1].current
    else NameAfter(name, landed[..|landed| - 1])
  }

  /** Every table's rows are under exactly one name, and there are no other tables. */
  ghost predicate Carried(before: map<string, Rows>, after: map<string, Rows>, landed: seq<Rename>) {
    && (forall n :: n in before ==> NameAfter(n, landed) in after && after[NameAfter(n, landed)] == before[n])
    && (forall n, m :: n in before && m in before && NameAfter(n, landed) == NameAfter(m, landed) ==> n == m)
    && (forall name :: name in after ==> exists n :: n in before && NameAfter(n, landed) == name)
  }

  lemma {:induction false} NameAfterIs(name: string, landed: seq<Rename>)
    ensures NameAfter(name, landed) == name || exists r :: r in landed && NameAfter(name, landed) == r.current
  {
    if landed != [] {
      NameAfterIs(name, landed[..|landed| - 1]);
    }
  }

  lemma NameAfterOneMore(before: map<string, Rows>, after: map<string, Rows>, landed: seq<Rename>, h: Rename)
    requires Carried(before, after, landed) && h.legacy in after
    requires forall r :: r in landed ==> r.current != h.legacy
    ensures h.legacy in before && NameAfter(h.legacy, landed) == h.legacy
    ensures forall m :: NameAfter(m, landed + [h]) == if m == h.legacy then h.current else NameAfter(m, landed)
  {
    assert (landed + [h])[..|landed|] == landed;
    var n :| n in before && NameAfter(n, landed) == h.legacy;
    NameAfterIs(n, landed);
  }

  lemma CarriedStep(before: map<string, Rows>, after: map<string, Rows>, landed: seq<Rename>, h: Rename)
    requires Carried(before, after, landed) && h.legacy in after && h.current !in after
    requires forall r :: r in landed ==> r.current != h.legacy
    ensures Carried(before, Renamed(after, h), landed + [h])
  {
    hide NameAfter;
    var renamed := Renamed(after, h);
    NameAfterOneMore(before, after, landed, h);
    forall m | m in before
      ensures NameAfter(m, landed + [h]) in renamed && renamed[NameAfter(m, landed + [h])] == before[m]
    {
      assert NameAfter(m, landed) in after;
    }
    forall m, n | m in before && n in before && NameAfter(m, landed + [h]) == NameAfter(n, landed + [h])
      ensures m == n
    {
      assert NameAfter(m, landed) in after && NameAfter(n, landed) in after;
    }
    forall name | name in renamed
      ensures exists m :: m in before && NameAfter(m, landed + [h]) == name
    {
      var m :| m in before && NameAfter(m, landed) == if name == h.current then h.legacy else name;
      assert NameAfter(m, landed + [h]) == name;
    }
  }

  /** One more planned rename lands. */
  lemma ResumeStep(before: map<string, Rows>, after: map<string, Rows>, landed: seq<Rename>, left: seq<Rename>)
    requires PlanOf(after.Keys) == Planned(left) && left != []
    requires Carried(before, after, landed) && forall r :: r in landed ==> Spelled(r)
    ensures left[0].legacy in after && Spelled(left[0])
    ensures PlanOf(Renamed(after, left[0]).Keys) == Planned(left[1..])
    ensures Carried(before, Renamed(after, left[0]), landed + [left[0]])
  {
    var h := left[0];
    PlanLosesHead(after.Keys, left);
    hide PlanOf, Spelled, Carried;
    forall r | r in landed
      ensures r.current != h.legacy
    {
      SpellingsApart(h, r);
    }
    CarriedStep(before, after, landed, h);
    assert Renamed(after, h).Keys == after.Keys - {h.legacy} + {h.current};
  }

  /** Stop after any number of planned renames: planning again gives exactly the renames that are
      left, in order, and every table's rows are where its name now says. */
  lemma {:induction false} MigrationResumes(tables: map<string, Rows>, renames: seq<Rename>, k: nat)
    requires PlanOf(tables.Keys) == Planned(renames) && k <= |renames|
    ensures PlanOf(Applied(tables, renames[..k]).Keys) == Planned(renames[k..])
    ensures Carried(tables, Applied(tables, renames[..k]), renames[..k])
    ensures forall r :: r in renames[..k] ==> Spelled(r)
  {
    hide PlanOf, Spelled, Carried, Renamed, Applied;
    if k == 0 {
      assert renames[..0] == [] && renames[0..] == renames;
      NothingLanded(tables);
    } else {
      MigrationResumes(tables, renames, k - 1);
      var done, left := renames[..k - 1], renames[k - 1..];
      assert left[0] == renames[k - 1] && left[1..] == renames[k..];
      assert renames[..k] == done + [left[0]];
      ResumeStep(tables, Applied(tables, done), done, left);
      OneMoreLanded(tables, done, left[0]);
    }
  }

  lemma NothingLanded(tables: map<string, Rows>)
    ensures Applied(tables, []) == tables && Carried(tables, tables, [])
  {
    assert forall n :: NameAfter(n, []) == n;
  }

  lemma OneMoreLanded(tables: map<string, Rows>, landed: seq<Rename>, h: Rename)
    requires h.legacy in Applied(tables, landed)
    ensures Applied(tables, landed + [h]) == Renamed(Applied(tables, landed), h)
  {
    assert (landed + [h])[..|landed|] == landed;
  }

  // ----- The connect-time guard -----

  /** `_guard_legacy_tables`: legacy tables without their current spelling. */
  function Stranded(pairs: seq<Rename>, present: set<string>): seq<Rename> {
    if pairs == [] then []
    else (if pairs[0].legacy in present && pairs[0].current !in present then [pairs[0]] else []) + Stranded(pairs[1..], present)
  }

  predicate GuardPasses(present: set<string>) { Stranded(MIGRATED, present) == [] }

  lemma {:induction false} StrandedHolds(pairs: seq<Rename>, present: set<string>)
    ensures Stranded(pairs, present) == [] <==> forall r :: r in pairs ==> r.legacy !in present || r.current in present
  {
    if pairs != [] {
      StrandedHolds(pairs[1..], present);
      assert pairs == [pairs[0]] + pairs[1..];
    }
  }

  /** A name that no current table may have. */
  predicate IsLegacy(name: string) { IsFailuresTable(name) || exists r :: r in MIGRATED && r.legacy == name }

  /** Nothing is left to plan exactly when no legacy name is left. */
  lemma NothingPlannedIff(present: set<string>)
    ensures PlanOf(present) == Planned([]) <==> forall n :: n in present ==> !IsLegacy(n)
  {
    LegacyHolds(present);
    TakenNone(Legacy(present), present);
    hide Legacy, MIGRATED;
    forall r | r in Legacy(present)
      ensures IsLegacy(r.legacy) && r.legacy in present
    {
      assert Spelled(r);
    }
    if exists n :: n in present && IsLegacy(n) {
      var n :| n in present && IsLegacy(n);
      if IsFailuresTable(n) {
        assert Prefixed(n) in Legacy(present);
      } else {
        var r :| r in MIGRATED && r.legacy == n;
        assert r in Legacy(present);
      }
    } else {
      assert forall r :: r !in Legacy(present);
      assert |Legacy(present)| == 0;
    }
  }

  predicate HasFixed(renames: seq<Rename>) { exists r :: r in renames && r in MIGRATED }

  lemma FixedComeFirst(fixed: seq<Rename>, others: seq<Rename>, k: nat)
    requires k <= |fixed + others|
    requires (forall r :: r in fixed ==> r in MIGRATED) && forall r :: r in others ==> r !in MIGRATED
    ensures HasFixed((fixed + others)[k..]) <==> k < |fixed|
  {
    hide MIGRATED;
    var rest := (fixed + others)[k..];
    if k < |fixed| {
      assert rest[0] == fixed[k] && fixed[k] in fixed;
    } else {
      assert rest == others[k - |fixed|..];
    }
  }

  lemma LegacyFixedFirst(present: set<string>)
    ensures forall r :: r in Named(MIGRATED, present) ==> r in MIGRATED
    ensures forall r :: r in PrefixedAll(Ascending(present)) ==> r !in MIGRATED
  {
    NamedHolds(MIGRATED, present);
    PrefixedAllHolds(Ascending(present));
    forall r | r in MIGRATED
      ensures !IsFailuresTable(r.legacy)
    {
      MigratedIsNoFailuresTable(r);
    }
  }

  /** While a planned migration is under way the guard refuses exactly until every rename of a
      fixed table has landed; those come first in the plan. */
  lemma GuardOpens(tables: map<string, Rows>, renames: seq<Rename>, k: nat)
    requires PlanOf(tables.Keys) == Planned(renames) && k <= |renames|
    ensures GuardPasses(Applied(tables, renames[..k]).Keys) <==> k >= |Named(MIGRATED, tables.Keys)|
  {
    hide *;
    var now := Applied(tables, renames[..k]).Keys;
    MigrationResumes(tables, renames, k);
    LegacyAndPlan(tables.Keys);
    LegacyAndPlan(now);
    LegacyFixedFirst(tables.Keys);
    FixedComeFirst(Named(MIGRATED, tables.Keys), PrefixedAll(Ascending(tables.Keys)), k);
    GuardPassesIff(now, renames[k..]);
  }

  lemma GuardPassesIff(present: set<string>, left: seq<Rename>)
    requires PlanOf(present) == Planned(left)
    ensures GuardPasses(present) <==> !HasFixed(left)
  {
    hide MIGRATED, Legacy, Stranded;
    LegacyHolds(present);
    StrandedHolds(MIGRATED, present);
    TakenNone(Legacy(present), present);
    assert forall r :: r in MIGRATED && r.legacy in present ==> Spelled(r) && r in Legacy(present);
  }

  /** A migration that runs to the end: every table's rows under exactly one name, no legacy name,
      nothing left to plan, and the guard passes. */
  lemma MigrationCompletes(tables: map<string, Rows>, renames: seq<Rename>)
    requires PlanOf(tables.Keys) == Planned(renames)
    ensures var t := Applied(tables, renames);
      && Carried(tables, t, renames)
      && (forall n :: n in t ==> !IsLegacy(n))
      && PlanOf(t.Keys) == Planned([]) && GuardPasses(t.Keys)
  {
    var t := Applied(tables, renames);
    assert renames[..|renames|] == renames;
    MigrationResumes(tables, renames, |renames|);
    NothingPlannedIff(t.Keys);
    hide PlanOf, Carried, IsFailuresTable, Applied;
    StrandedHolds(MIGRATED, t.Keys);
    assert forall r :: r in MIGRATED ==> IsLegacy(r.legacy);
  }

  // ----- The warehouse -----

  class Schema {
    var tables: map<string, Rows>

    constructor (tables: map<string, Rows>)
      ensures this.tables == tables
    {
      this.tables := tables;
    }

    /** One atomic rename. It fails on a missing source, on a taken target, or with an outage. */
    method RenameTable(r: Rename, outage: bool) returns (ok: bool)
      modifies this
      ensures ok <==> !outage && r.legacy in old(tables) && r.current !in old(tables)
      ensures tables == if ok then Renamed(old(tables), r) else old(tables)
    {
      if outage || r.legacy !in tables || r.current in tables {
        return false;
      }
      tables := Renamed(tables, r);
      return true;
    }

    /** `apply_name_migration` of any list, with an outage at the given rename: what landed is the
        longest prefix of which every rename could. Of a fresh plan, only an outage stops it, and a
        new plan carries on from there. */
    method ApplyNameMigration(renames: seq<Rename>, outageAt: Option<nat>) returns (done: seq<Rename>, raised: bool)
      modifies this
      ensures |done| <= |renames| && done == renames[..|done|] && (raised <==> |done| < |renames|)
      ensures tables == Applied(old(tables), done)
      ensures forall k :: 0 <= k < |done| ==> Lands(old(tables), renames, k, outageAt)
      ensures raised ==> !Lands(old(tables), renames, |done|, outageAt)
      ensures PlanOf(old(tables).Keys) == Planned(renames) ==>
        && (raised <==> outageAt.Some? && outageAt.value < |renames|)
        && Underway(old(tables), tables, renames, |done|)
        && (!raised ==> Finished(tables.Keys))
    {
      done := [];
      hide *;
      NothingUnderway(tables, renames);
      for k := 0 to |renames|
        invariant done == renames[..k] && tables == Applied(old(tables), renames[..k])
        invariant forall j :: 0 <= j < k ==> Lands(old(tables), renames, j, outageAt)
        invariant PlanOf(old(tables).Keys) == Planned(renames) ==> Underway(old(tables), tables, renames, k)
      {
        LandsHere(old(tables), renames, k, outageAt);
        var ok := RenameTable(renames[k], outageAt == Some(k));
        if !ok {
          return done, true;
        }
        done := done + [renames[k]];
        assert done == renames[..k + 1];
        OneMoreUnderway(old(tables), renames, k);
      }
      AllLanded(old(tables), tables, renames, outageAt);
      return done, false;
    }
  }

  /** The rename has its source and a free target once those before it landed, and there is no outage. */
  predicate Lands(tables: map<string, Rows>, renames: seq<Rename>, k: nat, outageAt: Option<nat>)
    requires k < |renames|
  {
    var t := Applied(tables, renames[..k]);
    renames[k].legacy in t && renames[k].current !in t && outageAt != Some(k)
  }

  /** The first `k` renames of a plan landed: no row is lost, and a new plan has the others. */
  ghost predicate Underway(before: map<string, Rows>, after: map<string, Rows>, renames: seq<Rename>, k: nat)
    requires k <= |renames|
  {
    PlanOf(after.Keys) == Planned(renames[k..]) && Carried(before, after, renames[..k])
  }

  ghost predicate Finished(present: set<string>) {
    GuardPasses(present) && forall n :: n in present ==> !IsLegacy(n)
  }

  lemma LandsHere(tables: map<string, Rows>, renames: seq<Rename>, k: nat, outageAt: Option<nat>)
    requires k < |renames|
    ensures var t := Applied(tables, renames[..k]);
      && (Lands(tables, renames, k, outageAt) <==> renames[k].legacy in t && renames[k].current !in t && outageAt != Some(k))
      && (PlanOf(tables.Keys) == Planned(renames) ==> renames[k].legacy in t && renames[k].current !in t)
  {
    hide Applied, PlanOf, Carried, Spelled;
    if PlanOf(tables.Keys) == Planned(renames) {
      MigrationResumes(tables, renames, k);
      assert renames[k..][0] == renames[k];
      PlanLosesHead(Applied(tables, renames[..k]).Keys, renames[k..]);
    }
  }

  lemma NothingUnderway(tables: map<string, Rows>, renames: seq<Rename>)
    ensures tables == Applied(tables, renames[..0]) && renames[..0] == []
    ensures PlanOf(tables.Keys) == Planned(renames) ==> Underway(tables, tables, renames, 0)
  {
    hide PlanOf;
    NothingLanded(tables);
    assert renames[..0] == [] && renames[0..] == renames;
  }

  lemma OneMoreUnderway(tables: map<string, Rows>, renames: seq<Rename>, k: nat)
    requires k < |renames| && renames[k].legacy in Applied(tables, renames[..k])
    ensures Applied(tables, renames[..k + 1]) == Renamed(Applied(tables, renames[..k]), renames[k])
    ensures PlanOf(tables.Keys) == Planned(renames) ==>
      Underway(tables, Applied(tables, renames[..k + 1]), renames, k + 1)
  {
    hide Applied, PlanOf, Carried, Renamed;
    assert renames[..k + 1] == renames[..k] + [renames[k]];
    OneMoreLanded(tables, renames[..k], renames[k]);
    if PlanOf(tables.Keys) == Planned(renames) {
      MigrationResumes(tables, renames, k + 1);
    }
  }

  lemma AllLanded(before: map<string, Rows>, after: map<string, Rows>, renames: seq<Rename>, outageAt: Option<nat>)
    requires after == Applied(before, renames[..|renames|])
    requires forall k :: 0 <= k < |renames| ==> Lands(before, renames, k, outageAt)
    ensures outageAt.Some? ==> outageAt.value >= |renames|
    ensures renames[..|renames|] == renames
    ensures PlanOf(before.Keys) == Planned(renames) ==> Finished(after.Keys)
  {
    hide Applied, PlanOf, Carried, IsLegacy, GuardPasses;
    assert renames[..|renames|] == renames;
    assert outageAt.Some? && outageAt.value < |renames| ==> Lands(before, renames, outageAt.value, outageAt);
    if PlanOf(before.Keys) == Planned(renames) {
      MigrationCompletes(before, renames);
    }
  }

  // ----- The names, written out -----

  /** What is renamed to what. */
  lemma SpelledIs(r: Rename)
    ensures Spelled(r) <==>
      || r == Rename("dbt_ml_state", "stel_state")
      || r == Rename("dbt_ml_serving_ledger", "stel_serving_ledger")
      || r == Rename("dbt_ml_serving_leases", "stel_serving_leases")
      || exists rest: string :: r == Rename("dbt_ml_test_failures__" + rest, "stel_test_failures__" + rest)
  {
    var old_, new_ := "dbt_ml_test_failures__", "stel_test_failures__";
    if IsFailuresTable(r.legacy) && r == Prefixed(r.legacy) {
      var rest := r.legacy[|old_|..];
      assert r.legacy == old_ + rest && r == Rename(old_ + rest, new_ + rest);
    }
    if rest: string :| r == Rename(old_ + rest, new_ + rest) {
      assert r.legacy[|old_|..] == rest;
    }
    assert r in MIGRATED <==> r == MIGRATED[0] || r == MIGRATED[1] || r == MIGRATED[2];
  }

  /** The order of a plan: state, serving ledger and serving leases as far as they are there, then
      the failure tables by their names. */
  lemma PlanInOrder(present: set<string>, renames: seq<Rename>) returns (failures: seq<Rename>)
    requires PlanOf(present) == Planned(renames)
    ensures renames == (if "dbt_ml_state" in present then [MIGRATED[0]] else [])
                       + (if "dbt_ml_serving_ledger" in present then [MIGRATED[1]] else [])
                       + (if "dbt_ml_serving_leases" in present then [MIGRATED[2]] else []) + failures
    ensures FailuresAscend(failures)
  {
    failures := PrefixedAll(Ascending(present));
    AscendingFailures(Ascending(present));
    NamedInOrder(present);
  }

  lemma NamedInOrder(present: set<string>)
    ensures Named(MIGRATED, present) == (if "dbt_ml_state" in present then [MIGRATED[0]] else [])
      + (if "dbt_ml_serving_ledger" in present then [MIGRATED[1]] else [])
      + (if "dbt_ml_serving_leases" in present then [MIGRATED[2]] else [])
  {
    var two, one := MIGRATED[1..], MIGRATED[2..];
    assert two[1..] == one && one[1..] == [];
    var third := if "dbt_ml_serving_leases" in present then [MIGRATED[2]] else [];
    assert Named(one, present) == third + [] == third;
    assert Named(two, present) == (if "dbt_ml_serving_ledger" in present then [MIGRATED[1]] else []) + third;
  }

  predicate FailuresAscend(failures: seq<Rename>) {
    && (forall r :: r in failures ==> "dbt_ml_test_failures__" <= r.legacy)
    && (forall i, j :: 0 <= i < j < |failures| ==> StrLt(failures[i].legacy, failures[j].legacy))
  }

  lemma {:induction false} AscendingFailures(names: seq<string>)
    requires forall i, j :: 0 <= i < j < |names| ==> StrLt(names[i], names[j])
    ensures FailuresAscend(PrefixedAll(names))
    ensures forall r :: r in PrefixedAll(names) ==> r.legacy in names
  {
    if names != [] {
      hide StrLe;
      var init, last := names[..|names| - 1], names[|names| - 1];
      assert names == init + [last];
      AscendingFailures(init);
      var failures := PrefixedAll(init);
      forall i | 0 <= i < |failures|
        ensures StrLt(failures[i].legacy, last)
      {
        assert failures[i] in failures;
        var k :| 0 <= k < |init| && init[k] == failures[i].legacy;
        assert names[k] == init[k];
      }
    }
  }
}
