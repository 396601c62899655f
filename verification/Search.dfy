/** Turning store results into ranked rows, and reciprocal-rank fusion of several rankings. */
module Search {
  import opened Sorting
  import opened Text
  import Metrics

  // ----- Ranking one store result -----

  /** What a column of a result row holds. */
  datatype Cell = Null | Flag(on: bool) | Number(value: real) | NotFinite | Text(text: string)

  type Row = map<string, Cell>

  datatype RawScore = RawScore(kind: string, value: real)

  datatype RankedRow = RankedRow(recordId: string, values: Row, raw: Option<RawScore>)

  datatype Result<+T> = Ok(value: T) | SearchError

  /** The id column's string, empty when the row has none. */
  function IdOf(row: Row, idField: string): string {
    if idField in row && row[idField].Text? then row[idField].text else ""
  }

  function RawIds(table: seq<Row>, idField: string): seq<string> {
    seq(|table|, i requires 0 <= i < |table| => IdOf(table[i], idField))
  }

  function Ids(rows: seq<RankedRow>): seq<string> {
    seq(|rows|, i requires 0 <= i < |rows| => rows[i].recordId)
  }

  const SCORE_COLUMNS := ["_distance", "_score", "_relevance_score"]

  function Payload(row: Row): Row { row - set name | name in SCORE_COLUMNS }

  predicate IsNumber(row: Row, name: string) { name in row && row[name].Number? }

  /** The first score column with a finite number, under its name without the underscore. */
  ghost predicate IsRawScore(raw: Option<RawScore>, row: Row) {
    match raw
    case None => forall name :: name in SCORE_COLUMNS ==> !IsNumber(row, name)
    case Some(s) =>
      exists i :: 0 <= i < |SCORE_COLUMNS| && IsNumber(row, SCORE_COLUMNS[i])
               && s == RawScore(SCORE_COLUMNS[i][1..], row[SCORE_COLUMNS[i]].value)
               && forall j :: 0 <= j < i ==> !IsNumber(row, SCORE_COLUMNS[j])
  }

  method FirstScore(row: Row) returns (raw: Option<RawScore>)
    ensures IsRawScore(raw, row)
  {
    for k := 0 to |SCORE_COLUMNS|
      invariant forall j :: 0 <= j < k ==> !IsNumber(row, SCORE_COLUMNS[j])
    {
      var name := SCORE_COLUMNS[k];
      if name in row && row[name].Number? {
        return Some(RawScore(name[1..], row[name].value));
      }
    }
    return None;
  }

  /** `ranked` is what the first row of the table with its id comes to. */
  ghost predicate IsFirst(ranked: RankedRow, table: seq<Row>, idField: string) {
    exists i :: 0 <= i < |table| && IdOf(table[i], idField) == ranked.recordId
             && ranked.values == Payload(table[i]) && IsRawScore(ranked.raw, table[i])
             && forall j :: 0 <= j < i ==> IdOf(table[j], idField) != ranked.recordId
  }

  ghost predicate AllNamed(table: seq<Row>, idField: string) {
    forall row :: row in table ==> IdOf(row, idField) != ""
  }

  method RankTable(table: seq<Row>, idField: string) returns (r: Result<seq<RankedRow>>)
    ensures r.Ok? <==> AllNamed(table, idField)
    ensures r.Ok? ==> Ids(r.value) == Dedup(RawIds(table, idField))
    ensures r.Ok? ==> forall row :: row in r.value ==> IsFirst(row, table, idField)
  {
    hide IsRawScore;
    var rows: seq<RankedRow> := [];
    var seen: set<string> := {};
    for k := 0 to |table|
      invariant AllNamed(table[..k], idField)
      invariant Ids(rows) == Dedup(RawIds(table[..k], idField))
      invariant forall id :: id in seen <==> id in Ids(rows)
      invariant forall row :: row in rows ==> IsFirst(row, table, idField)
    {
      var raw := table[k];
      assert table[..k + 1] == table[..k] + [raw];
      if !(idField in raw && raw[idField].Text? && raw[idField].text != "") {
        assert raw in table && IdOf(raw, idField) == "";
        return SearchError;
      }
      var recordId := raw[idField].text;
      RawIdsSnoc(table[..k], raw, idField);
      if recordId !in seen {
        seen := seen + {recordId};
        var score := FirstScore(raw);
        var ranked := RankedRow(recordId, Payload(raw), score);
        FirstHere(table, k, idField, ranked);
        assert Ids(rows + [ranked]) == Ids(rows) + [recordId];
        rows := rows + [ranked];
      }
    }
    assert table[..|table|] == table;
    return Ok(rows);
  }

  lemma RawIdsSnoc(table: seq<Row>, row: Row, idField: string)
    ensures RawIds(table + [row], idField) == RawIds(table, idField) + [IdOf(row, idField)]
  {
  }

  lemma FirstHere(table: seq<Row>, k: nat, idField: string, ranked: RankedRow)
    requires k < |table| && ranked.recordId == IdOf(table[k], idField)
    requires ranked.values == Payload(table[k]) && IsRawScore(ranked.raw, table[k])
    requires ranked.recordId !in RawIds(table[..k], idField)
    ensures IsFirst(ranked, table, idField)
  {
    hide IsRawScore;
    var ids := RawIds(table[..k], idField);
    forall j | 0 <= j < k
      ensures IdOf(table[j], idField) != ranked.recordId
    {
      assert ids[j] == IdOf(table[j], idField) && ids[j] in ids;
    }
  }

  /** A single ranking scores by the reciprocal rank. */
  function ScoreSingle(rows: seq<RankedRow>, name: string): seq<ScoredRow> {
    seq(|rows|, i requires 0 <= i < |rows| =>
      ScoredRow(rows[i].recordId, rows[i].values, 1.0 / (i + 1) as real, rows[i].raw, map[name := i + 1]))
  }

  // ----- Reciprocal-rank fusion -----

  const RANK_CONSTANT := 60

  datatype ScoredRow = ScoredRow(recordId: string, values: Row, score: real, raw: Option<RawScore>, ranks: map<string, nat>)

  /** One ranking under its name; `ids[0]` has rank 1. */
  datatype Ranking = Ranking(name: string, rows: seq<ScoredRow>) {
    const ids: seq<string> := RecordIds(rows)
  }

  function RecordIds(rows: seq<ScoredRow>): seq<string> {
    seq(|rows|, i requires 0 <= i < |rows| => rows[i].recordId)
  }

  function NonEmpty(ranked: seq<Ranking>): seq<Ranking> {
    if ranked == [] then []
    else (if ranked[0].ids != [] then [ranked[0]] else []) + NonEmpty(ranked[1..])
  }

  /** `sorted(nonempty)`: the non-empty rankings by name. */
  function ByName(ranked: seq<Ranking>): seq<Ranking> {
    Sort(NonEmpty(ranked), (a: Ranking, b: Ranking) => StrLe(a.name, b.name))
  }

  function Share(rank: nat): real { 1.0 / (RANK_CONSTANT + rank) as real }

  /** What one ranking gives an id: the shares of all places it holds among the first `n`. */
  function Contribution(ids: seq<string>, n: nat, id: string): real
    requires n <= |ids|
  {
    if n == 0 then 0.0 else Contribution(ids, n - 1, id) + if ids[n - 1] == id then Share(n) else 0.0
  }

  function Score(rankings: seq<Ranking>, id: string): real {
    if rankings == [] then 0.0
    else
      var last := rankings[|rankings| - 1];
      Score(rankings[..|rankings| - 1], id) + Contribution(last.ids, |last.ids|, id)
  }

  function Maximum(count: nat): real { count as real / (RANK_CONSTANT + 1) as real }

  function Lookup(scores: map<string, real>, id: string): real { if id in scores then scores[id] else 0.0 }

  predicate Before(scores: map<string, real>, a: string, b: string) {
    Lookup(scores, a) > Lookup(scores, b) || (Lookup(scores, a) == Lookup(scores, b) && StrLe(a, b))
  }

  ghost predicate Listed(rankings: seq<Ranking>, id: string) {
    exists r :: r in rankings && id in r.ids
  }

  /** The last of the first `n` places that `id` holds, counted from 1; 0 when it holds none. */
  function LastRank(ids: seq<string>, n: nat, id: string): (rank: nat)
    requires n <= |ids|
    ensures rank <= n
  {
    if n == 0 then 0 else if ids[n - 1] == id then n else LastRank(ids, n - 1, id)
  }

  function WithRank(ranks: map<string, nat>, name: string, rank: nat): map<string, nat> {
    if rank == 0 then ranks else ranks[name := rank]
  }

  /** Under each ranking's name, the rank it gave the id. */
  function RanksOf(rankings: seq<Ranking>, id: string): map<string, nat> {
    if rankings == [] then map[]
    else
      var last := rankings[|rankings| - 1];
      WithRank(RanksOf(rankings[..|rankings| - 1], id), last.name, LastRank(last.ids, |last.ids|, id))
  }

  function LookupRanks(ranks: map<string, map<string, nat>>, id: string): map<string, nat> {
    if id in ranks then ranks[id] else map[]
  }

  /** An id's values from the first `n` rows of one ranking; a later row overrides. */
  function ValuesIn(rows: seq<ScoredRow>, n: nat, id: string): Row
    requires n <= |rows|
  {
    if n == 0 then map[]
    else if rows[n - 1].recordId == id then ValuesIn(rows, n - 1, id) + rows[n - 1].values
    else ValuesIn(rows, n - 1, id)
  }

  /** An id's values from all rankings; a later ranking overrides. */
  function ValuesOf(rankings: seq<Ranking>, id: string): Row {
    if rankings == [] then map[]
    else
      var last := rankings[|rankings| - 1];
      ValuesOf(rankings[..|rankings| - 1], id) + ValuesIn(last.rows, |last.rows|, id)
  }

  function LookupValues(values: map<string, Row>, id: string): Row {
    if id in values then values[id] else map[]
  }

  /** The three accumulators of the loop, with the insertion order of their keys. */
  datatype Fused = Fused(order: seq<string>, scores: map<string, real>, values: map<string, Row>,
    ranks: map<string, map<string, nat>>)
  {
    ghost predicate Valid() {
      && Distinct(order)
      && (forall id :: id in order <==> id in scores)
      && (forall id :: id in scores <==> id in values)
      && (forall id :: id in scores <==> id in ranks)
    }

    function Add(row: ScoredRow, name: string, rank: nat): Fused {
      var id := row.recordId;
      Fused(if id in order then order else order + [id],
            scores[id := Lookup(scores, id) + Share(rank)],
            values[id := LookupValues(values, id) + row.values],
            ranks[id := LookupRanks(ranks, id)[name := rank]])
    }
  }

  ghost predicate Accounted(f: Fused, rankings: seq<Ranking>) {
    && f.Valid()
    && (forall id :: id in f.order <==> Listed(rankings, id))
    && (forall id :: Lookup(f.scores, id) == Score(rankings, id))
    && (forall id :: LookupValues(f.values, id) == ValuesOf(rankings, id))
    && (forall id :: LookupRanks(f.ranks, id) == RanksOf(rankings, id))
  }

  ghost predicate Halfway(f: Fused, before: Fused, ranking: Ranking, n: nat)
    requires n <= |ranking.ids|
  {
    && f.Valid()
    && (forall id :: id in f.order <==> id in before.order || id in ranking.ids[..n])
    && (forall id :: Lookup(f.scores, id) == Lookup(before.scores, id) + Contribution(ranking.ids, n, id))
    && (forall id :: LookupValues(f.values, id) == LookupValues(before.values, id) + ValuesIn(ranking.rows, n, id))
    && (forall id :: LookupRanks(f.ranks, id)
                  == WithRank(LookupRanks(before.ranks, id), ranking.name, LastRank(ranking.ids, n, id)))
  }

  lemma AddEffects(f: Fused, row: ScoredRow, name: string, rank: nat)
    requires f.Valid()
    ensures var g, id := f.Add(row, name, rank), row.recordId;
      && g.Valid()
      && (forall x :: x in g.order <==> x in f.order || x == id)
      && (forall x :: Lookup(g.scores, x) == Lookup(f.scores, x) + if x == id then Share(rank) else 0.0)
  {
    hide Share, LookupValues, LookupRanks;
    DistinctSnoc(f.order, row.recordId);
    hide Distinct;
  }

  lemma AddCarries(f: Fused, row: ScoredRow, name: string, rank: nat)
    ensures var g, id := f.Add(row, name, rank), row.recordId;
      && (forall x :: LookupValues(g.values, x)
                   == if x == id then LookupValues(f.values, x) + row.values else LookupValues(f.values, x))
      && (forall x :: LookupRanks(g.ranks, x)
                   == if x == id then LookupRanks(f.ranks, x)[name := rank] else LookupRanks(f.ranks, x))
  {
    hide Share, Lookup;
  }

  lemma Overrides(a: Row, b: Row, c: Row)
    ensures (a + b) + c == a + (b + c)
  {}

  lemma AddStep(f: Fused, before: Fused, ranking: Ranking, n: nat)
    requires n < |ranking.ids| && Halfway(f, before, ranking, n)
    ensures Halfway(f.Add(ranking.rows[n], ranking.name, n + 1), before, ranking, n + 1)
  {
    hide Share, Lookup, LookupValues, LookupRanks, Fused.Add, Fused.Valid;
    var row := ranking.rows[n];
    assert ranking.ids[..n + 1] == ranking.ids[..n] + [row.recordId];
    AddEffects(f, row, ranking.name, n + 1);
    AddCarries(f, row, ranking.name, n + 1);
    Overrides(LookupValues(before.values, row.recordId), ValuesIn(ranking.rows, n, row.recordId), row.values);
  }

  lemma RankingStep(f: Fused, before: Fused, rankings: seq<Ranking>, n: nat)
    requires n < |rankings| && Accounted(before, rankings[..n])
    requires Halfway(f, before, rankings[n], |rankings[n].ids|)
    ensures Accounted(f, rankings[..n + 1])
  {
    hide Contribution, LastRank, WithRank, ValuesIn, Lookup, LookupValues, LookupRanks, Fused.Valid;
    var ids := rankings[n].ids;
    assert ids[..|ids|] == ids;
    assert rankings[..n + 1] == rankings[..n] + [rankings[n]];
    assert rankings[..n + 1][..n] == rankings[..n];
    forall id
      ensures Listed(rankings[..n + 1], id) <==> Listed(rankings[..n], id) || id in ids
    {
      if Listed(rankings[..n], id) {
        var r :| r in rankings[..n] && id in r.ids;
        assert r in rankings[..n + 1];
      }
      if id in ids {
        assert rankings[n] in rankings[..n + 1];
      }
    }
  }

  method Fuse(rankings: seq<Ranking>) returns (f: Fused)
    ensures Accounted(f, rankings)
  {
    hide Accounted, Halfway;
    f := Fused([], map[], map[], map[]);
    FuseStart(f, rankings);
    for n := 0 to |rankings|
      invariant Accounted(f, rankings[..n])
    {
      var ranking := rankings[n];
      ghost var before := f;
      HalfwayStart(f, rankings[..n], ranking);
      for k := 0 to |ranking.rows|
        invariant Halfway(f, before, ranking, k)
      {
        AddStep(f, before, ranking, k);
        f := f.Add(ranking.rows[k], ranking.name, k + 1);
      }
      RankingStep(f, before, rankings, n);
    }
    assert rankings[..|rankings|] == rankings;
  }

  lemma FuseStart(f: Fused, rankings: seq<Ranking>)
    requires f == Fused([], map[], map[], map[])
    ensures Accounted(f, rankings[..0])
  {
  }

  lemma HalfwayStart(f: Fused, rankings: seq<Ranking>, ranking: Ranking)
    requires Accounted(f, rankings)
    ensures Halfway(f, f, ranking, 0)
  {
  }

  ghost predicate Precedes(rankings: seq<Ranking>, a: string, b: string) {
    Score(rankings, a) > Score(rankings, b) || (Score(rankings, a) == Score(rankings, b) && StrLe(a, b))
  }

  lemma BeforeIsOrder(scores: map<string, real>)
    ensures TotalPreorder((a, b) => Before(scores, a, b))
  {
    StrLeOrder();
  }

  ghost predicate RightlyScored(row: ScoredRow, rankings: seq<Ranking>) {
    && rankings != []
    && row.score == Score(rankings, row.recordId) / Maximum(|rankings|)
    && row.raw == None
    && row.values == ValuesOf(rankings, row.recordId)
    && row.ranks == RanksOf(rankings, row.recordId)
  }

  /** The ids of all rankings, each once, rightly scored and in order. */
  ghost predicate IsFusion(rows: seq<ScoredRow>, ranked: seq<Ranking>) {
    && Distinct(RecordIds(rows))
    && (forall id :: id in RecordIds(rows) <==> Listed(ranked, id))
    && (forall row :: row in rows ==> RightlyScored(row, ByName(ranked)))
    && (forall i, j :: 0 <= i < j < |rows| ==> Precedes(ByName(ranked), rows[i].recordId, rows[j].recordId))
  }

  method Rrf(ranked: seq<Ranking>) returns (rows: seq<ScoredRow>)
    ensures IsFusion(rows, ranked)
  {
    hide Score, ValuesOf, RanksOf, ByName;
    var rankings := ByName(ranked);
    forall id ensures Listed(ranked, id) <==> Listed(rankings, id) { ByNameKeeps(ranked, id); }
    if rankings == [] { return []; }
    hide Accounted, Before, Precedes, Distinct, Listed, IsFusion;
    var f := Fuse(rankings);
    var maximum := |rankings| as real / (RANK_CONSTANT + 1) as real;
    AccountedIsValid(f, rankings);
    var ordered := SortedIds(f);
    rows := FusedRows(f, ordered, maximum);
    RowsAreFusion(rows, ranked, f, ordered, maximum);
  }

  lemma AccountedIsValid(f: Fused, rankings: seq<Ranking>)
    requires Accounted(f, rankings)
    ensures f.Valid()
  {
  }

  lemma RowsAreFusion(rows: seq<ScoredRow>, ranked: seq<Ranking>, f: Fused, ordered: seq<string>, maximum: real)
    requires ByName(ranked) != [] && Accounted(f, ByName(ranked))
    requires forall id :: Listed(ranked, id) <==> Listed(ByName(ranked), id)
    requires Distinct(ordered) && forall id :: id in ordered <==> id in f.order
    requires forall i, j :: 0 <= i < j < |ordered| ==> Before(f.scores, ordered[i], ordered[j])
    requires maximum > 0.0 && maximum == Maximum(|ByName(ranked)|) && rows == FusedRows(f, ordered, maximum)
    ensures IsFusion(rows, ranked)
  {
    hide Score, ValuesOf, RanksOf, ByName, Distinct, StrLe, Listed, Fused.Valid;
    assert RecordIds(rows) == ordered;
    forall i | 0 <= i < |rows|
      ensures rows[i].recordId == ordered[i]
    {
      assert RecordIds(rows)[i] == ordered[i];
    }
  }

  function FusedRows(f: Fused, ordered: seq<string>, maximum: real): (rows: seq<ScoredRow>)
    requires maximum > 0.0
    ensures RecordIds(rows) == ordered
    ensures forall row :: row in rows ==> row == FusedRow(f, row.recordId, maximum)
  {
    seq(|ordered|, i requires 0 <= i < |ordered| => FusedRow(f, ordered[i], maximum))
  }

  function FusedRow(f: Fused, id: string, maximum: real): ScoredRow
    requires maximum > 0.0
  {
    ScoredRow(id, LookupValues(f.values, id), Lookup(f.scores, id) / maximum, None, LookupRanks(f.ranks, id))
  }

  method SortedIds(f: Fused) returns (ordered: seq<string>)
    requires f.Valid()
    ensures Distinct(ordered) && forall id :: id in ordered <==> id in f.order
    ensures forall i, j :: 0 <= i < j < |ordered| ==> Before(f.scores, ordered[i], ordered[j])
  {
    ordered := Sort(f.order, (a, b) => Before(f.scores, a, b));
    BeforeIsOrder(f.scores);
    SortSorts(f.order, (a, b) => Before(f.scores, a, b));
    DistinctTransfers(f.order, ordered);
    forall id ensures id in ordered <==> id in f.order {
      assert id in multiset(ordered) <==> id in multiset(f.order);
    }
  }

  lemma {:induction false} NonEmptyKeeps(ranked: seq<Ranking>, r: Ranking)
    ensures r in NonEmpty(ranked) <==> r in ranked && r.ids != []
  {
    if ranked != [] {
      NonEmptyKeeps(ranked[1..], r);
    }
  }

  lemma ByNameMembers(ranked: seq<Ranking>, r: Ranking)
    ensures r in ByName(ranked) <==> r in ranked && r.ids != []
  {
    NonEmptyKeeps(ranked, r);
    assert r in multiset(ByName(ranked)) <==> r in multiset(NonEmpty(ranked));
  }

  lemma ByNameKeeps(ranked: seq<Ranking>, id: string)
    ensures Listed(ranked, id) <==> Listed(ByName(ranked), id)
  {
    if Listed(ranked, id) {
      var r :| r in ranked && id in r.ids;
      ByNameMembers(ranked, r);
    }
    if Listed(ByName(ranked), id) {
      var r :| r in ByName(ranked) && id in r.ids;
      ByNameMembers(ranked, r);
    }
  }

  // ----- What fused scores mean -----

  /** 1-based rank, 0 when absent. */
  function Rank(ids: seq<string>, id: string): (rank: nat)
    ensures rank <= |ids| && (rank == 0 <==> id !in ids) && (rank > 0 ==> ids[rank - 1] == id)
  {
    if ids == [] then 0
    else
      var init := ids[..|ids| - 1];
      assert ids == init + [ids[|ids| - 1]];
      if id in init then Rank(init, id) else if ids[|ids| - 1] == id then |ids| else 0
  }

  function ShareOf(rank: nat): real { if rank == 0 then 0.0 else Share(rank) }

  lemma SharesDecrease(r: nat, s: nat)
    requires 1 <= r < s
    ensures Share(r) > Share(s) > 0.0
  {
    var x, y := (RANK_CONSTANT + r) as real, (RANK_CONSTANT + s) as real;
    assert 1.0 / x - 1.0 / y == (y - x) / (x * y);
    assert x * y > 0.0;
  }

  lemma ShareAtMostFirst(rank: nat)
    ensures 0.0 <= ShareOf(rank) <= Share(1)
    ensures ShareOf(rank) == Share(1) <==> rank == 1
    ensures ShareOf(rank) > 0.0 <==> rank > 0
  {
    if rank > 1 { SharesDecrease(1, rank); }
  }

  lemma {:induction false} ContributionOnce(ids: seq<string>, n: nat, id: string)
    requires n <= |ids| && Distinct(ids)
    ensures Contribution(ids, n, id) == ShareOf(Rank(ids[..n], id))
  {
    if n > 0 {
      hide Share;
      ContributionOnce(ids, n - 1, id);
      assert ids[..n][..n - 1] == ids[..n - 1];
      assert id == ids[n - 1] ==> id !in ids[..n - 1];
    }
  }

  ghost predicate AllDistinct(rankings: seq<Ranking>) {
    forall r :: r in rankings ==> Distinct(r.ids)
  }

  lemma ScoreSnoc(rankings: seq<Ranking>, id: string)
    requires rankings != [] && AllDistinct(rankings)
    ensures var last := rankings[|rankings| - 1];
      Score(rankings, id) == Score(rankings[..|rankings| - 1], id) + ShareOf(Rank(last.ids, id))
  {
    hide Contribution, Rank, Share;
    var last := rankings[|rankings| - 1];
    assert last in rankings;
    ContributionOnce(last.ids, |last.ids|, id);
    assert last.ids[..|last.ids|] == last.ids;
  }

  lemma Membership(rankings: seq<Ranking>)
    requires rankings != []
    ensures forall r :: r in rankings <==> r in rankings[..|rankings| - 1] || r == rankings[|rankings| - 1]
  {
    assert rankings == rankings[..|rankings| - 1] + [rankings[|rankings| - 1]];
  }

  ghost predicate FirstEverywhere(rankings: seq<Ranking>, id: string) {
    forall r :: r in rankings ==> Rank(r.ids, id) == 1
  }

  function Best(count: nat): real { if count == 0 then 0.0 else Best(count - 1) + Share(1) }

  lemma {:induction false} BestIsMaximum(count: nat)
    ensures Best(count) == Maximum(count)
  {
    if count > 0 {
      BestIsMaximum(count - 1);
    }
  }

  lemma {:induction false} ScoreRange(rankings: seq<Ranking>, id: string)
    requires AllDistinct(rankings)
    ensures 0.0 <= Score(rankings, id) <= Best(|rankings|)
    ensures Score(rankings, id) > 0.0 <==> Listed(rankings, id)
    ensures Score(rankings, id) == Best(|rankings|) <==> FirstEverywhere(rankings, id)
  {
    if rankings != [] {
      hide Score, Rank, Share, ShareOf;
      var init, last := rankings[..|rankings| - 1], rankings[|rankings| - 1];
      Membership(rankings);
      ScoreRange(init, id);
      ScoreSnoc(rankings, id);
      ShareAtMostFirst(Rank(last.ids, id));
      if Rank(last.ids, id) > 0 {
        assert last in rankings && id in last.ids;
      }
    }
  }

  /** The score of a listed id lies in (0, 1], and is 1 exactly for an id that heads every ranking. */
  lemma FusedScoreRange(ranked: seq<Ranking>, id: string)
    requires AllDistinct(ranked) && Listed(ranked, id)
    ensures var rankings := ByName(ranked);
      && rankings != []
      && 0.0 < Score(rankings, id) / Maximum(|rankings|) <= 1.0
      && (Score(rankings, id) / Maximum(|rankings|) == 1.0 <==>
            forall r :: r in ranked && r.ids != [] ==> Rank(r.ids, id) == 1)
  {
    hide Score, Rank;
    var rankings := ByName(ranked);
    forall r ensures r in rankings <==> r in ranked && r.ids != [] { ByNameMembers(ranked, r); }
    ByNameKeeps(ranked, id);
    ScoreRange(rankings, id);
    assert rankings != [];
    BestIsMaximum(|rankings|);
    Normalised(Score(rankings, id), Maximum(|rankings|));
  }

  lemma Normalised(a: real, b: real)
    requires 0.0 < a <= b
    ensures 0.0 < a / b <= 1.0 && (a / b == 1.0 <==> a == b)
  {
    var q := a / b;
    assert q * b == a;
  }

  predicate RanksAtLeastAsWell(r: Ranking, a: string, b: string) {
    Rank(r.ids, b) > 0 ==> 0 < Rank(r.ids, a) <= Rank(r.ids, b)
  }

  predicate RanksBetter(r: Ranking, a: string, b: string) {
    Rank(r.ids, a) > 0 && (Rank(r.ids, b) > 0 ==> Rank(r.ids, a) < Rank(r.ids, b))
  }

  lemma ShareOrder(r: Ranking, a: string, b: string)
    requires RanksAtLeastAsWell(r, a, b)
    ensures ShareOf(Rank(r.ids, a)) >= ShareOf(Rank(r.ids, b))
    ensures RanksBetter(r, a, b) ==> ShareOf(Rank(r.ids, a)) > ShareOf(Rank(r.ids, b))
  {
    hide Rank;
    var x, y := Rank(r.ids, a), Rank(r.ids, b);
    ShareAtMostFirst(x);
    if 0 < x < y { SharesDecrease(x, y); }
  }

  lemma {:induction false} ScoreOrder(rankings: seq<Ranking>, a: string, b: string)
    requires AllDistinct(rankings) && forall r :: r in rankings ==> RanksAtLeastAsWell(r, a, b)
    ensures Score(rankings, a) >= Score(rankings, b)
    ensures (exists r :: r in rankings && RanksBetter(r, a, b)) ==> Score(rankings, a) > Score(rankings, b)
  {
    if rankings != [] {
      hide Score, Rank, Share, ShareOf, RanksBetter, RanksAtLeastAsWell;
      Membership(rankings);
      ScoreOrder(rankings[..|rankings| - 1], a, b);
      ScoreSnoc(rankings, a);
      ScoreSnoc(rankings, b);
      ShareOrder(rankings[|rankings| - 1], a, b);
    }
  }

  lemma {:induction false} LastRankOnce(ids: seq<string>, n: nat, id: string)
    requires n <= |ids| && Distinct(ids)
    ensures LastRank(ids, n, id) == Rank(ids[..n], id)
  {
    if n > 0 {
      LastRankOnce(ids, n - 1, id);
      assert ids[..n][..n - 1] == ids[..n - 1];
      assert id == ids[n - 1] ==> id !in ids[..n - 1];
    }
  }

  ghost predicate NamesDistinct(rankings: seq<Ranking>) {
    forall i, j :: 0 <= i < j < |rankings| ==> rankings[i].name != rankings[j].name
  }

  /** The reported ranks are exactly the id's ranks in the rankings that list it. */
  lemma {:induction false} RanksMeaning(rankings: seq<Ranking>, id: string)
    requires AllDistinct(rankings) && NamesDistinct(rankings)
    ensures forall r :: r in rankings ==>
      && (r.name in RanksOf(rankings, id) <==> id in r.ids)
      && (id in r.ids ==> RanksOf(rankings, id)[r.name] == Rank(r.ids, id))
    ensures forall name :: name in RanksOf(rankings, id) ==> exists r :: r in rankings && r.name == name
  {
    if rankings != [] {
      hide LastRank;
      var init, last := rankings[..|rankings| - 1], rankings[|rankings| - 1];
      assert last in rankings;
      Membership(rankings);
      RanksMeaning(init, id);
      LastRankOnce(last.ids, |last.ids|, id);
      assert last.ids[..|last.ids|] == last.ids;
      hide Rank;
      forall r | r in init
        ensures r.name != last.name
      {
        var i :| 0 <= i < |init| && init[i] == r;
        assert rankings[i] == r;
      }
      assert last.name !in RanksOf(init, id);
    }
  }

  /** An id ranked at least as well everywhere and better somewhere always comes first. */
  lemma DominatorPrecedes(ranked: seq<Ranking>, a: string, b: string)
    requires AllDistinct(ranked)
    requires forall r :: r in ranked ==> RanksAtLeastAsWell(r, a, b)
    requires exists r :: r in ranked && RanksBetter(r, a, b)
    ensures Precedes(ByName(ranked), a, b) && !Precedes(ByName(ranked), b, a)
  {
    hide Score, RanksAtLeastAsWell;
    var rankings := ByName(ranked);
    forall r ensures r in rankings <==> r in ranked && r.ids != [] { ByNameMembers(ranked, r); }
    var r :| r in ranked && RanksBetter(r, a, b);
    assert r.ids != [];
    assert r in rankings;
    hide RanksBetter;
    ScoreOrder(rankings, a, b);
  }

  /** The last ranking by name that lists the id and has the column decides its value. */
  lemma {:induction false} ValuesMeaning(rankings: seq<Ranking>, id: string, i: nat, j: nat, column: string)
    requires AllDistinct(rankings) && i < |rankings| && j < |rankings[i].rows|
    requires rankings[i].rows[j].recordId == id && column in rankings[i].rows[j].values
    requires forall r, row :: r in rankings[i + 1..] && row in r.rows && row.recordId == id ==> column !in row.values
    ensures column in ValuesOf(rankings, id) && ValuesOf(rankings, id)[column] == rankings[i].rows[j].values[column]
  {
    var init, last := rankings[..|rankings| - 1], rankings[|rankings| - 1];
    Membership(rankings);
    if i < |init| {
      assert last in rankings[i + 1..];
      assert init[i + 1..] == rankings[i + 1..][..|rankings| - i - 2];
      ValuesMeaning(init, id, i, j, column);
      ColumnIn(last.rows, |last.rows|, id, column);
    } else {
      OneRow(last, |last.rows|, id, j);
    }
  }

  lemma {:induction false} ColumnIn(rows: seq<ScoredRow>, n: nat, id: string, column: string)
    requires n <= |rows|
    ensures column in ValuesIn(rows, n, id) <==>
      exists row :: row in rows[..n] && row.recordId == id && column in row.values
  {
    if n > 0 {
      assert rows[..n] == rows[..n - 1] + [rows[n - 1]];
      ColumnIn(rows, n - 1, id, column);
    }
  }

  /** An id has exactly the columns of its rows. */
  lemma {:induction false} ColumnsOf(rankings: seq<Ranking>, id: string, column: string)
    ensures column in ValuesOf(rankings, id) <==>
      exists r, row :: r in rankings && row in r.rows && row.recordId == id && column in row.values
  {
    if rankings != [] {
      var last := rankings[|rankings| - 1];
      Membership(rankings);
      ColumnsOf(rankings[..|rankings| - 1], id, column);
      ColumnIn(last.rows, |last.rows|, id, column);
      assert last.rows[..|last.rows|] == last.rows;
    }
  }

  lemma {:induction false} OneRow(ranking: Ranking, n: nat, id: string, j: nat)
    requires n <= |ranking.rows| && Distinct(ranking.ids) && j < |ranking.rows| && ranking.rows[j].recordId == id
    ensures ValuesIn(ranking.rows, n, id) == if j < n then ranking.rows[j].values else map[]
  {
    if n > 0 {
      assert ranking.ids[j] == id && ranking.ids[n - 1] == ranking.rows[n - 1].recordId;
      OneRow(ranking, n - 1, id, j);
    }
  }

  // ----- A whole query -----

  datatype Mode = VectorMode | TextMode | Hybrid

  ghost predicate InTable(table: seq<Row>, idField: string, id: string) {
    exists row :: row in table && IdOf(row, idField) == id
  }

  /** The tables a mode consults. */
  function Consulted(mode: Mode, vector: seq<Row>, texts: seq<seq<Row>>): seq<seq<Row>> {
    match mode
    case VectorMode => [vector]
    case TextMode => texts
    case Hybrid => [vector] + texts
  }

  ghost predicate AllTablesNamed(tables: seq<seq<Row>>, idField: string) {
    forall table :: table in tables ==> AllNamed(table, idField)
  }

  /** The ids, each once, are those of the tables together. */
  ghost predicate Answers(ids: seq<string>, tables: seq<seq<Row>>, idField: string) {
    && Distinct(ids)
    && forall id :: id in ids <==> exists table :: table in tables && InTable(table, idField, id)
  }

  ghost predicate AnswersOne(ranking: Ranking, tables: seq<seq<Row>>, idField: string, k: nat)
    requires k < |tables|
  {
    Answers(ranking.ids, [tables[k]], idField)
  }

  /** The table's rows, each id's first, in the order of the table, scored by their rank. */
  ghost predicate IsSingle(rows: seq<ScoredRow>, table: seq<Row>, idField: string, name: string) {
    && RecordIds(rows) == Dedup(RawIds(table, idField))
    && forall i :: 0 <= i < |rows| ==> IsRanked(rows[i], i + 1, table, idField, name)
  }

  ghost predicate IsRanked(row: ScoredRow, rank: nat, table: seq<Row>, idField: string, name: string)
    requires rank > 0
  {
    && row.score == 1.0 / rank as real && row.ranks == map[name := rank]
    && IsFirst(RankedRow(row.recordId, row.values, row.raw), table, idField)
  }

  function FieldName(field: string): string { "text:" + field }

  /** One ranking for each text field. */
  ghost predicate ByField(rankings: seq<Ranking>, fields: seq<string>, texts: seq<seq<Row>>, idField: string) {
    && |rankings| == |fields| == |texts|
    && forall i :: 0 <= i < |fields| ==>
      rankings[i].name == FieldName(fields[i]) && IsSingle(rankings[i].rows, texts[i], idField, rankings[i].name)
  }

  /** A single field's ranking as it is, several fused. */
  ghost predicate IsText(rows: seq<ScoredRow>, fields: seq<string>, texts: seq<seq<Row>>, idField: string) {
    exists rankings :: ByField(rankings, fields, texts, idField) && JoinsFields(rows, rankings)
  }

  ghost predicate JoinsFields(rows: seq<ScoredRow>, rankings: seq<Ranking>) {
    if |rankings| == 1 then rows == rankings[0].rows else IsFusion(rows, rankings)
  }

  ghost predicate IsHybrid(rows: seq<ScoredRow>, vector: seq<Row>, fields: seq<string>, texts: seq<seq<Row>>, idField: string) {
    exists v, t :: IsSingle(v, vector, idField, "vector") && IsText(t, fields, texts, idField) && IsFusion(rows, BothRankings(v, t))
  }

  function BothRankings(vector: seq<ScoredRow>, text: seq<ScoredRow>): seq<Ranking> {
    [Ranking("vector", vector), Ranking("text", text)]
  }

  /** What a query returns, row by row. */
  ghost predicate IsResult(rows: seq<ScoredRow>, mode: Mode, vector: seq<Row>, fields: seq<string>, texts: seq<seq<Row>>, idField: string) {
    match mode
    case VectorMode => IsSingle(rows, vector, idField, "vector")
    case TextMode => IsText(rows, fields, texts, idField)
    case Hybrid => IsHybrid(rows, vector, fields, texts, idField)
  }

  lemma SingleScored(table: seq<Row>, idField: string, rows: seq<RankedRow>, name: string)
    requires Ids(rows) == Dedup(RawIds(table, idField)) && forall row :: row in rows ==> IsFirst(row, table, idField)
    ensures IsSingle(ScoreSingle(rows, name), table, idField, name)
  {
    hide IsFirst;
    var scored := ScoreSingle(rows, name);
    assert RecordIds(scored) == Ids(rows);
    forall i | 0 <= i < |scored|
      ensures IsRanked(scored[i], i + 1, table, idField, name)
    {
      assert rows[i] == RankedRow(scored[i].recordId, scored[i].values, scored[i].raw) && rows[i] in rows;
    }
  }

  lemma SingleRanking(table: seq<Row>, idField: string, rows: seq<RankedRow>, name: string)
    requires Ids(rows) == Dedup(RawIds(table, idField))
    ensures Answers(RecordIds(ScoreSingle(rows, name)), [table], idField)
  {
    assert RecordIds(ScoreSingle(rows, name)) == Ids(rows);
    var ids := RawIds(table, idField);
    forall id ensures id in ids <==> InTable(table, idField, id) {
      if id in ids {
        var i :| 0 <= i < |ids| && ids[i] == id;
        assert table[i] in table;
      }
      if row :| row in table && IdOf(row, idField) == id {
        var i :| 0 <= i < |table| && table[i] == row;
        assert ids[i] == id;
      }
    }
    assert table in [table];
  }

  /** Fusing what answers each table answers all of them. */
  lemma FusedAnswers(ranked: seq<Ranking>, tables: seq<seq<Row>>, idField: string, ids: seq<string>)
    requires |ranked| == |tables| && forall k :: 0 <= k < |ranked| ==> AnswersOne(ranked[k], tables, idField, k)
    requires Distinct(ids) && forall id :: id in ids <==> Listed(ranked, id)
    ensures Answers(ids, tables, idField)
  {
    hide InTable, Distinct;
    forall id ensures id in ids <==> exists table :: table in tables && InTable(table, idField, id) {
      if r :| r in ranked && id in r.ids {
        var k :| 0 <= k < |ranked| && ranked[k] == r;
        assert AnswersOne(ranked[k], tables, idField, k);
        assert tables[k] in tables;
      }
      if table :| table in tables && InTable(table, idField, id) {
        var k :| 0 <= k < |tables| && tables[k] == table;
        assert AnswersOne(ranked[k], tables, idField, k) && table in [tables[k]];
        assert ranked[k] in ranked;
      }
    }
  }

  lemma BothAnswer(vector: Ranking, text: Ranking, table: seq<Row>, texts: seq<seq<Row>>, idField: string, ids: seq<string>)
    requires Answers(vector.ids, [table], idField) && Answers(text.ids, texts, idField)
    requires Distinct(ids) && forall id :: id in ids <==> Listed([vector, text], id)
    ensures Answers(ids, [table] + texts, idField)
  {
    hide InTable, Distinct;
    forall id ensures Listed([vector, text], id) <==> id in vector.ids || id in text.ids {
      assert vector in [vector, text] && text in [vector, text];
    }
    assert table in [table];
  }

  lemma OneAnswer(ranking: Ranking, texts: seq<seq<Row>>, idField: string)
    requires |texts| == 1 && AnswersOne(ranking, texts, idField, 0)
    ensures Answers(ranking.ids, texts, idField)
  {
    assert texts == [texts[0]];
  }

  method RankText(idField: string, fields: seq<string>, texts: seq<seq<Row>>) returns (r: Result<seq<ScoredRow>>)
    requires |fields| == |texts| > 0 && Distinct(fields)
    ensures r.Ok? <==> AllTablesNamed(texts, idField)
    ensures r.Ok? ==> Answers(RecordIds(r.value), texts, idField)
    ensures r.Ok? ==> IsText(r.value, fields, texts, idField)
  {
    hide Answers, AllNamed, Distinct, Precedes, RightlyScored, IsFirst, IsSingle, Dedup;
    var byField: seq<Ranking> := [];
    for k := 0 to |fields|
      invariant |byField| == k
      invariant ByField(byField, fields[..k], texts[..k], idField)
      invariant forall i :: 0 <= i < k ==> AnswersOne(byField[i], texts, idField, i)
      invariant forall i :: 0 <= i < k ==> AllNamed(texts[i], idField)
    {
      var ranked := RankTable(texts[k], idField);
      if ranked.SearchError? {
        assert texts[k] in texts;
        return SearchError;
      }
      var name := FieldName(fields[k]);
      SingleRanking(texts[k], idField, ranked.value, name);
      SingleScored(texts[k], idField, ranked.value, name);
      byField := byField + [Ranking(name, ScoreSingle(ranked.value, name))];
    }
    assert fields[..|fields|] == fields && texts[..|texts|] == texts;
    if |byField| == 1 {
      OneAnswer(byField[0], texts, idField);
      assert JoinsFields(byField[0].rows, byField);
      return Ok(byField[0].rows);
    }
    var rows := Rrf(byField);
    assert JoinsFields(rows, byField);
    FusedAnswers(byField, texts, idField, RecordIds(rows));
    return Ok(rows);
  }

  method RankVector(idField: string, vector: seq<Row>) returns (r: Result<seq<ScoredRow>>)
    ensures r.Ok? <==> AllNamed(vector, idField)
    ensures r.Ok? ==> Answers(RecordIds(r.value), [vector], idField)
    ensures r.Ok? ==> IsSingle(r.value, vector, idField, "vector")
  {
    hide Answers, AllNamed, IsFirst, IsSingle, Dedup;
    var ranked := RankTable(vector, idField);
    if ranked.SearchError? {
      return SearchError;
    }
    SingleRanking(vector, idField, ranked.value, "vector");
    SingleScored(vector, idField, ranked.value, "vector");
    return Ok(ScoreSingle(ranked.value, "vector"));
  }

  /** A query over store results. It fails exactly when a consulted table has a row without a
      valid id; otherwise it returns every id of those tables once, scored and ordered as its mode
      says, so that NDCG measured on the result is a fraction of the ideal whatever the grades. */
  method ExecuteQuery(mode: Mode, idField: string, vector: seq<Row>, fields: seq<string>, texts: seq<seq<Row>>)
    returns (r: Result<seq<ScoredRow>>)
    requires mode != VectorMode ==> |fields| == |texts| > 0 && Distinct(fields)
    ensures r.Ok? <==> AllTablesNamed(Consulted(mode, vector, texts), idField)
    ensures r.Ok? ==> Answers(RecordIds(r.value), Consulted(mode, vector, texts), idField)
    ensures r.Ok? ==> IsResult(r.value, mode, vector, fields, texts, idField)
    ensures r.Ok? ==> forall k: nat, w: nat -> real :: Metrics.IsDiscount(w) ==> Metrics.Bounded(RecordIds(r.value), k, w)
  {
    hide Answers, AllNamed, Precedes, RightlyScored, IsSingle, IsText;
    var vectorRows: seq<ScoredRow> := [];
    var textRows: seq<ScoredRow> := [];
    if mode != TextMode {
      var ranked := RankVector(idField, vector);
      if ranked.SearchError? {
        return SearchError;
      }
      vectorRows := ranked.value;
    }
    if mode != VectorMode {
      var ranked := RankText(idField, fields, texts);
      if ranked.SearchError? {
        return SearchError;
      }
      textRows := ranked.value;
    }
    if mode == VectorMode {
      r := Ok(vectorRows);
    } else if mode == TextMode {
      r := Ok(textRows);
    } else {
      var both := BothRankings(vectorRows, textRows);
      var rows := Rrf(both);
      BothAnswer(both[0], both[1], vector, texts, idField, RecordIds(rows));
      r := Ok(rows);
    }
    AnswersAreBounded(RecordIds(r.value), Consulted(mode, vector, texts), idField);
  }

  lemma TextIsDistinct(rows: seq<ScoredRow>, fields: seq<string>, texts: seq<seq<Row>>, idField: string)
    requires IsText(rows, fields, texts, idField)
    ensures Distinct(RecordIds(rows))
  {
    hide Distinct, IsRanked, Precedes, RightlyScored;
    var rankings: seq<Ranking> :| ByField(rankings, fields, texts, idField) && JoinsFields(rows, rankings);
    if |rankings| == 1 {
      assert IsSingle(rankings[0].rows, texts[0], idField, rankings[0].name);
    }
  }

  /** In a fusion every score is in (0, 1], and 1 exactly for an id that heads every non-empty
      ranking; and an id ranked at least as well everywhere and better somewhere comes first. */
  lemma FusionMeaning(rows: seq<ScoredRow>, ranked: seq<Ranking>)
    requires IsFusion(rows, ranked) && AllDistinct(ranked)
    ensures forall row :: row in rows ==>
      && 0.0 < row.score <= 1.0
      && (row.score == 1.0 <==> forall r :: r in ranked && r.ids != [] ==> Rank(r.ids, row.recordId) == 1)
    ensures forall i, j :: 0 <= i < |rows| && 0 <= j < |rows| && Dominates(ranked, rows[i].recordId, rows[j].recordId) ==> i < j
  {
    hide Rank, Distinct, Score;
    forall row | row in rows
      ensures 0.0 < row.score <= 1.0
      ensures row.score == 1.0 <==> forall r :: r in ranked && r.ids != [] ==> Rank(r.ids, row.recordId) == 1
    {
      var i :| 0 <= i < |rows| && rows[i] == row;
      assert RecordIds(rows)[i] == row.recordId;
      FusedScoreRange(ranked, row.recordId);
      assert RightlyScored(row, ByName(ranked));
    }
    hide RightlyScored, Precedes, Listed;
    forall i, j | 0 <= i < |rows| && 0 <= j < |rows| && Dominates(ranked, rows[i].recordId, rows[j].recordId)
      ensures i < j
    {
      DominatorPrecedes(ranked, rows[i].recordId, rows[j].recordId);
    }
  }

  ghost predicate Dominates(ranked: seq<Ranking>, a: string, b: string) {
    && (forall r :: r in ranked ==> RanksAtLeastAsWell(r, a, b))
    && (exists r :: r in ranked && RanksBetter(r, a, b))
  }

  /** A hybrid result is a fusion of two rankings without repetitions, to which the above applies. */
  lemma HybridMeaning(rows: seq<ScoredRow>, vector: seq<Row>, fields: seq<string>, texts: seq<seq<Row>>, idField: string)
    returns (ranked: seq<Ranking>)
    requires IsHybrid(rows, vector, fields, texts, idField)
    ensures |ranked| == 2 && ranked[0].ids == Dedup(RawIds(vector, idField)) && IsText(ranked[1].rows, fields, texts, idField)
    ensures forall row :: row in rows ==>
      && 0.0 < row.score <= 1.0
      && (row.score == 1.0 <==> forall r :: r in ranked && r.ids != [] ==> Rank(r.ids, row.recordId) == 1)
    ensures forall i, j :: 0 <= i < |rows| && 0 <= j < |rows| && Dominates(ranked, rows[i].recordId, rows[j].recordId) ==> i < j
  {
    hide Rank, Dominates, IsFusion, IsRanked, Distinct, IsText;
    var v, t :| IsSingle(v, vector, idField, "vector") && IsText(t, fields, texts, idField) && IsFusion(rows, BothRankings(v, t));
    ranked := BothRankings(v, t);
    TextIsDistinct(t, fields, texts, idField);
    FusionMeaning(rows, ranked);
  }

  lemma AnswersAreBounded(ids: seq<string>, tables: seq<seq<Row>>, idField: string)
    requires Answers(ids, tables, idField)
    ensures forall k: nat, w: nat -> real :: Metrics.IsDiscount(w) ==> Metrics.Bounded(ids, k, w)
  {
    forall k: nat, w: nat -> real | Metrics.IsDiscount(w)
      ensures Metrics.Bounded(ids, k, w)
    {
      assert Distinct(Metrics.Top(ids, k));
      Metrics.NdcgBoundedIffDistinct(ids, k, w);
    }
  }

  // ----- The columns, written out -----

  function FirstOfThree(row: Row): Option<RawScore> {
    if IsNumber(row, "_distance") then Some(RawScore("distance", row["_distance"].value))
    else if IsNumber(row, "_score") then Some(RawScore("score", row["_score"].value))
    else if IsNumber(row, "_relevance_score") then Some(RawScore("relevance_score", row["_relevance_score"].value))
    else None
  }

  /** Distance before score before relevance score, named without the underscore. */
  lemma RawScoreIs(row: Row, raw: Option<RawScore>)
    ensures IsRawScore(raw, row) <==> raw == FirstOfThree(row)
  {
    assert SCORE_COLUMNS[0] == "_distance" && SCORE_COLUMNS[1] == "_score" && SCORE_COLUMNS[2] == "_relevance_score";
    assert "_distance"[1..] == "distance" && "_score"[1..] == "score" && "_relevance_score"[1..] == "relevance_score";
    assert "_distance" in SCORE_COLUMNS && "_score" in SCORE_COLUMNS && "_relevance_score" in SCORE_COLUMNS;
    assert forall name :: name in SCORE_COLUMNS <==> name == SCORE_COLUMNS[0] || name == SCORE_COLUMNS[1] || name == SCORE_COLUMNS[2];
  }

  lemma PayloadIs(row: Row, name: string)
    ensures name in Payload(row) <==> name in row && name != "_distance" && name != "_score" && name != "_relevance_score"
    ensures name in Payload(row) ==> Payload(row)[name] == row[name]
  {
    assert name in SCORE_COLUMNS <==> name == SCORE_COLUMNS[0] || name == SCORE_COLUMNS[1] || name == SCORE_COLUMNS[2];
  }
}
