/** The fused score with its numbers written out, and what it trades. */
module SearchLaws {
  import opened Sorting
  import opened Search

  // ----- The score of an id over the rankings as given -----

  /** `1 / (60 + rank)`, and nothing for an id that is not listed. */
  function PointsAt(rank: nat): real { if rank == 0 then 0.0 else 1.0 / (60 + rank) as real }

  /** From every ranking. */
  function Points(rankings: seq<Ranking>, id: string): real {
    if rankings == [] then 0.0 else PointsAt(Rank(rankings[0].ids, id)) + Points(rankings[1..], id)
  }

  lemma PointsCons(r: Ranking, rest: seq<Ranking>, id: string)
    ensures Points([r] + rest, id) == PointsAt(Rank(r.ids, id)) + Points(rest, id)
  {
    hide Rank, PointsAt;
    assert ([r] + rest)[1..] == rest;
  }

  lemma {:induction false} PointsAppend(a: seq<Ranking>, b: seq<Ranking>, id: string)
    ensures Points(a + b, id) == Points(a, id) + Points(b, id)
  {
    hide *;
    if a == [] {
      NoPoints(id);
      assert a + b == b;
    } else {
      var head, rest := a[0], a[1..];
      PointsAppend(rest, b, id);
      PointsCons(head, rest, id);
      PointsCons(head, rest + b, id);
      assert a == [head] + rest && a + b == [head] + (rest + b);
    }
  }

  lemma PointsOne(r: Ranking, id: string)
    ensures Points([r], id) == PointsAt(Rank(r.ids, id)) == ShareOf(Rank(r.ids, id))
  {
    hide Rank;
    assert [r][1..] == [];
    assert Points([], id) == 0.0;
  }

  lemma {:induction false} ScoreIsPoints(rankings: seq<Ranking>, id: string)
    requires AllDistinct(rankings)
    ensures Score(rankings, id) == Points(rankings, id)
  {
    if rankings != [] {
      var init, last := rankings[..|rankings| - 1], rankings[|rankings| - 1];
      Membership(rankings);
      ScoreIsPoints(init, id);
      ScoreSnoc(rankings, id);
      hide Score, Points, Rank, ShareOf;
      PointsAppend(init, [last], id);
      PointsOne(last, id);
      assert rankings == init + [last];
    }
  }

  lemma {:induction false} PointsInsert(r: Ranking, rankings: seq<Ranking>, le: (Ranking, Ranking) -> bool, id: string)
    ensures Points(Insert(r, rankings, le), id) == Points([r], id) + Points(rankings, id)
  {
    hide Rank;
    if rankings != [] && !le(r, rankings[0]) {
      var rest := Insert(r, rankings[1..], le);
      PointsInsert(r, rankings[1..], le, id);
      PointsAppend([rankings[0]], rest, id);
      PointsAppend([rankings[0]], rankings[1..], id);
      assert rankings == [rankings[0]] + rankings[1..];
    } else {
      PointsAppend([r], rankings, id);
      assert rankings == [] ==> [r] + rankings == [r];
    }
  }

  lemma {:induction false} PointsSort(rankings: seq<Ranking>, le: (Ranking, Ranking) -> bool, id: string)
    ensures Points(Sort(rankings, le), id) == Points(rankings, id)
  {
    if rankings != [] {
      PointsSort(rankings[1..], le, id);
      PointsInsert(rankings[0], Sort(rankings[1..], le), le, id);
      hide Points;
      PointsAppend([rankings[0]], rankings[1..], id);
      assert rankings == [rankings[0]] + rankings[1..];
    }
  }

  lemma {:induction false} PointsNonEmpty(rankings: seq<Ranking>, id: string)
    ensures Points(NonEmpty(rankings), id) == Points(rankings, id)
  {
    if rankings != [] {
      PointsNonEmpty(rankings[1..], id);
      PointsAppend([rankings[0]], NonEmpty(rankings[1..]), id);
      PointsOne(rankings[0], id);
      hide Rank;
      assert rankings[0].ids == [] ==> [] + NonEmpty(rankings[1..]) == NonEmpty(rankings[1..]);
    }
  }

  lemma PointsByName(ranked: seq<Ranking>, id: string)
    ensures Points(ByName(ranked), id) == Points(ranked, id)
  {
    hide Points;
    PointsSort(NonEmpty(ranked), (a: Ranking, b: Ranking) => StrLe(a.name, b.name), id);
    PointsNonEmpty(ranked, id);
  }

  function Filled(ranked: seq<Ranking>): nat {
    if ranked == [] then 0 else (if ranked[0].ids != [] then 1 else 0) + Filled(ranked[1..])
  }

  lemma {:induction false} FilledIs(ranked: seq<Ranking>)
    ensures |NonEmpty(ranked)| == Filled(ranked)
  {
    if ranked != [] {
      FilledIs(ranked[1..]);
    }
  }

  lemma ByNameCount(ranked: seq<Ranking>)
    ensures |ByName(ranked)| == Filled(ranked)
  {
    FilledIs(ranked);
    assert |multiset(ByName(ranked))| == |multiset(NonEmpty(ranked))|;
  }

  lemma ByNameDistinct(ranked: seq<Ranking>)
    requires AllDistinct(ranked)
    ensures AllDistinct(ByName(ranked))
  {
    forall r | r in ByName(ranked)
      ensures Distinct(r.ids)
    {
      ByNameMembers(ranked, r);
    }
  }

  lemma FusedPoints(ranked: seq<Ranking>, id: string)
    requires AllDistinct(ranked)
    ensures Score(ByName(ranked), id) == Points(ranked, id)
  {
    ByNameDistinct(ranked);
    ScoreIsPoints(ByName(ranked), id);
    PointsByName(ranked, id);
  }

  /** The score of every row: its points, relative to the `n / 61` of an id that heads all `n`
      rankings that list anything. */
  lemma FusedScoreIs(rows: seq<ScoredRow>, ranked: seq<Ranking>)
    requires IsFusion(rows, ranked) && AllDistinct(ranked)
    ensures forall row :: row in rows ==> Filled(ranked) > 0 && row.score * (Filled(ranked) as real / 61.0) == Points(ranked, row.recordId)
  {
    hide Points, Score, RanksOf, ValuesOf, ByName, Filled;
    ByNameCount(ranked);
    forall row | row in rows
      ensures Filled(ranked) > 0 && row.score * (Filled(ranked) as real / 61.0) == Points(ranked, row.recordId)
    {
      assert RightlyScored(row, ByName(ranked));
      FusedPoints(ranked, row.recordId);
      Relative(row.score, Points(ranked, row.recordId), Filled(ranked));
    }
  }

  lemma Relative(score: real, points: real, n: nat)
    requires n > 0 && Maximum(n) != 0.0 && score == points / Maximum(n)
    ensures score * (n as real / 61.0) == points
  {
  }

  // ----- The trade-off -----

  /** The rankings that list the id, and the rank they give it. */
  ghost predicate ListedAt(ranked: seq<Ranking>, id: string, places: set<nat>, rank: nat) {
    && (forall i :: i in places ==> i < |ranked| && Rank(ranked[i].ids, id) == rank)
    && (forall i :: 0 <= i < |ranked| && i !in places ==> id !in ranked[i].ids)
  }

  /** `n` places at one rank. */
  function Worth(n: nat, rank: nat): real { n as real * PointsAt(rank) }

  lemma WorthStep(n: nat, rank: nat)
    ensures Worth(0, rank) == 0.0 && Worth(n + 1, rank) == Worth(n, rank) + PointsAt(rank)
  {
  }

  lemma {:induction false} PointsOfPlaces(ranked: seq<Ranking>, id: string, places: set<nat>, rank: nat)
    requires rank > 0 && ListedAt(ranked, id, places, rank)
    ensures Points(ranked, id) == Worth(|places|, rank)
    decreases |ranked|
  {
    if ranked == [] {
      NoPlaces(ranked, id, places, rank);
      NoPoints(id);
      WorthStep(0, rank);
    } else {
      hide *;
      var n := |ranked| - 1;
      var before := WithoutLast(ranked, id, places, rank);
      PointsOfPlaces(ranked[..n], id, before, rank);
      PointsAppend(ranked[..n], [ranked[n]], id);
      assert ranked == ranked[..n] + [ranked[n]];
      WorthStep(|before|, rank);
    }
  }

  lemma NoPlaces(ranked: seq<Ranking>, id: string, places: set<nat>, rank: nat)
    requires ranked == [] && ListedAt(ranked, id, places, rank)
    ensures places == {}
  {
    assert forall i :: i in places ==> i < |ranked|;
  }

  lemma WithoutLast(ranked: seq<Ranking>, id: string, places: set<nat>, rank: nat) returns (before: set<nat>)
    requires ranked != [] && rank > 0 && ListedAt(ranked, id, places, rank)
    ensures ListedAt(ranked[..|ranked| - 1], id, before, rank)
    ensures var last := Points([ranked[|ranked| - 1]], id);
      (|places| == |before| && last == 0.0) || (|places| == |before| + 1 && last == PointsAt(rank))
  {
    var n := |ranked| - 1;
    before := places - {n};
    PointsOne(ranked[n], id);
    LastPlace(ranked, id, places, rank);
    hide *;
    CountWithout(places, n);
  }

  lemma CountWithout(places: set<nat>, n: nat)
    ensures |places| == |places - {n}| + if n in places then 1 else 0
  {
    assert places == places - {n} + if n in places then {n} else {};
  }

  lemma LastPlace(ranked: seq<Ranking>, id: string, places: set<nat>, rank: nat)
    requires ranked != [] && rank > 0 && ListedAt(ranked, id, places, rank)
    ensures var n := |ranked| - 1;
      && ListedAt(ranked[..n], id, places - {n}, rank)
      && PointsAt(Rank(ranked[n].ids, id)) == if n in places then PointsAt(rank) else 0.0
  {
    hide Rank;
    var n := |ranked| - 1;
    forall i | i in places - {n}
      ensures i < n && ranked[..n][i] == ranked[i]
    {
      assert i < |ranked|;
    }
  }

  lemma NoPoints(id: string)
    ensures Points([], id) == 0.0
  {
  }

  /** Two places at rank `r` are worth more than one first place exactly when `r < 62`. */
  lemma TwoAgainstOne(r: nat)
    requires r > 0
    ensures Worth(2, r) > Worth(1, 1) <==> r < 62
    ensures Worth(2, r) == Worth(1, 1) <==> r == 62
  {
    var d := (60 + r) as real;
    var share := 1.0 / d;
    assert share * d == 1.0;
    if r < 62 {
      assert share * 122.0 > share * d;
    } else if r > 62 {
      assert share * 122.0 < share * d;
    }
  }

  /** An id at rank `r` in two rankings and in no other against one that heads a single ranking and
      is in no other: the first comes first exactly when `r < 62`; at 62 they tie and the smaller id
      comes first. */
  lemma Tradeoff(rows: seq<ScoredRow>, ranked: seq<Ranking>, i: nat, j: nat, two: set<nat>, one: set<nat>, r: nat)
    requires IsFusion(rows, ranked) && AllDistinct(ranked) && i < |rows| && j < |rows| && i != j
    requires |two| == 2 && |one| == 1 && r > 0
    requires ListedAt(ranked, rows[i].recordId, two, r) && ListedAt(ranked, rows[j].recordId, one, 1)
    ensures i < j <==> r < 62 || (r == 62 && StrLt(rows[i].recordId, rows[j].recordId))
  {
    OrderOfRows(rows, ranked, i, j);
    hide *;
    PointsOfPlaces(ranked, rows[i].recordId, two, r);
    PointsOfPlaces(ranked, rows[j].recordId, one, 1);
    TwoAgainstOne(r);
  }

  /** Rows are ordered by their points, equal ones by their ids. */
  lemma OrderOfRows(rows: seq<ScoredRow>, ranked: seq<Ranking>, i: nat, j: nat)
    requires IsFusion(rows, ranked) && AllDistinct(ranked) && i < |rows| && j < |rows| && i != j
    ensures var a, b := rows[i].recordId, rows[j].recordId;
      i < j <==> Points(ranked, a) > Points(ranked, b) || (Points(ranked, a) == Points(ranked, b) && StrLt(a, b))
  {
    var a, b := rows[i].recordId, rows[j].recordId;
    DifferentIds(rows, i, j);
    StrLeTotal(a, b);
    FusedPoints(ranked, a);
    FusedPoints(ranked, b);
    hide Points, Score, ByName, Distinct, StrLe, RightlyScored;
    assert i < j ==> Precedes(ByName(ranked), a, b);
    assert j < i ==> Precedes(ByName(ranked), b, a);
  }

  lemma DifferentIds(rows: seq<ScoredRow>, i: nat, j: nat)
    requires Distinct(RecordIds(rows)) && i < |rows| && j < |rows| && i != j
    ensures rows[i].recordId != rows[j].recordId
  {
    assert RecordIds(rows)[i] == rows[i].recordId && RecordIds(rows)[j] == rows[j].recordId;
  }

  // ----- Single rankings -----

  /** A usable id is a non-empty text in the id column. */
  lemma NamedIff(table: seq<Row>, idField: string)
    ensures AllNamed(table, idField) <==>
      forall i :: 0 <= i < |table| ==> idField in table[i] && table[i][idField].Text? && table[i][idField].text != ""
  {
    assert forall i :: 0 <= i < |table| ==> table[i] in table;
    assert forall row :: row in table ==> exists i :: 0 <= i < |table| && table[i] == row;
  }

  /** The place of a row is its rank, and its score one over it. */
  lemma SingleRows(rows: seq<ScoredRow>, table: seq<Row>, idField: string, name: string, i: nat)
    requires IsSingle(rows, table, idField, name) && i < |rows|
    ensures rows[i].score * (i + 1) as real == 1.0 && rows[i].ranks == map[name := i + 1]
    ensures exists j :: 0 <= j < |table| && rows[i].recordId == IdOf(table[j], idField) && rows[i].values == Payload(table[j])
  {
    assert IsRanked(rows[i], i + 1, table, idField, name);
    assert rows[i].score == 1.0 / (i + 1) as real && rows[i].ranks == map[name := i + 1];
    hide *;
    Reciprocal(i + 1);
    FirstHas(RankedRow(rows[i].recordId, rows[i].values, rows[i].raw), table, idField);
  }

  lemma Reciprocal(n: nat)
    requires n > 0
    ensures 1.0 / n as real * n as real == 1.0
  {
  }

  lemma FirstHas(row: RankedRow, table: seq<Row>, idField: string)
    requires IsFirst(row, table, idField)
    ensures exists j :: 0 <= j < |table| && row.recordId == IdOf(table[j], idField) && row.values == Payload(table[j])
  {
    hide Payload, IsRawScore, IdOf;
  }

  /** A text ranking stands under `text:` and its field. */
  lemma FieldRankings(rankings: seq<Ranking>, fields: seq<string>, texts: seq<seq<Row>>, idField: string, i: nat)
    requires ByField(rankings, fields, texts, idField) && i < |fields|
    ensures |rankings| == |fields| && rankings[i].name == "text:" + fields[i]
    ensures rankings[i].ids == Dedup(RawIds(texts[i], idField))
  {
  }
}
