/** What the ranking metrics measure, said of the grades and ids themselves. */
module MetricLaws {
  import opened Sorting
  import opened Metrics

  // ----- Cutting at k -----

  /** `ids[:k]`: the first `k`, or for a negative `k` all but the last ones. */
  lemma TopIs<T>(ids: seq<T>, k: int)
    ensures Top(ids, k) == ids[..|Top(ids, k)|]
    ensures k >= 0 ==> |Top(ids, k)| == if k <= |ids| then k else |ids|
    ensures k < 0 ==> |Top(ids, k)| == if |ids| + k >= 0 then |ids| + k else 0
  {
  }

  // ----- A grade counts with its value -----

  /** What the judgment says of an id: its grade, and 0 for an id it does not know. */
  function GradeIn(grade: map<string, real>, id: string): real { if id in grade then grade[id] else 0.0 }

  /** One judged id alone gains its grade times the first discount, any other nothing. */
  lemma SingleGain(grades: Grades, id: string, w: nat -> real)
    ensures Dcg([], grades, w) == 0.0
    ensures id in grades.grade ==> Dcg([id], grades, w) == grades.grade[id] * w(0)
    ensures id !in grades.grade ==> Dcg([id], grades, w) == 0.0
  {
    assert [id][..0] == [];
    assert Dcg([id], grades, w) == Dcg([], grades, w) + grades.Get(id) * w(0);
  }

  /** The gain of one place. */
  function PlaceGain(grades: Grades, id: string, i: nat, w: nat -> real): real { Scale(w(i), GradeIn(grades.grade, id)) }

  function Places(ids: seq<string>, grades: Grades, w: nat -> real): real {
    if ids == [] then 0.0
    else Places(ids[..|ids| - 1], grades, w) + PlaceGain(grades, ids[|ids| - 1], |ids| - 1, w)
  }

  lemma {:induction false} DcgIsPlaces(ids: seq<string>, grades: Grades, w: nat -> real)
    ensures Dcg(ids, grades, w) == Places(ids, grades, w)
  {
    if ids != [] {
      DcgIsPlaces(ids[..|ids| - 1], grades, w);
      assert grades.Get(ids[|ids| - 1]) == GradeIn(grades.grade, ids[|ids| - 1]);
    }
  }

  /** Putting another id in a place changes DCG by what that place gains. */
  lemma {:induction false} PlaceUpdate(ids: seq<string>, i: nat, id: string, grades: Grades, w: nat -> real)
    requires i < |ids|
    ensures Places(ids[i := id], grades, w) - Places(ids, grades, w) == PlaceGain(grades, id, i, w) - PlaceGain(grades, ids[i], i, w)
    decreases |ids|
  {
    hide PlaceGain;
    var n := |ids| - 1;
    var more := ids[i := id];
    if i < n {
      assert more[..n] == ids[..n][i := id] && more[n] == ids[n];
      PlaceUpdate(ids[..n], i, id, grades, w);
    } else {
      assert more[..n] == ids[..n];
    }
  }

  lemma Difference(x: real, y: real, v: real, u: real)
    ensures Scale(v, y) - Scale(v, x) + (Scale(u, x) - Scale(u, y)) == Scale(y - x, v - u)
    ensures Scale(v, y) - Scale(v, x) == Scale(y - x, v)
  {
  }

  function Exchanged(ids: seq<string>, i: nat, j: nat): seq<string>
    requires i < |ids| && j < |ids|
  {
    ids[i := ids[j]][j := ids[i]]
  }

  /** Exchanging two ids changes DCG by the difference of their grades times the difference of
      their discounts. */
  lemma ExchangeGain(ids: seq<string>, i: nat, j: nat, grades: Grades, w: nat -> real)
    requires i < j < |ids|
    ensures Dcg(Exchanged(ids, i, j), grades, w) - Dcg(ids, grades, w)
         == (GradeIn(grades.grade, ids[j]) - GradeIn(grades.grade, ids[i])) * (w(i) - w(j))
  {
    ExchangeScaled(ids, i, j, grades, w);
  }

  lemma ExchangeScaled(ids: seq<string>, i: nat, j: nat, grades: Grades, w: nat -> real)
    requires i < j < |ids|
    ensures Dcg(Exchanged(ids, i, j), grades, w) - Dcg(ids, grades, w)
         == Scale(GradeIn(grades.grade, ids[j]) - GradeIn(grades.grade, ids[i]), w(i) - w(j))
  {
    hide Places, GradeIn, Scale, Dcg;
    ExchangePlaces(ids, i, j, grades, w);
    DcgIsPlaces(ids, grades, w);
    DcgIsPlaces(Exchanged(ids, i, j), grades, w);
    Difference(GradeIn(grades.grade, ids[i]), GradeIn(grades.grade, ids[j]), w(i), w(j));
  }

  lemma ExchangePlaces(ids: seq<string>, i: nat, j: nat, grades: Grades, w: nat -> real)
    requires i < j < |ids|
    ensures var x, y := GradeIn(grades.grade, ids[i]), GradeIn(grades.grade, ids[j]);
      Places(Exchanged(ids, i, j), grades, w) - Places(ids, grades, w)
        == Scale(w(i), y) - Scale(w(i), x) + (Scale(w(j), x) - Scale(w(j), y))
  {
    hide Places, GradeIn, Scale;
    var once := ids[i := ids[j]];
    PlaceUpdate(ids, i, ids[j], grades, w);
    PlaceUpdate(once, j, ids[i], grades, w);
  }

  // ----- Exactly when a ranking is perfect -----

  ghost predicate Falls(w: nat -> real) { IsDiscount(w) && forall i: nat, j: nat :: i < j ==> w(i) > w(j) }

  /** No exchange of two ids helps, no other judged id would gain more in any place, and where the
      list is short no judged id of positive grade is missing. */
  ghost predicate NothingHelps(top: seq<string>, k: nat, grade: map<string, real>) {
    && (forall i, j :: 0 <= i < j < |top| ==> GradeIn(grade, top[i]) >= GradeIn(grade, top[j]))
    && (forall id, i :: id in grade && id !in top && 0 <= i < |top| ==> GradeIn(grade, top[i]) >= GradeIn(grade, id))
    && (|top| < k ==> forall id :: id in grade && id !in top ==> GradeIn(grade, id) <= 0.0)
  }

  lemma ScalePositive(a: real, b: real)
    requires a > 0.0 && b > 0.0
    ensures Scale(a, b) > 0.0
  {
  }

  lemma FallsAt(w: nat -> real, i: nat, j: nat)
    requires Falls(w) && i < j
    ensures w(i) > w(j) > 0.0
  {
  }

  lemma TopOfShort(ids: seq<string>, k: nat)
    requires |ids| <= k
    ensures Top(ids, k) == ids
  {
  }

  lemma ExchangeStaysDistinct(ids: seq<string>, i: nat, j: nat)
    requires i < j < |ids| && Distinct(ids)
    ensures Distinct(Exchanged(ids, i, j)) && |Exchanged(ids, i, j)| == |ids|
  {
  }

  lemma ExchangeImproves(top: seq<string>, i: nat, j: nat, grades: Grades, w: nat -> real)
    requires Falls(w) && i < j < |top| && GradeIn(grades.grade, top[i]) < GradeIn(grades.grade, top[j])
    ensures Dcg(top, grades, w) < Dcg(Exchanged(top, i, j), grades, w)
  {
    FallsAt(w, i, j);
    hide *;
    ExchangeScaled(top, i, j, grades, w);
    ScalePositive(GradeIn(grades.grade, top[j]) - GradeIn(grades.grade, top[i]), w(i) - w(j));
  }

  /** No distinct ids do better than the ideal order. */
  lemma NoneBetter(top: seq<string>, better: seq<string>, k: nat, grades: Grades, w: nat -> real)
    requires grades.Valid() && Falls(w) && Distinct(better) && |better| <= k
    requires Dcg(top, grades, w) < Dcg(better, grades, w)
    ensures Dcg(top, grades, w) < Dcg(Top(grades.Ideal(), k), grades, w)
  {
    FallingIsDiscount(w);
    TopOfShort(better, k);
    hide *;
    DcgAtMostIdeal(better, grades, k, w);
  }

  /** A ranking that an exchange would improve is not the best there is. */
  lemma ExchangeHelps(top: seq<string>, i: nat, j: nat, k: nat, grades: Grades, w: nat -> real)
    requires grades.Valid() && Falls(w) && Distinct(top) && |top| <= k && i < j < |top|
    requires GradeIn(grades.grade, top[i]) < GradeIn(grades.grade, top[j])
    ensures Dcg(top, grades, w) < Dcg(Top(grades.Ideal(), k), grades, w)
  {
    hide *;
    ExchangeStaysDistinct(top, i, j);
    ExchangeImproves(top, i, j, grades, w);
    NoneBetter(top, Exchanged(top, i, j), k, grades, w);
  }

  lemma FallingIsDiscount(w: nat -> real)
    requires Falls(w)
    ensures IsDiscount(w)
  {
  }

  lemma ReplacedGain(top: seq<string>, i: nat, id: string, grades: Grades, w: nat -> real)
    requires i < |top|
    ensures Dcg(top[i := id], grades, w) - Dcg(top, grades, w)
         == Scale(GradeIn(grades.grade, id) - GradeIn(grades.grade, top[i]), w(i))
  {
    hide Places, GradeIn, Scale, Dcg;
    PlaceUpdate(top, i, id, grades, w);
    DcgIsPlaces(top, grades, w);
    DcgIsPlaces(top[i := id], grades, w);
    Difference(GradeIn(grades.grade, top[i]), GradeIn(grades.grade, id), w(i), 0.0);
  }

  lemma ReplaceHelps(top: seq<string>, i: nat, id: string, k: nat, grades: Grades, w: nat -> real)
    requires grades.Valid() && Falls(w) && Distinct(top) && |top| <= k && i < |top| && id !in top
    requires GradeIn(grades.grade, top[i]) < GradeIn(grades.grade, id)
    ensures Dcg(top, grades, w) < Dcg(Top(grades.Ideal(), k), grades, w)
  {
    assert Distinct(top[i := id]);
    hide *;
    ReplaceImproves(top, i, id, grades, w);
    NoneBetter(top, top[i := id], k, grades, w);
  }

  lemma ReplaceImproves(top: seq<string>, i: nat, id: string, grades: Grades, w: nat -> real)
    requires Falls(w) && i < |top| && GradeIn(grades.grade, top[i]) < GradeIn(grades.grade, id)
    ensures Dcg(top, grades, w) < Dcg(top[i := id], grades, w)
  {
    FallsAt(w, i, i + 1);
    hide *;
    ReplacedGain(top, i, id, grades, w);
    ScalePositive(GradeIn(grades.grade, id) - GradeIn(grades.grade, top[i]), w(i));
  }

  lemma AppendedGain(top: seq<string>, id: string, grades: Grades, w: nat -> real)
    ensures Dcg(top + [id], grades, w) == Dcg(top, grades, w) + Scale(GradeIn(grades.grade, id), w(|top|))
  {
    hide GradeIn, Scale, Dcg;
    var more := top + [id];
    assert more[..|more| - 1] == top && more[|more| - 1] == id;
    assert Places(more, grades, w) == Places(top, grades, w) + PlaceGain(grades, id, |top|, w);
    DcgIsPlaces(top, grades, w);
    DcgIsPlaces(top + [id], grades, w);
    Difference(0.0, GradeIn(grades.grade, id), w(|top|), 0.0);
    ScaleOfNothing(w(|top|));
  }

  lemma ScaleOfNothing(v: real)
    ensures Scale(v, 0.0) == 0.0
  {
  }

  lemma AppendHelps(top: seq<string>, id: string, k: nat, grades: Grades, w: nat -> real)
    requires grades.Valid() && Falls(w) && Distinct(top) && |top| < k && id !in top && GradeIn(grades.grade, id) > 0.0
    ensures Dcg(top, grades, w) < Dcg(Top(grades.Ideal(), k), grades, w)
  {
    DistinctSnoc(top, id);
    hide *;
    AppendImproves(top, id, grades, w);
    NoneBetter(top, top + [id], k, grades, w);
  }

  lemma AppendImproves(top: seq<string>, id: string, grades: Grades, w: nat -> real)
    requires Falls(w) && GradeIn(grades.grade, id) > 0.0
    ensures Dcg(top, grades, w) < Dcg(top + [id], grades, w)
  {
    FallsAt(w, |top|, |top| + 1);
    hide *;
    AppendedGain(top, id, grades, w);
    ScalePositive(GradeIn(grades.grade, id), w(|top|));
  }

  /** The judged ids that are not in `top`, by descending grade. */
  function Others(top: seq<string>, ideal: seq<string>): seq<string> {
    if ideal == [] then []
    else (if ideal[0] in top then [] else [ideal[0]]) + Others(top, ideal[1..])
  }

  lemma {:induction false} OthersHold(top: seq<string>, ideal: seq<string>, grades: Grades)
    requires Descending(ideal, grades)
    ensures forall id :: id in Others(top, ideal) <==> id in ideal && id !in top
    ensures Descending(Others(top, ideal), grades)
  {
    if ideal != [] {
      var rest := ideal[1..];
      assert ideal == [ideal[0]] + rest;
      assert Descending(rest, grades) by {
        forall i, j | 0 <= i < j < |rest| ensures grades.Get(rest[i]) >= grades.Get(rest[j]) {
          assert rest[i] == ideal[i + 1] && rest[j] == ideal[j + 1];
        }
      }
      OthersHold(top, rest, grades);
      forall id | id in Others(top, rest)
        ensures grades.Get(ideal[0]) >= grades.Get(id)
      {
        var i :| 0 <= i < |rest| && rest[i] == id;
        assert ideal[i + 1] == id;
      }
    }
  }

  /** The ranking with the other judged ids behind it is a descending list of all judged ids. */
  lemma ExtendedDescends(top: seq<string>, k: nat, grades: Grades)
    requires grades.Valid() && NothingHelps(top, k, grades.grade)
    ensures Descending(top + Others(top, grades.Ideal()), grades)
    ensures forall id :: id in grades.Ideal() ==> id in top + Others(top, grades.Ideal())
  {
    IdealOrder(grades);
    OthersHold(top, grades.Ideal(), grades);
    hide Others, Grades.Ideal, Distinct;
    var others := Others(top, grades.Ideal());
    var all := top + others;
    forall i, j | 0 <= i < j < |all|
      ensures grades.Get(all[i]) >= grades.Get(all[j])
    {
      GetIs(grades, all[i]);
      GetIs(grades, all[j]);
      if i < |top| <= j {
        assert all[j] == others[j - |top|] && others[j - |top|] in others;
        assert GradeIn(grades.grade, top[i]) >= GradeIn(grades.grade, all[j]);
      } else if i >= |top| {
        assert all[j] == others[j - |top|] && all[i] == others[i - |top|];
      } else {
        assert GradeIn(grades.grade, top[i]) >= GradeIn(grades.grade, top[j]);
      }
    }
  }

  lemma GetIs(grades: Grades, id: string)
    ensures grades.Get(id) == GradeIn(grades.grade, id)
  {
  }

  lemma {:induction false} NothingGained(ids: seq<string>, grades: Grades)
    requires forall id :: id in ids ==> grades.Get(id) <= 0.0
    ensures Gain(ids, grades) <= 0.0
  {
    if ids != [] {
      assert ids == ids[..|ids| - 1] + [ids[|ids| - 1]];
      NothingGained(ids[..|ids| - 1], grades);
    }
  }

  lemma HeadsGainAsMuch(top: seq<string>, k: nat, grades: Grades, m: nat)
    requires grades.Valid() && |top| <= k && m <= k && NothingHelps(top, k, grades.grade)
    ensures HeadGain(grades.Ideal(), m, grades) <= HeadGain(top, m, grades)
  {
    var ideal := grades.Ideal();
    var others := Others(top, ideal);
    var n := Min(m, |ideal|);
    ExtendedDescends(top, k, grades);
    IdealOrder(grades);
    DistinctHead(ideal, n);
    assert forall id :: id in ideal[..n] ==> id in ideal;
    ExtendedGain(top, others, k, grades, n) by { OthersHold(top, ideal, grades); }
    hide Gain, Others, Grades.Ideal, Distinct, Descending, NothingHelps;
    BestHead(ideal[..n], top + others, grades);
    assert |ideal[..n]| == n;
    if n <= |top| {
      GainGrows(top, n, Min(m, |top|), grades);
    } else {
      assert Min(m, |top|) == |top| && top[..|top|] == top;
    }
  }

  /** What lies behind a short ranking gains nothing. */
  lemma ExtendedGain(top: seq<string>, others: seq<string>, k: nat, grades: Grades, n: nat)
    requires grades.Valid() && NothingHelps(top, k, grades.grade) && n <= k
    requires forall id :: id in others ==> id in grades.Ideal() && id !in top
    ensures n <= |top + others| ==> Gain((top + others)[..n], grades) <= if n <= |top| then Gain(top[..n], grades) else Gain(top, grades)
  {
    var all := top + others;
    IdealOrder(grades);
    if n <= |top| {
      assert all[..n] == top[..n];
    } else if n <= |all| {
      var more := others[..n - |top|];
      assert all[..n] == top + more;
      GainConcat(top, more, grades);
      forall id | id in more
        ensures grades.Get(id) <= 0.0
      {
        assert id in others;
        GetIs(grades, id);
      }
      NothingGained(more, grades);
    }
  }

  lemma HeadIsTop(ids: seq<string>, k: nat, grades: Grades, w: nat -> real)
    ensures HeadDcg(ids, k, grades, w) == Dcg(Top(ids, k), grades, w)
  {
    assert ids[..Min(k, |ids|)] == Top(ids, k);
  }

  lemma PerfectDcg(top: seq<string>, k: nat, grades: Grades, w: nat -> real)
    requires grades.Valid() && IsDiscount(w) && |top| <= k && NothingHelps(top, k, grades.grade)
    ensures Dcg(Top(grades.Ideal(), k), grades, w) <= Dcg(top, grades, w)
  {
    hide HeadGain, HeadDcg, Dcg, NothingHelps, Gain, Scale, Top, Grades.Ideal;
    var ideal := grades.Ideal();
    HeadIsTop(ideal, k, grades, w);
    HeadIsTop(top, k, grades, w);
    TopOfShort(top, k);
    forall m: nat | m <= k
      ensures HeadGain(ideal, m, grades) <= HeadGain(top, m, grades)
    {
      HeadsGainAsMuch(top, k, grades, m);
    }
    DiscountKeepsOrder(ideal, top, k, grades, w);
    ScaleNonNegative(w(k), HeadGain(top, k, grades) - HeadGain(ideal, k, grades));
  }

  /** Under a falling discount NDCG@k of distinct ids is 1 exactly when nothing would help. */
  lemma PerfectIff(ranked: seq<string>, k: nat, grades: Grades, w: nat -> real)
    requires grades.Valid() && Falls(w) && Distinct(Top(ranked, k)) && Dcg(Top(grades.Ideal(), k), grades, w) > 0.0
    ensures Dcg(Top(ranked, k), grades, w) / Dcg(Top(grades.Ideal(), k), grades, w) == 1.0
       <==> NothingHelps(Top(ranked, k), k, grades.grade)
  {
    var top := Top(ranked, k);
    TopIs(ranked, k);
    DcgAtMostIdeal(ranked, grades, k, w);
    RatioIsOne(Dcg(top, grades, w), Dcg(Top(grades.Ideal(), k), grades, w));
    hide Dcg, Distinct, GradeIn, Top;
    if NothingHelps(top, k, grades.grade) {
      PerfectDcg(top, k, grades, w);
    } else if i, j :| 0 <= i < j < |top| && GradeIn(grades.grade, top[i]) < GradeIn(grades.grade, top[j]) {
      ExchangeHelps(top, i, j, k, grades, w);
    } else if id, i :| id in grades.grade && id !in top && 0 <= i < |top| && GradeIn(grades.grade, top[i]) < GradeIn(grades.grade, id) {
      ReplaceHelps(top, i, id, k, grades, w);
    } else {
      var id :| id in grades.grade && id !in top && GradeIn(grades.grade, id) > 0.0;
      AppendHelps(top, id, k, grades, w);
    }
  }

  lemma RatioIsOne(a: real, b: real)
    requires b > 0.0
    ensures a / b == 1.0 <==> a == b
  {
    assert a / b * b == a;
  }

  // ----- The counts behind recall and precision -----

  lemma FoundSnoc(init: seq<string>, last: string, relevant: Listing)
    requires last !in init
    ensures |set id | id in init + [last] && id in relevant| == |set id | id in init && id in relevant| + if last in relevant then 1 else 0
  {
    var before := set id | id in init && id in relevant;
    assert (set id | id in init + [last] && id in relevant) == before + if last in relevant then {last} else {};
  }

  lemma HitsSnoc(init: seq<string>, last: string, relevant: Listing)
    ensures Hits([], relevant) == 0 && Hits(init + [last], relevant) == Hits(init, relevant) + if last in relevant then 1 else 0
  {
    assert (init + [last])[..|init|] == init;
  }

  lemma {:induction false} HitsOfDistinct(ids: seq<string>, relevant: Listing)
    requires Distinct(ids)
    ensures Hits(ids, relevant) == |set id | id in ids && id in relevant|
  {
    hide *;
    if ids == [] {
      HitsSnoc([], "", relevant);
      assert (set id | id in ids && id in relevant) == {};
    } else {
      var init, last := ids[..|ids| - 1], ids[|ids| - 1];
      assert ids == init + [last];
      DistinctSnoc(init, last);
      HitsOfDistinct(init, relevant);
      HitsSnoc(init, last, relevant);
      FoundSnoc(init, last, relevant);
    }
  }

  lemma PlacesSnoc(init: seq<string>, last: string, relevant: Listing)
    ensures var top := init + [last];
      |set i | 0 <= i < |top| && top[i] in relevant|
      == |set i | 0 <= i < |init| && init[i] in relevant| + if last in relevant then 1 else 0
  {
    var top, before := init + [last], set i | 0 <= i < |init| && init[i] in relevant;
    assert (set i | 0 <= i < |top| && top[i] in relevant) == before + if last in relevant then {|init|} else {};
  }

  lemma NoPlaces(top: seq<string>, relevant: Listing)
    requires |top| == 0
    ensures |set i | 0 <= i < |top| && top[i] in relevant| == 0
  {
  }

  lemma {:induction false} HitsArePlaces(top: seq<string>, relevant: Listing)
    ensures Hits(top, relevant) == |set i | 0 <= i < |top| && top[i] in relevant|
  {
    hide *;
    if top == [] {
      HitsSnoc([], "", relevant);
      NoPlaces(top, relevant);
    } else {
      var init, last := top[..|top| - 1], top[|top| - 1];
      assert top == init + [last];
      HitsArePlaces(init, relevant);
      HitsSnoc(init, last, relevant);
      PlacesSnoc(init, last, relevant);
    }
  }

  /** Recall is the share of the relevant ids that are found among the first `k`; precision the
      share of the first places that hold a relevant id. */
  lemma SharesAre(ranked: seq<string>, relevant: Listing, k: int)
    ensures RecallAtK(ranked, relevant, k) == ValueError <==> relevant == []
    ensures relevant != [] ==>
      RecallAtK(ranked, relevant, k).value * |relevant| as real == |set id | id in Top(ranked, k) && id in relevant| as real
    ensures PrecisionAtK(ranked, relevant, k) == ValueError <==> k <= 0
    ensures k > 0 && ranked != [] ==>
      PrecisionAtK(ranked, relevant, k).value * |Top(ranked, k)| as real
        == |set i | 0 <= i < |Top(ranked, k)| && Top(ranked, k)[i] in relevant| as real
    ensures k > 0 && ranked == [] ==> PrecisionAtK(ranked, relevant, k).value == 0.0
  {
    var top := Top(ranked, k);
    RecallIs(ranked, relevant, k);
    PrecisionIs(ranked, relevant, k);
    HitsArePlaces(top, relevant);
    hide Hits, Ratio, Dedup;
  }

  lemma RecallIs(ranked: seq<string>, relevant: Listing, k: int)
    ensures RecallAtK(ranked, relevant, k) == ValueError <==> relevant == []
    ensures relevant != [] ==>
      RecallAtK(ranked, relevant, k).value * |relevant| as real == |set id | id in Top(ranked, k) && id in relevant| as real
  {
    hide Hits, Ratio, Dedup, Top, Distinct;
    var top := Top(ranked, k);
    HitsOfDistinct(Dedup(top), relevant);
    var found, all := set id | id in Dedup(top) && id in relevant, set id | id in top && id in relevant;
    assert found == all;
    if relevant != [] {
      RatioLaws(Hits(Dedup(top), relevant), |relevant|);
    }
  }

  lemma PrecisionIs(ranked: seq<string>, relevant: Listing, k: int)
    ensures PrecisionAtK(ranked, relevant, k) == ValueError <==> k <= 0
    ensures k > 0 && ranked == [] ==> PrecisionAtK(ranked, relevant, k).value == 0.0
    ensures k > 0 && ranked != [] ==>
      PrecisionAtK(ranked, relevant, k).value * |Top(ranked, k)| as real == Hits(Top(ranked, k), relevant) as real
  {
    hide Hits, Ratio;
    var top := Top(ranked, k);
    if top != [] {
      RatioLaws(Hits(top, relevant), |top|);
    }
  }
}
