/** Ranking metrics over one ranked list of ids and a relevance judgment. */
module Metrics {
  import opened Sorting

  /** `1 / log2(position + 1)`, of which only this is used: positive, and never growing. */
  ghost predicate IsDiscount(w: nat -> real) {
    && (forall i: nat :: w(i) > 0.0)
    && (forall i: nat :: w(i + 1) <= w(i))
  }

  /** A dictionary from id to grade, with its insertion order. */
  datatype Grades = Grades(order: seq<string>, grade: map<string, real>) {
    ghost predicate Valid() {
      && Distinct(order)
      && (forall id :: id in order <==> id in grade)
      && (forall id :: id in grade ==> grade[id] >= 0.0)
    }

    function Get(id: string): real { if id in grade then grade[id] else 0.0 }

    /** `sorted(relevance, key=grade, reverse=True)`, stable among equal grades. */
    function Ideal(): seq<string> { Sort(order, (a, b) => Get(a) >= Get(b)) }
  }

  /** `ids[:k]`, where a negative `k` counts from the end. */
  function Top<T>(ids: seq<T>, k: int): (r: seq<T>)
    ensures r <= ids
  {
    if k >= 0 then (if k < |ids| then ids[..k] else ids)
    else if -k <= |ids| then ids[..|ids| + k] else []
  }

  // ----- Discounted cumulative gain -----

  /** Position `i` is 0-based here; the discount of the i-th id is `w(i)`. */
  function Dcg(ids: seq<string>, grades: Grades, w: nat -> real): real {
    if ids == [] then 0.0
    else
      var last := |ids| - 1;
      Dcg(ids[..last], grades, w) + grades.Get(ids[last]) * w(last)
  }

  datatype Result<+T> = Ok(value: T) | ValueError

  method DcgOf(ids: seq<string>, k: int, grades: Grades, w: nat -> real) returns (total: real)
    ensures total == Dcg(Top(ids, k), grades, w)
  {
    total := 0.0;
    var top := Top(ids, k);
    for position := 0 to |top|
      invariant total == Dcg(top[..position], grades, w)
    {
      assert top[..position + 1][..position] == top[..position];
      var grade := grades.Get(top[position]);
      if grade != 0.0 {
        total := total + grade * w(position);
      }
    }
    assert top[..|top|] == top;
  }

  method NdcgAtK(ranked: seq<string>, grades: Grades, k: int, w: nat -> real) returns (r: Result<real>)
    ensures var ideal := Dcg(Top(grades.Ideal(), k), grades, w);
      r == if ideal == 0.0 then ValueError else Ok(Dcg(Top(ranked, k), grades, w) / ideal)
  {
    var ideal := DcgOf(grades.Ideal(), k, grades, w);
    if ideal == 0.0 { return ValueError; }
    var gained := DcgOf(ranked, k, grades, w);
    return Ok(gained / ideal);
  }

  // ----- Rearrangement: no order of distinct ids beats the descending one -----

  /** Undiscounted gain of the first ids. */
  function Gain(ids: seq<string>, grades: Grades): real {
    if ids == [] then 0.0 else Gain(ids[..|ids| - 1], grades) + grades.Get(ids[|ids| - 1])
  }

  lemma {:induction false} GainConcat(xs: seq<string>, ys: seq<string>, grades: Grades)
    ensures Gain(xs + ys, grades) == Gain(xs, grades) + Gain(ys, grades)
  {
    if ys == [] {
      assert xs + ys == xs;
    } else {
      var init := ys[..|ys| - 1];
      assert (xs + ys)[..|xs + ys| - 1] == xs + init;
      GainConcat(xs, init, grades);
    }
  }

  lemma {:induction false} GainGrows(ids: seq<string>, m: nat, n: nat, grades: Grades)
    requires grades.Valid() && m <= n <= |ids|
    ensures 0.0 <= Gain(ids[..m], grades) <= Gain(ids[..n], grades)
    decreases n
  {
    if n > 0 {
      assert ids[..n][..n - 1] == ids[..n - 1];
      GainGrows(ids, if m < n then m else n - 1, n - 1, grades);
    }
  }

  ghost predicate Descending(ids: seq<string>, grades: Grades) {
    forall i, j :: 0 <= i < j < |ids| ==> grades.Get(ids[i]) >= grades.Get(ids[j])
  }

  lemma GainWithout(xs: seq<string>, i: nat, grades: Grades)
    requires i < |xs|
    ensures Gain(xs, grades) == Gain(Without(xs, i), grades) + grades.Get(xs[i])
  {
    assert xs == xs[..i] + ([xs[i]] + xs[i + 1..]);
    GainConcat(xs[..i], [xs[i]] + xs[i + 1..], grades);
    GainConcat([xs[i]], xs[i + 1..], grades);
    GainConcat(xs[..i], xs[i + 1..], grades);
  }

  /** Any distinct ids gain at most what equally many ids gain at the head of the ideal order. */
  lemma {:induction false} BestHead(xs: seq<string>, ideal: seq<string>, grades: Grades)
    requires Distinct(xs) && (forall x :: x in xs ==> x in ideal) && Descending(ideal, grades)
    ensures |xs| <= |ideal| && Gain(xs, grades) <= Gain(ideal[..|xs|], grades)
    decreases |ideal|
  {
    if xs != [] {
      assert xs[0] in ideal;
      var best, rest := ideal[0], ideal[1..];
      var i := if best in xs then (var i :| 0 <= i < |xs| && xs[i] == best; i) else 0;
      var ys := Without(xs, i);
      forall y | y in ys
        ensures y in rest
      {
        assert y in ideal && y != best;
      }
      BestHead(ys, rest, grades);
      GainWithout(xs, i, grades);
      assert ideal[..|xs|] == [best] + rest[..|ys|];
      GainConcat([best], rest[..|ys|], grades);
      assert xs[i] in ideal;
    }
  }

  function Judged(ids: seq<string>, grades: Grades): seq<string> {
    if ids == [] then []
    else Judged(ids[..|ids| - 1], grades) + if ids[|ids| - 1] in grades.grade then [ids[|ids| - 1]] else []
  }

  /** Ids that were never judged gain nothing. */
  lemma {:induction false} JudgedGain(ids: seq<string>, grades: Grades)
    requires Distinct(ids)
    ensures Gain(Judged(ids, grades), grades) == Gain(ids, grades)
    ensures Distinct(Judged(ids, grades)) && |Judged(ids, grades)| <= |ids|
    ensures forall x :: x in Judged(ids, grades) ==> x in ids && x in grades.grade
  {
    if ids != [] {
      var init, last := ids[..|ids| - 1], ids[|ids| - 1];
      assert ids == init + [last];
      DistinctSnoc(init, last);
      JudgedGain(init, grades);
      DistinctSnoc(Judged(init, grades), last);
      hide Distinct;
      if last in grades.grade {
        assert Judged(ids, grades) == Judged(init, grades) + [last];
      } else {
        assert Judged(ids, grades) == Judged(init, grades);
      }
      GainConcat(Judged(init, grades), [last], grades);
    }
  }

  lemma IdealOrder(grades: Grades)
    requires grades.Valid()
    ensures Descending(grades.Ideal(), grades) && Distinct(grades.Ideal())
    ensures forall id :: id in grades.Ideal() <==> id in grades.grade
  {
    var le := (a, b) => grades.Get(a) >= grades.Get(b);
    SortSorts(grades.order, le);
    DistinctTransfers(grades.order, grades.Ideal());
    forall id
      ensures id in grades.Ideal() <==> id in grades.grade
    {
      assert id in multiset(grades.Ideal()) <==> id in multiset(grades.order);
    }
  }

  function Min(a: int, b: int): int { if a < b then a else b }

  /** Gain of the first `n` ids, or of all when there are fewer. */
  function HeadGain(ids: seq<string>, n: nat, grades: Grades): real {
    Gain(ids[..Min(n, |ids|)], grades)
  }

  function HeadDcg(ids: seq<string>, n: nat, grades: Grades, w: nat -> real): real {
    Dcg(ids[..Min(n, |ids|)], grades, w)
  }

  lemma HeadGainBounded(ids: seq<string>, grades: Grades, n: nat)
    requires grades.Valid() && Distinct(ids)
    ensures HeadGain(ids, n, grades) <= HeadGain(grades.Ideal(), n, grades)
  {
    hide Gain, Judged, Distinct, Descending;
    var head, ideal := ids[..Min(n, |ids|)], grades.Ideal();
    DistinctHead(ids, Min(n, |ids|));
    IdealOrder(grades);
    JudgedGain(head, grades);
    BestHead(Judged(head, grades), ideal, grades);
    GainGrows(ideal, |Judged(head, grades)|, Min(n, |ideal|), grades);
  }

  lemma DistinctHead(ids: seq<string>, n: nat)
    requires Distinct(ids) && n <= |ids|
    ensures Distinct(ids[..n])
  {
  }

  function Scale(factor: real, amount: real): real { factor * amount }

  lemma HeadStep(ids: seq<string>, n: nat, grades: Grades, w: nat -> real) returns (gained: real)
    requires n > 0
    ensures HeadGain(ids, n, grades) == HeadGain(ids, n - 1, grades) + gained
    ensures HeadDcg(ids, n, grades, w) == HeadDcg(ids, n - 1, grades, w) + Scale(w(n - 1), gained)
  {
    gained := if n <= |ids| then grades.Get(ids[n - 1]) else 0.0;
    if n <= |ids| {
      assert ids[..n][..n - 1] == ids[..n - 1];
    }
  }

  lemma StepKeepsOrder(earlier: real, later: real, gap: real, x: real, y: real)
    requires 0.0 < later <= earlier && gap + y - x >= 0.0
    ensures Scale(earlier, gap) + Scale(earlier, y) - Scale(earlier, x) >= Scale(later, gap + y - x)
  {
    var d := gap + y - x;
    assert earlier * gap + earlier * y - earlier * x == earlier * d;
    assert earlier * d >= later * d;
  }

  /** Abel summation, one step at a time: when every head of `xs` gains at most what that head of
      `ys` gains, discounting keeps the order, and with room to spare. */
  lemma {:induction false} DiscountKeepsOrder(xs: seq<string>, ys: seq<string>, n: nat, grades: Grades, w: nat -> real)
    requires IsDiscount(w)
    requires forall m: nat :: m <= n ==> HeadGain(xs, m, grades) <= HeadGain(ys, m, grades)
    ensures HeadDcg(ys, n, grades, w) - HeadDcg(xs, n, grades, w)
         >= Scale(w(n), HeadGain(ys, n, grades) - HeadGain(xs, n, grades))
  {
    if n > 0 {
      hide HeadGain, HeadDcg, Scale;
      DiscountKeepsOrder(xs, ys, n - 1, grades, w);
      var x := HeadStep(xs, n, grades, w);
      var y := HeadStep(ys, n, grades, w);
      var gap := HeadGain(ys, n - 1, grades) - HeadGain(xs, n - 1, grades);
      assert gap + y - x == HeadGain(ys, n, grades) - HeadGain(xs, n, grades);
      assert w(n) == w(n - 1 + 1);
      StepKeepsOrder(w(n - 1), w(n), gap, x, y);
    }
  }

  lemma {:induction false} DcgNonNegative(ids: seq<string>, grades: Grades, w: nat -> real)
    requires grades.Valid() && IsDiscount(w)
    ensures Dcg(ids, grades, w) >= 0.0
  {
    if ids != [] {
      DcgNonNegative(ids[..|ids| - 1], grades, w);
      assert grades.Get(ids[|ids| - 1]) * w(|ids| - 1) >= 0.0;
    }
  }

  lemma ScaleNonNegative(factor: real, amount: real)
    requires factor >= 0.0 && amount >= 0.0
    ensures Scale(factor, amount) >= 0.0
  {
  }

  /** No ranking of distinct ids gains more than the ideal one. */
  lemma DcgAtMostIdeal(ranked: seq<string>, grades: Grades, k: nat, w: nat -> real)
    requires grades.Valid() && IsDiscount(w) && Distinct(Top(ranked, k))
    ensures 0.0 <= Dcg(Top(ranked, k), grades, w) <= Dcg(Top(grades.Ideal(), k), grades, w)
  {
    hide Gain, Dcg, Scale, Distinct;
    var top, ideal := Top(ranked, k), grades.Ideal();
    DcgNonNegative(top, grades, w);
    assert top[..Min(k, |top|)] == top && ideal[..Min(k, |ideal|)] == Top(ideal, k);
    assert HeadDcg(top, k, grades, w) == Dcg(top, grades, w);
    assert HeadDcg(ideal, k, grades, w) == Dcg(Top(ideal, k), grades, w);
    hide HeadGain, HeadDcg;
    forall m: nat | m <= k
      ensures HeadGain(top, m, grades) <= HeadGain(ideal, m, grades)
    {
      HeadGainBounded(top, grades, m);
    }
    DiscountKeepsOrder(top, ideal, k, grades, w);
    assert HeadGain(top, k, grades) <= HeadGain(ideal, k, grades);
    ScaleNonNegative(w(k), HeadGain(ideal, k, grades) - HeadGain(top, k, grades));
  }

  // ----- Exactly when NDCG is a fraction of the ideal -----

  ghost predicate Bounded(ranked: seq<string>, k: nat, w: nat -> real) {
    forall grades: Grades :: grades.Valid() && Dcg(Top(grades.Ideal(), k), grades, w) > 0.0 ==>
      0.0 <= Dcg(Top(ranked, k), grades, w) / Dcg(Top(grades.Ideal(), k), grades, w) <= 1.0
  }

  function Uniform(ids: seq<string>): Grades {
    Grades(Dedup(ids), map id | id in ids :: 1.0)
  }

  function Weights(n: nat, w: nat -> real): real {
    if n == 0 then 0.0 else Weights(n - 1, w) + w(n - 1)
  }

  lemma {:induction false} UniformDcg(ids: seq<string>, pool: seq<string>, w: nat -> real)
    requires forall id :: id in ids ==> id in pool
    ensures Dcg(ids, Uniform(pool), w) == Weights(|ids|, w)
  {
    if ids != [] {
      UniformDcg(ids[..|ids| - 1], pool, w);
      assert ids[|ids| - 1] in pool;
    }
  }

  lemma {:induction false} WeightsGrow(m: nat, n: nat, w: nat -> real)
    requires IsDiscount(w) && m < n
    ensures 0.0 <= Weights(m, w) < Weights(n, w)
    decreases n
  {
    if m > 0 { WeightsGrow(m - 1, m, w); }
    if m < n - 1 { WeightsGrow(m, n - 1, w); }
  }

  /** A repeated id is counted twice against an ideal that counts it once. */
  lemma RepetitionBeatsIdeal(ranked: seq<string>, k: nat, w: nat -> real)
    requires IsDiscount(w) && !Distinct(Top(ranked, k))
    ensures !Bounded(ranked, k, w)
  {
    var top := Top(ranked, k);
    var grades := Uniform(top);
    DedupShrinks(top);
    assert grades.Valid();
    IdealOrder(grades);
    var ideal := grades.Ideal();
    assert |ideal| < |top| <= k && Top(ideal, k) == ideal;
    UniformDcg(top, top, w);
    UniformDcg(ideal, top, w);
    assert top[0] in Dedup(top);
    WeightsGrow(|ideal|, |top|, w);
    WeightsGrow(0, |ideal|, w);
    Exceeds(Weights(|top|, w), Weights(|ideal|, w));
  }

  lemma Exceeds(a: real, b: real)
    requires 0.0 < b < a
    ensures a / b > 1.0
  {
    assert a / b * b == a;
  }

  lemma Fraction(a: real, b: real)
    requires 0.0 <= a <= b && 0.0 < b
    ensures 0.0 <= a / b <= 1.0
  {
    assert a / b * b == a;
  }

  /** NDCG@k lies in [0, 1] for all grades exactly when the first k ids are distinct. */
  lemma NdcgBoundedIffDistinct(ranked: seq<string>, k: nat, w: nat -> real)
    requires IsDiscount(w)
    ensures Bounded(ranked, k, w) <==> Distinct(Top(ranked, k))
  {
    if Distinct(Top(ranked, k)) {
      forall grades: Grades | grades.Valid() && Dcg(Top(grades.Ideal(), k), grades, w) > 0.0
        ensures 0.0 <= Dcg(Top(ranked, k), grades, w) / Dcg(Top(grades.Ideal(), k), grades, w) <= 1.0
      {
        DcgAtMostIdeal(ranked, grades, k, w);
        Fraction(Dcg(Top(ranked, k), grades, w), Dcg(Top(grades.Ideal(), k), grades, w));
      }
    } else {
      RepetitionBeatsIdeal(ranked, k, w);
    }
  }

  // ----- Set and reciprocal-rank metrics -----

  /** A set, listed in the order it iterates. */
  type Listing = xs: seq<string> | Distinct(xs) witness []

  function Hits(top: seq<string>, relevant: Listing): nat {
    if top == [] then 0
    else Hits(top[..|top| - 1], relevant) + if top[|top| - 1] in relevant then 1 else 0
  }

  function Ratio(a: nat, b: nat): real
    requires b > 0
  {
    a as real / b as real
  }

  lemma RatioLaws(a: nat, b: nat)
    requires b > 0
    ensures Ratio(a, b) * b as real == a as real
    ensures Ratio(a, b) > 0.0 <==> a > 0
  {
    if a > 0 {
      assert a as real / b as real > 0.0;
    }
  }

  function RecallAtK(ranked: seq<string>, relevant: Listing, k: int): Result<real> {
    if relevant == [] then ValueError
    else Ok(Ratio(Hits(Dedup(Top(ranked, k)), relevant), |relevant|))
  }

  function PrecisionAtK(ranked: seq<string>, relevant: Listing, k: int): Result<real> {
    if k <= 0 then ValueError
    else
      var top := Top(ranked, k);
      Ok(if top == [] then 0.0 else Ratio(Hits(top, relevant), |top|))
  }

  function HitRateAtK(ranked: seq<string>, relevant: Listing, k: int): real {
    if exists id :: id in Top(ranked, k) && id in relevant then 1.0 else 0.0
  }

  /** 1-based rank of the first relevant id, or 0. */
  function FirstHit(top: seq<string>, relevant: Listing): (rank: nat)
    ensures rank <= |top|
    ensures rank > 0 ==> top[rank - 1] in relevant
    ensures forall i :: 0 <= i < (if rank > 0 then rank - 1 else |top|) ==> top[i] !in relevant
  {
    if top == [] then 0
    else if top[0] in relevant then 1
    else
      var rest := FirstHit(top[1..], relevant);
      if rest == 0 then 0 else rest + 1
  }

  method MrrAtK(ranked: seq<string>, relevant: Listing, k: int) returns (r: real)
    ensures var rank := FirstHit(Top(ranked, k), relevant);
      r == if rank == 0 then 0.0 else 1.0 / rank as real
  {
    var top := Top(ranked, k);
    for i := 0 to |top|
      invariant forall j :: 0 <= j < i ==> top[j] !in relevant
    {
      if top[i] in relevant {
        return 1.0 / (i + 1) as real;
      }
    }
    return 0.0;
  }

  predicate RelevantOnce(top: seq<string>, relevant: Listing) {
    forall i, j :: 0 <= i < j < |top| && top[i] in relevant ==> top[i] != top[j]
  }

  lemma {:induction false} HitsDedup(top: seq<string>, relevant: Listing)
    ensures Hits(Dedup(top), relevant) <= Hits(top, relevant) <= |top|
    ensures Hits(Dedup(top), relevant) == Hits(top, relevant) <==> RelevantOnce(top, relevant)
  {
    if top != [] {
      var init, last := top[..|top| - 1], top[|top| - 1];
      HitsDedup(init, relevant);
      assert last in init ==> exists i :: 0 <= i < |init| && top[i] == last;
      assert (Dedup(init) + [last])[..|Dedup(init)|] == Dedup(init);
    }
  }

  /** Recall counts the distinct relevant ids found, precision counts positions. The two counts
      agree exactly when no relevant id is repeated among the first k. */
  lemma RecallMeetsPrecision(ranked: seq<string>, relevant: Listing, k: int)
    requires relevant != [] && k > 0 && ranked != []
    ensures RecallAtK(ranked, relevant, k).value * |relevant| as real
         == PrecisionAtK(ranked, relevant, k).value * |Top(ranked, k)| as real
       <==> RelevantOnce(Top(ranked, k), relevant)
  {
    hide Hits, Ratio, RelevantOnce, Dedup;
    var top := Top(ranked, k);
    assert top != [];
    HitsDedup(top, relevant);
    RatioLaws(Hits(Dedup(top), relevant), |relevant|);
    RatioLaws(Hits(top, relevant), |top|);
  }

  lemma {:induction false} HitsPositive(top: seq<string>, relevant: Listing)
    ensures Hits(top, relevant) > 0 <==> exists id :: id in top && id in relevant
  {
    if top != [] {
      var init, last := top[..|top| - 1], top[|top| - 1];
      HitsPositive(init, relevant);
      assert top == init + [last];
    }
  }

  /** The four set metrics agree on whether anything relevant was found, and MRR then says how
      far down: none of the ids above the reported rank is relevant. */
  lemma MetricsAgreeOnMiss(ranked: seq<string>, relevant: Listing, k: int)
    requires relevant != [] && k > 0
    ensures var found := HitRateAtK(ranked, relevant, k) == 1.0;
      && (found <==> FirstHit(Top(ranked, k), relevant) > 0)
      && (found <==> RecallAtK(ranked, relevant, k).value > 0.0)
      && (found <==> PrecisionAtK(ranked, relevant, k).value > 0.0)
  {
    hide Hits, Ratio, Dedup, FirstHit;
    var top := Top(ranked, k);
    HitsPositive(top, relevant);
    HitsPositive(Dedup(top), relevant);
    RatioLaws(Hits(Dedup(top), relevant), |relevant|);
    if top != [] {
      RatioLaws(Hits(top, relevant), |top|);
    }
    var rank := FirstHit(top, relevant);
    if rank > 0 {
      assert top[rank - 1] in top;
    }
  }
}
