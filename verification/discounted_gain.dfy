/** Discounted cumulative gain, and its ratio to the best possible one. `log(i)` stands for
    the logarithm of `i + 2` that discounts rank `i`; all that matters of it is that it is
    positive and grows with the rank. */
module DiscountedGain {
  import opened RankMetrics
  import opened Results

  type Discount = nat -> real

  ghost predicate PositiveAndGrowing(log: Discount) {
    && (forall i :: log(i) > 0.0)
    && forall i, j :: i < j ==> log(i) <= log(j)
  }

  ghost predicate StrictlyGrowing(log: Discount) {
    forall i, j :: i < j ==> log(i) < log(j)
  }

  /** The part of a relevance that counts at a rank. */
  function Share(rel: int, d: real): real
    requires d > 0.0
  {
    rel as real / d
  }

  /** The gains of `rels`, the first of which stands at rank `i`. */
  function DcgFrom(rels: seq<int>, log: Discount, i: nat): real
    requires forall j :: log(j) > 0.0
  {
    if rels == [] then 0.0 else Share(rels[0], log(i)) + DcgFrom(rels[1..], log, i + 1)
  }

  function DcgAtK(rels: seq<int>, k: nat, log: Discount): real
    requires forall j :: log(j) > 0.0
  {
    DcgFrom(Take(rels, k), log, 0)
  }

  // ----- The query's judgements: ids with relevances, each id once

  type Judgements<T> = seq<(T, int)>

  ghost predicate DistinctIds<T>(qrels: Judgements<T>) {
    forall i, j :: 0 <= i < j < |qrels| ==> qrels[i].0 != qrels[j].0
  }

  function Lookup<T(==)>(qrels: Judgements<T>, id: T): int {
    if qrels == [] then 0 else if qrels[0].0 == id then qrels[0].1 else Lookup(qrels[1..], id)
  }

  function Gains<T(==)>(ids: seq<T>, qrels: Judgements<T>): seq<int> {
    if ids == [] then [] else [Lookup(qrels, ids[0])] + Gains(ids[1..], qrels)
  }

  function Relevances<T>(qrels: Judgements<T>): seq<int> {
    if qrels == [] then [] else [qrels[0].1] + Relevances(qrels[1..])
  }

  function InsertDescending(v: int, s: seq<int>): seq<int> {
    if s == [] || v >= s[0] then [v] + s else [s[0]] + InsertDescending(v, s[1..])
  }

  function SortDescending(s: seq<int>): seq<int> {
    if s == [] then [] else InsertDescending(s[0], SortDescending(s[1..]))
  }

  /** The ratio of the ranking's DCG to that of the relevances in descending order; none if
      the latter is not positive. */
  function NdcgAtK<T(==)>(ids: seq<T>, qrels: Judgements<T>, k: nat, log: Discount): Option<real>
    requires forall j :: log(j) > 0.0
  {
    var dcg := DcgAtK(Gains(Take(ids, k), qrels), k, log);
    var idcg := DcgAtK(SortDescending(Relevances(qrels)), k, log);
    if idcg > 0.0 then Some(dcg / idcg) else None
  }

  // ----- Sorting

  ghost predicate Descending(s: seq<int>) {
    forall i, j :: 0 <= i < j < |s| ==> s[i] >= s[j]
  }

  lemma {:induction false} InsertKeepsElements(v: int, s: seq<int>)
    ensures multiset(InsertDescending(v, s)) == multiset(s) + multiset{v}
  {
    if s != [] {
      assert s == [s[0]] + s[1..];
      if v < s[0] {
        InsertKeepsElements(v, s[1..]);
      }
    }
  }

  lemma {:induction false} InsertBounded(v: int, s: seq<int>, top: int)
    requires v <= top && forall i :: 0 <= i < |s| ==> s[i] <= top
    ensures forall i :: 0 <= i < |InsertDescending(v, s)| ==> InsertDescending(v, s)[i] <= top
  {
    if s != [] && v < s[0] {
      InsertBounded(v, s[1..], top);
    }
  }

  lemma {:induction false} InsertSorts(v: int, s: seq<int>)
    requires Descending(s)
    ensures Descending(InsertDescending(v, s))
  {
    if s != [] && v < s[0] {
      InsertSorts(v, s[1..]);
      InsertBounded(v, s[1..], s[0]);
    }
  }

  lemma {:induction false} SortSorts(s: seq<int>)
    ensures Descending(SortDescending(s)) && multiset(SortDescending(s)) == multiset(s)
  {
    if s != [] {
      SortSorts(s[1..]);
      InsertSorts(s[0], SortDescending(s[1..]));
      InsertKeepsElements(s[0], SortDescending(s[1..]));
      assert s == [s[0]] + s[1..];
    }
  }

  // ----- Rearrangement

  ghost predicate NonNegative(s: seq<int>) {
    forall i :: 0 <= i < |s| ==> s[i] >= 0
  }

  /** Every positive gain of `g` occurs in `s` at least as often. */
  ghost predicate Within(g: seq<int>, s: seq<int>) {
    forall v :: v > 0 ==> multiset(g)[v] <= multiset(s)[v]
  }

  function At(s: seq<int>, i: nat): int {
    if i < |s| then s[i] else 0
  }

  /** The same gains at each of the first `k` ranks, missing ones counting as 0. */
  ghost predicate SameAtTop(g: seq<int>, s: seq<int>, k: nat) {
    forall i: nat :: i < k ==> At(g, i) == At(s, i)
  }

  lemma InverseOrder(d: real, e: real)
    requires 0.0 < d <= e
    ensures 0.0 < 1.0 / e <= 1.0 / d && (d < e ==> 1.0 / e < 1.0 / d)
  {
    assert 1.0 / d * d == 1.0 && 1.0 / e * e == 1.0;
  }

  lemma ShareIsProduct(a: int, d: real)
    requires d > 0.0
    ensures Share(a, d) == Times(a as real, 1.0 / d)
  {
  }

  lemma ProductOrder(a: real, b: real, u: real)
    requires 0.0 <= a <= b && u > 0.0
    ensures 0.0 <= Times(a, u) <= Times(b, u) && (a < b ==> Times(a, u) < Times(b, u))
    ensures a > 0.0 ==> Times(a, u) > 0.0
  {
  }

  lemma ProductSign(a: real, b: real)
    requires a >= 0.0 && b >= 0.0
    ensures Times(a, b) >= 0.0 && (a > 0.0 && b > 0.0 ==> Times(a, b) > 0.0)
  {
  }

  lemma ProductDifference(a: real, b: real, u: real, v: real)
    ensures Times(b, u) + Times(a, v) - Times(a, u) - Times(b, v) == Times(b - a, u - v)
  {
  }

  lemma ProductExchange(a: real, b: real, u: real, v: real)
    requires a <= b && v <= u
    ensures Times(b, u) + Times(a, v) >= Times(a, u) + Times(b, v)
    ensures a < b && v < u ==> Times(b, u) + Times(a, v) > Times(a, u) + Times(b, v)
  {
    ProductSign(b - a, u - v);
    ProductDifference(a, b, u, v);
  }

  lemma ShareOrder(a: int, b: int, d: real)
    requires 0 <= a <= b && 0.0 < d
    ensures 0.0 <= Share(a, d) <= Share(b, d) && (a < b ==> Share(a, d) < Share(b, d)) && (a > 0 ==> Share(a, d) > 0.0)
  {
    ShareIsProduct(a, d);
    ShareIsProduct(b, d);
    InverseOrder(d, d);
    ProductOrder(a as real, b as real, 1.0 / d);
  }

  /** Putting the larger gain at the earlier rank never loses. */
  lemma ShareExchange(a: int, b: int, d: real, e: real)
    requires a <= b && 0.0 < d <= e
    ensures Share(b, d) + Share(a, e) >= Share(a, d) + Share(b, e)
    ensures a < b && d < e ==> Share(b, d) + Share(a, e) > Share(a, d) + Share(b, e)
  {
    InverseOrder(d, e);
    ShareIsProduct(a, d);
    ShareIsProduct(b, d);
    ShareIsProduct(a, e);
    ShareIsProduct(b, e);
    ProductExchange(a as real, b as real, 1.0 / d, 1.0 / e);
  }

  lemma {:induction false} DcgOfReplaced(g: seq<int>, p: nat, v: int, log: Discount, i: nat)
    requires (forall j :: log(j) > 0.0) && p < |g|
    ensures DcgFrom(g[p := v], log, i) + Share(g[p], log(i + p)) == DcgFrom(g, log, i) + Share(v, log(i + p))
    decreases p
  {
    if p > 0 {
      DcgOfReplaced(g[1..], p - 1, v, log, i + 1);
      assert g[p := v][1..] == g[1..][p - 1 := v];
    } else {
      assert g[p := v][1..] == g[1..];
    }
  }

  lemma {:induction false} DcgNonNegative(s: seq<int>, log: Discount, i: nat)
    requires (forall j :: log(j) > 0.0) && NonNegative(s)
    ensures DcgFrom(s, log, i) >= 0.0
    ensures DcgFrom(s, log, i) == 0.0 <==> forall j :: 0 <= j < |s| ==> s[j] == 0
    decreases s
  {
    if s != [] {
      DcgNonNegative(s[1..], log, i + 1);
      ShareOrder(s[0], s[0], log(i));
      assert s[0] == 0 ==> Share(s[0], log(i)) == 0.0;
      assert (forall j :: 0 <= j < |s| ==> s[j] == 0)
        <==> s[0] == 0 && forall j :: 0 <= j < |s[1..]| ==> s[1..][j] == 0;
    }
  }

  lemma MaxIsFirst(g: seq<int>, s: seq<int>)
    requires Within(g, s) && NonNegative(s) && Descending(s) && s != [] && g != []
    ensures g[0] <= s[0]
  {
    assert g[0] in multiset(g);
    if g[0] > 0 {
      assert multiset(s)[g[0]] > 0;
      assert g[0] in s;
    }
  }

  lemma CountHead(s: seq<int>, v: int)
    requires s != []
    ensures multiset(s)[v] == multiset(s[1..])[v] + if v == s[0] then 1 else 0
  {
    assert s == [s[0]] + s[1..];
  }

  lemma WithinAfterMatch(g: seq<int>, s: seq<int>)
    requires Within(g, s) && g != [] && s != [] && g[0] == s[0]
    ensures Within(g[1..], s[1..])
  {
    forall v | v > 0
      ensures multiset(g[1..])[v] <= multiset(s[1..])[v]
    {
      assert multiset(g)[v] <= multiset(s)[v];
      CountHead(g, v);
      CountHead(s, v);
    }
  }

  lemma WithinAfterDrop(g: seq<int>, s: seq<int>)
    requires Within(g, s) && g != [] && s != [] && s[0] !in g
    ensures Within(g[1..], s[1..])
  {
    forall v | v > 0
      ensures multiset(g[1..])[v] <= multiset(s[1..])[v]
    {
      assert multiset(g)[v] <= multiset(s)[v];
      CountHead(g, v);
      CountHead(s, v);
      assert s[0] !in multiset(g);
    }
  }

  lemma CountReplaced(g: seq<int>, p: nat, w: int, v: int)
    requires p < |g|
    ensures multiset(g[p := w])[v] + (if v == g[p] then 1 else 0) == multiset(g)[v] + if v == w then 1 else 0
  {
    assert multiset(g[p := w]) == multiset(g) - multiset{g[p]} + multiset{w};
  }

  /** `g` with its first gain moved to where `s[0]` stood, and `s[0]` taken out. */
  lemma WithinAfterSwap(g: seq<int>, s: seq<int>, p: nat)
    requires Within(g, s) && s != [] && 0 < p < |g| && g[p] == s[0]
    ensures Within(g[1..][p - 1 := g[0]], s[1..])
  {
    var h := g[1..][p - 1 := g[0]];
    forall v | v > 0
      ensures multiset(h)[v] <= multiset(s[1..])[v]
    {
      assert multiset(g)[v] <= multiset(s)[v];
      CountHead(g, v);
      CountHead(s, v);
      CountReplaced(g[1..], p - 1, g[0], v);
    }
  }

  lemma SwapGain(g: seq<int>, m: int, p: nat, log: Discount, i: nat, dg: real, dh: real)
    requires PositiveAndGrowing(log) && 0 < p < |g| && g[p] == m && g[0] < m
    requires dg == DcgFrom(g, log, i) && dh == DcgFrom(g[1..][p - 1 := g[0]], log, i + 1)
    ensures dg <= Share(m, log(i)) + dh && (StrictlyGrowing(log) ==> dg < Share(m, log(i)) + dh)
  {
    DcgOfReplaced(g[1..], p - 1, g[0], log, i + 1);
    assert i + 1 + (p - 1) == i + p;
    ShareExchange(g[0], m, log(i), log(i + p));
  }

  lemma DropGain(g: seq<int>, m: int, log: Discount, i: nat, dg: real, dt: real)
    requires PositiveAndGrowing(log) && g != [] && 0 <= g[0] < m
    requires dg == DcgFrom(g, log, i) && dt == DcgFrom(g[1..], log, i + 1)
    ensures dg < Share(m, log(i)) + dt
  {
    ShareOrder(g[0], m, log(i));
  }

  lemma TakeTail<T>(s: seq<T>, k: nat)
    requires s != [] && k > 0
    ensures Take(s, k) != [] && Take(s, k)[0] == s[0] && Take(s, k)[1..] == Take(s[1..], k - 1)
  {
  }

  lemma AllZero(g: seq<int>)
    requires Within(g, []) && NonNegative(g)
    ensures forall i :: 0 <= i < |g| ==> g[i] == 0
  {
    forall i | 0 <= i < |g|
      ensures g[i] == 0
    {
      assert g[i] in multiset(g);
    }
  }

  lemma DcgHead(s: seq<int>, log: Discount, i: nat, d: real)
    requires (forall j :: log(j) > 0.0) && s != [] && d == DcgFrom(s, log, i)
    ensures d == Share(s[0], log(i)) + DcgFrom(s[1..], log, i + 1)
  {
  }

  lemma SameAfterMatch(g: seq<int>, s: seq<int>, k: nat)
    requires g != [] && s != [] && k > 0 && g[0] == s[0]
    ensures SameAtTop(g, s, k) <==> SameAtTop(g[1..], s[1..], k - 1)
  {
    assert At(g, 0) == At(s, 0);
    assert forall j: nat :: At(g, j + 1) == At(g[1..], j) && At(s, j + 1) == At(s[1..], j);
    if SameAtTop(g[1..], s[1..], k - 1) {
      forall j: nat | j < k
        ensures At(g, j) == At(s, j)
      {
        assert j > 0 ==> At(g[1..], j - 1) == At(s[1..], j - 1);
      }
    }
    if SameAtTop(g, s, k) {
      forall j: nat | j < k - 1
        ensures At(g[1..], j) == At(s[1..], j)
      {
        assert At(g, j + 1) == At(s, j + 1);
      }
    }
  }

  /** Rearrangement: no list of gains drawn from `s` has a higher DCG (`dg`) than the first `k`
      of `s` in descending order (`ds`); under a strictly growing discount only the same gains
      at the same ranks reach it. */
  lemma {:induction false} Rearrangement(g: seq<int>, s: seq<int>, log: Discount, i: nat, k: nat, dg: real, ds: real)
    requires PositiveAndGrowing(log) && NonNegative(g) && NonNegative(s) && Descending(s)
    requires Within(g, s) && |g| <= k
    requires dg == DcgFrom(g, log, i) && ds == DcgFrom(Take(s, k), log, i)
    ensures dg <= ds && (StrictlyGrowing(log) && dg == ds ==> SameAtTop(g, s, k))
    decreases |g|
  {
    if g == [] {
      DcgNonNegative(Take(s, k), log, i);
    } else if s == [] {
      AllZero(g);
      DcgNonNegative(g, log, i);
    } else {
      TakeTail(s, k);
      MaxIsFirst(g, s);
      DcgHead(g, log, i, dg);
      DcgHead(Take(s, k), log, i, ds);
      var rest := DcgFrom(Take(s[1..], k - 1), log, i + 1);
      if g[0] == s[0] {
        WithinAfterMatch(g, s);
        Rearrangement(g[1..], s[1..], log, i + 1, k - 1, DcgFrom(g[1..], log, i + 1), rest);
        SameAfterMatch(g, s, k);
      } else if s[0] in g {
        var p: nat :| p < |g| && g[p] == s[0];
        var h := g[1..][p - 1 := g[0]];
        WithinAfterSwap(g, s, p);
        Rearrangement(h, s[1..], log, i + 1, k - 1, DcgFrom(h, log, i + 1), rest);
        SwapGain(g, s[0], p, log, i, dg, DcgFrom(h, log, i + 1));
      } else {
        WithinAfterDrop(g, s);
        Rearrangement(g[1..], s[1..], log, i + 1, k - 1, DcgFrom(g[1..], log, i + 1), rest);
        DropGain(g, s[0], log, i, dg, DcgFrom(g[1..], log, i + 1));
      }
    }
  }

  /** The DCG depends only on the gain at each rank. */
  lemma {:induction false} SameAtTopSameDcg(g: seq<int>, s: seq<int>, log: Discount, i: nat, k: nat)
    requires (forall j :: log(j) > 0.0) && NonNegative(g) && NonNegative(s) && SameAtTop(g, s, k)
    ensures DcgFrom(Take(g, k), log, i) == DcgFrom(Take(s, k), log, i)
    decreases k
  {
    if k > 0 {
      assert At(g, 0) == At(s, 0);
      if g == [] || s == [] {
        forall j | 0 <= j < |Take(g, k)|
          ensures Take(g, k)[j] == 0
        {
          assert At(g, j) == At(s, j);
        }
        forall j | 0 <= j < |Take(s, k)|
          ensures Take(s, k)[j] == 0
        {
          assert At(g, j) == At(s, j);
        }
        DcgNonNegative(Take(g, k), log, i);
        DcgNonNegative(Take(s, k), log, i);
      } else {
        SameAfterMatch(g, s, k);
        TakeTail(g, k);
        TakeTail(s, k);
        SameAtTopSameDcg(g[1..], s[1..], log, i + 1, k - 1);
      }
    }
  }

  // ----- Rankings

  ghost predicate Distinct<T>(ids: seq<T>) {
    forall i, j :: 0 <= i < j < |ids| ==> ids[i] != ids[j]
  }

  lemma {:induction false} LookupIsRelevance<T>(qrels: Judgements<T>, id: T)
    ensures Lookup(qrels, id) == 0 || Lookup(qrels, id) in Relevances(qrels)
  {
    if qrels != [] && qrels[0].0 != id {
      LookupIsRelevance(qrels[1..], id);
    }
  }

  lemma {:induction false} GainsNonNegative<T>(ids: seq<T>, qrels: Judgements<T>)
    requires NonNegative(Relevances(qrels))
    ensures NonNegative(Gains(ids, qrels)) && |Gains(ids, qrels)| == |ids|
  {
    if ids != [] {
      LookupIsRelevance(qrels, ids[0]);
      GainsNonNegative(ids[1..], qrels);
    }
  }

  lemma {:induction false} UnknownId<T>(qrels: Judgements<T>, id: T)
    requires forall i :: 0 <= i < |qrels| ==> qrels[i].0 != id
    ensures Lookup(qrels, id) == 0
  {
    if qrels != [] {
      UnknownId(qrels[1..], id);
    }
  }

  /** A judgement adds its relevance to the gains once, if its id is ranked. */
  lemma {:induction false} OneMoreJudgement<T>(ids: seq<T>, qrels: Judgements<T>, v: int)
    requires Distinct(ids) && DistinctIds(qrels) && qrels != [] && v > 0
    ensures multiset(Gains(ids, qrels))[v]
         == multiset(Gains(ids, qrels[1..]))[v] + if qrels[0].0 in ids && qrels[0].1 == v then 1 else 0
    decreases ids
  {
    if ids != [] {
      var key := qrels[0].0;
      OneMoreJudgement(ids[1..], qrels, v);
      CountHead(Gains(ids, qrels), v);
      CountHead(Gains(ids, qrels[1..]), v);
      assert key in ids <==> key == ids[0] || key in ids[1..];
      if key == ids[0] {
        UnknownId(qrels[1..], key);
        assert key !in ids[1..];
      }
    }
  }

  lemma {:induction false} NoJudgements<T>(ids: seq<T>, v: int)
    requires v > 0
    ensures multiset(Gains(ids, []))[v] == 0
  {
    if ids != [] {
      NoJudgements(ids[1..], v);
      CountHead(Gains(ids, []), v);
    }
  }

  lemma {:induction false} GainCount<T>(ids: seq<T>, qrels: Judgements<T>, v: int)
    requires Distinct(ids) && DistinctIds(qrels) && v > 0
    ensures multiset(Gains(ids, qrels))[v] <= multiset(Relevances(qrels))[v]
    decreases qrels
  {
    if qrels == [] {
      NoJudgements(ids, v);
    } else {
      GainCount(ids, qrels[1..], v);
      OneMoreJudgement(ids, qrels, v);
      CountHead(Relevances(qrels), v);
    }
  }

  lemma {:induction false} GainsAreWithin<T>(ids: seq<T>, qrels: Judgements<T>)
    requires Distinct(ids) && DistinctIds(qrels)
    ensures Within(Gains(ids, qrels), SortDescending(Relevances(qrels)))
  {
    SortSorts(Relevances(qrels));
    forall v | v > 0
      ensures multiset(Gains(ids, qrels))[v] <= multiset(SortDescending(Relevances(qrels)))[v]
    {
      GainCount(ids, qrels, v);
    }
  }

  lemma SortedNonNegative(s: seq<int>)
    requires NonNegative(s)
    ensures NonNegative(SortDescending(s))
  {
    SortSorts(s);
    var r := SortDescending(s);
    forall i | 0 <= i < |r|
      ensures r[i] >= 0
    {
      assert r[i] in multiset(r);
      assert r[i] in s;
    }
  }

  lemma RatioAtMostOne(x: real, y: real)
    requires 0.0 <= x <= y && y > 0.0
    ensures 0.0 <= x / y <= 1.0 && (x / y == 1.0 <==> x == y)
  {
    QuotientBounds(x, y);
  }

  /** DCG@k of a ranking without repeats is at most DCG@k of the relevances in descending
      order; under a strictly growing discount it is equal exactly when the ranking has the
      ideal gains at each of the first `k` ranks. */
  lemma DcgAtMostIdeal<T>(ids: seq<T>, qrels: Judgements<T>, k: nat, log: Discount)
    requires PositiveAndGrowing(log) && Distinct(Take(ids, k)) && DistinctIds(qrels) && NonNegative(Relevances(qrels))
    ensures 0.0 <= DcgAtK(Gains(Take(ids, k), qrels), k, log) <= DcgAtK(SortDescending(Relevances(qrels)), k, log)
    ensures StrictlyGrowing(log) ==>
      (DcgAtK(Gains(Take(ids, k), qrels), k, log) == DcgAtK(SortDescending(Relevances(qrels)), k, log)
       <==> SameAtTop(Gains(Take(ids, k), qrels), SortDescending(Relevances(qrels)), k))
  {
    var (top, ideal) := (Gains(Take(ids, k), qrels), SortDescending(Relevances(qrels)));
    SortSorts(Relevances(qrels));
    SortedNonNegative(Relevances(qrels));
    GainsNonNegative(Take(ids, k), qrels);
    GainsAreWithin(Take(ids, k), qrels);
    assert Take(top, k) == top;
    DcgNonNegative(top, log, 0);
    Rearrangement(top, ideal, log, 0, k, DcgFrom(top, log, 0), DcgFrom(Take(ideal, k), log, 0));
    if SameAtTop(top, ideal, k) {
      SameAtTopSameDcg(top, ideal, log, 0, k);
    }
  }

  /** nDCG lies between 0 and 1, and is 1 exactly for rankings with the ideal gains at the
      first `k` ranks. */
  lemma NdcgBounds<T>(ids: seq<T>, qrels: Judgements<T>, k: nat, log: Discount)
    requires PositiveAndGrowing(log) && Distinct(Take(ids, k)) && DistinctIds(qrels) && NonNegative(Relevances(qrels))
    requires NdcgAtK(ids, qrels, k, log).Some?
    ensures 0.0 <= NdcgAtK(ids, qrels, k, log).value <= 1.0
    ensures StrictlyGrowing(log) ==>
      (NdcgAtK(ids, qrels, k, log).value == 1.0
       <==> SameAtTop(Gains(Take(ids, k), qrels), SortDescending(Relevances(qrels)), k))
  {
    DcgAtMostIdeal(ids, qrels, k, log);
    RatioAtMostOne(DcgAtK(Gains(Take(ids, k), qrels), k, log), DcgAtK(SortDescending(Relevances(qrels)), k, log));
  }

  // ----- Rankings sorted by relevance

  /** Two descending lists with the same positive elements agree at every rank. */
  lemma {:induction false} SamePositives(g: seq<int>, s: seq<int>, k: nat)
    requires Descending(g) && Descending(s) && NonNegative(g) && NonNegative(s)
    requires Within(g, s) && Within(s, g)
    ensures SameAtTop(g, s, k)
    decreases k
  {
    if k > 0 {
      if g == [] {
        AllZero(s);
      } else if s == [] {
        AllZero(g);
      } else {
        MaxIsFirst(g, s);
        MaxIsFirst(s, g);
        WithinAfterMatch(g, s);
        WithinAfterMatch(s, g);
        SamePositives(g[1..], s[1..], k - 1);
        SameAfterMatch(g, s, k);
      }
    }
  }

  lemma {:induction false} TopOfGains<T>(ids: seq<T>, qrels: Judgements<T>, k: nat)
    ensures Gains(Take(ids, k), qrels) == Take(Gains(ids, qrels), k)
    decreases k
  {
    if ids != [] && k > 0 {
      TakeTail(ids, k);
      TakeTail(Gains(ids, qrels), k);
      TopOfGains(ids[1..], qrels, k - 1);
    }
  }

  /** The ranking lists every id with a positive relevance. */
  ghost predicate CoversRelevant<T>(ids: seq<T>, qrels: Judgements<T>) {
    forall i :: 0 <= i < |qrels| && qrels[i].1 > 0 ==> qrels[i].0 in ids
  }

  lemma {:induction false} CoveredCount<T>(ids: seq<T>, qrels: Judgements<T>, v: int)
    requires Distinct(ids) && DistinctIds(qrels) && CoversRelevant(ids, qrels) && v > 0
    ensures multiset(Relevances(qrels))[v] <= multiset(Gains(ids, qrels))[v]
    decreases qrels
  {
    if qrels != [] {
      CoveredCount(ids, qrels[1..], v);
      CountHead(Relevances(qrels), v);
      OneMoreJudgement(ids, qrels, v);
    }
  }

  lemma TakeTwice(s: seq<int>, k: nat)
    ensures Take(Take(s, k), k) == Take(s, k)
  {
  }

  lemma RatioOfEqual(x: real, y: real)
    requires x == y && y > 0.0
    ensures x / y == 1.0
  {
  }

  /** A ranking that lists all relevant ids, by descending relevance, has nDCG 1. */
  lemma SortedRankingIsPerfect<T>(ids: seq<T>, qrels: Judgements<T>, k: nat, log: Discount)
    requires PositiveAndGrowing(log) && Distinct(ids) && DistinctIds(qrels) && NonNegative(Relevances(qrels))
    requires Descending(Gains(ids, qrels)) && CoversRelevant(ids, qrels)
    requires NdcgAtK(ids, qrels, k, log).Some?
    ensures NdcgAtK(ids, qrels, k, log).value == 1.0
  {
    var (gains, ideal) := (Gains(ids, qrels), SortDescending(Relevances(qrels)));
    SortSorts(Relevances(qrels));
    SortedNonNegative(Relevances(qrels));
    GainsNonNegative(ids, qrels);
    GainsAreWithin(ids, qrels);
    forall v | v > 0
      ensures multiset(ideal)[v] <= multiset(gains)[v]
    {
      CoveredCount(ids, qrels, v);
    }
    SamePositives(gains, ideal, k);
    SameAtTopSameDcg(gains, ideal, log, 0, k);
    TopOfGains(ids, qrels, k);
    TakeTwice(gains, k);
    RatioOfEqual(DcgAtK(Gains(Take(ids, k), qrels), k, log), DcgAtK(ideal, k, log));
  }

  // ----- What each rank contributes

  /** The sum of `f` below `m`. */
  function SumBelow(f: nat -> real, m: nat): real {
    if m == 0 then 0.0 else SumBelow(f, m - 1) + f(m - 1)
  }

  lemma {:induction false} SumBelowHead(f: nat -> real, g: nat -> real, m: nat)
    requires forall i: nat :: i < m ==> g(i) == f(i + 1)
    ensures SumBelow(f, m + 1) == f(0) + SumBelow(g, m)
    decreases m
  {
    if m > 0 {
      SumBelowHead(f, g, m - 1);
    }
  }

  /** `f` gives the shares of `rels`, the first of which stands at rank `i`. */
  ghost predicate SharesFrom(rels: seq<int>, log: Discount, i: nat, f: nat -> real)
    requires forall j :: log(j) > 0.0
  {
    forall j: nat :: j < |rels| ==> f(j) == Share(rels[j], log(i + j))
  }

  lemma {:induction false} DcgFromIsSum(rels: seq<int>, log: Discount, i: nat, f: nat -> real)
    requires (forall j :: log(j) > 0.0) && SharesFrom(rels, log, i, f)
    ensures DcgFrom(rels, log, i) == SumBelow(f, |rels|)
    decreases rels
  {
    if rels != [] {
      var (rest, g) := (rels[1..], (j: nat) => f(j + 1));
      forall j: nat | j < |rest|
        ensures g(j) == Share(rest[j], log(i + 1 + j))
      {
        assert f(j + 1) == Share(rels[j + 1], log(i + (j + 1)));
      }
      DcgFromIsSum(rest, log, i + 1, g);
      SumBelowHead(f, g, |rest|);
      assert f(0) == Share(rels[0], log(i + 0));
    }
  }

  /** DCG@k is the sum, over the first `k` ranks, of each gain divided by its rank's discount. */
  lemma DcgIsSum(rels: seq<int>, k: nat, log: Discount, f: nat -> real)
    requires (forall j :: log(j) > 0.0) && SharesFrom(Take(rels, k), log, 0, f)
    ensures DcgAtK(rels, k, log) == SumBelow(f, if k < |rels| then k else |rels|)
  {
    DcgFromIsSum(Take(rels, k), log, 0, f);
  }

  /** Changing one gain changes DCG@k by the difference over the rank's discount, and by
      nothing if the rank is `k` or later. */
  lemma GainChange(rels: seq<int>, k: nat, log: Discount, i: nat, v: int)
    requires (forall j :: log(j) > 0.0) && i < |rels|
    ensures DcgAtK(rels[i := v], k, log) - DcgAtK(rels, k, log) == if i < k then (v - rels[i]) as real / log(i) else 0.0
  {
    if i < k {
      var top := Take(rels, k);
      assert Take(rels[i := v], k) == top[i := v];
      DcgOfReplaced(top, i, v, log, 0);
    } else {
      assert Take(rels[i := v], k) == Take(rels, k);
    }
  }

  lemma {:induction false} ZeroGains(rels: seq<int>, log: Discount, i: nat)
    requires (forall j :: log(j) > 0.0) && forall j :: 0 <= j < |rels| ==> rels[j] == 0
    ensures DcgFrom(rels, log, i) == 0.0
    decreases rels
  {
    if rels != [] {
      ZeroGains(rels[1..], log, i + 1);
    }
  }

  ghost predicate OnlyAt(rels: seq<int>, r: nat, v: int) {
    r < |rels| && rels[r] == v && forall j :: 0 <= j < |rels| && j != r ==> rels[j] == 0
  }

  /** A single gain. */
  lemma OneGain(rels: seq<int>, k: nat, log: Discount, r: nat, v: int)
    requires (forall j :: log(j) > 0.0) && OnlyAt(rels, r, v) && r < k
    ensures DcgAtK(rels, k, log) == v as real / log(r)
  {
    var none := rels[r := 0];
    assert none[r := v] == rels;
    GainChange(none, k, log, r, v);
    ZeroGains(Take(none, k), log, 0);
  }

  lemma {:induction false} LookupFinds<T>(qrels: Judgements<T>, id: T)
    requires DistinctIds(qrels)
    ensures forall j :: 0 <= j < |qrels| && qrels[j].0 == id ==> Lookup(qrels, id) == qrels[j].1
    ensures (forall j :: 0 <= j < |qrels| ==> qrels[j].0 != id) ==> Lookup(qrels, id) == 0
    decreases qrels
  {
    if qrels != [] {
      assert forall j :: 0 < j < |qrels| ==> qrels[j] == qrels[1..][j - 1];
      LookupFinds(qrels[1..], id);
    }
  }

  /** The gain at each rank is what the query's judgements say of the id there: 0 if nothing. */
  lemma {:induction false} GainIsJudged<T>(ids: seq<T>, qrels: Judgements<T>, i: nat)
    requires i < |ids| && DistinctIds(qrels)
    ensures |Gains(ids, qrels)| == |ids|
    ensures forall j :: 0 <= j < |qrels| && qrels[j].0 == ids[i] ==> Gains(ids, qrels)[i] == qrels[j].1
    ensures (forall j :: 0 <= j < |qrels| ==> qrels[j].0 != ids[i]) ==> Gains(ids, qrels)[i] == 0
    decreases ids
  {
    if i > 0 {
      GainIsJudged(ids[1..], qrels, i - 1);
    } else {
      LookupFinds(qrels, ids[0]);
      if |ids| > 1 {
        GainIsJudged(ids[1..], qrels, 0);
      }
    }
  }

  lemma {:induction false} CountOnlyAt(rels: seq<int>, r: nat, v: int)
    requires OnlyAt(rels, r, v) && v > 0
    ensures multiset(rels)[v] == 1
  {
    assert rels == rels[..r] + [v] + rels[r + 1..];
    assert v !in rels[..r] && v !in rels[r + 1..];
    assert multiset(rels) == multiset(rels[..r]) + multiset{v} + multiset(rels[r + 1..]);
  }

  lemma {:induction false} SortedOneGain(rels: seq<int>, r: nat, v: int)
    requires OnlyAt(rels, r, v) && v > 0
    ensures OnlyAt(SortDescending(rels), 0, v)
  {
    var sorted := SortDescending(rels);
    SortSorts(rels);
    CountOnlyAt(rels, r, v);
    assert multiset(sorted)[v] == 1 && v in multiset(sorted) && v in sorted;
    forall j | 0 <= j < |sorted|
      ensures sorted[j] == 0 || sorted[j] == v
    {
      assert sorted[j] in multiset(sorted) && sorted[j] in multiset(rels);
    }
    assert sorted[0] == v;
    CountHead(sorted, v);
    forall j | 0 < j < |sorted|
      ensures sorted[j] == 0
    {
      assert sorted[j] == sorted[1..][j - 1] && sorted[j] in multiset(sorted[1..]);
    }
  }

  lemma SameFactor(a: real, b: real, x: real)
    requires a * x == b * x && x > 0.0
    ensures a == b
  {
    assert (a - b) * x == 0.0;
  }

  lemma QuotientOf(a: real, b: real, c: real)
    requires b > 0.0 && a == b * c
    ensures a / b == c
  {
  }

  lemma RatioOfQuotients(v: real, x: real, y: real)
    requires v > 0.0 && x > 0.0 && y > 0.0
    ensures v / y > 0.0 && (v / x) / (v / y) == y / x
  {
    assert (v / x) * x == v && (v / y) * y == v;
    assert (y / x) * x == y;
    assert (v / y) * (y / x) * x == v == (v / x) * x;
    SameFactor((v / y) * (y / x), v / x, x);
    QuotientOf((v / y) * (y / x), v / y, y / x);
  }

  lemma {:induction false} RelevancesAt<T>(qrels: Judgements<T>)
    ensures |Relevances(qrels)| == |qrels| && forall j :: 0 <= j < |qrels| ==> Relevances(qrels)[j] == qrels[j].1
    decreases qrels
  {
    if qrels != [] {
      RelevancesAt(qrels[1..]);
    }
  }

  /** Where the only relevant id stands at rank `r`, nDCG is the first rank's discount over
      that rank's. */
  lemma OneRelevantId<T>(ids: seq<T>, qrels: Judgements<T>, k: nat, log: Discount, r: nat, i: nat, v: int)
    requires forall j :: log(j) > 0.0
    requires DistinctIds(qrels) && Distinct(Take(ids, k)) && r < k && r < |ids|
    requires i < |qrels| && qrels[i] == (ids[r], v)
    requires v > 0 && forall j :: 0 <= j < |qrels| && j != i ==> qrels[j].1 == 0
    ensures NdcgAtK(ids, qrels, k, log) == Some(log(0) / log(r))
  {
    var top := Take(ids, k);
    var gains := Gains(top, qrels);
    forall j: nat | j < |top|
      ensures |gains| == |top| && gains[j] == if j == r then v else 0
    {
      GainIsJudged(top, qrels, j);
      if exists l :: 0 <= l < |qrels| && qrels[l].0 == top[j] {
        var l :| 0 <= l < |qrels| && qrels[l].0 == top[j];
        assert gains[j] == qrels[l].1;
        assert l == i ==> top[j] == top[r];
        assert j == r ==> l == i;
      } else {
        assert qrels[i].0 == top[r];
      }
    }
    assert r < |top| && |gains| == |top| && gains[r] == v;
    OneGain(gains, k, log, r, v);
    RelevancesAt(qrels);
    SortedOneGain(Relevances(qrels), i, v);
    OneGain(SortDescending(Relevances(qrels)), k, log, 0, v);
    RatioOfQuotients(v as real, log(r), log(0));
  }

  lemma DcgIsPositive(s: seq<int>, k: nat, log: Discount)
    requires (forall j :: log(j) > 0.0) && NonNegative(s) && Descending(s)
    ensures DcgAtK(s, k, log) > 0.0 <==> k > 0 && s != [] && s[0] > 0
  {
    var top := Take(s, k);
    DcgNonNegative(top, log, 0);
    if k > 0 && s != [] {
      assert top[0] == s[0];
    }
  }

  lemma {:induction false} PositiveIsJudged(rels: seq<int>, sorted: seq<int>, i: nat)
    requires Descending(sorted) && multiset(sorted) == multiset(rels) && i < |rels| && rels[i] > 0
    ensures sorted != [] && sorted[0] > 0
  {
    assert rels[i] in multiset(rels) && rels[i] in multiset(sorted);
    var j :| 0 <= j < |sorted| && sorted[j] == rels[i];
  }

  lemma LargestIsFirst<T>(qrels: Judgements<T>, sorted: seq<int>)
    requires Descending(sorted) && multiset(sorted) == multiset(Relevances(qrels))
    ensures sorted != [] && sorted[0] > 0 <==> exists i :: 0 <= i < |qrels| && qrels[i].1 > 0
  {
    var rels := Relevances(qrels);
    RelevancesAt(qrels);
    if i :| 0 <= i < |qrels| && qrels[i].1 > 0 {
      PositiveIsJudged(rels, sorted, i);
    }
    if sorted != [] && sorted[0] > 0 {
      assert sorted[0] in multiset(sorted) && sorted[0] in multiset(rels);
      var i :| 0 <= i < |rels| && rels[i] == sorted[0];
      assert qrels[i].1 > 0;
    }
  }

  /** nDCG is defined exactly if the cut leaves room and some judged relevance is positive, and
      it is then the ratio of the ranking's DCG to the ideal one. */
  lemma NdcgIsRatio<T>(ids: seq<T>, qrels: Judgements<T>, k: nat, log: Discount, dcg: real, ideal: real)
    requires (forall j :: log(j) > 0.0) && NonNegative(Relevances(qrels))
    requires dcg == DcgAtK(Gains(Take(ids, k), qrels), k, log)
    requires ideal == DcgAtK(SortDescending(Relevances(qrels)), k, log)
    ensures NdcgAtK(ids, qrels, k, log).Some? <==> k > 0 && exists i :: 0 <= i < |qrels| && qrels[i].1 > 0
    ensures NdcgAtK(ids, qrels, k, log).Some? ==> ideal > 0.0 && NdcgAtK(ids, qrels, k, log).value == dcg / ideal
  {
    SortSorts(Relevances(qrels));
    SortedNonNegative(Relevances(qrels));
    DcgIsPositive(SortDescending(Relevances(qrels)), k, log);
    LargestIsFirst(qrels, SortDescending(Relevances(qrels)));
  }
}
