/** Ranking metrics: rank-biased overlap truncated at `k`, and normalised DCG. */
module RankMetrics {
  // ----- Rank-biased overlap

  function Times(x: real, y: real): real {
    x * y
  }

  function Pow(p: real, n: nat): real {
    if n == 0 then 1.0 else Times(p, Pow(p, n - 1))
  }

  function Take<T>(s: seq<T>, k: nat): seq<T> {
    if k < |s| then s[..k] else s
  }

  function Top<T(==)>(ids: seq<T>, d: nat): set<T> {
    set x | x in Take(ids, d)
  }

  /** The agreement at depth `d`: shared ids among the first `d`, per rank. */
  function Agreement<T(==)>(a: seq<T>, b: seq<T>): nat -> real {
    (d: nat) => if d == 0 then 0.0 else |Top(a, d) * Top(b, d)| as real / d as real
  }

  function Powers(p: real): nat -> real {
    (n: nat) => Pow(p, n)
  }

  /** The sum of `f(d) * w(d - 1)` for `d` from 1 to `k`. */
  function WeightedSum(f: nat -> real, w: nat -> real, k: nat): real {
    if k == 0 then 0.0 else WeightedSum(f, w, k - 1) + Times(f(k), w(k - 1))
  }

  /** The agreements at depths 1 to `k`, weighted geometrically. */
  function RboValue<T(==)>(a: seq<T>, b: seq<T>, p: real, k: nat): real {
    Times(1.0 - p, WeightedSum(Agreement(a, b), Powers(p), k))
  }

  lemma TopGrows<T>(ids: seq<T>, d: nat)
    requires d > 0
    ensures Top(ids, d) == Top(ids, d - 1) + if d - 1 < |ids| then {ids[d - 1]} else {}
  {
    if d - 1 < |ids| {
      assert Take(ids, d) == Take(ids, d - 1) + [ids[d - 1]];
    }
  }

  /** `sums(d)` is the weighted sum of the agreements down to depth `d`. */
  ghost predicate AreSums<T>(a: seq<T>, b: seq<T>, p: real, sums: nat -> real) {
    forall d: nat {:trigger WeightedSum(Agreement(a, b), Powers(p), d)} ::
      sums(d) == WeightedSum(Agreement(a, b), Powers(p), d)
  }

  lemma SumsOf<T>(a: seq<T>, b: seq<T>, p: real, k: nat) returns (sums: nat -> real)
    ensures AreSums(a, b, p, sums) && sums(0) == 0.0
    ensures RboValue(a, b, p, k) == Times(1.0 - p, sums(k))
  {
    sums := (d: nat) => WeightedSum(Agreement(a, b), Powers(p), d);
  }

  lemma DepthWeighs<T>(a: seq<T>, b: seq<T>, p: real, sums: nat -> real, d: nat, overlap: nat, weight: real)
    requires AreSums(a, b, p, sums) && d > 0 && overlap == |Top(a, d) * Top(b, d)| && weight == Pow(p, d - 1)
    ensures sums(d) == sums(d - 1) + Times(overlap as real / d as real, weight)
  {
    assert sums(d) == WeightedSum(Agreement(a, b), Powers(p), d);
    assert sums(d - 1) == WeightedSum(Agreement(a, b), Powers(p), d - 1);
  }

  /** Adds the weighted agreement at depth `d`. */
  method AddDepth<T>(ghost a: seq<T>, ghost b: seq<T>, p: real, ghost sums: nat -> real, d: nat, overlap: nat,
      total: real) returns (r: real)
    requires AreSums(a, b, p, sums) && d > 0 && overlap == |Top(a, d) * Top(b, d)| && total == sums(d - 1)
    ensures r == sums(d)
  {
    var weight := Pow(p, d - 1);
    DepthWeighs(a, b, p, sums, d, overlap, weight);
    r := total + Times(overlap as real / d as real, weight);
  }

  method Rbo<T(==)>(a: seq<T>, b: seq<T>, p: real, k: nat) returns (r: real)
    ensures r == RboValue(a, b, p, k)
  {
    var aSet: set<T> := {};
    var bSet: set<T> := {};
    var total := 0.0;
    ghost var sums := SumsOf(a, b, p, k);
    for d := 1 to k + 1
      invariant aSet == Top(a, d - 1) && bSet == Top(b, d - 1)
      invariant total == sums(d - 1)
    {
      TopGrows(a, d);
      TopGrows(b, d);
      if d - 1 < |a| {
        aSet := aSet + {a[d - 1]};
      }
      if d - 1 < |b| {
        bSet := bSet + {b[d - 1]};
      }
      assert aSet == Top(a, d) && bSet == Top(b, d);
      total := AddDepth(a, b, p, sums, d, |aSet * bSet|, total);
    }
    r := Times(1.0 - p, total);
  }

  lemma {:induction false} SameSum(f: nat -> real, g: nat -> real, w: nat -> real, k: nat)
    requires forall d: nat :: f(d) == g(d)
    ensures WeightedSum(f, w, k) == WeightedSum(g, w, k)
  {
    if k > 0 {
      SameSum(f, g, w, k - 1);
    }
  }

  lemma {:induction false} RboSymmetric<T>(a: seq<T>, b: seq<T>, p: real, k: nat)
    ensures RboValue(a, b, p, k) == RboValue(b, a, p, k)
  {
    forall d: nat
      ensures Agreement(a, b)(d) == Agreement(b, a)(d)
    {
      assert Top(a, d) * Top(b, d) == Top(b, d) * Top(a, d);
    }
    SameSum(Agreement(a, b), Agreement(b, a), Powers(p), k);
  }

  lemma {:induction false} TopIsSmall<T>(ids: seq<T>, d: nat)
    ensures |Top(ids, d)| <= d && |Top(ids, d)| <= |ids|
  {
    if d > 0 {
      TopIsSmall(ids, d - 1);
      TopGrows(ids, d);
    } else {
      assert Top(ids, 0) == {};
    }
  }

  lemma SubsetIsSmall<T>(s: set<T>, t: set<T>)
    requires s <= t
    ensures |s| <= |t| && (|s| == |t| ==> s == t)
  {
    assert t == s + (t - s);
  }

  /** At depth `d` the two lists agree on all `d` ids. */
  ghost predicate FullAgreement<T>(a: seq<T>, b: seq<T>, d: nat) {
    |Top(a, d) * Top(b, d)| == d
  }

  lemma QuotientBounds(x: real, d: real)
    requires d > 0.0 && 0.0 <= x <= d
    ensures 0.0 <= x / d <= 1.0 && (x / d == 1.0 <==> x == d)
  {
  }

  lemma AgreementBounds<T>(a: seq<T>, b: seq<T>, d: nat)
    requires d > 0
    ensures 0.0 <= Agreement(a, b)(d) <= 1.0
    ensures Agreement(a, b)(d) == 1.0 <==> FullAgreement(a, b, d)
  {
    SubsetIsSmall(Top(a, d) * Top(b, d), Top(a, d));
    TopIsSmall(a, d);
    QuotientBounds(|Top(a, d) * Top(b, d)| as real, d as real);
  }

  lemma {:induction false} PowPositive(p: real, n: nat)
    requires 0.0 < p
    ensures Pow(p, n) > 0.0
  {
    if n > 0 {
      PowPositive(p, n - 1);
    }
  }

  lemma ScaledBounds(x: real, y: real)
    requires 0.0 <= x <= 1.0 && y > 0.0
    ensures 0.0 <= Times(x, y) <= y && (Times(x, y) == y <==> x == 1.0)
  {
  }

  function Ones(): nat -> real {
    d => 1.0
  }

  lemma OneMoreTerm(p: real, sum: real, power: real)
    requires Times(1.0 - p, sum) == 1.0 - power
    ensures Times(1.0 - p, sum + Times(1.0, power)) == 1.0 - Times(p, power)
  {
  }

  ghost predicate GeometricAt(w: nat -> real, p: real, n: nat) {
    w(n + 1) == Times(p, w(n))
  }

  /** `w` is the geometric sequence of ratio `p`. */
  ghost predicate Geometric(w: nat -> real, p: real) {
    w(0) == 1.0 && forall n: nat :: GeometricAt(w, p, n)
  }

  lemma {:induction false} WeightsSum(p: real, one: nat -> real, w: nat -> real, k: nat, max: real)
    requires forall d :: one(d) == 1.0
    requires Geometric(w, p) && max == WeightedSum(one, w, k)
    ensures Times(1.0 - p, max) == 1.0 - w(k)
  {
    if k > 0 {
      var prior := WeightedSum(one, w, k - 1);
      WeightsSum(p, one, w, k - 1, prior);
      OneMoreTerm(p, prior, w(k - 1));
      assert GeometricAt(w, p, k - 1);
    }
  }

  /** Factors between 0 and 1 keep the sum below that of the weights, and reach it only if all are 1. */
  lemma {:induction false} SumWithinWeights(f: nat -> real, one: nat -> real, w: nat -> real, k: nat)
    requires forall d :: one(d) == 1.0
    requires forall d: nat :: 0.0 <= f(d) <= 1.0 && w(d) > 0.0
    ensures 0.0 <= WeightedSum(f, w, k) <= WeightedSum(one, w, k)
    ensures WeightedSum(f, w, k) == WeightedSum(one, w, k) <==> forall d: nat :: 0 < d <= k ==> f(d) == 1.0
  {
    if k > 0 {
      SumWithinWeights(f, one, w, k - 1);
      ScaledBounds(f(k), w(k - 1));
    }
  }

  /** Both lists start with the same `k` distinct ids in the same order. */
  ghost predicate SameStart<T>(a: seq<T>, b: seq<T>, k: nat) {
    && k <= |a| && k <= |b| && a[..k] == b[..k]
    && forall i, j :: 0 <= i < j < k ==> a[i] != a[j]
  }

  lemma FullTops<T>(a: seq<T>, b: seq<T>, k: nat)
    requires FullAgreement(a, b, k)
    ensures Top(a, k) == Top(b, k) && |Top(a, k)| == k && k <= |a| && k <= |b|
  {
    SubsetIsSmall(Top(a, k) * Top(b, k), Top(a, k));
    SubsetIsSmall(Top(a, k) * Top(b, k), Top(b, k));
    TopIsSmall(a, k);
    TopIsSmall(b, k);
  }

  lemma PrefixSnoc<T>(s: seq<T>, k: nat)
    requires 0 < k <= |s|
    ensures s[..k] == s[..k - 1] + [s[k - 1]]
  {
  }

  lemma NewOnTop<T>(ids: seq<T>, k: nat)
    requires 0 < k <= |ids| && |Top(ids, k)| == k
    ensures Top(ids, k) - Top(ids, k - 1) == {ids[k - 1]}
    ensures forall i :: 0 <= i < k - 1 ==> ids[i] != ids[k - 1]
  {
    TopIsSmall(ids, k - 1);
    TopGrows(ids, k);
    assert ids[k - 1] !in Top(ids, k - 1);
    assert forall i :: 0 <= i < k - 1 ==> ids[i] in Take(ids, k - 1);
  }

  lemma FullAgreementStep<T>(a: seq<T>, b: seq<T>, k: nat)
    requires k > 0 && SameStart(a, b, k - 1) && FullAgreement(a, b, k)
    ensures SameStart(a, b, k)
  {
    FullTops(a, b, k);
    NewOnTop(a, k);
    NewOnTop(b, k);
    assert Take(a, k - 1) == a[..k - 1] == b[..k - 1] == Take(b, k - 1);
    assert a[k - 1] in {b[k - 1]};
    PrefixSnoc(a, k);
    PrefixSnoc(b, k);
  }

  lemma {:induction false} SameStartAgrees<T>(a: seq<T>, b: seq<T>, k: nat)
    requires SameStart(a, b, k)
    ensures FullAgreement(a, b, k) && |Top(a, k)| == k && Top(a, k) == Top(b, k)
  {
    if k > 0 {
      assert a[..k - 1] == a[..k][..k - 1] && b[..k - 1] == b[..k][..k - 1];
      SameStartAgrees(a, b, k - 1);
      TopGrows(a, k);
      TopGrows(b, k);
      assert a[k - 1] == a[..k][k - 1] == b[..k][k - 1];
      assert a[k - 1] !in Take(a, k - 1);
    }
    assert Top(a, k) * Top(b, k) == Top(a, k);
  }

  lemma ShorterStart<T>(a: seq<T>, b: seq<T>, k: nat, d: nat)
    requires SameStart(a, b, k) && d <= k
    ensures SameStart(a, b, d)
  {
    assert a[..d] == a[..k][..d] && b[..d] == b[..k][..d];
  }

  lemma {:induction false} FullAgreementsGiveSameStart<T>(a: seq<T>, b: seq<T>, k: nat)
    requires forall d: nat :: 0 < d <= k ==> FullAgreement(a, b, d)
    ensures SameStart(a, b, k)
  {
    if k > 0 {
      FullAgreementsGiveSameStart(a, b, k - 1);
      FullAgreementStep(a, b, k);
    }
  }

  lemma FullAgreementsAreSameStart<T>(a: seq<T>, b: seq<T>, k: nat)
    ensures (forall d: nat :: 0 < d <= k ==> FullAgreement(a, b, d)) <==> SameStart(a, b, k)
  {
    if SameStart(a, b, k) {
      forall d: nat | 0 < d <= k
        ensures FullAgreement(a, b, d)
      {
        ShorterStart(a, b, k, d);
        SameStartAgrees(a, b, d);
      }
    }
    if forall d: nat :: 0 < d <= k ==> FullAgreement(a, b, d) {
      FullAgreementsGiveSameStart(a, b, k);
    }
  }

  lemma MultiplyOrder(f: real, x: real, y: real)
    requires f > 0.0 && 0.0 <= x <= y
    ensures 0.0 <= Times(f, x) <= Times(f, y) && (Times(f, x) == Times(f, y) <==> x == y)
  {
    if x < y {
      assert f * (y - x) > 0.0;
    }
  }

  lemma PowersAreGeometric(p: real)
    requires 0.0 < p
    ensures Geometric(Powers(p), p) && forall n :: Powers(p)(n) > 0.0
  {
    forall n: nat
      ensures Powers(p)(n) > 0.0
    {
      PowPositive(p, n);
    }
    assert forall n: nat :: GeometricAt(Powers(p), p, n);
  }

  lemma {:induction false} SumBounds(f: nat -> real, w: nat -> real, p: real, k: nat, full: bool, sum: real)
    requires 0.0 < p < 1.0 && Geometric(w, p) && forall n :: w(n) > 0.0
    requires forall d: nat :: 0.0 <= f(d) <= 1.0
    requires full <==> forall d: nat :: 0 < d <= k ==> f(d) == 1.0
    requires sum == WeightedSum(f, w, k)
    ensures 0.0 <= Times(1.0 - p, sum) <= 1.0 - w(k)
    ensures Times(1.0 - p, sum) == 1.0 - w(k) <==> full
  {
    var max := WeightedSum(Ones(), w, k);
    SumWithinWeights(f, Ones(), w, k);
    WeightsSum(p, Ones(), w, k, max);
    MultiplyOrder(1.0 - p, sum, max);
  }

  /** Truncated RBO lies between 0 and `1 - p^k`, and reaches the top exactly when both lists
      start with the same `k` distinct ids in the same order. */
  lemma {:induction false} RboBounds<T>(a: seq<T>, b: seq<T>, p: real, k: nat)
    requires 0.0 < p < 1.0
    ensures 0.0 <= RboValue(a, b, p, k) <= 1.0 - Pow(p, k)
    ensures RboValue(a, b, p, k) == 1.0 - Pow(p, k) <==> SameStart(a, b, k)
  {
    forall d: nat
      ensures 0.0 <= Agreement(a, b)(d) <= 1.0 && (d > 0 ==> (Agreement(a, b)(d) == 1.0 <==> FullAgreement(a, b, d)))
    {
      if d > 0 {
        AgreementBounds(a, b, d);
      }
    }
    FullAgreementsAreSameStart(a, b, k);
    PowersAreGeometric(p);
    SumBounds(Agreement(a, b), Powers(p), p, k, SameStart(a, b, k), WeightedSum(Agreement(a, b), Powers(p), k));
  }

  // ----- What each shared id contributes

  ghost function FirstIndex<T>(s: seq<T>, x: T): (i: nat)
    requires x in s
    ensures i < |s| && s[i] == x && x !in s[..i]
  {
    if s[0] == x then 0
    else
      assert s == [s[0]] + s[1..];
      var i := FirstIndex(s[1..], x) + 1;
      assert s[..i] == [s[0]] + s[1..][..i - 1];
      i
  }

  /** The depth from which on both lists have shown the id. */
  ghost function SharedFrom<T>(a: seq<T>, b: seq<T>, x: T): nat
    requires x in a && x in b
  {
    var (i, j) := (FirstIndex(a, x), FirstIndex(b, x));
    (if i < j then j else i) + 1
  }

  /** The sum of `u(d)` for `d` from `m` to `k`. */
  ghost function SumFromTo(u: nat -> real, m: nat, k: nat): real {
    if k < m || k == 0 then 0.0 else SumFromTo(u, m, k - 1) + u(k)
  }

  /** Rank `i` of `a` shows an id for the first time, and `b` has it too. */
  ghost predicate ShowsShared<T>(a: seq<T>, b: seq<T>, i: nat)
    requires i < |a|
  {
    a[i] !in a[..i] && a[i] in b
  }

  /** Over the shared ids among the first `n` of `a`: each id's weights from the depth at which
      it is shared to depth `k`. */
  ghost function SharedSum<T>(a: seq<T>, b: seq<T>, u: nat -> real, k: nat, n: nat): real
    requires n <= |a|
  {
    if n == 0 then 0.0
    else
      var term := if ShowsShared(a, b, n - 1) then SumFromTo(u, SharedFrom(a, b, a[n - 1]), k) else 0.0;
      SharedSum(a, b, u, k, n - 1) + term
  }

  ghost function SharedCount<T>(a: seq<T>, b: seq<T>, k: nat, n: nat): nat
    requires n <= |a|
  {
    if n == 0 then 0
    else
      var one := if ShowsShared(a, b, n - 1) && SharedFrom(a, b, a[n - 1]) <= k then 1 else 0;
      SharedCount(a, b, k, n - 1) + one
  }

  /** `u`, `c` times. */
  ghost function Scale(c: nat, u: real): real {
    if c == 0 then 0.0 else Scale(c - 1, u) + u
  }

  lemma {:induction false} ScaleIsTimes(c: nat, u: real)
    ensures Scale(c, u) == Times(c as real, u)
    decreases c
  {
    if c > 0 {
      ScaleIsTimes(c - 1, u);
    }
  }

  lemma {:induction false} OneDepthMore<T>(a: seq<T>, b: seq<T>, u: nat -> real, k: nat, n: nat)
    requires n <= |a| && k > 0
    ensures SharedSum(a, b, u, k, n) == SharedSum(a, b, u, k - 1, n) + Scale(SharedCount(a, b, k, n), u(k))
    decreases n
  {
    if n > 0 {
      OneDepthMore(a, b, u, k, n - 1);
    }
  }

  lemma {:induction false} NothingAtDepthZero<T>(a: seq<T>, b: seq<T>, u: nat -> real, n: nat)
    requires n <= |a|
    ensures SharedSum(a, b, u, 0, n) == 0.0
    decreases n
  {
    if n > 0 {
      NothingAtDepthZero(a, b, u, n - 1);
    }
  }

  lemma InTop<T>(ids: seq<T>, d: nat, x: T)
    ensures x in Top(ids, d) <==> x in ids && FirstIndex(ids, x) < d
  {
    if x in Top(ids, d) {
      var i :| 0 <= i < |Take(ids, d)| && Take(ids, d)[i] == x;
      assert ids[i] == x;
    }
    if x in ids && FirstIndex(ids, x) < d {
      assert Take(ids, d)[FirstIndex(ids, x)] == x;
    }
  }

  lemma FirstShown<T>(a: seq<T>, i: nat)
    requires i < |a| && a[i] !in a[..i]
    ensures FirstIndex(a, a[i]) == i
  {
  }

  lemma RepeatedAtTop<T>(a: seq<T>, n: nat)
    requires 0 < n <= |a|
    ensures Top(a, n) == Top(a, n - 1) + {a[n - 1]}
    ensures a[n - 1] in Top(a, n - 1) <==> a[n - 1] in a[..n - 1]
  {
    TopGrows(a, n);
    assert Take(a, n - 1) == a[..n - 1];
  }

  lemma OverlapGrows<T>(top: set<T>, other: set<T>, x: T)
    ensures |(top + {x}) * other| == |top * other| + if x in other && x !in top then 1 else 0
  {
    if x in other && x !in top {
      assert (top + {x}) * other == top * other + {x};
    } else {
      assert (top + {x}) * other == top * other;
    }
  }

  lemma ShownWithin<T>(a: seq<T>, b: seq<T>, k: nat, n: nat)
    requires 0 < n <= |a|
    ensures ShowsShared(a, b, n - 1) && SharedFrom(a, b, a[n - 1]) <= k
       <==> n <= k && a[n - 1] in Top(b, k) && a[n - 1] !in a[..n - 1]
  {
    InTop(b, k, a[n - 1]);
    if a[n - 1] !in a[..n - 1] {
      FirstShown(a, n - 1);
    }
  }

  lemma OverlapStep<T>(a: seq<T>, b: seq<T>, k: nat, n: nat)
    requires 0 < n <= |a| && n <= k
    ensures |Top(a, n) * Top(b, k)|
         == |Top(a, n - 1) * Top(b, k)| + if ShowsShared(a, b, n - 1) && SharedFrom(a, b, a[n - 1]) <= k then 1 else 0
  {
    ShownWithin(a, b, k, n);
    RepeatedAtTop(a, n);
    OverlapGrows(Top(a, n - 1), Top(b, k), a[n - 1]);
  }

  lemma {:induction false} CountWithin<T>(a: seq<T>, b: seq<T>, k: nat, n: nat)
    requires n <= |a| && n <= k
    ensures SharedCount(a, b, k, n) == |Top(a, n) * Top(b, k)|
    decreases n
  {
    if n > 0 {
      CountWithin(a, b, k, n - 1);
      OverlapStep(a, b, k, n);
    } else {
      assert Top(a, 0) == {};
    }
  }

  lemma {:induction false} CountBeyond<T>(a: seq<T>, b: seq<T>, k: nat, n: nat)
    requires k <= n <= |a|
    ensures SharedCount(a, b, k, n) == SharedCount(a, b, k, k)
    decreases n
  {
    if k < n {
      CountBeyond(a, b, k, n - 1);
      ShownWithin(a, b, k, n);
    }
  }

  /** The shared ids counted one by one are the overlap. */
  lemma CountIsOverlap<T>(a: seq<T>, b: seq<T>, k: nat)
    ensures SharedCount(a, b, k, |a|) == |Top(a, k) * Top(b, k)|
  {
    if k < |a| {
      CountBeyond(a, b, k, |a|);
      CountWithin(a, b, k, k);
    } else {
      CountWithin(a, b, k, |a|);
      assert Top(a, k) == Top(a, |a|);
    }
  }

  lemma QuotientMoves(x: real, d: real, w: real)
    requires d > 0.0
    ensures Times(x / d, w) == Times(x, w / d)
  {
  }

  lemma DepthAdds<T>(a: seq<T>, b: seq<T>, u: nat -> real, k: nat)
    requires k > 0
    ensures SharedSum(a, b, u, k, |a|) == SharedSum(a, b, u, k - 1, |a|) + Scale(|Top(a, k) * Top(b, k)|, u(k))
  {
    OneDepthMore(a, b, u, k, |a|);
    CountIsOverlap(a, b, k);
  }

  /** At depth `d`, the weighted agreement is `u(d)` for every shared id. */
  ghost predicate PerSharedId<T>(a: seq<T>, b: seq<T>, f: nat -> real, w: nat -> real, u: nat -> real, d: nat)
    requires d > 0
  {
    Times(f(d), w(d - 1)) == Scale(|Top(a, d) * Top(b, d)|, u(d))
  }

  lemma {:induction false} WeightedAgreements<T>(a: seq<T>, b: seq<T>, f: nat -> real, w: nat -> real, u: nat -> real,
      k: nat)
    requires forall d: nat :: d > 0 ==> PerSharedId(a, b, f, w, u, d)
    ensures WeightedSum(f, w, k) == SharedSum(a, b, u, k, |a|)
    decreases k
  {
    if k == 0 {
      NothingAtDepthZero(a, b, u, |a|);
    } else {
      WeightedAgreements(a, b, f, w, u, k - 1);
      DepthAdds(a, b, u, k);
      assert PerSharedId(a, b, f, w, u, k);
    }
  }

  lemma AgreementPerSharedId<T>(a: seq<T>, b: seq<T>, p: real, u: nat -> real, d: nat)
    requires d > 0 && u(d) == Pow(p, d - 1) / d as real
    ensures PerSharedId(a, b, Agreement(a, b), Powers(p), u, d)
  {
    ScaleIsTimes(|Top(a, d) * Top(b, d)|, u(d));
    QuotientMoves(|Top(a, d) * Top(b, d)| as real, d as real, Pow(p, d - 1));
  }

  lemma RboOfSum<T>(a: seq<T>, b: seq<T>, p: real, k: nat, sum: real)
    requires sum == WeightedSum(Agreement(a, b), Powers(p), k)
    ensures RboValue(a, b, p, k) == (1.0 - p) * sum
  {
  }

  lemma SharedIsWeighted<T>(a: seq<T>, b: seq<T>, p: real, k: nat, u: nat -> real)
    requires forall d: nat :: d > 0 ==> u(d) == Pow(p, d - 1) / d as real
    ensures WeightedSum(Agreement(a, b), Powers(p), k) == SharedSum(a, b, u, k, |a|)
  {
    forall d: nat | d > 0
      ensures PerSharedId(a, b, Agreement(a, b), Powers(p), u, d)
    {
      AgreementPerSharedId(a, b, p, u, d);
    }
    WeightedAgreements(a, b, Agreement(a, b), Powers(p), u, k);
  }

  /** Truncated RBO, id by id: every id that both lists hold contributes `p^(d - 1) / d` for each
      depth `d` up to `k` from which on both have shown it, all scaled by `1 - p`. */
  lemma {:induction false} RboIsShared<T>(a: seq<T>, b: seq<T>, p: real, k: nat, u: nat -> real, sum: real)
    requires forall d: nat :: d > 0 ==> u(d) == Pow(p, d - 1) / d as real
    requires sum == SharedSum(a, b, u, k, |a|)
    ensures RboValue(a, b, p, k) == (1.0 - p) * sum
  {
    SharedIsWeighted(a, b, p, k, u);
    RboOfSum(a, b, p, k, sum);
  }

  lemma {:induction false} PowIsPower(p: real, m: nat, n: nat)
    ensures Pow(p, 0) == 1.0 && Pow(p, 1) == p && Pow(p, m + n) == Pow(p, m) * Pow(p, n)
    decreases m
  {
    if m > 0 {
      PowIsPower(p, m - 1, n);
    }
  }
}
