/** Ward's cost between point sets, in closed form over the original squared
    distances, and the two facts nearest-neighbour chains rest on: the
    Lance-Williams recurrence and reducibility.

    `c` is the condensed matrix of squared distances between `n` points. It may be
    any non-negative matrix: nothing here needs the distances to be Euclidean. */
module Ward {
  import opened Condensed

  /** The spread of each cluster. */
  type Energy = set<nat> -> real

  /** What joining `a` and `b` costs: twice the growth of the total energy. */
  function Cost(e: Energy, a: set<nat>, b: set<nat>): real {
    2.0 * (e(a + b) - e(a) - e(b))
  }

  lemma CostSymmetric(e: Energy, a: set<nat>, b: set<nat>)
    ensures Cost(e, a, b) == Cost(e, b, a)
  {
    assert a + b == b + a;
  }

  ghost predicate Separate(x: set<nat>, y: set<nat>, i: set<nat>) {
    && x != {} && y != {} && i != {}
    && x !! y && x !! i && y !! i
  }

  ghost function Mass(e: Energy, s: set<nat>): real {
    |s| as real * e(s)
  }

  /** Energy times size is a sum over pairs: for three clusters, the sum over the
      whole is given by the sums over two of them at a time. */
  ghost predicate PairSumLaw(e: Energy, x: set<nat>, y: set<nat>, i: set<nat>) {
    Mass(e, x + y + i) == Mass(e, x + y) + Mass(e, x + i) + Mass(e, y + i) - Mass(e, x) - Mass(e, y) - Mass(e, i)
  }

  ghost predicate PairEnergy(e: Energy) {
    forall x, y, i :: Separate(x, y, i) ==> PairSumLaw(e, x, y, i)
  }

  /** The squared distances from point `i` to the members of `s` at or above `j`. */
  function RowSum(c: seq<real>, n: nat, i: nat, s: set<nat>, j: nat): real
    requires |c| == PairCount(n) && i < j <= n
    decreases n - j
  {
    if j == n then 0.0
    else (if j in s then c[CondensedIndex(n, i, j)] else 0.0) + RowSum(c, n, i, s, j + 1)
  }

  /** The squared distances over the unordered pairs of members of `s` at or above `i`. */
  function PairSumFrom(c: seq<real>, n: nat, s: set<nat>, i: nat): real
    requires |c| == PairCount(n) && i <= n
    decreases n - i
  {
    if i == n then 0.0
    else (if i in s then RowSum(c, n, i, s, i + 1) else 0.0) + PairSumFrom(c, n, s, i + 1)
  }

  /** The squared distances over all unordered pairs of members of `s`. */
  function PairSum(c: seq<real>, n: nat, s: set<nat>): real
    requires |c| == PairCount(n)
  {
    PairSumFrom(c, n, s, 0)
  }

  lemma {:induction false} RowSumOfUnion(c: seq<real>, n: nat, i: nat, a: set<nat>, b: set<nat>, j: nat)
    requires |c| == PairCount(n) && i < j <= n && a !! b
    ensures RowSum(c, n, i, a + b, j) == RowSum(c, n, i, a, j) + RowSum(c, n, i, b, j)
    decreases n - j
  {
    if j < n {
      RowSumOfUnion(c, n, i, a, b, j + 1);
    }
  }

  /** The pair sum of a three-way union, by its two-way unions. */
  lemma {:induction false} PairSumOfThree(c: seq<real>, n: nat, a: set<nat>, b: set<nat>, e: set<nat>, i: nat)
    requires |c| == PairCount(n) && i <= n
    requires a !! b && a !! e && b !! e
    ensures PairSumFrom(c, n, a + b + e, i)
         == PairSumFrom(c, n, a + b, i) + PairSumFrom(c, n, a + e, i) + PairSumFrom(c, n, b + e, i)
            - PairSumFrom(c, n, a, i) - PairSumFrom(c, n, b, i) - PairSumFrom(c, n, e, i)
    decreases n - i
  {
    if i < n {
      PairSumOfThree(c, n, a, b, e, i + 1);
      RowSumOfUnion(c, n, i, a + b, e, i + 1);
      RowSumOfUnion(c, n, i, a, b, i + 1);
      RowSumOfUnion(c, n, i, a, e, i + 1);
      RowSumOfUnion(c, n, i, b, e, i + 1);
    }
  }

  /** The recurrence as an identity between sizes and energies. */
  lemma RecurrenceAlgebra(nx: real, ny: real, ni: real, x: real, y: real, i: real,
      xy: real, xi: real, yi: real, xyi: real)
    requires (nx + ny + ni) * xyi == (nx + ny) * xy + (nx + ni) * xi + (ny + ni) * yi - nx * x - ny * y - ni * i
    ensures (ni + nx) * (2.0 * (xi - x - i)) + (ni + ny) * (2.0 * (yi - y - i)) - ni * (2.0 * (xy - x - y))
         == (nx + ny + ni) * (2.0 * (xyi - xy - i))
  {
  }

  lemma MassOfUnion(e: Energy, a: set<nat>, b: set<nat>, na: real, nb: real)
    requires a !! b && na == |a| as real && nb == |b| as real
    ensures Mass(e, a + b) == (na + nb) * e(a + b) && |a + b| as real == na + nb
  {
  }

  /** The Lance-Williams recurrence: the costs between three disjoint clusters
      determine the cost between one of them and the union of the other two. */
  lemma LanceWilliams(e: Energy, x: set<nat>, y: set<nat>, i: set<nat>, nx: real, ny: real, ni: real)
    requires PairEnergy(e) && Separate(x, y, i)
    requires nx == |x| as real && ny == |y| as real && ni == |i| as real
    ensures (ni + nx) * Cost(e, x, i) + (ni + ny) * Cost(e, y, i) - ni * Cost(e, x, y)
         == (nx + ny + ni) * Cost(e, x + y, i)
  {
    assert PairSumLaw(e, x, y, i);
    MassOfUnion(e, x, y, nx, ny);
    MassOfUnion(e, x, i, nx, ni);
    MassOfUnion(e, y, i, ny, ni);
    MassOfUnion(e, x + y, i, nx + ny, ni);
    RecurrenceAlgebra(nx, ny, ni, e(x), e(y), e(i), e(x + y), e(x + i), e(y + i), e(x + y + i));
  }

  lemma QuotientNonNegative(a: real, b: real)
    requires a > 0.0 && a * b >= 0.0
    ensures b >= 0.0
  {
  }

  lemma ProductNonNegative(a: real, b: real)
    requires a >= 0.0 && b >= 0.0
    ensures a * b >= 0.0
  {
  }

  /** A weighted mean of two numbers at or above `h`, less a multiple of one at or
      below it, stays at or above `h`. */
  lemma WeightedFloor(nx: real, ny: real, ni: real, xi: real, yi: real, xy: real, v: real, h: real)
    requires nx > 0.0 && ny > 0.0 && ni > 0.0
    requires (ni + nx) * xi + (ni + ny) * yi - ni * xy == (nx + ny + ni) * v
    requires xi >= h && yi >= h && xy <= h
    ensures v >= h
  {
    ProductNonNegative(ni + nx, xi - h);
    ProductNonNegative(ni + ny, yi - h);
    ProductNonNegative(ni, h - xy);
    assert (nx + ny + ni) * (v - h) == (ni + nx) * (xi - h) + (ni + ny) * (yi - h) + ni * (h - xy);
    QuotientNonNegative(nx + ny + ni, v - h);
  }

  /** Reducibility: joining two clusters at cost at most `h` brings their union no
      closer than `h` to any cluster both were at least `h` away from. */
  lemma Reducible(e: Energy, x: set<nat>, y: set<nat>, i: set<nat>, h: real)
    requires PairEnergy(e) && Separate(x, y, i)
    requires Cost(e, x, y) <= h <= Cost(e, x, i) && h <= Cost(e, y, i)
    ensures Cost(e, x + y, i) >= h
  {
    LanceWilliams(e, x, y, i, |x| as real, |y| as real, |i| as real);
    WeightedFloor(|x| as real, |y| as real, |i| as real, Cost(e, x, i), Cost(e, y, i), Cost(e, x, y),
      Cost(e, x + y, i), h);
  }

  /** The radicand of the update, over squared distances. */
  function Radicand(xi: real, yi: real, xy: real, nx: nat, ny: nat, ni: nat): real
    requires nx + ny + ni > 0
  {
    var t := 1.0 / (nx + ny + ni) as real;
    (ni + nx) as real * t * xi + (ni + ny) as real * t * yi - ni as real * t * xy
  }

  /** The update the program writes into the matrix: the radicand, clamped at 0. */
  function WardUpdate(xi: real, yi: real, xy: real, nx: nat, ny: nat, ni: nat): (d: real)
    requires nx + ny + ni > 0
  {
    var v := Radicand(xi, yi, xy, nx, ny, ni);
    if v > 0.0 then v else 0.0
  }

  lemma UpdateAlgebra(p: real, q: real, r: real, total: real, xi: real, yi: real, xy: real, v: real)
    requires total > 0.0 && p * xi + q * yi - r * xy == total * v
    ensures p * (1.0 / total) * xi + q * (1.0 / total) * yi - r * (1.0 / total) * xy == v
  {
    var t := 1.0 / total;
    assert t * total == 1.0;
    assert p * t * xi + q * t * yi - r * t * xy == t * (p * xi + q * yi - r * xy);
    assert t * (total * v) == (t * total) * v;
  }

  /** For two clusters at most `h` apart and a third at least `h >= 0` from both, the
      update gives exactly the cost to their union: the clamp never fires. */
  lemma UpdateIsCost(e: Energy, x: set<nat>, y: set<nat>, i: set<nat>, h: real)
    requires PairEnergy(e) && Separate(x, y, i)
    requires 0.0 <= h && Cost(e, x, y) <= h <= Cost(e, x, i) && h <= Cost(e, y, i)
    ensures WardUpdate(Cost(e, x, i), Cost(e, y, i), Cost(e, x, y), |x|, |y|, |i|) == Cost(e, x + y, i) >= h
    ensures Radicand(Cost(e, x, i), Cost(e, y, i), Cost(e, x, y), |x|, |y|, |i|) == Cost(e, x + y, i)
  {
    Reducible(e, x, y, i, h);
    LanceWilliams(e, x, y, i, |x| as real, |y| as real, |i| as real);
    UpdateAlgebra((|i| + |x|) as real, (|i| + |y|) as real, |i| as real, (|x| + |y| + |i|) as real,
      Cost(e, x, i), Cost(e, y, i), Cost(e, x, y), Cost(e, x + y, i));
  }

  lemma {:induction false} RowSumOfSingleton(c: seq<real>, n: nat, i: nat, p: nat, j: nat)
    requires |c| == PairCount(n) && i < j <= n
    ensures RowSum(c, n, i, {p}, j) == if j <= p < n then c[CondensedIndex(n, i, p)] else 0.0
    decreases n - j
  {
    if j < n {
      RowSumOfSingleton(c, n, i, p, j + 1);
    }
  }

  lemma {:induction false} PairSumOfSingleton(c: seq<real>, n: nat, p: nat, i: nat)
    requires |c| == PairCount(n) && i <= n
    ensures PairSumFrom(c, n, {p}, i) == 0.0
    decreases n - i
  {
    if i < n {
      PairSumOfSingleton(c, n, p, i + 1);
      RowSumOfSingleton(c, n, i, p, i + 1);
    }
  }

  lemma {:induction false} PairSumOfTwo(c: seq<real>, n: nat, p: nat, q: nat, i: nat)
    requires |c| == PairCount(n) && p < q < n && i <= n
    ensures PairSumFrom(c, n, {p, q}, i) == if i <= p then c[CondensedIndex(n, p, q)] else 0.0
    decreases n - i
  {
    if i < n {
      PairSumOfTwo(c, n, p, q, i + 1);
      assert {p, q} == {p} + {q};
      RowSumOfUnion(c, n, i, {p}, {q}, i + 1);
      RowSumOfSingleton(c, n, i, p, i + 1);
      RowSumOfSingleton(c, n, i, q, i + 1);
    }
  }

  /** Ward's energy: the pair sum of a cluster, per member. */
  function MeanPairSum(c: seq<real>, n: nat, s: set<nat>): real
    requires |c| == PairCount(n)
  {
    if s == {} then 0.0 else PairSum(c, n, s) / |s| as real
  }

  function WardEnergy(c: seq<real>, n: nat): Energy
    requires |c| == PairCount(n)
  {
    s => MeanPairSum(c, n, s)
  }

  lemma MassIsPairSum(c: seq<real>, n: nat, s: set<nat>)
    requires |c| == PairCount(n) && s != {}
    ensures Mass(WardEnergy(c, n), s) == PairSum(c, n, s)
  {
  }

  lemma LawFromSums(e: Energy, t: set<nat> -> real, x: set<nat>, y: set<nat>, i: set<nat>)
    requires Separate(x, y, i)
    requires forall s :: s != {} ==> Mass(e, s) == t(s)
    requires t(x + y + i) == t(x + y) + t(x + i) + t(y + i) - t(x) - t(y) - t(i)
    ensures PairSumLaw(e, x, y, i)
  {
  }

  lemma WardEnergyIsPairEnergy(c: seq<real>, n: nat)
    requires |c| == PairCount(n)
    ensures PairEnergy(WardEnergy(c, n))
  {
    var e := WardEnergy(c, n);
    forall s | s != {}
      ensures Mass(e, s) == PairSum(c, n, s)
    {
      MassIsPairSum(c, n, s);
    }
    forall x, y, i | Separate(x, y, i)
      ensures PairSumLaw(e, x, y, i)
    {
      PairSumOfThree(c, n, x, y, i, 0);
      LawFromSums(e, s => PairSum(c, n, s), x, y, i);
    }
  }

  lemma EnergyOfSingleton(c: seq<real>, n: nat, p: nat)
    requires |c| == PairCount(n)
    ensures WardEnergy(c, n)({p}) == 0.0
  {
    PairSumOfSingleton(c, n, p, 0);
  }

  /** On singletons the cost is the input squared distance. */
  lemma CostOfSingletons(c: seq<real>, n: nat, p: nat, q: nat)
    requires |c| == PairCount(n) && p < n && q < n && p != q
    ensures Cost(WardEnergy(c, n), {p}, {q}) == c[CondensedIndex(n, p, q)]
  {
    var (lo, hi) := if p < q then (p, q) else (q, p);
    PairSumOfTwo(c, n, lo, hi, 0);
    assert {p} + {q} == {lo, hi};
    EnergyOfSingleton(c, n, p);
    EnergyOfSingleton(c, n, q);
  }
}
