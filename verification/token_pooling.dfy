/** Token pooling end to end: the chain's merges, stably sorted by height, cut to `k`
    clusters with a union-find and labelled by first appearance, against greedy Ward
    clustering and against the cut of a linkage matrix. */
module TokenPooling {
  import opened Condensed
  import opened Ward
  import opened Agglomeration
  import opened Ties
  import opened NnChain
  import opened ChainTrace
  import opened UnionFind
  import opened Labels
  import opened Linkage
  import opened Results

  function Squares(condensed: seq<real>): (c: seq<real>)
    ensures |c| == |condensed| && forall k :: 0 <= k < |c| ==> c[k] == condensed[k] * condensed[k]
  {
    seq(|condensed|, k requires 0 <= k < |condensed| => condensed[k] * condensed[k])
  }

  lemma ProductPositive(a: real, b: real)
    requires a > 0.0 && b > 0.0
    ensures a * b > 0.0
  {
  }

  /** Non-negative distances compare as their squares do. */
  lemma SquaresOrder(a: real, b: real)
    requires a >= 0.0 && b >= 0.0
    ensures a * a < b * b <==> a < b
    ensures a * a >= 0.0
  {
    if a < b {
      ProductPositive(b - a, b + a);
    } else {
      ProductNonNegative(a - b, a + b);
    }
  }

  ghost predicate CutsTo(c: seq<real>, n: nat, k: nat, labels: seq<nat>, run: seq<Join>)
    requires |c| == PairCount(n) && k <= n
  {
    && |run| == n - k && GreedyRun(WardEnergy(c, n), Singletons(n), run)
    && Labelled(labels, After(Singletons(n), run))
  }

  /** `labels` cuts a greedy Ward clustering of the squared distances `c` into `k` clusters. */
  ghost predicate GreedyWardCut(c: seq<real>, n: nat, k: nat, labels: seq<nat>)
    requires |c| == PairCount(n) && k <= n
  {
    |labels| == n && exists run :: CutsTo(c, n, k, labels, run)
  }

  /** The chain's rules and the stable sort lead to `labels`. */
  ghost predicate IsAnswer(c: seq<real>, n: nat, k: nat, labels: seq<nat>)
    requires |c| == PairCount(n) && 1 <= k <= n
  {
    exists merges, run, steps :: Answers(WardEnergy(c, n), n, k, labels, merges, run, steps)
  }

  lemma HeightsAreKeys(merges: seq<Merge>, run: seq<Join>, keys: seq<real>)
    requires Records(merges, run) && |keys| == |merges|
    requires forall t :: 0 <= t < |keys| ==> keys[t] == merges[t].height
    ensures keys == Heights(run)
  {
  }

  /** What the chain and the sort deliver: a complete greedy run, and its merges by slot. */
  ghost predicate Sorted(e: Energy, n: nat, merges: seq<Merge>, order: seq<nat>, run: seq<Join>) {
    && n > 0 && |run| == |order| == n - 1
    && IndicesIn(order, 0, |merges|)
    && (forall t :: 0 <= t < |run| ==> merges[order[t]] == Merge(run[t].height, run[t].x, run[t].y))
    && GreedyRun(e, Singletons(n), run)
  }

  lemma PickedRecords(merges: seq<Merge>, chainRun: seq<Join>, order: seq<nat>, run: seq<Join>)
    requires Records(merges, chainRun) && IndicesIn(order, 0, |merges|) && run == Picked(chainRun, order)
    ensures forall t :: 0 <= t < |run| ==> merges[order[t]] == Merge(run[t].height, run[t].x, run[t].y)
  {
  }

  lemma ChainRunSortsGreedy(e: Energy, n: nat, chainRun: seq<Join>)
    requires PairEnergy(e) && n > 0 && |chainRun| == n - 1 && ReciprocalRun(e, Singletons(n), chainRun)
    ensures GreedyRun(e, Singletons(n), Picked(chainRun, StableOrder(Heights(chainRun), 0)))
  {
    SingletonsArePartition(n);
    ReciprocalIsJoinRun(e, Singletons(n), chainRun);
    JoinRunIsPartition(e, Singletons(n), chainRun);
    SortedChainRunIsGreedy(e, Singletons(n), chainRun);
  }

  lemma {:induction false} SortedIsGreedy(e: Energy, n: nat, merges: seq<Merge>, keys: seq<real>, chainRun: seq<Join>)
    requires PairEnergy(e) && n > 0 && |merges| == n - 1 && Records(merges, chainRun)
    requires |keys| == |merges| && forall t :: 0 <= t < |keys| ==> keys[t] == merges[t].height
    requires ReciprocalRun(e, Singletons(n), chainRun)
    ensures Sorted(e, n, merges, StableOrder(keys, 0), Picked(chainRun, StableOrder(keys, 0)))
  {
    assert keys == Heights(chainRun);
    var order := StableOrder(keys, 0);
    PickedRecords(merges, chainRun, order, Picked(chainRun, order));
    ChainRunSortsGreedy(e, n, chainRun);
  }

  lemma RootsLabel(parent: seq<nat>, p: Partition, roots: seq<nat>, labels: seq<nat>)
    requires Represents(parent, p) && PartitionOf(p, |parent|) && |roots| == |parent|
    requires forall i :: 0 <= i < |roots| ==> roots[i] == Root(parent, i)
    requires SamePattern(roots, labels) && InFirstSeenOrder(labels)
    ensures Labelled(labels, p)
  {
    forall i: nat, j: nat | i < |labels| && j < |labels|
      ensures labels[i] == labels[j] <==> Together(p, i, j)
    {
      assert Together(p, i, i) && Together(p, j, j);
      var s :| s in p && i in s;
      var t :| t in p && j in t;
      assert LargestIn(Root(parent, i), s) && LargestIn(Root(parent, j), t);
      assert roots[i] == roots[j] <==> labels[i] == labels[j];
    }
  }

  lemma JoinPartitionsPoints(e: Energy, n: nat, p: Partition, j: Join)
    requires PartitionOf(p, n) && Joins(e, p, j)
    ensures PartitionOf(Apply(p, j), n)
  {
    ApplyIsPartition(e, p, j);
    forall i: nat | i < n
      ensures Together(Apply(p, j), i, i)
    {
      assert Together(p, i, i);
      var s :| s in p && i in s;
      assert (if s == j.a || s == j.b then j.a + j.b else s) in Apply(p, j);
    }
  }

  lemma {:induction false} RunPartitionsPoints(e: Energy, n: nat, p: Partition, js: seq<Join>)
    requires PartitionOf(p, n) && JoinRun(e, p, js)
    ensures PartitionOf(After(p, js), n)
    decreases js
  {
    if js != [] {
      JoinPartitionsPoints(e, n, p, js[0]);
      RunPartitionsPoints(e, n, Apply(p, js[0]), js[1..]);
    }
  }

  lemma SingletonsPartitionPoints(n: nat)
    ensures PartitionOf(Singletons(n), n) && |Singletons(n)| == n
  {
    SingletonsArePartition(n);
    forall i: nat | i < n
      ensures Together(Singletons(n), i, i)
    {
      assert {i} in Singletons(n);
    }
  }

  /** The first `n - k` joins of a greedy run leave `k` clusters. */
  lemma CutPartitionsPoints(e: Energy, n: nat, k: nat, run: seq<Join>)
    requires 1 <= k <= n && |run| == n - 1 && GreedyRun(e, Singletons(n), run)
    ensures GreedyRun(e, Singletons(n), run[..n - k])
    ensures PartitionOf(After(Singletons(n), run[..n - k]), n) && |After(Singletons(n), run[..n - k])| == k
  {
    SingletonsPartitionPoints(n);
    GreedyPrefix(e, Singletons(n), run, n - k);
    GreedyIsJoinRun(e, Singletons(n), run[..n - k]);
    RunPartitionsPoints(e, n, Singletons(n), run[..n - k]);
  }

  /** Replays the lowest `n - k` merges and labels the components. */
  method Cut(ghost e: Energy, n: nat, k: nat, merges: seq<Merge>, order: seq<nat>, ghost run: seq<Join>)
      returns (labels: seq<nat>)
    requires 1 <= k <= n && Sorted(e, n, merges, order, run)
    ensures GreedyRun(e, Singletons(n), run[..n - k])
    ensures |labels| == n && Labelled(labels, After(Singletons(n), run[..n - k]))
    ensures forall v: nat :: v in labels <==> v < k
  {
    GreedyIsJoinRun(e, Singletons(n), run);
    var parent := Replay(n, merges, order, n - k, e, run);
    ghost var forest := parent[..];
    var roots := Roots(parent);
    labels := FirstAppearance(roots);
    CutPartitionsPoints(e, n, k, run);
    RootsLabel(forest, After(Singletons(n), run[..n - k]), roots, labels);
    LabelsAreExact(labels, After(Singletons(n), run[..n - k]));
  }

  /** Clusters `n` points into `k`. `run` is the complete sorted run the labels are cut from.
      Where distances tie, `Answers` says which of the greedy runs it is: the one the rules for
      starting and walking the chain lead to, and `AnswerIsUnique` that there is only one. */
  method PortLabels(condensed: seq<real>, n: nat, k: nat) returns (labels: seq<nat>, ghost run: seq<Join>)
    requires |condensed| == PairCount(n) && forall i :: 0 <= i < |condensed| ==> condensed[i] >= 0.0
    requires 1 <= k <= n
    ensures GreedyWardCut(Squares(condensed), n, k, labels)
    ensures forall v: nat :: v in labels <==> v < k
    ensures |run| == n - 1 && GreedyRun(WardEnergy(Squares(condensed), n), Singletons(n), run)
    ensures |labels| == n && Labelled(labels, After(Singletons(n), run[..n - k]))
    ensures IsAnswer(Squares(condensed), n, k, labels)
  {
    var c := Squares(condensed);
    forall i | 0 <= i < |c|
      ensures c[i] >= 0.0
    {
      SquaresOrder(condensed[i], 0.0);
    }
    var merges, _, chainRun, _, steps := NnChain.Run(c, n);
    var keys := seq(|merges|, m requires 0 <= m < |merges| => merges[m].height);
    var order := StableOrder(keys, 0);
    WardEnergyIsPairEnergy(c, n);
    run := Picked(chainRun, order);
    SortedIsGreedy(WardEnergy(c, n), n, merges, keys, chainRun);
    labels := Cut(WardEnergy(c, n), n, k, merges, order, run);
    assert CutsTo(c, n, k, labels, run[..n - k]);
    HeightsAreKeys(merges, chainRun, keys);
    assert Answers(WardEnergy(c, n), n, k, labels, merges, chainRun, steps);
  }

  // ----- Ties

  /** The distances leave one answer. */
  lemma {:induction false} OneAnswer(c: seq<real>, n: nat, k: nat, labels: seq<nat>, labels': seq<nat>)
    requires |c| == PairCount(n) && 1 <= k <= n
    requires IsAnswer(c, n, k, labels) && IsAnswer(c, n, k, labels')
    ensures labels == labels'
  {
    var e := WardEnergy(c, n);
    var merges, run, steps :| Answers(e, n, k, labels, merges, run, steps);
    var merges', run', steps' :| Answers(e, n, k, labels', merges', run', steps');
    AnswerIsUnique(e, n, k, labels, merges, run, steps, labels', merges', run', steps');
  }

  lemma SquaresOfEqual(condensed: seq<real>, d: real, h: real)
    requires (forall i :: 0 <= i < |condensed| ==> condensed[i] == d) && h == d * d
    ensures forall i :: 0 <= i < |condensed| ==> Squares(condensed)[i] == h
  {
  }

  /** If all distances are equal, the first `n - k + 1` points are pooled and the others left alone. */
  lemma {:induction false} EqualDistances(condensed: seq<real>, n: nat, k: nat, d: real, labels: seq<nat>)
    requires |condensed| == PairCount(n) && (forall i :: 0 <= i < |condensed| ==> condensed[i] == d) && 1 <= k <= n
    requires IsAnswer(Squares(condensed), n, k, labels)
    ensures labels == seq(n, i => if i <= n - k then 0 else i - (n - k))
  {
    var (c, h) := (Squares(condensed), d * d);
    SquaresOfEqual(condensed, d, h);
    var merges, run, steps :| Answers(WardEnergy(c, n), n, k, labels, merges, run, steps);
    EquidistantAnswer(c, n, k, h, labels, merges, run, steps);
  }

  // ----- The cheap cut against the simple cut

  /** The run's joins as linkage rows. */
  ghost function RowsOf(n: nat, run: seq<Join>): (z: seq<(nat, nat)>)
    requires forall t :: 0 <= t < |run| ==> run[t].x < n && run[t].y < n
    ensures |z| == |run|
  {
    seq(|run|, t requires 0 <= t < |run| => (NodeIds(n, run, t)[run[t].x], NodeIds(n, run, t)[run[t].y]))
  }

  /** Every run has a linkage. */
  lemma RunHasLinkage(e: Energy, n: nat, run: seq<Join>)
    requires JoinRun(e, Singletons(n), run)
    ensures forall t :: 0 <= t < |run| ==> run[t].x < n && run[t].y < n
    ensures LinkageOf(RowsOf(n, run), n, run)
  {
    forall t | 0 <= t < |run|
      ensures run[t].x < n && run[t].y < n
    {
      SingletonsPartitionPoints(n);
      JoinRunPrefix(e, Singletons(n), run, t);
      RunPartitionsPoints(e, n, Singletons(n), run[..t]);
      JoinRunAt(e, Singletons(n), run, t);
    }
  }

  lemma SameNames(n: nat, p: Partition, p': Partition, labels: seq<nat>, cut: seq<nat>)
    requires PartitionOf(p, n) && PartitionOf(p', n)
    requires |labels| == |cut| == n && Labelled(labels, p) && Labelled(cut, p')
    ensures labels == cut <==> p == p'
  {
    LabelsDecidePartition(labels, cut, p, p');
  }

  /** Cutting the linkage `z` into `k` clusters succeeds and leaves the clusters `p`. */
  ghost predicate CutsInto(z: seq<(nat, nat)>, n: nat, k: nat, p: Partition)
    requires k <= n
  {
    NodesAfter(z, n, n - k).Some? && Clusters(NodesAfter(z, n, n - k).value) == p
  }

  /** Whatever linkage lists a run's merges as rows, cutting it leaves the run's clusters,
      and gives the same labels. */
  lemma {:induction false} CutsAgree(e: Energy, z: seq<(nat, nat)>, n: nat, k: nat, run: seq<Join>,
      labels: seq<nat>, cut: seq<nat>)
    requires 1 <= k <= n && |run| == n - 1 && JoinRun(e, Singletons(n), run) && LinkageOf(z, n, run)
    requires |labels| == n && Labelled(labels, After(Singletons(n), run[..n - k]))
    requires NodesAfter(z, n, n - k).Some? ==> |cut| == n && Labelled(cut, Clusters(NodesAfter(z, n, n - k).value))
    ensures NodesAfter(z, n, n - k).Some? && labels == cut
  {
    LinkageClusters(e, z, n, run, n - k);
    SingletonsPartitionPoints(n);
    JoinRunPrefix(e, Singletons(n), run, n - k);
    RunPartitionsPoints(e, n, Singletons(n), run[..n - k]);
    var p := After(Singletons(n), run[..n - k]);
    SameNames(n, p, p, labels, cut);
  }

  /** `z` lists the merges of the complete greedy Ward run `run`. */
  ghost predicate GreedyLinkage(e: Energy, z: seq<(nat, nat)>, n: nat, run: seq<Join>) {
    n > 0 && |run| == n - 1 && GreedyRun(e, Singletons(n), run) && LinkageOf(z, n, run)
  }

  /** So it is, but the ties of its first `n - k` merges are harmless. */
  ghost predicate HarmlessLinkage(e: Energy, z: seq<(nat, nat)>, n: nat, k: nat, run: seq<Join>)
    requires 1 <= k <= n
  {
    GreedyLinkage(e, z, n, run) && HarmlessTies(e, Singletons(n), run[..n - k])
  }

  lemma {:induction false} HarmlessCutsAgree(e: Energy, z: seq<(nat, nat)>, n: nat, k: nat, run: seq<Join>,
      other: seq<Join>, labels: seq<nat>, cut: seq<nat>)
    requires PairEnergy(e) && 1 <= k <= n && |run| == n - 1 && GreedyRun(e, Singletons(n), run)
    requires HarmlessLinkage(e, z, n, k, other)
    requires |labels| == n && Labelled(labels, After(Singletons(n), run[..n - k]))
    requires NodesAfter(z, n, n - k).Some? ==> |cut| == n && Labelled(cut, Clusters(NodesAfter(z, n, n - k).value))
    ensures NodesAfter(z, n, n - k).Some? && labels == cut
  {
    CutPartitionsPoints(e, n, k, run);
    SingletonsArePartition(n);
    HarmlessTiesEndAlike(e, Singletons(n), other[..n - k], run[..n - k]);
    GreedyIsJoinRun(e, Singletons(n), other);
    CutsAgree(e, z, n, k, other, labels, cut);
  }

  /** Every greedy run up to the cut is the beginning of a complete one, which has a linkage. */
  lemma CompletedLinkage(e: Energy, n: nat, k: nat, js: seq<Join>) returns (z: seq<(nat, nat)>, other: seq<Join>)
    requires 1 <= k <= n && |js| == n - k && GreedyRun(e, Singletons(n), js)
    ensures GreedyLinkage(e, z, n, other) && other[..n - k] == js
  {
    SingletonsArePartition(n);
    other := GreedyContinues(e, Singletons(n), js, n - 1);
    GreedyIsJoinRun(e, Singletons(n), other);
    RunHasLinkage(e, n, other);
    z := RowsOf(n, other);
  }

  /** Every greedy Ward linkage, cut into `k` clusters, leaves the clusters `p`. */
  ghost predicate EveryLinkageCutsInto(e: Energy, n: nat, k: nat, p: Partition)
    requires k <= n
  {
    forall z, other :: GreedyLinkage(e, z, n, other) ==> CutsInto(z, n, k, p)
  }

  lemma {:induction false} OneOutcomeCutsAlike(e: Energy, n: nat, k: nat, p: Partition)
    requires 1 <= k <= n && EndsOnlyIn(e, Singletons(n), n - k, p)
    ensures EveryLinkageCutsInto(e, n, k, p)
  {
    forall z, other | GreedyLinkage(e, z, n, other)
      ensures CutsInto(z, n, k, p)
    {
      GreedyIsJoinRun(e, Singletons(n), other);
      LinkageClusters(e, z, n, other, n - k);
      CutPartitionsPoints(e, n, k, other);
    }
  }

  lemma {:induction false} CutsAlikeIsOneOutcome(e: Energy, n: nat, k: nat, p: Partition)
    requires 1 <= k <= n && EveryLinkageCutsInto(e, n, k, p)
    ensures EndsOnlyIn(e, Singletons(n), n - k, p)
  {
    forall js | GreedyRun(e, Singletons(n), js) && |js| == n - k
      ensures After(Singletons(n), js) == p
    {
      var z, other := CompletedLinkage(e, n, k, js);
      GreedyIsJoinRun(e, Singletons(n), other);
      LinkageClusters(e, z, n, other, n - k);
    }
  }

  /** When ties can matter: if no two tied pairs share a cluster, every greedy Ward linkage
      leaves the clusters of `run` exactly when the first `n - k` merges join all tied pairs. */
  lemma {:induction false} LinkagesAgreeIffHarmless(e: Energy, n: nat, k: nat, run: seq<Join>)
    requires PairEnergy(e) && 1 <= k <= n && |run| == n - 1 && GreedyRun(e, Singletons(n), run)
    requires DisjointTies(e, Singletons(n), run[..n - k])
    ensures HarmlessTies(e, Singletons(n), run[..n - k])
       <==> EveryLinkageCutsInto(e, n, k, After(Singletons(n), run[..n - k]))
  {
    CutPartitionsPoints(e, n, k, run);
    SingletonsArePartition(n);
    var p := After(Singletons(n), run[..n - k]);
    HarmlessIffOneOutcome(e, Singletons(n), run[..n - k]);
    if HarmlessTies(e, Singletons(n), run[..n - k]) {
      OneOutcomeCutsAlike(e, n, k, p);
    }
    if EveryLinkageCutsInto(e, n, k, p) {
      CutsAlikeIsOneOutcome(e, n, k, p);
    }
  }

  /** Compares the clustering with the cut of a linkage: the answer says whether the cut
      succeeds and leaves the same clusters. It does for the linkage of the clustering's own
      sorted merges, and for any other greedy Ward linkage whose ties are harmless. */
  method SameAsLinkage(condensed: seq<real>, n: nat, k: nat, z: seq<(nat, nat)>, ghost other: seq<Join>)
      returns (same: bool, ghost run: seq<Join>)
    requires |condensed| == PairCount(n) && forall i :: 0 <= i < |condensed| ==> condensed[i] >= 0.0
    requires 1 <= k <= n
    ensures |run| == n - 1 && GreedyRun(WardEnergy(Squares(condensed), n), Singletons(n), run)
    ensures same <==> CutsInto(z, n, k, After(Singletons(n), run[..n - k]))
    ensures LinkageOf(z, n, run) ==> same
    ensures HarmlessLinkage(WardEnergy(Squares(condensed), n), z, n, k, other) ==> same
  {
    var labels: seq<nat>;
    labels, run := PortLabels(condensed, n, k);
    var cut := CutLinkage(z, n, k);
    same := cut == Some(labels);
    ghost var e := WardEnergy(Squares(condensed), n);
    WardEnergyIsPairEnergy(Squares(condensed), n);
    CutPartitionsPoints(e, n, k, run);
    ghost var cutLabels := if cut.Some? then cut.value else [];
    if cut.Some? {
      SameNames(n, After(Singletons(n), run[..n - k]), Clusters(NodesAfter(z, n, n - k).value), labels, cut.value);
    }
    if LinkageOf(z, n, run) {
      GreedyIsJoinRun(e, Singletons(n), run);
      CutsAgree(e, z, n, k, run, labels, cutLabels);
    }
    if HarmlessLinkage(e, z, n, k, other) {
      HarmlessCutsAgree(e, z, n, k, run, other, labels, cutLabels);
    }
  }

  // ----- Conservation

  /** Ward's energy: the pair sum per member, so nothing for a single point. */
  ghost predicate MeanEnergy(e: Energy, c: seq<real>, n: nat)
    requires |c| == PairCount(n)
  {
    && (forall s :: s != {} ==> Mass(e, s) == PairSum(c, n, s))
    && forall i: nat :: e({i}) == 0.0
  }

  lemma WardEnergyIsMean(c: seq<real>, n: nat)
    requires |c| == PairCount(n)
    ensures MeanEnergy(WardEnergy(c, n), c, n)
  {
    forall s: set<nat> | s != {}
      ensures Mass(WardEnergy(c, n), s) == PairSum(c, n, s)
    {
      MassIsPairSum(c, n, s);
    }
    forall i: nat
      ensures WardEnergy(c, n)({i}) == 0.0
    {
      EnergyOfSingleton(c, n, i);
    }
  }

  lemma {:induction false} SinglePointsHaveNoEnergy(e: Energy, p: Partition)
    requires forall i: nat :: e({i}) == 0.0
    requires forall s :: s in p ==> exists i: nat :: s == {i}
    ensures TotalEnergy(e, p) == 0.0
    decreases |p|
  {
    if p != {} {
      var s :| s in p;
      TotalEnergyWithout(e, p, s);
      SinglePointsHaveNoEnergy(e, p - {s});
    }
  }

  lemma {:induction false} SumOfConcat(r: seq<real>, s: seq<real>)
    ensures SumOf(r + s) == SumOf(r) + SumOf(s)
    decreases r
  {
    if r == [] {
      assert r + s == s;
    } else {
      SumOfConcat(r[1..], s);
      assert (r + s)[1..] == r[1..] + s;
    }
  }

  /** One row of the condensed matrix. */
  lemma {:induction false} RowIsSlice(c: seq<real>, n: nat, i: nat, s: set<nat>, j: nat)
    requires |c| == PairCount(n) && i < j <= n && forall k: nat :: k < n ==> k in s
    requires 0 <= RowStart(n, i) && RowStart(n, i + 1) <= |c|
    ensures RowSum(c, n, i, s, j) == SumOf(c[RowStart(n, i) + (j - i - 1)..RowStart(n, i + 1)])
    decreases n - j
  {
    var (lo, hi) := (RowStart(n, i) + (j - i - 1), RowStart(n, i + 1));
    if j < n {
      RowIsSlice(c, n, i, s, j + 1);
      assert CondensedIndex(n, i, j) == lo;
      assert c[lo..hi][1..] == c[lo + 1..hi];
    }
  }

  /** Over all points, the pair sum is the sum of the condensed matrix. */
  lemma {:induction false} PairSumIsSum(c: seq<real>, n: nat, s: set<nat>, i: nat)
    requires |c| == PairCount(n) && i <= n && forall k: nat :: k < n ==> k in s
    requires 0 <= RowStart(n, i) <= |c|
    ensures PairSumFrom(c, n, s, i) == SumOf(c[RowStart(n, i)..])
    decreases n - i
  {
    if i < n {
      PairCountMonotone(n - i - 1, n);
      PairSumIsSum(c, n, s, i + 1);
      RowIsSlice(c, n, i, s, i + 1);
      var (lo, hi) := (RowStart(n, i), RowStart(n, i + 1));
      SumOfConcat(c[lo..hi], c[hi..]);
      assert c[lo..hi] + c[hi..] == c[lo..];
    }
  }

  /** A complete run ends in the one cluster of all points. */
  lemma OneClusterLeft(e: Energy, n: nat, run: seq<Join>) returns (all: set<nat>)
    requires n > 0 && |run| == n - 1 && JoinRun(e, Singletons(n), run)
    ensures After(Singletons(n), run) == {all} && |all| == n && forall i: nat :: i in all <==> i < n
  {
    var p := After(Singletons(n), run);
    SingletonsPartitionPoints(n);
    JoinRunIsPartition(e, Singletons(n), run);
    RunPartitionsPoints(e, n, Singletons(n), run);
    all :| all in p;
    assert |p - {all}| == 0;
    forall i: nat
      ensures i in all <==> i < n
    {
      if i < n {
        assert Together(p, i, i);
      }
    }
    HoldsBelow(all, n);
    AllBelow(all, n);
  }

  lemma MeanOfAll(e: Energy, c: seq<real>, n: nat, all: set<nat>)
    requires n > 0 && |c| == PairCount(n) && |all| == n && forall i: nat :: i in all <==> i < n
    requires MeanEnergy(e, c, n)
    ensures e(all) * n as real == SumOf(c)
  {
    PairSumIsSum(c, n, all, 0);
    assert c[0..] == c;
    assert all != {};
    assert Mass(e, all) == PairSum(c, n, all);
  }

  lemma TotalOfRun(e: Energy, n: nat, run: seq<Join>, all: set<nat>)
    requires JoinRun(e, Singletons(n), run) && After(Singletons(n), run) == {all}
    requires TotalEnergy(e, Singletons(n)) == 0.0
    ensures SumOf(Heights(run)) == 2.0 * e(all)
  {
    SingletonsArePartition(n);
    HeightsAreEnergy(e, Singletons(n), run);
    TotalEnergyWithout(e, {all}, all);
    assert {all} - {all} == {};
  }

  lemma Scaled(a: real, b: real, m: real, total: real)
    requires a == 2.0 * b && b * m == total
    ensures a * m == 2.0 * total
  {
  }

  lemma HeightsTimesSize(e: Energy, n: nat, run: seq<Join>, all: set<nat>, total: real, sum: real)
    requires JoinRun(e, Singletons(n), run) && After(Singletons(n), run) == {all} && sum == SumOf(Heights(run))
    requires TotalEnergy(e, Singletons(n)) == 0.0 && e(all) * n as real == total
    ensures sum * n as real == 2.0 * total
  {
    TotalOfRun(e, n, run, all);
    Scaled(sum, e(all), n as real, total);
  }

  lemma {:induction false} HeightsOfMeanEnergy(e: Energy, c: seq<real>, n: nat, run: seq<Join>, sum: real)
    requires n > 0 && |c| == PairCount(n) && MeanEnergy(e, c, n)
    requires |run| == n - 1 && JoinRun(e, Singletons(n), run) && sum == SumOf(Heights(run))
    ensures sum * n as real == 2.0 * SumOf(c)
  {
    var all := OneClusterLeft(e, n, run);
    MeanOfAll(e, c, n, all);
    SinglePointsHaveNoEnergy(e, Singletons(n));
    HeightsTimesSize(e, n, run, all, SumOf(c), sum);
  }

  /** The squared heights of all `n - 1` merges sum to `2 / n` times the sum of the squared
      distances, whatever the order of the merges. */
  lemma HeightsAreConserved(c: seq<real>, n: nat, run: seq<Join>, sum: real)
    requires n > 0 && |c| == PairCount(n) && |run| == n - 1 && JoinRun(WardEnergy(c, n), Singletons(n), run)
    requires sum == SumOf(Heights(run))
    ensures sum * n as real == 2.0 * SumOf(c)
  {
    WardEnergyIsMean(c, n);
    HeightsOfMeanEnergy(WardEnergy(c, n), c, n, run, sum);
  }

  // ----- What a merge depends on

  ghost predicate IsPoint(s: set<nat>) {
    exists i: nat :: s == {i}
  }

  /** `s` is a single point or was formed by one of the first `t` joins. */
  ghost predicate FormedBy(run: seq<Join>, t: nat, s: set<nat>)
    requires t <= |run|
  {
    IsPoint(s) || exists u :: 0 <= u < t && s == run[u].a + run[u].b
  }

  lemma {:induction false} ClustersAreFormed(e: Energy, n: nat, run: seq<Join>, t: nat)
    requires JoinRun(e, Singletons(n), run) && t <= |run|
    ensures forall s :: s in After(Singletons(n), run[..t]) ==> FormedBy(run, t, s)
    decreases t
  {
    SingletonsArePartition(n);
    if t > 0 {
      ClustersAreFormed(e, n, run, t - 1);
      JoinRunAt(e, Singletons(n), run, t - 1);
    }
  }

  /** Every prefix of the sorted merges is closed under the merges it depends on. */
  lemma PrefixIsClosed(e: Energy, n: nat, run: seq<Join>, t: nat)
    requires JoinRun(e, Singletons(n), run) && t < |run|
    ensures FormedBy(run, t, run[t].a) && FormedBy(run, t, run[t].b)
  {
    SingletonsArePartition(n);
    ClustersAreFormed(e, n, run, t);
    JoinRunAt(e, Singletons(n), run, t);
  }

  // ----- Merged-away slots

  ghost predicate IsTop(p: Partition, i: nat) {
    exists s :: s in p && LargestIn(i, s)
  }

  /** The points that are the largest of their cluster. */
  ghost function Tops(p: Partition, n: nat): set<nat> {
    set i: nat | i < n && IsTop(p, i)
  }

  lemma JoinRemovesTop(e: Energy, n: nat, p: Partition, j: Join)
    requires PartitionOf(p, n) && Joins(e, p, j)
    ensures j.x in Tops(p, n) && j.x < n - 1 && Tops(Apply(p, j), n) == Tops(p, n) - {j.x}
  {
    assert j.x in j.a && j.y in j.b && LargestIn(j.y, j.a + j.b);
    forall i: nat | i < n
      ensures IsTop(Apply(p, j), i) <==> IsTop(p, i) && i != j.x
    {
      if s :| s in Apply(p, j) && LargestIn(i, s) {
        if s in p {
          assert s !! j.a;
        } else {
          assert j.y in s && i == j.y && LargestIn(i, j.b);
        }
      }
      if t :| t in p && LargestIn(i, t) && i != j.x {
        assert t != j.a;
        if t == j.b {
          assert j.a + j.b in Apply(p, j) && LargestIn(i, j.a + j.b);
        } else {
          assert t in Apply(p, j);
        }
      }
    }
  }

  ghost function MergedAway(js: seq<Join>): set<nat> {
    set t | 0 <= t < |js| :: js[t].x
  }

  lemma MergedAwayOfCons(js: seq<Join>)
    requires js != []
    ensures MergedAway(js) == MergedAway(js[1..]) + {js[0].x}
  {
    forall i
      ensures i in MergedAway(js) <==> i == js[0].x || i in MergedAway(js[1..])
    {
      if t :| 0 <= t < |js[1..]| && js[1..][t].x == i {
        assert js[t + 1].x == i;
      }
    }
  }

  /** Each join merges away a slot of its own: no slot is merged away twice. */
  lemma {:induction false} RunRemovesTops(e: Energy, n: nat, p: Partition, js: seq<Join>)
    requires PartitionOf(p, n) && JoinRun(e, p, js)
    ensures |MergedAway(js)| == |js| && MergedAway(js) <= Tops(p, n)
    ensures forall i :: i in MergedAway(js) ==> i < n - 1
    decreases js
  {
    if js != [] {
      JoinRemovesTop(e, n, p, js[0]);
      JoinPartitionsPoints(e, n, p, js[0]);
      RunRemovesTops(e, n, Apply(p, js[0]), js[1..]);
      MergedAwayOfCons(js);
    }
  }

  lemma AllBut(d: set<nat>, m: nat, i: nat)
    requires i < m && i !in d && forall v :: v in d ==> v < m
    ensures |d| < m
  {
    AllBelow(d + {i}, m);
  }

  /** A complete run merges away each of the slots 0 to `n - 2` exactly once, and never slot `n - 1`. */
  lemma SlotsMergedAway(e: Energy, n: nat, run: seq<Join>)
    requires n > 0 && |run| == n - 1 && JoinRun(e, Singletons(n), run)
    ensures |MergedAway(run)| == |run| && forall i: nat :: i in MergedAway(run) <==> i < n - 1
  {
    SingletonsPartitionPoints(n);
    RunRemovesTops(e, n, Singletons(n), run);
    forall i: nat | i < n - 1
      ensures i in MergedAway(run)
    {
      if i !in MergedAway(run) {
        AllBut(MergedAway(run), n - 1, i);
      }
    }
  }

  // ----- What the chain's merges keep

  function MergeHeights(merges: seq<Merge>): (r: seq<real>)
    ensures |r| == |merges|
  {
    seq(|merges|, t requires 0 <= t < |merges| => merges[t].height)
  }

  /** A slot merged away is in no later merge. */
  lemma {:induction false} MergedAwayOnce(e: Energy, n: nat, p: Partition, js: seq<Join>, t: nat, u: nat)
    requires PartitionOf(p, n) && JoinRun(e, p, js) && t < u < |js|
    ensures js[t].x != js[u].x
    decreases t
  {
    var rest := js[1..];
    JoinRemovesTop(e, n, p, js[0]);
    JoinPartitionsPoints(e, n, p, js[0]);
    assert rest[u - 1] == js[u];
    if t == 0 {
      RunRemovesTops(e, n, Apply(p, js[0]), rest);
      assert rest[u - 1].x in MergedAway(rest);
    } else {
      assert rest[t - 1] == js[t];
      MergedAwayOnce(e, n, Apply(p, js[0]), rest, t - 1, u - 1);
    }
  }

  lemma SameHeights(merges: seq<Merge>, run: seq<Join>)
    requires Records(merges, run)
    ensures MergeHeights(merges) == Heights(run)
  {
  }

  ghost predicate MergesAway(merges: seq<Merge>, i: nat) {
    exists t :: 0 <= t < |merges| && merges[t].x == i
  }

  lemma ChainMergesAway(e: Energy, n: nat, merges: seq<Merge>, run: seq<Join>)
    requires n > 0 && |merges| == n - 1 && Records(merges, run) && JoinRun(e, Singletons(n), run)
    ensures forall t, u :: 0 <= t < u < |merges| ==> merges[t].x != merges[u].x
    ensures forall i: nat :: MergesAway(merges, i) <==> i < n - 1
  {
    SingletonsPartitionPoints(n);
    SlotsMergedAway(e, n, run);
    forall t, u | 0 <= t < u < |merges|
      ensures merges[t].x != merges[u].x
    {
      MergedAwayOnce(e, n, Singletons(n), run, t, u);
    }
    forall i: nat
      ensures MergesAway(merges, i) <==> i in MergedAway(run)
    {
      if t :| 0 <= t < |run| && run[t].x == i {
        assert merges[t].x == i;
      }
    }
  }

  lemma {:induction false} ChainOfMeanEnergy(e: Energy, c: seq<real>, n: nat, merges: seq<Merge>, run: seq<Join>,
      sum: real)
    requires n > 0 && |c| == PairCount(n) && MeanEnergy(e, c, n)
    requires |merges| == n - 1 && Records(merges, run) && ReciprocalRun(e, Singletons(n), run)
    requires sum == SumOf(MergeHeights(merges))
    ensures sum * n as real == 2.0 * SumOf(c)
    ensures forall t, u :: 0 <= t < u < |merges| ==> merges[t].x != merges[u].x
    ensures forall i: nat :: MergesAway(merges, i) <==> i < n - 1
  {
    ReciprocalIsJoinRun(e, Singletons(n), run);
    ChainMergesAway(e, n, merges, run);
    SameHeights(merges, run);
    HeightsOfMeanEnergy(e, c, n, run, sum);
  }

  /** Of the merges a chain records: each of the slots 0 to `n - 2` is merged away exactly once,
      and the squared heights sum to `2 / n` times the sum of the squared distances. */
  lemma ChainConserves(c: seq<real>, n: nat, merges: seq<Merge>, run: seq<Join>, sum: real)
    requires n > 0 && |c| == PairCount(n) && |merges| == n - 1 && Records(merges, run)
    requires ReciprocalRun(WardEnergy(c, n), Singletons(n), run) && sum == SumOf(MergeHeights(merges))
    ensures sum * n as real == 2.0 * SumOf(c)
    ensures forall t, u :: 0 <= t < u < |merges| ==> merges[t].x != merges[u].x
    ensures forall i: nat :: MergesAway(merges, i) <==> i < n - 1
  {
    WardEnergyIsMean(c, n);
    ChainOfMeanEnergy(WardEnergy(c, n), c, n, merges, run, sum);
  }
}
