/** Cluster labels numbered by first appearance. */
module Labels {
  import opened Agglomeration

  /** Two lists that are equal at the same pairs of positions. */
  ghost predicate SamePattern(r: seq<nat>, s: seq<nat>) {
    && |r| == |s|
    && forall i, j :: 0 <= i < |r| && 0 <= j < |r| ==> (r[i] == r[j] <==> s[i] == s[j])
  }

  ghost predicate SeenBefore(labels: seq<nat>, v: nat, i: nat)
    requires i <= |labels|
  {
    exists j :: 0 <= j < i && labels[j] == v
  }

  /** A label appears only after every smaller label has appeared. */
  ghost predicate InFirstSeenOrder(labels: seq<nat>) {
    forall i: nat, v: nat :: i < |labels| && v < labels[i] ==> SeenBefore(labels, v, i)
  }

  /** `labels` uses the numbers below `m`, each after all smaller ones. */
  ghost predicate Numbered(labels: seq<nat>, m: nat) {
    && InFirstSeenOrder(labels)
    && (forall i :: 0 <= i < |labels| ==> labels[i] < m)
    && forall v: nat :: v < m ==> SeenBefore(labels, v, |labels|)
  }

  lemma SeenInLonger(labels: seq<nat>, w: nat, v: nat, i: nat)
    requires i <= |labels| && SeenBefore(labels, v, i)
    ensures SeenBefore(labels + [w], v, i) && SeenBefore(labels + [w], v, |labels| + 1)
  {
    var j :| 0 <= j < i && labels[j] == v;
    assert (labels + [w])[j] == v;
  }

  lemma NumberedSnoc(labels: seq<nat>, m: nat, w: nat)
    requires Numbered(labels, m) && w <= m
    ensures Numbered(labels + [w], if w == m then m + 1 else m)
  {
    var longer := labels + [w];
    assert longer[|labels|] == w && SeenBefore(longer, w, |longer|);
    forall v: nat | SeenBefore(labels, v, |labels|)
      ensures SeenBefore(longer, v, |longer|)
    {
      SeenInLonger(labels, w, v, |labels|);
    }
    forall i: nat, v: nat | i < |longer| && v < longer[i]
      ensures SeenBefore(longer, v, i)
    {
      assert SeenBefore(labels, v, i);
      SeenInLonger(labels, w, v, i);
    }
  }

  /** Numbers the roots by first appearance. */
  method FirstAppearance(roots: seq<nat>) returns (labels: seq<nat>)
    ensures SamePattern(roots, labels) && InFirstSeenOrder(labels)
  {
    var seen: map<nat, nat> := map[];
    labels := [];
    for i := 0 to |roots|
      invariant |labels| == i && Numbered(labels, |seen|)
      invariant forall r :: r in seen ==> seen[r] < |seen|
      invariant forall j :: 0 <= j < i ==> roots[j] in seen && labels[j] == seen[roots[j]]
      invariant forall r, s :: r in seen && s in seen && seen[r] == seen[s] ==> r == s
    {
      ghost var used := |seen|;
      if roots[i] !in seen {
        seen := seen[roots[i] := |seen|];
      }
      NumberedSnoc(labels, used, seen[roots[i]]);
      labels := labels + [seen[roots[i]]];
    }
  }

  lemma NotBelow(labels: seq<nat>, labels': seq<nat>, i: nat)
    requires InFirstSeenOrder(labels') && SamePattern(labels, labels')
    requires i < |labels| && labels[..i] == labels'[..i]
    ensures labels[i] >= labels'[i]
  {
    forall j | 0 <= j < i
      ensures labels[j] == labels'[j]
    {
      assert labels[..i][j] == labels'[..i][j];
    }
    assert labels[i] < labels'[i] ==> SeenBefore(labels', labels[i], i);
  }

  lemma {:induction false} SamePrefix(labels: seq<nat>, labels': seq<nat>, i: nat)
    requires InFirstSeenOrder(labels) && InFirstSeenOrder(labels') && SamePattern(labels, labels')
    requires i <= |labels|
    ensures labels[..i] == labels'[..i]
    decreases i
  {
    if i > 0 {
      SamePrefix(labels, labels', i - 1);
      NotBelow(labels, labels', i - 1);
      assert SamePattern(labels', labels);
      NotBelow(labels', labels, i - 1);
      assert labels[..i] == labels[..i - 1] + [labels[i - 1]];
      assert labels'[..i] == labels'[..i - 1] + [labels'[i - 1]];
    }
  }

  /** First-appearance numbering is canonical: two such lists are equal exactly when they
      are equal at the same pairs of positions. */
  lemma CanonicalLabels(labels: seq<nat>, labels': seq<nat>)
    requires InFirstSeenOrder(labels) && InFirstSeenOrder(labels')
    ensures labels == labels' <==> SamePattern(labels, labels')
  {
    if SamePattern(labels, labels') {
      SamePrefix(labels, labels', |labels|);
      assert labels == labels[..|labels|] && labels' == labels'[..|labels|];
    }
  }

  // ----- Labels of a partition

  ghost predicate Together(p: Partition, i: nat, j: nat) {
    exists s :: s in p && i in s && j in s
  }

  /** `labels` names the clusters of `p`, a partition of the points below `|labels|`, in
      order of first appearance. */
  ghost predicate Labelled(labels: seq<nat>, p: Partition) {
    && InFirstSeenOrder(labels)
    && forall i: nat, j: nat :: i < |labels| && j < |labels| ==> (labels[i] == labels[j] <==> Together(p, i, j))
  }

  /** A partition of the points below `n`. */
  ghost predicate PartitionOf(p: Partition, n: nat) {
    && IsPartition(p)
    && (forall s, i: nat :: s in p && i in s ==> i < n)
    && forall i: nat :: i < n ==> Together(p, i, i)
  }

  lemma SameClusters(p: Partition, p': Partition, n: nat)
    requires PartitionOf(p, n) && PartitionOf(p', n)
    requires forall i: nat, j: nat :: i < n && j < n ==> (Together(p, i, j) <==> Together(p', i, j))
    ensures p <= p'
  {
    forall s | s in p
      ensures s in p'
    {
      assert s != {};
      var i :| i in s;
      assert Together(p, i, i) && Together(p', i, i);
      var t :| t in p' && i in t;
      forall j: nat
        ensures j in s <==> j in t
      {
        if j in s { assert Together(p, i, j); }
        if j in t { assert Together(p', i, j); }
      }
      assert s == t;
    }
  }

  /** Two label lists are equal exactly when the partitions they name are. */
  lemma LabelsDecidePartition(labels: seq<nat>, labels': seq<nat>, p: Partition, p': Partition)
    requires Labelled(labels, p) && Labelled(labels', p')
    requires PartitionOf(p, |labels|) && PartitionOf(p', |labels'|) && |labels| == |labels'|
    ensures labels == labels' <==> p == p'
  {
    CanonicalLabels(labels, labels');
    if labels == labels' {
      SameClusters(p, p', |labels|);
      SameClusters(p', p, |labels|);
    }
  }

  // ----- Exactly the labels below the number of clusters

  lemma {:induction false} AllBelow(d: set<nat>, m: nat)
    requires forall v :: v in d ==> v < m
    ensures |d| <= m
    decreases m
  {
    if m == 0 {
      assert d == {};
    } else {
      AllBelow(d - {m - 1}, m - 1);
    }
  }

  lemma {:induction false} HoldsBelow(d: set<nat>, m: nat)
    requires forall v: nat :: v < m ==> v in d
    ensures m <= |d|
    decreases m
  {
    if m > 0 {
      HoldsBelow(d - {m - 1}, m - 1);
    }
  }

  /** A set of numbers that contains every number below its members is an initial segment. */
  lemma InitialSegment(d: set<nat>, v: nat)
    requires forall w: nat, u: nat :: u in d && w < u ==> w in d
    ensures v in d <==> v < |d|
  {
    if v in d {
      HoldsBelow(d, v + 1);
    } else {
      AllBelow(d, v);
    }
  }

  /** The label of a cluster's points. */
  ghost function LabelOf(labels: seq<nat>, s: set<nat>): nat
    requires s != {} && forall i :: i in s ==> i < |labels|
  {
    var i :| i in s;
    labels[i]
  }

  ghost function LabelsOf(labels: seq<nat>, p: Partition): set<nat>
    requires forall s :: s in p ==> s != {} && forall i :: i in s ==> i < |labels|
  {
    set s | s in p :: LabelOf(labels, s)
  }

  lemma LabelIsShared(labels: seq<nat>, p: Partition, s: set<nat>, i: nat)
    requires Labelled(labels, p) && PartitionOf(p, |labels|) && s in p && i in s
    ensures labels[i] == LabelOf(labels, s)
  {
    var k: nat :| k in s && labels[k] == LabelOf(labels, s);
    assert Together(p, i, k);
  }

  lemma LabelTellsClusters(labels: seq<nat>, p: Partition, s: set<nat>, t: set<nat>)
    requires Labelled(labels, p) && PartitionOf(p, |labels|) && s in p && t in p
    requires LabelOf(labels, s) == LabelOf(labels, t)
    ensures s == t
  {
    var i: nat :| i in s && labels[i] == LabelOf(labels, s);
    var k: nat :| k in t && labels[k] == LabelOf(labels, t);
    assert Together(p, i, k);
  }

  /** As many labels as clusters. */
  lemma {:induction false} CountLabels(labels: seq<nat>, p: Partition, rest: Partition)
    requires Labelled(labels, p) && PartitionOf(p, |labels|) && rest <= p
    ensures |LabelsOf(labels, rest)| == |rest|
    decreases |rest|
  {
    if rest != {} {
      var t :| t in rest;
      CountLabels(labels, p, rest - {t});
      if LabelOf(labels, t) in LabelsOf(labels, rest - {t}) {
        var s :| s in rest - {t} && LabelOf(labels, s) == LabelOf(labels, t);
        LabelTellsClusters(labels, p, s, t);
      }
      assert LabelsOf(labels, rest) == LabelsOf(labels, rest - {t}) + {LabelOf(labels, t)};
    }
  }

  /** The labels of `k` clusters are exactly 0 to `k - 1`. */
  lemma LabelsAreExact(labels: seq<nat>, p: Partition)
    requires Labelled(labels, p) && PartitionOf(p, |labels|)
    ensures forall v: nat :: v in labels <==> v < |p|
  {
    CountLabels(labels, p, p);
    var d := LabelsOf(labels, p);
    forall i | 0 <= i < |labels|
      ensures labels[i] in d
    {
      assert Together(p, i, i);
      var s :| s in p && i in s;
      LabelIsShared(labels, p, s, i);
    }
    forall s | s in p
      ensures LabelOf(labels, s) in labels
    {
      var i: nat :| i in s && labels[i] == LabelOf(labels, s);
    }
    assert forall v :: v in d <==> v in labels;
    forall w: nat, u: nat | u in d && w < u
      ensures w in d
    {
      var i: nat :| i < |labels| && labels[i] == u;
      assert SeenBefore(labels, w, i);
    }
    forall v: nat
      ensures v in labels <==> v < |p|
    {
      InitialSegment(d, v);
    }
  }
}
