/** Ties in the chain. The rules for starting, walking and stopping leave one possible run, so
    one answer; on points that are all equally far apart, this is what they lead to. */
module ChainTrace {
  import opened Condensed
  import opened Ward
  import opened Agglomeration
  import opened NnChain
  import opened Labels
  import opened Results

  // ----- One possible run

  lemma PicksUnique(m: Matrix, size: seq<nat>, x: nat, prev: Option<nat>, y: nat, y': nat)
    requires Picks(m, size, x, prev, y) && Picks(m, size, x, prev, y')
    ensures y == y'
  {
  }

  lemma {:induction false} WalksAgree(m: Matrix, size: seq<nat>, start: seq<nat>, w: seq<nat>, w': seq<nat>, t: nat)
    requires Walks(m, size, start, w) && Walks(m, size, start, w') && t <= |w| && t <= |w'|
    ensures w[..t] == w'[..t]
    decreases t
  {
    if t > 0 {
      var i := t - 1;
      WalksAgree(m, size, start, w, w', i);
      if i < |start| {
        assert w[i] == start[i] == w'[i];
      } else if i > 0 {
        assert Pushed(m, size, w, i) && Pushed(m, size, w', i);
        assert w[i - 1] == w[..i][i - 1] == w'[..i][i - 1] == w'[i - 1];
        assert i > 1 ==> w[i - 2] == w[..i][i - 2] == w'[..i][i - 2] == w'[i - 2];
        PicksUnique(m, size, w[i - 1], PrevAt(w, i), w[i], w'[i]);
      }
      assert w[..t] == w[..i] + [w[i]] && w'[..t] == w'[..i] + [w'[i]];
    }
  }

  /** While a walk goes on, its scans do not pick the previous slot. */
  lemma WalkGoesOn(m: Matrix, size: seq<nat>, start: seq<nat>, w: seq<nat>, t: nat)
    requires Walks(m, size, start, w) && 2 <= t < |w| && |start| <= t
    ensures !Picks(m, size, w[t - 1], Some(w[t - 2]), w[t - 2])
  {
    assert Pushed(m, size, w, t);
    if Picks(m, size, w[t - 1], Some(w[t - 2]), w[t - 2]) {
      PicksUnique(m, size, w[t - 1], Some(w[t - 2]), w[t - 2], w[t]);
    }
  }

  lemma WalkNotLonger(m: Matrix, size: seq<nat>, start: seq<nat>, w: seq<nat>, w': seq<nat>)
    requires Walks(m, size, start, w) && Walks(m, size, start, w')
    ensures |w'| <= |w|
  {
    if |w| < |w'| {
      var t := |w|;
      WalksAgree(m, size, start, w, w', t);
      assert w[..t] == w;
      assert w[t - 1] == w'[t - 1] && w[t - 2] == w'[t - 2];
      WalkGoesOn(m, size, start, w', t);
    }
  }

  /** From the same chain there is one walk. */
  lemma WalkIsUnique(m: Matrix, size: seq<nat>, start: seq<nat>, w: seq<nat>, w': seq<nat>)
    requires Walks(m, size, start, w) && Walks(m, size, start, w')
    ensures w == w'
  {
    WalkNotLonger(m, size, start, w, w');
    WalkNotLonger(m, size, start, w', w);
    WalksAgree(m, size, start, w, w', |w|);
    assert w[..|w|] == w && w'[..|w|] == w';
  }

  lemma RoundIsUnique(e: Energy, start: seq<nat>, step: Step, step': Step)
    requires step.members == step'.members && RoundObeys(e, start, step) && RoundObeys(e, start, step')
    ensures step == step'
  {
    WalkIsUnique(CostMatrix(e, step.members), SizesOf(step.members), start, step.walked, step'.walked);
  }

  /** The input distances leave one run: two traces agree round for round. */
  lemma {:induction false} TraceIsUnique(e: Energy, n: nat, steps: seq<Step>, steps': seq<Step>, t: nat)
    requires Trace(e, n, steps) && Trace(e, n, steps') && t <= |steps| && t <= |steps'|
    ensures steps[..t] == steps'[..t]
    decreases t
  {
    if t > 0 {
      var i := t - 1;
      TraceIsUnique(e, n, steps, steps', i);
      assert StepObeys(e, n, steps, i) && StepObeys(e, n, steps', i);
      RoundIsUnique(e, ChainFrom(steps[..i]), steps[i], steps'[i]);
      assert steps[..t] == steps[..i] + [steps[i]] && steps'[..t] == steps'[..i] + [steps'[i]];
    }
  }

  /** The run sorted stably by height. */
  ghost function SortedRun(run: seq<Join>): seq<Join> {
    Picked(run, StableOrder(Heights(run), 0))
  }

  /** `labels` cuts the run that obeys the rules into `k` clusters. */
  ghost predicate Answers(e: Energy, n: nat, k: nat, labels: seq<nat>, merges: seq<Merge>, run: seq<Join>,
      steps: seq<Step>)
    requires 1 <= k <= n
  {
    && |run| == n - 1 && Traced(e, n, merges, run, steps)
    && |labels| == n && Labelled(labels, After(Singletons(n), SortedRun(run)[..n - k]))
  }

  lemma TracedIsUnique(e: Energy, n: nat, merges: seq<Merge>, run: seq<Join>, steps: seq<Step>,
      merges': seq<Merge>, run': seq<Join>, steps': seq<Step>)
    requires Traced(e, n, merges, run, steps) && Traced(e, n, merges', run', steps') && |run| == |run'|
    ensures merges == merges' && run == run'
  {
    TraceIsUnique(e, n, steps, steps', |steps|);
    assert steps == steps[..|steps|] && steps' == steps'[..|steps|];
    forall t: nat | t < |run|
      ensures run[t] == run'[t]
    {
      assert JoinsMembers(run[t], steps[t]) && JoinsMembers(run'[t], steps'[t]);
    }
  }

  /** The clusters have one naming by first appearance. */
  lemma OneNaming(labels: seq<nat>, labels': seq<nat>, p: Partition)
    requires |labels| == |labels'| && Labelled(labels, p) && Labelled(labels', p)
    ensures labels == labels'
  {
    CanonicalLabels(labels, labels');
  }

  /** There is one answer, ties or not. */
  lemma {:induction false} AnswerIsUnique(e: Energy, n: nat, k: nat,
      labels: seq<nat>, merges: seq<Merge>, run: seq<Join>, steps: seq<Step>,
      labels': seq<nat>, merges': seq<Merge>, run': seq<Join>, steps': seq<Step>)
    requires 1 <= k <= n
    requires Answers(e, n, k, labels, merges, run, steps) && Answers(e, n, k, labels', merges', run', steps')
    ensures merges == merges' && labels == labels'
  {
    TracedIsUnique(e, n, merges, run, steps, merges', run', steps');
    OneNaming(labels, labels', After(Singletons(n), SortedRun(run)[..n - k]));
  }

  // ----- Points all equally far apart

  ghost predicate Equidistant(e: Energy, n: nat, h: real) {
    PairEnergy(e) && forall i: nat, j: nat :: i < n && j < n && i != j ==> Cost(e, {i}, {j}) == h
  }

  ghost predicate StaysBelow(s: set<nat>, n: nat) {
    forall i :: i in s ==> i < n
  }

  lemma EqualMean(nx: real, ny: real, ni: real, xi: real, yi: real, xy: real, v: real, h: real)
    requires nx > 0.0 && ny > 0.0 && ni > 0.0 && xi == h && yi == h && xy == h
    requires (ni + nx) * xi + (ni + ny) * yi - ni * xy == (nx + ny + ni) * v
    ensures v == h
  {
    assert (nx + ny + ni) * (v - h) == 0.0;
  }

  lemma CostOfSplit(e: Energy, x: set<nat>, y: set<nat>, b: set<nat>, h: real)
    requires PairEnergy(e) && Separate(x, y, b)
    requires Cost(e, x, y) == h && Cost(e, x, b) == h && Cost(e, y, b) == h
    ensures Cost(e, x + y, b) == h
  {
    LanceWilliams(e, x, y, b, |x| as real, |y| as real, |b| as real);
    EqualMean(|x| as real, |y| as real, |b| as real, Cost(e, x, b), Cost(e, y, b), Cost(e, x, y), Cost(e, x + y, b), h);
  }

  lemma SplitOff(a: set<nat>, x: nat, b: set<nat>, n: nat) returns (rest: set<nat>)
    requires x in a && a != {x} && b != {} && a !! b && StaysBelow(a, n)
    ensures rest != {} && rest + {x} == a && |rest| == |a| - 1 && |{x}| == 1 && |b| > 0
    ensures Separate(rest, {x}, b) && StaysBelow(rest, n) && StaysBelow({x}, n)
  {
    rest := a - {x};
  }

  /** Points at distance `h` from each other form clusters at distance `h` from each other. */
  lemma {:induction false} ClustersAreEquidistant(e: Energy, n: nat, h: real, a: set<nat>, b: set<nat>)
    requires Equidistant(e, n, h) && a != {} && b != {} && a !! b && StaysBelow(a, n) && StaysBelow(b, n)
    ensures Cost(e, a, b) == h
    decreases |a| + |b|, |b|
  {
    var x :| x in a;
    if a != {x} {
      var rest := SplitOff(a, x, b, n);
      ClustersAreEquidistant(e, n, h, rest, {x});
      ClustersAreEquidistant(e, n, h, rest, b);
      ClustersAreEquidistant(e, n, h, {x}, b);
      CostOfSplit(e, rest, {x}, b, h);
    } else {
      var y :| y in b;
      if b != {y} {
        CostSymmetric(e, a, b);
        assert |b - {y}| == |b| - 1;
        ClustersAreEquidistant(e, n, h, b, a);
      }
    }
  }

  ghost function UpTo(t: nat): (s: set<nat>)
    ensures forall i: nat :: i in s <==> i <= t
  {
    if t == 0 then {0} else UpTo(t - 1) + {t}
  }

  /** Slot `t` holds the points up to `t`, and every later slot its own. */
  ghost function Gathered(n: nat, t: nat): seq<set<nat>> {
    seq(n, i => if i < t then {} else if i == t then UpTo(t) else {i})
  }

  lemma GatheredNext(n: nat, t: nat)
    requires t + 1 < n
    ensures Gathered(n, t + 1) == MembersAfter(Gathered(n, t), t, t + 1)
    ensures Gathered(n, 0) == PointMembers(n)
  {
    assert UpTo(t) + {t + 1} == UpTo(t + 1);
    assert UpTo(0) == {0};
  }

  lemma GatheredCosts(e: Energy, n: nat, h: real, t: nat, i: nat, j: nat)
    requires Equidistant(e, n, h) && t <= i < n && t <= j < n && i != j
    ensures CostMatrix(e, Gathered(n, t))(i, j) == h
  {
    assert i in Gathered(n, t)[i] && j in Gathered(n, t)[j];
    ClustersAreEquidistant(e, n, h, Gathered(n, t)[i], Gathered(n, t)[j]);
  }

  lemma GatheredActive(n: nat, t: nat, i: nat)
    ensures Active(SizesOf(Gathered(n, t)), i) <==> t <= i < n
  {
    if t <= i < n {
      assert i in Gathered(n, t)[i];
    }
  }

  /** Of slots all equally near, the scan picks the previous one, or else the first. */
  lemma PicksAmongEqual(m: Matrix, size: seq<nat>, x: nat, prev: Option<nat>, y: nat, h: real)
    requires Picks(m, size, x, prev, y) && forall i: nat :: Active(size, i) && i != x ==> m(x, i) == h
    requires prev.Some? ==> Active(size, prev.value) && prev.value != x
    ensures if prev.Some? then y == prev.value else forall i: nat :: i < y && Active(size, i) ==> i == x
  {
  }

  lemma WalkAmongEqual(m: Matrix, size: seq<nat>, n: nat, t: nat, h: real, walked: seq<nat>)
    requires t + 1 < n && Walks(m, size, [], walked)
    requires forall i: nat :: Active(size, i) <==> t <= i < n
    requires forall x: nat, i: nat :: Active(size, x) && Active(size, i) && i != x ==> m(x, i) == h
    ensures walked == [t, t + 1]
  {
    assert Active(size, t) && Active(size, t + 1);
    assert Pushed(m, size, walked, 1);
    PicksAmongEqual(m, size, walked[0], None, walked[1], h);
    if |walked| > 2 {
      assert Pushed(m, size, walked, 2);
      PicksAmongEqual(m, size, walked[1], Some(walked[0]), walked[2], h);
    }
  }

  lemma GatheredWalk(e: Energy, n: nat, h: real, t: nat, walked: seq<nat>)
    requires Equidistant(e, n, h) && t + 1 < n
    requires Walks(CostMatrix(e, Gathered(n, t)), SizesOf(Gathered(n, t)), [], walked)
    ensures walked == [t, t + 1]
  {
    var (m, size) := (CostMatrix(e, Gathered(n, t)), SizesOf(Gathered(n, t)));
    forall i: nat
      ensures Active(size, i) <==> t <= i < n
    {
      GatheredActive(n, t, i);
    }
    forall x: nat, i: nat | Active(size, x) && Active(size, i) && i != x
      ensures m(x, i) == h
    {
      GatheredCosts(e, n, h, t, x, i);
    }
    WalkAmongEqual(m, size, n, t, h, walked);
  }

  lemma GatheredBefore(n: nat, h: real, steps: seq<Step>, t: nat)
    requires t < |steps| < n
    requires t > 0 ==> steps[t - 1] == Step(Gathered(n, t - 1), [t - 1, t], Merge(h, t - 1, t))
    ensures MembersFrom(n, steps[..t]) == Gathered(n, t) && ChainFrom(steps[..t]) == []
  {
    GatheredNext(n, if t > 0 then t - 1 else 0);
    if t > 0 {
      assert steps[..t][t - 1] == steps[t - 1];
    }
  }

  lemma GatheredRound(e: Energy, n: nat, h: real, t: nat, step: Step)
    requires Equidistant(e, n, h) && t + 1 < n && step.members == Gathered(n, t) && RoundObeys(e, [], step)
    ensures step == Step(Gathered(n, t), [t, t + 1], Merge(h, t, t + 1))
  {
    GatheredWalk(e, n, h, t, step.walked);
    GatheredCosts(e, n, h, t, t + 1, t);
  }

  /** On points all equally far apart, round `t` merges slot `t` into slot `t + 1`. */
  lemma {:induction false} EquidistantStep(e: Energy, n: nat, h: real, steps: seq<Step>, t: nat)
    requires Equidistant(e, n, h) && Trace(e, n, steps) && t < |steps| < n
    ensures steps[t] == Step(Gathered(n, t), [t, t + 1], Merge(h, t, t + 1))
    decreases t
  {
    if t > 0 {
      EquidistantStep(e, n, h, steps, t - 1);
    }
    GatheredBefore(n, h, steps, t);
    assert StepObeys(e, n, steps, t);
    GatheredRound(e, n, h, t, steps[t]);
  }

  lemma {:induction false} StableOrderOfEqual(keys: seq<real>, h: real, i: nat)
    requires i <= |keys| && forall t :: 0 <= t < |keys| ==> keys[t] == h
    ensures forall t: nat :: t < |keys| - i ==> StableOrder(keys, i)[t] == i + t
    decreases |keys| - i
  {
    if i < |keys| {
      StableOrderOfEqual(keys, h, i + 1);
      assert StableOrder(keys, i) == [i] + StableOrder(keys, i + 1);
    }
  }

  lemma EqualHeightsStay(run: seq<Join>, h: real)
    requires forall t :: 0 <= t < |run| ==> run[t].height == h
    ensures SortedRun(run) == run
  {
    StableOrderOfEqual(Heights(run), h, 0);
  }

  lemma {:induction false} AfterSnoc(p: Partition, js: seq<Join>, j: Join)
    ensures After(p, js + [j]) == Apply(After(p, js), j)
    decreases js
  {
    if js == [] {
      assert (js + [j])[1..] == [];
    } else {
      AfterSnoc(Apply(p, js[0]), js[1..], j);
      assert (js + [j])[1..] == js[1..] + [j];
    }
  }

  ghost function LaterAlone(n: nat, m: nat): Partition {
    set i: nat | m < i < n :: {i}
  }

  /** One cluster of the points up to `m`, and the later points on their own. */
  ghost function FirstTogether(n: nat, m: nat): Partition {
    {UpTo(m)} + LaterAlone(n, m)
  }

  lemma FirstTogetherNext(n: nat, m: nat, j: Join)
    requires m + 1 < n && j.a == UpTo(m) && j.b == {m + 1}
    ensures Apply(FirstTogether(n, m), j) == FirstTogether(n, m + 1)
  {
    assert UpTo(m) + {m + 1} == UpTo(m + 1);
    assert m + 1 in UpTo(m + 1) && m in UpTo(m) && m in UpTo(m + 1);
    forall s
      ensures s in LaterAlone(n, m) <==> s == {m + 1} || s in LaterAlone(n, m + 1)
    {
      if s in LaterAlone(n, m) {
        var i: nat :| m < i < n && s == {i};
        assert i == m + 1 || m + 1 < i;
      }
    }
    assert UpTo(m) !in LaterAlone(n, m + 1) && {m + 1} !in LaterAlone(n, m + 1);
  }

  lemma StartsAlone(n: nat)
    requires n > 0
    ensures Singletons(n) == FirstTogether(n, 0)
  {
    assert UpTo(0) == {0};
    forall s
      ensures s in Singletons(n) <==> s == {0} || s in LaterAlone(n, 0)
    {
      if s in Singletons(n) {
        var i: nat :| i < n && s == {i};
      }
    }
  }

  lemma GatherOneMore(n: nat, front: seq<Join>, j: Join, m: nat)
    requires m + 1 < n && j.a == UpTo(m) && j.b == {m + 1} && After(Singletons(n), front) == FirstTogether(n, m)
    ensures After(Singletons(n), front + [j]) == FirstTogether(n, m + 1)
  {
    AfterSnoc(Singletons(n), front, j);
    FirstTogetherNext(n, m, j);
  }

  lemma {:induction false} FirstMergesGather(n: nat, run: seq<Join>, m: nat)
    requires m <= |run| < n
    requires forall t: nat :: t < |run| ==> run[t].a == UpTo(t) && run[t].b == {t + 1}
    ensures After(Singletons(n), run[..m]) == FirstTogether(n, m)
    decreases m
  {
    if m == 0 {
      StartsAlone(n);
    } else {
      FirstMergesGather(n, run, m - 1);
      assert run[..m] == run[..m - 1] + [run[m - 1]];
      GatherOneMore(n, run[..m - 1], run[m - 1], m - 1);
    }
  }

  /** The first `m + 1` points under label 0, and the later ones numbered on. */
  ghost function GatheredLabels(n: nat, m: nat): seq<nat> {
    seq(n, i => if i <= m then 0 else i - m)
  }

  lemma GatheredLabelsName(n: nat, m: nat)
    requires m < n
    ensures Labelled(GatheredLabels(n, m), FirstTogether(n, m))
  {
    var (labels, p) := (GatheredLabels(n, m), FirstTogether(n, m));
    forall i: nat, j: nat | i < n && j < n
      ensures labels[i] == labels[j] <==> Together(p, i, j)
    {
      assert UpTo(m) in p;
      if i == j && i > m {
        assert {i} in p;
      }
      if s :| s in p && i in s && j in s && s != UpTo(m) {
        var l: nat :| m < l < n && s == {l};
      }
    }
    forall i: nat, v: nat | i < n && v < labels[i]
      ensures SeenBefore(labels, v, i)
    {
      assert labels[if v == 0 then 0 else v + m] == v;
    }
  }

  lemma {:induction false} EquidistantMerges(e: Energy, n: nat, h: real, merges: seq<Merge>, run: seq<Join>,
      steps: seq<Step>)
    requires n > 0 && Equidistant(e, n, h) && |run| == n - 1 && Traced(e, n, merges, run, steps)
    ensures merges == seq(n - 1, (t: nat) => Merge(h, t, t + 1))
    ensures forall t: nat :: t < n - 1 ==> run[t] == Join(h, UpTo(t), {t + 1}, t, t + 1)
  {
    forall t: nat | t < n - 1
      ensures merges[t] == Merge(h, t, t + 1) && run[t] == Join(h, UpTo(t), {t + 1}, t, t + 1)
    {
      EquidistantStep(e, n, h, steps, t);
      assert JoinsMembers(run[t], steps[t]);
    }
  }

  lemma {:induction false} EquidistantRun(e: Energy, n: nat, k: nat, h: real, labels: seq<nat>,
      merges: seq<Merge>, run: seq<Join>, steps: seq<Step>)
    requires 1 <= k <= n && Equidistant(e, n, h) && Answers(e, n, k, labels, merges, run, steps)
    ensures merges == seq(n - 1, (t: nat) => Merge(h, t, t + 1))
    ensures labels == GatheredLabels(n, n - k)
  {
    EquidistantMerges(e, n, h, merges, run, steps);
    EqualHeightsStay(run, h);
    FirstMergesGather(n, run, n - k);
    GatheredLabelsName(n, n - k);
    OneNaming(labels, GatheredLabels(n, n - k), FirstTogether(n, n - k));
  }

  /** Where all points are equally far apart, the chain merges slots 0 and 1, 1 and 2, and so on,
      and the first `n - k + 1` points share label 0. */
  lemma {:induction false} EquidistantAnswer(c: seq<real>, n: nat, k: nat, h: real, labels: seq<nat>,
      merges: seq<Merge>, run: seq<Join>, steps: seq<Step>)
    requires 1 <= k <= n && |c| == PairCount(n) && forall i :: 0 <= i < |c| ==> c[i] == h
    requires Answers(WardEnergy(c, n), n, k, labels, merges, run, steps)
    ensures merges == seq(n - 1, (t: nat) => Merge(h, t, t + 1))
    ensures labels == seq(n, i => if i <= n - k then 0 else i - (n - k))
  {
    WardEnergyIsPairEnergy(c, n);
    forall i: nat, j: nat | i < n && j < n && i != j
      ensures Cost(WardEnergy(c, n), {i}, {j}) == h
    {
      CostOfSingletons(c, n, i, j);
    }
    EquidistantRun(WardEnergy(c, n), n, k, h, labels, merges, run, steps);
  }
}
