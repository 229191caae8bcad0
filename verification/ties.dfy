/** Ties. Where two pairs of clusters are equally cheap, greedy clustering may join either
    first; these are the ties that make no difference to the clusters left after a cut.

    A tie is harmless if the run joins both pairs before the cut. Harmless ties leave one
    possible outcome, and where tied pairs never share a cluster, only harmless ties do. */
module Ties {
  import opened Condensed
  import opened Ward
  import opened Agglomeration

  /** Some join of `js` joins clusters `s` and `t`. */
  ghost predicate Joined(js: seq<Join>, s: set<nat>, t: set<nat>) {
    exists j :: j in js && {s, t} == {j.a, j.b}
  }

  /** Joining `s` and `t` would cost `h` as well. */
  ghost predicate Tied(e: Energy, p: Partition, h: real, s: set<nat>, t: set<nat>) {
    s in p && t in p && s != t && Cost(e, s, t) == h
  }

  /** A greedy run that joins, at some step, every pair that ties with one of its joins. */
  ghost predicate HarmlessTies(e: Energy, p: Partition, js: seq<Join>)
    decreases js
  {
    js == [] ||
    (&& Cheapest(e, p, js[0])
     && (forall s, t :: Tied(e, p, js[0].height, s, t) ==> Joined(js, s, t))
     && HarmlessTies(e, Apply(p, js[0]), js[1..]))
  }

  /** No two pairs that tie for cheapest share a cluster, at any step of the run. */
  ghost predicate DisjointTies(e: Energy, p: Partition, js: seq<Join>)
    decreases js
  {
    js == [] ||
    (&& (forall s, t :: Tied(e, p, js[0].height, s, t) ==> {s, t} == {js[0].a, js[0].b} || {s, t} !! {js[0].a, js[0].b})
     && DisjointTies(e, Apply(p, js[0]), js[1..]))
  }

  /** Every greedy run of `m` joins ends in the partition `r`. */
  ghost predicate EndsOnlyIn(e: Energy, p: Partition, m: nat, r: Partition) {
    forall ks :: GreedyRun(e, p, ks) && |ks| == m ==> After(p, ks) == r
  }

  lemma {:induction false} HarmlessIsGreedy(e: Energy, p: Partition, js: seq<Join>)
    requires HarmlessTies(e, p, js)
    ensures GreedyRun(e, p, js)
    decreases js
  {
    if js != [] {
      HarmlessIsGreedy(e, Apply(p, js[0]), js[1..]);
    }
  }

  // ----- Harmless ties leave one outcome

  lemma LargestIsUnique(x: nat, y: nat, s: set<nat>)
    requires LargestIn(x, s) && LargestIn(y, s)
    ensures x == y
  {
  }

  /** A pair of clusters can be joined in only one way. */
  lemma JoinIsDetermined(e: Energy, p: Partition, q: Partition, j: Join, k: Join)
    requires Joins(e, p, j) && Joins(e, q, k) && {j.a, j.b} == {k.a, k.b}
    ensures j == k
  {
    assert j.a in {k.a, k.b} && j.b in {k.a, k.b};
    if j.a == k.a {
      LargestIsUnique(j.x, k.x, j.a);
      LargestIsUnique(j.y, k.y, j.b);
    } else {
      LargestIsUnique(j.x, k.y, j.a);
      LargestIsUnique(j.y, k.x, j.b);
    }
  }

  /** Joining a cheapest pair leaves no pair cheaper. */
  lemma JoinStaysFar(e: Energy, p: Partition, j: Join, s: set<nat>, t: set<nat>)
    requires PairEnergy(e) && IsPartition(p) && Cheapest(e, p, j)
    requires s in Apply(p, j) && t in Apply(p, j) && s != t
    ensures Cost(e, s, t) >= j.height
  {
    CostSymmetric(e, s, t);
    var (u, v) := if s == j.a + j.b then (s, t) else (t, s);
    if u == j.a + j.b {
      Reducible(e, j.a, j.b, v, j.height);
    }
  }

  lemma CheapestStaysCheapest(e: Energy, p: Partition, j: Join, k: Join)
    requires PairEnergy(e) && IsPartition(p) && Cheapest(e, p, j) && Cheapest(e, p, k)
    requires j.height == k.height && {j.a, j.b} !! {k.a, k.b}
    ensures Cheapest(e, Apply(p, j), k)
  {
    ApplyIsPartition(e, p, j);
    assert k.a !in {j.a, j.b} && k.b !in {j.a, j.b};
    forall s, t | s in Apply(p, j) && t in Apply(p, j) && s != t
      ensures Cost(e, s, t) >= j.height
    {
      JoinStaysFar(e, p, j, s, t);
    }
  }

  lemma ZeroFactor(a: real, b: real)
    requires a > 0.0 && a * b == 0.0
    ensures b == 0.0
  {
  }

  lemma EvenMean(nx: real, ny: real, ni: real, xi: real, yi: real, xy: real, v: real, h: real)
    requires nx > 0.0 && ny > 0.0 && ni > 0.0 && xi >= h && yi >= h && xy == h && v == h
    requires (ni + nx) * xi + (ni + ny) * yi - ni * xy == (nx + ny + ni) * v
    ensures xi == h && yi == h
  {
    ProductNonNegative(ni + nx, xi - h);
    ProductNonNegative(ni + ny, yi - h);
    ZeroFactor(ni + nx, xi - h);
    ZeroFactor(ni + ny, yi - h);
  }

  /** If the union of two clusters ties with their own join, so did each of them. */
  lemma TieOfUnion(e: Energy, p: Partition, j: Join, t: set<nat>)
    requires PairEnergy(e) && IsPartition(p) && Cheapest(e, p, j)
    requires t in p && t != j.a && t != j.b && Cost(e, j.a + j.b, t) == j.height
    ensures Cost(e, j.a, t) == j.height && Cost(e, j.b, t) == j.height
  {
    var (x, y) := (j.a, j.b);
    var (nx, ny, ni) := (|x| as real, |y| as real, |t| as real);
    LanceWilliams(e, x, y, t, nx, ny, ni);
    EvenMean(nx, ny, ni, Cost(e, x, t), Cost(e, y, t), Cost(e, x, y), Cost(e, x + y, t), j.height);
  }

  /** A run joins no cluster twice. */
  lemma JoinedOnce(e: Energy, p: Partition, js: seq<Join>, s: set<nat>, t: set<nat>)
    requires IsPartition(p) && JoinRun(e, p, js) && js != [] && Joined(js, s, t)
    ensures {s, t} == {js[0].a, js[0].b} || (s != js[0].a && s != js[0].b && t != js[0].a && t != js[0].b)
  {
    var k :| k in js && {s, t} == {k.a, k.b};
    var i :| 0 <= i < |js| && js[i] == k;
    assert k.a in {s, t} && k.b in {s, t} && s in {k.a, k.b} && t in {k.a, k.b};
    if i > 0 {
      if s == js[0].a || s == js[0].b { UsedUpIsGone(e, p, js, i, s); }
      if t == js[0].a || t == js[0].b { UsedUpIsGone(e, p, js, i, t); }
    }
  }

  lemma SamePartner(s: set<nat>, t: set<nat>, u: set<nat>, a: set<nat>, b: set<nat>)
    requires {s, t} == {a, b} == {s, u} && s != t && s != u
    ensures t == u
  {
    assert t in {s, u};
  }

  lemma JoinedLater(js: seq<Join>, s: set<nat>, t: set<nat>)
    requires js != [] && Joined(js, s, t) && s != js[0].a && s != js[0].b
    ensures Joined(js[1..], s, t)
  {
    var k :| k in js && {s, t} == {k.a, k.b};
    assert s in {k.a, k.b};
    assert k in js[1..];
  }

  lemma {:induction false} JoinedWithOne(e: Energy, p: Partition, js: seq<Join>, s: set<nat>, t: set<nat>, u: set<nat>)
    requires IsPartition(p) && JoinRun(e, p, js) && Joined(js, s, t) && Joined(js, s, u) && s != t && s != u
    ensures t == u
    decreases js
  {
    var j := js[0];
    JoinedOnce(e, p, js, s, t);
    JoinedOnce(e, p, js, s, u);
    if s == j.a || s == j.b {
      SamePartner(s, t, u, j.a, j.b);
    } else {
      ApplyIsPartition(e, p, j);
      JoinedLater(js, s, t);
      JoinedLater(js, s, u);
      JoinedWithOne(e, Apply(p, j), js[1..], s, t, u);
    }
  }

  /** What ties after a cheapest join `k` already tied before, unless it shares a cluster with `k`. */
  lemma TieBefore(e: Energy, p: Partition, js: seq<Join>, k: Join, s: set<nat>, t: set<nat>)
    requires PairEnergy(e) && IsPartition(p) && HarmlessTies(e, p, js) && js != []
    requires k in js && Cheapest(e, p, k) && Tied(e, Apply(p, k), k.height, s, t)
    ensures Joined(js, s, t) && s != k.a && s != k.b && t != k.a && t != k.b
  {
    HarmlessIsGreedy(e, p, js);
    GreedyIsJoinRun(e, p, js);
    ApplyIsPartition(e, p, k);
    JoinedIsLarger(e, p, k);
    CostSymmetric(e, s, t);
    var (u, v) := if s == k.a + k.b then (s, t) else (t, s);
    if u == k.a + k.b {
      TieOfUnion(e, p, k, v);
      assert Tied(e, p, js[0].height, k.a, v);
      assert Joined(js, k.a, k.b);
      JoinedWithOne(e, p, js, k.a, k.b, v);
      assert false;
    }
    assert Tied(e, p, js[0].height, s, t);
  }

  /** A harmless run joins every cheapest pair. */
  lemma CheapestIsJoined(e: Energy, p: Partition, js: seq<Join>, k: Join)
    requires IsPartition(p) && HarmlessTies(e, p, js) && js != [] && Cheapest(e, p, k)
    ensures k in js && k.height == js[0].height
  {
    assert Tied(e, p, js[0].height, k.a, k.b);
    HarmlessIsGreedy(e, p, js);
    GreedyIsJoinRun(e, p, js);
    var x :| x in js && {k.a, k.b} == {x.a, x.b};
    var i :| 0 <= i < |js| && js[i] == x;
    JoinRunAt(e, p, js, i);
    JoinIsDetermined(e, p, After(p, js[..i]), k, x);
  }

  lemma KeepsApart(e: Energy, p: Partition, js: seq<Join>, k: Join)
    requires IsPartition(p) && HarmlessTies(e, p, js) && k in js && k != js[0] && Joins(e, p, k)
    ensures {js[0].a, js[0].b} !! {k.a, k.b}
  {
    HarmlessIsGreedy(e, p, js);
    GreedyIsJoinRun(e, p, js);
    assert Joined(js, k.a, k.b);
    JoinedOnce(e, p, js, k.a, k.b);
    if {k.a, k.b} == {js[0].a, js[0].b} {
      JoinIsDetermined(e, p, p, k, js[0]);
    }
  }

  /** Taking join `k` out of a run still joins every other pair. */
  lemma JoinedWithout(js: seq<Join>, rest: seq<Join>, k: Join, s: set<nat>, t: set<nat>)
    requires Joined(js, s, t) && s != k.a && s != k.b && forall x :: x in js ==> x == k || x in rest
    ensures Joined(rest, s, t)
  {
    var x :| x in js && {s, t} == {x.a, x.b};
    assert s in {x.a, x.b};
  }

  lemma HarmlessOfCons(e: Energy, p: Partition, j: Join, later: seq<Join>, rest: seq<Join>)
    requires rest == [j] + later && Cheapest(e, p, j) && HarmlessTies(e, Apply(p, j), later)
    requires forall s, t :: Tied(e, p, j.height, s, t) ==> Joined(rest, s, t)
    ensures HarmlessTies(e, p, rest) && After(p, rest) == After(Apply(p, j), later)
  {
    assert rest[1..] == later;
  }

  /** Two independent cheapest joins can be made in either order. */
  lemma CheapestCommute(e: Energy, p: Partition, j: Join, k: Join)
    requires PairEnergy(e) && IsPartition(p) && Cheapest(e, p, j) && Cheapest(e, p, k)
    requires j.height == k.height && {j.a, j.b} !! {k.a, k.b}
    ensures Cheapest(e, Apply(p, j), k) && Cheapest(e, Apply(p, k), j)
    ensures Apply(Apply(p, k), j) == Apply(Apply(p, j), k)
  {
    CheapestStaysCheapest(e, p, j, k);
    CheapestStaysCheapest(e, p, k, j);
    ApplyIsPartition(e, p, j);
    ApplyIsPartition(e, p, k);
    assert k.a !in {j.a, j.b} && k.b !in {j.a, j.b};
    ApplyCommutes(p, j, k);
  }

  lemma HarmlessMoved(e: Energy, p: Partition, js: seq<Join>, k: Join, later: seq<Join>, rest: seq<Join>)
    requires PairEnergy(e) && IsPartition(p) && HarmlessTies(e, p, js)
    requires k in js && Cheapest(e, p, k) && k != js[0] && rest == [js[0]] + later
    requires HarmlessTies(e, Apply(Apply(p, js[0]), k), later) && forall x :: x in js[1..] ==> x == k || x in later
    ensures HarmlessTies(e, Apply(p, k), rest)
    ensures After(Apply(p, k), rest) == After(Apply(Apply(p, js[0]), k), later)
  {
    var j := js[0];
    KeepsApart(e, p, js, k);
    CheapestCommute(e, p, j, k);
    forall s, t | Tied(e, Apply(p, k), j.height, s, t)
      ensures Joined(rest, s, t)
    {
      TieBefore(e, p, js, k, s, t);
      JoinedWithout(js, rest, k, s, t);
    }
    HarmlessOfCons(e, Apply(p, k), j, later, rest);
  }

  /** A cheapest pair that a harmless run joins later may as well be joined first. */
  lemma {:induction false} MoveToFront(e: Energy, p: Partition, js: seq<Join>, k: Join) returns (rest: seq<Join>)
    requires PairEnergy(e) && IsPartition(p) && HarmlessTies(e, p, js)
    requires k in js && Cheapest(e, p, k)
    ensures |rest| == |js| - 1 && HarmlessTies(e, Apply(p, k), rest)
    ensures After(Apply(p, k), rest) == After(p, js)
    ensures forall x :: x in js ==> x == k || x in rest
    decreases js
  {
    var j := js[0];
    if k == j {
      rest := js[1..];
    } else {
      KeepsApart(e, p, js, k);
      CheapestCommute(e, p, j, k);
      ApplyIsPartition(e, p, j);
      var later := MoveToFront(e, Apply(p, j), js[1..], k);
      rest := [j] + later;
      HarmlessMoved(e, p, js, k, later, rest);
    }
  }

  lemma GreedyTail(e: Energy, p: Partition, ks: seq<Join>) returns (q: Partition, rest: seq<Join>)
    requires IsPartition(p) && GreedyRun(e, p, ks) && ks != []
    ensures q == Apply(p, ks[0]) && rest == ks[1..] && Cheapest(e, p, ks[0])
    ensures IsPartition(q) && |q| == |p| - 1 && GreedyRun(e, q, rest) && After(p, ks) == After(q, rest)
  {
    q, rest := Apply(p, ks[0]), ks[1..];
    ApplyIsPartition(e, p, ks[0]);
  }

  /** With harmless ties there is one greedy clustering: every greedy run of the same length
      ends in the same partition. */
  lemma {:induction false} HarmlessTiesEndAlike(e: Energy, p: Partition, js: seq<Join>, ks: seq<Join>)
    requires PairEnergy(e) && IsPartition(p) && HarmlessTies(e, p, js)
    requires GreedyRun(e, p, ks) && |ks| == |js|
    ensures After(p, js) == After(p, ks)
    decreases |js|
  {
    if js != [] {
      var q, later := GreedyTail(e, p, ks);
      CheapestIsJoined(e, p, js, ks[0]);
      var rest := MoveToFront(e, p, js, ks[0]);
      HarmlessTiesEndAlike(e, q, rest, later);
    }
  }

  // ----- Other ties can make a difference

  ghost predicate Minimal(e: Energy, p: Partition, h: real) {
    forall s, t :: s in p && t in p && s != t ==> Cost(e, s, t) >= h
  }

  lemma {:induction false} LowestPair(e: Energy, pairs: set<(set<nat>, set<nat>)>) returns (low: (set<nat>, set<nat>))
    requires pairs != {}
    ensures low in pairs && forall q :: q in pairs ==> Cost(e, q.0, q.1) >= Cost(e, low.0, low.1)
    decreases |pairs|
  {
    low :| low in pairs;
    if pairs != {low} {
      var other := LowestPair(e, pairs - {low});
      if Cost(e, other.0, other.1) < Cost(e, low.0, low.1) {
        low := other;
      }
    }
  }

  lemma JoinFor(e: Energy, p: Partition, s: set<nat>, t: set<nat>) returns (j: Join)
    requires IsPartition(p) && s in p && t in p && s != t
    ensures Joins(e, p, j) && {j.a, j.b} == {s, t} && j.height == Cost(e, s, t)
  {
    HasLargest(s);
    HasLargest(t);
    var x: nat :| LargestIn(x, s);
    var y: nat :| LargestIn(y, t);
    CostSymmetric(e, s, t);
    assert x != y;
    j := if x < y then Join(Cost(e, s, t), s, t, x, y) else Join(Cost(e, s, t), t, s, y, x);
  }

  lemma TwoClusters(p: Partition) returns (s: set<nat>, t: set<nat>)
    requires |p| >= 2
    ensures s in p && t in p && s != t
  {
    s :| s in p;
    assert |p - {s}| >= 1;
    t :| t in p - {s};
  }

  lemma SomeCheapest(e: Energy, p: Partition) returns (j: Join)
    requires IsPartition(p) && |p| >= 2
    ensures Cheapest(e, p, j)
  {
    var pairs := set s, t | s in p && t in p && s != t :: (s, t);
    var u, v := TwoClusters(p);
    assert (u, v) in pairs;
    var low := LowestPair(e, pairs);
    j := JoinFor(e, p, low.0, low.1);
    forall s, t | s in p && t in p && s != t
      ensures Cost(e, s, t) >= j.height
    {
      assert (s, t) in pairs;
    }
  }

  /** Greedy clustering never gets stuck before a single cluster is left. */
  lemma {:induction false} GreedyGoesOn(e: Energy, p: Partition, m: nat) returns (ks: seq<Join>)
    requires IsPartition(p) && m < |p|
    ensures GreedyRun(e, p, ks) && |ks| == m
    decreases m
  {
    ks := [];
    if m > 0 {
      var k := SomeCheapest(e, p);
      ApplyIsPartition(e, p, k);
      var rest := GreedyGoesOn(e, Apply(p, k), m - 1);
      GreedyOfCons(e, p, k, rest);
      ks := [k] + rest;
    }
  }

  /** A greedy run can be continued until a single cluster is left. */
  lemma {:induction false} GreedyContinues(e: Energy, p: Partition, js: seq<Join>, m: nat) returns (ks: seq<Join>)
    requires IsPartition(p) && GreedyRun(e, p, js) && |js| <= m < |p|
    ensures GreedyRun(e, p, ks) && |ks| == m && ks[..|js|] == js
    decreases js
  {
    if js == [] {
      ks := GreedyGoesOn(e, p, m);
    } else {
      var q, later := GreedyTail(e, p, js);
      var rest := GreedyContinues(e, q, later, m - 1);
      GreedyOfCons(e, p, js[0], rest);
      ks := [js[0]] + rest;
      assert ks[..|js|] == [js[0]] + rest[..|later|];
    }
  }

  /** A greedy run that starts with a given cheapest pair, and does not leave it apart. */
  lemma RunThrough(e: Energy, p: Partition, s: set<nat>, t: set<nat>, m: nat) returns (ks: seq<Join>)
    requires IsPartition(p) && Tied(e, p, Cost(e, s, t), s, t) && Minimal(e, p, Cost(e, s, t)) && 0 < m < |p|
    ensures GreedyRun(e, p, ks) && |ks| == m && s !in After(p, ks)
  {
    var k := JoinFor(e, p, s, t);
    ApplyIsPartition(e, p, k);
    JoinedIsLarger(e, p, k);
    var rest := GreedyGoesOn(e, Apply(p, k), m - 1);
    GreedyOfCons(e, p, k, rest);
    GreedyIsJoinRun(e, Apply(p, k), rest);
    assert s in {k.a, k.b};
    AbsorbedStaysGone(e, Apply(p, k), rest, s, k.a + k.b);
    ks := [k] + rest;
  }

  /** Where ties are disjoint, a cheapest pair the run never joins stays as it is. */
  lemma {:induction false} UnjoinedStays(e: Energy, p: Partition, js: seq<Join>, h: real, s: set<nat>, t: set<nat>)
    requires PairEnergy(e) && IsPartition(p) && GreedyRun(e, p, js) && DisjointTies(e, p, js)
    requires Tied(e, p, h, s, t) && Minimal(e, p, h) && !Joined(js, s, t)
    ensures s in After(p, js) && t in After(p, js)
    decreases js
  {
    if js != [] {
      var j := js[0];
      assert j in js && j.height == h;
      assert {s, t} !! {j.a, j.b};
      assert s !in {j.a, j.b} && t !in {j.a, j.b};
      forall u, v | u in Apply(p, j) && v in Apply(p, j) && u != v
        ensures Cost(e, u, v) >= h
      {
        JoinStaysFar(e, p, j, u, v);
      }
      var q, rest := GreedyTail(e, p, js);
      assert !Joined(rest, s, t) by {
        assert forall x :: x in rest ==> x in js;
      }
      UnjoinedStays(e, q, rest, h, s, t);
    }
  }

  lemma UnjoinedTieMatters(e: Energy, p: Partition, js: seq<Join>, s: set<nat>, t: set<nat>) returns (ks: seq<Join>)
    requires PairEnergy(e) && IsPartition(p) && GreedyRun(e, p, js) && DisjointTies(e, p, js)
    requires js != [] && Tied(e, p, js[0].height, s, t) && !Joined(js, s, t)
    ensures GreedyRun(e, p, ks) && |ks| == |js| && After(p, ks) != After(p, js)
  {
    UnjoinedStays(e, p, js, js[0].height, s, t);
    GreedyIsJoinRun(e, p, js);
    JoinRunIsPartition(e, p, js);
    TwoMembers(After(p, js), s, t);
    ks := RunThrough(e, p, s, t, |js|);
  }

  lemma EndsOnlyInTail(e: Energy, p: Partition, js: seq<Join>, r: Partition)
    requires GreedyRun(e, p, js) && js != [] && EndsOnlyIn(e, p, |js|, r)
    ensures EndsOnlyIn(e, Apply(p, js[0]), |js| - 1, r)
  {
    forall ks | GreedyRun(e, Apply(p, js[0]), ks) && |ks| == |js| - 1
      ensures After(Apply(p, js[0]), ks) == r
    {
      GreedyOfCons(e, p, js[0], ks);
      assert |[js[0]] + ks| == |js|;
    }
  }

  lemma {:induction false} OneOutcomeIsHarmless(e: Energy, p: Partition, js: seq<Join>)
    requires PairEnergy(e) && IsPartition(p) && GreedyRun(e, p, js) && DisjointTies(e, p, js)
    requires EndsOnlyIn(e, p, |js|, After(p, js))
    ensures HarmlessTies(e, p, js)
    decreases js
  {
    if js != [] {
      forall s, t | Tied(e, p, js[0].height, s, t)
        ensures Joined(js, s, t)
      {
        if !Joined(js, s, t) {
          var ks := UnjoinedTieMatters(e, p, js, s, t);
          assert false;
        }
      }
      EndsOnlyInTail(e, p, js, After(p, js));
      var q, rest := GreedyTail(e, p, js);
      OneOutcomeIsHarmless(e, q, rest);
    }
  }

  lemma {:induction false} HarmlessIsDisjoint(e: Energy, p: Partition, js: seq<Join>)
    requires IsPartition(p) && HarmlessTies(e, p, js)
    ensures DisjointTies(e, p, js)
    decreases js
  {
    if js != [] {
      HarmlessIsGreedy(e, p, js);
      GreedyIsJoinRun(e, p, js);
      forall s, t | Tied(e, p, js[0].height, s, t)
        ensures {s, t} == {js[0].a, js[0].b} || {s, t} !! {js[0].a, js[0].b}
      {
        JoinedOnce(e, p, js, s, t);
      }
      ApplyIsPartition(e, p, js[0]);
      HarmlessIsDisjoint(e, Apply(p, js[0]), js[1..]);
    }
  }

  /** The ties of a greedy run are harmless exactly when tied pairs never share a cluster and
      every greedy run of the same length ends in the same partition. */
  lemma HarmlessIffOneOutcome(e: Energy, p: Partition, js: seq<Join>)
    requires PairEnergy(e) && IsPartition(p) && GreedyRun(e, p, js)
    ensures HarmlessTies(e, p, js) <==> DisjointTies(e, p, js) && EndsOnlyIn(e, p, |js|, After(p, js))
  {
    if HarmlessTies(e, p, js) {
      HarmlessIsDisjoint(e, p, js);
      forall ks | GreedyRun(e, p, ks) && |ks| == |js|
        ensures After(p, ks) == After(p, js)
      {
        HarmlessTiesEndAlike(e, p, js, ks);
      }
    }
    if DisjointTies(e, p, js) && EndsOnlyIn(e, p, |js|, After(p, js)) {
      OneOutcomeIsHarmless(e, p, js);
    }
  }

  lemma EqualCosts(e: Energy, p: Partition, j: Join)
    requires Joins(e, p, j) && forall s, t :: s in p && t in p && s != t ==> Cost(e, s, t) == j.height
    ensures GreedyRun(e, p, [j]) && After(p, [j]) == Apply(p, j)
  {
    assert [j][1..] == [];
  }

  lemma DifferentJoins(e: Energy, p: Partition, h: real, j: Join, k: Join)
    requires p == {{0}, {1}, {2}} && forall s, t :: s in p && t in p && s != t ==> Cost(e, s, t) == h
    requires j == Join(h, {0}, {1}, 0, 1) && k == Join(h, {1}, {2}, 1, 2)
    ensures GreedyRun(e, p, [j]) && GreedyRun(e, p, [k]) && After(p, [j]) != After(p, [k])
  {
    assert {0} in p && {1} in p && {2} in p;
    assert 0 in {0} && 1 in {1} && 2 in {2};
    EqualCosts(e, p, j);
    EqualCosts(e, p, k);
    assert {0} in Apply(p, k) && {0} !in Apply(p, j) by {
      assert 1 in {0} + {1} && 1 in {1} + {2};
    }
  }

  /** Three points at the same distance: either of two greedy first joins is possible, and
      they leave different clusters. */
  lemma TieCanMatter(c: seq<real>, p: Partition) returns (js: seq<Join>, ks: seq<Join>)
    requires c == [1.0, 1.0, 1.0] && p == {{0}, {1}, {2}}
    ensures |c| == PairCount(3) && |js| == |ks| == 1
    ensures GreedyRun(WardEnergy(c, 3), p, js) && GreedyRun(WardEnergy(c, 3), p, ks)
    ensures After(p, js) != After(p, ks)
  {
    assert PairCount(3) == 3;
    forall s, t | s in p && t in p && s != t
      ensures Cost(WardEnergy(c, 3), s, t) == 1.0
    {
      var i: nat :| i < 3 && s == {i};
      var k: nat :| k < 3 && t == {k};
      CostOfSingletons(c, 3, i, k);
    }
    js, ks := [Join(1.0, {0}, {1}, 0, 1)], [Join(1.0, {1}, {2}, 1, 2)];
    DifferentJoins(WardEnergy(c, 3), p, 1.0, js[0], ks[0]);
  }
}
