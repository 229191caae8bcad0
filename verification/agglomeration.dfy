/** Agglomerative clustering, one join at a time, over set partitions.

    A reciprocal run is what a nearest-neighbour chain finds: each join is locally
    cheapest. A greedy run is what agglomerative clustering is defined to be: each
    join is globally cheapest. The main result is that stably sorting a complete
    reciprocal run by height gives a greedy run. */
module Agglomeration {
  import opened Ward

  type Partition = set<set<nat>>

  /** Clusters `a` and `b`, whose largest members are `x` and `y`, joined at `height`. */
  datatype Join = Join(height: real, a: set<nat>, b: set<nat>, x: nat, y: nat)

  ghost predicate IsPartition(p: Partition) {
    && {} !in p
    && forall s, t :: s in p && t in p && s != t ==> s !! t
  }

  ghost predicate LargestIn(x: nat, s: set<nat>) {
    x in s && forall i :: i in s ==> i <= x
  }

  lemma {:induction false} HasLargest(s: set<nat>)
    requires s != {}
    ensures exists x: nat :: LargestIn(x, s)
    decreases |s|
  {
    var i :| i in s;
    if s == {i} {
      assert LargestIn(i, s);
    } else {
      HasLargest(s - {i});
      var x: nat :| LargestIn(x, s - {i});
      var top := if i < x then x else i;
      forall k | k in s
        ensures k <= top
      {
        assert k == i || k in s - {i};
      }
      assert LargestIn(top, s);
    }
  }

  ghost predicate Joins(e: Energy, p: Partition, j: Join) {
    && j.a in p && j.b in p && j.a != j.b
    && LargestIn(j.x, j.a) && LargestIn(j.y, j.b) && j.x < j.y
    && j.height == Cost(e, j.a, j.b)
  }

  function Apply(p: Partition, j: Join): Partition {
    p - {j.a, j.b} + {j.a + j.b}
  }

  function After(p: Partition, js: seq<Join>): Partition
    decreases js
  {
    if js == [] then p else After(Apply(p, js[0]), js[1..])
  }

  /** Neither joined cluster is closer than the join's height to any other cluster. */
  ghost predicate Reciprocal(e: Energy, p: Partition, j: Join) {
    && Joins(e, p, j)
    && (forall q :: q in p && q != j.a ==> Cost(e, j.a, q) >= j.height)
    && (forall q :: q in p && q != j.b ==> Cost(e, j.b, q) >= j.height)
  }

  ghost predicate ReciprocalRun(e: Energy, p: Partition, js: seq<Join>)
    decreases js
  {
    js == [] || (Reciprocal(e, p, js[0]) && ReciprocalRun(e, Apply(p, js[0]), js[1..]))
  }

  /** No two clusters are closer than the two joined. */
  ghost predicate Cheapest(e: Energy, p: Partition, j: Join) {
    && Joins(e, p, j)
    && forall s, t :: s in p && t in p && s != t ==> Cost(e, s, t) >= j.height
  }

  ghost predicate GreedyRun(e: Energy, p: Partition, js: seq<Join>)
    decreases js
  {
    js == [] || (Cheapest(e, p, js[0]) && GreedyRun(e, Apply(p, js[0]), js[1..]))
  }

  /** Any sequence of joins, in whatever order. */
  ghost predicate JoinRun(e: Energy, p: Partition, js: seq<Join>)
    decreases js
  {
    js == [] || (Joins(e, p, js[0]) && JoinRun(e, Apply(p, js[0]), js[1..]))
  }

  lemma {:induction false} ReciprocalIsJoinRun(e: Energy, p: Partition, js: seq<Join>)
    requires ReciprocalRun(e, p, js)
    ensures JoinRun(e, p, js)
    decreases js
  {
    if js != [] {
      ReciprocalIsJoinRun(e, Apply(p, js[0]), js[1..]);
    }
  }

  lemma {:induction false} GreedyIsJoinRun(e: Energy, p: Partition, js: seq<Join>)
    requires GreedyRun(e, p, js)
    ensures JoinRun(e, p, js)
    decreases js
  {
    if js != [] {
      GreedyIsJoinRun(e, Apply(p, js[0]), js[1..]);
    }
  }

  lemma ApplyIsPartition(e: Energy, p: Partition, j: Join)
    requires IsPartition(p) && Joins(e, p, j)
    ensures IsPartition(Apply(p, j)) && |Apply(p, j)| == |p| - 1
    ensures j.a + j.b !in p
  {
    if j.a + j.b in p {
      assert false;
    }
  }

  lemma {:induction false} ReciprocalRunSnoc(e: Energy, p: Partition, js: seq<Join>, j: Join)
    requires ReciprocalRun(e, p, js) && Reciprocal(e, After(p, js), j)
    ensures ReciprocalRun(e, p, js + [j]) && After(p, js + [j]) == Apply(After(p, js), j)
    decreases js
  {
    if js == [] {
      assert (js + [j])[1..] == [];
    } else {
      ReciprocalRunSnoc(e, Apply(p, js[0]), js[1..], j);
      assert (js + [j])[1..] == js[1..] + [j];
    }
  }

  lemma {:induction false} JoinRunIsPartition(e: Energy, p: Partition, js: seq<Join>)
    requires IsPartition(p) && JoinRun(e, p, js)
    ensures IsPartition(After(p, js)) && |After(p, js)| == |p| - |js|
    decreases js
  {
    if js != [] {
      ApplyIsPartition(e, p, js[0]);
      JoinRunIsPartition(e, Apply(p, js[0]), js[1..]);
    }
  }

  lemma RunTail(e: Energy, p: Partition, js: seq<Join>) returns (q: Partition, rest: seq<Join>)
    requires IsPartition(p) && ReciprocalRun(e, p, js) && js != []
    ensures q == Apply(p, js[0]) && rest == js[1..]
    ensures IsPartition(q) && ReciprocalRun(e, q, rest)
  {
    q, rest := Apply(p, js[0]), js[1..];
    ApplyIsPartition(e, p, js[0]);
  }

  // ----- No inversions

  ghost predicate Uses(j: Join, z: set<nat>) {
    j.a == z || j.b == z
  }

  /** Cluster `z` is at least `h` away from every other cluster. */
  ghost predicate Apart(e: Energy, p: Partition, z: set<nat>, h: real) {
    z in p && forall q :: q in p && q != z ==> Cost(e, z, q) >= h
  }

  lemma JoinedIsApart(e: Energy, p: Partition, j: Join)
    requires PairEnergy(e) && IsPartition(p) && Reciprocal(e, p, j)
    ensures Apart(e, Apply(p, j), j.a + j.b, j.height)
  {
    forall q | q in Apply(p, j) && q != j.a + j.b
      ensures Cost(e, j.a + j.b, q) >= j.height
    {
      Reducible(e, j.a, j.b, q, j.height);
    }
  }

  lemma ApartIsKept(e: Energy, p: Partition, j: Join, z: set<nat>, h: real)
    requires PairEnergy(e) && IsPartition(p) && Reciprocal(e, p, j)
    requires Apart(e, p, z, h) && z != j.a && z != j.b
    ensures Apart(e, Apply(p, j), z, h)
  {
    CostSymmetric(e, z, j.a);
    CostSymmetric(e, z, j.b);
    CostSymmetric(e, z, j.a + j.b);
    var (ca, cb) := (Cost(e, z, j.a), Cost(e, z, j.b));
    Reducible(e, j.a, j.b, z, if ca < cb then ca else cb);
  }

  /** A cluster that has been absorbed by a larger one is not joined again. */
  lemma {:induction false} AbsorbedIsGone(e: Energy, p: Partition, js: seq<Join>, t: nat, z: set<nat>, q: set<nat>)
    requires IsPartition(p) && JoinRun(e, p, js) && t < |js|
    requires q in p && z < q && z != {}
    ensures !Uses(js[t], z)
    decreases t
  {
    if t > 0 {
      ApplyIsPartition(e, p, js[0]);
      AbsorbedIsGone(e, Apply(p, js[0]), js[1..], t - 1, z,
        if q == js[0].a || q == js[0].b then js[0].a + js[0].b else q);
    }
  }

  lemma JoinedIsLarger(e: Energy, p: Partition, j: Join)
    requires IsPartition(p) && Joins(e, p, j)
    ensures j.a < j.a + j.b && j.b < j.a + j.b && j.a != {} && j.b != {}
  {
    assert j.x !in j.b && j.y !in j.a;
  }

  lemma UsedUpIsGone(e: Energy, p: Partition, js: seq<Join>, t: nat, z: set<nat>)
    requires IsPartition(p) && JoinRun(e, p, js) && 0 < t < |js| && Uses(js[0], z)
    ensures !Uses(js[t], z)
  {
    var (j, rest) := (js[0], js[1..]);
    assert rest[t - 1] == js[t];
    ApplyIsPartition(e, p, j);
    JoinedIsLarger(e, p, j);
    AbsorbedIsGone(e, Apply(p, j), rest, t - 1, z, j.a + j.b);
  }

  lemma {:induction false} UseOfApart(e: Energy, p: Partition, js: seq<Join>, t: nat, z: set<nat>, h: real)
    requires PairEnergy(e) && IsPartition(p) && ReciprocalRun(e, p, js)
    requires Apart(e, p, z, h)
    requires t < |js| && Uses(js[t], z)
    ensures js[t].height >= h
    decreases t
  {
    if t == 0 {
      CostSymmetric(e, js[0].a, js[0].b);
    } else {
      if Uses(js[0], z) {
        ReciprocalIsJoinRun(e, p, js);
        UsedUpIsGone(e, p, js, t, z);
      }
      var q, rest := RunTail(e, p, js);
      assert rest[t - 1] == js[t];
      ApartIsKept(e, p, js[0], z, h);
      UseOfApart(e, q, rest, t - 1, z, h);
    }
  }

  /** Join `k` uses the cluster that join `j` forms. */
  ghost predicate Feeds(j: Join, k: Join) {
    Uses(k, j.a + j.b)
  }

  lemma FirstIsLowest(e: Energy, p: Partition, js: seq<Join>, t: nat, k: Join)
    requires PairEnergy(e) && IsPartition(p) && ReciprocalRun(e, p, js)
    requires 0 < t < |js| && k == js[t] && Feeds(js[0], k)
    ensures js[0].height <= k.height
  {
    var j := js[0];
    var q, rest := RunTail(e, p, js);
    JoinedIsApart(e, p, j);
    assert rest[t - 1] == k;
    UseOfApart(e, q, rest, t - 1, j.a + j.b, j.height);
  }

  lemma AfterOfTake(p: Partition, js: seq<Join>, s: nat)
    requires 0 < s <= |js|
    ensures After(p, js[..s]) == After(Apply(p, js[0]), js[1..][..s - 1]) && js[s..] == js[1..][s - 1..]
  {
    assert js[..s][1..] == js[1..][..s - 1];
  }

  /** No height inversions: a join `k` that uses the cluster an earlier join `j` formed is
      never lower than `j`. */
  lemma {:induction false} NoInversions(e: Energy, p: Partition, js: seq<Join>, s: nat, t: nat, j: Join, k: Join)
    requires PairEnergy(e) && IsPartition(p) && ReciprocalRun(e, p, js)
    requires s < t < |js| && j == js[s] && k == js[t] && Feeds(j, k)
    ensures j.height <= k.height
    decreases s
  {
    if s == 0 {
      FirstIsLowest(e, p, js, t, k);
    } else {
      var q, rest := RunTail(e, p, js);
      assert rest[s - 1] == j && rest[t - 1] == k;
      NoInversions(e, q, rest, s - 1, t - 1, j, k);
    }
  }

  /** Once absorbed by a larger cluster, a cluster does not come back. */
  lemma {:induction false} AbsorbedStaysGone(e: Energy, p: Partition, js: seq<Join>, z: set<nat>, q: set<nat>)
    requires IsPartition(p) && JoinRun(e, p, js)
    requires q in p && z < q && z != {}
    ensures z !in After(p, js)
    decreases js
  {
    if js != [] {
      ApplyIsPartition(e, p, js[0]);
      AbsorbedStaysGone(e, Apply(p, js[0]), js[1..], z,
        if q == js[0].a || q == js[0].b then js[0].a + js[0].b else q);
    }
  }

  lemma {:induction false} ApartToTheEnd(e: Energy, p: Partition, js: seq<Join>, z: set<nat>, h: real)
    requires PairEnergy(e) && IsPartition(p) && ReciprocalRun(e, p, js)
    requires Apart(e, p, z, h) && z in After(p, js)
    ensures Apart(e, After(p, js), z, h)
    decreases js
  {
    if js != [] {
      var j := js[0];
      var q, rest := RunTail(e, p, js);
      if Uses(j, z) {
        ReciprocalIsJoinRun(e, q, rest);
        JoinedIsLarger(e, p, j);
        AbsorbedStaysGone(e, q, rest, z, j.a + j.b);
      }
      ApartIsKept(e, p, j, z, h);
      ApartToTheEnd(e, q, rest, z, h);
    }
  }

  /** In every partition a run reaches, each cluster `z` that one of its joins formed is at
      least its own formation height away from every other cluster. */
  lemma {:induction false} FormedIsApart(e: Energy, p: Partition, js: seq<Join>, s: nat, z: set<nat>)
    requires PairEnergy(e) && IsPartition(p) && ReciprocalRun(e, p, js)
    requires s < |js| && z == js[s].a + js[s].b && z in After(p, js)
    ensures Apart(e, After(p, js), z, js[s].height)
    decreases s
  {
    var q, rest := RunTail(e, p, js);
    if s == 0 {
      JoinedIsApart(e, p, js[0]);
      ApartToTheEnd(e, q, rest, z, js[0].height);
    } else {
      assert rest[s - 1] == js[s];
      FormedIsApart(e, q, rest, s - 1, z);
    }
  }

  // ----- Exchanging two adjacent joins that are out of height order

  lemma OutOfOrderIsIndependent(e: Energy, p: Partition, j: Join, k: Join)
    requires PairEnergy(e) && IsPartition(p) && Reciprocal(e, p, j) && Reciprocal(e, Apply(p, j), k)
    requires k.height < j.height
    ensures k.a in p && k.b in p && k.a != j.a && k.a != j.b && k.b != j.a && k.b != j.b
  {
    JoinedIsApart(e, p, j);
    ApplyIsPartition(e, p, j);
    CostSymmetric(e, k.a, k.b);
  }

  lemma ExchangeFirst(e: Energy, p: Partition, j: Join, k: Join)
    requires PairEnergy(e) && IsPartition(p) && Reciprocal(e, p, j) && Reciprocal(e, Apply(p, j), k)
    requires k.height < j.height
    ensures Reciprocal(e, p, k)
  {
    OutOfOrderIsIndependent(e, p, j, k);
    forall q | q in p
      ensures q != k.a ==> Cost(e, k.a, q) >= k.height
      ensures q != k.b ==> Cost(e, k.b, q) >= k.height
    {
      if q == j.a || q == j.b {
        CostSymmetric(e, q, k.a);
        CostSymmetric(e, q, k.b);
      } else {
        assert q in Apply(p, j);
      }
    }
  }

  lemma ExchangeSecond(e: Energy, p: Partition, j: Join, k: Join)
    requires PairEnergy(e) && IsPartition(p) && Reciprocal(e, p, j) && Reciprocal(e, Apply(p, j), k)
    requires k.height < j.height
    ensures Reciprocal(e, Apply(p, k), j)
  {
    OutOfOrderIsIndependent(e, p, j, k);
    forall z | z == j.a || z == j.b
      ensures Cost(e, z, k.a + k.b) >= j.height
    {
      CostSymmetric(e, z, k.a);
      CostSymmetric(e, z, k.b);
      CostSymmetric(e, z, k.a + k.b);
      Reducible(e, k.a, k.b, z, j.height);
    }
  }

  lemma ApplyCommutes(p: Partition, j: Join, k: Join)
    requires k.a in p && k.b in p && j.a in p && j.b in p
    requires k.a != j.a && k.a != j.b && k.b != j.a && k.b != j.b
    requires j.a + j.b !in p && k.a + k.b !in p
    ensures Apply(Apply(p, k), j) == Apply(Apply(p, j), k)
  {
  }

  lemma Exchange(e: Energy, p: Partition, j: Join, k: Join)
    requires PairEnergy(e) && IsPartition(p) && Reciprocal(e, p, j) && Reciprocal(e, Apply(p, j), k)
    requires k.height < j.height
    ensures Reciprocal(e, p, k) && Reciprocal(e, Apply(p, k), j)
    ensures Apply(Apply(p, k), j) == Apply(Apply(p, j), k)
  {
    ExchangeFirst(e, p, j, k);
    ExchangeSecond(e, p, j, k);
    OutOfOrderIsIndependent(e, p, j, k);
    ApplyIsPartition(e, p, j);
    ApplyIsPartition(e, p, k);
    ApplyCommutes(p, j, k);
  }

  // ----- The stable sort

  ghost predicate IndicesIn(order: seq<nat>, lo: nat, hi: nat) {
    forall t :: 0 <= t < |order| ==> lo <= order[t] < hi
  }

  /** `i` placed into `order` before the first index whose key is not below its own. */
  function Insert(keys: seq<real>, i: nat, order: seq<nat>): (r: seq<nat>)
    requires i < |keys| && IndicesIn(order, 0, |keys|)
    ensures IndicesIn(r, 0, |keys|) && |r| == |order| + 1
    ensures forall lo: nat :: lo <= i && IndicesIn(order, lo, |keys|) ==> IndicesIn(r, lo, |keys|)
  {
    if order == [] || keys[i] <= keys[order[0]] then [i] + order
    else
      assert forall lo: nat :: IndicesIn(order, lo, |keys|) ==> IndicesIn(order[1..], lo, |keys|);
      [order[0]] + Insert(keys, i, order[1..])
  }

  /** The indices from `i` on, stably sorted by key. */
  function StableOrder(keys: seq<real>, i: nat): (r: seq<nat>)
    requires i <= |keys|
    ensures IndicesIn(r, i, |keys|) && |r| == |keys| - i
    decreases |keys| - i
  {
    if i == |keys| then [] else
      var rest := StableOrder(keys, i + 1);
      assert IndicesIn(rest, i, |keys|);
      Insert(keys, i, rest)
  }

  ghost predicate Before(keys: seq<real>, i: nat, j: nat)
    requires i < |keys| && j < |keys|
  {
    keys[i] < keys[j] || (keys[i] == keys[j] && i < j)
  }

  /** Sorted by key, and by position where keys are equal. */
  ghost predicate StablySorted(keys: seq<real>, order: seq<nat>)
    requires IndicesIn(order, 0, |keys|)
  {
    forall s, t :: 0 <= s < t < |order| ==> Before(keys, order[s], order[t])
  }

  lemma {:induction false} InsertContains(keys: seq<real>, i: nat, order: seq<nat>, o: nat)
    requires i < |keys| && IndicesIn(order, 0, |keys|)
    ensures o in Insert(keys, i, order) <==> o == i || o in order
    decreases order
  {
    if order != [] && keys[i] > keys[order[0]] {
      InsertContains(keys, i, order[1..], o);
    }
  }

  lemma {:induction false} InsertSorts(keys: seq<real>, i: nat, order: seq<nat>)
    requires i < |keys| && IndicesIn(order, i + 1, |keys|)
    requires StablySorted(keys, order)
    ensures StablySorted(keys, Insert(keys, i, order))
    decreases order
  {
    if order != [] && keys[i] > keys[order[0]] {
      InsertSorts(keys, i, order[1..]);
      var r := Insert(keys, i, order[1..]);
      forall t | 0 <= t < |r|
        ensures Before(keys, order[0], r[t])
      {
        InsertContains(keys, i, order[1..], r[t]);
        assert r[t] in r;
      }
    }
  }

  /** `StableOrder` lists every index once, sorted by key and, among equal keys, by position. */
  lemma {:induction false} StableOrderSorts(keys: seq<real>, i: nat)
    requires i <= |keys|
    ensures StablySorted(keys, StableOrder(keys, i))
    ensures forall o :: i <= o < |keys| ==> o in StableOrder(keys, i)
    decreases |keys| - i
  {
    if i < |keys| {
      StableOrderSorts(keys, i + 1);
      InsertSorts(keys, i, StableOrder(keys, i + 1));
      forall o | i <= o < |keys|
        ensures o in StableOrder(keys, i)
      {
        InsertContains(keys, i, StableOrder(keys, i + 1), o);
      }
    }
  }

  lemma FirstIsMember(s: seq<nat>)
    ensures s != [] ==> s[0] in s
  {
  }

  /** There is only one stable sort: two stably sorted lists of the same indices are equal. */
  lemma {:induction false} StableSortIsUnique(keys: seq<real>, r: seq<nat>, s: seq<nat>)
    requires IndicesIn(r, 0, |keys|) && IndicesIn(s, 0, |keys|)
    requires forall o :: o in r <==> o in s
    requires StablySorted(keys, r) && StablySorted(keys, s)
    ensures r == s
    decreases r
  {
    FirstIsMember(s);
    if r != [] {
      assert r[0] in s && s[0] in r;
      assert r[0] == s[0];
      assert forall o :: o in r <==> o == r[0] || o in r[1..];
      assert forall o :: o in s <==> o == s[0] || o in s[1..];
      StableSortIsUnique(keys, r[1..], s[1..]);
    }
  }

  // ----- Sorting keeps a run reciprocal

  function Heights(js: seq<Join>): (r: seq<real>)
    ensures |r| == |js|
  {
    seq(|js|, t requires 0 <= t < |js| => js[t].height)
  }

  function Picked(js: seq<Join>, order: seq<nat>): (r: seq<Join>)
    requires IndicesIn(order, 0, |js|)
    ensures |r| == |order| && forall t :: 0 <= t < |r| ==> r[t] == js[order[t]]
  {
    seq(|order|, t requires 0 <= t < |order| => js[order[t]])
  }

  lemma RunOfCons(e: Energy, p: Partition, j: Join, rest: seq<Join>)
    ensures ReciprocalRun(e, p, [j] + rest) <==> Reciprocal(e, p, j) && ReciprocalRun(e, Apply(p, j), rest)
    ensures After(p, [j] + rest) == After(Apply(p, j), rest)
  {
    assert ([j] + rest)[1..] == rest;
  }

  lemma ExchangeInRun(e: Energy, p: Partition, j: Join, k: Join, rest: seq<Join>)
    requires PairEnergy(e) && IsPartition(p)
    requires ReciprocalRun(e, p, [j] + ([k] + rest)) && k.height < j.height
    ensures Reciprocal(e, p, k) && IsPartition(Apply(p, k)) && ReciprocalRun(e, Apply(p, k), [j] + rest)
    ensures After(Apply(p, k), [j] + rest) == After(p, [j] + ([k] + rest))
  {
    RunOfCons(e, p, j, [k] + rest);
    RunOfCons(e, Apply(p, j), k, rest);
    Exchange(e, p, j, k);
    RunOfCons(e, Apply(p, k), j, rest);
    ApplyIsPartition(e, p, k);
  }

  lemma PickedOfInsert(js: seq<Join>, i: nat, order: seq<nat>)
    requires i < |js| && IndicesIn(order, 0, |js|)
    ensures order != [] ==> Picked(js, order) == [js[order[0]]] + Picked(js, order[1..])
    ensures Picked(js, Insert(Heights(js), i, order))
         == if order == [] || js[i].height <= js[order[0]].height then [js[i]] + Picked(js, order)
            else [js[order[0]]] + Picked(js, Insert(Heights(js), i, order[1..]))
  {
  }

  lemma {:induction false} InsertKeepsRun(e: Energy, p: Partition, js: seq<Join>, i: nat, order: seq<nat>)
    requires PairEnergy(e) && IsPartition(p)
    requires i < |js| && IndicesIn(order, 0, |js|)
    requires ReciprocalRun(e, p, [js[i]] + Picked(js, order))
    ensures ReciprocalRun(e, p, Picked(js, Insert(Heights(js), i, order)))
    ensures After(p, Picked(js, Insert(Heights(js), i, order))) == After(p, [js[i]] + Picked(js, order))
    decreases order
  {
    PickedOfInsert(js, i, order);
    if order != [] && js[i].height > js[order[0]].height {
      var (j, k, rest) := (js[i], js[order[0]], Picked(js, order[1..]));
      ExchangeInRun(e, p, j, k, rest);
      InsertKeepsRun(e, Apply(p, k), js, i, order[1..]);
      RunOfCons(e, p, k, Picked(js, Insert(Heights(js), i, order[1..])));
    }
  }

  lemma {:induction false} SortKeepsRun(e: Energy, p: Partition, js: seq<Join>, i: nat)
    requires PairEnergy(e) && IsPartition(p) && i <= |js|
    requires ReciprocalRun(e, p, js[i..])
    ensures ReciprocalRun(e, p, Picked(js, StableOrder(Heights(js), i)))
    ensures After(p, Picked(js, StableOrder(Heights(js), i))) == After(p, js[i..])
    decreases |js| - i
  {
    if i == |js| {
      assert js[i..] == [];
    } else {
      var rest := Picked(js, StableOrder(Heights(js), i + 1));
      assert js[i..][1..] == js[i + 1..];
      ApplyIsPartition(e, p, js[i]);
      SortKeepsRun(e, Apply(p, js[i]), js, i + 1);
      assert ([js[i]] + rest)[1..] == rest;
      InsertKeepsRun(e, p, js, i, StableOrder(Heights(js), i + 1));
    }
  }

  // ----- A sorted reciprocal run is greedy

  ghost predicate Ascending(js: seq<Join>) {
    forall s, t :: 0 <= s < t < |js| ==> js[s].height <= js[t].height
  }

  lemma TwoMembers(p: Partition, s: set<nat>, t: set<nat>)
    requires s in p && t in p && s != t
    ensures |p| >= 2
  {
    assert |p - {s} - {t}| == |p| - 2;
  }

  /** Two clusters still to be joined are at least as far apart as the lowest join left. */
  lemma {:induction false} FarEnough(e: Energy, p: Partition, js: seq<Join>, h: real, s: set<nat>, t: set<nat>)
    requires ReciprocalRun(e, p, js) && |After(p, js)| <= 1
    requires forall j :: j in js ==> j.height >= h
    requires s in p && t in p && s != t
    ensures Cost(e, s, t) >= h
    decreases js
  {
    if js == [] {
      TwoMembers(p, s, t);
    } else {
      var j := js[0];
      assert j in js;
      CostSymmetric(e, s, t);
      if s != j.a && s != j.b && t != j.a && t != j.b {
        FarEnough(e, Apply(p, j), js[1..], h, s, t);
      }
    }
  }

  /** Sorted by height, a reciprocal run that ends in a single cluster is greedy. */
  lemma {:induction false} SortedRunIsGreedy(e: Energy, p: Partition, js: seq<Join>)
    requires ReciprocalRun(e, p, js) && Ascending(js) && |After(p, js)| <= 1
    ensures GreedyRun(e, p, js)
    decreases js
  {
    if js != [] {
      forall s, t | s in p && t in p && s != t
        ensures Cost(e, s, t) >= js[0].height
      {
        FarEnough(e, p, js, js[0].height, s, t);
      }
      SortedRunIsGreedy(e, Apply(p, js[0]), js[1..]);
    }
  }

  /** Main theorem: stably sorting a complete reciprocal run by height gives a greedy run
      over the same joins, with the same result. */
  lemma {:induction false} SortedChainRunIsGreedy(e: Energy, p: Partition, js: seq<Join>)
    requires PairEnergy(e) && IsPartition(p)
    requires ReciprocalRun(e, p, js) && |After(p, js)| <= 1
    ensures GreedyRun(e, p, Picked(js, StableOrder(Heights(js), 0)))
    ensures After(p, Picked(js, StableOrder(Heights(js), 0))) == After(p, js)
  {
    var order := StableOrder(Heights(js), 0);
    assert js[0..] == js;
    SortKeepsRun(e, p, js, 0);
    StableOrderSorts(Heights(js), 0);
    forall s, t | 0 <= s < t < |order|
      ensures Picked(js, order)[s].height <= Picked(js, order)[t].height
    {
      assert order[s] in order && order[t] in order;
      assert Heights(js)[order[s]] <= Heights(js)[order[t]];
    }
    SortedRunIsGreedy(e, p, Picked(js, order));
  }

  lemma OnlyStableOrder(keys: seq<real>, order: seq<nat>)
    requires IndicesIn(order, 0, |keys|) && (forall o: nat :: o < |keys| ==> o in order) && StablySorted(keys, order)
    ensures order == StableOrder(keys, 0)
  {
    StableOrderSorts(keys, 0);
    StableSortIsUnique(keys, order, StableOrder(keys, 0));
  }

  /** The same for any stable sort, however it is done. */
  lemma {:induction false} AnyStableSortIsGreedy(e: Energy, p: Partition, js: seq<Join>, order: seq<nat>,
      sorted: seq<Join>)
    requires PairEnergy(e) && IsPartition(p)
    requires ReciprocalRun(e, p, js) && |After(p, js)| <= 1
    requires IndicesIn(order, 0, |js|) && (forall o: nat :: o < |js| ==> o in order) && StablySorted(Heights(js), order)
    requires sorted == Picked(js, order)
    ensures GreedyRun(e, p, sorted) && After(p, sorted) == After(p, js)
  {
    OnlyStableOrder(Heights(js), order);
    SortedChainRunIsGreedy(e, p, js);
  }

  // ----- Cutting a greedy run

  lemma GreedyOfCons(e: Energy, p: Partition, j: Join, rest: seq<Join>)
    ensures GreedyRun(e, p, [j] + rest) <==> Cheapest(e, p, j) && GreedyRun(e, Apply(p, j), rest)
    ensures After(p, [j] + rest) == After(Apply(p, j), rest)
  {
    assert ([j] + rest)[1..] == rest;
  }

  lemma {:induction false} GreedyPrefix(e: Energy, p: Partition, js: seq<Join>, m: nat)
    requires IsPartition(p) && GreedyRun(e, p, js) && m <= |js|
    ensures GreedyRun(e, p, js[..m])
    ensures IsPartition(After(p, js[..m])) && |After(p, js[..m])| == |p| - m
    decreases m
  {
    if m > 0 {
      var (j, rest) := (js[0], js[1..]);
      ApplyIsPartition(e, p, j);
      GreedyPrefix(e, Apply(p, j), rest, m - 1);
      GreedyOfCons(e, p, j, rest[..m - 1]);
      assert js[..m] == [j] + rest[..m - 1];
    }
  }

  lemma {:induction false} JoinRunPrefix(e: Energy, p: Partition, js: seq<Join>, m: nat)
    requires JoinRun(e, p, js) && m <= |js|
    ensures JoinRun(e, p, js[..m])
    decreases m
  {
    if m > 0 {
      JoinRunPrefix(e, Apply(p, js[0]), js[1..], m - 1);
      assert js[..m][1..] == js[1..][..m - 1];
    }
  }

  /** Each join of a run is a join of the partition the joins before it lead to. */
  lemma {:induction false} JoinRunAt(e: Energy, p: Partition, js: seq<Join>, t: nat)
    requires IsPartition(p) && JoinRun(e, p, js) && t < |js|
    ensures IsPartition(After(p, js[..t])) && Joins(e, After(p, js[..t]), js[t])
    ensures After(p, js[..t + 1]) == Apply(After(p, js[..t]), js[t])
    decreases t
  {
    AfterOfTake(p, js, t + 1);
    if t > 0 {
      ApplyIsPartition(e, p, js[0]);
      AfterOfTake(p, js, t);
      JoinRunAt(e, Apply(p, js[0]), js[1..], t - 1);
    }
  }

  // ----- Conservation

  ghost function TotalEnergy(e: Energy, p: Partition): real {
    if p == {} then 0.0 else
      var s :| s in p;
      e(s) + TotalEnergy(e, p - {s})
  }

  lemma {:induction false} TotalEnergyWithout(e: Energy, p: Partition, s: set<nat>)
    requires s in p
    ensures TotalEnergy(e, p) == e(s) + TotalEnergy(e, p - {s})
    decreases |p|
  {
    var t :| t in p && TotalEnergy(e, p) == e(t) + TotalEnergy(e, p - {t});
    if t != s {
      TotalEnergyWithout(e, p - {t}, s);
      TotalEnergyWithout(e, p - {s}, t);
      assert p - {t} - {s} == p - {s} - {t};
    }
  }

  function SumOf(rs: seq<real>): real {
    if rs == [] then 0.0 else rs[0] + SumOf(rs[1..])
  }

  lemma ApplyRaisesEnergy(e: Energy, p: Partition, j: Join)
    requires IsPartition(p) && Joins(e, p, j)
    ensures 2.0 * TotalEnergy(e, Apply(p, j)) == 2.0 * TotalEnergy(e, p) + j.height
  {
    ApplyIsPartition(e, p, j);
    TotalEnergyWithout(e, p, j.a);
    TotalEnergyWithout(e, p - {j.a}, j.b);
    TotalEnergyWithout(e, Apply(p, j), j.a + j.b);
    assert Apply(p, j) - {j.a + j.b} == p - {j.a} - {j.b};
  }

  lemma SumOfHeights(js: seq<Join>)
    requires js != []
    ensures SumOf(Heights(js)) == js[0].height + SumOf(Heights(js[1..]))
  {
    assert Heights(js)[1..] == Heights(js[1..]);
  }

  /** Whatever the order of the joins, their heights sum to twice the energy gained. */
  lemma {:induction false} HeightsAreEnergy(e: Energy, p: Partition, js: seq<Join>)
    requires IsPartition(p) && JoinRun(e, p, js)
    ensures SumOf(Heights(js)) == 2.0 * TotalEnergy(e, After(p, js)) - 2.0 * TotalEnergy(e, p)
    decreases js
  {
    if js != [] {
      SumOfHeights(js);
      ApplyRaisesEnergy(e, p, js[0]);
      ApplyIsPartition(e, p, js[0]);
      HeightsAreEnergy(e, Apply(p, js[0]), js[1..]);
    }
  }
}
