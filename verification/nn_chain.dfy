/** Ward clustering by nearest-neighbour chain. The matrix, the sizes and the chain
    change in place; slot `i` stands for the cluster whose largest point is `i`.

    The matrix holds squared distances, where the program holds their square roots:
    every distance is at least 0, so comparing squares is comparing distances. */
module NnChain {
  import opened Condensed
  import opened Ward
  import opened Agglomeration
  import opened Results

  /** Slots `x < y` merged at `height`; the merged cluster lives on in slot `y`. */
  datatype Merge = Merge(height: real, x: nat, y: nat)

  ghost predicate Records(merges: seq<Merge>, run: seq<Join>) {
    && |merges| == |run|
    && forall t :: 0 <= t < |run| ==> merges[t] == Merge(run[t].height, run[t].x, run[t].y)
  }

  ghost function Singletons(n: nat): Partition {
    set i: nat | i < n :: {i}
  }

  lemma SingletonsArePartition(n: nat)
    ensures IsPartition(Singletons(n)) && |Singletons(n)| == n
  {
    if n > 0 {
      SingletonsArePartition(n - 1);
      assert Singletons(n) == Singletons(n - 1) + {{n - 1}};
    }
  }

  // ----- The state, as values

  /** The distances a condensed matrix holds, by slot. */
  type Matrix = (nat, nat) -> real

  ghost function View(d: seq<real>, n: nat): Matrix
    requires |d| == PairCount(n)
  {
    (i: nat, j: nat) => if i < n && j < n && i != j then d[CondensedIndex(n, i, j)] else 0.0
  }

  ghost predicate Symmetric(m: Matrix) {
    forall i, j :: m(i, j) == m(j, i)
  }

  lemma ViewIsSymmetric(d: seq<real>, n: nat)
    requires |d| == PairCount(n)
    ensures Symmetric(View(d, n))
  {
    forall i: nat, j: nat
      ensures View(d, n)(i, j) == View(d, n)(j, i)
    {
      if i < n && j < n && i != j {
        IndexSymmetric(n, i, j);
      }
    }
  }

  ghost predicate Active(size: seq<nat>, i: nat) {
    i < |size| && size[i] > 0
  }

  ghost function ActiveSlots(size: seq<nat>): set<nat> {
    set i: nat | i < |size| && Active(size, i)
  }

  /** `members[i]` is the cluster slot `i` stands for: empty once the slot is merged away. */
  ghost predicate SlotsOk(size: seq<nat>, members: seq<set<nat>>) {
    && |size| == |members|
    && (forall i :: 0 <= i < |size| ==> size[i] == |members[i]|)
    && (forall i: nat :: Active(size, i) ==> LargestIn(i, members[i]))
    && (forall i, j :: 0 <= i < j < |members| ==> members[i] !! members[j])
  }

  /** Each entry between active slots is the cost between their clusters. */
  ghost predicate MatrixOk(e: Energy, m: Matrix, size: seq<nat>, members: seq<set<nat>>)
    requires |size| == |members|
  {
    forall i: nat, j: nat :: Active(size, i) && Active(size, j) && i != j ==>
      m(i, j) == Cost(e, members[i], members[j]) && m(i, j) >= 0.0
  }

  ghost predicate NearestTo(m: Matrix, size: seq<nat>, x: nat, y: nat) {
    && Active(size, x) && Active(size, y) && x != y
    && forall i: nat :: Active(size, i) && i != x ==> m(x, y) <= m(x, i)
  }

  ghost function Link(m: Matrix, chain: seq<nat>, t: nat): real
    requires t + 1 < |chain|
  {
    m(chain[t], chain[t + 1])
  }

  /** Every link leads to a nearest neighbour, and links get strictly shorter. */
  ghost predicate ChainOk(m: Matrix, size: seq<nat>, chain: seq<nat>) {
    && (forall t :: 0 <= t < |chain| ==> Active(size, chain[t]))
    && (forall s, t :: 0 <= s < t < |chain| ==> chain[s] != chain[t])
    && (forall t :: 0 <= t < |chain| - 1 ==> NearestTo(m, size, chain[t], chain[t + 1]))
    && (forall t :: 0 <= t < |chain| - 2 ==> Link(m, chain, t + 1) < Link(m, chain, t))
  }

  ghost function Blocks(members: seq<set<nat>>): Partition {
    set i: nat | i < |members| && members[i] != {} :: members[i]
  }

  lemma {:induction false} DistinctFit(chain: seq<nat>, slots: set<nat>)
    requires forall t :: 0 <= t < |chain| ==> chain[t] in slots
    requires forall s, t :: 0 <= s < t < |chain| ==> chain[s] != chain[t]
    ensures |chain| <= |slots|
    decreases chain
  {
    if chain != [] {
      DistinctFit(chain[1..], slots - {chain[0]});
    }
  }

  lemma ChainFits(m: Matrix, size: seq<nat>, chain: seq<nat>)
    requires ChainOk(m, size, chain)
    ensures |chain| <= |ActiveSlots(size)|
  {
    DistinctFit(chain, ActiveSlots(size));
  }

  // ----- One scan

  /** The slot the scan from slot `x` picks: the previous slot of the chain if none is
      strictly nearer, and otherwise the first of the nearest slots. */
  ghost predicate Picks(m: Matrix, size: seq<nat>, x: nat, prev: Option<nat>, y: nat) {
    && NearestTo(m, size, x, y)
    && (prev.Some? && prev.value != y ==> m(x, y) < m(x, prev.value))
    && (prev != Some(y) ==> forall i: nat :: i < y && Active(size, i) && i != x ==> m(x, y) < m(x, i))
  }

  /** What is known of the scan's best slot so far, after looking at the slots below `i`. */
  ghost predicate BestSoFar(m: Matrix, size: seq<nat>, x: nat, prev: Option<nat>, i: nat, best: Option<(nat, real)>) {
    && (best.None? ==> prev.None? && forall k: nat :: k < i && Active(size, k) ==> k == x)
    && (best.Some? ==>
        var y := best.value.0;
        && Active(size, y) && y != x && best.value.1 == m(x, y)
        && (forall k: nat :: k < i && Active(size, k) && k != x ==> m(x, y) <= m(x, k))
        && (prev != Some(y) ==>
            && y < i
            && (prev.Some? ==> m(x, y) < m(x, prev.value))
            && forall k: nat :: k < y && Active(size, k) && k != x ==> m(x, y) < m(x, k)))
  }

  /** One scan over the slots. `None` stands for no slot yet, at infinite distance. */
  method Nearest(n: nat, d: array<real>, size: array<nat>, x: nat, prev: Option<nat>) returns (y: nat, nearest: real)
    requires d.Length == PairCount(n) && size.Length == n
    requires prev.Some? ==> Active(size[..], prev.value) && prev.value != x
    requires Active(size[..], x) && exists i: nat :: Active(size[..], i) && i != x
    ensures Picks(View(d[..], n), size[..], x, prev, y)
    ensures nearest == View(d[..], n)(x, y)
  {
    ghost var (m, sizes) := (View(d[..], n), size[..]);
    var best: Option<(nat, real)> := None;
    if prev.Some? {
      best := Some((prev.value, d[CondensedIndex(n, x, prev.value)]));
    }
    for i := 0 to n
      invariant BestSoFar(m, sizes, x, prev, i, best)
    {
      if size[i] == 0 || i == x {
        continue;
      }
      var dist := d[CondensedIndex(n, x, i)];
      assert dist == m(x, i);
      if best.None? || dist < best.value.1 {
        best := Some((i, dist));
      }
    }
    y, nearest := best.value.0, best.value.1;
  }

  // ----- Walking the chain

  function PrevOf(chain: seq<nat>): Option<nat> {
    if |chain| > 1 then Some(chain[|chain| - 2]) else None
  }

  lemma {:induction false} LinksShrink(m: Matrix, size: seq<nat>, chain: seq<nat>, s: nat, t: nat)
    requires ChainOk(m, size, chain) && s <= t < |chain| - 1
    ensures Link(m, chain, t) <= Link(m, chain, s)
    decreases t
  {
    if s < t {
      LinksShrink(m, size, chain, s, t - 1);
    }
  }

  /** The walk cannot cycle: a slot nearer than the previous one is not on the chain. */
  lemma PickedIsNew(m: Matrix, size: seq<nat>, chain: seq<nat>, y: nat, t: nat)
    requires Symmetric(m) && ChainOk(m, size, chain) && t < |chain|
    requires Picks(m, size, chain[|chain| - 1], PrevOf(chain), y) && PrevOf(chain) != Some(y)
    ensures chain[t] != y
  {
    if t < |chain| - 2 {
      LinksShrink(m, size, chain, t, |chain| - 2);
      assert NearestTo(m, size, chain[t], chain[t + 1]);
      assert m(chain[t], chain[|chain| - 1]) == m(chain[|chain| - 1], chain[t]);
      assert m(chain[|chain| - 2], chain[|chain| - 1]) == m(chain[|chain| - 1], chain[|chain| - 2]);
    }
  }

  lemma PushKeepsChain(m: Matrix, size: seq<nat>, chain: seq<nat>, y: nat)
    requires Symmetric(m) && ChainOk(m, size, chain) && chain != []
    requires Picks(m, size, chain[|chain| - 1], PrevOf(chain), y) && PrevOf(chain) != Some(y)
    ensures ChainOk(m, size, chain + [y])
  {
    var longer := chain + [y];
    forall t | 0 <= t < |chain|
      ensures chain[t] != y
    {
      PickedIsNew(m, size, chain, y, t);
    }
    forall t | 0 <= t < |longer| - 1
      ensures NearestTo(m, size, longer[t], longer[t + 1])
    {
      if t < |chain| - 1 {
        assert NearestTo(m, size, chain[t], chain[t + 1]);
      }
    }
    forall t | 0 <= t < |longer| - 2
      ensures Link(m, longer, t + 1) < Link(m, longer, t)
    {
      if t < |chain| - 2 {
        assert Link(m, chain, t + 1) < Link(m, chain, t);
      } else {
        assert Link(m, longer, t) == m(chain[t + 1], chain[t]);
      }
    }
  }

  lemma OthersActive(size: seq<nat>, x: nat)
    requires |ActiveSlots(size)| >= 2
    ensures exists i: nat :: Active(size, i) && i != x
  {
    var slots := ActiveSlots(size);
    assert slots * {x} == if x in slots then {x} else {};
    assert |slots - {x}| >= 1;
    var i :| i in slots - {x};
    assert Active(size, i) && i != x;
  }

  lemma PrevIsActive(m: Matrix, size: seq<nat>, chain: seq<nat>)
    requires ChainOk(m, size, chain) && chain != []
    ensures Active(size, chain[|chain| - 1])
    ensures PrevOf(chain).Some? ==> Active(size, PrevOf(chain).value) && PrevOf(chain).value != chain[|chain| - 1]
  {
  }

  function PrevAt(chain: seq<nat>, t: nat): Option<nat>
    requires t <= |chain|
  {
    if t > 1 then Some(chain[t - 2]) else None
  }

  /** Slot `t` of the chain was pushed by a scan from the slot before it. */
  ghost predicate Pushed(m: Matrix, size: seq<nat>, chain: seq<nat>, t: nat)
    requires 0 < t < |chain|
  {
    Picks(m, size, chain[t - 1], PrevAt(chain, t), chain[t]) && PrevAt(chain, t) != Some(chain[t])
  }

  /** The whole rule of a walk: an empty chain starts at the first active slot, every later
      slot is the one a scan picks, and the walk ends when the scan picks the previous slot. */
  ghost predicate Walks(m: Matrix, size: seq<nat>, start: seq<nat>, walked: seq<nat>) {
    && |walked| >= 2 && start <= walked
    && (start == [] ==> Active(size, walked[0]) && forall k: nat :: k < walked[0] ==> !Active(size, k))
    && (forall t: nat :: 0 < t < |walked| && |start| <= t ==> Pushed(m, size, walked, t))
    && Picks(m, size, walked[|walked| - 1], Some(walked[|walked| - 2]), walked[|walked| - 2])
  }

  ghost predicate AllPushed(m: Matrix, size: seq<nat>, chain: seq<nat>, from: nat) {
    forall t: nat :: 0 < t < |chain| && from <= t ==> Pushed(m, size, chain, t)
  }

  lemma PushedSnoc(m: Matrix, size: seq<nat>, chain: seq<nat>, from: nat, y: nat)
    requires chain != [] && AllPushed(m, size, chain, from)
    requires Picks(m, size, chain[|chain| - 1], PrevOf(chain), y) && PrevOf(chain) != Some(y)
    ensures AllPushed(m, size, chain + [y], from)
  {
    forall t: nat | 0 < t < |chain| + 1 && from <= t
      ensures Pushed(m, size, chain + [y], t)
    {
      if t < |chain| {
        assert Pushed(m, size, chain, t);
      }
    }
  }

  lemma WalkDone(m: Matrix, size: seq<nat>, start: seq<nat>, chain: seq<nat>, y: nat)
    requires start != [] && start <= chain && |chain| >= 2 && AllPushed(m, size, chain, |start|)
    requires Picks(m, size, chain[|chain| - 1], PrevOf(chain), y) && y == chain[|chain| - 2]
    ensures Walks(m, size, start, chain)
  {
  }

  /** Follows nearest neighbours from the end of the chain until the last two slots are
      each other's nearest. The number of scans is one more than the slots pushed. */
  method Walk(n: nat, d: array<real>, size: array<nat>, start: seq<nat>)
      returns (chain: seq<nat>, nearest: real, ghost scans: nat)
    requires d.Length == PairCount(n) && size.Length == n
    requires start != [] && ChainOk(View(d[..], n), size[..], start) && |ActiveSlots(size[..])| >= 2
    ensures |chain| >= 2 && start <= chain && ChainOk(View(d[..], n), size[..], chain)
    ensures NearestTo(View(d[..], n), size[..], chain[|chain| - 1], chain[|chain| - 2])
    ensures nearest == View(d[..], n)(chain[|chain| - 1], chain[|chain| - 2])
    ensures Walks(View(d[..], n), size[..], start, chain)
    ensures scans == |chain| - |start| + 1
  {
    ghost var (m, sizes) := (View(d[..], n), size[..]);
    ViewIsSymmetric(d[..], n);
    ChainFits(m, sizes, start);
    chain := start;
    scans := 0;
    while true
      invariant chain != [] && start <= chain && ChainOk(m, sizes, chain)
      invariant scans == |chain| - |start| && |chain| <= |ActiveSlots(sizes)|
      invariant AllPushed(m, sizes, chain, |start|)
      decreases |ActiveSlots(sizes)| - |chain|
    {
      var x := chain[|chain| - 1];
      OthersActive(sizes, x);
      PrevIsActive(m, sizes, chain);
      var y: nat;
      y, nearest := Nearest(n, d, size, x, PrevOf(chain));
      scans := scans + 1;
      if |chain| > 1 && y == chain[|chain| - 2] {
        WalkDone(m, sizes, start, chain, y);
        return;
      }
      PushKeepsChain(m, sizes, chain, y);
      PushedSnoc(m, sizes, chain, |start|, y);
      ChainFits(m, sizes, chain + [y]);
      chain := chain + [y];
    }
  }

  // ----- Merging two slots

  ghost predicate Other(size: seq<nat>, x: nat, y: nat, i: nat) {
    Active(size, i) && i != x && i != y
  }

  /** Slot `i`'s new distance to the merged slot. */
  ghost function NewDistance(m: Matrix, size: seq<nat>, x: nat, y: nat, nearest: real, i: nat): real
    requires Active(size, x) && Active(size, y) && Active(size, i)
  {
    WardUpdate(m(i, x), m(i, y), nearest, size[x], size[y], size[i])
  }

  /** The matrix once the other slots below `bound` have been updated. */
  ghost function Updated(m: Matrix, size: seq<nat>, x: nat, y: nat, nearest: real, bound: nat, i: nat, j: nat): real
    requires Active(size, x) && Active(size, y)
  {
    if i == y && j < bound && Other(size, x, y, j) then NewDistance(m, size, x, y, nearest, j)
    else if j == y && i < bound && Other(size, x, y, i) then NewDistance(m, size, x, y, nearest, i)
    else m(i, j)
  }

  ghost function SizesAfter(size: seq<nat>, x: nat, y: nat): seq<nat>
    requires x < |size| && y < |size|
  {
    size[x := 0][y := size[x] + size[y]]
  }

  ghost predicate IsUpdated(m: Matrix, m': Matrix, size: seq<nat>, x: nat, y: nat, nearest: real)
    requires Active(size, x) && Active(size, y)
  {
    forall i: nat, j: nat :: m'(i, j) == Updated(m, size, x, y, nearest, |size|, i, j)
  }

  lemma ViewOfUpdate(d: seq<real>, n: nat, i: nat, j: nat, v: real, p: nat, q: nat)
    requires |d| == PairCount(n) && i < n && j < n && i != j
    ensures View(d[CondensedIndex(n, i, j) := v], n)(p, q)
         == if (p == i && q == j) || (p == j && q == i) then v else View(d, n)(p, q)
  {
    IndexSymmetric(n, i, j);
    if p < n && q < n && p != q && CondensedIndex(n, p, q) == CondensedIndex(n, i, j) {
      IndexInjective(n, i, j, p, q);
    }
  }

  /** `d` holds the matrix once the other slots below `bound` have been updated. */
  ghost predicate UpdatedBelow(d: seq<real>, n: nat, m: Matrix, size: seq<nat>, x: nat, y: nat,
      nearest: real, bound: nat)
    requires |d| == PairCount(n) && Active(size, x) && Active(size, y)
  {
    forall p: nat, q: nat :: View(d, n)(p, q) == Updated(m, size, x, y, nearest, bound, p, q)
  }

  lemma UpdateOne(d: seq<real>, n: nat, m: Matrix, size: seq<nat>, x: nat, y: nat, nearest: real, i: nat, v: real)
    requires |d| == PairCount(n) && Active(size, x) && Active(size, y) && x != y && |size| == n
    requires UpdatedBelow(d, n, m, size, x, y, nearest, i) && Other(size, x, y, i)
    requires v == WardUpdate(d[CondensedIndex(n, i, x)], d[CondensedIndex(n, i, y)], nearest, size[x], size[y], size[i])
    ensures UpdatedBelow(d[CondensedIndex(n, i, y) := v], n, m, size, x, y, nearest, i + 1)
  {
    assert View(d, n)(i, x) == m(i, x) && View(d, n)(i, y) == m(i, y);
    var d' := d[CondensedIndex(n, i, y) := v];
    forall p: nat, q: nat
      ensures View(d', n)(p, q) == Updated(m, size, x, y, nearest, i + 1, p, q)
    {
      ViewOfUpdate(d, n, i, y, v, p, q);
    }
  }

  lemma SkipOne(d: seq<real>, n: nat, m: Matrix, size: seq<nat>, x: nat, y: nat, nearest: real, i: nat)
    requires |d| == PairCount(n) && Active(size, x) && Active(size, y) && !Other(size, x, y, i)
    requires UpdatedBelow(d, n, m, size, x, y, nearest, i)
    ensures UpdatedBelow(d, n, m, size, x, y, nearest, i + 1)
  {
  }

  /** Merges slot `x` into slot `y`: empties `x`, and overwrites the distances between
      `y` and every other active slot. Nothing else changes. */
  method MergeSlots(n: nat, d: array<real>, size: array<nat>, x: nat, y: nat, nearest: real)
    requires d.Length == PairCount(n) && size.Length == n
    requires Active(size[..], x) && Active(size[..], y) && x != y
    modifies d, size
    ensures size[..] == SizesAfter(old(size[..]), x, y)
    ensures IsUpdated(old(View(d[..], n)), View(d[..], n), old(size[..]), x, y, nearest)
  {
    ghost var (m, sizes) := (View(d[..], n), size[..]);
    var nx, ny := size[x], size[y];
    size[x] := 0;
    size[y] := nx + ny;
    for i := 0 to n
      invariant size[..] == SizesAfter(sizes, x, y)
      invariant UpdatedBelow(d[..], n, m, sizes, x, y, nearest, i)
    {
      var ni := size[i];
      ghost var before := d[..];
      if ni == 0 || i == y {
        SkipOne(before, n, m, sizes, x, y, nearest, i);
        continue;
      }
      var v := WardUpdate(d[CondensedIndex(n, i, x)], d[CondensedIndex(n, i, y)], nearest, nx, ny, ni);
      UpdateOne(before, n, m, sizes, x, y, nearest, i, v);
      d[CondensedIndex(n, i, y)] := v;
      assert d[..] == before[CondensedIndex(n, i, y) := v];
    }
  }

  // ----- What a merge keeps

  ghost function MembersAfter(members: seq<set<nat>>, x: nat, y: nat): seq<set<nat>>
    requires x < |members| && y < |members|
  {
    members[x := {}][y := members[x] + members[y]]
  }

  ghost function JoinOf(m: Matrix, members: seq<set<nat>>, x: nat, y: nat): Join
    requires x < |members| && y < |members|
  {
    Join(m(x, y), members[x], members[y], x, y)
  }

  /** Slots `x < y` are active and each other's nearest. */
  ghost predicate Mutual(m: Matrix, size: seq<nat>, x: nat, y: nat) {
    x < y && NearestTo(m, size, x, y) && NearestTo(m, size, y, x)
  }

  lemma ActiveIsNonEmpty(size: seq<nat>, members: seq<set<nat>>, i: nat)
    requires SlotsOk(size, members) && i < |size|
    ensures Active(size, i) <==> members[i] != {}
  {
  }

  lemma MergeKeepsSlots(size: seq<nat>, members: seq<set<nat>>, x: nat, y: nat)
    requires SlotsOk(size, members) && Active(size, x) && Active(size, y) && x < y
    ensures SlotsOk(SizesAfter(size, x, y), MembersAfter(members, x, y))
  {
    assert members[x] !! members[y];
  }

  lemma MergeAppliesJoin(m: Matrix, size: seq<nat>, members: seq<set<nat>>, x: nat, y: nat)
    requires SlotsOk(size, members) && Active(size, x) && Active(size, y) && x < y
    ensures Blocks(MembersAfter(members, x, y)) == Apply(Blocks(members), JoinOf(m, members, x, y))
  {
    var after := MembersAfter(members, x, y);
    var (before, j) := (Blocks(members), JoinOf(m, members, x, y));
    forall s | s in Blocks(after)
      ensures s in Apply(before, j)
    {
      var i: nat :| i < |after| && after[i] != {} && s == after[i];
      if i != y {
        assert members[i] != {} && members[i] !! members[x] && members[i] !! members[y];
      }
    }
    forall s | s in Apply(before, j)
      ensures s in Blocks(after)
    {
      if s == j.a + j.b {
        assert after[y] == s && y in s;
      } else {
        var i: nat :| i < |members| && members[i] != {} && s == members[i];
        assert after[i] == s;
      }
    }
  }

  lemma MutualIsReciprocal(e: Energy, m: Matrix, size: seq<nat>, members: seq<set<nat>>, x: nat, y: nat)
    requires SlotsOk(size, members) && MatrixOk(e, m, size, members) && Symmetric(m) && Mutual(m, size, x, y)
    ensures Reciprocal(e, Blocks(members), JoinOf(m, members, x, y))
  {
    var j := JoinOf(m, members, x, y);
    assert members[x] !! members[y];
    assert m(x, y) == m(y, x);
    forall q | q in Blocks(members)
      ensures q != j.a ==> Cost(e, j.a, q) >= j.height
      ensures q != j.b ==> Cost(e, j.b, q) >= j.height
    {
      var i: nat :| i < |members| && members[i] != {} && q == members[i];
      ActiveIsNonEmpty(size, members, i);
    }
  }

  /** What the update writes for slot `i` is the cost to the merged cluster, and no less than
      any distance `h` that both merged slots keep from `i`. */
  lemma NewDistanceIsCost(e: Energy, m: Matrix, size: seq<nat>, members: seq<set<nat>>, x: nat, y: nat, i: nat, h: real)
    requires PairEnergy(e) && Symmetric(m)
    requires SlotsOk(size, members) && MatrixOk(e, m, size, members) && Mutual(m, size, x, y)
    requires Other(size, x, y, i) && m(x, y) <= h <= m(i, x) && h <= m(i, y)
    ensures NewDistance(m, size, x, y, m(x, y), i) == Cost(e, members[i], members[x] + members[y]) >= h >= 0.0
  {
    assert members[x] !! members[y] && members[x] !! members[i] && members[y] !! members[i];
    assert x in members[x] && y in members[y] && i in members[i];
    assert m(i, x) == m(x, i) && m(i, y) == m(y, i);
    UpdateIsCost(e, members[x], members[y], members[i], h);
    CostSymmetric(e, members[i], members[x] + members[y]);
  }

  lemma MergeKeepsMatrix(e: Energy, m: Matrix, m': Matrix, size: seq<nat>, members: seq<set<nat>>, x: nat, y: nat)
    requires PairEnergy(e) && Symmetric(m)
    requires SlotsOk(size, members) && MatrixOk(e, m, size, members) && Mutual(m, size, x, y)
    requires IsUpdated(m, m', size, x, y, m(x, y))
    ensures MatrixOk(e, m', SizesAfter(size, x, y), MembersAfter(members, x, y))
  {
    var (size', members') := (SizesAfter(size, x, y), MembersAfter(members, x, y));
    forall i: nat, j: nat | Active(size', i) && Active(size', j) && i != j
      ensures m'(i, j) == Cost(e, members'[i], members'[j]) && m'(i, j) >= 0.0
    {
      if i == y || j == y {
        var k := if i == y then j else i;
        assert m(k, x) == m(x, k) && m(k, y) == m(y, k) && m(x, y) == m(y, x);
        NewDistanceIsCost(e, m, size, members, x, y, k, m(x, y));
        CostSymmetric(e, members[k], members[x] + members[y]);
      } else {
        assert Active(size, i) && Active(size, j);
      }
    }
  }

  ghost function Min(a: real, b: real): real {
    if a < b then a else b
  }

  /** Reducibility at work: the merged slot is no nearer to a slot than the nearer of the two was. */
  ghost predicate Reduced(m: Matrix, m': Matrix, size: seq<nat>, x: nat, y: nat) {
    forall p: nat :: Other(size, x, y, p) ==> m'(p, y) >= Min(m(p, x), m(p, y))
  }

  lemma MergeReduces(e: Energy, m: Matrix, m': Matrix, size: seq<nat>, members: seq<set<nat>>, x: nat, y: nat)
    requires PairEnergy(e) && Symmetric(m)
    requires SlotsOk(size, members) && MatrixOk(e, m, size, members) && Mutual(m, size, x, y)
    requires IsUpdated(m, m', size, x, y, m(x, y))
    ensures Reduced(m, m', size, x, y)
  {
    forall p: nat | Other(size, x, y, p)
      ensures m'(p, y) >= Min(m(p, x), m(p, y))
    {
      assert m(p, x) == m(x, p) && m(p, y) == m(y, p) && m(x, y) == m(y, x);
      NewDistanceIsCost(e, m, size, members, x, y, p, Min(m(p, x), m(p, y)));
    }
  }

  lemma {:induction false} MergeKeepsLink(m: Matrix, m': Matrix, size: seq<nat>, x: nat, y: nat, p: nat, q: nat)
    requires Active(size, x) && Active(size, y) && IsUpdated(m, m', size, x, y, m(x, y)) && Reduced(m, m', size, x, y)
    requires Other(size, x, y, p) && Other(size, x, y, q) && NearestTo(m, size, p, q)
    ensures NearestTo(m', SizesAfter(size, x, y), p, q) && m'(p, q) == m(p, q)
  {
    forall i: nat | Active(SizesAfter(size, x, y), i) && i != p
      ensures m'(p, q) <= m'(p, i)
    {
      assert Active(size, i);
    }
  }

  /** The rest of the chain survives: by reducibility, the merged cluster is no nearer to
      any slot of it than the slot's chain neighbour is. */
  lemma MergeKeepsChain(m: Matrix, m': Matrix, size: seq<nat>, x: nat, y: nat, chain: seq<nat>)
    requires Active(size, x) && Active(size, y) && IsUpdated(m, m', size, x, y, m(x, y)) && Reduced(m, m', size, x, y)
    requires ChainOk(m, size, chain) && |chain| >= 2
    requires || (x == chain[|chain| - 1] && y == chain[|chain| - 2])
             || (x == chain[|chain| - 2] && y == chain[|chain| - 1])
    ensures ChainOk(m', SizesAfter(size, x, y), chain[..|chain| - 2])
  {
    var rest := chain[..|chain| - 2];
    forall t | 0 <= t < |rest| - 1
      ensures NearestTo(m', SizesAfter(size, x, y), rest[t], rest[t + 1]) && Link(m', rest, t) == Link(m, chain, t)
    {
      MergeKeepsLink(m, m', size, x, y, chain[t], chain[t + 1]);
    }
    forall t | 0 <= t < |rest| - 2
      ensures Link(m', rest, t + 1) < Link(m', rest, t)
    {
      assert Link(m, chain, t + 1) < Link(m, chain, t);
    }
  }

  lemma MergeActiveSlots(size: seq<nat>, x: nat, y: nat)
    requires Active(size, x) && Active(size, y) && x != y
    ensures ActiveSlots(SizesAfter(size, x, y)) == ActiveSlots(size) - {x}
    ensures |ActiveSlots(SizesAfter(size, x, y))| == |ActiveSlots(size)| - 1
  {
    assert x in ActiveSlots(size);
  }

  function SumOfSizes(size: seq<nat>): nat {
    if size == [] then 0 else size[0] + SumOfSizes(size[1..])
  }

  lemma {:induction false} SumOfMore(front: seq<nat>, last: nat)
    ensures SumOfSizes(front + [last]) == SumOfSizes(front) + last
    decreases front
  {
    if front == [] {
      assert front + [last] == [last];
    } else {
      SumOfMore(front[1..], last);
      assert (front + [last])[1..] == front[1..] + [last];
    }
  }

  lemma {:induction false} SumOfUpdate(size: seq<nat>, i: nat, v: nat)
    requires i < |size|
    ensures SumOfSizes(size[i := v]) + size[i] == SumOfSizes(size) + v
    decreases size
  {
    if i == 0 {
      assert size[i := v][1..] == size[1..];
    } else {
      SumOfUpdate(size[1..], i - 1, v);
      assert size[i := v][1..] == size[1..][i - 1 := v];
    }
  }

  /** A merge moves members from one slot to another. */
  lemma MergeKeepsSum(size: seq<nat>, x: nat, y: nat)
    requires x < |size| && y < |size| && x != y
    ensures SumOfSizes(SizesAfter(size, x, y)) == SumOfSizes(size)
  {
    var (emptied, both) := (size[x := 0], size[x] + size[y]);
    SumOfUpdate(size, x, 0);
    SumOfUpdate(emptied, y, both);
    assert emptied[y] == size[y] && SizesAfter(size, x, y) == emptied[y := both];
  }

  lemma {:induction false} SumOfZeros(size: seq<nat>)
    requires forall i :: 0 <= i < |size| ==> size[i] == 0
    ensures SumOfSizes(size) == 0
    decreases size
  {
    if size != [] {
      SumOfZeros(size[1..]);
    }
  }

  /** If only the last slot is active, it holds all the members. */
  lemma LastHoldsAll(size: seq<nat>, n: nat)
    requires n > 0 && |size| == n && ActiveSlots(size) == {n - 1} && SumOfSizes(size) == n
    ensures size == seq(n - 1, i => 0) + [n]
  {
    var front := size[..n - 1];
    forall i | 0 <= i < n - 1
      ensures front[i] == 0
    {
      assert i !in ActiveSlots(size);
    }
    SumOfZeros(front);
    SumOfMore(front, size[n - 1]);
    assert size == front + [size[n - 1]];
  }

  // ----- The whole run

  ghost predicate Good(e: Energy, m: Matrix, size: seq<nat>, members: seq<set<nat>>, chain: seq<nat>) {
    SlotsOk(size, members) && Symmetric(m) && MatrixOk(e, m, size, members) && ChainOk(m, size, chain)
  }

  lemma {:induction false} MergeStep(e: Energy, m: Matrix, m': Matrix, size: seq<nat>, members: seq<set<nat>>,
      chain: seq<nat>, x: nat, y: nat)
    requires PairEnergy(e) && Good(e, m, size, members, chain) && |chain| >= 2
    requires || (x == chain[|chain| - 1] && y == chain[|chain| - 2])
             || (x == chain[|chain| - 2] && y == chain[|chain| - 1])
    requires x < y && NearestTo(m, size, chain[|chain| - 1], chain[|chain| - 2])
    requires IsUpdated(m, m', size, x, y, m(x, y)) && Symmetric(m')
    ensures Good(e, m', SizesAfter(size, x, y), MembersAfter(members, x, y), chain[..|chain| - 2])
    ensures ActiveSlots(SizesAfter(size, x, y)) == ActiveSlots(size) - {x}
    ensures |ActiveSlots(SizesAfter(size, x, y))| == |ActiveSlots(size)| - 1
    ensures SumOfSizes(SizesAfter(size, x, y)) == SumOfSizes(size)
    ensures |chain| - 2 < |ActiveSlots(size)| - 1
    ensures Reciprocal(e, Blocks(members), JoinOf(m, members, x, y))
    ensures Blocks(MembersAfter(members, x, y)) == Apply(Blocks(members), JoinOf(m, members, x, y))
  {
    assert NearestTo(m, size, chain[|chain| - 2], chain[|chain| - 2 + 1]);
    MergeKeepsSlots(size, members, x, y);
    MergeKeepsMatrix(e, m, m', size, members, x, y);
    MergeReduces(e, m, m', size, members, x, y);
    MergeKeepsChain(m, m', size, x, y, chain);
    MutualIsReciprocal(e, m, size, members, x, y);
    MergeAppliesJoin(m, size, members, x, y);
    MergeActiveSlots(size, x, y);
    MergeKeepsSum(size, x, y);
    ChainFits(m, size, chain);
  }

  ghost function PointMembers(n: nat): seq<set<nat>> {
    seq(n, i => {i})
  }

  lemma ActiveSlotsOfMore(front: seq<nat>, last: nat)
    requires last > 0
    ensures ActiveSlots(front + [last]) == ActiveSlots(front) + {|front|}
  {
    forall i: nat
      ensures i in ActiveSlots(front + [last]) <==> i in ActiveSlots(front) || i == |front|
    {
      if i < |front| {
        assert (front + [last])[i] == front[i];
      }
    }
  }

  lemma {:induction false} AllActive(size: seq<nat>)
    requires forall i :: 0 <= i < |size| ==> size[i] == 1
    ensures |ActiveSlots(size)| == |size| == SumOfSizes(size)
    decreases size
  {
    if size != [] {
      var last := |size| - 1;
      AllActive(size[..last]);
      ActiveSlotsOfMore(size[..last], 1);
      assert size == size[..last] + [1];
      SumOfMore(size[..last], 1);
    }
  }

  lemma PointBlocks(n: nat)
    ensures Blocks(PointMembers(n)) == Singletons(n)
  {
    forall s
      ensures s in Blocks(PointMembers(n)) <==> s in Singletons(n)
    {
      if s in Singletons(n) {
        var i: nat :| i < n && s == {i};
        assert PointMembers(n)[i] == s;
      }
    }
  }

  lemma InputIsCost(c: seq<real>, n: nat, size: seq<nat>)
    requires |c| == PairCount(n) && (forall k :: 0 <= k < |c| ==> c[k] >= 0.0) && |size| == n
    ensures MatrixOk(WardEnergy(c, n), View(c, n), size, PointMembers(n))
  {
    forall i: nat, j: nat | i < n && j < n && i != j
      ensures View(c, n)(i, j) == Cost(WardEnergy(c, n), {i}, {j})
    {
      CostOfSingletons(c, n, i, j);
    }
  }

  lemma InitiallyGood(c: seq<real>, n: nat, size: seq<nat>)
    requires |c| == PairCount(n) && forall k :: 0 <= k < |c| ==> c[k] >= 0.0
    requires |size| == n && forall i :: 0 <= i < n ==> size[i] == 1
    ensures Good(WardEnergy(c, n), View(c, n), size, PointMembers(n), [])
    ensures Blocks(PointMembers(n)) == Singletons(n)
    ensures |ActiveSlots(size)| == n == SumOfSizes(size)
  {
    ViewIsSymmetric(c, n);
    InputIsCost(c, n, size);
    PointBlocks(n);
    AllActive(size);
  }

  lemma SomeActive(size: seq<nat>)
    requires ActiveSlots(size) != {}
    ensures exists i: nat :: Active(size, i)
  {
    var i :| i in ActiveSlots(size);
  }

  /** The first slot still active. */
  method FirstActive(n: nat, size: array<nat>) returns (i: nat)
    requires size.Length == n && ActiveSlots(size[..]) != {}
    ensures Active(size[..], i) && forall k: nat :: k < i ==> !Active(size[..], k)
  {
    SomeActive(size[..]);
    i := 0;
    while size[i] == 0
      invariant i < n && forall k: nat :: k < i ==> !Active(size[..], k)
      decreases n - i
    {
      i := i + 1;
    }
  }

  // ----- The rule of the whole run, over the input distances alone

  /** What the matrix holds for the clusters `members`, in closed form. */
  ghost function CostMatrix(e: Energy, members: seq<set<nat>>): Matrix {
    (i: nat, j: nat) => if i < |members| && j < |members| && i != j then Cost(e, members[i], members[j]) else 0.0
  }

  ghost function SizesOf(members: seq<set<nat>>): seq<nat> {
    seq(|members|, i requires 0 <= i < |members| => |members[i]|)
  }

  /** One round: the clusters by slot, the chain as walked, and the merge of its last two slots. */
  datatype Step = Step(members: seq<set<nat>>, walked: seq<nat>, merge: Merge)

  ghost predicate RoundObeys(e: Energy, start: seq<nat>, step: Step) {
    && Walks(CostMatrix(e, step.members), SizesOf(step.members), start, step.walked)
    && var (x, y) := (step.walked[|step.walked| - 1], step.walked[|step.walked| - 2]);
      && x < |step.members| && y < |step.members|
      && step.merge == Merge(Cost(e, step.members[x], step.members[y]), if x < y then x else y, if x < y then y else x)
  }

  ghost predicate JoinsMembers(j: Join, step: Step) {
    && step.merge.x < |step.members| && step.merge.y < |step.members|
    && j == Join(step.merge.height, step.members[step.merge.x], step.members[step.merge.y], step.merge.x, step.merge.y)
  }

  lemma PicksByCost(e: Energy, m: Matrix, size: seq<nat>, members: seq<set<nat>>, x: nat, prev: Option<nat>, y: nat)
    requires SlotsOk(size, members) && MatrixOk(e, m, size, members) && Picks(m, size, x, prev, y)
    requires prev.Some? ==> Active(size, prev.value) && prev.value != x
    ensures Picks(CostMatrix(e, members), size, x, prev, y)
  {
    assert CostMatrix(e, members)(x, y) == m(x, y);
    forall i: nat | Active(size, i) && i != x
      ensures CostMatrix(e, members)(x, i) == m(x, i)
    {
    }
  }

  /** A walk on the matrix is a walk on the closed-form costs. */
  lemma WalksByCost(e: Energy, m: Matrix, size: seq<nat>, members: seq<set<nat>>, start: seq<nat>, walked: seq<nat>)
    requires SlotsOk(size, members) && MatrixOk(e, m, size, members) && Walks(m, size, start, walked)
    requires ChainOk(m, size, walked)
    ensures size == SizesOf(members) && Walks(CostMatrix(e, members), SizesOf(members), start, walked)
  {
    var last := |walked| - 1;
    assert walked[last - 1] != walked[last];
    PicksByCost(e, m, size, members, walked[last], Some(walked[last - 1]), walked[last - 1]);
    forall t: nat | 0 < t < |walked| && |start| <= t
      ensures Pushed(CostMatrix(e, members), size, walked, t)
    {
      assert Pushed(m, size, walked, t);
      PicksByCost(e, m, size, members, walked[t - 1], PrevAt(walked, t), walked[t]);
    }
  }

  /** Merging the last two slots of a walk obeys the rule. */
  lemma MergeObeys(e: Energy, m: Matrix, size: seq<nat>, members: seq<set<nat>>, start: seq<nat>, walked: seq<nat>,
      merge: Merge)
    requires SlotsOk(size, members) && Symmetric(m) && MatrixOk(e, m, size, members)
    requires ChainOk(m, size, walked) && Walks(m, size, start, walked)
    requires var (x, y) := (walked[|walked| - 1], walked[|walked| - 2]);
      merge == Merge(m(x, y), if x < y then x else y, if x < y then y else x)
    ensures RoundObeys(e, start, Step(members, walked, merge))
    ensures merge.x < |members| && merge.y < |members|
    ensures JoinsMembers(JoinOf(m, members, merge.x, merge.y), Step(members, walked, merge))
  {
    WalksByCost(e, m, size, members, start, walked);
    var (x, y) := (walked[|walked| - 1], walked[|walked| - 2]);
    assert m(x, y) == m(y, x) && x != y;
    assert Active(size, x) && Active(size, y);
  }

  ghost function MembersFrom(n: nat, steps: seq<Step>): seq<set<nat>> {
    if steps == [] then PointMembers(n)
    else
      var Step(members, _, merge) := steps[|steps| - 1];
      if merge.x < |members| && merge.y < |members| then MembersAfter(members, merge.x, merge.y) else members
  }

  /** The chain the next round starts from: what was walked, less its last two slots. */
  ghost function ChainFrom(steps: seq<Step>): seq<nat> {
    if steps == [] || |steps[|steps| - 1].walked| < 2 then []
    else
      var walked := steps[|steps| - 1].walked;
      walked[..|walked| - 2]
  }

  ghost predicate StepObeys(e: Energy, n: nat, steps: seq<Step>, t: nat)
    requires t < |steps|
  {
    steps[t].members == MembersFrom(n, steps[..t]) && RoundObeys(e, ChainFrom(steps[..t]), steps[t])
  }

  /** `steps` are the rounds of a run: each starts where the one before ended, and obeys the
      rules for starting, walking, stopping and merging. */
  ghost predicate Trace(e: Energy, n: nat, steps: seq<Step>) {
    forall t: nat :: t < |steps| ==> StepObeys(e, n, steps, t)
  }

  ghost function MergesOf(steps: seq<Step>): seq<Merge> {
    seq(|steps|, t requires 0 <= t < |steps| => steps[t].merge)
  }

  lemma TraceSnoc(e: Energy, n: nat, steps: seq<Step>, step: Step)
    requires Trace(e, n, steps)
    requires step.members == MembersFrom(n, steps) && RoundObeys(e, ChainFrom(steps), step)
    ensures Trace(e, n, steps + [step]) && MergesOf(steps + [step]) == MergesOf(steps) + [step.merge]
  {
    forall t: nat | t < |steps| + 1
      ensures StepObeys(e, n, steps + [step], t)
    {
      if t < |steps| {
        assert (steps + [step])[..t] == steps[..t];
        assert StepObeys(e, n, steps, t);
      } else {
        assert (steps + [step])[..t] == steps;
      }
    }
  }

  /** What a run did: slots pushed, scans made, and how often the chain was started anew. */
  datatype Work = Work(pushes: nat, scans: nat, starts: nat)

  /** One round: starts the chain if it is empty, walks it to two mutually nearest slots,
      pops them and merges them. */
  method Round(n: nat, d: array<real>, size: array<nat>, start: seq<nat>, ghost e: Energy, ghost members: seq<set<nat>>)
      returns (chain: seq<nat>, merge: Merge, ghost join: Join, ghost members': seq<set<nat>>, ghost work: Work,
        ghost walked: seq<nat>)
    requires PairEnergy(e) && d.Length == PairCount(n) && size.Length == n
    requires Good(e, View(d[..], n), size[..], members, start) && |ActiveSlots(size[..])| >= 2
    modifies d, size
    ensures Good(e, View(d[..], n), size[..], members', chain)
    ensures |chain| < |ActiveSlots(size[..])| == old(|ActiveSlots(size[..])|) - 1
    ensures merge.x < merge.y < n && ActiveSlots(size[..]) == old(ActiveSlots(size[..])) - {merge.x}
    ensures SumOfSizes(size[..]) == old(SumOfSizes(size[..]))
    ensures merge == Merge(join.height, join.x, join.y)
    ensures Reciprocal(e, Blocks(members), join) && Blocks(members') == Apply(Blocks(members), join)
    ensures work.pushes + |start| == |chain| + 2 && work.scans + work.starts == work.pushes + 1
    ensures work.starts == if start == [] then 1 else 0
    ensures |walked| >= 2 && chain == walked[..|walked| - 2] && RoundObeys(e, start, Step(members, walked, merge))
    ensures JoinsMembers(join, Step(members, walked, merge)) && members' == MembersAfter(members, merge.x, merge.y)
  {
    ghost var (m, sizes) := (View(d[..], n), size[..]);
    chain := start;
    if chain == [] {
      var first := FirstActive(n, size);
      chain := [first];
    }
    var nearest: real;
    ghost var scans: nat;
    chain, nearest, scans := Walk(n, d, size, chain);
    work := Work(|chain| - |start|, scans, if start == [] then 1 else 0);
    walked := chain;
    var x, y := chain[|chain| - 1], chain[|chain| - 2];
    chain := chain[..|chain| - 2];
    if x > y {
      x, y := y, x;
    }
    assert nearest == m(x, y);
    merge := Merge(nearest, x, y);
    MergeObeys(e, m, sizes, members, start, walked, merge);
    MergeSlots(n, d, size, x, y, nearest);
    ViewIsSymmetric(d[..], n);
    MergeStep(e, m, View(d[..], n), sizes, members, walked, x, y);
    join, members' := JoinOf(m, members, x, y), MembersAfter(members, x, y);
  }

  /** The merges so far lead from the single points to the partition `p`. */
  ghost predicate Recorded(e: Energy, n: nat, p: Partition, merges: seq<Merge>, run: seq<Join>) {
    Records(merges, run) && ReciprocalRun(e, Singletons(n), run) && p == After(Singletons(n), run)
  }

  /** No height inversions: while a slot stands for the cluster that merge `s` formed, it is
      at least that merge's height away from every other active slot. */
  lemma {:induction false} FormedSlotIsApart(e: Energy, n: nat, m: Matrix, size: seq<nat>, members: seq<set<nat>>,
      merges: seq<Merge>, run: seq<Join>, s: nat, i: nat, j: nat)
    requires PairEnergy(e) && SlotsOk(size, members) && MatrixOk(e, m, size, members)
    requires Recorded(e, n, Blocks(members), merges, run) && s < |run|
    requires Active(size, i) && Active(size, j) && i != j && members[i] == run[s].a + run[s].b
    ensures m(i, j) >= merges[s].height
  {
    SingletonsArePartition(n);
    assert members[i] in Blocks(members) && members[j] in Blocks(members) && members[i] !! members[j];
    FormedIsApart(e, Singletons(n), run, s, members[i]);
  }

  lemma RecordSnoc(e: Energy, n: nat, p: Partition, merges: seq<Merge>, run: seq<Join>, merge: Merge, join: Join)
    requires Recorded(e, n, p, merges, run)
    requires Reciprocal(e, p, join) && merge == Merge(join.height, join.x, join.y)
    ensures Recorded(e, n, Apply(p, join), merges + [merge], run + [join])
  {
    ReciprocalRunSnoc(e, Singletons(n), run, join);
  }

  /** The merges are those of a trace, and the joins join the clusters it names. */
  ghost predicate Traced(e: Energy, n: nat, merges: seq<Merge>, run: seq<Join>, steps: seq<Step>) {
    && Trace(e, n, steps) && merges == MergesOf(steps) && |run| == |steps|
    && forall t: nat :: t < |run| ==> JoinsMembers(run[t], steps[t])
  }

  lemma FromSnoc(n: nat, steps: seq<Step>, step: Step)
    requires |step.walked| >= 2 && step.merge.x < |step.members| && step.merge.y < |step.members|
    ensures MembersFrom(n, steps + [step]) == MembersAfter(step.members, step.merge.x, step.merge.y)
    ensures ChainFrom(steps + [step]) == step.walked[..|step.walked| - 2]
  {
  }

  lemma TracedSnoc(e: Energy, n: nat, merges: seq<Merge>, run: seq<Join>, steps: seq<Step>, step: Step, join: Join)
    requires Traced(e, n, merges, run, steps) && JoinsMembers(join, step)
    requires step.members == MembersFrom(n, steps) && RoundObeys(e, ChainFrom(steps), step)
    ensures Traced(e, n, merges + [step.merge], run + [join], steps + [step])
  {
    TraceSnoc(e, n, steps, step);
  }

  /** The merges so far lead to the clusters `members`, and obey the rules. */
  ghost predicate Logged(e: Energy, n: nat, members: seq<set<nat>>, chain: seq<nat>, merges: seq<Merge>,
      run: seq<Join>, steps: seq<Step>) {
    && Recorded(e, n, Blocks(members), merges, run) && Traced(e, n, merges, run, steps)
    && members == MembersFrom(n, steps) && chain == ChainFrom(steps)
  }

  lemma LoggedSnoc(e: Energy, n: nat, members: seq<set<nat>>, chain: seq<nat>, merges: seq<Merge>, run: seq<Join>,
      steps: seq<Step>, members': seq<set<nat>>, step: Step, join: Join)
    requires Logged(e, n, members, chain, merges, run, steps) && step.members == members && RoundObeys(e, chain, step)
    requires JoinsMembers(join, step) && members' == MembersAfter(members, step.merge.x, step.merge.y)
    requires Reciprocal(e, Blocks(members), join) && Blocks(members') == Apply(Blocks(members), join)
    ensures Logged(e, n, members', step.walked[..|step.walked| - 2], merges + [step.merge], run + [join],
      steps + [step])
  {
    TracedSnoc(e, n, merges, run, steps, step, join);
    FromSnoc(n, steps, step);
    RecordSnoc(e, n, Blocks(members), merges, run, step.merge, join);
  }

  /** Where the run stands after `step` rounds. */
  ghost predicate Progress(e: Energy, n: nat, size: seq<nat>, members: seq<set<nat>>, chain: seq<nat>,
      merges: seq<Merge>, run: seq<Join>, steps: seq<Step>, work: Work, step: nat) {
    && |ActiveSlots(size)| == n - step && SumOfSizes(size) == n && n - 1 in ActiveSlots(size)
    && |merges| == step && Logged(e, n, members, chain, merges, run, steps)
    && work.pushes == |chain| + 2 * step && work.scans + work.starts == |chain| + 3 * step
    && if step == 0 then chain == [] else work.starts > 0
  }

  function AddWork(a: Work, b: Work): Work {
    Work(a.pushes + b.pushes, a.scans + b.scans, a.starts + b.starts)
  }

  lemma ProgressStep(e: Energy, n: nat, size: seq<nat>, members: seq<set<nat>>, chain: seq<nat>,
      merges: seq<Merge>, run: seq<Join>, steps: seq<Step>, work: Work, step: nat,
      size': seq<nat>, members': seq<set<nat>>, merge: Merge, join: Join, round: Work, walked: seq<nat>)
    requires Progress(e, n, size, members, chain, merges, run, steps, work, step) && |walked| >= 2
    requires merge.x < merge.y < n && ActiveSlots(size') == ActiveSlots(size) - {merge.x}
    requires |ActiveSlots(size')| == |ActiveSlots(size)| - 1 && SumOfSizes(size') == SumOfSizes(size)
    requires Reciprocal(e, Blocks(members), join) && Blocks(members') == Apply(Blocks(members), join)
    requires round.pushes + |chain| == |walked| && round.scans + round.starts == round.pushes + 1
    requires round.starts == if chain == [] then 1 else 0
    requires RoundObeys(e, chain, Step(members, walked, merge))
    requires JoinsMembers(join, Step(members, walked, merge)) && members' == MembersAfter(members, merge.x, merge.y)
    ensures Progress(e, n, size', members', walked[..|walked| - 2], merges + [merge], run + [join],
      steps + [Step(members, walked, merge)], AddWork(work, round), step + 1)
  {
    LoggedSnoc(e, n, members, chain, merges, run, steps, members', Step(members, walked, merge), join);
  }

  lemma OnlyMember(slots: set<nat>, i: nat)
    requires i in slots && |slots| == 1
    ensures slots == {i}
  {
    assert |slots - {i}| == 0;
  }

  lemma ProgressStarts(e: Energy, n: nat, size: seq<nat>)
    requires n > 0 && |ActiveSlots(size)| == n == SumOfSizes(size) && Active(size, n - 1)
    requires Blocks(PointMembers(n)) == Singletons(n)
    ensures Progress(e, n, size, PointMembers(n), [], [], [], [], Work(0, 0, 0), 0)
  {
  }

  lemma ProgressEnds(e: Energy, n: nat, size: seq<nat>, members: seq<set<nat>>, chain: seq<nat>,
      merges: seq<Merge>, run: seq<Join>, steps: seq<Step>, work: Work)
    requires n > 0 && |size| == n && Progress(e, n, size, members, chain, merges, run, steps, work, n - 1)
    requires |chain| < |ActiveSlots(size)|
    ensures |merges| == n - 1 && Records(merges, run)
    ensures ReciprocalRun(e, Singletons(n), run) && Traced(e, n, merges, run, steps)
    ensures chain == [] && size == seq(n - 1, i => 0) + [n]
    ensures work.pushes == 2 * (n - 1) && work.scans == 3 * (n - 1) - work.starts
    ensures n > 1 ==> work.starts > 0
  {
    OnlyMember(ActiveSlots(size), n - 1);
    LastHoldsAll(size, n);
  }

  /** All rounds, for any energy the starting matrix agrees with. The sizes add up to `n`
      throughout; in the end the last slot holds all points, and the chain is empty. */
  method Rounds(n: nat, d: array<real>, size: array<nat>, ghost e: Energy)
      returns (merges: seq<Merge>, chain: seq<nat>, ghost run: seq<Join>, ghost work: Work, ghost steps: seq<Step>)
    requires n > 0 && PairEnergy(e) && d.Length == PairCount(n) && size.Length == n
    requires Good(e, View(d[..], n), size[..], PointMembers(n), [])
    requires |ActiveSlots(size[..])| == n == SumOfSizes(size[..]) && Active(size[..], n - 1)
    requires Blocks(PointMembers(n)) == Singletons(n)
    modifies d, size
    ensures |merges| == n - 1 && Records(merges, run)
    ensures ReciprocalRun(e, Singletons(n), run) && Traced(e, n, merges, run, steps)
    ensures chain == [] && size[..] == seq(n - 1, i => 0) + [n]
    ensures work.pushes == 2 * (n - 1) && work.scans == 3 * (n - 1) - work.starts
    ensures n > 1 ==> work.starts > 0
  {
    chain := [];
    merges := [];
    run, work, steps := [], Work(0, 0, 0), [];
    ghost var members := PointMembers(n);
    ProgressStarts(e, n, size[..]);
    for step := 0 to n - 1
      invariant Good(e, View(d[..], n), size[..], members, chain) && |chain| < |ActiveSlots(size[..])|
      invariant Progress(e, n, size[..], members, chain, merges, run, steps, work, step)
    {
      ghost var (sizes, start, blocks, did) := (size[..], chain, members, work);
      var merge: Merge;
      ghost var join: Join;
      ghost var round: Work;
      ghost var walked: seq<nat>;
      chain, merge, join, members, round, walked := Round(n, d, size, chain, e, members);
      ProgressStep(e, n, sizes, blocks, start, merges, run, steps, did, step,
        size[..], members, merge, join, round, walked);
      merges := merges + [merge];
      run := run + [join];
      steps := steps + [Step(blocks, walked, merge)];
      work := AddWork(work, round);
    }
    ProgressEnds(e, n, size[..], members, chain, merges, run, steps, work);
  }

  /** The chain's merges are a complete reciprocal run under Ward's cost. Every merge pops
      the two slots it joins, so a run pushes `2 (n - 1)` slots; a scan either pushes a slot
      or ends in a merge, so it makes `3 (n - 1)` scans less one for each start of the chain. */
  method Run(c: seq<real>, n: nat)
      returns (merges: seq<Merge>, chain: seq<nat>, ghost run: seq<Join>, ghost work: Work, ghost steps: seq<Step>)
    requires n > 0 && |c| == PairCount(n) && forall k :: 0 <= k < |c| ==> c[k] >= 0.0
    ensures |merges| == n - 1 && Records(merges, run)
    ensures ReciprocalRun(WardEnergy(c, n), Singletons(n), run)
    ensures Traced(WardEnergy(c, n), n, merges, run, steps)
    ensures chain == []
    ensures work.pushes == 2 * (n - 1) && work.scans == 3 * (n - 1) - work.starts
    ensures n > 1 ==> work.starts > 0
  {
    var d := new real[|c|](k requires 0 <= k < |c| => c[k]);
    var size := new nat[n](i => 1);
    assert d[..] == c;
    WardEnergyIsPairEnergy(c, n);
    InitiallyGood(c, n, size[..]);
    merges, chain, run, work, steps := Rounds(n, d, size, WardEnergy(c, n));
  }
}
