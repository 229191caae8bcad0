/** The union-find that replays the merges: every parent is at least its child, so the
    root of a component is its largest slot. */
module UnionFind {
  import opened Ward
  import opened Agglomeration
  import opened NnChain

  ghost predicate Forest(parent: seq<nat>) {
    forall i :: 0 <= i < |parent| ==> i <= parent[i] < |parent|
  }

  ghost function Root(parent: seq<nat>, i: nat): (r: nat)
    requires Forest(parent) && i < |parent|
    ensures i <= r < |parent| && parent[r] == r
    decreases |parent| - i
  {
    if parent[i] == i then i else Root(parent, parent[i])
  }

  /** Pointing a slot at its grandparent changes no root. */
  lemma {:induction false} HalvingKeepsRoots(parent: seq<nat>, i: nat, j: nat)
    requires Forest(parent) && i < |parent| && j < |parent|
    ensures Forest(parent[i := parent[parent[i]]])
    ensures Root(parent[i := parent[parent[i]]], j) == Root(parent, j)
    decreases |parent| - j
  {
    var halved := parent[i := parent[parent[i]]];
    if halved[j] != j {
      HalvingKeepsRoots(parent, i, halved[j]);
    }
  }

  /** Follows parents to the root, halving the path. */
  method Find(parent: array<nat>, start: nat) returns (i: nat)
    requires Forest(parent[..]) && start < parent.Length
    modifies parent
    ensures Forest(parent[..]) && i == Root(old(parent[..]), start)
    ensures forall j: nat :: j < parent.Length ==> Root(parent[..], j) == Root(old(parent[..]), j)
  {
    ghost var before := parent[..];
    i := start;
    while parent[i] != i
      invariant i < parent.Length && Forest(parent[..])
      invariant Root(parent[..], i) == Root(before, start)
      invariant forall j: nat :: j < parent.Length ==> Root(parent[..], j) == Root(before, j)
      decreases parent.Length - i
    {
      ghost var now := parent[..];
      parent[i] := parent[parent[i]];
      assert parent[..] == now[i := now[now[i]]];
      forall j: nat | j < |now|
        ensures Forest(parent[..]) && Root(parent[..], j) == Root(now, j)
      {
        HalvingKeepsRoots(now, i, j);
      }
      i := parent[i];
    }
  }

  /** Linking one root below a larger one redirects exactly its component. */
  lemma {:induction false} LinkMovesRoots(parent: seq<nat>, x: nat, y: nat, j: nat)
    requires Forest(parent) && x < y < |parent| && parent[x] == x && parent[y] == y && j < |parent|
    ensures Forest(parent[x := y])
    ensures Root(parent[x := y], j) == if Root(parent, j) == x then y else Root(parent, j)
    decreases |parent| - j
  {
    if parent[x := y][j] != j {
      LinkMovesRoots(parent, x, y, parent[x := y][j]);
    }
  }

  /** The root of every point is the largest point of its cluster. */
  ghost predicate Represents(parent: seq<nat>, p: Partition) {
    && Forest(parent)
    && forall s, i: nat :: s in p && i in s ==> i < |parent| && LargestIn(Root(parent, i), s)
  }

  lemma LinkRepresents(e: Energy, parent: seq<nat>, p: Partition, j: Join)
    requires IsPartition(p) && Joins(e, p, j) && Represents(parent, p)
    ensures j.x < |parent| && j.y < |parent| && Root(parent, j.x) == j.x && Root(parent, j.y) == j.y
    ensures Represents(parent[j.x := j.y], Apply(p, j))
  {
    assert LargestIn(Root(parent, j.x), j.a) && LargestIn(Root(parent, j.y), j.b);
    var linked := parent[j.x := j.y];
    LinkMovesRoots(parent, j.x, j.y, j.x);
    forall s, i: nat | s in Apply(p, j) && i in s
      ensures i < |parent| && LargestIn(Root(linked, i), s)
    {
      var t := if s in p then s else if i in j.a then j.a else j.b;
      assert t in p && i in t && LargestIn(Root(parent, i), t);
      LinkMovesRoots(parent, j.x, j.y, i);
      if s in p {
        assert s !! j.a;
      }
    }
  }

  lemma RootsDecideRepresents(parent: seq<nat>, parent': seq<nat>, p: Partition)
    requires Represents(parent, p) && Forest(parent') && |parent'| == |parent|
    requires forall i: nat :: i < |parent| ==> Root(parent', i) == Root(parent, i)
    ensures Represents(parent', p)
  {
  }

  /** Unites the components of two slots. */
  method Unite(parent: array<nat>, x: nat, y: nat, ghost e: Energy, ghost p: Partition, ghost j: Join)
    requires IsPartition(p) && Joins(e, p, j) && Represents(parent[..], p)
    requires x == j.x && y == j.y
    modifies parent
    ensures Represents(parent[..], Apply(p, j))
  {
    ghost var before := parent[..];
    LinkRepresents(e, before, p, j);
    var rootY := Find(parent, y);
    var rootX := Find(parent, x);
    ghost var found := parent[..];
    RootsDecideRepresents(before, found, p);
    LinkRepresents(e, found, p, j);
    parent[rootX] := rootY;
    assert parent[..] == found[j.x := j.y];
  }

  /** Unites the slots of the first `count` merges of `order`. */
  method Replay(n: nat, merges: seq<Merge>, order: seq<nat>, count: nat, ghost e: Energy, ghost run: seq<Join>)
      returns (parent: array<nat>)
    requires IndicesIn(order, 0, |merges|) && count <= |order| == |run|
    requires forall t :: 0 <= t < |run| ==> merges[order[t]] == Merge(run[t].height, run[t].x, run[t].y)
    requires JoinRun(e, Singletons(n), run)
    ensures fresh(parent) && parent.Length == n
    ensures Represents(parent[..], After(Singletons(n), run[..count]))
  {
    parent := new nat[n](i => i);
    SingletonsArePartition(n);
    for m := 0 to count
      invariant Represents(parent[..], After(Singletons(n), run[..m]))
    {
      JoinRunAt(e, Singletons(n), run, m);
      var Merge(_, x, y) := merges[order[m]];
      Unite(parent, x, y, e, After(Singletons(n), run[..m]), run[m]);
    }
  }

  /** The roots of all points, in order. */
  method Roots(parent: array<nat>) returns (roots: seq<nat>)
    requires Forest(parent[..])
    modifies parent
    ensures |roots| == parent.Length
    ensures forall i :: 0 <= i < |roots| ==> roots[i] == Root(old(parent[..]), i)
  {
    ghost var before := parent[..];
    roots := [];
    for i := 0 to parent.Length
      invariant |roots| == i && Forest(parent[..])
      invariant forall j: nat :: j < parent.Length ==> Root(parent[..], j) == Root(before, j)
      invariant forall j :: 0 <= j < i ==> roots[j] == Root(before, j)
    {
      var root := Find(parent, i);
      roots := roots + [root];
    }
  }
}
