/** Cutting a linkage matrix: the simple cut the clustering is compared with. Rows name
    the nodes they merge; row `t` forms node `n + t`. */
module Linkage {
  import opened Ward
  import opened Agglomeration
  import opened NnChain
  import opened UnionFind
  import opened Labels
  import opened Results

  type Nodes = map<nat, seq<nat>>

  function Elements(leaves: seq<nat>): set<nat> {
    set i | i in leaves
  }

  function RowCount(n: nat, k: nat): nat {
    if k < n then n - k else 0
  }

  function Identity(n: nat): seq<nat> {
    seq(n, i => i)
  }

  /** Each point is the only leaf of its own node. */
  function Leaves(n: nat): Nodes {
    map i: nat | i in Identity(n) :: [i]
  }

  function Merged(nodes: Nodes, row: (nat, nat), node: nat): Option<Nodes> {
    if row.0 in nodes && row.1 in nodes && row.0 != row.1
    then Some((nodes - {row.0, row.1})[node := nodes[row.0] + nodes[row.1]])
    else None
  }

  /** The live nodes and their leaves after the first `rows` rows, or `None` if a row is
      missing or names a node that is not live. */
  function NodesAfter(z: seq<(nat, nat)>, n: nat, rows: nat): Option<Nodes> {
    if rows == 0 then Some(Leaves(n))
    else
      var prior := NodesAfter(z, n, rows - 1);
      if prior.None? || rows > |z| then None else Merged(prior.value, z[rows - 1], n + rows - 1)
  }

  ghost predicate HasOwner(nodes: Nodes, i: nat) {
    exists a :: a in nodes && i in nodes[a]
  }

  /** Every point below `n` is a leaf of exactly one node. */
  ghost predicate NodesOk(nodes: Nodes, n: nat, bound: nat) {
    && (forall a :: a in nodes ==> a < bound && nodes[a] != [])
    && (forall a, i :: a in nodes && i in nodes[a] ==> i < n)
    && (forall a, b, i :: a in nodes && b in nodes && i in nodes[a] && i in nodes[b] ==> a == b)
    && forall i: nat :: i < n ==> HasOwner(nodes, i)
  }

  ghost function Clusters(nodes: Nodes): Partition {
    set a | a in nodes :: Elements(nodes[a])
  }

  lemma MergedIsOk(nodes: Nodes, n: nat, row: (nat, nat), node: nat)
    requires NodesOk(nodes, n, node) && Merged(nodes, row, node).Some?
    ensures NodesOk(Merged(nodes, row, node).value, n, node + 1)
  {
    var merged := Merged(nodes, row, node).value;
    assert forall i :: i in merged[node] <==> i in nodes[row.0] || i in nodes[row.1];
    forall i: nat | i < n
      ensures HasOwner(merged, i)
    {
      assert HasOwner(nodes, i);
      var a :| a in nodes && i in nodes[a];
      if a != row.0 && a != row.1 {
        assert a in merged && i in merged[a];
      } else {
        assert node in merged && i in merged[node];
      }
    }
  }

  lemma LeavesAreOk(n: nat)
    ensures NodesOk(Leaves(n), n, n)
  {
    var nodes := Leaves(n);
    forall i: nat | i < n
      ensures HasOwner(nodes, i)
    {
      assert Identity(n)[i] == i;
      assert i in nodes && i in nodes[i];
    }
  }

  /** The nodes' leaf sets are a partition; two points share a cluster iff they share a node. */
  lemma ClustersArePartition(nodes: Nodes, n: nat, bound: nat)
    requires NodesOk(nodes, n, bound)
    ensures PartitionOf(Clusters(nodes), n)
  {
    forall s | s in Clusters(nodes)
      ensures s != {}
    {
      var a :| a in nodes && s == Elements(nodes[a]);
      assert nodes[a][0] in s;
    }
    forall i: nat | i < n
      ensures Together(Clusters(nodes), i, i)
    {
      assert HasOwner(nodes, i);
      var a :| a in nodes && i in nodes[a];
      assert Elements(nodes[a]) in Clusters(nodes);
    }
  }

  lemma OwnersDecideClusters(nodes: Nodes, n: nat, bound: nat, owner: seq<nat>, i: nat, j: nat)
    requires NodesOk(nodes, n, bound) && |owner| == n && i < n && j < n
    requires forall l: nat :: l < n ==> owner[l] in nodes && l in nodes[owner[l]]
    ensures owner[i] == owner[j] <==> Together(Clusters(nodes), i, j)
  {
    if owner[i] == owner[j] {
      assert Elements(nodes[owner[i]]) in Clusters(nodes);
    }
    if Together(Clusters(nodes), i, j) {
      var s :| s in Clusters(nodes) && i in s && j in s;
      var a :| a in nodes && s == Elements(nodes[a]);
      assert i in nodes[a] && j in nodes[a];
    }
  }

  /** Writes each node's number into the slots of its leaves, in any order of the nodes. */
  method Owners(nodes: Nodes, n: nat, ghost bound: nat) returns (owner: array<nat>)
    requires NodesOk(nodes, n, bound)
    ensures fresh(owner) && owner.Length == n
    ensures forall i: nat :: i < n ==> owner[i] in nodes && i in nodes[owner[i]]
  {
    owner := new nat[n](i => 0);
    var left := nodes.Keys;
    while left != {}
      invariant left <= nodes.Keys && owner.Length == n
      invariant forall a, i :: a in nodes && a !in left && i in nodes[a] ==> owner[i] == a
      decreases left
    {
      var node :| node in left;
      var leaves := nodes[node];
      assert forall m :: 0 <= m < |leaves| ==> leaves[m] in nodes[node];
      for l := 0 to |leaves|
        invariant forall a, i :: a in nodes && a !in left && i in nodes[a] ==> owner[i] == a
        invariant forall m :: 0 <= m < l ==> owner[leaves[m]] == node
      {
        owner[leaves[l]] := node;
      }
      left := left - {node};
    }
    forall i: nat | i < n
      ensures owner[i] in nodes && i in nodes[owner[i]]
    {
      assert HasOwner(nodes, i);
    }
  }

  lemma {:induction false} NodesFail(z: seq<(nat, nat)>, n: nat, row: nat, rows: nat)
    requires row <= rows
    ensures NodesAfter(z, n, row).None? ==> NodesAfter(z, n, rows).None?
    decreases rows
  {
    if row < rows {
      NodesFail(z, n, row, rows - 1);
    }
  }

  /** Labels the clusters left after the first `n - k` rows, or fails on a row that is
      missing or does not name two live nodes. */
  method CutLinkage(z: seq<(nat, nat)>, n: nat, k: nat) returns (r: Option<seq<nat>>)
    ensures r.Some? <==> NodesAfter(z, n, RowCount(n, k)).Some?
    ensures r.Some? ==> |r.value| == n && Labelled(r.value, Clusters(NodesAfter(z, n, RowCount(n, k)).value))
    ensures r.Some? ==> PartitionOf(Clusters(NodesAfter(z, n, RowCount(n, k)).value), n)
  {
    var members := Leaves(n);
    LeavesAreOk(n);
    for row := 0 to RowCount(n, k)
      invariant NodesAfter(z, n, row) == Some(members) && NodesOk(members, n, n + row)
    {
      NodesFail(z, n, row + 1, RowCount(n, k));
      if row >= |z| {
        return None;
      }
      var (a, b) := z[row];
      if a !in members || b !in members || a == b {
        return None;
      }
      MergedIsOk(members, n, z[row], n + row);
      members := (members - {a, b})[n + row := members[a] + members[b]];
    }
    var owner := Owners(members, n, n + RowCount(n, k));
    var labels := FirstAppearance(owner[..]);
    ClustersArePartition(members, n, n + RowCount(n, k));
    forall i: nat, j: nat | i < n && j < n
      ensures labels[i] == labels[j] <==> Together(Clusters(members), i, j)
    {
      OwnersDecideClusters(members, n, n + RowCount(n, k), owner[..], i, j);
      assert owner[..][i] == owner[..][j] <==> labels[i] == labels[j];
    }
    r := Some(labels);
  }

  // ----- Which rows can be replayed, and what they do

  /** One of the first `t` rows names node `a`. */
  ghost predicate Named(z: seq<(nat, nat)>, t: nat, a: nat) {
    exists r: nat :: r < t && r < |z| && (z[r].0 == a || z[r].1 == a)
  }

  /** Row `r` names two different nodes, formed before it and not named before. */
  ghost predicate RowIsValid(z: seq<(nat, nat)>, n: nat, r: nat)
    requires r < |z|
  {
    && z[r].0 != z[r].1 && z[r].0 < n + r && z[r].1 < n + r
    && !Named(z, r, z[r].0) && !Named(z, r, z[r].1)
  }

  lemma NamedNext(z: seq<(nat, nat)>, t: nat, a: nat)
    requires t < |z|
    ensures Named(z, t + 1, a) <==> Named(z, t, a) || z[t].0 == a || z[t].1 == a
  {
  }

  lemma NamedAreOlder(z: seq<(nat, nat)>, n: nat, t: nat, a: nat)
    requires t <= |z| && (forall r: nat :: r < t ==> RowIsValid(z, n, r)) && a >= n + t
    ensures !Named(z, t, a)
  {
    assert forall r: nat :: r < t ==> z[r].0 < n + r && z[r].1 < n + r by {
      forall r: nat | r < t
        ensures z[r].0 < n + r && z[r].1 < n + r
      {
        assert RowIsValid(z, n, r);
      }
    }
  }

  /** The first `t` rows can be replayed exactly if they are there and valid; then the live
      nodes are those formed so far that no row has named. */
  lemma {:induction false} RowsReplay(z: seq<(nat, nat)>, n: nat, t: nat)
    ensures NodesAfter(z, n, t).Some? <==> t <= |z| && forall r: nat :: r < t ==> RowIsValid(z, n, r)
    ensures NodesAfter(z, n, t).Some? ==>
      forall a: nat :: a in NodesAfter(z, n, t).value <==> a < n + t && !Named(z, t, a)
    decreases t
  {
    if t == 0 {
      forall a: nat
        ensures a in Leaves(n) <==> a < n
      {
        assert a < n ==> Identity(n)[a] == a;
      }
    } else {
      RowsReplay(z, n, t - 1);
      if NodesAfter(z, n, t - 1).Some? && t <= |z| {
        assert NodesAfter(z, n, t).Some? <==> RowIsValid(z, n, t - 1);
        forall a: nat
          ensures Named(z, t, a) <==> Named(z, t - 1, a) || z[t - 1].0 == a || z[t - 1].1 == a
        {
          NamedNext(z, t - 1, a);
        }
        NamedAreOlder(z, n, t - 1, n + t - 1);
      }
    }
  }

  /** A row joins the clusters of its two nodes, and keeps the others. */
  lemma RowJoins(nodes: Nodes, n: nat, row: (nat, nat), node: nat)
    requires NodesOk(nodes, n, node) && Merged(nodes, row, node).Some?
    ensures var (a, b) := (Elements(nodes[row.0]), Elements(nodes[row.1]));
      Clusters(Merged(nodes, row, node).value) == Clusters(nodes) - {a, b} + {a + b}
  {
    var (a, b) := (Elements(nodes[row.0]), Elements(nodes[row.1]));
    var merged := Merged(nodes, row, node).value;
    assert Elements(merged[node]) == a + b;
    forall c | c in nodes && c != row.0 && c != row.1
      ensures Elements(nodes[c]) != a && Elements(nodes[c]) != b
    {
      assert nodes[c][0] in Elements(nodes[c]);
      assert nodes[c][0] !in nodes[row.0] && nodes[c][0] !in nodes[row.1];
    }
    forall s
      ensures s in Clusters(merged) <==> s in Clusters(nodes) - {a, b} + {a + b}
    {
      if s in Clusters(nodes) && s != a && s != b {
        var c :| c in nodes && s == Elements(nodes[c]);
        assert c in merged && merged[c] == nodes[c];
      }
    }
  }

  // ----- The same run as linkage rows

  /** The node each slot stands for after `t` joins: its own leaf, then the last row that
      merged into it. */
  ghost function NodeIds(n: nat, run: seq<Join>, t: nat): (ids: seq<nat>)
    requires t <= |run|
    ensures |ids| == n
  {
    if t == 0 then Identity(n)
    else
      var ids := NodeIds(n, run, t - 1);
      if run[t - 1].y < n then ids[run[t - 1].y := n + t - 1] else ids
  }

  /** `z` lists the joins of `run` with slots renumbered as nodes; a row may name its two
      nodes in either order. */
  ghost predicate LinkageOf(z: seq<(nat, nat)>, n: nat, run: seq<Join>) {
    && |z| == |run|
    && forall t :: 0 <= t < |run| ==>
      var (ids, j) := (NodeIds(n, run, t), run[t]);
      j.x < n && j.y < n && (z[t] == (ids[j.x], ids[j.y]) || z[t] == (ids[j.y], ids[j.x]))
  }

  /** Node `ids[x]` holds exactly the cluster whose largest point is `x`. */
  ghost predicate Mirrors(nodes: Nodes, ids: seq<nat>, p: Partition) {
    && (forall s, x: nat :: s in p && LargestIn(x, s) ==> x < |ids| && ids[x] in nodes && Elements(nodes[ids[x]]) == s)
    && (forall a :: a in nodes ==> Elements(nodes[a]) in p)
    && forall a, x: nat :: a in nodes && LargestIn(x, Elements(nodes[a])) ==> x < |ids| && ids[x] == a
  }

  lemma RowIsMerged(e: Energy, nodes: Nodes, ids: seq<nat>, p: Partition, j: Join, row: (nat, nat), node: nat)
    requires IsPartition(p) && Joins(e, p, j) && Mirrors(nodes, ids, p)
    requires j.x < |ids| && j.y < |ids| && (row == (ids[j.x], ids[j.y]) || row == (ids[j.y], ids[j.x]))
    ensures Merged(nodes, row, node).Some?
    ensures Elements(Merged(nodes, row, node).value[node]) == j.a + j.b
  {
    assert Elements(nodes[ids[j.x]]) == j.a && Elements(nodes[ids[j.y]]) == j.b;
    assert j.a != j.b;
    var both := nodes[row.0] + nodes[row.1];
    assert forall i :: i in both <==> i in nodes[row.0] || i in nodes[row.1];
  }

  lemma MirrorsStep(e: Energy, nodes: Nodes, n: nat, ids: seq<nat>, p: Partition, j: Join, row: (nat, nat), node: nat,
      nodes': Nodes, ids': seq<nat>, p': Partition)
    requires IsPartition(p) && Joins(e, p, j) && NodesOk(nodes, n, node) && Mirrors(nodes, ids, p)
    requires j.x < |ids| && j.y < |ids| && (row == (ids[j.x], ids[j.y]) || row == (ids[j.y], ids[j.x]))
    requires Merged(nodes, row, node) == Some(nodes') && ids' == ids[j.y := node] && p' == Apply(p, j)
    ensures Mirrors(nodes', ids', p')
  {
    RowIsMerged(e, nodes, ids, p, j, row, node);
    forall s, x: nat | s in p' && LargestIn(x, s)
      ensures x < |ids'| && ids'[x] in nodes' && Elements(nodes'[ids'[x]]) == s
    {
      if s == j.a + j.b {
        assert j.y in s && x in s;
      } else {
        assert s !! j.a && s !! j.b && x != j.y;
      }
    }
    forall a | a in nodes' && a != node
      ensures Elements(nodes'[a]) in p && Elements(nodes'[a]) != j.a && Elements(nodes'[a]) != j.b
    {
      assert a in nodes && nodes'[a] == nodes[a];
    }
    forall a, x: nat | a in nodes' && LargestIn(x, Elements(nodes'[a]))
      ensures x < |ids'| && ids'[x] == a
    {
      if a == node {
        assert j.y in j.a + j.b && x in j.a + j.b;
      } else {
        assert Elements(nodes'[a]) !! j.b;
      }
    }
  }

  lemma LeavesMirror(n: nat)
    ensures Mirrors(Leaves(n), Identity(n), Singletons(n))
  {
    var (nodes, ids) := (Leaves(n), Identity(n));
    forall i: nat | i < n
      ensures i in nodes && Elements(nodes[i]) == {i}
    {
      assert ids[i] == i;
    }
    forall a | a in nodes
      ensures a < n && Elements(nodes[a]) in Singletons(n)
    {
      assert Elements(nodes[a]) == {a};
    }
  }

  lemma OneMoreRow(z: seq<(nat, nat)>, n: nat, t: nat, nodes: Nodes, nodes': Nodes)
    requires 0 < t <= |z| && NodesAfter(z, n, t - 1) == Some(nodes)
    requires Merged(nodes, z[t - 1], n + t - 1) == Some(nodes')
    ensures NodesAfter(z, n, t) == Some(nodes')
  {
  }

  lemma LinkageRow(z: seq<(nat, nat)>, n: nat, run: seq<Join>, t: nat, ids: seq<nat>)
    requires LinkageOf(z, n, run) && t < |run| && ids == NodeIds(n, run, t)
    ensures run[t].x < n && run[t].y < n
    ensures z[t] == (ids[run[t].x], ids[run[t].y]) || z[t] == (ids[run[t].y], ids[run[t].x])
  {
  }

  lemma OneMoreJoin(e: Energy, nodes: Nodes, n: nat, ids: seq<nat>, p: Partition, j: Join,
      row: (nat, nat), node: nat, p': Partition) returns (nodes': Nodes)
    requires IsPartition(p) && Joins(e, p, j) && NodesOk(nodes, n, node) && Mirrors(nodes, ids, p)
    requires j.x < |ids| && j.y < |ids| && (row == (ids[j.x], ids[j.y]) || row == (ids[j.y], ids[j.x]))
    requires p' == Apply(p, j)
    ensures Merged(nodes, row, node) == Some(nodes') && NodesOk(nodes', n, node + 1)
    ensures Mirrors(nodes', ids[j.y := node], p')
  {
    RowIsMerged(e, nodes, ids, p, j, row, node);
    MergedIsOk(nodes, n, row, node);
    nodes' := Merged(nodes, row, node).value;
    MirrorsStep(e, nodes, n, ids, p, j, row, node, nodes', ids[j.y := node], p');
  }

  lemma JoinAt(e: Energy, n: nat, run: seq<Join>, t: nat, q: Partition, p: Partition)
    requires JoinRun(e, Singletons(n), run) && 0 < t <= |run|
    requires q == After(Singletons(n), run[..t - 1]) && p == After(Singletons(n), run[..t])
    ensures IsPartition(q) && Joins(e, q, run[t - 1]) && p == Apply(q, run[t - 1])
  {
    SingletonsArePartition(n);
    JoinRunAt(e, Singletons(n), run, t - 1);
  }

  lemma OneMoreId(n: nat, run: seq<Join>, t: nat, prior: seq<nat>, ids: seq<nat>)
    requires 0 < t <= |run| && run[t - 1].y < n
    requires prior == NodeIds(n, run, t - 1) && ids == NodeIds(n, run, t)
    ensures ids == prior[run[t - 1].y := n + t - 1]
  {
  }

  lemma {:induction false} LinkageStep(e: Energy, z: seq<(nat, nat)>, n: nat, run: seq<Join>, t: nat,
      prior: Nodes, priorIds: seq<nat>, q: Partition, after: Option<Nodes>, ids: seq<nat>, p: Partition)
    requires 0 < t <= |z| == |run| && NodesAfter(z, n, t - 1) == Some(prior) && after == NodesAfter(z, n, t)
    requires IsPartition(q) && Joins(e, q, run[t - 1]) && p == Apply(q, run[t - 1])
    requires NodesOk(prior, n, n + t - 1) && Mirrors(prior, priorIds, q)
    requires run[t - 1].x < |priorIds| && run[t - 1].y < |priorIds| && ids == priorIds[run[t - 1].y := n + t - 1]
    requires || z[t - 1] == (priorIds[run[t - 1].x], priorIds[run[t - 1].y])
             || z[t - 1] == (priorIds[run[t - 1].y], priorIds[run[t - 1].x])
    ensures after.Some? && NodesOk(after.value, n, n + t) && Mirrors(after.value, ids, p)
  {
    var nodes := OneMoreJoin(e, prior, n, priorIds, q, run[t - 1], z[t - 1], n + t - 1, p);
    OneMoreRow(z, n, t, prior, nodes);
  }

  lemma LinkageStarts(z: seq<(nat, nat)>, n: nat, run: seq<Join>, after: Option<Nodes>, ids: seq<nat>, p: Partition)
    requires after == NodesAfter(z, n, 0) && ids == NodeIds(n, run, 0) && p == After(Singletons(n), run[..0])
    ensures after.Some? && NodesOk(after.value, n, n) && Mirrors(after.value, ids, p)
  {
    LeavesAreOk(n);
    LeavesMirror(n);
  }

  lemma {:induction false} LinkageGoesOn(e: Energy, z: seq<(nat, nat)>, n: nat, run: seq<Join>, t: nat,
      prior: Nodes, priorIds: seq<nat>, q: Partition, after: Option<Nodes>, ids: seq<nat>, p: Partition)
    requires JoinRun(e, Singletons(n), run) && LinkageOf(z, n, run) && 0 < t <= |run|
    requires NodesAfter(z, n, t - 1) == Some(prior) && priorIds == NodeIds(n, run, t - 1)
    requires q == After(Singletons(n), run[..t - 1]) && NodesOk(prior, n, n + t - 1) && Mirrors(prior, priorIds, q)
    requires after == NodesAfter(z, n, t) && ids == NodeIds(n, run, t) && p == After(Singletons(n), run[..t])
    ensures after.Some? && NodesOk(after.value, n, n + t) && Mirrors(after.value, ids, p)
  {
    JoinAt(e, n, run, t, q, p);
    LinkageRow(z, n, run, t - 1, priorIds);
    OneMoreId(n, run, t, priorIds, ids);
    LinkageStep(e, z, n, run, t, prior, priorIds, q, after, ids, p);
  }

  /** Replaying the rows of a run's linkage gives the run's partitions. */
  lemma {:induction false} LinkageFollowsRun(e: Energy, z: seq<(nat, nat)>, n: nat, run: seq<Join>, t: nat,
      after: Option<Nodes>, ids: seq<nat>, p: Partition)
    requires JoinRun(e, Singletons(n), run) && LinkageOf(z, n, run) && t <= |run|
    requires after == NodesAfter(z, n, t) && ids == NodeIds(n, run, t) && p == After(Singletons(n), run[..t])
    ensures after.Some? && NodesOk(after.value, n, n + t) && Mirrors(after.value, ids, p)
    decreases t
  {
    if t == 0 {
      LinkageStarts(z, n, run, after, ids, p);
    } else {
      var (prior, priorIds, q) := (NodesAfter(z, n, t - 1), NodeIds(n, run, t - 1), After(Singletons(n), run[..t - 1]));
      LinkageFollowsRun(e, z, n, run, t - 1, prior, priorIds, q);
      LinkageGoesOn(e, z, n, run, t, prior.value, priorIds, q, after, ids, p);
    }
  }

  /** The simple cut sees the same clusters as the run. */
  lemma LinkageClusters(e: Energy, z: seq<(nat, nat)>, n: nat, run: seq<Join>, t: nat)
    requires JoinRun(e, Singletons(n), run) && LinkageOf(z, n, run) && t <= |run|
    ensures NodesAfter(z, n, t).Some? && Clusters(NodesAfter(z, n, t).value) == After(Singletons(n), run[..t])
  {
    var (after, ids, p) := (NodesAfter(z, n, t), NodeIds(n, run, t), After(Singletons(n), run[..t]));
    LinkageFollowsRun(e, z, n, run, t, after, ids, p);
    SingletonsArePartition(n);
    JoinRunPrefix(e, Singletons(n), run, t);
    JoinRunIsPartition(e, Singletons(n), run[..t]);
    forall s | s in p
      ensures s in Clusters(after.value)
    {
      HasLargest(s);
      var x: nat :| LargestIn(x, s);
      assert ids[x] in after.value;
    }
  }
}
