/** The condensed triangular distance matrix: one entry per unordered pair of
    points, row by row. */
module Condensed {
  import opened Results

  /** The number of unordered pairs of `n` points. */
  function PairCount(n: nat): nat {
    if n == 0 then 0 else PairCount(n - 1) + (n - 1)
  }

  /** Where row `i` starts: the rows from `i` on hold the pairs of `n - i` points. */
  function RowStart(n: nat, i: nat): int
    requires i <= n
  {
    PairCount(n) - PairCount(n - i)
  }

  lemma {:induction false} PairCountMonotone(m: nat, n: nat)
    requires m <= n
    ensures PairCount(m) <= PairCount(n)
    decreases n
  {
    if m < n {
      PairCountMonotone(m, n - 1);
    }
  }

  /** The position of the pair `{i, j}`. `IndexFormula` shows that this is the
      closed formula the program evaluates. */
  function CondensedIndex(n: nat, i: nat, j: nat): (k: nat)
    requires i < n && j < n && i != j
    ensures k < PairCount(n)
  {
    var (lo, hi) := if i > j then (j, i) else (i, j);
    PairCountMonotone(n - lo, n);
    RowStart(n, lo) + (hi - lo - 1)
  }

  lemma {:induction false} Doubled(n: nat)
    ensures 2 * PairCount(n) == n * (n - 1)
  {
    if n > 0 {
      Doubled(n - 1);
    }
  }

  lemma RowStartAlgebra(n: int, i: int, m: int, pairs: int, rest: int)
    requires m == n - i && 2 * pairs == n * (n - 1) && 2 * rest == m * (m - 1)
    ensures i * (i + 1) == 2 * (n * i - (pairs - rest))
  {
    assert m * (m - 1) == n * (n - 1) - 2 * (n * i) + i * (i + 1);
  }

  lemma RowStartFormula(n: nat, i: nat)
    requires i <= n
    ensures RowStart(n, i) == n * i - i * (i + 1) / 2
  {
    Doubled(n);
    Doubled(n - i);
    RowStartAlgebra(n, i, n - i, PairCount(n), PairCount(n - i));
  }

  /** The program's expression for the position of a pair `i < j`. */
  lemma IndexFormula(n: nat, i: nat, j: nat)
    requires i < j < n
    ensures CondensedIndex(n, i, j) == CondensedIndex(n, j, i) == n * i - i * (i + 1) / 2 + (j - i - 1)
  {
    RowStartFormula(n, i);
  }

  lemma PairCountFormula(n: nat)
    ensures PairCount(n) == n * (n - 1) / 2
  {
    Doubled(n);
  }

  lemma IndexSymmetric(n: nat, i: nat, j: nat)
    requires i < n && j < n && i != j
    ensures CondensedIndex(n, i, j) == CondensedIndex(n, j, i)
  {
  }

  /** Different unordered pairs have different indices. */
  lemma IndexInjective(n: nat, i: nat, j: nat, p: nat, q: nat)
    requires i < n && j < n && i != j
    requires p < n && q < n && p != q
    requires CondensedIndex(n, i, j) == CondensedIndex(n, p, q)
    ensures (i == p && j == q) || (i == q && j == p)
  {
    var (lo, hi) := if i > j then (j, i) else (i, j);
    var (lo', hi') := if p > q then (q, p) else (p, q);
    if lo < lo' {
      PairCountMonotone(n - lo', n - lo - 1);
      assert false;
    }
    if lo' < lo {
      PairCountMonotone(n - lo, n - lo' - 1);
      assert false;
    }
  }

  /** The pair stored at index `k`, searched for from row `i` on. */
  function PairAt(n: nat, k: nat, i: nat): (pair: (nat, nat))
    requires i <= n && RowStart(n, i) <= k < PairCount(n)
    ensures pair.0 < pair.1 < n && CondensedIndex(n, pair.0, pair.1) == k
    decreases n - i
  {
    if k < RowStart(n, i + 1) then (i, i + 1 + (k - RowStart(n, i))) else PairAt(n, k, i + 1)
  }

  /** `CondensedIndex` is a bijection from the unordered pairs below `n` onto
      the indices below `PairCount(n)`: each index has exactly one pair `i < j`. */
  lemma IndexBijective(n: nat, k: nat)
    requires k < PairCount(n)
    ensures exists i, j :: 0 <= i < j < n && CondensedIndex(n, i, j) == k
    ensures forall i, j, p, q ::
      (0 <= i < j < n && 0 <= p < q < n && CondensedIndex(n, i, j) == k && CondensedIndex(n, p, q) == k) ==>
      i == p && j == q
  {
    var pair := PairAt(n, k, 0);
    assert CondensedIndex(n, pair.0, pair.1) == k;
    forall i, j, p, q | 0 <= i < j < n && 0 <= p < q < n
      && CondensedIndex(n, i, j) == k && CondensedIndex(n, p, q) == k
      ensures i == p && j == q
    {
      IndexInjective(n, i, j, p, q);
    }
  }

  /** Distances below 0 become 0; above 2, or not finite, they become 2. */
  function Clamp(d: Float): (r: real)
    ensures 0.0 <= r <= 2.0
  {
    if d.NonFinite? then 2.0
    else if d.value < 0.0 then 0.0
    else if d.value > 2.0 then 2.0
    else d.value
  }

  function Gap(x: real, y: real): real {
    if x < y then y - x else x - y
  }

  /** A finite distance goes to the nearest point of [0, 2], so one in that range is kept; any
      other goes to 2. */
  lemma ClampIsNearest(d: real, x: real)
    requires 0.0 <= x <= 2.0
    ensures Gap(Clamp(Finite(d)), d) <= Gap(x, d)
    ensures 0.0 <= d <= 2.0 ==> Clamp(Finite(d)) == d
    ensures Clamp(NonFinite) == 2.0
  {
  }

  /** Fills the condensed matrix row by row; `raw(i, j)` is `1 - cos` of the
      rows `i` and `j`. Reading an entry back through `CondensedIndex`, in either
      order, gives that pair's clamped distance. */
  method Distances(n: nat, raw: (nat, nat) -> Float) returns (out: seq<real>)
    ensures |out| == PairCount(n)
    ensures forall i, j :: 0 <= i < j < n ==>
      out[CondensedIndex(n, i, j)] == out[CondensedIndex(n, j, i)] == Clamp(raw(i, j))
    ensures forall k :: 0 <= k < |out| ==> 0.0 <= out[k] <= 2.0
  {
    out := [];
    for i := 0 to n
      invariant |out| == RowStart(n, i)
      invariant forall k :: 0 <= k < |out| ==> 0.0 <= out[k] <= 2.0
      invariant forall p, q :: 0 <= p < q < n && CondensedIndex(n, p, q) < |out| ==>
        out[CondensedIndex(n, p, q)] == Clamp(raw(p, q))
    {
      for j := i + 1 to n
        invariant |out| == RowStart(n, i) + (j - i - 1)
        invariant forall k :: 0 <= k < |out| ==> 0.0 <= out[k] <= 2.0
        invariant forall p, q :: 0 <= p < q < n && CondensedIndex(n, p, q) < |out| ==>
          out[CondensedIndex(n, p, q)] == Clamp(raw(p, q))
      {
        assert CondensedIndex(n, i, j) == |out|;
        forall p, q | 0 <= p < q < n && CondensedIndex(n, p, q) == |out|
          ensures p == i && q == j
        {
          IndexInjective(n, i, j, p, q);
        }
        out := out + [Clamp(raw(i, j))];
      }
    }
    forall i, j | 0 <= i < j < n
      ensures out[CondensedIndex(n, i, j)] == out[CondensedIndex(n, j, i)] == Clamp(raw(i, j))
    {
      IndexSymmetric(n, i, j);
    }
  }
}
