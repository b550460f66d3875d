/** The cost of a candidate split: the weight of the edges that cross from
    group A to group B, and a penalty for groups of unequal size. */
module CostEvaluator {
  import opened Partition

  /** Penalty per node of difference between the two group sizes. */
  const UnevenPenalty: int := 5

  datatype Cost = Cost(connectionCost: int, unevenCost: int)

  /** The adjacency matrix is N x N. */
  predicate IsSquare(m: seq<seq<int>>) {
    forall i :: 0 <= i < |m| ==> |m[i]| == |m|
  }

  ghost predicate IsSymmetric(m: seq<seq<int>>)
    requires IsSquare(m)
  {
    forall i, j :: 0 <= i < |m| && 0 <= j < |m| ==> m[i][j] == m[j][i]
  }

  ghost predicate IsNonNegative(m: seq<seq<int>>)
    requires IsSquare(m)
  {
    forall i, j :: 0 <= i < |m| && 0 <= j < |m| ==> 0 <= m[i][j]
  }

  /** Every weight is at most `w`. */
  ghost predicate IsBoundedBy(m: seq<seq<int>>, w: int)
    requires IsSquare(m)
  {
    forall i, j :: 0 <= i < |m| && 0 <= j < |m| ==> m[i][j] <= w
  }

  /** A symmetric adjacency matrix of an undirected graph with non-negative weights. */
  ghost predicate IsAdjacency(m: seq<seq<int>>) {
    IsSquare(m) && IsSymmetric(m) && IsNonNegative(m)
  }

  function Abs(x: int): nat {
    if x < 0 then -x else x
  }

  /** The sum of m[i][j] over the j in `b`. */
  function RowSum(m: seq<seq<int>>, i: nat, b: seq<nat>): int
    requires IsSquare(m) && i < |m| && InRange(b, |m|)
  {
    if b == [] then 0 else RowSum(m, i, b[..|b| - 1]) + m[i][b[|b| - 1]]
  }

  /** The sum of m[i][j] over the i in `a`. */
  function ColumnSum(m: seq<seq<int>>, a: seq<nat>, j: nat): int
    requires IsSquare(m) && j < |m| && InRange(a, |m|)
  {
    if a == [] then 0 else ColumnSum(m, a[..|a| - 1], j) + m[a[|a| - 1]][j]
  }

  /** The connection cost: the sum of m[i][j] over all i in `a` and j in `b`.
      With a symmetric matrix, each undirected edge between the groups is
      counted once, from its end in A. */
  function CrossSum(m: seq<seq<int>>, a: seq<nat>, b: seq<nat>): int
    requires IsSquare(m) && InRange(a, |m|) && InRange(b, |m|)
  {
    if a == [] then 0 else CrossSum(m, a[..|a| - 1], b) + RowSum(m, a[|a| - 1], b)
  }

  /** The cost of the split (a, b) of the graph m. */
  function CostOf(m: seq<seq<int>>, a: seq<nat>, b: seq<nat>): Cost
    requires IsSquare(m) && InRange(a, |m|) && InRange(b, |m|)
  {
    Cost(CrossSum(m, a, b), UnevenPenalty * Abs(|a| - |b|))
  }

  /** calculate_cost: two nested accumulating loops over A and B, then the
      size penalty. */
  method CalculateCost(m: seq<seq<int>>, a: seq<nat>, b: seq<nat>) returns (c: Cost)
    requires IsSquare(m) && InRange(a, |m|) && InRange(b, |m|)
    ensures c == CostOf(m, a, b)
  {
    var connectionCost := 0;
    for i := 0 to |a|
      invariant connectionCost == CrossSum(m, a[..i], b)
    {
      for j := 0 to |b|
        invariant connectionCost == CrossSum(m, a[..i], b) + RowSum(m, a[i], b[..j])
      {
        assert b[..j + 1][..j] == b[..j];
        connectionCost := connectionCost + m[a[i]][b[j]];
      }
      assert a[..i + 1][..i] == a[..i];
      assert b[..|b|] == b;
    }
    assert a[..|a|] == a;
    var unevenCost := UnevenPenalty * Abs(|a| - |b|);
    c := Cost(connectionCost, unevenCost);
  }

  lemma {:induction false} RowSumNonNegative(m: seq<seq<int>>, i: nat, b: seq<nat>)
    requires IsSquare(m) && IsNonNegative(m) && i < |m| && InRange(b, |m|)
    ensures RowSum(m, i, b) >= 0
  {
    if b != [] {
      RowSumNonNegative(m, i, b[..|b| - 1]);
    }
  }

  /** With non-negative weights the connection cost is never negative. */
  lemma {:induction false} CrossSumNonNegative(m: seq<seq<int>>, a: seq<nat>, b: seq<nat>)
    requires IsSquare(m) && IsNonNegative(m) && InRange(a, |m|) && InRange(b, |m|)
    ensures CrossSum(m, a, b) >= 0
  {
    if a != [] {
      CrossSumNonNegative(m, a[..|a| - 1], b);
      RowSumNonNegative(m, a[|a| - 1], b);
    }
  }

  /** Both parts of the cost are non-negative for non-negative weights. */
  lemma CostNonNegative(m: seq<seq<int>>, a: seq<nat>, b: seq<nat>)
    requires IsSquare(m) && IsNonNegative(m) && InRange(a, |m|) && InRange(b, |m|)
    ensures CostOf(m, a, b).connectionCost >= 0 && CostOf(m, a, b).unevenCost >= 0
  {
    CrossSumNonNegative(m, a, b);
  }

  /** Adding a node y to B adds its column over A. */
  lemma {:induction false} CrossSumAppend(m: seq<seq<int>>, a: seq<nat>, b: seq<nat>, y: nat)
    requires IsSquare(m) && InRange(a, |m|) && InRange(b, |m|) && y < |m|
    ensures CrossSum(m, a, b + [y]) == CrossSum(m, a, b) + ColumnSum(m, a, y)
  {
    if a != [] {
      CrossSumAppend(m, a[..|a| - 1], b, y);
      assert (b + [y])[..|b|] == b;
    }
  }

  lemma {:induction false} CrossSumEmptyB(m: seq<seq<int>>, a: seq<nat>)
    requires IsSquare(m) && InRange(a, |m|)
    ensures CrossSum(m, a, []) == 0
  {
    if a != [] {
      CrossSumEmptyB(m, a[..|a| - 1]);
    }
  }

  /** In a symmetric matrix, a column sum is the matching row sum. */
  lemma {:induction false} ColumnSumIsRowSum(m: seq<seq<int>>, a: seq<nat>, j: nat)
    requires IsSquare(m) && IsSymmetric(m) && j < |m| && InRange(a, |m|)
    ensures ColumnSum(m, a, j) == RowSum(m, j, a)
  {
    if a != [] {
      ColumnSumIsRowSum(m, a[..|a| - 1], j);
    }
  }

  /** For a symmetric matrix the connection cost does not depend on which
      group is called A. */
  lemma {:induction false} CrossSumSymmetric(m: seq<seq<int>>, a: seq<nat>, b: seq<nat>)
    requires IsSquare(m) && IsSymmetric(m) && InRange(a, |m|) && InRange(b, |m|)
    ensures CrossSum(m, a, b) == CrossSum(m, b, a)
  {
    if b == [] {
      CrossSumEmptyB(m, a);
    } else {
      var b', y := b[..|b| - 1], b[|b| - 1];
      assert b == b' + [y];
      CrossSumSymmetric(m, a, b');
      CrossSumAppend(m, a, b', y);
      ColumnSumIsRowSum(m, a, y);
    }
  }

  /** Exchanging the groups keeps the whole cost. */
  lemma CostOfSwappedGroups(m: seq<seq<int>>, a: seq<nat>, b: seq<nat>)
    requires IsSquare(m) && IsSymmetric(m) && InRange(a, |m|) && InRange(b, |m|)
    ensures CostOf(m, a, b) == CostOf(m, b, a)
  {
    CrossSumSymmetric(m, a, b);
  }

  lemma {:induction false} RowSumAtMost(m: seq<seq<int>>, i: nat, b: seq<nat>, w: int)
    requires IsSquare(m) && IsBoundedBy(m, w) && i < |m| && InRange(b, |m|)
    ensures RowSum(m, i, b) <= |b| * w
  {
    if b != [] {
      RowSumAtMost(m, i, b[..|b| - 1], w);
      assert (|b| - 1) * w + w == |b| * w;
    }
  }

  /** With every weight at most w, the connection cost is at most |A|·|B|·w. */
  lemma {:induction false} CrossSumAtMost(m: seq<seq<int>>, a: seq<nat>, b: seq<nat>, w: int)
    requires IsSquare(m) && IsBoundedBy(m, w) && InRange(a, |m|) && InRange(b, |m|)
    ensures CrossSum(m, a, b) <= |a| * |b| * w
  {
    if a != [] {
      CrossSumAtMost(m, a[..|a| - 1], b, w);
      RowSumAtMost(m, a[|a| - 1], b, w);
      assert (|a| - 1) * |b| * w + |b| * w == |a| * |b| * w;
    }
  }
}
