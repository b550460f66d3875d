/** The two groups of node indices that the grouping algorithm works on, the
    single-element exchange between them, and the partition invariant that
    the exchange keeps. */
module Partition {

  /** Group A and group B, as the ordered lists the algorithm keeps. */
  datatype Groups = Groups(a: seq<nat>, b: seq<nat>)

  /** One random draw of the algorithm: a position in group A and a
      position in group B. */
  datatype Pick = Pick(indexA: nat, indexB: nat)

  /** The node indices 0, 1, ..., n-1 in order. */
  function Range(n: nat): (r: seq<nat>)
    ensures |r| == n
  {
    if n == 0 then [] else Range(n - 1) + [n - 1]
  }

  /** Every element of `s` is a node index of a graph with `n` nodes. */
  predicate InRange(s: seq<nat>, n: nat) {
    forall k :: 0 <= k < |s| ==> s[k] < n
  }

  /** Both groups hold node indices of a graph with `n` nodes. */
  predicate Fits(g: Groups, n: nat) {
    InRange(g.a, n) && InRange(g.b, n)
  }

  /** A followed by B is a reordering of 0..n-1: every node lies in exactly
      one group, exactly once. */
  predicate IsPartition(g: Groups, n: nat) {
    multiset(g.a + g.b) == multiset(Range(n))
  }

  lemma {:induction false} RangeCount(n: nat, x: nat)
    ensures multiset(Range(n))[x] == if x < n then 1 else 0
  {
    if n > 0 {
      RangeCount(n - 1, x);
      assert multiset(Range(n)) == multiset(Range(n - 1)) + multiset{(n - 1) as nat};
    }
  }

  lemma RepeatedCount(s: seq<nat>, i: nat, j: nat)
    requires i < j < |s| && s[i] == s[j]
    ensures multiset(s)[s[i]] >= 2
  {
    assert s == s[..j] + s[j..];
    assert s[i] in s[..j];
    assert s[j] in s[j..];
    assert multiset(s) == multiset(s[..j]) + multiset(s[j..]);
  }

  lemma InConcat(a: seq<nat>, b: seq<nat>, x: nat)
    ensures x in a + b <==> x in a || x in b
  {
    if x in a {
      var i :| 0 <= i < |a| && a[i] == x;
      assert (a + b)[i] == x;
    }
    if x in b {
      var j :| 0 <= j < |b| && b[j] == x;
      assert (a + b)[|a| + j] == x;
    }
  }

  /** A node that occurs twice in A followed by B contradicts the partition invariant. */
  lemma NoRepeats(g: Groups, n: nat, i: nat, j: nat)
    requires IsPartition(g, n)
    requires i < j < |g.a + g.b|
    ensures (g.a + g.b)[i] != (g.a + g.b)[j]
  {
    var s := g.a + g.b;
    if s[i] == s[j] {
      RepeatedCount(s, i, j);
      RangeCount(n, s[i]);
    }
  }

  /** What the partition invariant means: the sizes add up to n, the groups
      are disjoint, neither holds a node twice, and together they cover
      exactly the nodes 0..n-1. */
  lemma PartitionIsDisjointCover(g: Groups, n: nat)
    requires IsPartition(g, n)
    ensures |g.a| + |g.b| == n
    ensures Fits(g, n)
    ensures forall i, j :: 0 <= i < |g.a| && 0 <= j < |g.b| ==> g.a[i] != g.b[j]
    ensures forall i, j :: 0 <= i < j < |g.a| ==> g.a[i] != g.a[j]
    ensures forall i, j :: 0 <= i < j < |g.b| ==> g.b[i] != g.b[j]
    ensures forall x: nat :: x < n <==> x in g.a || x in g.b
  {
    PartitionFits(g, n);
    PartitionHasNoRepeats(g, n);
    PartitionCovers(g, n);
  }

  lemma PartitionFits(g: Groups, n: nat)
    requires IsPartition(g, n)
    ensures |g.a| + |g.b| == n
    ensures Fits(g, n)
  {
    var s := g.a + g.b;
    assert |multiset(s)| == |multiset(Range(n))|;
    forall k | 0 <= k < |s|
      ensures s[k] < n
    {
      assert s[k] in multiset(s);
      RangeCount(n, s[k]);
    }
    assert forall k :: 0 <= k < |g.a| ==> g.a[k] == s[k];
    assert forall k :: 0 <= k < |g.b| ==> g.b[k] == s[|g.a| + k];
  }

  lemma PartitionHasNoRepeats(g: Groups, n: nat)
    requires IsPartition(g, n)
    ensures forall i, j :: 0 <= i < |g.a| && 0 <= j < |g.b| ==> g.a[i] != g.b[j]
    ensures forall i, j :: 0 <= i < j < |g.a| ==> g.a[i] != g.a[j]
    ensures forall i, j :: 0 <= i < j < |g.b| ==> g.b[i] != g.b[j]
  {
    var s := g.a + g.b;
    forall i, j | 0 <= i < |g.a| && 0 <= j < |g.b|
      ensures g.a[i] != g.b[j]
    {
      NoRepeats(g, n, i, |g.a| + j);
      assert s[i] == g.a[i] && s[|g.a| + j] == g.b[j];
    }
    forall i, j | 0 <= i < j < |g.a|
      ensures g.a[i] != g.a[j]
    {
      NoRepeats(g, n, i, j);
      assert s[i] == g.a[i] && s[j] == g.a[j];
    }
    forall i, j | 0 <= i < j < |g.b|
      ensures g.b[i] != g.b[j]
    {
      NoRepeats(g, n, |g.a| + i, |g.a| + j);
      assert s[|g.a| + i] == g.b[i] && s[|g.a| + j] == g.b[j];
    }
  }

  lemma PartitionCovers(g: Groups, n: nat)
    requires IsPartition(g, n)
    ensures forall x: nat :: x < n <==> x in g.a || x in g.b
  {
    var s := g.a + g.b;
    PartitionFits(g, n);
    forall x: nat | x < n
      ensures x in g.a || x in g.b
    {
      RangeCount(n, x);
      assert x in multiset(s);
      InConcat(g.a, g.b, x);
    }
    forall x: nat | x in g.a || x in g.b
      ensures x < n
    {
      if x in g.a {
        var i :| 0 <= i < |g.a| && g.a[i] == x;
      } else {
        var j :| 0 <= j < |g.b| && g.b[j] == x;
      }
    }
  }

  /** Two groups with the same elements as groups of node indices fit the
      same graph. */
  lemma SameElementsFit(g: Groups, r: Groups, n: nat)
    requires multiset(r.a + r.b) == multiset(g.a + g.b)
    requires Fits(g, n)
    ensures Fits(r, n)
  {
    var s, t := r.a + r.b, g.a + g.b;
    assert forall k :: 0 <= k < |t| ==> t[k] < n by {
      assert forall k :: 0 <= k < |g.a| ==> t[k] == g.a[k];
      assert forall k :: 0 <= k < |g.b| ==> t[|g.a| + k] == g.b[k];
    }
    forall k | 0 <= k < |s|
      ensures s[k] < n
    {
      assert s[k] in multiset(t);
      var i :| 0 <= i < |t| && t[i] == s[k];
    }
    assert forall k :: 0 <= k < |r.a| ==> r.a[k] == s[k];
    assert forall k :: 0 <= k < |r.b| ==> r.b[k] == s[|r.a| + k];
  }

  /** The single-element exchange: A[indexA] and B[indexB] trade places. */
  function Exchange(g: Groups, p: Pick): (r: Groups)
    requires p.indexA < |g.a| && p.indexB < |g.b|
    ensures |r.a| == |g.a| && |r.b| == |g.b|
    ensures r.a[p.indexA] == g.b[p.indexB] && r.b[p.indexB] == g.a[p.indexA]
    ensures forall k :: 0 <= k < |g.a| && k != p.indexA ==> r.a[k] == g.a[k]
    ensures forall k :: 0 <= k < |g.b| && k != p.indexB ==> r.b[k] == g.b[k]
  {
    Groups(g.a[p.indexA := g.b[p.indexB]], g.b[p.indexB := g.a[p.indexA]])
  }

  /** The exchange keeps the combined contents of the two groups. */
  lemma ExchangeKeepsElements(g: Groups, p: Pick)
    requires p.indexA < |g.a| && p.indexB < |g.b|
    ensures multiset(Exchange(g, p).a + Exchange(g, p).b) == multiset(g.a + g.b)
  {
    var r := Exchange(g, p);
    assert r.a + r.b == (g.a + g.b)[p.indexA := g.b[p.indexB]][|g.a| + p.indexB := g.a[p.indexA]];
  }

  /** The exchange keeps the groups within the nodes of the graph. */
  lemma ExchangeFits(g: Groups, p: Pick, n: nat)
    requires p.indexA < |g.a| && p.indexB < |g.b|
    requires Fits(g, n)
    ensures Fits(Exchange(g, p), n)
  {
    ExchangeKeepsElements(g, p);
    SameElementsFit(g, Exchange(g, p), n);
  }

  /** Exchanging the same two positions again restores the groups. */
  lemma ExchangeIsInvolution(g: Groups, p: Pick)
    requires p.indexA < |g.a| && p.indexB < |g.b|
    ensures Exchange(Exchange(g, p), p) == g
  {
  }

  /** The exchange keeps the partition invariant. */
  lemma ExchangeKeepsPartition(g: Groups, p: Pick, n: nat)
    requires p.indexA < |g.a| && p.indexB < |g.b|
    requires IsPartition(g, n)
    ensures IsPartition(Exchange(g, p), n)
  {
    ExchangeKeepsElements(g, p);
  }

  /** The first `count` picks of `choices` are positions in groups of sizes
      `sizeA` and `sizeB`. */
  predicate ValidPrefix(choices: nat -> Pick, count: nat, sizeA: nat, sizeB: nat) {
    count == 0 ||
    (&& ValidPrefix(choices, count - 1, sizeA, sizeB)
     && choices(count - 1).indexA < sizeA && choices(count - 1).indexB < sizeB)
  }

  /** A prefix of valid picks is valid. */
  lemma {:induction false} PrefixShrinks(choices: nat -> Pick, count: nat, k: nat, sizeA: nat, sizeB: nat)
    requires k <= count && ValidPrefix(choices, count, sizeA, sizeB)
    ensures ValidPrefix(choices, k, sizeA, sizeB)
    decreases count - k
  {
    if k < count {
      PrefixShrinks(choices, count - 1, k, sizeA, sizeB);
    }
  }

  /** Every pick of `choices` is a position in groups of sizes `sizeA` and `sizeB`. */
  ghost predicate ValidStream(choices: nat -> Pick, sizeA: nat, sizeB: nat) {
    forall k: nat :: choices(k).indexA < sizeA && choices(k).indexB < sizeB
  }

  /** The groups after the exchanges choices(0), ..., choices(k-1) have been
      applied one after the other, none of them undone. */
  function Walked(g: Groups, choices: nat -> Pick, k: nat): (r: Groups)
    requires ValidPrefix(choices, k, |g.a|, |g.b|)
    ensures |r.a| == |g.a| && |r.b| == |g.b|
  {
    if k == 0 then g else Exchange(Walked(g, choices, k - 1), choices(k - 1))
  }

  /** Any number of exchanges keeps the combined contents of the two groups. */
  lemma {:induction false} WalkedKeepsElements(g: Groups, choices: nat -> Pick, k: nat)
    requires ValidPrefix(choices, k, |g.a|, |g.b|)
    ensures multiset(Walked(g, choices, k).a + Walked(g, choices, k).b) == multiset(g.a + g.b)
  {
    if k > 0 {
      WalkedKeepsElements(g, choices, k - 1);
      WalkStepKeepsElements(g, choices, k);
    }
  }

  lemma WalkStepKeepsElements(g: Groups, choices: nat -> Pick, k: nat)
    requires k > 0 && ValidPrefix(choices, k, |g.a|, |g.b|)
    requires multiset(Walked(g, choices, k - 1).a + Walked(g, choices, k - 1).b) == multiset(g.a + g.b)
    ensures multiset(Walked(g, choices, k).a + Walked(g, choices, k).b) == multiset(g.a + g.b)
  {
    ExchangeKeepsElements(Walked(g, choices, k - 1), choices(k - 1));
  }

  /** A stream of valid picks has valid prefixes of every length. */
  lemma {:induction false} StreamPrefix(choices: nat -> Pick, count: nat, sizeA: nat, sizeB: nat)
    requires ValidStream(choices, sizeA, sizeB)
    ensures ValidPrefix(choices, count, sizeA, sizeB)
  {
    if count > 0 {
      StreamPrefix(choices, count - 1, sizeA, sizeB);
    }
  }

  /** Every state of the walk holds node indices of the same graph. */
  lemma WalkedFits(g: Groups, choices: nat -> Pick, k: nat, n: nat)
    requires ValidPrefix(choices, k, |g.a|, |g.b|)
    requires Fits(g, n)
    ensures Fits(Walked(g, choices, k), n)
  {
    WalkedKeepsElements(g, choices, k);
    SameElementsFit(g, Walked(g, choices, k), n);
  }

  /** Every state of the walk is still a partition with the starting sizes. */
  lemma WalkedKeepsPartition(g: Groups, choices: nat -> Pick, k: nat, n: nat)
    requires ValidPrefix(choices, k, |g.a|, |g.b|)
    requires IsPartition(g, n)
    ensures IsPartition(Walked(g, choices, k), n)
    ensures Fits(Walked(g, choices, k), n)
  {
    WalkedKeepsElements(g, choices, k);
    PartitionIsDisjointCover(Walked(g, choices, k), n);
  }
}
