/** The grouping algorithm: split the nodes of an undirected weighted graph
    into two groups with little edge weight between them, by a random walk
    of single-element exchanges that remembers the best split it has seen.

    The random draws of split_into_groups (the shuffle of the node list and the
    positions picked in each group) are parameters here: `shuffled` is the
    shuffled node list, `trials` the positions picked while estimating the
    control parameter, and `choices` the positions picked by the search. */
module GroupingAlgorithm {
  import opened Partition
  import opened CostEvaluator

  datatype Error = ZeroDivisionError

  datatype Result<T> = Success(value: T) | Failure(error: Error)

  /** A split together with its cost at the time it was recorded. */
  datatype AlgorithmSolution = AlgorithmSolution(groupA: seq<nat>, groupB: seq<nat>, cost: Cost)

  /** What the search ends with: the best solution, and the final values of
      the iteration counter and of the counter of consecutive passes without
      improvement. */
  datatype SearchOutcome = SearchOutcome(best: AlgorithmSolution, iteration: nat, stagnation: nat)

  /** Factor applied to the mean cost change in the control parameter. */
  const DeltaMultiplier: int := 5

  /** swap_one_item_between_groups: A[indexA] and B[indexB] trade places in
      place; `choice` holds the two positions drawn at random. */
  method SwapOneItemBetweenGroups(a: array<nat>, b: array<nat>, choice: Pick)
    requires a != b
    requires choice.indexA < a.Length && choice.indexB < b.Length
    modifies a, b
    ensures Groups(a[..], b[..]) == Exchange(old(Groups(a[..], b[..])), choice)
  {
    var temp := a[choice.indexA];
    a[choice.indexA] := b[choice.indexB];
    b[choice.indexB] := temp;
  }

  /** get_initial_component_groups: the shuffled node list cut after its
      first graphSize / 2 entries. */
  function InitialComponentGroups(graphSize: nat, shuffled: seq<nat>): (g: Groups)
    requires multiset(shuffled) == multiset(Range(graphSize))
    ensures |g.a| == graphSize / 2 && |g.b| == graphSize - graphSize / 2
    ensures g.a + g.b == shuffled
    ensures IsPartition(g, graphSize) && Fits(g, graphSize)
  {
    assert |shuffled| == |multiset(Range(graphSize))|;
    var halfSize := graphSize / 2;
    assert shuffled[..halfSize] + shuffled[halfSize..] == shuffled;
    PartitionFits(Groups(shuffled[..halfSize], shuffled[halfSize..]), graphSize);
    Groups(shuffled[..halfSize], shuffled[halfSize..])
  }

  /** The sum, over k = 1..count, of the absolute difference between the
      connection cost of `g` and that of `g` after k cumulative exchanges. */
  function DeltaSum(m: seq<seq<int>>, g: Groups, trials: nat -> Pick, count: nat): (r: int)
    requires IsSquare(m) && Fits(g, |m|)
    requires ValidPrefix(trials, count, |g.a|, |g.b|)
    ensures r >= 0
  {
    if count == 0 then 0
    else
      var h := Walked(g, trials, count);
      WalkedFits(g, trials, count, |m|);
      DeltaSum(m, g, trials, count - 1) + Abs(CrossSum(m, g.a, g.b) - CrossSum(m, h.a, h.b))
  }

  /** The control parameter of a start `g`: 5 times the mean absolute change
      of the connection cost over |A| cumulative exchanges, and a division
      by zero when A is empty. */
  function ControlParameter(m: seq<seq<int>>, g: Groups, trials: nat -> Pick): (r: Result<real>)
    requires IsSquare(m) && Fits(g, |m|)
    requires ValidPrefix(trials, |g.a|, |g.a|, |g.b|)
    ensures r.Failure? <==> |g.a| == 0
    ensures r.Failure? ==> r.error == ZeroDivisionError
    ensures r.Success? ==> r.value >= 0.0
  {
    if |g.a| == 0 then Failure(ZeroDivisionError)
    else Success(ScaledMean(DeltaSum(m, g, trials, |g.a|), |g.a|))
  }

  /** DeltaMultiplier times the mean `sum / count`, in real arithmetic. */
  function ScaledMean(sum: int, count: nat): (r: real)
    requires count > 0
    ensures sum >= 0 ==> r >= 0.0
  {
    assert sum >= 0 ==> sum as real / count as real >= 0.0;
    DeltaMultiplier as real * (sum as real / count as real)
  }

  /** copy.deepcopy of a list of node indices: a fresh array with the same contents. */
  method Copy(a: array<nat>) returns (c: array<nat>)
    ensures fresh(c) && c[..] == a[..]
  {
    c := new nat[a.Length](i requires 0 <= i < a.Length reads a => a[i]);
  }

  /** get_initial_control_parameter: |A| cumulative exchanges on copies of
      the groups, then 5 times the mean absolute change of the connection
      cost. The groups passed in are not modified (the method has no
      modifies clause). */
  method InitialControlParameter(m: seq<seq<int>>, a: array<nat>, b: array<nat>, trials: nat -> Pick)
    returns (r: Result<real>)
    requires IsSquare(m) && Fits(Groups(a[..], b[..]), |m|)
    requires ValidPrefix(trials, a.Length, a.Length, b.Length)
    ensures r == ControlParameter(m, Groups(a[..], b[..]), trials)
  {
    var initialCost := CalculateCost(m, a[..], b[..]);
    var numberIterations := a.Length;
    var aCopy := Copy(a);
    var bCopy := Copy(b);
    var deltaCostSum := SumCostChanges(m, aCopy, bCopy, trials, numberIterations, initialCost.connectionCost);
    if numberIterations == 0 {
      return Failure(ZeroDivisionError);
    }
    r := Success(ScaledMean(deltaCostSum, numberIterations));
  }

  /** The loop of get_initial_control_parameter: `count` exchanges on the
      copies, summing the absolute change of the connection cost from
      `initialCost` after each. */
  method SumCostChanges(m: seq<seq<int>>, aCopy: array<nat>, bCopy: array<nat>, trials: nat -> Pick,
                        count: nat, initialCost: int)
    returns (deltaCostSum: int)
    requires aCopy != bCopy
    requires IsSquare(m) && Fits(Groups(aCopy[..], bCopy[..]), |m|)
    requires ValidPrefix(trials, count, aCopy.Length, bCopy.Length)
    requires initialCost == CrossSum(m, aCopy[..], bCopy[..])
    modifies aCopy, bCopy
    ensures Groups(aCopy[..], bCopy[..]) == Walked(old(Groups(aCopy[..], bCopy[..])), trials, count)
    ensures deltaCostSum == DeltaSum(m, old(Groups(aCopy[..], bCopy[..])), trials, count)
  {
    ghost var g := Groups(aCopy[..], bCopy[..]);
    deltaCostSum := 0;
    for i := 0 to count
      invariant IsSumAfter(m, g, initialCost, trials, i, Groups(aCopy[..], bCopy[..]), deltaCostSum)
    {
      PrefixShrinks(trials, count, i + 1, aCopy.Length, bCopy.Length);
      SumAfterStep(m, g, initialCost, trials, i, Groups(aCopy[..], bCopy[..]), deltaCostSum);
      var deltaValue := ExchangeAndMeasure(m, aCopy, bCopy, trials(i), initialCost);
      deltaCostSum := deltaCostSum + deltaValue;
    }
  }

  /** After i exchanges from `g`, whose connection cost is `initialCost`,
      the copies hold `h` and the sum is `sum`. */
  ghost predicate IsSumAfter(m: seq<seq<int>>, g: Groups, initialCost: int, trials: nat -> Pick, i: nat,
                             h: Groups, sum: int) {
    && IsSquare(m) && Fits(g, |m|)
    && initialCost == CrossSum(m, g.a, g.b)
    && ValidPrefix(trials, i, |g.a|, |g.b|)
    && h == Walked(g, trials, i)
    && sum == DeltaSum(m, g, trials, i)
  }

  /** One more exchange of the walk adds the change it makes to the sum. */
  lemma SumAfterStep(m: seq<seq<int>>, g: Groups, initialCost: int, trials: nat -> Pick, i: nat, h: Groups, sum: int)
    requires IsSumAfter(m, g, initialCost, trials, i, h, sum)
    requires trials(i).indexA < |g.a| && trials(i).indexB < |g.b|
    ensures Fits(h, |m|)
    ensures var h' := Exchange(h, trials(i));
      IsSumAfter(m, g, initialCost, trials, i + 1, h', sum + Abs(initialCost - CrossSum(m, h'.a, h'.b)))
  {
    WalkedFits(g, trials, i, |m|);
    WalkedFits(g, trials, i + 1, |m|);
  }

  /** The body of that loop: one exchange on the copies, and the absolute
      change of the connection cost from `initialCost` it leads to. */
  method ExchangeAndMeasure(m: seq<seq<int>>, aCopy: array<nat>, bCopy: array<nat>, choice: Pick, initialCost: int)
    returns (deltaValue: nat)
    requires aCopy != bCopy
    requires IsSquare(m) && Fits(Groups(aCopy[..], bCopy[..]), |m|)
    requires choice.indexA < aCopy.Length && choice.indexB < bCopy.Length
    modifies aCopy, bCopy
    ensures Groups(aCopy[..], bCopy[..]) == Exchange(old(Groups(aCopy[..], bCopy[..])), choice)
    ensures Fits(Groups(aCopy[..], bCopy[..]), |m|)
    ensures deltaValue == Abs(initialCost - CrossSum(m, aCopy[..], bCopy[..]))
  {
    ghost var before := Groups(aCopy[..], bCopy[..]);
    SwapOneItemBetweenGroups(aCopy, bCopy, choice);
    ExchangeFits(before, choice, |m|);
    var currentCost := CalculateCost(m, aCopy[..], bCopy[..]);
    deltaValue := Abs(initialCost - currentCost.connectionCost);
  }

  /** The number of consecutive passes without improvement after which the
      search stops: N * N for a graph of N nodes. */
  function ConsecutiveWorseCostMax(graphSize: nat): (r: nat)
    ensures r >= 1 <==> graphSize >= 1
  {
    if graphSize >= 1 then MulMono(1, graphSize, graphSize); graphSize * graphSize
    else graphSize * graphSize
  }

  /** Bitwise exclusive or of two naturals (Python's `^` on non-negative ints). */
  function Xor(x: nat, y: nat): nat
    decreases x + y
  {
    if x == 0 then y
    else if y == 0 then x
    else 2 * Xor(x / 2, y / 2) + (if x % 2 == y % 2 then 0 else 1)
  }

  lemma XorOne(k: nat)
    ensures Xor(k, 1) == if k % 2 == 0 then k + 1 else k - 1
  {
    if k > 0 {
      assert Xor(k / 2, 0) == k / 2;
    }
  }

  /** n xor 2 flips bit 1 of n. */
  lemma XorTwo(n: nat)
    ensures Xor(n, 2) == if n % 4 < 2 then n + 2 else n - 2
  {
    if n > 0 {
      XorOne(n / 2);
    }
  }

  /** The cost the best solution starts with, 9 * (graph_size ^ 2) where `^`
      is exclusive or: 9 * (N + 2) or 9 * (N - 2) depending on bit 1 of N,
      and 0 for N = 2. */
  function InitialBestCost(graphSize: nat): (c: nat)
    ensures c == 9 * (if graphSize % 4 < 2 then graphSize + 2 else graphSize - 2)
    ensures graphSize == 2 ==> c == 0
  {
    XorTwo(graphSize);
    9 * Xor(graphSize, 2)
  }

  /** The starting cost evidently intended, 9 * graph_size squared. */
  function IntendedInitialBestCost(graphSize: nat): (c: nat)
    ensures graphSize >= 1 ==> c > (graphSize / 2) * (graphSize - graphSize / 2)
  {
    if graphSize >= 1 then
      var h := graphSize / 2;
      MulMono(h, graphSize, graphSize - h);
      MulMono(graphSize - h, graphSize, graphSize);
      MulMono(1, graphSize, graphSize);
      9 * (graphSize * graphSize)
    else 9 * (graphSize * graphSize)
  }

  /** The best solution before the first pass: empty groups and a cost of
      `initialBestCost` in both components. */
  function Unrecorded(initialBestCost: int): AlgorithmSolution {
    AlgorithmSolution([], [], Cost(initialBestCost, initialBestCost))
  }

  /** The loop state before the first pass. */
  function Start(initialBestCost: int): SearchOutcome {
    SearchOutcome(Unrecorded(initialBestCost), 1, 0)
  }

  /** The working groups of pass k: pass 0 sees the initial split, pass
      k >= 1 the split after k exchanges. This is `Walked` for a stream of
      picks that never runs out; it establishes for its callers that the
      first k picks are valid, which `Walked` requires. */
  function Visited(g0: Groups, choices: nat -> Pick, k: nat): Groups
    requires ValidStream(choices, |g0.a|, |g0.b|)
  {
    StreamPrefix(choices, k, |g0.a|, |g0.b|);
    Walked(g0, choices, k)
  }

  /** The solution pass k would record: a copy of its working groups, with
      their cost. */
  function Recorded(m: seq<seq<int>>, g0: Groups, choices: nat -> Pick, k: nat): (r: AlgorithmSolution)
    requires IsSquare(m) && Fits(g0, |m|)
    requires ValidStream(choices, |g0.a|, |g0.b|)
    ensures Fits(Groups(r.groupA, r.groupB), |m|)
    ensures |r.groupA| == |g0.a| && |r.groupB| == |g0.b|
    ensures r.cost == CostOf(m, r.groupA, r.groupB)
    ensures IsPartition(g0, |m|) ==> IsPartition(Groups(r.groupA, r.groupB), |m|)
  {
    StreamPrefix(choices, k, |g0.a|, |g0.b|);
    WalkedFits(g0, choices, k, |m|);
    var g := Visited(g0, choices, k);
    assert IsPartition(g0, |m|) ==> IsPartition(g, |m|) by {
      if IsPartition(g0, |m|) {
        WalkedKeepsPartition(g0, choices, k, |m|);
      }
    }
    AlgorithmSolution(g.a, g.b, CostOf(m, g.a, g.b))
  }

  /** The trace of the search: entry k is the solution pass k would record,
      and every entry is a split of the graph's nodes with the sizes of the
      start and its true cost, a partition when the start is one. */
  function Trace(m: seq<seq<int>>, g0: Groups, choices: nat -> Pick): (trace: nat -> AlgorithmSolution)
    requires IsSquare(m) && Fits(g0, |m|)
    requires ValidStream(choices, |g0.a|, |g0.b|)
    ensures IsTraceOf(m, g0, choices, trace)
    ensures IsWalkTrace(m, g0, trace)
  {
    (k: nat) => Recorded(m, g0, choices, k)
  }

  /** `trace` is the trace of the search from `g0` with the picks `choices`. */
  ghost predicate IsTraceOf(m: seq<seq<int>>, g0: Groups, choices: nat -> Pick, trace: nat -> AlgorithmSolution)
    requires IsSquare(m) && Fits(g0, |m|)
    requires ValidStream(choices, |g0.a|, |g0.b|)
  {
    forall k: nat {:trigger Recorded(m, g0, choices, k)} :: trace(k) == Recorded(m, g0, choices, k)
  }

  /** Every entry of `trace` holds nodes of the graph, has the group sizes
      of `g0` and its true cost, and is a partition when `g0` is one. */
  ghost predicate IsWalkTrace(m: seq<seq<int>>, g0: Groups, trace: nat -> AlgorithmSolution)
    requires IsSquare(m)
  {
    forall k: nat ::
      && Fits(Groups(trace(k).groupA, trace(k).groupB), |m|)
      && |trace(k).groupA| == |g0.a| && |trace(k).groupB| == |g0.b|
      && trace(k).cost == CostOf(m, trace(k).groupA, trace(k).groupB)
      && (IsPartition(g0, |m|) ==> IsPartition(Groups(trace(k).groupA, trace(k).groupB), |m|))
  }

  /** Every entry of the trace has a non-negative connection cost. */
  ghost predicate NonNegativeTrace(trace: nat -> AlgorithmSolution) {
    forall k: nat :: 0 <= trace(k).cost.connectionCost
  }

  /** Entry k of a trace of the search is the walk after k exchanges, with
      its true cost; from a partition it is a partition, with the sizes of
      the start. */
  lemma TraceIsWalk(m: seq<seq<int>>, g0: Groups, choices: nat -> Pick, trace: nat -> AlgorithmSolution, k: nat)
    requires IsSquare(m) && Fits(g0, |m|)
    requires ValidStream(choices, |g0.a|, |g0.b|)
    requires IsTraceOf(m, g0, choices, trace)
    ensures && Fits(Groups(trace(k).groupA, trace(k).groupB), |m|)
            && Groups(trace(k).groupA, trace(k).groupB) == Visited(g0, choices, k)
            && trace(k).cost == CostOf(m, trace(k).groupA, trace(k).groupB)
            && |trace(k).groupA| == |g0.a| && |trace(k).groupB| == |g0.b|
            && (IsPartition(g0, |m|) ==> IsPartition(Groups(trace(k).groupA, trace(k).groupB), |m|))
  {
    assert trace(k) == Recorded(m, g0, choices, k);
    StreamPrefix(choices, k, |g0.a|, |g0.b|);
    WalkedFits(g0, choices, k, |m|);
    if IsPartition(g0, |m|) {
      WalkedKeepsPartition(g0, choices, k, |m|);
    }
  }

  /** With non-negative weights, the trace of the search is non-negative. */
  lemma TraceNonNegative(m: seq<seq<int>>, g0: Groups, choices: nat -> Pick, trace: nat -> AlgorithmSolution)
    requires IsSquare(m) && IsNonNegative(m) && Fits(g0, |m|)
    requires ValidStream(choices, |g0.a|, |g0.b|)
    requires IsTraceOf(m, g0, choices, trace)
    ensures NonNegativeTrace(trace)
  {
    forall k: nat
      ensures 0 <= trace(k).cost.connectionCost
    {
      TraceIsWalk(m, g0, choices, trace, k);
      CrossSumNonNegative(m, trace(k).groupA, trace(k).groupB);
    }
  }

  /** One pass of the loop of split_into_groups from state `s`, without the
      advance of the iteration counter: the solution of pass iteration - 1
      becomes the best one when its connection cost is strictly lower, and
      otherwise the stagnation counter goes up by one. */
  function Pass(trace: nat -> AlgorithmSolution, s: SearchOutcome): (r: SearchOutcome)
    requires s.iteration >= 1
    ensures r.iteration == s.iteration
    ensures r.best.cost.connectionCost <= s.best.cost.connectionCost
    ensures r.stagnation == 0 <==> r.best.cost.connectionCost < s.best.cost.connectionCost
    ensures r.stagnation == 0 ==> r.best == trace(s.iteration - 1)
    ensures r.stagnation != 0 ==> r.best == s.best && r.stagnation == s.stagnation + 1
  {
    var current := trace(s.iteration - 1);
    if current.cost.connectionCost < s.best.cost.connectionCost
    then SearchOutcome(current, s.iteration, 0)
    else SearchOutcome(s.best, s.iteration, s.stagnation + 1)
  }

  /** The loop of split_into_groups as a function of its state `s` at the
      top of the loop: it stops before a pass once the stagnation counter
      reaches `limit` (N*N), and after a pass that leaves a best cost of 0. */
  function Run(trace: nat -> AlgorithmSolution, limit: nat, s: SearchOutcome): (r: SearchOutcome)
    requires NonNegativeTrace(trace)
    requires s.iteration >= 1 && s.stagnation <= limit && s.best.cost.connectionCost >= 0
    ensures r.iteration >= s.iteration && r.stagnation <= limit
    ensures r.best.cost.connectionCost == 0 || r.stagnation == limit
    ensures 0 <= r.best.cost.connectionCost <= s.best.cost.connectionCost
    decreases s.best.cost.connectionCost, limit - s.stagnation
  {
    if s.stagnation >= limit then s
    else
      var next := Pass(trace, s);
      if next.best.cost.connectionCost == 0 then next
      else Run(trace, limit, next.(iteration := s.iteration + 1))
  }

  /** Run stops after a pass that leaves a best cost of 0. */
  lemma RunStops(trace: nat -> AlgorithmSolution, limit: nat, s: SearchOutcome)
    requires NonNegativeTrace(trace)
    requires s.iteration >= 1 && s.stagnation < limit && s.best.cost.connectionCost >= 0
    requires Pass(trace, s).best.cost.connectionCost == 0
    ensures Run(trace, limit, s) == Pass(trace, s)
  {
  }

  /** Run goes on after a pass that leaves a best cost other than 0. */
  lemma RunContinues(trace: nat -> AlgorithmSolution, limit: nat, s: SearchOutcome, t: SearchOutcome)
    requires NonNegativeTrace(trace)
    requires s.iteration >= 1 && s.stagnation < limit && s.best.cost.connectionCost >= 0
    requires Pass(trace, s).best.cost.connectionCost != 0
    requires t == Pass(trace, s).(iteration := s.iteration + 1)
    ensures t.iteration >= 1 && t.stagnation <= limit && t.best.cost.connectionCost >= 0
    ensures Run(trace, limit, s) == Run(trace, limit, t)
  {
    var next := Pass(trace, s);
    PassBounds(trace, s);
    assert Run(trace, limit, s) == Run(trace, limit, next.(iteration := s.iteration + 1));
  }

  /** On a trace of non-negative costs, a pass from a non-negative best
      cost leaves a non-negative best cost (the other bounds on a pass are
      in the contract of `Pass`). */
  lemma PassBounds(trace: nat -> AlgorithmSolution, s: SearchOutcome)
    requires NonNegativeTrace(trace)
    requires s.iteration >= 1 && s.best.cost.connectionCost >= 0
    ensures 0 <= Pass(trace, s).best.cost.connectionCost
  {
    assert 0 <= trace(s.iteration - 1).cost.connectionCost;
  }

  /** The number of passes through the loop body: the iteration counter is
      not advanced after a pass that stops on a zero best cost. */
  function Passes(o: SearchOutcome): nat
    requires o.iteration >= 1
  {
    if o.best.cost.connectionCost == 0 then o.iteration else o.iteration - 1
  }

  /** `c` is at most the connection cost of each of the first `count` passes. */
  ghost predicate AtMostVisited(trace: nat -> AlgorithmSolution, c: int, count: nat) {
    forall k: nat :: k < count ==> c <= trace(k).cost.connectionCost
  }

  /** `c` is strictly below the connection cost of each of the first `count` passes. */
  ghost predicate BelowVisited(trace: nat -> AlgorithmSolution, c: int, count: nat) {
    forall k: nat :: k < count ==> c < trace(k).cost.connectionCost
  }

  /** The best solution after `passes` passes: its cost is at most that of
      every pass; and either none was recorded yet, and the counter equals
      `passes`, or it is the solution of pass passes - 1 - stagnation, the
      first pass whose cost was that low, and strictly below `initialBestCost`. */
  ghost predicate IsBestSoFar(trace: nat -> AlgorithmSolution, initialBestCost: int,
                              best: AlgorithmSolution, stagnation: nat, passes: nat)
  {
    && AtMostVisited(trace, best.cost.connectionCost, passes)
    && (|| (best == Unrecorded(initialBestCost) && stagnation == passes)
        || (&& stagnation < passes
            && best == trace(passes - 1 - stagnation)
            && best.cost.connectionCost < initialBestCost
            && BelowVisited(trace, best.cost.connectionCost, passes - 1 - stagnation)))
  }

  /** What the search loop promises about its outcome, for the trace of its
      passes, the stagnation limit and the starting best cost:
      - it stops when `limit` consecutive passes brought no improvement, or
        as soon as the best connection cost is 0, and the counter never
        passes `limit`;
      - the best connection cost is at most that of every pass;
      - either no solution was ever recorded, and the best solution is still
        the starting one, or the best solution is that of the first pass that
        reached the least cost, strictly below `initialBestCost`, and the
        counter holds the number of passes since then. */
  ghost predicate IsOutcomeOf(trace: nat -> AlgorithmSolution, limit: nat, initialBestCost: int, o: SearchOutcome) {
    && o.iteration >= 1
    && o.stagnation <= limit
    && (o.best.cost.connectionCost == 0 || o.stagnation == limit)
    && 1 <= Passes(o)
    && IsBestSoFar(trace, initialBestCost, o.best, o.stagnation, Passes(o))
  }

  /** The loop state at the top of an iteration is consistent. */
  ghost predicate IsLoopState(trace: nat -> AlgorithmSolution, limit: nat, initialBestCost: int, s: SearchOutcome) {
    && s.iteration >= 1
    && s.stagnation <= limit
    && 0 <= s.best.cost.connectionCost <= initialBestCost
    && (s.iteration > 1 ==> s.best.cost.connectionCost != 0)
    && IsBestSoFar(trace, initialBestCost, s.best, s.stagnation, s.iteration - 1)
  }

  /** The loop state before the first pass is consistent. */
  lemma StartIsLoopState(trace: nat -> AlgorithmSolution, limit: nat, initialBestCost: int)
    requires 0 <= initialBestCost
    ensures IsLoopState(trace, limit, initialBestCost, Start(initialBestCost))
  {
  }

  /** A pass from a consistent state extends the best-so-far description
      by the solution of that pass. */
  lemma PassKeepsBestSoFar(trace: nat -> AlgorithmSolution, initialBestCost: int, s: SearchOutcome)
    requires s.iteration >= 1 && s.best.cost.connectionCost <= initialBestCost
    requires IsBestSoFar(trace, initialBestCost, s.best, s.stagnation, s.iteration - 1)
    ensures IsBestSoFar(trace, initialBestCost, Pass(trace, s).best, Pass(trace, s).stagnation, s.iteration)
  {
    var pass := s.iteration - 1;
    var next := Pass(trace, s);
    var bestCost := s.best.cost.connectionCost;
    var cost := trace(pass).cost.connectionCost;
    if cost < bestCost {
      LowerBoundDescends(trace, bestCost, cost, pass);
      assert pass + 1 - 1 - next.stagnation == pass;
    } else {
      BoundExtends(trace, bestCost, pass);
      if s.best != Unrecorded(initialBestCost) {
        assert pass + 1 - 1 - next.stagnation == pass - 1 - s.stagnation;
      }
    }
  }

  /** A bound that also holds for the next pass extends to it. */
  lemma BoundExtends(trace: nat -> AlgorithmSolution, c: int, count: nat)
    requires AtMostVisited(trace, c, count)
    requires c <= trace(count).cost.connectionCost
    ensures AtMostVisited(trace, c, count + 1)
  {
  }

  /** A cost below a lower bound of the first `count` passes is strictly
      below each of them, and is a lower bound of the first count + 1 passes
      when it is the cost of pass `count`. */
  lemma LowerBoundDescends(trace: nat -> AlgorithmSolution, c: int, d: int, count: nat)
    requires AtMostVisited(trace, c, count)
    requires d < c && d == trace(count).cost.connectionCost
    ensures BelowVisited(trace, d, count)
    ensures AtMostVisited(trace, d, count + 1)
  {
  }

  /** Every run of the loop from a consistent state ends in an outcome that
      keeps the promises of IsOutcomeOf. */
  lemma {:induction false} RunKeepsPromises(trace: nat -> AlgorithmSolution, limit: nat,
                                            initialBestCost: int, s: SearchOutcome)
    requires NonNegativeTrace(trace)
    requires IsLoopState(trace, limit, initialBestCost, s)
    requires s.stagnation < limit || s.iteration > 1
    ensures IsOutcomeOf(trace, limit, initialBestCost, Run(trace, limit, s))
    decreases s.best.cost.connectionCost, limit - s.stagnation
  {
    if s.stagnation >= limit {
      assert Run(trace, limit, s) == s;
    } else {
      var next := Pass(trace, s);
      PassBounds(trace, s);
      PassKeepsBestSoFar(trace, initialBestCost, s);
      if next.best.cost.connectionCost == 0 {
        assert Run(trace, limit, s) == next;
      } else {
        var s' := next.(iteration := s.iteration + 1);
        assert IsLoopState(trace, limit, initialBestCost, s');
        assert Run(trace, limit, s) == Run(trace, limit, s');
        RunKeepsPromises(trace, limit, initialBestCost, s');
      }
    }
  }

  /** The body of the search loop of split_into_groups: except on the first
      iteration, one exchange that is kept whatever it costs; then the cost
      of the working groups, and a copy of them as the new best solution
      when their connection cost is strictly below the best so far. */
  method SearchPass(m: seq<seq<int>>, a: array<nat>, b: array<nat>, choices: nat -> Pick, ghost g0: Groups,
                    ghost trace: nat -> AlgorithmSolution, best: AlgorithmSolution, iteration: nat,
                    consecutiveWorseCost: nat)
    returns (newBest: AlgorithmSolution, newConsecutiveWorseCost: nat)
    requires IsSquare(m) && Fits(g0, |m|)
    requires a != b && ValidStream(choices, |g0.a|, |g0.b|)
    requires IsTraceOf(m, g0, choices, trace)
    requires iteration >= 1
    requires Groups(a[..], b[..]) == Visited(g0, choices, if iteration == 1 then 0 else iteration - 2)
    modifies a, b
    ensures Groups(a[..], b[..]) == Visited(g0, choices, iteration - 1)
    ensures SearchOutcome(newBest, iteration, newConsecutiveWorseCost)
         == Pass(trace, SearchOutcome(best, iteration, consecutiveWorseCost))
  {
    StreamPrefix(choices, iteration, |g0.a|, |g0.b|);
    if iteration != 1 {
      ghost var before := Groups(a[..], b[..]);
      SwapOneItemBetweenGroups(a, b, choices(iteration - 2));
      assert Groups(a[..], b[..]) == Exchange(before, choices(iteration - 2));
    }
    assert Groups(a[..], b[..]) == Visited(g0, choices, iteration - 1);
    WalkedFits(g0, choices, iteration - 1, |m|);
    var currentCost := CalculateCost(m, a[..], b[..]);
    assert AlgorithmSolution(a[..], b[..], currentCost) == Recorded(m, g0, choices, iteration - 1);

    if currentCost.connectionCost < best.cost.connectionCost {
      newConsecutiveWorseCost := 0;
      newBest := AlgorithmSolution(a[..], b[..], currentCost);
    } else {
      newConsecutiveWorseCost := consecutiveWorseCost + 1;
      newBest := best;
    }
  }

  /** The search loop of split_into_groups: it runs until N*N consecutive
      passes bring no improvement, or until the best connection cost is 0;
      the iteration counter is not advanced after the pass that stops on a
      zero cost. */
  method Search(m: seq<seq<int>>, a: array<nat>, b: array<nat>, choices: nat -> Pick,
                ghost trace: nat -> AlgorithmSolution, initialBestCost: int)
    returns (outcome: SearchOutcome)
    requires IsSquare(m) && IsNonNegative(m)
    requires a != b
    requires Fits(Groups(a[..], b[..]), |m|)
    requires ValidStream(choices, a.Length, b.Length)
    requires IsTraceOf(m, Groups(a[..], b[..]), choices, trace)
    requires 0 <= initialBestCost
    modifies a, b
    ensures NonNegativeTrace(trace)
    ensures outcome == Run(trace, ConsecutiveWorseCostMax(|m|), Start(initialBestCost))
  {
    ghost var g0 := Groups(a[..], b[..]);
    TraceNonNegative(m, g0, choices, trace);
    var graphSize := |m|;
    var consecutiveWorseCostMax := ConsecutiveWorseCostMax(graphSize);
    assert consecutiveWorseCostMax >= 1 by {
      assert choices(0).indexA < a.Length && a[0] < graphSize;
    }

    var best := Unrecorded(initialBestCost);
    var iteration: nat := 1;
    var consecutiveWorseCost: nat := 0;
    ghost var final := Run(trace, consecutiveWorseCostMax, Start(initialBestCost));
    while consecutiveWorseCost < consecutiveWorseCostMax
      invariant iteration >= 1 && consecutiveWorseCost <= consecutiveWorseCostMax
      invariant 0 <= best.cost.connectionCost
      invariant Groups(a[..], b[..]) == Visited(g0, choices, if iteration == 1 then 0 else iteration - 2)
      invariant Run(trace, consecutiveWorseCostMax, SearchOutcome(best, iteration, consecutiveWorseCost)) == final
      decreases best.cost.connectionCost, consecutiveWorseCostMax - consecutiveWorseCost
    {
      ghost var s := SearchOutcome(best, iteration, consecutiveWorseCost);
      best, consecutiveWorseCost := SearchPass(m, a, b, choices, g0, trace, best, iteration, consecutiveWorseCost);
      PassBounds(trace, s);
      if best.cost.connectionCost == 0 {
        RunStops(trace, consecutiveWorseCostMax, s);
        break;
      }
      iteration := iteration + 1;
      RunContinues(trace, consecutiveWorseCostMax, s, SearchOutcome(best, iteration, consecutiveWorseCost));
    }
    outcome := SearchOutcome(best, iteration, consecutiveWorseCost);
  }

  /** The outcome of the search of split_into_groups on the graph `m`, the
      shuffled node list `shuffled` and the picks `choices`, from the
      starting best cost `initialBestCost`. */
  ghost function SplitOutcome(m: seq<seq<int>>, shuffled: seq<nat>, choices: nat -> Pick,
                              initialBestCost: nat): SearchOutcome
    requires IsAdjacency(m) && |m| >= 2
    requires multiset(shuffled) == multiset(Range(|m|))
    requires ValidStream(choices, |m| / 2, |m| - |m| / 2)
  {
    var g0 := InitialComponentGroups(|m|, shuffled);
    TraceNonNegative(m, g0, choices, Trace(m, g0, choices));
    Run(Trace(m, g0, choices), ConsecutiveWorseCostMax(|m|), Start(initialBestCost))
  }

  /** split_into_groups with the starting best cost as a parameter: the
      initial split, the control parameter (computed, and then not used),
      and the search. It fails with a division by zero for fewer than two
      nodes, and otherwise returns the best solution of the search. */
  method SplitWith(m: seq<seq<int>>, shuffled: seq<nat>, trials: nat -> Pick, choices: nat -> Pick,
                   initialBestCost: nat)
    returns (r: Result<AlgorithmSolution>)
    requires IsAdjacency(m)
    requires multiset(shuffled) == multiset(Range(|m|))
    requires ValidPrefix(trials, |m| / 2, |m| / 2, |m| - |m| / 2)
    requires |m| >= 2 ==> ValidStream(choices, |m| / 2, |m| - |m| / 2)
    ensures r.Failure? <==> |m| < 2
    ensures r.Failure? ==> r.error == ZeroDivisionError
    ensures |m| >= 2 ==> r.Success? && r.value == SplitOutcome(m, shuffled, choices, initialBestCost).best
  {
    var graphSize := |m|;
    var g := InitialComponentGroups(graphSize, shuffled);
    PartitionFits(g, graphSize);
    var componentGroupA := new nat[|g.a|](i requires 0 <= i < |g.a| => g.a[i]);
    var componentGroupB := new nat[|g.b|](i requires 0 <= i < |g.b| => g.b[i]);
    assert Groups(componentGroupA[..], componentGroupB[..]) == g;

    var controlParam := InitialControlParameter(m, componentGroupA, componentGroupB, trials);
    if controlParam.Failure? {
      return Failure(controlParam.error);
    }
    var outcome := Search(m, componentGroupA, componentGroupB, choices, Trace(m, g, choices), initialBestCost);
    r := Success(outcome.best);
  }

  /** split_into_groups as written, with the starting best cost
      9 * (graph_size ^ 2) where `^` is exclusive or. */
  method SplitIntoGroups(m: seq<seq<int>>, shuffled: seq<nat>, trials: nat -> Pick, choices: nat -> Pick)
    returns (r: Result<AlgorithmSolution>)
    requires IsAdjacency(m)
    requires multiset(shuffled) == multiset(Range(|m|))
    requires ValidPrefix(trials, |m| / 2, |m| / 2, |m| - |m| / 2)
    requires |m| >= 2 ==> ValidStream(choices, |m| / 2, |m| - |m| / 2)
    ensures r.Failure? <==> |m| < 2
    ensures r.Failure? ==> r.error == ZeroDivisionError
    ensures |m| >= 2 ==> r.Success? && r.value == SplitOutcome(m, shuffled, choices, InitialBestCost(|m|)).best
    ensures |m| == 2 ==> r.Success? && r.value.groupA == [] && r.value.groupB == []
  {
    r := SplitWith(m, shuffled, trials, choices, InitialBestCost(|m|));
    if |m| == 2 {
      PairIsNeverRecorded(m, shuffled, choices);
    }
  }

  /** split_into_groups with the starting best cost evidently intended,
      9 * graph_size squared. */
  method SplitIntoGroupsCorrected(m: seq<seq<int>>, shuffled: seq<nat>, trials: nat -> Pick, choices: nat -> Pick)
    returns (r: Result<AlgorithmSolution>)
    requires IsAdjacency(m)
    requires multiset(shuffled) == multiset(Range(|m|))
    requires ValidPrefix(trials, |m| / 2, |m| / 2, |m| - |m| / 2)
    requires |m| >= 2 ==> ValidStream(choices, |m| / 2, |m| - |m| / 2)
    ensures r.Failure? <==> |m| < 2
    ensures r.Failure? ==> r.error == ZeroDivisionError
    ensures |m| >= 2 ==> r.Success? && r.value == SplitOutcome(m, shuffled, choices, IntendedInitialBestCost(|m|)).best
    ensures |m| >= 2 && IsBoundedBy(m, 1) ==>
              && r.Success?
              && IsPartition(Groups(r.value.groupA, r.value.groupB), |m|)
              && Fits(Groups(r.value.groupA, r.value.groupB), |m|)
              && |r.value.groupA| == |m| / 2 && |r.value.groupB| == |m| - |m| / 2
              && r.value.cost == CostOf(m, r.value.groupA, r.value.groupB)
  {
    r := SplitWith(m, shuffled, trials, choices, IntendedInitialBestCost(|m|));
    if |m| >= 2 && IsBoundedBy(m, 1) {
      CorrectedRecordsPartition(m, shuffled, choices);
    }
  }

  /** The outcome of the search of split_into_groups keeps the promises of
      IsOutcomeOf for the trace of its walk. */
  lemma SplitIsOutcome(m: seq<seq<int>>, shuffled: seq<nat>, choices: nat -> Pick, initialBestCost: nat)
    requires IsAdjacency(m) && |m| >= 2
    requires multiset(shuffled) == multiset(Range(|m|))
    requires ValidStream(choices, |m| / 2, |m| - |m| / 2)
    ensures var g0 := InitialComponentGroups(|m|, shuffled);
      IsOutcomeOf(Trace(m, g0, choices), ConsecutiveWorseCostMax(|m|), initialBestCost,
                  SplitOutcome(m, shuffled, choices, initialBestCost))
  {
    var g0 := InitialComponentGroups(|m|, shuffled);
    var trace := Trace(m, g0, choices);
    var limit := ConsecutiveWorseCostMax(|m|);
    TraceNonNegative(m, g0, choices, trace);
    StartIsLoopState(trace, limit, initialBestCost);
    // The first pass is made: the limit N * N is positive for N >= 1.
    assert Start(initialBestCost).stagnation < limit;
    RunKeepsPromises(trace, limit, initialBestCost, Start(initialBestCost));
  }

  /** The search stops after a pass that leaves a best connection cost of 0,
      or once N*N consecutive passes brought no improvement; the counter
      never passes N*N, and at least one pass is made. */
  lemma SplitStops(m: seq<seq<int>>, shuffled: seq<nat>, choices: nat -> Pick, initialBestCost: nat)
    requires IsAdjacency(m) && |m| >= 2
    requires multiset(shuffled) == multiset(Range(|m|))
    requires ValidStream(choices, |m| / 2, |m| - |m| / 2)
    ensures var o := SplitOutcome(m, shuffled, choices, initialBestCost);
      && o.iteration >= 1 && 1 <= Passes(o)
      && o.stagnation <= ConsecutiveWorseCostMax(|m|)
      && (o.best.cost.connectionCost == 0 || o.stagnation == ConsecutiveWorseCostMax(|m|))
  {
    SplitIsOutcome(m, shuffled, choices, initialBestCost);
  }

  /** The best connection cost is at most that of every split the search
      visited. */
  lemma SplitBestIsLeast(m: seq<seq<int>>, shuffled: seq<nat>, choices: nat -> Pick, initialBestCost: nat)
    requires IsAdjacency(m) && |m| >= 2
    requires multiset(shuffled) == multiset(Range(|m|))
    requires ValidStream(choices, |m| / 2, |m| - |m| / 2)
    ensures var o := SplitOutcome(m, shuffled, choices, initialBestCost);
            var g0 := InitialComponentGroups(|m|, shuffled);
      && o.iteration >= 1
      && forall k: nat :: k < Passes(o) ==>
           o.best.cost.connectionCost <= Recorded(m, g0, choices, k).cost.connectionCost
  {
    var g0 := InitialComponentGroups(|m|, shuffled);
    var o := SplitOutcome(m, shuffled, choices, initialBestCost);
    SplitIsOutcome(m, shuffled, choices, initialBestCost);
    BestIsLeast(m, g0, choices, Trace(m, g0, choices), initialBestCost, o.best, o.stagnation, Passes(o));
  }

  /** The best solution is either still the starting one, or a split the
      search visited: a partition of the nodes with the sizes of the initial
      split, recorded with its true cost, strictly below `initialBestCost`. */
  lemma SplitBestIsPartition(m: seq<seq<int>>, shuffled: seq<nat>, choices: nat -> Pick, initialBestCost: nat)
    requires IsAdjacency(m) && |m| >= 2
    requires multiset(shuffled) == multiset(Range(|m|))
    requires ValidStream(choices, |m| / 2, |m| - |m| / 2)
    ensures var best := SplitOutcome(m, shuffled, choices, initialBestCost).best;
      || best == Unrecorded(initialBestCost)
      || (&& IsPartition(Groups(best.groupA, best.groupB), |m|)
          && Fits(Groups(best.groupA, best.groupB), |m|)
          && |best.groupA| == |m| / 2 && |best.groupB| == |m| - |m| / 2
          && best.cost == CostOf(m, best.groupA, best.groupB)
          && best.cost.connectionCost < initialBestCost)
  {
    var g0 := InitialComponentGroups(|m|, shuffled);
    var o := SplitOutcome(m, shuffled, choices, initialBestCost);
    SplitIsOutcome(m, shuffled, choices, initialBestCost);
    BestIsVisitedPartition(m, g0, choices, Trace(m, g0, choices), initialBestCost, o.best, o.stagnation, Passes(o));
  }

  /** The best solution has at most the connection cost of every pass so far,
      stated on `Recorded` rather than on the trace, so that the `Split…`
      lemmas can state it of the search without naming a trace. */
  lemma BestIsLeast(m: seq<seq<int>>, g0: Groups, choices: nat -> Pick, trace: nat -> AlgorithmSolution,
                    initialBestCost: int, best: AlgorithmSolution, stagnation: nat, passes: nat)
    requires IsSquare(m) && Fits(g0, |m|)
    requires ValidStream(choices, |g0.a|, |g0.b|)
    requires IsTraceOf(m, g0, choices, trace)
    requires IsBestSoFar(trace, initialBestCost, best, stagnation, passes)
    ensures forall k: nat :: k < passes ==> best.cost.connectionCost <= Recorded(m, g0, choices, k).cost.connectionCost
  {
    forall k: nat | k < passes
      ensures best.cost.connectionCost <= Recorded(m, g0, choices, k).cost.connectionCost
    {
      assert trace(k) == Recorded(m, g0, choices, k);
    }
  }

  /** A best solution that is not the starting one is a visited split: from
      a partition, a partition with the starting sizes, with its true cost. */
  lemma BestIsVisitedPartition(m: seq<seq<int>>, g0: Groups, choices: nat -> Pick, trace: nat -> AlgorithmSolution,
                               initialBestCost: int, best: AlgorithmSolution, stagnation: nat, passes: nat)
    requires IsSquare(m) && IsPartition(g0, |m|) && Fits(g0, |m|)
    requires ValidStream(choices, |g0.a|, |g0.b|)
    requires IsTraceOf(m, g0, choices, trace)
    requires IsBestSoFar(trace, initialBestCost, best, stagnation, passes)
    ensures || best == Unrecorded(initialBestCost)
            || (&& IsPartition(Groups(best.groupA, best.groupB), |m|)
                && Fits(Groups(best.groupA, best.groupB), |m|)
                && |best.groupA| == |g0.a| && |best.groupB| == |g0.b|
                && best.cost == CostOf(m, best.groupA, best.groupB)
                && best.cost.connectionCost < initialBestCost)
  {
    if best != Unrecorded(initialBestCost) {
      TraceIsWalk(m, g0, choices, trace, passes - 1 - stagnation);
    }
  }

  /** The connection cost of every visited split is at least 0, so with the
      sentinel 0 of a two-node graph no split is ever recorded and the
      best solution keeps its empty groups. */
  lemma PairIsNeverRecorded(m: seq<seq<int>>, shuffled: seq<nat>, choices: nat -> Pick)
    requires IsAdjacency(m) && |m| == 2
    requires multiset(shuffled) == multiset(Range(|m|))
    requires ValidStream(choices, |m| / 2, |m| - |m| / 2)
    ensures SplitOutcome(m, shuffled, choices, InitialBestCost(|m|)).best == Unrecorded(0)
  {
    SplitBestIsPartition(m, shuffled, choices, InitialBestCost(|m|));
    var o := SplitOutcome(m, shuffled, choices, InitialBestCost(|m|));
    if o.best != Unrecorded(0) {
      CrossSumNonNegative(m, o.best.groupA, o.best.groupB);
    }
  }

  /** With the evidently intended sentinel 9 * N * N, the first pass of an
      unweighted graph (weights 0 and 1) is already recorded: its connection
      cost is at most |A| * |B| < 9 * N * N. So the best solution is always
      a partition with the sizes of the initial split. */
  lemma CorrectedRecordsPartition(m: seq<seq<int>>, shuffled: seq<nat>, choices: nat -> Pick)
    requires IsAdjacency(m) && |m| >= 2 && IsBoundedBy(m, 1)
    requires multiset(shuffled) == multiset(Range(|m|))
    requires ValidStream(choices, |m| / 2, |m| - |m| / 2)
    ensures var best := SplitOutcome(m, shuffled, choices, IntendedInitialBestCost(|m|)).best;
      && IsPartition(Groups(best.groupA, best.groupB), |m|)
      && Fits(Groups(best.groupA, best.groupB), |m|)
      && |best.groupA| == |m| / 2 && |best.groupB| == |m| - |m| / 2
      && best.cost == CostOf(m, best.groupA, best.groupB)
  {
    var n := |m|;
    var init := IntendedInitialBestCost(n);
    SplitBestIsPartition(m, shuffled, choices, init);
    SplitBestIsLeast(m, shuffled, choices, init);
    SplitStops(m, shuffled, choices, init);
    var o := SplitOutcome(m, shuffled, choices, init);
    var g0 := InitialComponentGroups(n, shuffled);
    PartitionFits(g0, n);
    var first := Recorded(m, g0, choices, 0);
    TraceIsWalk(m, g0, choices, Trace(m, g0, choices), 0);
    assert Trace(m, g0, choices)(0) == first;
    SplitBelowIntended(m, first.groupA, first.groupB);
    assert o.best.cost.connectionCost <= first.cost.connectionCost < init;
  }

  /** In an unweighted graph, the connection cost of a split with the sizes
      of the initial split is below 9 * N * N. */
  lemma SplitBelowIntended(m: seq<seq<int>>, a: seq<nat>, b: seq<nat>)
    requires IsSquare(m) && IsBoundedBy(m, 1) && InRange(a, |m|) && InRange(b, |m|)
    requires |m| >= 2 && |a| == |m| / 2 && |b| == |m| - |m| / 2
    ensures CrossSum(m, a, b) < IntendedInitialBestCost(|m|)
  {
    CrossSumAtMost(m, a, b, 1);
    assert |a| * |b| * 1 == |a| * |b|;
  }

  /** Multiplying by a natural keeps the order of naturals. */
  lemma MulMono(a: nat, b: nat, c: nat)
    requires a <= b
    ensures a * c <= b * c
  {
    var d: nat := b - a;
    assert b * c == a * c + d * c;
  }

  /** The search keeps the sizes of the groups, so the uneven cost of every
      split it visits is that of the start. */
  lemma UnevenCostIsConstant(m: seq<seq<int>>, g0: Groups, choices: nat -> Pick,
                             trace: nat -> AlgorithmSolution, k: nat)
    requires IsSquare(m) && Fits(g0, |m|)
    requires ValidStream(choices, |g0.a|, |g0.b|)
    requires IsTraceOf(m, g0, choices, trace)
    ensures trace(k).cost.unevenCost == UnevenPenalty * Abs(|g0.a| - |g0.b|)
  {
    TraceIsWalk(m, g0, choices, trace, k);
  }
}
