/** The preemptive trace simulator of the Rate-Monotonic analyser (printRMS).
    Tasks are named by their index in the task set; the printed diagram
    `name(duration), Idle(duration), ...` becomes a returned sequence of
    segments. The step semantics is given first as functions (Step,
    TraceFrom), with the properties of a step and of the whole trace proved
    about them; the method PrintRms then runs the loop of the original over
    arrays and is proved to produce exactly RmsTrace. Line numbers in the
    comments refer to main.cpp. */
module RateMonotonic {
  import opened Hyperperiod

  datatype Option<T> = None | Some(value: T)

  /** Who holds the processor during a segment. */
  datatype Label = Task(index: nat) | Idle

  /** One entry of the scheduling diagram. */
  datatype Segment = Segment(holder: Label, duration: int)

  /** What the trace loop reads and never changes: the WCET and period
      vectors, the priority order `indices` and the hyperperiod. */
  datatype Setup = Setup(wcet: seq<int>, period: seq<int>, order: seq<nat>, hyperperiod: int)

  /** What the trace loop changes: currentTime, taskNextBegin and
      taskExecutionLeft. */
  datatype State = State(time: int, next: seq<int>, left: seq<int>)

  /** One iteration of the trace loop: a task runs for a chunk, the processor
      idles for a gap, or the loop is left by its `break`. */
  datatype Move =
    | Run(rank: nat, task: nat, chunk: int, after: State)
    | Wait(gap: int, after: State)
    | Stop

  function Min(a: int, b: int): int {
    if a <= b then a else b
  }

  /** The sum of the durations of a trace: the time it covers. */
  function Total(trace: seq<Segment>): int {
    if trace == [] then 0 else trace[0].duration + Total(trace[1..])
  }

  // ---------------------------------------------------------------------
  // Priority order (lines 91, 96-97)

  /** iota: 0, 1, ..., n - 1. */
  function Iota(n: nat): (r: seq<nat>)
    ensures |r| == n && forall k :: 0 <= k < n ==> r[k] == k
  {
    if n == 0 then [] else Iota(n - 1) + [n - 1]
  }

  ghost predicate SortedByPeriod(order: seq<nat>, period: seq<int>)
    requires forall k :: 0 <= k < |order| ==> order[k] < |period|
  {
    forall j, k :: 0 <= j < k < |order| ==> period[order[j]] <= period[order[k]]
  }

  /** The vector `indices` after the sort: a permutation of 0..n-1 whose
      periods do not decrease. std::sort is not stable, so tasks of equal
      period may come in any order; every such order is admitted. */
  ghost predicate IsPriorityOrder(order: seq<nat>, period: seq<int>) {
    && |order| == |period|
    && multiset(order) == multiset(Iota(|period|))
    && (forall k :: 0 <= k < |order| ==> order[k] < |period|)
    && SortedByPeriod(order, period)
  }

  /** Every task of the set has a place in a priority order. */
  lemma InPriorityOrder(order: seq<nat>, period: seq<int>, i: nat)
    requires IsPriorityOrder(order, period) && i < |period|
    ensures |order| == |period|
    ensures i in order
  {
    assert |multiset(order)| == |multiset(Iota(|period|))|;
    assert Iota(|period|)[i] == i;
    assert i in multiset(Iota(|period|));
  }

  // ---------------------------------------------------------------------
  // Shapes

  /** Shapes the loop relies on: one WCET, one positive period and one
      priority slot per task, at least one task. */
  predicate WellFormed(c: Setup) {
    && |c.wcet| == |c.period| == |c.order| > 0
    && (forall i :: 0 <= i < |c.period| ==> c.period[i] > 0)
    && (forall k :: 0 <= k < |c.order| ==> c.order[k] < |c.period|)
  }

  predicate Fits(c: Setup, s: State) {
    && WellFormed(c)
    && |s.next| == |s.left| == |c.period|
    && s.time >= 0
  }

  /** What printRMS is given by its caller: a non-empty task set with
      positive periods, a priority order, and a positive hyperperiod that is
      a common multiple of the periods. */
  ghost predicate ValidSetup(c: Setup) {
    && WellFormed(c)
    && IsPriorityOrder(c.order, c.period)
    && c.hyperperiod > 0
    && forall i :: 0 <= i < |c.period| ==> Divides(c.period[i], c.hyperperiod)
  }

  /** What every iteration of the loop keeps: the clock within the
      hyperperiod, every next release a multiple of its period within the
      hyperperiod, and every remaining budget in 1..WCET (or equal to a
      non-positive WCET, for a task that never runs). */
  ghost predicate Inv(c: Setup, s: State) {
    && Fits(c, s)
    && s.time <= c.hyperperiod
    && forall i :: 0 <= i < |c.period| ==>
         && 0 <= s.next[i] <= c.hyperperiod
         && Divides(c.period[i], s.next[i])
         && (0 < s.left[i] <= c.wcet[i] || s.left[i] == c.wcet[i])
  }

  // ---------------------------------------------------------------------
  // The run branch (lines 106-134)

  /** Line 111: the task has been released and has budget left. */
  predicate Ready(s: State, i: nat)
    requires i < |s.next| && i < |s.left|
  {
    s.time >= s.next[i] && s.left[i] > 0
  }

  /** Lines 107-111: the position, from `from` on, of the first ready task in
      priority order. */
  function FirstReady(c: Setup, s: State, from: nat): (r: Option<nat>)
    requires Fits(c, s) && from <= |c.order|
    ensures r.Some? ==> from <= r.value < |c.order| && Ready(s, c.order[r.value])
    ensures forall k :: from <= k < |c.order| && (r.None? || k < r.value) ==> !Ready(s, c.order[k])
    decreases |c.order| - from
  {
    if from == |c.order| then None
    else if Ready(s, c.order[from]) then Some(from)
    else FirstReady(c, s, from + 1)
  }

  /** Lines 115-119: the position, from `from` on, of the first task in
      priority order whose next release lies strictly inside (t, t + chunk). */
  function FirstReleaseInside(c: Setup, next: seq<int>, t: int, chunk: int, from: nat): (r: Option<nat>)
    requires WellFormed(c) && |next| == |c.period| && from <= |c.order|
    ensures r.Some? ==> from <= r.value < |c.order| && t < next[c.order[r.value]] < t + chunk
    ensures forall k :: from <= k < |c.order| && (r.None? || k < r.value) ==>
              !(t < next[c.order[k]] < t + chunk)
    decreases |c.order| - from
  {
    if from == |c.order| then None
    else if t < next[c.order[from]] < t + chunk then Some(from)
    else FirstReleaseInside(c, next, t, chunk, from + 1)
  }

  /** Line 114: the remaining budget, but no further than the task's next
      period boundary. */
  function Candidate(c: Setup, s: State, i: nat): int
    requires Fits(c, s) && i < |c.period|
  {
    Min(s.left[i], c.period[i] - s.time % c.period[i])
  }

  /** Lines 114-120: executionTime. It is positive, at most the remaining
      budget, does not cross the task's next period boundary, and is
      shortened only to end at a release time after the current time; when
      it is not shortened, no task is released strictly inside it. */
  function Chunk(c: Setup, s: State, i: nat): (r: int)
    requires Fits(c, s) && i < |c.period| && Ready(s, i)
    ensures 1 <= r <= s.left[i]
    ensures r <= c.period[i] - s.time % c.period[i]
    ensures r == Candidate(c, s, i) || s.time + r in s.next
    ensures r == Candidate(c, s, i) ==>
              forall k :: 0 <= k < |c.order| ==> !(s.time < s.next[c.order[k]] < s.time + r)
  {
    var base := Candidate(c, s, i);
    match FirstReleaseInside(c, s.next, s.time, base, 0)
    case Some(k) => s.next[c.order[k]] - s.time
    case None => base
  }

  // ---------------------------------------------------------------------
  // The idle branch (lines 137-167)

  /** The comparator given to std::min_element on line 138, applied to a
      and b. It returns an int, which the algorithm reads as a bool: true
      whenever it is not 0. */
  predicate IdleComparator(t: int, h: int, a: int, b: int) {
    (if a > t then a - t else h - t) != 0
  }

  /** std::min_element(first, last, comp) with that comparator, as a
      position: starting from `smallest`, move to every element from `k` on
      that the comparator puts before the current one. */
  function MinElement(xs: seq<int>, t: int, h: int, k: nat, smallest: nat): (r: nat)
    requires smallest < |xs| && k <= |xs|
    ensures r < |xs|
    decreases |xs| - k
  {
    if k == |xs| then smallest
    else MinElement(xs, t, h, k + 1, if IdleComparator(t, h, xs[k], xs[smallest]) then k else smallest)
  }

  /** While t differs from the hyperperiod the comparator always answers
      true, so min_element yields the LAST element, not the least one. */
  lemma {:induction false} MinElementPicksLast(xs: seq<int>, t: int, h: int, k: nat, smallest: nat)
    requires smallest < |xs| && 0 < k <= |xs| && t != h
    ensures MinElement(xs, t, h, k, smallest) == (if k == |xs| then smallest else |xs| - 1)
    decreases |xs| - k
  {
    if k < |xs| {
      assert IdleComparator(t, h, xs[k], xs[smallest]);
      MinElementPicksLast(xs, t, h, k + 1, k);
    }
  }

  /** Lines 150-154: lower the bound to every release strictly after t and
      strictly before the current bound. */
  function EarliestAfter(next: seq<int>, t: int, bound: int, from: nat): (r: int)
    requires from <= |next|
    ensures r <= bound
    ensures forall k :: from <= k < |next| && next[k] > t ==> r <= next[k]
    ensures r == bound || (r > t && exists k :: from <= k < |next| && next[k] == r)
    decreases |next| - from
  {
    if from == |next| then bound
    else EarliestAfter(next, t, if t < next[from] < bound then next[from] else bound, from + 1)
  }

  /** nextTaskTime after lines 138-154. */
  function IdleTarget(next: seq<int>, t: int, h: int): int
    requires |next| > 0
  {
    var first := next[MinElement(next, t, h, 1, 0)];
    var bound := if first <= t || first == h then h else first;
    EarliestAfter(next, t, bound, 0)
  }

  /** Net effect of lines 138-154: the smallest release strictly after t,
      capped at the hyperperiod. */
  lemma IdleTargetIsNextRelease(next: seq<int>, t: int, h: int)
    requires |next| > 0 && t < h
    requires forall k :: 0 <= k < |next| ==> next[k] <= h
    ensures t < IdleTarget(next, t, h) <= h
    ensures forall k :: 0 <= k < |next| && next[k] > t ==> IdleTarget(next, t, h) <= next[k]
    ensures IdleTarget(next, t, h) == h || IdleTarget(next, t, h) in next
  {
    MinElementPicksLast(next, t, h, 1, 0);
    var first := next[|next| - 1];
    assert first == next[MinElement(next, t, h, 1, 0)];
  }

  /** The comparator of line 138 is not a strict weak ordering, so the C++
      standard does not fix which element min_element returns; the model
      follows the usual linear scan. Whatever element it returns, the cap of
      lines 147-148 and the scan of lines 150-154 yield the same
      nextTaskTime. */
  lemma IdleTargetWhicheverElement(next: seq<int>, t: int, h: int, pos: nat)
    requires |next| > 0 && t < h && pos < |next|
    requires forall k :: 0 <= k < |next| ==> next[k] <= h
    ensures EarliestAfter(next, t, if next[pos] <= t || next[pos] == h then h else next[pos], 0)
            == IdleTarget(next, t, h)
  {
    var first := next[MinElement(next, t, h, 1, 0)];
    EarliestAfterIgnoresBound(next, t, h,
      if next[pos] <= t || next[pos] == h then h else next[pos],
      if first <= t || first == h then h else first);
  }

  /** The scan of lines 150-154 ends at the same value from any starting
      bound that is the hyperperiod or a release after t. */
  lemma EarliestAfterIgnoresBound(next: seq<int>, t: int, h: int, b1: int, b2: int)
    requires t < h && forall k :: 0 <= k < |next| ==> next[k] <= h
    requires b1 == h || (t < b1 && b1 in next)
    requires b2 == h || (t < b2 && b2 in next)
    ensures EarliestAfter(next, t, b1, 0) == EarliestAfter(next, t, b2, 0)
  {
    var r1 := EarliestAfter(next, t, b1, 0);
    var r2 := EarliestAfter(next, t, b2, 0);
    assert r1 <= r2 by { LowerThanEveryCandidate(next, t, h, b1, b2); }
    assert r2 <= r1 by { LowerThanEveryCandidate(next, t, h, b2, b1); }
  }

  lemma LowerThanEveryCandidate(next: seq<int>, t: int, h: int, b1: int, b2: int)
    requires t < h && forall k :: 0 <= k < |next| ==> next[k] <= h
    requires b1 == h || (t < b1 && b1 in next)
    requires b2 == h || (t < b2 && b2 in next)
    ensures EarliestAfter(next, t, b1, 0) <= EarliestAfter(next, t, b2, 0)
  {
    var r2 := EarliestAfter(next, t, b2, 0);
    if r2 != b2 {
      var k :| 0 <= k < |next| && next[k] == r2;
    } else if b2 != h {
      var k :| 0 <= k < |next| && next[k] == b2;
    }
  }

  // ---------------------------------------------------------------------
  // One iteration and the whole trace

  /** Lines 124-131: the state after task i ran for chunk: its budget
      drops by chunk, and when it is used up the budget is reset to the WCET
      and the next release advances by one period. */
  function RunAfter(c: Setup, s: State, i: nat, chunk: int): State
    requires Fits(c, s) && i < |c.period|
  {
    if s.left[i] - chunk == 0
    then State(s.time + chunk, s.next[i := s.next[i] + c.period[i]], s.left[i := c.wcet[i]])
    else State(s.time + chunk, s.next, s.left[i := s.left[i] - chunk])
  }

  /** One iteration of `while (currentTime < hyperperiod)`. */
  function Step(c: Setup, s: State): (m: Move)
    requires Fits(c, s)
    ensures m.Run? ==> m.chunk > 0 && m.after.time == s.time + m.chunk
    ensures m.Wait? ==> m.gap > 0 && m.after.time == s.time + m.gap
    ensures m.Run? || m.Wait? ==> Fits(c, m.after)
  {
    match FirstReady(c, s, 0)
    case Some(rank) =>
      var i := c.order[rank];
      var chunk := Chunk(c, s, i);
      Run(rank, i, chunk, RunAfter(c, s, i, chunk))
    case None =>
      var gap := IdleTarget(s.next, s.time, c.hyperperiod) - s.time;
      if gap > 0 && gap != c.hyperperiod then Wait(gap, State(s.time + gap, s.next, s.left))
      else Stop
  }

  /** The diagram printed from state s on. Every segment has a positive
      duration. */
  function TraceFrom(c: Setup, s: State): (trace: seq<Segment>)
    requires Fits(c, s)
    ensures forall k :: 0 <= k < |trace| ==> trace[k].duration > 0
    decreases c.hyperperiod - s.time
  {
    if s.time >= c.hyperperiod then []
    else match Step(c, s)
      case Run(_, i, chunk, after) => [Segment(Task(i), chunk)] + TraceFrom(c, after)
      case Wait(gap, after) => [Segment(Idle, gap)] + TraceFrom(c, after)
      case Stop => []
  }

  /** Lines 92-93 and 100: every task released at 0 with its full WCET. */
  function Initial(c: Setup): (s: State)
    requires WellFormed(c)
    ensures Fits(c, s) && s.time == 0
  {
    State(0, seq(|c.period|, _ => 0), c.wcet)
  }

  /** The whole diagram printRMS prints. */
  function RmsTrace(c: Setup): seq<Segment>
    requires WellFormed(c)
  {
    TraceFrom(c, Initial(c))
  }

  /** One unfolding of TraceFrom below the hyperperiod. */
  lemma TraceFromUnfolds(c: Setup, s: State)
    requires Fits(c, s) && s.time < c.hyperperiod
    ensures Step(c, s).Run? ==>
              TraceFrom(c, s) == [Segment(Task(Step(c, s).task), Step(c, s).chunk)] + TraceFrom(c, Step(c, s).after)
    ensures Step(c, s).Wait? ==>
              TraceFrom(c, s) == [Segment(Idle, Step(c, s).gap)] + TraceFrom(c, Step(c, s).after)
    ensures Step(c, s).Stop? ==> TraceFrom(c, s) == []
  {
  }

  /** The run step taken when the first ready task sits at position rank. */
  lemma RunStepAt(c: Setup, s: State, rank: nat)
    requires Fits(c, s) && rank < |c.order| && FirstReady(c, s, 0) == Some(rank)
    ensures var i := c.order[rank];
            Step(c, s) == Run(rank, i, Chunk(c, s, i), RunAfter(c, s, i, Chunk(c, s, i)))
  {
  }

  /** The same, once the task at that position and its chunk are known. */
  lemma RunStepOf(c: Setup, s: State, rank: nat, i: nat, chunk: int)
    requires Fits(c, s) && rank < |c.order| && FirstReady(c, s, 0) == Some(rank)
    requires c.order[rank] == i && Chunk(c, s, i) == chunk
    ensures Step(c, s) == Run(rank, i, chunk, RunAfter(c, s, i, chunk))
  {
    RunStepAt(c, s, rank);
  }

  /** The idle step taken when no task is ready. */
  lemma IdleStepAt(c: Setup, s: State)
    requires Fits(c, s) && FirstReady(c, s, 0).None?
    ensures var gap := IdleTarget(s.next, s.time, c.hyperperiod) - s.time;
            Step(c, s) == if gap > 0 && gap != c.hyperperiod then Wait(gap, State(s.time + gap, s.next, s.left)) else Stop
  {
  }

  // ---------------------------------------------------------------------
  // Properties of one step

  /** The run branch is taken exactly when some task is ready; it runs the
      first ready task in priority order, which has the shortest period of
      all ready tasks. */
  lemma StepRunsHighestPriorityReady(c: Setup, s: State)
    requires ValidSetup(c) && Fits(c, s)
    ensures Step(c, s).Run? <==> exists j :: 0 <= j < |c.period| && Ready(s, j)
    ensures Step(c, s).Run? ==>
              && Step(c, s).rank < |c.order|
              && Step(c, s).task == c.order[Step(c, s).rank]
              && Ready(s, Step(c, s).task)
              && (forall k :: 0 <= k < Step(c, s).rank ==> !Ready(s, c.order[k]))
              && (forall j :: 0 <= j < |c.period| && Ready(s, j) ==>
                    c.period[Step(c, s).task] <= c.period[j])
  {
    var r := FirstReady(c, s, 0);
    forall j | 0 <= j < |c.period| && Ready(s, j)
      ensures r.Some? && c.period[c.order[r.value]] <= c.period[j]
    {
      InPriorityOrder(c.order, c.period, j);
      var k :| 0 <= k < |c.order| && c.order[k] == j;
      assert r.Some? && r.value <= k;
      if r.value < k {
        assert c.period[c.order[r.value]] <= c.period[c.order[k]];
      }
    }
  }

  /** A run step changes only the chosen task's entries: its budget drops by
      the chunk, and when that reaches 0 the budget is reset to the WCET and
      the next release advances by exactly one period. */
  lemma RunStepUpdatesOnlyChosenTask(c: Setup, s: State)
    requires Fits(c, s) && Step(c, s).Run?
    ensures var m := Step(c, s);
            var i := m.task;
            && i < |c.period|
            && m.after.time == s.time + m.chunk
            && m.chunk == Chunk(c, s, i)
            && (s.left[i] - m.chunk == 0 ==>
                  m.after.left[i] == c.wcet[i] && m.after.next[i] == s.next[i] + c.period[i])
            && (s.left[i] - m.chunk != 0 ==>
                  m.after.left[i] == s.left[i] - m.chunk && m.after.next[i] == s.next[i])
            && forall j :: 0 <= j < |c.period| && j != i ==>
                 m.after.next[j] == s.next[j] && m.after.left[j] == s.left[j]
  {
  }

  /** The idle branch is taken when no task is ready. It waits until the
      earliest release strictly after the current time, capped at the
      hyperperiod, so no release falls strictly inside the idle gap; the
      loop is left instead only at time 0. */
  lemma IdleStepJumpsToNextRelease(c: Setup, s: State)
    requires ValidSetup(c) && Inv(c, s) && s.time < c.hyperperiod
    requires !Step(c, s).Run?
    ensures forall j :: 0 <= j < |c.period| ==> !Ready(s, j)
    ensures Step(c, s).Stop? ==> s.time == 0
    ensures Step(c, s).Wait? ==>
              && s.time < Step(c, s).after.time <= c.hyperperiod
              && (Step(c, s).after.time == c.hyperperiod || Step(c, s).after.time in s.next)
              && (forall j :: 0 <= j < |c.period| ==>
                    !(s.time < s.next[j] < Step(c, s).after.time))
              && Step(c, s).after.next == s.next && Step(c, s).after.left == s.left
  {
    StepRunsHighestPriorityReady(c, s);
    IdleTargetIsNextRelease(s.next, s.time, c.hyperperiod);
  }

  /** Every iteration keeps the invariant: in particular the clock never
      passes the hyperperiod and every budget stays within 1..WCET. */
  lemma StepPreservesInv(c: Setup, s: State)
    requires ValidSetup(c) && Inv(c, s) && s.time < c.hyperperiod
    ensures Step(c, s).Run? || Step(c, s).Wait? ==> Inv(c, Step(c, s).after)
    ensures Step(c, s).Stop? ==> s.time == 0
  {
    if Step(c, s).Run? {
      RunStepPreservesInv(c, s);
    } else {
      IdleStepJumpsToNextRelease(c, s);
    }
  }

  /** The run branch keeps the invariant: the chunk ends no later than the
      task's next period boundary, which is within the hyperperiod, and a
      used-up budget moves the release one period on, still a multiple of
      the period within the hyperperiod. */
  lemma RunStepPreservesInv(c: Setup, s: State)
    requires ValidSetup(c) && Inv(c, s) && s.time < c.hyperperiod && Step(c, s).Run?
    ensures Inv(c, Step(c, s).after)
  {
    var m := Step(c, s);
    var h := c.hyperperiod;
    var i := m.task;
    var p := c.period[i];
    RunStepUpdatesOnlyChosenTask(c, s);
    RoundDownDivides(p, s.time);
    NextMultipleAtMost(p, s.time - s.time % p, h);
    assert m.after.time <= h;
    if s.left[i] - m.chunk == 0 {
      NextMultipleAtMost(p, s.next[i], h);
      DividesReflexive(p);
      DividesCombination(p, p, s.next[i], 1);
    }
  }

  lemma InitialInv(c: Setup)
    requires ValidSetup(c)
    ensures Inv(c, Initial(c))
  {
    forall i | 0 <= i < |c.period|
      ensures Divides(c.period[i], Initial(c).next[i])
    {
      DividesReflexive(c.period[i]);
    }
  }

  // ---------------------------------------------------------------------
  // Properties of the whole trace

  /** From any state satisfying the invariant the remaining diagram covers
      exactly the time up to the hyperperiod, unless the loop is left at
      time 0 without printing anything. */
  lemma {:induction false} TraceCoversRest(c: Setup, s: State)
    requires ValidSetup(c) && Inv(c, s)
    ensures Total(TraceFrom(c, s)) == c.hyperperiod - s.time || (s.time == 0 && TraceFrom(c, s) == [])
    decreases c.hyperperiod - s.time
  {
    if s.time < c.hyperperiod {
      StepPreservesInv(c, s);
      var m := Step(c, s);
      if !m.Stop? {
        TraceCoversRest(c, m.after);
        var rest := TraceFrom(c, m.after);
        var seg := if m.Run? then Segment(Task(m.task), m.chunk) else Segment(Idle, m.gap);
        assert TraceFrom(c, s) == [seg] + rest;
        assert ([seg] + rest)[1..] == rest;
      }
    }
  }

  /** When some task has work, the diagram is non-empty and its durations
      add up to the hyperperiod: the segments tile [0, hyperperiod). */
  lemma RmsTraceCoversHyperperiod(c: Setup)
    requires ValidSetup(c)
    requires exists i :: 0 <= i < |c.wcet| && c.wcet[i] > 0
    ensures RmsTrace(c) != []
    ensures Total(RmsTrace(c)) == c.hyperperiod
  {
    var s := Initial(c);
    var i :| 0 <= i < |c.wcet| && c.wcet[i] > 0;
    assert Ready(s, i);
    StepRunsHighestPriorityReady(c, s);
    InitialInv(c);
    TraceCoversRest(c, s);
  }

  /** When no task has work, nothing is ever ready and the loop is left at
      once: the diagram is empty. */
  lemma RmsTraceEmptyWithoutWork(c: Setup)
    requires ValidSetup(c)
    requires forall i :: 0 <= i < |c.wcet| ==> c.wcet[i] <= 0
    ensures RmsTrace(c) == []
  {
    var s := Initial(c);
    InitialInv(c);
    StepRunsHighestPriorityReady(c, s);
    IdleStepJumpsToNextRelease(c, s);
    IdleTargetIsNextRelease(s.next, 0, c.hyperperiod);
    assert IdleTarget(s.next, 0, c.hyperperiod) == c.hyperperiod;
  }

  /** One task of WCET 1 and period 4 over the hyperperiod 4: it runs for 1,
      then the processor idles for 3. */
  lemma SingleTaskTrace(c: Setup)
    requires |c.wcet| == |c.period| == |c.order| == 1
    requires c.wcet[0] == 1 && c.period[0] == 4 && c.order[0] == 0 && c.hyperperiod == 4
    ensures RmsTrace(c) == [Segment(Task(0), 1), Segment(Idle, 3)]
  {
    var s0 := Initial(c);
    assert s0.next[0] == 0;
    SingleTaskRuns(c, s0);
    var s1 := State(1, [4], [1]);
    SingleTaskIdles(c, s1);
    TraceFromUnfolds(c, s0);
    TraceFromUnfolds(c, s1);
  }

  /** At time 0 the only task runs its whole WCET of 1. */
  lemma SingleTaskRuns(c: Setup, s0: State)
    requires WellFormed(c) && |c.period| == 1 && c.wcet[0] == 1 && c.period[0] == 4 && c.order[0] == 0
    requires Fits(c, s0) && s0.time == 0 && s0.next[0] == 0 && s0.left[0] == 1
    ensures Step(c, s0) == Run(0, 0, 1, State(1, [4], [1]))
  {
    SingleTaskReadyAtZero(c, s0);
    RunStepOf(c, s0, 0, 0, 1);
    SpentSingleton(c, s0, 1);
  }

  /** At time 0 the only task is ready, and its chunk is its WCET of 1. */
  lemma SingleTaskReadyAtZero(c: Setup, s0: State)
    requires WellFormed(c) && |c.period| == 1 && c.period[0] == 4 && c.order[0] == 0
    requires Fits(c, s0) && s0.time == 0 && s0.next[0] == 0 && s0.left[0] == 1
    ensures FirstReady(c, s0, 0) == Some(0)
    ensures Ready(s0, 0) && Chunk(c, s0, 0) == 1
  {
    assert FirstReady(c, s0, 0) == Some(0);
    assert Candidate(c, s0, 0) == 1 by { assert 0 % 4 == 0; }
    assert FirstReleaseInside(c, s0.next, 0, 1, 0) == None;
  }

  /** A run that spends the whole budget of the only task of a set. */
  lemma SpentSingleton(c: Setup, s: State, chunk: int)
    requires Fits(c, s) && |c.period| == 1 && s.left[0] == chunk
    ensures RunAfter(c, s, 0, chunk) == State(s.time + chunk, [s.next[0] + c.period[0]], [c.wcet[0]])
  {
    assert s.next[0 := s.next[0] + c.period[0]] == [s.next[0] + c.period[0]];
    assert s.left[0 := c.wcet[0]] == [c.wcet[0]];
  }

  /** At time 1 nothing is ready; the processor idles until 4. */
  lemma SingleTaskIdles(c: Setup, s1: State)
    requires WellFormed(c) && |c.period| == 1 && c.order[0] == 0 && c.hyperperiod == 4
    requires Fits(c, s1) && s1.time == 1 && s1.next[0] == 4
    ensures Step(c, s1) == Wait(3, State(4, s1.next, s1.left))
  {
    assert FirstReady(c, s1, 0) == None;
    IdleStepAt(c, s1);
    assert MinElement(s1.next, 1, 4, 1, 0) == 0;
    assert IdleTarget(s1.next, 1, 4) == 4;
  }

  /** The preemption check of lines 115-119 stops at the FIRST task in
      priority order whose release falls inside the chunk, not at the
      earliest such release. Periods 6, 7 and 8 with WCETs 1, 1 and 3, in a
      state at time 160 that satisfies the loop invariant: only the period-8
      task is ready; it runs until 162, the release of the period-6 task,
      although the period-7 task is released at 161 in between. Whether the
      schedule from time 0 reaches this state is not stated here. */
  lemma PreemptionCheckStopsAtFirstInPriorityOrder(c: Setup, s: State)
    requires c.wcet == [1, 1, 3] && c.period == [6, 7, 8] && c.order == [0, 1, 2] && c.hyperperiod == 168
    requires s.time == 160 && s.next == [162, 161, 160] && s.left == [1, 1, 3]
    ensures ValidSetup(c) && Inv(c, s)
    ensures Step(c, s) == Run(2, 2, 2, State(162, [162, 161, 160], [1, 1, 1]))
    ensures s.time < s.next[1] < s.time + 2 && c.period[1] < c.period[2]
  {
    PreemptionExampleSetupIsValid(c);
    PreemptionExampleStateIsValid(c, s);
    PreemptionExampleChunk(c, s);
    RunStepOf(c, s, 2, 2, 2);
    assert s.left[2] - 2 != 0;
    SpendTwoOfThree(s.left);
  }

  lemma SpendTwoOfThree(left: seq<int>)
    requires left == [1, 1, 3]
    ensures left[2 := left[2] - 2] == [1, 1, 1]
  {
    assert left[2 := 1][2] == 1;
  }

  /** In the example above the period-8 task is the only ready one; its
      chunk of 3 is cut to 2 by the release of the period-6 task. */
  lemma PreemptionExampleChunk(c: Setup, s: State)
    requires c.wcet == [1, 1, 3] && c.period == [6, 7, 8] && c.order == [0, 1, 2] && c.hyperperiod == 168
    requires s.time == 160 && s.next == [162, 161, 160] && s.left == [1, 1, 3]
    ensures FirstReady(c, s, 0) == Some(2)
    ensures Fits(c, s) && Ready(s, 2) && Chunk(c, s, 2) == 2
  {
    assert FirstReady(c, s, 2) == Some(2);
    assert FirstReady(c, s, 1) == Some(2);
    assert Candidate(c, s, 2) == 3 by { assert 160 % 8 == 0; }
    assert FirstReleaseInside(c, s.next, 160, 3, 0) == Some(0);
  }

  /** The task set of the example above is a valid input of printRMS. */
  lemma PreemptionExampleSetupIsValid(c: Setup)
    requires c.wcet == [1, 1, 3] && c.period == [6, 7, 8] && c.order == [0, 1, 2] && c.hyperperiod == 168
    ensures ValidSetup(c)
  {
    IdentityIsPriorityOrderOfThree();
    forall i | 0 <= i < |c.period|
      ensures Divides(c.period[i], c.hyperperiod)
    {
      if i == 0 {
        assert 168 == 6 * 28;
      } else if i == 1 {
        assert 168 == 7 * 24;
      } else {
        assert 168 == 8 * 21;
      }
    }
  }

  /** Periods 6, 7, 8 are already sorted: the identity is their order. */
  lemma IdentityIsPriorityOrderOfThree()
    ensures IsPriorityOrder([0, 1, 2], [6, 7, 8])
  {
    IotaOfThree();
    assert SortedByPeriod([0, 1, 2], [6, 7, 8]);
  }

  lemma IotaOfThree()
    ensures Iota(3) == [0, 1, 2]
  {
    assert Iota(3)[0] == 0 && Iota(3)[1] == 1 && Iota(3)[2] == 2;
  }

  /** The state of the example above satisfies the loop invariant. */
  lemma PreemptionExampleStateIsValid(c: Setup, s: State)
    requires c.wcet == [1, 1, 3] && c.period == [6, 7, 8] && c.order == [0, 1, 2] && c.hyperperiod == 168
    requires s.time == 160 && s.next == [162, 161, 160] && s.left == [1, 1, 3]
    ensures Inv(c, s)
  {
    assert Divides(6, 162) by { assert 162 == 6 * 27; }
    assert Divides(7, 161) by { assert 161 == 7 * 23; }
    assert Divides(8, 160) by { assert 160 == 8 * 20; }
  }

  // ---------------------------------------------------------------------
  // The imperative loop

  /** Exchange a[j - 1] and a[j]. */
  method SwapWithLeft(a: array<nat>, j: nat)
    requires 0 < j < a.Length
    modifies a
    ensures a[j - 1] == old(a[j]) && a[j] == old(a[j - 1])
    ensures forall k :: 0 <= k < a.Length && k != j - 1 && k != j ==> a[k] == old(a[k])
    ensures multiset(a[..]) == old(multiset(a[..]))
  {
    a[j - 1], a[j] := a[j], a[j - 1];
  }

  /** Sink a[m] into the sorted prefix a[..m] by swapping it with its
      left neighbour while that neighbour has a longer period. */
  method InsertByPeriod(a: array<nat>, period: seq<int>, m: nat)
    requires m < a.Length
    requires forall k :: 0 <= k < a.Length ==> a[k] < |period|
    requires forall x, y :: 0 <= x < y < m ==> period[a[x]] <= period[a[y]]
    modifies a
    ensures forall k :: 0 <= k < a.Length ==> a[k] < |period|
    ensures forall x, y :: 0 <= x < y <= m ==> period[a[x]] <= period[a[y]]
    ensures multiset(a[..]) == old(multiset(a[..]))
    ensures forall k :: m < k < a.Length ==> a[k] == old(a[k])
  {
    var j := m;
    while j > 0 && period[a[j - 1]] > period[a[j]]
      invariant 0 <= j <= m
      invariant forall k :: 0 <= k < a.Length ==> a[k] < |period|
      invariant forall x, y :: 0 <= x < y <= m && x != j && y != j ==> period[a[x]] <= period[a[y]]
      invariant forall y :: j < y <= m ==> period[a[j]] < period[a[y]]
      invariant 0 < j < m ==> period[a[j - 1]] <= period[a[j + 1]]
      invariant multiset(a[..]) == old(multiset(a[..]))
      invariant forall k :: m < k < a.Length ==> a[k] == old(a[k])
    {
      SwapWithLeft(a, j);
      j := j - 1;
    }
  }

  /** Insertion sort of the index array by period (stands for line 97). */
  method SortByPeriod(a: array<nat>, period: seq<int>)
    requires forall k :: 0 <= k < a.Length ==> a[k] < |period|
    modifies a
    ensures forall k :: 0 <= k < a.Length ==> a[k] < |period|
    ensures forall x, y :: 0 <= x < y < a.Length ==> period[a[x]] <= period[a[y]]
    ensures multiset(a[..]) == old(multiset(a[..]))
  {
    for m := 0 to a.Length
      invariant forall k :: 0 <= k < a.Length ==> a[k] < |period|
      invariant forall x, y :: 0 <= x < y < m ==> period[a[x]] <= period[a[y]]
      invariant multiset(a[..]) == old(multiset(a[..]))
    {
      InsertByPeriod(a, period, m);
    }
  }

  /** Lines 91 and 96-97: iota, then sort by period. */
  method PriorityOrder(period: seq<int>) returns (indices: seq<nat>)
    ensures IsPriorityOrder(indices, period)
  {
    var n := |period|;
    var a := new nat[n];
    for k := 0 to n
      invariant a[..k] == Iota(k)
    {
      a[k] := k;
      assert a[..k + 1] == a[..k] + [k];
    }
    assert a[..] == a[..n];
    SortByPeriod(a, period);
    indices := a[..];
  }

  /** Lines 114-120: the chunk of task i, cut at the release of the first
      task in priority order that falls strictly inside it. */
  method PreemptionCheck(ghost c: Setup, period: seq<int>, indices: seq<nat>,
                         taskNextBegin: array<int>, taskExecutionLeft: array<int>,
                         currentTime: int, i: nat)
    returns (executionTime: int)
    requires period == c.period && indices == c.order
    requires Fits(c, State(currentTime, taskNextBegin[..], taskExecutionLeft[..]))
    requires i < |period| && Ready(State(currentTime, taskNextBegin[..], taskExecutionLeft[..]), i)
    ensures executionTime == Chunk(c, State(currentTime, taskNextBegin[..], taskExecutionLeft[..]), i)
  {
    ghost var s := State(currentTime, taskNextBegin[..], taskExecutionLeft[..]);
    var n := |indices|;
    executionTime := Min(taskExecutionLeft[i], period[i] - currentTime % period[i]);
    ghost var base := executionTime;
    var j := 0;
    while j < n
      invariant 0 <= j <= n && executionTime == base
      invariant FirstReleaseInside(c, s.next, currentTime, base, j) ==
                FirstReleaseInside(c, s.next, currentTime, base, 0)
    {
      if taskNextBegin[indices[j]] > currentTime && taskNextBegin[indices[j]] < currentTime + executionTime {
        executionTime := taskNextBegin[indices[j]] - currentTime;
        break;
      }
      j := j + 1;
    }
  }

  /** Lines 104-134: run the first ready task in priority order, if there is
      one, updating its budget and next release as the run step says. */
  method RunFirstReady(ghost c: Setup, wcet: seq<int>, period: seq<int>, indices: seq<nat>,
                       taskNextBegin: array<int>, taskExecutionLeft: array<int>, currentTime: int)
    returns (foundTask: bool, task: nat, executionTime: int)
    requires c == Setup(wcet, period, indices, c.hyperperiod)
    requires Fits(c, State(currentTime, taskNextBegin[..], taskExecutionLeft[..]))
    requires taskNextBegin != taskExecutionLeft
    modifies taskNextBegin, taskExecutionLeft
    ensures var m := Step(c, State(currentTime, old(taskNextBegin[..]), old(taskExecutionLeft[..])));
            && foundTask == m.Run?
            && (foundTask ==>
                  && task == m.task && executionTime == m.chunk
                  && State(currentTime + executionTime, taskNextBegin[..], taskExecutionLeft[..]) == m.after)
            && (!foundTask ==>
                  taskNextBegin[..] == old(taskNextBegin[..]) && taskExecutionLeft[..] == old(taskExecutionLeft[..]))
  {
    ghost var s := State(currentTime, taskNextBegin[..], taskExecutionLeft[..]);
    ghost var m := Step(c, s);
    var n := |indices|;
    foundTask, task, executionTime := false, 0, 0;
    var idx := 0;
    while idx < n && !foundTask
      invariant 0 <= idx <= n
      invariant !foundTask ==>
                  && taskNextBegin[..] == s.next && taskExecutionLeft[..] == s.left
                  && FirstReady(c, s, idx) == FirstReady(c, s, 0)
      invariant foundTask ==>
                  && m.Run? && task == m.task && executionTime == m.chunk
                  && State(currentTime + executionTime, taskNextBegin[..], taskExecutionLeft[..]) == m.after
    {
      var i := indices[idx];
      if currentTime >= taskNextBegin[i] && taskExecutionLeft[i] > 0 {
        RunStepAt(c, s, idx);
        executionTime := RunTask(c, s, wcet, period, indices, taskNextBegin, taskExecutionLeft, currentTime, i);
        task := i;
        foundTask := true;
      }
      idx := idx + 1;
    }
  }

  /** Lines 114-131: task i runs for its chunk; its budget drops by the
      chunk, and when the budget is used up it is reset to the WCET and the
      next release advances by one period. */
  method RunTask(ghost c: Setup, ghost s: State, wcet: seq<int>, period: seq<int>, indices: seq<nat>,
                 taskNextBegin: array<int>, taskExecutionLeft: array<int>, currentTime: int, i: nat)
    returns (executionTime: int)
    requires c == Setup(wcet, period, indices, c.hyperperiod)
    requires s == State(currentTime, taskNextBegin[..], taskExecutionLeft[..])
    requires Fits(c, s) && taskNextBegin != taskExecutionLeft
    requires i < |period| && Ready(s, i)
    modifies taskNextBegin, taskExecutionLeft
    ensures executionTime == Chunk(c, s, i)
    ensures State(currentTime + executionTime, taskNextBegin[..], taskExecutionLeft[..]) == RunAfter(c, s, i, executionTime)
  {
    executionTime := PreemptionCheck(c, period, indices, taskNextBegin, taskExecutionLeft, currentTime, i);
    taskExecutionLeft[i] := taskExecutionLeft[i] - executionTime;
    if taskExecutionLeft[i] == 0 {
      taskNextBegin[i] := taskNextBegin[i] + period[i];
      taskExecutionLeft[i] := wcet[i];
    }
  }

  /** Lines 138-145: std::min_element over taskNextBegin with the
      comparator of line 138. */
  method MinElementOf(xs: array<int>, currentTime: int, hyperperiod: int) returns (smallest: nat)
    requires xs.Length > 0
    ensures smallest == MinElement(xs[..], currentTime, hyperperiod, 1, 0)
  {
    smallest := 0;
    var k := 1;
    while k < xs.Length
      invariant 1 <= k <= xs.Length && smallest < xs.Length
      invariant MinElement(xs[..], currentTime, hyperperiod, k, smallest)
             == MinElement(xs[..], currentTime, hyperperiod, 1, 0)
    {
      if IdleComparator(currentTime, hyperperiod, xs[k], xs[smallest]) {
        smallest := k;
      }
      k := k + 1;
    }
  }

  /** Lines 138-154: nextTaskTime, from std::min_element with the int-valued
      comparator, corrected by the scan over all next releases. */
  method NextTaskTime(taskNextBegin: array<int>, currentTime: int, hyperperiod: int)
    returns (nextTaskTime: int)
    requires taskNextBegin.Length > 0
    ensures nextTaskTime == IdleTarget(taskNextBegin[..], currentTime, hyperperiod)
  {
    var smallest := MinElementOf(taskNextBegin, currentTime, hyperperiod);
    nextTaskTime := taskNextBegin[smallest];
    if nextTaskTime <= currentTime || nextTaskTime == hyperperiod {
      nextTaskTime := hyperperiod;
    }
    nextTaskTime := LowerToEarliestRelease(taskNextBegin, currentTime, nextTaskTime);
  }

  /** Lines 150-154: lower nextTaskTime to every release strictly between the
      current time and it. */
  method LowerToEarliestRelease(taskNextBegin: array<int>, currentTime: int, bound: int)
    returns (nextTaskTime: int)
    ensures nextTaskTime == EarliestAfter(taskNextBegin[..], currentTime, bound, 0)
  {
    nextTaskTime := bound;
    for i := 0 to taskNextBegin.Length
      invariant EarliestAfter(taskNextBegin[..], currentTime, nextTaskTime, i)
             == EarliestAfter(taskNextBegin[..], currentTime, bound, 0)
    {
      if taskNextBegin[i] > currentTime && taskNextBegin[i] < nextTaskTime {
        nextTaskTime := taskNextBegin[i];
      }
    }
  }

  /** One iteration of lines 103-169: either print one segment and advance
      the clock, or leave the loop. */
  method Iterate(ghost c: Setup, wcet: seq<int>, period: seq<int>, indices: seq<nat>,
                 hyperperiod: int, taskNextBegin: array<int>, taskExecutionLeft: array<int>, currentTime: int)
    returns (printed: Option<Segment>, newTime: int)
    requires c == Setup(wcet, period, indices, hyperperiod)
    requires Fits(c, State(currentTime, taskNextBegin[..], taskExecutionLeft[..]))
    requires currentTime < c.hyperperiod && taskNextBegin != taskExecutionLeft
    modifies taskNextBegin, taskExecutionLeft
    ensures var s := State(currentTime, old(taskNextBegin[..]), old(taskExecutionLeft[..]));
            && (printed.None? <==> Step(c, s).Stop?)
            && (printed.None? ==>
                  && taskNextBegin[..] == s.next && taskExecutionLeft[..] == s.left
                  && TraceFrom(c, s) == [])
            && (printed.Some? ==>
                  && newTime > currentTime
                  && State(newTime, taskNextBegin[..], taskExecutionLeft[..]) == Step(c, s).after
                  && Fits(c, State(newTime, taskNextBegin[..], taskExecutionLeft[..]))
                  && TraceFrom(c, s) == [printed.value] + TraceFrom(c, State(newTime, taskNextBegin[..], taskExecutionLeft[..])))
  {
    ghost var s := State(currentTime, taskNextBegin[..], taskExecutionLeft[..]);
    TraceFromUnfolds(c, s);
    ghost var m := Step(c, s);
    var foundTask, i, executionTime :=
      RunFirstReady(c, wcet, period, indices, taskNextBegin, taskExecutionLeft, currentTime);
    if foundTask {
      printed, newTime := Some(Segment(Task(i), executionTime)), currentTime + executionTime;
      assert State(newTime, taskNextBegin[..], taskExecutionLeft[..]) == m.after;
    } else {
      var nextTaskTime := NextTaskTime(taskNextBegin, currentTime, hyperperiod);
      var idleTime := nextTaskTime - currentTime;
      IdleStepAt(c, s);
      if idleTime > 0 && idleTime != hyperperiod {
        assert m == Wait(idleTime, State(currentTime + idleTime, s.next, s.left));
        printed, newTime := Some(Segment(Idle, idleTime)), currentTime + idleTime;
        assert State(newTime, taskNextBegin[..], taskExecutionLeft[..]) == m.after;
      } else {
        assert m == Stop;
        printed, newTime := None, currentTime;
      }
    }
  }

  /** Printing one more segment keeps the printed prefix and the rest of
      the diagram together equal to the whole diagram. */
  lemma AppendSegment(c: Setup, trace: seq<Segment>, seg: Segment, s: State, s': State)
    requires Fits(c, s) && Fits(c, s') && WellFormed(c)
    requires trace + TraceFrom(c, s) == RmsTrace(c)
    requires TraceFrom(c, s) == [seg] + TraceFrom(c, s')
    ensures (trace + [seg]) + TraceFrom(c, s') == RmsTrace(c)
  {
    assert (trace + [seg]) + TraceFrom(c, s') == trace + ([seg] + TraceFrom(c, s'));
  }

  /** Lines 92-93: every task released at 0 with its whole WCET left. */
  method InitialVectors(ghost c: Setup, wcet: seq<int>) returns (taskNextBegin: array<int>, taskExecutionLeft: array<int>)
    requires WellFormed(c) && wcet == c.wcet
    ensures fresh(taskNextBegin) && fresh(taskExecutionLeft) && taskNextBegin != taskExecutionLeft
    ensures State(0, taskNextBegin[..], taskExecutionLeft[..]) == Initial(c)
  {
    var n := |wcet|;
    taskNextBegin := new int[n](_ => 0);
    taskExecutionLeft := new int[n](i requires 0 <= i < n => wcet[i]);
    assert taskNextBegin[..] == Initial(c).next;
    assert taskExecutionLeft[..] == Initial(c).left;
  }

  /** Lines 100-169: the state vectors start from the initial
      state, then the loop prints segment after segment until the clock
      reaches the hyperperiod or the idle branch breaks out. */
  method SimulateTrace(ghost c: Setup, wcet: seq<int>, period: seq<int>, indices: seq<nat>, hyperperiod: int)
    returns (trace: seq<Segment>)
    requires c == Setup(wcet, period, indices, hyperperiod) && WellFormed(c)
    ensures trace == RmsTrace(c)
  {
    var taskNextBegin, taskExecutionLeft := InitialVectors(c, wcet);
    var currentTime := 0;
    trace := [];
    ghost var st := Initial(c);
    while currentTime < hyperperiod
      invariant st == State(currentTime, taskNextBegin[..], taskExecutionLeft[..])
      invariant Fits(c, st) && trace + TraceFrom(c, st) == RmsTrace(c)
      decreases hyperperiod - currentTime
    {
      var printed, newTime :=
        Iterate(c, wcet, period, indices, hyperperiod, taskNextBegin, taskExecutionLeft, currentTime);
      if printed.None? {
        break;
      }
      ghost var st' := State(newTime, taskNextBegin[..], taskExecutionLeft[..]);
      AppendSegment(c, trace, printed.value, st, st');
      trace, currentTime, st := trace + [printed.value], newTime, st';
    }
  }

  /** printRMS: the scheduling diagram of one processor over one
      hyperperiod. It also returns the priority order its sort chose. For
      any hyperperiod the diagram is RmsTrace; when it is the hyperperiod
      the caller computes (line 199), the diagram covers it exactly. */
  method PrintRms(wcet: seq<int>, period: seq<int>, hyperperiod: int)
    returns (indices: seq<nat>, trace: seq<Segment>)
    requires |wcet| == |period| > 0
    requires forall i :: 0 <= i < |period| ==> period[i] > 0
    ensures IsPriorityOrder(indices, period)
    ensures trace == RmsTrace(Setup(wcet, period, indices, hyperperiod))
    ensures forall k :: 0 <= k < |trace| ==> trace[k].duration > 0
    ensures hyperperiod == HyperPeriod(period) && (exists i :: 0 <= i < |wcet| && wcet[i] > 0) ==>
              Total(trace) == hyperperiod
    ensures hyperperiod == HyperPeriod(period) && (forall i :: 0 <= i < |wcet| ==> wcet[i] <= 0) ==>
              trace == []
  {
    indices := PriorityOrder(period);
    ghost var c := Setup(wcet, period, indices, hyperperiod);
    trace := SimulateTrace(c, wcet, period, indices, hyperperiod);
    if hyperperiod == HyperPeriod(period) {
      HyperPeriodIsLcm(period);
      assert ValidSetup(c);
      if exists i :: 0 <= i < |wcet| && wcet[i] > 0 {
        RmsTraceCoversHyperperiod(c);
      }
      if forall i :: 0 <= i < |wcet| ==> wcet[i] <= 0 {
        RmsTraceEmptyWithoutWork(c);
      }
    }
  }
}
