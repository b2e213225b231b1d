# Rate-Monotonic analyser: hyperperiod and trace simulator

This project models the integer core of a small Rate-Monotonic (RM)
schedulability analyser written in C++ (`main.cpp`). Each processor gets a
task set: a name, a worst-case execution time (WCET) and a period for each
task. The analyser computes the set's hyperperiod, the least common multiple
of the periods. When the set is schedulable, it prints the preemptive RM
schedule of one hyperperiod as a diagram `T1(1), T2(2), Idle(1), ...`.

Two modules:

- `Hyperperiod` (`hyperperiod.dfy`) covers three functions:
  - `getGCD`, Euclid's loop. It is an imperative method `Gcd`, proved
    equal to the recursive `GcdOf`, which is proved to be a greatest
    common divisor.
  - `getLCM`, which computes `a * b / gcd(a, b)`. It is the function
    `Lcm`, proved to be an exact, positive common multiple that divides
    every common multiple. The minimality proof goes through Bezout's
    identity.
  - `calcHyperPeriod`, the `std::accumulate` fold of `getLCM` starting
    from 1. It is the function `HyperPeriod`, proved to be 1 for an empty
    set and otherwise the least common multiple of the periods.
- `RateMonotonic` (`rms.dfy`) covers `printRMS`. The diagram becomes a
  returned sequence of `Segment`s. Each segment is a task index or `Idle`,
  with a duration. One iteration of the scheduling loop is the function
  `Step`, and the whole diagram is `RmsTrace`. These are the
  specification. The properties of the schedule are proved about them:
  - the run branch runs the ready task of shortest period;
  - a run changes only the chosen task's budget and release;
  - an idle gap ends at the next release;
  - every iteration keeps the loop invariant;
  - the segments tile `[0, hyperperiod)` exactly.

  The method `PrintRms` then runs the original loop over arrays. Its
  helpers mirror the inner loops of the source: `RunFirstReady`,
  `RunTask`, `PreemptionCheck`, `MinElementOf`, `NextTaskTime` and
  `LowerToEarliestRelease`. `PrintRms` is proved to return exactly
  `RmsTrace`.

Four behaviours of the original are modelled as written:

- `std::sort` is not stable. The simulator is therefore specified for
  every priority order the sort may produce: any permutation of the task
  indices whose periods do not decrease (`IsPriorityOrder`). The
  insertion sort in `PriorityOrder` computes one such order.
- The comparator given to `std::min_element` returns an `int`, which the
  algorithm reads as a `bool`. Below the hyperperiod it is never 0, so
  it is not a strict weak ordering and the C++ standard does not fix
  which element `min_element` returns. `MinElement` follows the usual
  linear scan, which then yields the last element of `taskNextBegin`,
  not the smallest (`MinElementPicksLast`). The scan that follows
  corrects this: the idle gap still ends at the earliest release after
  the current time (`IdleTargetIsNextRelease`). The same `nextTaskTime`
  results whichever element `min_element` returns
  (`IdleTargetWhicheverElement`).
- The preemption check (lines 115-119) shortens a chunk at the release of
  the first task in priority order that falls inside it. That is not
  necessarily the earliest release inside the chunk. So a task of shorter
  period released inside the chunk can wait until a later release cuts
  it. `PreemptionCheckStopsAtFirstInPriorityOrder` shows such a case, in
  a state that satisfies the loop invariant:
  - three tasks with periods 6, 7 and 8 and WCETs 1, 1 and 3;
  - at time 160 the period-8 task runs until 162;
  - the period-7 task is released at 161, inside that run.

  The lemma does not state that the schedule from time 0 reaches this
  state.
- A task with a WCET of 0 or less is never ready. If no task has positive
  WCET, the loop leaves through its `break` and the diagram is empty
  (`RmsTraceEmptyWithoutWork`).

## Model

| member | source | states |
|---|---|---|
| Hyperperiod.GcdOf | main.cpp:41-48 | Euclid's recursion; the gcd is 0 exactly when both inputs are 0 |
| Hyperperiod.GcdOfIsGcd | main.cpp:41-48 | Euclid's value divides both inputs, and every common divisor divides it |
| Hyperperiod.Bezout | main.cpp:41-48 | Euclid's gcd is an integer combination a*x + b*y of its inputs |
| Hyperperiod.Gcd | main.cpp:41-48 | the while loop of getGCD returns Euclid's gcd, a greatest common divisor of the inputs |
| Hyperperiod.Lcm | main.cpp:51-53 | getLCM: a * b divided by Euclid's gcd of a and b, defined when one input is non-zero |
| Hyperperiod.LcmTimesGcd | main.cpp:51-53 | the division in getLCM is exact: lcm(a, b) * gcd(a, b) == a * b |
| Hyperperiod.LcmIsCommonMultiple | main.cpp:51-53 | for positive inputs the lcm is positive and both inputs divide it |
| Hyperperiod.LcmIsLeast | main.cpp:51-53 | for positive inputs the lcm divides every common multiple of them |
| Hyperperiod.FoldLcm | main.cpp:57 | the std::accumulate fold: Lcm of the running value and each period in turn, left to right |
| Hyperperiod.HyperPeriod | main.cpp:56-58 | calcHyperPeriod: the fold of Lcm over the periods starting from 1 |
| Hyperperiod.FoldLcmIsCommonMultiple | main.cpp:56-58 | the accumulate fold is positive; the start value and every period divide it |
| Hyperperiod.FoldLcmIsLeast | main.cpp:56-58 | the fold divides every common multiple of the start value and the periods |
| Hyperperiod.HyperPeriodIsLcm | main.cpp:56-58 | the hyperperiod is 1 for no periods; it is a positive common multiple of all periods that divides every common multiple |
| Hyperperiod.HyperPeriodIsSmallest | main.cpp:56-58 | no positive common multiple of the periods is smaller than the hyperperiod |
| RateMonotonic.Iota | main.cpp:96 | iota fills 0, 1, ..., n-1 |
| RateMonotonic.InPriorityOrder | main.cpp:96-97 | a sorted index vector has one slot per task, and every task index appears in it |
| RateMonotonic.SwapWithLeft | main.cpp:97 | exchanging two neighbours changes only those two slots and keeps the multiset of indices |
| RateMonotonic.InsertByPeriod | main.cpp:97 | inserting one index into a prefix sorted by period extends the sorted prefix, keeps the multiset and leaves the slots after it untouched |
| RateMonotonic.SortByPeriod | main.cpp:97 | after the sort the periods along the index vector do not decrease, and the vector is a permutation of the input |
| RateMonotonic.PriorityOrder | main.cpp:91-97 | iota then the sort give a permutation of 0..n-1 with non-decreasing periods |
| RateMonotonic.Initial | main.cpp:92-93 | the loop starts at time 0 with vectors of one entry per task |
| RateMonotonic.InitialInv | main.cpp:92-93 | every task is released at 0 with its WCET left, which satisfies the loop invariant |
| RateMonotonic.InitialVectors | main.cpp:92-93 | taskNextBegin is all 0 and taskExecutionLeft is the WCET vector, held in two fresh arrays |
| RateMonotonic.Ready | main.cpp:111 | the test of line 111: the task has been released by the current time and has budget left |
| RateMonotonic.FirstReady | main.cpp:107-111 | the first position in priority order whose task is released and has budget left; no earlier position qualifies |
| RateMonotonic.StepRunsHighestPriorityReady | main.cpp:107-111 | the run branch is taken exactly when some task is ready; it runs the first ready task in priority order, whose period is at most that of every ready task |
| RateMonotonic.FirstReleaseInside | main.cpp:115-119 | the first position in priority order whose next release lies strictly inside (t, t + chunk); no earlier position qualifies |
| RateMonotonic.Candidate | main.cpp:114 | the initial executionTime: the smaller of the remaining budget and the time left to the task's next period boundary |
| RateMonotonic.Chunk | main.cpp:114-120 | executionTime is at least 1 and at most the remaining budget, and stops at the task's next period boundary; it is shortened only to end at a release time; when not shortened, no release falls strictly inside it |
| RateMonotonic.PreemptionCheck | main.cpp:114-120 | the truncation loop computes the chunk |
| RateMonotonic.PreemptionCheckStopsAtFirstInPriorityOrder | main.cpp:115-119 | a concrete valid state in which the chunk is cut at the first release in priority order while a shorter-period task is released earlier inside it |
| RateMonotonic.RunAfter | main.cpp:124-131 | the clock advances by the chunk and the budget drops by it; at 0 it is reset to the WCET and the release moves one period on |
| RateMonotonic.RunStepUpdatesOnlyChosenTask | main.cpp:124-131 | a run advances the clock by the chunk and lowers the chosen task's budget by it; an exhausted budget is reset to the WCET and the release moves one period on; all other tasks are untouched |
| RateMonotonic.RunTask | main.cpp:114-131 | the chosen task runs for exactly its chunk, and the vectors end as the run step leaves them |
| RateMonotonic.RunFirstReady | main.cpp:104-134 | the search loop finds a task exactly when the step is a run, and leaves the vectors as the run step does; with no ready task nothing changes |
| RateMonotonic.IdleComparator | main.cpp:138-145 | the comparator lambda read as a bool: true unless its int result, a - t for a release after t and h - t otherwise, is 0 |
| RateMonotonic.MinElement | main.cpp:138-145 | std::min_element with a comparator returns a position inside the range |
| RateMonotonic.MinElementPicksLast | main.cpp:138-145 | with the int-valued comparator and t different from the hyperperiod, min_element returns the last position |
| RateMonotonic.MinElementOf | main.cpp:138-145 | the array loop returns the position std::min_element yields |
| RateMonotonic.EarliestAfter | main.cpp:150-154 | the scan lowers the bound to a release after t; the result is at most every release after t |
| RateMonotonic.LowerToEarliestRelease | main.cpp:150-154 | the array scan returns the same value as the scan over the sequence of releases |
| RateMonotonic.IdleTargetWhicheverElement | main.cpp:138-154 | whichever position min_element returns, the cap and the scan give the same nextTaskTime as the linear-scan model |
| RateMonotonic.EarliestAfterIgnoresBound | main.cpp:150-154 | the scan ends at the same value from any start that is the hyperperiod or a release after the current time |
| RateMonotonic.IdleTarget | main.cpp:138-154 | nextTaskTime: the element min_element picks, replaced by the hyperperiod when it is not after t or equals the hyperperiod, then lowered by the scan |
| RateMonotonic.IdleTargetIsNextRelease | main.cpp:138-154 | nextTaskTime is the earliest release strictly after the current time, capped at the hyperperiod |
| RateMonotonic.NextTaskTime | main.cpp:138-154 | the min_element call, the cap and the scan compute IdleTarget |
| RateMonotonic.IdleStepJumpsToNextRelease | main.cpp:137-167 | with no ready task the loop idles up to the next release, with no release strictly inside the gap and the vectors untouched; it breaks only at time 0 |
| RateMonotonic.Step | main.cpp:103-169 | a run or an idle step moves the clock forward by a positive amount and keeps the vector shapes |
| RateMonotonic.RunStepPreservesInv | main.cpp:124-131 | a run keeps the loop invariant: the clock stays within the hyperperiod, every release stays a multiple of its period within the hyperperiod, and every budget stays in 1..WCET |
| RateMonotonic.StepPreservesInv | main.cpp:103-169 | an iteration keeps the clock within the hyperperiod, every release a multiple of its period within the hyperperiod, and every budget in 1..WCET |
| RateMonotonic.Iterate | main.cpp:103-169 | one iteration of the array loop leaves the loop, with the vectors untouched and nothing left to print, exactly when the step is a break; otherwise it prints the next segment of the diagram, moves the clock forward and leaves the vectors as the step does |
| RateMonotonic.TraceFrom | main.cpp:103-169 | every printed segment has a positive duration |
| RateMonotonic.TraceCoversRest | main.cpp:103-169 | from any state of the invariant the remaining segments add up to the time left until the hyperperiod, unless the loop breaks at time 0 with nothing printed |
| RateMonotonic.RmsTrace | main.cpp:88-171 | the whole diagram: the segments the loop prints from the initial state of lines 92-93 |
| RateMonotonic.RmsTraceCoversHyperperiod | main.cpp:88-171 | when some task has positive WCET the diagram is non-empty and its durations add up to the hyperperiod |
| RateMonotonic.RmsTraceEmptyWithoutWork | main.cpp:158-166 | when no task has positive WCET nothing is ever ready; the loop breaks at once and the diagram is empty |
| RateMonotonic.SingleTaskTrace | main.cpp:88-171 | for one task with WCET 1 and period 4 and the hyperperiod 4, the diagram is T(1), Idle(3) |
| RateMonotonic.SimulateTrace | main.cpp:92-169 | the array loop from the initial vectors prints exactly RmsTrace |
| RateMonotonic.PrintRms | main.cpp:88-171 | the chosen order is a valid priority order and the diagram is exactly RmsTrace with positive durations; with the caller's hyperperiod (line 199) it covers the hyperperiod, or is empty when no task has work |

## Left out

- Threads are not modelled. This covers `scheduleCPU`, `main`, the pthread mutex and condition variable, and the counter that orders the processors' output. None of it changes a computed value.
- Input parsing is not modelled. Tasks are named by their index, so the task names and `printTaskSchedule` are absent.
- Printing is not modelled. The `cout` text, including the separators `", "` of lines 123 and 161-163, becomes the returned segment sequence.
- `calcUtilization` and `schedule` are not modelled because they use floating point. The same goes for the verdict that decides whether `printRMS` is called at all (lines 210-219).
- Integers are unbounded. The 32-bit overflow of `a * b` in `getLCM` and of the hyperperiod for large period sets is not modelled.
- Hyperperiod.Gcd: the inputs are `nat`. C++ `%` truncates toward zero for negative operands, and that is not modelled. The fold only ever passes positive values.
- Hyperperiod.Lcm: it requires one argument to be non-zero. `getLCM(0, 0)` divides by zero, and positive periods never reach it.
- Periods must be positive (`WellFormed`). In `printRMS` a period of 0 makes `currentTime % period[i]` on line 114 undefined.
- Hyperperiod.HyperPeriod requires positive periods. In the original, one zero period makes `getLCM(acc, 0)` return `acc * 0 / acc`, which is 0, and every later `getLCM(0, p)` stays 0. A second zero period then calls `getLCM(0, 0)`, which divides by zero. With a hyperperiod of 0 the loop of line 103 never runs and the diagram is empty. None of these cases is modelled.
- RateMonotonic.PrintRms requires a non-empty task set. With no tasks, `*min_element` on line 138 dereferences the end of an empty range.
- RateMonotonic.PriorityOrder: it computes one order with a stable insertion sort. `std::sort` may order equal periods differently. Every result of the simulator is proved for every valid order, not only this one.
- RateMonotonic.PrintRms also returns the priority order its sort chose, so that its results can be stated.
