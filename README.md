# JobSchedule in Dafny

A model of `JobSchedule`, a job-precedence graph with a lazily recomputed
schedule. Jobs have fixed integer durations. An edge "job requires
prerequisite" means the job cannot start before the prerequisite has
finished. The schedule answers two queries:

- the least time in which every job can be completed;
- the earliest time a given job can start.

Both answers are cached. Adding an edge marks the cache stale. The next
query then brings it up to date in four steps:

1. it sorts the graph with Kahn's algorithm;
2. it resets the start times of the sorted jobs to 0;
3. it relaxes their outgoing edges in sorted order;
4. it scans for the completion time.

A cyclic graph makes the completion time the sticky sentinel `CYCLIC = -1`. A
job on a cycle, or downstream of one, gets `CYCLIC` as its start time.

The model is imperative, as the Java is. Jobs are numbered in the order they
are added, and each Job object is replaced by its number. The class
`JobSchedule` keeps one sequence per Job field: `time`, `outbound`,
`inDegree` and `startTime`. It also keeps the schedule's own
`minimumTime` and `changesMade`. Every loop of the source is a `while` loop
with its invariants.

Files:

- `graph.dfy` (module `Graph`). Walks and cycles. `Blocked`: a job lies on a
  cycle or downstream of one. The residual in-degree that Kahn's algorithm
  maintains. The theorem that the jobs Kahn's algorithm places are exactly
  the unblocked ones, and all jobs exactly when the graph has no cycle.
- `timing.dfy` (module `Timing`). Order-free specifications of the results:
  - `EarliestStart`: a job starts at the latest finish among its
    prerequisites, or 0;
  - `IsMakespan`: the latest finish of all jobs, or 0;
  - `StaleStart`: the start time a blocked job is left with.

  It also proves that the loop-shaped functions the methods compute meet
  these specifications.
- `job_schedule.dfy` (module `Scheduling`). The class, its invariant
  `Valid()`, and the lemmas showing that each operation preserves it.
  `Valid()` says three things:
  - a recorded cycle is real;
  - a job with a non-zero in-degree is blocked;
  - a clean cache agrees with the graph.
- `scenario.dfy` (module `Scenarios`). The two unit-test scenarios, whose
  answers follow from the operations' contracts alone.

Both queries recurse once after an update, as the Java does. The Java and
the model differ in one place: `getJob` with an index outside the schedule
throws in Java, and the model returns `None`.

## Model

| member | source | states |
|---|---|---|
| Scheduling.JobSchedule.constructor | src/JobSchedule.java:5-13 | An empty schedule with completion time 0 and a clean cache satisfies the class invariant. |
| Scheduling.JobSchedule.AddJob | src/JobSchedule.java:15-26 | Appends one job with no edges, in-degree 0 and start 0 at index old size. Leaves the dirty flag alone. Raises the completion time to t only when t is larger and the schedule is not CYCLIC. Keeps the invariant. |
| Scheduling.AddJobKeepsCoherent | src/JobSchedule.java:15-26 | Adding an isolated job keeps a clean cache clean: in-degrees, earliest starts and the completion time stay correct for the larger graph. |
| Scheduling.JobSchedule.GetJob | src/JobSchedule.java:28-33 | Gives job i exactly when 0 <= i < number of jobs, and nothing otherwise. |
| Scheduling.JobSchedule.Requires | src/JobSchedule.java:128-132 | Appends job to the prerequisite's outbound list and sets the dirty flag. Changes nothing else. Keeps the invariant. |
| Scheduling.AddEdgeKeepsCoherent | src/JobSchedule.java:128-132 | A new edge keeps every cycle and every blocked job, so a recorded CYCLIC and a non-zero in-degree stay truthful. |
| Scheduling.JobSchedule.MinCompletionTime | src/JobSchedule.java:39-48 | Returns CYCLIC exactly when the graph has a cycle. Otherwise returns the latest finish of all jobs. Leaves the cache clean unless CYCLIC was already recorded. Changes nothing when CYCLIC is recorded or the cache is clean. |
| Scheduling.JobSchedule.GetStartTime | src/JobSchedule.java:138-149 | Returns CYCLIC exactly when the job is on or downstream of a cycle. Otherwise returns the job's earliest start. Leaves the cache clean whenever the in-degree was 0, CYCLIC answers included. Changes nothing when the in-degree is non-zero or the cache is clean. |
| Scheduling.SettledInDegree | src/JobSchedule.java:140-145 | On a clean cache, a job's in-degree is 0 exactly when the job is not blocked. |
| Scheduling.RepeatedCompletionTime | src/JobSchedule.java:41-44 | Two completion-time queries with no edge added in between return the same value. |
| Scheduling.RepeatedStartTime | src/JobSchedule.java:140-145 | Two start-time queries for one job with no edge added in between return the same value. |
| Scheduling.JobSchedule.UpdateGraph | src/JobSchedule.java:50-77 | Leaves the cache clean and coherent. A recorded CYCLIC stays. Every blocked job keeps its previous start, raised by its unblocked prerequisites. |
| Scheduling.UpdateSettles | src/JobSchedule.java:54-76 | Sorting, resetting, relaxing and scanning together give each unblocked job its earliest start and the graph its completion time, or CYCLIC for a cycle. |
| Scheduling.JobSchedule.ResetStartTimes | src/JobSchedule.java:56-57 | The sorted jobs start at 0. Every other job keeps its start. |
| Scheduling.JobSchedule.RelaxInOrder | src/JobSchedule.java:58-60 | Each job ends at the larger of its start before and the latest finish among its prerequisites in the order. |
| Scheduling.RelaxStep | src/JobSchedule.java:58-60 | Relaxing the edges of the next job in a prerequisites-first order extends that invariant by one job. |
| Scheduling.JobSchedule.RelaxEdgesOf | src/JobSchedule.java:59-60 | Every job that u lists is raised to at least u's finish. No other job changes. |
| Scheduling.JobSchedule.ScanCompletionTime | src/JobSchedule.java:67-70 | The completion time becomes the fold of max from 0 over the finishes of the sorted jobs. |
| Timing.FinishMaxIsMakespan | src/JobSchedule.java:67-70 | Scanning an order holding every job yields the latest finish of all jobs, and 0 at least. |
| Timing.OrderBoundIsEarliest | src/JobSchedule.java:58-60 | Relaxing in an order that holds all of a job's prerequisites yields the job's earliest start. |
| Timing.EarliestStartUnique | src/JobSchedule.java:56-60 | Any two assignments of earliest starts agree on every job of a prerequisites-first order, so the start times are determined. |
| Timing.MakespanUnique | src/JobSchedule.java:67-70 | The completion time of an assignment of start times is unique. |
| Timing.StaleFromOrder | src/JobSchedule.java:56-60 | A job left out of the order keeps its previous start, raised to the latest finish of its unblocked prerequisites. |
| Scheduling.JobSchedule.TopologicalSort | src/JobSchedule.java:85-112 | The result has no duplicates and lists prerequisites first. It holds exactly the unblocked jobs, and has every job exactly when the graph is acyclic. Each in-degree is left counting the edges from blocked jobs. |
| Scheduling.JobSchedule.CountPrerequisites | src/JobSchedule.java:88-94 | Each in-degree becomes the number of edges into the job, counted with multiplicity. |
| Scheduling.JobSchedule.SeedSources | src/JobSchedule.java:96-100 | Lists exactly the jobs of in-degree 0, in ascending job order, without duplicates and prerequisites first. |
| Scheduling.JobSchedule.ReleaseDependents | src/JobSchedule.java:102-109 | Taking the i-th sorted job out leaves each in-degree equal to the edges from jobs not among the first i+1 sorted ones. A job is sorted exactly when its in-degree is 0. |
| Scheduling.JobSchedule.ReleaseEdgeOf | src/JobSchedule.java:105-108 | Taking one edge out lowers its target's count by one. The sorted jobs stay exactly those with in-degree 0. |
| Scheduling.JobSchedule.DropInDegree | src/JobSchedule.java:107-108 | Decrements one in-degree and appends the job when it reaches 0, keeping the list duplicate-free and prerequisites-first. |
| Graph.ReleaseEdge | src/JobSchedule.java:105-108 | The edge being taken out is still counted. When it is the last one into v, every prerequisite of v has been taken out. |
| Graph.ResidualRemoveAll | src/JobSchedule.java:104-108 | Taking a job out removes exactly its edges, with multiplicity, from every in-degree. |
| Graph.AppendReleased | src/JobSchedule.java:107-108 | A job whose prerequisites are all taken out can be appended without breaking the order. |
| Graph.DistinctBounded | src/JobSchedule.java:102 | The worklist never exceeds the number of jobs, so the loop ends. |
| Graph.KahnOutcome | src/JobSchedule.java:102-111 | A duplicate-free, prerequisites-first list whose every missing job still has an edge from a missing job holds exactly the unblocked jobs. It holds all jobs exactly when the graph has no cycle, self-loops included. |
| Graph.KahnFinished | src/JobSchedule.java:65-73 | When the sort stops, the list length equals the number of jobs exactly when the graph is acyclic, and each in-degree counts the edges from blocked jobs. |
| Graph.TopologicalOrderAcyclic | src/JobSchedule.java:65-71 | A prerequisites-first order of all jobs rules out every cycle. |
| Graph.ResidualIsBlockedEdges | src/JobSchedule.java:102-111 | Once the unblocked jobs are taken out, a residual in-degree counts exactly the edges from blocked jobs. |
| Graph.BlockedEdgesIffBlocked | src/JobSchedule.java:140-143 | That count is 0 exactly when the job is not blocked. |
| Graph.RedundantEdgeKeepsBlocked | src/JobSchedule.java:128-132 | An edge p -> v already implied by a walk from p to v changes no job's blocked status and creates no cycle, so the CYCLIC answers stay the same. |
| Timing.RedundantEdgeKeepsStarts | src/JobSchedule.java:128-132 | With non-negative durations, such an edge changes no start time: start times are earliest starts for every unblocked job after the edge exactly when they were before it. The completion time, which depends only on start times and durations, is unchanged too. |
| Graph.ExtendsKeepsBlocked | src/JobSchedule.java:41-42 | Adding edges keeps every cycle and every blocked job. |
| Graph.AppendIsolatedJob | src/JobSchedule.java:18-19 | A new job without edges neither creates a cycle nor blocks or unblocks an existing job. |
| Scenarios.SetUp | src/Tests.java:13-19 | Three jobs of durations 8, 3 and 5 and no edges, completed at time 8. |
| Scenarios.CompletionScenario | src/Tests.java:22-33 | The completion times are 8, 13, 13, 16 and CYCLIC as the four edges are added. |
| Scenarios.StartTimeScenario | src/Tests.java:36-51 | The start times are 5/0/0 after two edges, 8/5/0 after three, and CYCLIC/CYCLIC/0 once the cycle closes. |

## Left out

- Java `int` overflow in `startTime + time` and in the completion time is not modelled. Durations and times are mathematical integers.
- Negative durations are not rejected, because the source does not reject them. They have two effects. The floor of 0 from `Math.max` starting at 0 applies to start and completion times. And a redundant edge can change a start time: with edges 0 -> 1 -> 2 and durations 10, -5 and 0, the earliest starts are 0, 10 and 5, and adding the edge 0 -> 2 raises job 2 to 10.
- Timing.RedundantEdgeKeepsStarts: requires every duration to be non-negative, because of the counterexample above.
- Object identity of `Job` is not modelled. A job is its index, so neither a Job of one schedule passed to another schedule nor a `null` Job passed to `requires` (a NullPointerException at src/JobSchedule.java:130) can be expressed.
- The `ArrayList` that `topologicalSort` allocates is a `seq` that the method returns. Growing a list while iterating it by index is modelled as appending to the sequence.
- Scheduling.JobSchedule.GetJob: returns `None` for an index out of range, where Java throws `IndexOutOfBoundsException`.
- The JUnit harness is not modelled. Its two tests are methods whose postconditions fix every asserted value.
