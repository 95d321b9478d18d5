/**
 * The two scenarios of the schedule's unit tests, over three jobs of
 * durations 8, 3 and 5. Each scenario collects the answers of its queries;
 * the postcondition fixes every answer, so the answers follow from the
 * contracts of the schedule's operations alone.
 */
module Scenarios {
  import opened Graph
  import opened Timing
  import opened Scheduling

  /** Three jobs of durations 8, 3 and 5 and no edges. */
  method SetUp() returns (s: JobSchedule)
    ensures fresh(s) && s.Valid()
    ensures s.time == [8, 3, 5] && s.outbound == [[], [], []]
    ensures s.minimumTime == 8 && !s.changesMade
  {
    s := new JobSchedule();
    var j0 := s.AddJob(8);
    var j1 := s.AddJob(3);
    var j2 := s.AddJob(5);
  }

  /**
   * A settled schedule of an acyclic graph whose jobs can be listed with
   * their prerequisites first holds the one assignment of earliest starts.
   */
  lemma SettledStarts(time: seq<int>, out: Adjacency, inDegree: seq<int>, st: seq<int>, m: int,
                      order: seq<nat>, expected: seq<int>)
    requires |out| == |time| && |inDegree| == |time| && |st| == |time| && |expected| == |time|
    requires Settled(time, out, inDegree, st, m)
    requires Distinct(order) && AllBelow(order, |out|) && |order| == |out| && PrereqsFirst(out, order)
    requires forall v :: 0 <= v < |out| ==> EarliestStart(out, time, expected, v)
    ensures !HasCycle(out) && st == expected
  {
    TopologicalOrderAcyclic(out, order);
    BlockedOnlyWithCycle(out);
    EarliestStartUnique(out, time, st, expected, order);
    DistinctFull(order, |out|);
  }

  /**
   * Over three jobs, edges that only run from a higher job number to a lower
   * one allow the order 2, 1, 0, so the graph has no cycle.
   */
  lemma DescendingOrder(out: Adjacency)
    requires Descending(out)
    ensures Distinct([2, 1, 0]) && AllBelow([2, 1, 0], 3) && PrereqsFirst(out, [2, 1, 0])
    ensures !HasCycle(out)
  {
    var order: seq<nat> := [2, 1, 0];
    forall k, u | 0 <= k < 3 && 0 <= u < 3 && order[k] in out[u]
      ensures u in order[..k]
    {
      assert order[..1] == [2] && order[..2] == [2, 1];
    }
    TopologicalOrderAcyclic(out, order);
  }

  /** after is before with the edge prerequisite -> job added. */
  ghost predicate AddsEdge(before: Adjacency, after: Adjacency, job: nat, prerequisite: nat)
  {
    prerequisite < |before| && after == before[prerequisite := before[prerequisite] + [job]]
  }

  /** Over three jobs, every edge runs from a higher job number to a lower one. */
  ghost predicate Descending(out: Adjacency)
  {
    |out| == 3 && out[0] == [] && (forall x :: x in out[1] ==> x == 0) && (forall x :: x in out[2] ==> x <= 1)
  }

  /** starts are the earliest starts of the three jobs of durations 8, 3 and 5, and m their completion time. */
  ghost predicate Timed(out: Adjacency, starts: seq<int>, m: int)
    requires |out| == 3
  {
    |starts| == 3 && (forall v :: 0 <= v < 3 ==> EarliestStart(out, [8, 3, 5], starts, v)) && IsMakespan([8, 3, 5], starts, m)
  }

  /** Job 2 must precede job 0. */
  lemma FirstEdge()
    ensures AddsEdge([[], [], []], [[], [], [0]], 0, 2)
    ensures Descending([[], [], [0]]) && Timed([[], [], [0]], [5, 0, 0], 13)
  {
    assert [[], [], []][2 := [] + [0]][2] == [0];
    assert 0 in [[], [], [0]][2];
  }

  /** Job 1 must precede job 0. */
  lemma SecondEdge()
    ensures AddsEdge([[], [], [0]], [[], [0], [0]], 0, 1)
    ensures Descending([[], [0], [0]]) && Timed([[], [0], [0]], [5, 0, 0], 13)
  {
    assert [[], [], [0]][1 := [] + [0]][1] == [0];
    assert 0 in [[], [0], [0]][2];
  }

  /** Job 2 must precede job 1. */
  lemma ThirdEdge()
    ensures AddsEdge([[], [0], [0]], [[], [0], [0, 1]], 1, 2)
    ensures Descending([[], [0], [0, 1]]) && Timed([[], [0], [0, 1]], [8, 5, 0], 16)
  {
    assert [[], [0], [0]][2 := [0] + [1]][2] == [0, 1];
    assert 0 in [[], [0], [0, 1]][1];
    assert 1 in [[], [0], [0, 1]][2];
  }

  /** Job 0 must precede job 1, closing the cycle 0 -> 1 -> 0; job 2 stays free. */
  lemma FourthEdge()
    ensures AddsEdge([[], [0], [0, 1]], [[1], [0], [0, 1]], 1, 0)
    ensures HasCycle([[1], [0], [0, 1]])
    ensures Blocked([[1], [0], [0, 1]], 0) && Blocked([[1], [0], [0, 1]], 1) && !Blocked([[1], [0], [0, 1]], 2)
  {
    var out: Adjacency := [[1], [0], [0, 1]];
    assert [[], [0], [0, 1]][0 := [] + [1]][0] == [1];
    assert IsCycle(out, [0, 1, 0]);
    CycleJobBlocked(out, [0, 1, 0]);
    CycleJobBlocked(out, [1, 0, 1]);
    NoPrereqsUnblocked(out, 2);
  }

  /** Looks both jobs up by number and adds the edge prerequisite -> job to the schedule. */
  method AddEdge(s: JobSchedule, job: nat, prerequisite: nat, ghost before: Adjacency, ghost after: Adjacency)
    requires s.Valid() && s.time == [8, 3, 5] && s.outbound == before
    requires job < 3 && AddsEdge(before, after, job, prerequisite)
    modifies s
    ensures s.Valid() && s.time == [8, 3, 5] && s.outbound == after
  {
    var j := s.GetJob(job);
    var q := s.GetJob(prerequisite);
    s.Requires(j.value, q.value);
  }

  /** Asks for the completion time of an acyclic schedule whose earliest starts are known. */
  method Complete(s: JobSchedule, ghost starts: seq<int>, ghost expected: int) returns (a: int)
    requires s.Valid() && s.time == [8, 3, 5] && Descending(s.outbound) && Timed(s.outbound, starts, expected)
    modifies s
    ensures s.Valid() && s.time == [8, 3, 5] && s.outbound == old(s.outbound)
    ensures a == expected
  {
    DescendingOrder(s.outbound);
    a := s.MinCompletionTime();
    SettledStarts(s.time, s.outbound, s.inDegree, s.startTime, s.minimumTime, [2, 1, 0], starts);
    MakespanUnique(s.time, starts, a, expected);
  }

  /** The completion time as prerequisites are added one by one, until a cycle closes. */
  method CompletionScenario() returns (answers: seq<int>)
    ensures answers == [8, 13, 13, 16, CYCLIC]
  {
    var s := SetUp();
    var a0 := s.MinCompletionTime();

    FirstEdge();
    AddEdge(s, 0, 2, [[], [], []], [[], [], [0]]);
    var a1 := Complete(s, [5, 0, 0], 13);

    SecondEdge();
    AddEdge(s, 0, 1, [[], [], [0]], [[], [0], [0]]);
    var a2 := Complete(s, [5, 0, 0], 13);

    ThirdEdge();
    AddEdge(s, 1, 2, [[], [0], [0]], [[], [0], [0, 1]]);
    var a3 := Complete(s, [8, 5, 0], 16);

    FourthEdge();
    AddEdge(s, 1, 0, [[], [0], [0, 1]], [[1], [0], [0, 1]]);
    var a4 := s.MinCompletionTime();

    answers := [a0, a1, a2, a3, a4];
  }

  /** Asks for the start time of job v of an acyclic schedule whose earliest starts are known. */
  method StartOf(s: JobSchedule, v: nat, ghost starts: seq<int>, ghost m: int) returns (a: int)
    requires s.Valid() && s.time == [8, 3, 5] && Descending(s.outbound) && Timed(s.outbound, starts, m) && v < 3
    modifies s
    ensures s.Valid() && s.time == [8, 3, 5] && s.outbound == old(s.outbound)
    ensures a == starts[v]
  {
    DescendingOrder(s.outbound);
    BlockedOnlyWithCycle(s.outbound);
    a := s.GetStartTime(v);
    SettledStarts(s.time, s.outbound, s.inDegree, s.startTime, s.minimumTime, [2, 1, 0], starts);
  }

  /** Asks for the start time of each of the three jobs, on an acyclic schedule whose earliest starts are known. */
  method QueryStarts(s: JobSchedule, ghost starts: seq<int>, ghost m: int) returns (answers: seq<int>)
    requires s.Valid() && s.time == [8, 3, 5] && Descending(s.outbound) && Timed(s.outbound, starts, m)
    modifies s
    ensures s.Valid() && s.time == [8, 3, 5] && s.outbound == old(s.outbound)
    ensures answers == starts
  {
    var a0 := StartOf(s, 0, starts, m);
    var a1 := StartOf(s, 1, starts, m);
    var a2 := StartOf(s, 2, starts, m);
    answers := [a0, a1, a2];
  }

  /** Job 2, then job 1, must precede job 0: jobs 1 and 2 start at 0, job 0 once job 2 is done. */
  method StartsAfterSecondEdge(s: JobSchedule) returns (answers: seq<int>)
    requires s.Valid() && s.time == [8, 3, 5] && s.outbound == [[], [], []]
    modifies s
    ensures s.Valid() && s.time == [8, 3, 5] && s.outbound == [[], [0], [0]]
    ensures answers == [5, 0, 0]
  {
    FirstEdge();
    AddEdge(s, 0, 2, [[], [], []], [[], [], [0]]);
    SecondEdge();
    AddEdge(s, 0, 1, [[], [], [0]], [[], [0], [0]]);
    answers := QueryStarts(s, [5, 0, 0], 13);
  }

  /** Job 2 must also precede job 1: the chain 2, 1, 0 starts its jobs at 0, 5 and 8. */
  method StartsAfterThirdEdge(s: JobSchedule) returns (answers: seq<int>)
    requires s.Valid() && s.time == [8, 3, 5] && s.outbound == [[], [0], [0]]
    modifies s
    ensures s.Valid() && s.time == [8, 3, 5] && s.outbound == [[], [0], [0, 1]]
    ensures answers == [8, 5, 0]
  {
    ThirdEdge();
    AddEdge(s, 1, 2, [[], [0], [0]], [[], [0], [0, 1]]);
    answers := QueryStarts(s, [8, 5, 0], 16);
  }

  /** Job 0 must also precede job 1: jobs 0 and 1 are on a cycle and have no start time; job 2 still starts at 0. */
  method StartsAfterCycle(s: JobSchedule) returns (answers: seq<int>)
    requires s.Valid() && s.time == [8, 3, 5] && s.outbound == [[], [0], [0, 1]]
    modifies s
    ensures answers == [CYCLIC, CYCLIC, 0]
  {
    FourthEdge();
    AddEdge(s, 1, 0, [[], [0], [0, 1]], [[1], [0], [0, 1]]);
    var a0 := s.GetStartTime(0);
    var a1 := s.GetStartTime(1);
    var a2 := s.GetStartTime(2);
    answers := [a0, a1, a2];
  }

  /** The start times of all three jobs as prerequisites are added, until a cycle closes. */
  method StartTimeScenario() returns (answers: seq<int>)
    ensures answers == [5, 0, 0, 8, 5, 0, CYCLIC, CYCLIC, 0]
  {
    var s := SetUp();
    var first := StartsAfterSecondEdge(s);
    var second := StartsAfterThirdEdge(s);
    var third := StartsAfterCycle(s);
    answers := first + second + third;
  }
}
