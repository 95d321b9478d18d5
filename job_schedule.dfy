/**
 * A schedule of jobs with durations and precedence constraints.
 *
 * Jobs are numbered in the order they are added; the Job objects of the
 * schedule are modelled by these numbers, and each job's fields (duration,
 * outbound list, in-degree, start time) by the entry at that number in one
 * sequence per field. The schedule answers two queries: the least time in
 * which every job can be completed, and the earliest time a given job can
 * start. Both answers are cached: adding an edge marks the cache stale, and
 * the next query re-sorts the graph (Kahn's algorithm), relaxes the start
 * times in topological order and recomputes the completion time. A cyclic
 * graph is reported with CYCLIC, and so is every job on or downstream of a
 * cycle.
 */
module Scheduling {
  import opened Graph
  import opened Timing

  /** The answer for a cyclic schedule or a job that cannot be scheduled. */
  const CYCLIC: int := -1

  datatype Option<T> = None | Some(value: T)

  /**
   * The cached answers agree with the graph: each in-degree counts the edges
   * from blocked jobs, each unblocked job has its earliest start, and the
   * completion time is CYCLIC for a cyclic graph and the latest finish
   * otherwise.
   */
  ghost predicate Settled(time: seq<int>, out: Adjacency, inDegree: seq<int>, st: seq<int>, m: int)
    requires |out| == |time| && |inDegree| == |time| && |st| == |time|
  {
    && (forall v :: 0 <= v < |out| ==> inDegree[v] == BlockedEdges(out, v, |out|))
    && (forall v :: 0 <= v < |out| && !Blocked(out, v) ==> EarliestStart(out, time, st, v))
    && (if HasCycle(out) then m == CYCLIC else IsMakespan(time, st, m))
  }

  /**
   * What holds of a schedule between operations. Whether or not the cache is
   * stale, a recorded cycle is real, and a job with a non-zero in-degree is
   * blocked: edges are only ever added, so neither can be undone.
   */
  ghost predicate Coherent(time: seq<int>, out: Adjacency, inDegree: seq<int>, st: seq<int>, m: int, changesMade: bool)
  {
    && |out| == |time| && |inDegree| == |time| && |st| == |time|
    && WellFormed(out)
    && (m == CYCLIC || 0 <= m)
    && (m == CYCLIC ==> HasCycle(out))
    && (forall v :: 0 <= v < |st| ==> 0 <= st[v])
    && (forall v :: 0 <= v < |out| && inDegree[v] != 0 ==> Blocked(out, v))
    && (!changesMade ==> Settled(time, out, inDegree, st, m))
  }

  /** A settled schedule answers a job's query from its in-degree alone. */
  lemma SettledInDegree(time: seq<int>, out: Adjacency, inDegree: seq<int>, st: seq<int>, m: int, v: nat)
    requires |out| == |time| && |inDegree| == |time| && |st| == |time| && v < |out|
    requires Settled(time, out, inDegree, st, m)
    ensures inDegree[v] == 0 <==> !Blocked(out, v)
  {
    BlockedEdgesIffBlocked(out, v);
  }

  /**
   * Adding a job keeps the cache coherent: the new job has no edges, starts
   * at 0, and raises the completion time to its own duration at most.
   */
  lemma AddJobKeepsCoherent(time: seq<int>, out: Adjacency, inDegree: seq<int>, st: seq<int>, m: int, changesMade: bool, t: int)
    requires Coherent(time, out, inDegree, st, m, changesMade)
    ensures Coherent(time + [t], out + [[]], inDegree + [0], st + [0],
                     if m != CYCLIC && t > m then t else m, changesMade)
  {
    var n := |out|;
    var time', out', inDegree', st' := time + [t], out + [[]], inDegree + [0], st + [0];
    var m' := if m != CYCLIC && t > m then t else m;
    AppendIsolatedJob(out);
    forall v | 0 <= v < n + 1 && inDegree'[v] != 0
      ensures Blocked(out', v)
    {
      assert inDegree'[v] == inDegree[v];
    }
    if !changesMade {
      forall v | 0 <= v < n + 1
        ensures inDegree'[v] == BlockedEdges(out', v, n + 1)
      {
        BlockedEdgesAfterAppend(out, v);
        if v == n {
          BlockedEdgesIffBlocked(out', v);
        }
      }
      forall v | 0 <= v < n + 1 && !Blocked(out', v)
        ensures EarliestStart(out', time', st', v)
      {
        if v < n {
          assert EarliestStart(out, time, st, v);
          assert forall p :: 0 <= p < n ==> out'[p] == out[p] && st'[p] == st[p] && time'[p] == time[p];
          assert v !in out'[n];
          if st[v] != 0 {
            var p :| 0 <= p < n && v in out[p] && st[v] == st[p] + time[p];
            assert v in out'[p] && st'[v] == st'[p] + time'[p];
          }
        } else {
          forall p | 0 <= p < n + 1
            ensures v !in out'[p]
          {
            if p < n {
              assert out'[p] == out[p];
            }
          }
        }
      }
      if !HasCycle(out) {
        assert IsMakespan(time, st, m);
        assert st'[n] + time'[n] == t;
        assert forall j :: 0 <= j < n ==> st'[j] + time'[j] == st[j] + time[j];
      }
    }
  }

  /**
   * Adding the edge prerequisite -> job keeps the stale cache coherent:
   * every recorded cycle and every blocked job survives the new edge.
   */
  lemma AddEdgeKeepsCoherent(time: seq<int>, out: Adjacency, inDegree: seq<int>, st: seq<int>, m: int, changesMade: bool, job: nat, prerequisite: nat)
    requires Coherent(time, out, inDegree, st, m, changesMade)
    requires job < |out| && prerequisite < |out|
    ensures Coherent(time, out[prerequisite := out[prerequisite] + [job]], inDegree, st, m, true)
  {
    var out' := out[prerequisite := out[prerequisite] + [job]];
    assert Extends(out, out');
    ExtendsKeepsBlocked(out, out');
  }

  /**
   * The relaxation invariant: every job w starts at the larger of its start
   * before relaxation and the latest finish among its prerequisites in order.
   */
  ghost predicate StartsAfter(out: Adjacency, time: seq<int>, base: seq<int>, st: seq<int>, order: seq<nat>)
    requires |time| == |out| && |base| == |out| && |st| == |out| && AllBelow(order, |out|)
  {
    forall w :: 0 <= w < |out| ==> st[w] == Max(base[w], OrderBound(out, time, st, w, order))
  }

  /** Relaxing the edges of u, which lists neither itself nor a job of order, extends the invariant to u. */
  lemma RelaxStep(out: Adjacency, time: seq<int>, base: seq<int>, st0: seq<int>, st1: seq<int>, order: seq<nat>, u: nat)
    requires |time| == |out| && |base| == |out| && |st0| == |out| && |st1| == |out|
    requires AllBelow(order, |out|) && u < |out|
    requires StartsAfter(out, time, base, st0, order)
    requires u !in out[u] && forall j :: 0 <= j < |order| ==> order[j] !in out[u]
    requires forall w :: 0 <= w < |out| ==>
               st1[w] == if w in out[u] then Max(st0[w], st0[u] + time[u]) else st0[w]
    ensures StartsAfter(out, time, base, st1, order + [u])
  {
    var order' := order + [u];
    assert order'[..|order'| - 1] == order;
    forall w | 0 <= w < |out|
      ensures st1[w] == Max(base[w], OrderBound(out, time, st1, w, order'))
    {
      OrderBoundFrame(out, time, st0, st1, w, order);
      OrderBoundBounds(out, time, st0, w, order);
    }
  }

  /**
   * What a graph update leaves behind: with the order found by the sort,
   * start times relaxed from base (0 for placed jobs, the previous start
   * otherwise) and the completion time scanned or set to CYCLIC, the cache
   * is settled, and every blocked job keeps its stale start.
   */
  lemma UpdateSettles(time: seq<int>, out: Adjacency, inDegree: seq<int>, prev: seq<int>, base: seq<int>, st: seq<int>,
                      m0: int, m: int, sorted: seq<nat>)
    requires |out| == |time| && |inDegree| == |time| && |prev| == |time| && |base| == |time| && |st| == |time|
    requires WellFormed(out) && (m0 == CYCLIC || 0 <= m0) && (m0 == CYCLIC ==> HasCycle(out))
    requires forall v :: 0 <= v < |prev| ==> 0 <= prev[v]
    requires Distinct(sorted) && AllBelow(sorted, |out|) && PrereqsFirst(out, sorted)
    requires forall v: nat :: v < |out| ==> (v in sorted <==> !Blocked(out, v))
    requires |sorted| == |out| <==> !HasCycle(out)
    requires forall v :: 0 <= v < |out| ==> inDegree[v] == BlockedEdges(out, v, |out|)
    requires forall w :: 0 <= w < |out| ==> base[w] == if w in sorted then 0 else prev[w]
    requires StartsAfter(out, time, base, st, sorted)
    requires m0 == CYCLIC ==> m == CYCLIC
    requires m0 != CYCLIC ==> m == if |sorted| == |out| then FinishMax(time, st, sorted) else CYCLIC
    ensures Coherent(time, out, inDegree, st, m, false)
    ensures forall v :: 0 <= v < |out| && Blocked(out, v) ==> StaleStart(out, time, prev, st, v)
  {
    forall v | 0 <= v < |out|
      ensures 0 <= st[v]
      ensures !Blocked(out, v) ==> EarliestStart(out, time, st, v)
      ensures Blocked(out, v) ==> StaleStart(out, time, prev, st, v)
    {
      OrderBoundBounds(out, time, st, v, sorted);
      if Blocked(out, v) {
        StaleFromOrder(out, time, prev, st, v, sorted);
      } else {
        forall p | 0 <= p < |out| && v in out[p]
          ensures p in sorted
        {
          var a :| 0 <= a < |sorted| && sorted[a] == v;
          assert p in sorted[..a];
        }
        OrderBoundIsEarliest(out, time, st, v, sorted);
      }
    }
    forall v | 0 <= v < |out| && inDegree[v] != 0
      ensures Blocked(out, v)
    {
      BlockedEdgesIffBlocked(out, v);
    }
    if !HasCycle(out) {
      DistinctFull(sorted, |out|);
      FinishMaxIsMakespan(time, st, sorted);
    }
  }

  class JobSchedule {
    /** time[j] is the duration of job j. */
    var time: seq<int>
    /** outbound[j] lists the jobs that require job j. */
    var outbound: seq<seq<nat>>
    /** The in-degree each job was left with by the last sort. */
    var inDegree: seq<int>
    /** The start time each job was given by the last update. */
    var startTime: seq<int>
    /** The cached completion time, or CYCLIC. */
    var minimumTime: int
    /** Whether an edge was added since the last update. */
    var changesMade: bool

    ghost predicate Valid()
      reads this
    {
      Coherent(time, outbound, inDegree, startTime, minimumTime, changesMade)
    }

    /** An empty schedule, completed at time 0. */
    constructor ()
      ensures Valid()
      ensures time == [] && outbound == [] && inDegree == [] && startTime == []
      ensures minimumTime == 0 && !changesMade
    {
      time := [];
      outbound := [];
      inDegree := [];
      startTime := [];
      minimumTime := 0;
      changesMade := false;
      TopologicalOrderAcyclic([], []);
    }

    /**
     * Adds a job of duration t and returns its number. The new job has no
     * edges, so a clean cache stays clean: the completion time rises to t
     * when t is larger, unless the schedule is already cyclic.
     */
    method AddJob(t: int) returns (j: nat)
      requires Valid()
      modifies this
      ensures Valid()
      ensures j == old(|time|)
      ensures time == old(time) + [t] && outbound == old(outbound) + [[]]
      ensures inDegree == old(inDegree) + [0] && startTime == old(startTime) + [0]
      ensures changesMade == old(changesMade)
      ensures minimumTime == if old(minimumTime) != CYCLIC && t > old(minimumTime) then t else old(minimumTime)
    {
      AddJobKeepsCoherent(time, outbound, inDegree, startTime, minimumTime, changesMade, t);
      j := |time|;
      time := time + [t];
      outbound := outbound + [[]];
      inDegree := inDegree + [0];
      startTime := startTime + [0];
      if minimumTime != CYCLIC && t > minimumTime {
        minimumTime := t;
      }
    }

    /** The job numbered i; an index outside the schedule gives None. */
    method GetJob(i: int) returns (r: Option<nat>)
      ensures r.Some? <==> 0 <= i < |time|
      ensures r.Some? ==> r.value == i
    {
      if 0 <= i < |time| {
        r := Some(i);
      } else {
        r := None;
      }
    }

    /** Records that job cannot start before prerequisite has finished. */
    method Requires(job: nat, prerequisite: nat)
      requires Valid() && job < |time| && prerequisite < |time|
      modifies this`outbound, this`changesMade
      ensures Valid() && changesMade
      ensures outbound == old(outbound)[prerequisite := old(outbound)[prerequisite] + [job]]
    {
      AddEdgeKeepsCoherent(time, outbound, inDegree, startTime, minimumTime, changesMade, job, prerequisite);
      outbound := outbound[prerequisite := outbound[prerequisite] + [job]];
      changesMade := true;
    }

    /**
     * The least time in which every job can be completed: CYCLIC exactly
     * when the graph has a cycle, and otherwise the latest finish over all
     * jobs. A recorded cycle or a clean cache is answered without an update.
     */
    method MinCompletionTime() returns (r: int)
      requires Valid()
      modifies this`inDegree, this`startTime, this`minimumTime, this`changesMade
      ensures Valid() && r == minimumTime
      ensures r == CYCLIC <==> HasCycle(outbound)
      ensures r != CYCLIC ==> !changesMade && IsMakespan(time, startTime, r)
      ensures old(minimumTime) != CYCLIC ==> !changesMade
      ensures old(minimumTime) == CYCLIC || !old(changesMade) ==> unchanged(this)
      decreases if minimumTime == CYCLIC || !changesMade then 0 else 1
    {
      if minimumTime == CYCLIC || !changesMade {
        return minimumTime;
      }
      UpdateGraph();
      r := MinCompletionTime();
    }

    /**
     * The earliest time job can start: CYCLIC exactly when job is on or
     * downstream of a cycle, and otherwise the latest finish among its
     * prerequisites. A non-zero in-degree or a clean cache is answered
     * without an update.
     */
    method GetStartTime(job: nat) returns (r: int)
      requires Valid() && job < |time|
      modifies this`inDegree, this`startTime, this`minimumTime, this`changesMade
      ensures Valid()
      ensures r == CYCLIC <==> Blocked(outbound, job)
      ensures r != CYCLIC ==> !changesMade && r == startTime[job] && EarliestStart(outbound, time, startTime, job)
      ensures old(inDegree[job]) == 0 ==> !changesMade
      ensures old(inDegree[job]) != 0 || !old(changesMade) ==> unchanged(this)
      decreases if inDegree[job] != 0 || !changesMade then 0 else 1
    {
      if inDegree[job] != 0 {
        return CYCLIC;
      }
      if !changesMade {
        SettledInDegree(time, outbound, inDegree, startTime, minimumTime, job);
        return startTime[job];
      }
      UpdateGraph();
      r := GetStartTime(job);
    }

    /**
     * Brings the cache up to date: sorts the graph, relaxes the start times
     * of the placed jobs in topological order and, unless a cycle was
     * recorded before, recomputes the completion time.
     */
    method UpdateGraph()
      requires Valid()
      modifies this`inDegree, this`startTime, this`minimumTime, this`changesMade
      ensures Valid() && !changesMade
      ensures old(minimumTime) == CYCLIC ==> minimumTime == CYCLIC
      ensures forall v :: 0 <= v < |time| && Blocked(outbound, v) ==> StaleStart(outbound, time, old(startTime), startTime, v)
    {
      var sorted := TopologicalSort();
      ghost var prev := startTime;
      ghost var m0 := minimumTime;
      ResetStartTimes(sorted);
      ghost var base := startTime;
      RelaxInOrder(sorted);

      // once cyclic, always cyclic; otherwise the latest finish, or CYCLIC for a cycle
      if minimumTime != CYCLIC {
        if |time| == |sorted| {
          ScanCompletionTime(sorted);
        } else {
          minimumTime := CYCLIC;
        }
      }
      changesMade := false;
      UpdateSettles(time, outbound, inDegree, prev, base, startTime, m0, minimumTime, sorted);
    }

    /** Sets the completion time to the latest finish among the jobs of sorted, and to at least 0. */
    method ScanCompletionTime(sorted: seq<nat>)
      requires |startTime| == |time| && AllBelow(sorted, |time|)
      modifies this`minimumTime
      ensures minimumTime == FinishMax(time, startTime, sorted)
    {
      minimumTime := 0;
      var k := 0;
      while k < |sorted|
        invariant 0 <= k <= |sorted|
        invariant minimumTime == FinishMax(time, startTime, sorted[..k])
      {
        assert sorted[..k + 1][..k] == sorted[..k];
        minimumTime := Max(minimumTime, startTime[sorted[k]] + time[sorted[k]]);
        k := k + 1;
      }
      assert sorted[..k] == sorted;
    }

    /** Starts every job of sorted at 0; the other jobs keep their start times. */
    method ResetStartTimes(sorted: seq<nat>)
      requires |startTime| == |time| && AllBelow(sorted, |time|)
      modifies this`startTime
      ensures |startTime| == |time|
      ensures forall w :: 0 <= w < |time| ==> startTime[w] == if w in sorted then 0 else old(startTime)[w]
    {
      var k := 0;
      while k < |sorted|
        invariant 0 <= k <= |sorted| && |startTime| == |time|
        invariant forall w :: 0 <= w < |time| ==> startTime[w] == if w in sorted[..k] then 0 else old(startTime)[w]
      {
        assert sorted[..k + 1] == sorted[..k] + [sorted[k]];
        startTime := startTime[sorted[k] := 0];
        k := k + 1;
      }
      assert sorted[..k] == sorted;
    }

    /**
     * Relaxes the edges of the jobs of sorted, one job after the other:
     * afterwards each job starts at the larger of its start before and the
     * latest finish among its prerequisites in sorted.
     */
    method RelaxInOrder(sorted: seq<nat>)
      requires |outbound| == |time| && |startTime| == |time| && WellFormed(outbound)
      requires Distinct(sorted) && AllBelow(sorted, |time|) && PrereqsFirst(outbound, sorted)
      requires forall w :: 0 <= w < |time| ==> 0 <= startTime[w]
      modifies this`startTime
      ensures |startTime| == |time|
      ensures StartsAfter(outbound, time, old(startTime), startTime, sorted)
    {
      var k := 0;
      while k < |sorted|
        invariant 0 <= k <= |sorted| && |startTime| == |time|
        invariant StartsAfter(outbound, time, old(startTime), startTime, sorted[..k])
      {
        var u := sorted[k];
        ghost var st0 := startTime;
        OrderedEdgesForward(outbound, sorted, k);
        RelaxEdgesOf(u);
        assert sorted[..k + 1] == sorted[..k] + [u];
        RelaxStep(outbound, time, old(startTime), st0, startTime, sorted[..k], u);
        k := k + 1;
      }
      assert sorted[..k] == sorted;
    }

    /** Raises the start of every job that requires u to at least the finish of u. */
    method RelaxEdgesOf(u: nat)
      requires |outbound| == |time| && |startTime| == |time| && WellFormed(outbound)
      requires u < |time| && u !in outbound[u]
      modifies this`startTime
      ensures |startTime| == |time|
      ensures forall w :: 0 <= w < |time| ==>
                startTime[w] == if w in outbound[u] then Max(old(startTime)[w], old(startTime)[u] + time[u]) else old(startTime)[w]
    {
      var e := 0;
      while e < |outbound[u]|
        invariant 0 <= e <= |outbound[u]| && |startTime| == |time|
        invariant forall w :: 0 <= w < |time| ==>
                    startTime[w] == if w in outbound[u][..e] then Max(old(startTime)[w], old(startTime)[u] + time[u]) else old(startTime)[w]
      {
        var v := outbound[u][e];
        assert outbound[u][..e + 1] == outbound[u][..e] + [v];
        startTime := startTime[v := Max(startTime[v], startTime[u] + time[u])];
        e := e + 1;
      }
      assert outbound[u][..e] == outbound[u];
    }

    /**
     * Kahn's algorithm over the whole schedule. The jobs it returns are
     * listed with their prerequisites first; they are exactly the jobs not
     * on or downstream of a cycle, so they are all the jobs exactly when the
     * graph is acyclic. Each in-degree is left counting the edges from
     * blocked jobs.
     */
    method TopologicalSort() returns (sorted: seq<nat>)
      requires |inDegree| == |outbound| && WellFormed(outbound)
      modifies this`inDegree
      ensures |inDegree| == |outbound|
      ensures Distinct(sorted) && AllBelow(sorted, |outbound|) && PrereqsFirst(outbound, sorted)
      ensures forall v: nat :: v < |outbound| ==> (v in sorted <==> !Blocked(outbound, v))
      ensures |sorted| == |outbound| <==> !HasCycle(outbound)
      ensures forall v :: 0 <= v < |outbound| ==> inDegree[v] == BlockedEdges(outbound, v, |outbound|)
    {
      var n := |outbound|;
      CountPrerequisites();

      // the jobs without prerequisites come first
      sorted := SeedSources();
      DistinctBounded(sorted, n);

      // take each placed job out of the graph in turn
      var i := 0;
      while i < |sorted|
        invariant 0 <= i <= |sorted| <= n && |inDegree| == n
        invariant Distinct(sorted) && AllBelow(sorted, n) && PrereqsFirst(outbound, sorted)
        invariant forall v :: 0 <= v < n ==> inDegree[v] == Residual(outbound, v, sorted[..i], n)
        invariant forall v :: 0 <= v < n ==> (v in sorted <==> inDegree[v] == 0)
        decreases n - i
      {
        sorted := ReleaseDependents(sorted, i);
        i := i + 1;
      }
      assert sorted[..i] == sorted;
      KahnFinished(outbound, inDegree, sorted);
    }

    /** Lists, in job order, the jobs without prerequisites. */
    method SeedSources() returns (sorted: seq<nat>)
      requires |inDegree| == |outbound|
      requires forall v :: 0 <= v < |outbound| ==> inDegree[v] == Residual(outbound, v, [], |outbound|)
      ensures Distinct(sorted) && AllBelow(sorted, |outbound|) && PrereqsFirst(outbound, sorted)
      ensures forall a, b :: 0 <= a < b < |sorted| ==> sorted[a] < sorted[b]
      ensures forall v :: 0 <= v < |outbound| ==> (v in sorted <==> inDegree[v] == 0)
    {
      var n := |outbound|;
      sorted := [];
      var u := 0;
      while u < n
        invariant 0 <= u <= n
        invariant Distinct(sorted) && AllBelow(sorted, u) && PrereqsFirst(outbound, sorted)
        invariant forall a, b :: 0 <= a < b < |sorted| ==> sorted[a] < sorted[b]
        invariant forall v :: 0 <= v < n ==> (v in sorted <==> v < u && inDegree[v] == 0)
      {
        if inDegree[u] == 0 {
          ResidualZero(outbound, u, [], n);
          PrereqsFirstAppend(outbound, sorted, u);
          sorted := sorted + [u];
        }
        u := u + 1;
      }
    }

    /** Sets every in-degree to the number of edges into the job, counted with multiplicity. */
    method CountPrerequisites()
      requires |inDegree| == |outbound| && WellFormed(outbound)
      modifies this`inDegree
      ensures |inDegree| == |outbound|
      ensures forall v :: 0 <= v < |outbound| ==> inDegree[v] == Residual(outbound, v, [], |outbound|)
    {
      var n := |outbound|;
      var u := 0;
      while u < n
        invariant 0 <= u <= n && |inDegree| == n
        invariant forall v :: 0 <= v < u ==> inDegree[v] == 0
      {
        inDegree := inDegree[u := 0];
        u := u + 1;
      }
      u := 0;
      while u < n
        invariant 0 <= u <= n && |inDegree| == n
        invariant forall v :: 0 <= v < n ==> inDegree[v] == Residual(outbound, v, [], u)
      {
        var e := 0;
        while e < |outbound[u]|
          invariant 0 <= e <= |outbound[u]| && |inDegree| == n
          invariant forall v :: 0 <= v < n ==> inDegree[v] == Residual(outbound, v, [], u) + Count(outbound[u][..e], v)
        {
          var v := outbound[u][e];
          assert outbound[u][..e + 1] == outbound[u][..e] + [v];
          inDegree := inDegree[v := inDegree[v] + 1];
          e := e + 1;
        }
        assert outbound[u][..e] == outbound[u];
        u := u + 1;
      }
    }

    /**
     * Takes the i-th placed job u out of the graph: each job u lists loses
     * one from its in-degree per edge, and is placed as soon as its in-degree
     * reaches 0, that is, once its last prerequisite has been taken out.
     */
    method ReleaseDependents(sorted: seq<nat>, i: nat) returns (sorted': seq<nat>)
      requires |inDegree| == |outbound| && WellFormed(outbound)
      requires i < |sorted| <= |outbound|
      requires Distinct(sorted) && AllBelow(sorted, |outbound|) && PrereqsFirst(outbound, sorted)
      requires forall v :: 0 <= v < |outbound| ==> inDegree[v] == Residual(outbound, v, sorted[..i], |outbound|)
      requires forall v :: 0 <= v < |outbound| ==> (v in sorted <==> inDegree[v] == 0)
      modifies this`inDegree
      ensures |inDegree| == |outbound| && |sorted| <= |sorted'| <= |outbound| && sorted'[..|sorted|] == sorted
      ensures Distinct(sorted') && AllBelow(sorted', |outbound|) && PrereqsFirst(outbound, sorted')
      ensures forall v :: 0 <= v < |outbound| ==> inDegree[v] == Residual(outbound, v, sorted'[..i + 1], |outbound|)
      ensures forall v :: 0 <= v < |outbound| ==> (v in sorted' <==> inDegree[v] == 0)
    {
      var n := |outbound|;
      var u := sorted[i];
      ghost var done := sorted[..i];
      assert sorted[..i + 1] == done + [u];
      DistinctPrefix(sorted, i);
      sorted' := sorted;
      var e := 0;
      while e < |outbound[u]|
        invariant 0 <= e <= |outbound[u]| && |inDegree| == n
        invariant |sorted| <= |sorted'| <= n && sorted'[..|sorted|] == sorted && sorted'[..i + 1] == done + [u]
        invariant Distinct(sorted') && AllBelow(sorted', n) && PrereqsFirst(outbound, sorted')
        invariant forall v :: 0 <= v < n ==> inDegree[v] + Count(outbound[u][..e], v) == Residual(outbound, v, done, n)
        invariant forall v :: 0 <= v < n ==> (v in sorted' <==> inDegree[v] == 0)
      {
        sorted' := ReleaseEdgeOf(sorted, sorted', i, done, u, e);
        e := e + 1;
      }
      assert outbound[u][..e] == outbound[u];
      ResidualRemoveAll(outbound, done, u);
    }

    /**
     * Takes the e-th edge of u out: its target loses one from its in-degree
     * and is placed when that reaches 0.
     */
    method ReleaseEdgeOf(sorted0: seq<nat>, sorted: seq<nat>, ghost i: nat, ghost done: seq<nat>, u: nat, e: nat)
      returns (sorted': seq<nat>)
      requires |inDegree| == |outbound| && WellFormed(outbound) && u < |outbound| && e < |outbound[u]|
      requires i < |sorted0| <= |sorted| <= |outbound| && sorted[..|sorted0|] == sorted0
      requires sorted[..i + 1] == done + [u] && u !in done
      requires Distinct(sorted) && AllBelow(sorted, |outbound|) && PrereqsFirst(outbound, sorted)
      requires forall v :: 0 <= v < |outbound| ==> inDegree[v] + Count(outbound[u][..e], v) == Residual(outbound, v, done, |outbound|)
      requires forall v :: 0 <= v < |outbound| ==> (v in sorted <==> inDegree[v] == 0)
      modifies this`inDegree
      ensures |inDegree| == |outbound| && |sorted| <= |sorted'| <= |outbound|
      ensures sorted'[..|sorted0|] == sorted0 && sorted'[..i + 1] == done + [u]
      ensures Distinct(sorted') && AllBelow(sorted', |outbound|) && PrereqsFirst(outbound, sorted')
      ensures forall v :: 0 <= v < |outbound| ==> inDegree[v] + Count(outbound[u][..e + 1], v) == Residual(outbound, v, done, |outbound|)
      ensures forall v :: 0 <= v < |outbound| ==> (v in sorted' <==> inDegree[v] == 0)
    {
      var v := outbound[u][e];
      ReleaseEdge(outbound, v, done, u, e);
      CountStep(outbound[u], e);
      sorted' := DropInDegree(v, sorted, i, done, u, e);
      assert sorted'[..|sorted|] == sorted;
      assert sorted'[..|sorted0|] == sorted[..|sorted0|];
    }

    /** Decrements the in-degree of v, the target of u's e-th edge, and places v when it reaches 0. */
    method DropInDegree(v: nat, sorted: seq<nat>, ghost i: nat, ghost done: seq<nat>, ghost u: nat, ghost e: nat)
      returns (sorted': seq<nat>)
      requires |inDegree| == |outbound| && v < |outbound| && u < |outbound| && e < |outbound[u]| && outbound[u][e] == v
      requires i < |sorted| <= |outbound| && sorted[..i + 1] == done + [u]
      requires Distinct(sorted) && AllBelow(sorted, |outbound|) && PrereqsFirst(outbound, sorted)
      requires Count(outbound[u][..e], v) < Residual(outbound, v, done, |outbound|)
      requires Residual(outbound, v, done, |outbound|) == Count(outbound[u][..e + 1], v) ==>
                 forall p :: 0 <= p < |outbound| && v in outbound[p] ==> p in done || p == u
      requires inDegree[v] + Count(outbound[u][..e], v) == Residual(outbound, v, done, |outbound|)
      requires Count(outbound[u][..e + 1], v) == Count(outbound[u][..e], v) + 1
      requires forall x :: 0 <= x < |outbound| ==> (x in sorted <==> inDegree[x] == 0)
      modifies this`inDegree
      ensures |inDegree| == |outbound| && inDegree == old(inDegree)[v := old(inDegree)[v] - 1]
      ensures |sorted| <= |sorted'| <= |outbound| && sorted'[..|sorted|] == sorted && sorted'[..i + 1] == done + [u]
      ensures Distinct(sorted') && AllBelow(sorted', |outbound|) && PrereqsFirst(outbound, sorted')
      ensures forall x :: 0 <= x < |outbound| ==> (x in sorted' <==> inDegree[x] == 0)
    {
      sorted' := sorted;
      inDegree := inDegree[v := inDegree[v] - 1];
      if inDegree[v] == 0 {
        AppendReleased(outbound, sorted, i, v);
        sorted' := sorted + [v];
      }
    }
  }

  /** Two completion-time queries with no edge added in between give the same answer. */
  method RepeatedCompletionTime(s: JobSchedule) returns (r1: int, r2: int)
    requires s.Valid()
    modifies s
    ensures r1 == r2
  {
    r1 := s.MinCompletionTime();
    r2 := s.MinCompletionTime();
  }

  /** Two start-time queries for the same job with no edge added in between give the same answer. */
  method RepeatedStartTime(s: JobSchedule, job: nat) returns (r1: int, r2: int)
    requires s.Valid() && job < |s.time|
    modifies s
    ensures r1 == r2
  {
    r1 := s.GetStartTime(job);
    r2 := s.GetStartTime(job);
  }
}
