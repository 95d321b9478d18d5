/**
 * Start times and completion time of a schedule.
 *
 * The schedule derives each job's start time by relaxing edges in
 * topological order, starting every placed job at 0, and the completion time
 * as the largest start + duration, again starting from 0. The predicates
 * below say what those values are, independently of the order: the start
 * time of a job is the latest finish among its prerequisites (0 when it has
 * none), and the completion time is the latest finish of any job.
 */
module Timing {
  import opened Graph

  function Max(a: int, b: int): int
  {
    if a < b then b else a
  }

  /**
   * st[v] is the largest st[p] + time[p] over the prerequisites p of v, or 0
   * when v has none or all of those are negative.
   */
  ghost predicate EarliestStart(out: Adjacency, time: seq<int>, st: seq<int>, v: nat)
    requires |time| == |out| && |st| == |out| && v < |out|
  {
    && 0 <= st[v]
    && (forall p :: 0 <= p < |out| && v in out[p] ==> st[p] + time[p] <= st[v])
    && (st[v] == 0 || exists p :: 0 <= p < |out| && v in out[p] && st[v] == st[p] + time[p])
  }

  /** m is the largest st[j] + time[j] over all jobs j, or 0 when that is larger or there are none. */
  ghost predicate IsMakespan(time: seq<int>, st: seq<int>, m: int)
    requires |st| == |time|
  {
    && 0 <= m
    && (forall j :: 0 <= j < |time| ==> st[j] + time[j] <= m)
    && (m == 0 || exists j :: 0 <= j < |time| && m == st[j] + time[j])
  }

  /**
   * The start time a blocked job v is left with: its previous start time,
   * raised to the latest finish among its unblocked prerequisites.
   */
  ghost predicate StaleStart(out: Adjacency, time: seq<int>, prev: seq<int>, st: seq<int>, v: nat)
    requires |time| == |out| && |prev| == |out| && |st| == |out| && v < |out|
  {
    && prev[v] <= st[v]
    && (forall p :: 0 <= p < |out| && v in out[p] && !Blocked(out, p) ==> st[p] + time[p] <= st[v])
    && (st[v] == prev[v] || exists p :: 0 <= p < |out| && v in out[p] && !Blocked(out, p) && st[v] == st[p] + time[p])
  }

  /**
   * The start time v gets from relaxing the edges of the jobs of order, one
   * job after the other, starting from 0.
   */
  function OrderBound(out: Adjacency, time: seq<int>, st: seq<int>, v: nat, order: seq<nat>): int
    requires |time| == |out| && |st| == |out| && AllBelow(order, |out|)
  {
    if order == [] then 0
    else
      var p := order[|order| - 1];
      Max(OrderBound(out, time, st, v, order[..|order| - 1]), if v in out[p] then st[p] + time[p] else 0)
  }

  /** The completion time found by scanning the jobs of order, starting from 0. */
  function FinishMax(time: seq<int>, st: seq<int>, order: seq<nat>): int
    requires |st| == |time| && AllBelow(order, |time|)
  {
    if order == [] then 0
    else
      var j := order[|order| - 1];
      Max(FinishMax(time, st, order[..|order| - 1]), st[j] + time[j])
  }

  /** Relaxing edges in order yields the largest finish among the prerequisites met in order. */
  lemma {:induction false} OrderBoundBounds(out: Adjacency, time: seq<int>, st: seq<int>, v: nat, order: seq<nat>)
    requires |time| == |out| && |st| == |out| && AllBelow(order, |out|)
    ensures 0 <= OrderBound(out, time, st, v, order)
    ensures forall k :: 0 <= k < |order| && v in out[order[k]] ==>
              st[order[k]] + time[order[k]] <= OrderBound(out, time, st, v, order)
    ensures OrderBound(out, time, st, v, order) == 0 ||
            exists k :: 0 <= k < |order| && v in out[order[k]] &&
              OrderBound(out, time, st, v, order) == st[order[k]] + time[order[k]]
  {
    if order != [] {
      var front := order[..|order| - 1];
      OrderBoundBounds(out, time, st, v, front);
      var b := OrderBound(out, time, st, v, front);
      if b != 0 && b == OrderBound(out, time, st, v, order) {
        var k :| 0 <= k < |front| && v in out[front[k]] && b == st[front[k]] + time[front[k]];
        assert order[k] == front[k];
      }
    }
  }

  /**
   * If order holds every prerequisite of v, the value relaxation gives v is
   * its earliest start.
   */
  lemma OrderBoundIsEarliest(out: Adjacency, time: seq<int>, st: seq<int>, v: nat, order: seq<nat>)
    requires |time| == |out| && |st| == |out| && AllBelow(order, |out|) && v < |out|
    requires forall p :: 0 <= p < |out| && v in out[p] ==> p in order
    requires st[v] == OrderBound(out, time, st, v, order)
    ensures EarliestStart(out, time, st, v)
  {
    OrderBoundBounds(out, time, st, v, order);
    forall p | 0 <= p < |out| && v in out[p]
      ensures st[p] + time[p] <= st[v]
    {
      var k :| 0 <= k < |order| && order[k] == p;
    }
  }

  /** Relaxation reads the start times of the jobs of order only. */
  lemma {:induction false} OrderBoundFrame(out: Adjacency, time: seq<int>, st: seq<int>, st': seq<int>, v: nat, order: seq<nat>)
    requires |time| == |out| && |st| == |out| && |st'| == |out| && AllBelow(order, |out|)
    requires forall k :: 0 <= k < |order| ==> st[order[k]] == st'[order[k]]
    ensures OrderBound(out, time, st, v, order) == OrderBound(out, time, st', v, order)
  {
    if order != [] {
      OrderBoundFrame(out, time, st, st', v, order[..|order| - 1]);
    }
  }

  /** Scanning an order that holds every job yields the completion time. */
  lemma {:induction false} FinishMaxIsMakespan(time: seq<int>, st: seq<int>, order: seq<nat>)
    requires |st| == |time| && AllBelow(order, |time|)
    requires forall j :: 0 <= j < |time| ==> j in order
    ensures IsMakespan(time, st, FinishMax(time, st, order))
  {
    FinishMaxBounds(time, st, order);
    var m := FinishMax(time, st, order);
    forall j | 0 <= j < |time|
      ensures st[j] + time[j] <= m
    {
      assert j in order;
      var k :| 0 <= k < |order| && order[k] == j;
    }
    if m != 0 {
      var k :| 0 <= k < |order| && m == st[order[k]] + time[order[k]];
    }
  }

  lemma {:induction false} FinishMaxBounds(time: seq<int>, st: seq<int>, order: seq<nat>)
    requires |st| == |time| && AllBelow(order, |time|)
    ensures 0 <= FinishMax(time, st, order)
    ensures forall k :: 0 <= k < |order| ==> st[order[k]] + time[order[k]] <= FinishMax(time, st, order)
    ensures FinishMax(time, st, order) == 0 ||
            exists k :: 0 <= k < |order| && FinishMax(time, st, order) == st[order[k]] + time[order[k]]
  {
    if order != [] {
      var front := order[..|order| - 1];
      FinishMaxBounds(time, st, front);
      var b := FinishMax(time, st, front);
      if b != 0 && b == FinishMax(time, st, order) {
        var k :| 0 <= k < |front| && b == st[front[k]] + time[front[k]];
        assert order[k] == front[k];
      }
    }
  }

  /**
   * A job's earliest start depends only on the start times of its
   * prerequisites.
   */
  lemma EarliestStartLocal(out: Adjacency, time: seq<int>, st1: seq<int>, st2: seq<int>, v: nat)
    requires |time| == |out| && |st1| == |out| && |st2| == |out| && v < |out|
    requires EarliestStart(out, time, st1, v) && EarliestStart(out, time, st2, v)
    requires forall p :: 0 <= p < |out| && v in out[p] ==> st1[p] == st2[p]
    ensures st1[v] == st2[v]
  {
    EarliestStartBelow(out, time, st1, st2, v);
    EarliestStartBelow(out, time, st2, st1, v);
  }

  lemma EarliestStartBelow(out: Adjacency, time: seq<int>, st1: seq<int>, st2: seq<int>, v: nat)
    requires |time| == |out| && |st1| == |out| && |st2| == |out| && v < |out|
    requires EarliestStart(out, time, st1, v) && EarliestStart(out, time, st2, v)
    requires forall p :: 0 <= p < |out| && v in out[p] ==> st1[p] == st2[p]
    ensures st1[v] <= st2[v]
  {
    if st1[v] != 0 {
      var p :| 0 <= p < |out| && v in out[p] && st1[v] == st1[p] + time[p];
      assert st2[p] + time[p] <= st2[v];
    }
  }

  /**
   * Start times are determined by the graph and the durations: two
   * assignments that both give every job of an order whose prerequisites
   * come first its earliest start agree on those jobs.
   */
  lemma {:induction false} EarliestStartUnique(out: Adjacency, time: seq<int>, st1: seq<int>, st2: seq<int>, order: seq<nat>)
    requires |time| == |out| && |st1| == |out| && |st2| == |out|
    requires AllBelow(order, |out|) && PrereqsFirst(out, order)
    requires forall v :: 0 <= v < |out| && v in order ==> EarliestStart(out, time, st1, v) && EarliestStart(out, time, st2, v)
    ensures forall v :: 0 <= v < |out| && v in order ==> st1[v] == st2[v]
  {
    if order != [] {
      var n := |order| - 1;
      var front, v := order[..n], order[n];
      assert order == front + [v];
      PrereqsFirstPrefix(out, order, n);
      EarliestStartUnique(out, time, st1, st2, front);
      assert forall p :: 0 <= p < |out| && v in out[p] ==> p in front;
      EarliestStartLocal(out, time, st1, st2, v);
    }
  }

  /**
   * Relaxing, in order, the edges of exactly the unblocked jobs raises a job
   * from a non-negative previous start time to its stale start.
   */
  lemma StaleFromOrder(out: Adjacency, time: seq<int>, prev: seq<int>, st: seq<int>, v: nat, order: seq<nat>)
    requires |time| == |out| && |prev| == |out| && |st| == |out| && v < |out| && AllBelow(order, |out|)
    requires forall p: nat :: p < |out| ==> (p in order <==> !Blocked(out, p))
    requires 0 <= prev[v] && st[v] == Max(prev[v], OrderBound(out, time, st, v, order))
    ensures StaleStart(out, time, prev, st, v)
  {
    OrderBoundBounds(out, time, st, v, order);
    forall p | 0 <= p < |out| && v in out[p] && !Blocked(out, p)
      ensures st[p] + time[p] <= st[v]
    {
      var k :| 0 <= k < |order| && order[k] == p;
    }
  }

  /** The completion time of an assignment of start times is unique. */
  lemma MakespanUnique(time: seq<int>, st: seq<int>, m1: int, m2: int)
    requires |st| == |time| && IsMakespan(time, st, m1) && IsMakespan(time, st, m2)
    ensures m1 == m2
  {
    MakespanBelow(time, st, m1, m2);
    MakespanBelow(time, st, m2, m1);
  }

  lemma MakespanBelow(time: seq<int>, st: seq<int>, m1: int, m2: int)
    requires |st| == |time| && IsMakespan(time, st, m1) && IsMakespan(time, st, m2)
    ensures m2 <= m1
  {
    if m2 != 0 {
      var j :| 0 <= j < |time| && m2 == st[j] + time[j];
    }
  }

  // ---------------------------------------------------------------------
  // Redundant edges

  /**
   * With non-negative durations, along a walk whose jobs after the first
   * have their earliest starts, the first job finishes before the j-th starts.
   */
  lemma {:induction false} WalkFinishesFirst(out: Adjacency, time: seq<int>, st: seq<int>, w: seq<nat>, j: nat)
    requires |time| == |out| && |st| == |out| && IsWalk(out, w) && 1 <= j < |w|
    requires forall k :: 0 <= k < |time| ==> 0 <= time[k]
    requires forall i :: 1 <= i < |w| ==> EarliestStart(out, time, st, w[i])
    ensures st[w[0]] + time[w[0]] <= st[w[j]]
  {
    assert w[j] in out[w[j - 1]];
    if j > 1 {
      WalkFinishesFirst(out, time, st, w, j - 1);
    }
  }

  /** A job whose prerequisites are the same in two graphs has the same earliest start in both. */
  lemma EarliestStartSamePrereqs(out: Adjacency, out': Adjacency, time: seq<int>, st: seq<int>, x: nat)
    requires |out'| == |out| && |time| == |out| && |st| == |out| && x < |out|
    requires forall q :: 0 <= q < |out| ==> (x in out'[q] <==> x in out[q])
    ensures EarliestStart(out, time, st, x) <==> EarliestStart(out', time, st, x)
  {
    if EarliestStart(out, time, st, x) && st[x] != 0 {
      var q :| 0 <= q < |out| && x in out[q] && st[x] == st[q] + time[q];
      assert x in out'[q];
    }
    if EarliestStart(out', time, st, x) && st[x] != 0 {
      var q :| 0 <= q < |out| && x in out'[q] && st[x] == st[q] + time[q];
      assert x in out[q];
    }
  }

  /** The added edge p -> v never binds: v's earliest start already waits for p along the walk. */
  lemma ShortcutKeepsStart(out: Adjacency, out': Adjacency, time: seq<int>, st: seq<int>, p: nat, v: nat, w: seq<nat>)
    requires |time| == |out| && |st| == |out|
    requires forall k :: 0 <= k < |time| ==> 0 <= time[k]
    requires IsWalk(out, w) && |w| >= 2 && w[0] == p && w[|w| - 1] == v
    requires p < |out| && out' == out[p := out[p] + [v]]
    requires forall i :: 1 <= i < |w| ==> EarliestStart(out, time, st, w[i])
    ensures EarliestStart(out', time, st, v)
  {
    WalkFinishesFirst(out, time, st, w, |w| - 1);
    assert EarliestStart(out, time, st, v);
    forall q | 0 <= q < |out| && v in out'[q]
      ensures st[q] + time[q] <= st[v]
    {
      if q != p || v in out[p] {
        assert v in out[q];
      }
    }
    if st[v] != 0 {
      var q :| 0 <= q < |out| && v in out[q] && st[v] == st[q] + time[q];
      assert v in out'[q];
    }
  }

  /** Conversely, dropping the edge p -> v keeps v's earliest start: the walk's last edge takes its place. */
  lemma ShortcutDropKeepsStart(out: Adjacency, out': Adjacency, time: seq<int>, st: seq<int>, p: nat, v: nat, w: seq<nat>)
    requires |time| == |out| && |st| == |out|
    requires forall k :: 0 <= k < |time| ==> 0 <= time[k]
    requires IsWalk(out, w) && |w| >= 2 && w[0] == p && w[|w| - 1] == v
    requires p < |out| && out' == out[p := out[p] + [v]]
    requires forall i :: 1 <= i < |w| ==> EarliestStart(out', time, st, w[i])
    ensures EarliestStart(out, time, st, v)
  {
    assert Extends(out, out');
    assert IsWalk(out', w);
    assert EarliestStart(out', time, st, v);
    var n := |w| - 2;
    var last := w[n];
    assert v in out[last];
    if st[v] != 0 {
      var q :| 0 <= q < |out| && v in out'[q] && st[v] == st[q] + time[q];
      if v !in out[q] {
        // q is p and the edge is the added one; the walk's last edge gives the same finish
        assert q == p && n >= 1;
        WalkFinishesFirst(out', time, st, w, n);
        assert st[last] + time[last] <= st[v];
        assert st[v] == st[last] + time[last];
      }
    }
  }

  /**
   * With non-negative durations, adding an edge p -> v that a walk from p to
   * v already implies changes no start time: an assignment gives every
   * unblocked job its earliest start in the extended graph exactly when it
   * does so in the original one (and the unblocked jobs are the same).
   */
  lemma RedundantEdgeKeepsStarts(out: Adjacency, out': Adjacency, time: seq<int>, st: seq<int>, p: nat, v: nat, w: seq<nat>)
    requires |time| == |out| && |st| == |out|
    requires forall k :: 0 <= k < |time| ==> 0 <= time[k]
    requires IsWalk(out, w) && |w| >= 2 && w[0] == p && w[|w| - 1] == v
    requires p < |out| && out' == out[p := out[p] + [v]]
    ensures forall x :: 0 <= x < |out| ==> (Blocked(out', x) <==> Blocked(out, x))
    ensures (forall x :: 0 <= x < |out| && !Blocked(out, x) ==> EarliestStart(out, time, st, x)) <==>
            (forall x :: 0 <= x < |out| && !Blocked(out', x) ==> EarliestStart(out', time, st, x))
  {
    RedundantEdgeKeepsBlocked(out, p, v, w, out');
    forall x | 0 <= x < |out| && x != v
      ensures EarliestStart(out, time, st, x) <==> EarliestStart(out', time, st, x)
    {
      EarliestStartSamePrereqs(out, out', time, st, x);
    }
    forall i | 0 <= i < |w|
      ensures Blocked(out, w[i]) ==> Blocked(out, v)
    {
      BlockedAlongWalk(out, w, i);
    }
    if forall x :: 0 <= x < |out| && !Blocked(out, x) ==> EarliestStart(out, time, st, x) {
      if !Blocked(out, v) {
        ShortcutKeepsStart(out, out', time, st, p, v, w);
      }
    }
    if forall x :: 0 <= x < |out| && !Blocked(out', x) ==> EarliestStart(out', time, st, x) {
      if !Blocked(out, v) {
        ShortcutDropKeepsStart(out, out', time, st, p, v, w);
      }
    }
  }
}
