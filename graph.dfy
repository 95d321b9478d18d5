/**
 * The precedence graph of a job schedule, over job indices 0..n-1.
 *
 * out[u] lists the jobs that require u: an entry v is an edge u -> v, meaning
 * u must finish before v can start. Entries may repeat (the schedule does not
 * reject duplicate edges) and u may list itself (a self-loop).
 *
 * Besides walks and cycles, this module states what a Kahn-style
 * topological sort has found once it stops: the jobs it placed are exactly
 * the jobs that do not lie on, or downstream of, a cycle, and it placed every
 * job exactly when the graph has no cycle.
 */
module Graph {

  type Adjacency = seq<seq<nat>>

  /** Every edge ends at an existing job. */
  ghost predicate WellFormed(out: Adjacency)
  {
    forall u, k :: 0 <= u < |out| && 0 <= k < |out[u]| ==> out[u][k] < |out|
  }

  /** How many times the edge u -> v is recorded in u's list s. */
  function Count(s: seq<nat>, v: nat): nat
  {
    multiset(s)[v]
  }

  /** No job occurs twice in s. */
  predicate Distinct(s: seq<nat>)
  {
    forall i, j :: 0 <= i < j < |s| ==> s[i] != s[j]
  }

  /** Every entry of s is a job of a graph with n jobs. */
  predicate AllBelow(s: seq<nat>, n: nat)
  {
    forall k :: 0 <= k < |s| ==> s[k] < n
  }

  /** w is a non-empty walk that follows edges from w[0] to its last job. */
  ghost predicate IsWalk(out: Adjacency, w: seq<nat>)
  {
    && |w| >= 1
    && AllBelow(w, |out|)
    && forall i :: 0 <= i < |w| - 1 ==> w[i + 1] in out[w[i]]
  }

  /** c is a closed walk of at least one edge; a self-loop u -> u gives [u, u]. */
  ghost predicate IsCycle(out: Adjacency, c: seq<nat>)
  {
    IsWalk(out, c) && |c| >= 2 && c[0] == c[|c| - 1]
  }

  ghost predicate HasCycle(out: Adjacency)
  {
    exists c :: IsCycle(out, c)
  }

  /** The walk w leads from a job on the cycle c to v. */
  ghost predicate CycleFeeds(out: Adjacency, c: seq<nat>, w: seq<nat>, v: nat)
  {
    IsCycle(out, c) && IsWalk(out, w) && w[0] == c[0] && w[|w| - 1] == v
  }

  /** v lies on a cycle or downstream of one, so it can never be scheduled. */
  ghost predicate Blocked(out: Adjacency, v: nat)
  {
    exists c, w :: CycleFeeds(out, c, w, v)
  }

  /** Every job of s comes after every job that has an edge into it. */
  ghost predicate PrereqsFirst(out: Adjacency, s: seq<nat>)
  {
    forall k, u :: 0 <= k < |s| && 0 <= u < |out| && s[k] in out[u] ==> u in s[..k]
  }

  /** x is a job that s does not hold. */
  ghost predicate Unplaced(out: Adjacency, s: seq<nat>, x: nat)
  {
    x < |out| && x !in s
  }

  /** Every job outside s has an edge into it from another job outside s. */
  ghost predicate FedFromOutside(out: Adjacency, s: seq<nat>)
  {
    forall x: nat :: Unplaced(out, s, x) ==> exists u: nat :: u < |out| && u !in s && x in out[u]
  }

  /**
   * The edges into v whose source is one of the jobs 0..k-1 that is not in
   * done, counted with multiplicity: the in-degree v has left once the jobs
   * of done have been taken out of the graph.
   */
  function Residual(out: Adjacency, v: nat, done: seq<nat>, k: nat): nat
    requires k <= |out|
  {
    if k == 0 then 0
    else Residual(out, v, done, k - 1) + (if k - 1 in done then 0 else Count(out[k - 1], v))
  }

  // ---------------------------------------------------------------------
  // Counting edges

  lemma CountPrefix(s: seq<nat>, e: nat, v: nat)
    requires e <= |s|
    ensures Count(s[..e], v) <= Count(s, v)
  {
    assert s == s[..e] + s[e..];
    assert multiset(s) == multiset(s[..e]) + multiset(s[e..]);
  }

  /** One more entry of s counts once more for that entry's job and for no other. */
  lemma CountStep(s: seq<nat>, e: nat)
    requires e < |s|
    ensures forall x :: Count(s[..e + 1], x) == Count(s[..e], x) + (if x == s[e] then 1 else 0)
  {
    assert s[..e + 1] == s[..e] + [s[e]];
  }

  /** A job not yet taken out still contributes all its edges into v. */
  lemma {:induction false} ResidualCovers(out: Adjacency, v: nat, done: seq<nat>, k: nat, u: nat)
    requires k <= |out| && u < k && u !in done
    ensures Count(out[u], v) <= Residual(out, v, done, k)
  {
    if u < k - 1 {
      ResidualCovers(out, v, done, k - 1, u);
    }
  }

  /** Taking u out of the graph removes exactly u's edges into v. */
  lemma {:induction false} ResidualRemove(out: Adjacency, v: nat, done: seq<nat>, k: nat, u: nat)
    requires k <= |out| && u !in done
    ensures Residual(out, v, done + [u], k) + (if u < k then Count(out[u], v) else 0)
            == Residual(out, v, done, k)
  {
    if k > 0 {
      ResidualRemove(out, v, done, k - 1, u);
      assert (k - 1 in done + [u]) <==> (k - 1 in done || k - 1 == u);
    }
  }

  /** Taking u out of the whole graph removes exactly u's edges from every in-degree. */
  lemma ResidualRemoveAll(out: Adjacency, done: seq<nat>, u: nat)
    requires u < |out| && u !in done
    ensures forall v :: 0 <= v < |out| ==>
              Residual(out, v, done + [u], |out|) + Count(out[u], v) == Residual(out, v, done, |out|)
  {
    forall v | 0 <= v < |out|
      ensures Residual(out, v, done + [u], |out|) + Count(out[u], v) == Residual(out, v, done, |out|)
    {
      ResidualRemove(out, v, done, |out|, u);
    }
  }

  /** A positive residual in-degree has a source that was not taken out. */
  lemma {:induction false} ResidualSource(out: Adjacency, v: nat, done: seq<nat>, k: nat) returns (u: nat)
    requires k <= |out| && Residual(out, v, done, k) > 0
    ensures u < k && u !in done && v in out[u]
  {
    if Residual(out, v, done, k - 1) > 0 {
      u := ResidualSource(out, v, done, k - 1);
    } else {
      u := k - 1;
      assert v in multiset(out[u]);
    }
  }

  /** A residual in-degree of 0 means every job with an edge into v was taken out. */
  lemma {:induction false} ResidualZero(out: Adjacency, v: nat, done: seq<nat>, k: nat)
    requires k <= |out| && Residual(out, v, done, k) == 0
    ensures forall p :: 0 <= p < k && v in out[p] ==> p in done
  {
    if k > 0 {
      ResidualZero(out, v, done, k - 1);
      if v in out[k - 1] {
        assert v in multiset(out[k - 1]);
      }
    }
  }

  /**
   * While the edges of u into v are taken out one at a time, the edge at
   * position e is still counted; once the count left equals the edges taken
   * out so far, every job with an edge into v is in done or is u.
   */
  lemma ReleaseEdge(out: Adjacency, v: nat, done: seq<nat>, u: nat, e: nat)
    requires u < |out| && u !in done && e < |out[u]| && out[u][e] == v
    ensures Count(out[u][..e], v) < Residual(out, v, done, |out|)
    ensures Residual(out, v, done, |out|) == Count(out[u][..e + 1], v) ==>
              forall p :: 0 <= p < |out| && v in out[p] ==> p in done || p == u
  {
    assert out[u][..e + 1] == out[u][..e] + [v];
    CountPrefix(out[u], e + 1, v);
    ResidualCovers(out, v, done, |out|, u);
    if Residual(out, v, done, |out|) == Count(out[u][..e + 1], v) {
      ResidualRemove(out, v, done, |out|, u);
      ResidualZero(out, v, done + [u], |out|);
    }
  }

  // ---------------------------------------------------------------------
  // Pigeonhole

  function Elems(s: seq<nat>): set<nat>
  {
    set x | x in s
  }

  /** The jobs 0..n-1. */
  function Below(n: nat): set<nat>
  {
    if n == 0 then {} else Below(n - 1) + {n - 1}
  }

  lemma {:induction false} DistinctElems(s: seq<nat>)
    requires Distinct(s)
    ensures |Elems(s)| == |s|
  {
    if s != [] {
      var s' := s[..|s| - 1];
      DistinctElems(s');
      assert Elems(s) == Elems(s') + {s[|s| - 1]};
    }
  }

  lemma {:induction false} BelowCard(n: nat)
    ensures |Below(n)| == n
    ensures forall x: nat :: x in Below(n) <==> x < n
  {
    if n > 0 {
      BelowCard(n - 1);
      assert n - 1 !in Below(n - 1);
    }
  }

  lemma {:induction false} SubsetCard(a: set<nat>, b: set<nat>)
    requires a <= b
    ensures |a| <= |b|
    decreases |a|
  {
    if a != {} {
      var x :| x in a;
      SubsetCard(a - {x}, b - {x});
    }
  }

  /** An entry of a list of distinct jobs does not occur before its position. */
  lemma DistinctPrefix(s: seq<nat>, i: nat)
    requires Distinct(s) && i < |s|
    ensures s[i] !in s[..i]
  {
    forall k | 0 <= k < i
      ensures s[..i][k] != s[i]
    {
      assert s[..i][k] == s[k];
    }
  }

  /** A list of distinct jobs of an n-job graph has at most n entries. */
  lemma DistinctBounded(s: seq<nat>, n: nat)
    requires Distinct(s) && AllBelow(s, n)
    ensures |s| <= n
  {
    DistinctElems(s);
    BelowCard(n);
    SubsetCard(Elems(s), Below(n));
  }

  /** A list of n distinct jobs of an n-job graph holds every job. */
  lemma DistinctFull(s: seq<nat>, n: nat)
    requires Distinct(s) && AllBelow(s, n) && |s| == n
    ensures forall v: nat :: v < n ==> v in s
  {
    forall v: nat | v < n
      ensures v in s
    {
      if v !in s {
        DistinctElems(s);
        BelowCard(n);
        assert Below(n) - {v} + {v} == Below(n);
        SubsetCard(Elems(s), Below(n) - {v});
      }
    }
  }

  /** A list of more than n jobs of an n-job graph repeats one. */
  lemma Repeat(s: seq<nat>, n: nat) returns (i: nat, k: nat)
    requires AllBelow(s, n) && |s| > n
    ensures i < k < |s| && s[i] == s[k]
  {
    if Distinct(s) {
      DistinctBounded(s, n);
    }
    i, k :| i < k < |s| && s[i] == s[k];
  }

  /** A list of fewer than n distinct jobs misses one. */
  lemma MissingJob(s: seq<nat>, n: nat) returns (v: nat)
    requires Distinct(s) && AllBelow(s, n) && |s| < n
    ensures v < n && v !in s
  {
    if forall x: nat :: x < n ==> x in s {
      BelowCard(n);
      DistinctElems(s);
      SubsetCard(Below(n), Elems(s));
      assert false;
    }
    v :| v < n && v !in s;
  }

  // ---------------------------------------------------------------------
  // Orders in which prerequisites come first

  lemma PrereqsFirstAppend(out: Adjacency, s: seq<nat>, v: nat)
    requires PrereqsFirst(out, s)
    requires forall x :: 0 <= x < |out| && v in out[x] ==> x in s
    ensures PrereqsFirst(out, s + [v])
  {
    var s' := s + [v];
    forall k, u | 0 <= k < |s'| && 0 <= u < |out| && s'[k] in out[u]
      ensures u in s'[..k]
    {
      if k < |s| {
        assert s'[..k] == s[..k];
      } else {
        assert s'[..k] == s;
      }
    }
  }

  /**
   * A job v outside s whose every prerequisite is among the first i + 1
   * entries of s can be appended to s, keeping s duplicate-free, within the
   * graph and with prerequisites first.
   */
  lemma AppendReleased(out: Adjacency, s: seq<nat>, i: nat, v: nat)
    requires Distinct(s) && AllBelow(s, |out|) && PrereqsFirst(out, s)
    requires i < |s| && v < |out| && v !in s
    requires forall p :: 0 <= p < |out| && v in out[p] ==> p in s[..i + 1]
    ensures Distinct(s + [v]) && AllBelow(s + [v], |out|) && PrereqsFirst(out, s + [v])
    ensures (s + [v])[..|s|] == s && (s + [v])[..i + 1] == s[..i + 1] && |s + [v]| <= |out|
  {
    forall p | 0 <= p < |out| && v in out[p]
      ensures p in s
    {
      assert p in s[..i + 1];
    }
    PrereqsFirstAppend(out, s, v);
    DistinctBounded(s + [v], |out|);
  }

  lemma PrereqsFirstPrefix(out: Adjacency, s: seq<nat>, n: nat)
    requires PrereqsFirst(out, s) && n <= |s|
    ensures PrereqsFirst(out, s[..n])
  {
    forall k, u | 0 <= k < n && 0 <= u < |out| && s[..n][k] in out[u]
      ensures u in s[..n][..k]
    {
      assert s[..n][..k] == s[..k];
    }
  }

  /** In an order whose prerequisites come first, no job lists itself or a job placed before it. */
  lemma OrderedEdgesForward(out: Adjacency, s: seq<nat>, a: nat)
    requires Distinct(s) && PrereqsFirst(out, s) && a < |s| && s[a] < |out|
    ensures forall j :: 0 <= j <= a ==> s[j] !in out[s[a]]
  {
    forall j | 0 <= j <= a && s[j] in out[s[a]]
      ensures s[a] in s[..j]
    {
    }
  }

  /** Following a walk backwards from a job of s only meets earlier jobs of s. */
  lemma {:induction false} WalkIntoOrder(out: Adjacency, s: seq<nat>, w: seq<nat>, a: nat) returns (b: nat)
    requires PrereqsFirst(out, s) && IsWalk(out, w) && a < |s| && s[a] == w[|w| - 1]
    ensures b + |w| - 1 <= a && s[b] == w[0]
    decreases |w|
  {
    if |w| == 1 {
      b := a;
    } else {
      var w' := w[..|w| - 1];
      assert IsWalk(out, w');
      var u := w[|w| - 2];
      assert w[|w| - 1] in out[u];
      assert u in s[..a];
      var a' :| 0 <= a' < a && s[a'] == u;
      b := WalkIntoOrder(out, s, w', a');
    }
  }

  /** No job of an order whose prerequisites come first is on or after a cycle. */
  lemma OrderedJobUnblocked(out: Adjacency, s: seq<nat>, v: nat)
    requires Distinct(s) && PrereqsFirst(out, s) && v in s
    ensures !Blocked(out, v)
  {
    if Blocked(out, v) {
      var c, w :| CycleFeeds(out, c, w, v);
      var a :| 0 <= a < |s| && s[a] == v;
      var b0 := WalkIntoOrder(out, s, w, a);
      var b1 := WalkIntoOrder(out, s, c, b0);
    }
  }

  /** A graph whose jobs can all be listed with prerequisites first has no cycle. */
  lemma TopologicalOrderAcyclic(out: Adjacency, s: seq<nat>)
    requires Distinct(s) && AllBelow(s, |out|) && |s| == |out| && PrereqsFirst(out, s)
    ensures !HasCycle(out)
  {
    if HasCycle(out) {
      var c :| IsCycle(out, c);
      CycleJobBlocked(out, c);
      DistinctFull(s, |out|);
      OrderedJobUnblocked(out, s, c[0]);
    }
  }

  // ---------------------------------------------------------------------
  // Jobs left over by the sort are blocked

  /** A walk of len edges that runs backwards, against the edges, through jobs outside s. */
  ghost function BackWalk(out: Adjacency, s: seq<nat>, v: nat, len: nat): (w: seq<nat>)
    requires FedFromOutside(out, s) && v < |out| && v !in s
    ensures |w| == len + 1 && w[0] == v
    ensures forall i :: 0 <= i < |w| ==> w[i] < |out| && w[i] !in s
    ensures forall i, j :: 0 <= i < len && j == i + 1 ==> w[i] in out[w[j]]
    decreases len
  {
    if len == 0 then [v]
    else
      var w' := BackWalk(out, s, v, len - 1);
      var x := w'[len - 1];
      assert Unplaced(out, s, x);
      var u: nat :| u < |out| && u !in s && x in out[u];
      var w := w' + [u];
      assert forall i :: 0 <= i < |w'| ==> w[i] == w'[i];
      w
  }

  /** The jobs w[hi], w[hi-1], ..., w[lo], in that order. */
  function Reversed(w: seq<nat>, lo: nat, hi: nat): (r: seq<nat>)
    requires lo <= hi < |w|
    ensures |r| == hi - lo + 1 && r[0] == w[hi] && r[|r| - 1] == w[lo]
    ensures forall t :: 0 <= t < |r| ==> r[t] == w[hi - t]
  {
    seq(hi - lo + 1, t requires 0 <= t <= hi - lo => w[hi - t])
  }

  /** Read backwards, a stretch of a walk that runs against the edges is a walk. */
  lemma ReversedWalk(out: Adjacency, w: seq<nat>, lo: nat, hi: nat)
    requires lo <= hi < |w| && AllBelow(w, |out|)
    requires forall i, j :: lo <= i < hi && j == i + 1 ==> w[i] in out[w[j]]
    ensures IsWalk(out, Reversed(w, lo, hi))
  {
    var r := Reversed(w, lo, hi);
    forall t | 0 <= t < |r| - 1
      ensures r[t + 1] in out[r[t]]
    {
      var i, j := hi - t - 1, hi - t;
      assert r[t + 1] == w[i] && r[t] == w[j];
    }
  }

  /**
   * If a walk that runs against the edges repeats a job, the stretch between
   * the two visits, read backwards, is a cycle, and the stretch before it,
   * read backwards, leads from that cycle to the walk's first job.
   */
  lemma CycleFromRepeat(out: Adjacency, w: seq<nat>, i: nat, k: nat, v: nat) returns (c: seq<nat>, p: seq<nat>)
    requires i < k < |w| && w[i] == w[k] && w[0] == v && AllBelow(w, |out|)
    requires forall a, b :: 0 <= a < k && b == a + 1 ==> w[a] in out[w[b]]
    ensures CycleFeeds(out, c, p, v)
  {
    c, p := Reversed(w, i, k), Reversed(w, 0, i);
    ReversedWalk(out, w, i, k);
    ReversedWalk(out, w, 0, i);
  }

  /** A job outside s, where every such job is fed from outside s, is blocked. */
  lemma UnorderedJobBlocked(out: Adjacency, s: seq<nat>, v: nat) returns (c: seq<nat>, p: seq<nat>)
    requires FedFromOutside(out, s) && v < |out| && v !in s
    ensures CycleFeeds(out, c, p, v)
  {
    var w := BackWalk(out, s, v, |out|);
    c, p := CycleOnBackWalk(out, w, v);
  }

  /** A walk against the edges with more steps than there are jobs passes through a cycle. */
  lemma CycleOnBackWalk(out: Adjacency, w: seq<nat>, v: nat) returns (c: seq<nat>, p: seq<nat>)
    requires |w| == |out| + 1 && w[0] == v
    requires forall i :: 0 <= i < |w| ==> w[i] < |out|
    requires forall a, b :: 0 <= a < |out| && b == a + 1 ==> w[a] in out[w[b]]
    ensures CycleFeeds(out, c, p, v)
  {
    assert AllBelow(w, |out|);
    var i, k := Repeat(w, |out|);
    c, p := CycleFromRepeat(out, w, i, k, v);
  }

  /** Every job on a cycle is blocked (here: the one it starts from). */
  lemma CycleJobBlocked(out: Adjacency, c: seq<nat>)
    requires IsCycle(out, c)
    ensures Blocked(out, c[0])
  {
    assert CycleFeeds(out, c, [c[0]], c[0]);
  }

  /** A blocked job has a prerequisite: the job before it on its walk or on its cycle. */
  lemma BlockedHasPrereq(out: Adjacency, c: seq<nat>, w: seq<nat>, v: nat) returns (u: nat)
    requires CycleFeeds(out, c, w, v)
    ensures u < |out| && v in out[u] && Blocked(out, u)
  {
    if |w| >= 2 {
      u := w[|w| - 2];
      assert w[|w| - 1] in out[u];
      assert CycleFeeds(out, c, w[..|w| - 1], u);
    } else {
      u := c[|c| - 2];
      assert c[|c| - 1] in out[u];
      assert CycleFeeds(out, c, c[..|c| - 1], u);
    }
  }

  lemma BlockedHasCycle(out: Adjacency, v: nat)
    requires Blocked(out, v)
    ensures HasCycle(out)
  {
    var c, w :| CycleFeeds(out, c, w, v);
    assert IsCycle(out, c);
  }

  /** Every blocked job witnesses a cycle, so an acyclic graph has no blocked job. */
  lemma BlockedOnlyWithCycle(out: Adjacency)
    ensures forall v: nat :: Blocked(out, v) ==> HasCycle(out)
  {
    forall v: nat | Blocked(out, v)
      ensures HasCycle(out)
    {
      BlockedHasCycle(out, v);
    }
  }

  /** Whatever requires a blocked job is blocked too. */
  lemma BlockedDownstream(out: Adjacency, u: nat, v: nat)
    requires u < |out| && v < |out| && v in out[u] && Blocked(out, u)
    ensures Blocked(out, v)
  {
    var c, w :| CycleFeeds(out, c, w, u);
    assert CycleFeeds(out, c, w + [v], v);
  }

  /** A job that no job lists is on no cycle and downstream of none. */
  lemma NoPrereqsUnblocked(out: Adjacency, v: nat)
    requires forall u :: 0 <= u < |out| ==> v !in out[u]
    ensures !Blocked(out, v)
  {
    if Blocked(out, v) {
      var c, w :| CycleFeeds(out, c, w, v);
      var u := BlockedHasPrereq(out, c, w, v);
    }
  }

  /**
   * What a Kahn-style sort has found once it stops with the list s: s holds
   * exactly the jobs that are not blocked, and s holds every job exactly when
   * the graph has no cycle.
   */
  lemma KahnOutcome(out: Adjacency, s: seq<nat>)
    requires Distinct(s) && AllBelow(s, |out|) && PrereqsFirst(out, s)
    requires forall v: nat :: v < |out| && v !in s ==> Residual(out, v, s, |out|) > 0
    ensures forall v: nat :: v < |out| ==> (v in s <==> !Blocked(out, v))
    ensures |s| == |out| <==> !HasCycle(out)
  {
    forall x: nat | Unplaced(out, s, x)
      ensures exists u: nat :: u < |out| && u !in s && x in out[u]
    {
      var u := ResidualSource(out, x, s, |out|);
    }
    forall v: nat | v < |out|
      ensures v in s <==> !Blocked(out, v)
    {
      if v in s {
        OrderedJobUnblocked(out, s, v);
      } else {
        var c, p := UnorderedJobBlocked(out, s, v);
      }
    }
    DistinctBounded(s, |out|);
    if |s| == |out| {
      TopologicalOrderAcyclic(out, s);
    } else {
      var v := MissingJob(s, |out|);
      BlockedHasCycle(out, v);
    }
  }

  /** The edges into v whose source is a blocked job among 0..k-1, counted with multiplicity. */
  ghost function BlockedEdges(out: Adjacency, v: nat, k: nat): nat
    requires k <= |out|
  {
    if k == 0 then 0
    else BlockedEdges(out, v, k - 1) + (if Blocked(out, k - 1) then Count(out[k - 1], v) else 0)
  }

  /** Once s holds exactly the unblocked jobs, the residual in-degree counts the edges from blocked jobs. */
  lemma {:induction false} ResidualIsBlockedEdges(out: Adjacency, v: nat, s: seq<nat>, k: nat)
    requires k <= |out|
    requires forall u: nat :: u < |out| ==> (u in s <==> !Blocked(out, u))
    ensures Residual(out, v, s, k) == BlockedEdges(out, v, k)
  {
    if k > 0 {
      ResidualIsBlockedEdges(out, v, s, k - 1);
    }
  }

  /**
   * When Kahn's sort stops, having placed exactly the jobs whose residual
   * in-degree dropped to 0, the placed jobs are the unblocked ones and each
   * residual in-degree counts the edges from blocked jobs.
   */
  lemma KahnFinished(out: Adjacency, inDegree: seq<int>, s: seq<nat>)
    requires |inDegree| == |out|
    requires Distinct(s) && AllBelow(s, |out|) && PrereqsFirst(out, s)
    requires forall v :: 0 <= v < |out| ==> inDegree[v] == Residual(out, v, s, |out|)
    requires forall v :: 0 <= v < |out| ==> (v in s <==> inDegree[v] == 0)
    ensures forall v: nat :: v < |out| ==> (v in s <==> !Blocked(out, v))
    ensures |s| == |out| <==> !HasCycle(out)
    ensures forall v :: 0 <= v < |out| ==> inDegree[v] == BlockedEdges(out, v, |out|)
  {
    KahnOutcome(out, s);
    forall v | 0 <= v < |out|
      ensures inDegree[v] == BlockedEdges(out, v, |out|)
    {
      ResidualIsBlockedEdges(out, v, s, |out|);
    }
  }

  lemma {:induction false} BlockedEdgesZero(out: Adjacency, v: nat, k: nat)
    requires k <= |out|
    ensures BlockedEdges(out, v, k) == 0 <==> forall p :: 0 <= p < k && v in out[p] ==> !Blocked(out, p)
  {
    if k > 0 {
      BlockedEdgesZero(out, v, k - 1);
      assert v in out[k - 1] <==> v in multiset(out[k - 1]);
    }
  }

  /** A job has an edge from a blocked job exactly when it is blocked itself. */
  lemma BlockedEdgesIffBlocked(out: Adjacency, v: nat)
    requires v < |out|
    ensures BlockedEdges(out, v, |out|) == 0 <==> !Blocked(out, v)
  {
    BlockedEdgesZero(out, v, |out|);
    forall p | 0 <= p < |out| && v in out[p] && Blocked(out, p)
      ensures Blocked(out, v)
    {
      BlockedDownstream(out, p, v);
    }
    if Blocked(out, v) {
      var c, w :| CycleFeeds(out, c, w, v);
      var u := BlockedHasPrereq(out, c, w, v);
    }
  }

  lemma {:induction false} BlockedEdgesAppend(out: Adjacency, v: nat, k: nat)
    requires WellFormed(out) && k <= |out|
    ensures BlockedEdges(out + [[]], v, k) == BlockedEdges(out, v, k)
  {
    if k > 0 {
      AppendIsolatedJob(out);
      BlockedEdgesAppend(out, v, k - 1);
      assert (out + [[]])[k - 1] == out[k - 1];
    }
  }

  /** Appending a job with no edges leaves the blocked edges into every old job as they were. */
  lemma BlockedEdgesAfterAppend(out: Adjacency, v: nat)
    requires WellFormed(out)
    ensures BlockedEdges(out + [[]], v, |out| + 1) == BlockedEdges(out, v, |out|)
  {
    BlockedEdgesAppend(out, v, |out|);
    assert multiset((out + [[]])[|out|]) == multiset{};
  }

  // ---------------------------------------------------------------------
  // Growing the graph

  /** out2 has every edge of out, possibly more, over the same jobs. */
  ghost predicate Extends(out: Adjacency, out2: Adjacency)
  {
    |out| == |out2| && forall u, x :: 0 <= u < |out| && x in out[u] ==> x in out2[u]
  }

  /** Adding edges never resolves a blocked job or removes a cycle. */
  lemma ExtendsKeepsBlocked(out: Adjacency, out2: Adjacency)
    requires Extends(out, out2)
    ensures forall v: nat :: Blocked(out, v) ==> Blocked(out2, v)
    ensures HasCycle(out) ==> HasCycle(out2)
  {
    forall v: nat | Blocked(out, v)
      ensures Blocked(out2, v)
    {
      var c, w :| CycleFeeds(out, c, w, v);
      assert CycleFeeds(out2, c, w, v);
    }
    if HasCycle(out) {
      var c :| IsCycle(out, c);
      assert IsCycle(out2, c);
    }
  }

  /** Past its first job, a walk never visits a job that nothing lists. */
  lemma EnteredJobsOld(out: Adjacency, w: seq<nat>)
    requires WellFormed(out) && IsWalk(out + [[]], w)
    ensures forall i :: 1 <= i < |w| ==> w[i] < |out|
  {
    var out' := out + [[]];
    forall i | 1 <= i < |w|
      ensures w[i] < |out|
    {
      assert w[i] in out'[w[i - 1]];
    }
  }

  lemma AppendedWalk(out: Adjacency, w: seq<nat>)
    requires WellFormed(out) && IsWalk(out + [[]], w) && w[0] < |out|
    ensures IsWalk(out, w)
  {
    EnteredJobsOld(out, w);
    var out' := out + [[]];
    forall i | 0 <= i < |w| - 1
      ensures w[i + 1] in out[w[i]]
    {
      assert out'[w[i]] == out[w[i]];
    }
  }

  /**
   * Appending a job with no edges leaves every cycle and every blocked job as
   * it was, and the new job is not blocked.
   */
  lemma AppendIsolatedJob(out: Adjacency)
    requires WellFormed(out)
    ensures WellFormed(out + [[]])
    ensures HasCycle(out + [[]]) <==> HasCycle(out)
    ensures forall v: nat :: v < |out| ==> (Blocked(out + [[]], v) <==> Blocked(out, v))
    ensures !Blocked(out + [[]], |out|)
  {
    var out' := out + [[]];
    forall w | IsWalk(out, w)
      ensures IsWalk(out', w)
    {
      assert forall i :: 0 <= i < |w| - 1 ==> out'[w[i]] == out[w[i]];
    }
    if HasCycle(out') {
      var c :| IsCycle(out', c);
      EnteredJobsOld(out, c);
      AppendedWalk(out, c);
      assert IsCycle(out, c);
    }
    if HasCycle(out) {
      var c :| IsCycle(out, c);
      assert IsCycle(out', c);
    }
    forall v: nat | v <= |out|
      ensures Blocked(out', v) <==> v < |out| && Blocked(out, v)
    {
      if Blocked(out', v) {
        var c, w :| CycleFeeds(out', c, w, v);
        EnteredJobsOld(out, c);
        EnteredJobsOld(out, w);
        AppendedWalk(out, c);
        AppendedWalk(out, w);
        assert CycleFeeds(out, c, w, v);
      }
      if v < |out| && Blocked(out, v) {
        var c, w :| CycleFeeds(out, c, w, v);
        assert CycleFeeds(out', c, w, v);
      }
    }
  }

  // ---------------------------------------------------------------------
  // Redundant edges

  /** Two walks where the first ends at the start of the second join into one walk. */
  lemma WalkJoin(out: Adjacency, a: seq<nat>, b: seq<nat>)
    requires IsWalk(out, a) && IsWalk(out, b) && a[|a| - 1] == b[0]
    ensures IsWalk(out, a + b[1..]) && |a + b[1..]| == |a| + |b| - 1
    ensures (a + b[1..])[0] == a[0] && (a + b[1..])[|a| + |b| - 2] == b[|b| - 1]
  {
    var r := a + b[1..];
    forall k | 0 <= k < |r|
      ensures r[k] < |out|
    {
      if k >= |a| {
        assert r[k] == b[k - |a| + 1];
      }
    }
    forall i | 0 <= i < |r| - 1
      ensures r[i + 1] in out[r[i]]
    {
      if i < |a| - 1 {
        assert r[i] == a[i] && r[i + 1] == a[i + 1];
      } else {
        assert r[i] == b[i - |a| + 1] && r[i + 1] == b[i - |a| + 2];
      }
    }
  }

  /**
   * When the walk w already leads from p to v, a walk that uses the added
   * edge p -> v can take w instead: every walk of the extended graph has a
   * walk of the original graph, at least as long, between the same jobs.
   */
  lemma {:induction false} ShortcutWalk(out: Adjacency, p: nat, v: nat, w: seq<nat>, out': Adjacency, x: seq<nat>)
    returns (y: seq<nat>)
    requires IsWalk(out, w) && |w| >= 2 && w[0] == p && w[|w| - 1] == v
    requires p < |out| && out' == out[p := out[p] + [v]]
    requires IsWalk(out', x)
    ensures IsWalk(out, y) && |y| >= |x| && y[0] == x[0] && y[|y| - 1] == x[|x| - 1]
    decreases |x|
  {
    if |x| == 1 {
      y := x;
    } else {
      var x0 := x[..|x| - 1];
      assert IsWalk(out', x0);
      var y0 := ShortcutWalk(out, p, v, w, out', x0);
      var a, b := x[|x| - 2], x[|x| - 1];
      assert b in out'[a];
      if b in out[a] {
        assert IsWalk(out, [a, b]);
        WalkJoin(out, y0, [a, b]);
        y := y0 + [a, b][1..];
      } else {
        WalkJoin(out, y0, w);
        y := y0 + w[1..];
      }
    }
  }

  /**
   * Adding an edge p -> v that a walk from p to v already implies changes no
   * job's blocked status and creates no cycle.
   */
  lemma RedundantEdgeKeepsBlocked(out: Adjacency, p: nat, v: nat, w: seq<nat>, out': Adjacency)
    requires IsWalk(out, w) && |w| >= 2 && w[0] == p && w[|w| - 1] == v
    requires p < |out| && out' == out[p := out[p] + [v]]
    ensures forall x: nat :: Blocked(out', x) <==> Blocked(out, x)
    ensures HasCycle(out') <==> HasCycle(out)
  {
    assert Extends(out, out');
    ExtendsKeepsBlocked(out, out');
    forall x: nat | Blocked(out', x)
      ensures Blocked(out, x)
    {
      var c, f :| CycleFeeds(out', c, f, x);
      var c2 := ShortcutWalk(out, p, v, w, out', c);
      var f2 := ShortcutWalk(out, p, v, w, out', f);
      assert CycleFeeds(out, c2, f2, x);
    }
    if HasCycle(out') {
      var c :| IsCycle(out', c);
      var c2 := ShortcutWalk(out, p, v, w, out', c);
      assert IsCycle(out, c2);
    }
  }

  /** A job on a walk after a blocked job is blocked; so the jobs on a walk into an unblocked job are unblocked. */
  lemma {:induction false} BlockedAlongWalk(out: Adjacency, w: seq<nat>, i: nat)
    requires IsWalk(out, w) && i < |w|
    ensures Blocked(out, w[i]) ==> Blocked(out, w[|w| - 1])
    decreases |w| - i
  {
    if i < |w| - 1 {
      BlockedAlongWalk(out, w, i + 1);
      assert w[i + 1] in out[w[i]];
      if Blocked(out, w[i]) {
        BlockedDownstream(out, w[i], w[i + 1]);
      }
    }
  }
}
