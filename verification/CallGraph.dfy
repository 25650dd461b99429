/** Finite call graphs: walks, reachability, and the pigeonhole bound on acyclic graphs. */
module CallGraph {

  /** The successors of each function, in the order they are visited. */
  type Graph = seq<seq<nat>>

  /** Every edge target is a function of the graph. */
  predicate WellFormed(g: Graph) {
    forall v, j :: 0 <= v < |g| && 0 <= j < |g[v]| ==> g[v][j] < |g|
  }

  predicate Edge(g: Graph, u: nat, v: nat) {
    u < |g| && v in g[u]
  }

  /** A call chain: a nonempty sequence of functions, each calling the next. */
  ghost predicate IsWalk(g: Graph, p: seq<nat>) {
    && |p| > 0
    && (forall i :: 0 <= i < |p| ==> p[i] < |g|)
    && (forall i :: 0 < i < |p| ==> Edge(g, p[i - 1], p[i]))
  }

  ghost predicate WalkBetween(g: Graph, p: seq<nat>, u: nat, v: nat) {
    IsWalk(g, p) && p[0] == u && p[|p| - 1] == v
  }

  ghost predicate Reach(g: Graph, u: nat, v: nat) {
    exists p :: WalkBetween(g, p, u, v)
  }

  ghost predicate Mutual(g: Graph, u: nat, v: nat) {
    Reach(g, u, v) && Reach(g, v, u)
  }

  /** v lies on a closed walk with at least one edge; a self edge counts. */
  ghost predicate OnCycle(g: Graph, v: nat) {
    exists s :: Edge(g, v, s) && Reach(g, s, v)
  }

  /** No edge leaves s. */
  ghost predicate Closed(g: Graph, s: set<nat>) {
    forall v, w :: v in s && Edge(g, v, w) ==> w in s
  }

  lemma ReachSelf(g: Graph, u: nat)
    requires u < |g|
    ensures Reach(g, u, u)
  {
    assert WalkBetween(g, [u], u, u);
  }

  lemma ReachTrans(g: Graph, u: nat, v: nat, w: nat)
    requires Reach(g, u, v) && Reach(g, v, w)
    ensures Reach(g, u, w)
  {
    var p :| WalkBetween(g, p, u, v);
    var q :| WalkBetween(g, q, v, w);
    assert WalkBetween(g, p + q[1..], u, w);
  }

  lemma ReachEdge(g: Graph, u: nat, v: nat)
    requires WellFormed(g) && Edge(g, u, v)
    ensures Reach(g, u, v)
  {
    assert WalkBetween(g, [u, v], u, v);
  }

  /** A segment of a walk is a walk. */
  lemma WalkSegment(g: Graph, p: seq<nat>, i: nat, j: nat)
    requires IsWalk(g, p) && i <= j < |p|
    ensures Reach(g, p[i], p[j])
  {
    assert WalkBetween(g, p[i..j + 1], p[i], p[j]);
  }

  lemma {:induction false} ReachStaysInClosed(g: Graph, s: set<nat>, p: seq<nat>, u: nat, v: nat)
    requires Closed(g, s) && u in s && WalkBetween(g, p, u, v)
    ensures v in s
    decreases |p|
  {
    if |p| > 1 {
      var q := p[..|p| - 1];
      assert WalkBetween(g, q, u, q[|q| - 1]);
      ReachStaysInClosed(g, s, q, u, q[|q| - 1]);
      assert Edge(g, p[|p| - 2], p[|p| - 1]);
    }
  }

  lemma ClosedContainsReachable(g: Graph, s: set<nat>, u: nat, v: nat)
    requires Closed(g, s) && u in s && Reach(g, u, v)
    ensures v in s
  {
    var p :| WalkBetween(g, p, u, v);
    ReachStaysInClosed(g, s, p, u, v);
  }

  /** Two distinct mutually reachable vertices are on a cycle. */
  lemma MutualOnCycle(g: Graph, u: nat, v: nat)
    requires Mutual(g, u, v) && u != v
    ensures OnCycle(g, u)
  {
    var p :| WalkBetween(g, p, u, v);
    assert Edge(g, p[0], p[1]);
    WalkSegment(g, p, 1, |p| - 1);
    ReachTrans(g, p[1], v, u);
  }

  /** A walk that repeats a vertex passes through a cycle. */
  lemma RepeatOnCycle(g: Graph, p: seq<nat>, i: nat, j: nat)
    requires IsWalk(g, p) && i < j < |p| && p[i] == p[j]
    ensures OnCycle(g, p[i])
  {
    assert Edge(g, p[i], p[i + 1]);
    WalkSegment(g, p, i + 1, j);
  }

  /** The numbers below n. */
  ghost function Below(n: nat): (s: set<nat>)
    ensures |s| == n && forall x: nat :: x in s <==> x < n
  {
    if n == 0 then {} else Below(n - 1) + {n - 1}
  }

  ghost function Elements(s: seq<nat>): set<nat> {
    set x | x in s
  }

  lemma {:induction false} ElementsOfDistinct(s: seq<nat>)
    requires forall i, j :: 0 <= i < j < |s| ==> s[i] != s[j]
    ensures |Elements(s)| == |s|
  {
    if |s| > 0 {
      var rest := s[..|s| - 1];
      ElementsOfDistinct(rest);
      assert s == rest + [s[|s| - 1]];
      assert Elements(s) == Elements(rest) + {s[|s| - 1]};
      assert s[|s| - 1] !in rest;
    }
  }

  /** Pigeonhole: a sequence of distinct numbers below n has at most n elements. */
  lemma DistinctBelow(s: seq<nat>, n: nat)
    requires forall i :: 0 <= i < |s| ==> s[i] < n
    requires forall i, j :: 0 <= i < j < |s| ==> s[i] != s[j]
    ensures |s| <= n
  {
    ElementsOfDistinct(s);
    assert Elements(s) <= Below(n);
    SubsetSize(Elements(s), Below(n));
  }

  lemma SubsetSize<T>(a: set<T>, b: set<T>)
    requires a <= b
    ensures |a| <= |b|
  {
    assert |a| + |b - a| == |b| by { assert b == a + (b - a); }
  }

  /** In a graph where no vertex is on a cycle, a walk visits at most |g| functions. */
  lemma AcyclicWalkBound(g: Graph, p: seq<nat>)
    requires IsWalk(g, p)
    requires forall v: nat :: v < |g| ==> !OnCycle(g, v)
    ensures |p| <= |g|
  {
    forall i, j | 0 <= i < j < |p| ensures p[i] != p[j] {
      if p[i] == p[j] { RepeatOnCycle(g, p, i, j); }
    }
    DistinctBelow(p, |g|);
  }

  /** From a vertex on a cycle there are walks of every length. */
  lemma {:induction false} CycleWalk(g: Graph, v: nat, n: nat) returns (p: seq<nat>)
    requires WellFormed(g) && OnCycle(g, v)
    ensures IsWalk(g, p) && p[0] == v && |p| > n
  {
    if n == 0 {
      p := [v];
    } else {
      var s :| Edge(g, v, s) && Reach(g, s, v);
      var q :| WalkBetween(g, q, s, v);
      var rest := CycleWalk(g, v, n - 1);
      p := [v] + q[..|q| - 1] + rest;
      assert q[|q| - 1] == rest[0];
      forall i | 0 < i < |p| ensures Edge(g, p[i - 1], p[i]) {
        if i < |q| {
          assert p[i] == q[i - 1];
          assert i > 1 ==> p[i - 1] == q[i - 2] && Edge(g, q[i - 2], q[i - 1]);
        } else if i == |q| {
          assert p[i] == rest[0] == q[|q| - 1];
          assert i > 1 ==> p[i - 1] == q[|q| - 2] && Edge(g, q[|q| - 2], q[|q| - 1]);
        } else {
          assert p[i] == rest[i - |q|] && p[i - 1] == rest[i - |q| - 1];
        }
      }
    }
  }
}
