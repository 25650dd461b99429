/**
  The invariant of the iterative strongly-connected-component search of the recursion gate.

  The datatype Search is a snapshot of the search variables, on which the effect of each step is a
  function and the invariant a predicate. The conjuncts of the invariant take only the variables they
  speak of, so that each is carried over a step on its own.
 */
module SearchInvariant {
  import opened CallGraph

  /** The search variables. `path` lists the vertices of the work frames, `active` is their set, and
      `explored` counts the consumed successors of every visited vertex. */
  datatype Search = Search(
    index: map<nat, nat>,
    low: map<nat, nat>,
    onStack: set<nat>,
    stack: seq<nat>,
    path: seq<nat>,
    explored: map<nat, nat>,
    active: set<nat>,
    counter: nat)

  // ---------------------------------------------------------------- invariant

  /** The entry of m for v, or 0. */
  ghost function At(m: map<nat, nat>, v: nat): nat {
    if v in m then m[v] else 0
  }

  ghost predicate Numbered(g: Graph, index: map<nat, nat>, low: map<nat, nat>, counter: nat) {
    && (forall v :: v in index ==> v < |g| && v in low && At(index, v) < counter)
  }

  /** The stack lists onStack in numbering order. */
  ghost predicate Listed(index: map<nat, nat>, onStack: set<nat>, stack: seq<nat>) {
    && (forall v :: v in onStack ==> v in index && v in stack)
    && (forall i :: 0 <= i < |stack| ==> stack[i] in onStack)
    && (forall i, j :: 0 <= i < j < |stack| ==> At(index, stack[i]) < At(index, stack[j]))
  }

  /** The bottom of the stack is the root of the current search. */
  ghost predicate Rooted(stack: seq<nat>, path: seq<nat>) {
    && (|path| == 0 ==> |stack| == 0)
    && (|path| > 0 ==> |stack| > 0 && stack[0] == path[0])
  }

  /** The frames hold the active vertices, which are on the stack, in numbering order. */
  ghost predicate Framed(index: map<nat, nat>, onStack: set<nat>, path: seq<nat>, active: set<nat>) {
    && (forall k :: 0 <= k < |path| ==> path[k] in onStack && path[k] in active)
    && (forall v :: v in active ==> exists k :: 0 <= k < |path| && path[k] == v)
    && (forall k, l :: 0 <= k < l < |path| ==> At(index, path[k]) < At(index, path[l]))
  }

  /** A finished vertex has no successor left to consume. */
  ghost predicate Consumed(g: Graph, index: map<nat, nat>, explored: map<nat, nat>, active: set<nat>) {
    && (forall v :: v in index ==> v < |g| && v in explored && At(explored, v) <= |g[v]|)
    && (forall v :: v in index && v !in active ==> v < |g| && At(explored, v) == |g[v]|)
  }

  /** Vertices already assigned to a component have all their successors there too. */
  ghost predicate DoneClosed(g: Graph, index: map<nat, nat>, onStack: set<nat>) {
    forall v, w :: v in index && v !in onStack && Edge(g, v, w) ==> w in index && w !in onStack
  }

  /** Every vertex on the stack numbered after a work vertex is reachable from it. */
  ghost predicate Descends(g: Graph, index: map<nat, nat>, onStack: set<nat>, path: seq<nat>) {
    forall k, v :: 0 <= k < |path| && v in onStack && At(index, path[k]) <= At(index, v)
      ==> Reach(g, path[k], v)
  }

  /** w witnesses low[v]: it is on the stack, carries that number, and v reaches it. */
  ghost predicate LowWitness(g: Graph, index: map<nat, nat>, low: map<nat, nat>, onStack: set<nat>, v: nat, w: nat) {
    w in onStack && At(index, w) == At(low, v) && Reach(g, v, w)
  }

  ghost predicate LowHit(g: Graph, index: map<nat, nat>, low: map<nat, nat>, onStack: set<nat>, v: nat) {
    exists w :: LowWitness(g, index, low, onStack, v, w)
  }

  ghost predicate LowSound(g: Graph, index: map<nat, nat>, low: map<nat, nat>, onStack: set<nat>) {
    forall v :: v in onStack ==> LowHit(g, index, low, onStack, v)
  }

  ghost predicate LowBounded(index: map<nat, nat>, low: map<nat, nat>, onStack: set<nat>) {
    forall v :: v in onStack ==> At(low, v) <= At(index, v)
  }

  /** low[v] is no larger than the number of any stack vertex one consumed edge away. */
  ghost predicate LowEdges(g: Graph, index: map<nat, nat>, low: map<nat, nat>, onStack: set<nat>,
                           explored: map<nat, nat>) {
    forall v, j :: v in onStack && v < |g| && 0 <= j < At(explored, v) && j < |g[v]| ==>
      && g[v][j] in index
      && (g[v][j] in onStack ==> At(low, v) <= At(index, g[v][j]))
  }

  /** A finished vertex still on the stack has a smaller low... */
  ghost predicate LowSmaller(index: map<nat, nat>, low: map<nat, nat>, onStack: set<nat>, active: set<nat>) {
    forall v :: v in onStack && v !in active ==> At(low, v) < At(index, v)
  }

  /** ... and the last frame numbered below it has inherited that low. */
  ghost predicate LowInherited(index: map<nat, nat>, low: map<nat, nat>, onStack: set<nat>, path: seq<nat>,
                               active: set<nat>) {
    && (forall v :: v in onStack && v !in active && |path| > 0 && At(index, path[|path| - 1]) < At(index, v)
          ==> At(low, path[|path| - 1]) <= At(low, v))
    && (forall k, l, v :: 0 <= k && l == k + 1 && l < |path| && v in onStack && v !in active
          && At(index, path[k]) < At(index, v) < At(index, path[l])
          ==> At(low, path[k]) <= At(low, v))
  }

  ghost predicate Inv(g: Graph, s: Search) {
    && Numbered(g, s.index, s.low, s.counter)
    && Listed(s.index, s.onStack, s.stack)
    && Rooted(s.stack, s.path)
    && Framed(s.index, s.onStack, s.path, s.active)
    && Consumed(g, s.index, s.explored, s.active)
    && DoneClosed(g, s.index, s.onStack)
    && Descends(g, s.index, s.onStack, s.path)
    && LowSound(g, s.index, s.low, s.onStack)
    && LowBounded(s.index, s.low, s.onStack)
    && LowEdges(g, s.index, s.low, s.onStack, s.explored)
    && LowSmaller(s.index, s.low, s.onStack, s.active)
    && LowInherited(s.index, s.low, s.onStack, s.path, s.active)
  }

  // ---------------------------------------------------------------- discovering a vertex

  /** Number a new vertex and give it a frame. */
  function Discover(s: Search, v: nat): Search {
    Search(s.index[v := s.counter], s.low[v := s.counter], s.onStack + {v}, s.stack + [v],
           s.path + [v], s.explored[v := 0], s.active + {v}, s.counter + 1)
  }

  /** v may be discovered next: as a root, or as a successor of the top frame. */
  ghost predicate Discoverable(g: Graph, s: Search, v: nat) {
    && v < |g| && v !in s.index
    && (|s.path| > 0 ==> Edge(g, s.path[|s.path| - 1], v))
  }

  lemma DiscoverListed(index: map<nat, nat>, onStack: set<nat>, stack: seq<nat>, v: nat, c: nat)
    requires Listed(index, onStack, stack) && v !in index
    requires forall u :: u in index ==> At(index, u) < c
    ensures Listed(index[v := c], onStack + {v}, stack + [v])
  {
  }

  lemma DiscoverFramed(index: map<nat, nat>, onStack: set<nat>, path: seq<nat>, active: set<nat>, v: nat, c: nat)
    requires Framed(index, onStack, path, active) && v !in index
    requires forall u :: u in onStack ==> u in index
    requires forall u :: u in index ==> At(index, u) < c
    ensures Framed(index[v := c], onStack + {v}, path + [v], active + {v})
  {
    var t := path + [v];
    forall u | u in active + {v} ensures exists k :: 0 <= k < |t| && t[k] == u {
      if u == v {
        assert t[|path|] == v;
      } else {
        var k :| 0 <= k < |path| && path[k] == u;
        assert t[k] == u;
      }
    }
  }

  lemma DiscoverDescends(g: Graph, index: map<nat, nat>, onStack: set<nat>, path: seq<nat>, v: nat, c: nat)
    requires WellFormed(g) && v < |g| && v !in index
    requires Descends(g, index, onStack, path)
    requires forall u :: u in onStack ==> u in index
    requires forall u :: u in index ==> At(index, u) < c
    requires forall k :: 0 <= k < |path| ==> path[k] in onStack
    requires forall k, l :: 0 <= k < l < |path| ==> At(index, path[k]) < At(index, path[l])
    requires |path| > 0 ==> Edge(g, path[|path| - 1], v)
    ensures Descends(g, index[v := c], onStack + {v}, path + [v])
  {
    var t := path + [v];
    forall k | 0 <= k < |t| ensures Reach(g, t[k], v) {
      if k == |path| {
        ReachSelf(g, v);
      } else {
        var top := path[|path| - 1];
        assert Reach(g, path[k], top);
        ReachEdge(g, top, v);
        ReachTrans(g, path[k], top, v);
      }
    }
  }

  lemma DiscoverLowHit(g: Graph, index: map<nat, nat>, low: map<nat, nat>, onStack: set<nat>, v: nat, c: nat, u: nat)
    requires v < |g| && v !in index
    requires u != v ==> LowHit(g, index, low, onStack, u) && u in index
    requires forall w :: w in onStack ==> w in index
    ensures LowHit(g, index[v := c], low[v := c], onStack + {v}, u)
  {
    hide Reach;
    if u == v {
      assert Reach(g, v, v) by { ReachSelf(g, v); }
      assert LowWitness(g, index[v := c], low[v := c], onStack + {v}, v, v);
    } else {
      var w :| LowWitness(g, index, low, onStack, u, w);
      assert LowWitness(g, index[v := c], low[v := c], onStack + {v}, u, w);
    }
  }

  lemma DiscoverLowSound(g: Graph, index: map<nat, nat>, low: map<nat, nat>, onStack: set<nat>, v: nat, c: nat)
    requires v < |g| && v !in index
    requires LowSound(g, index, low, onStack) && LowBounded(index, low, onStack)
    requires forall u :: u in onStack ==> u in index
    ensures LowSound(g, index[v := c], low[v := c], onStack + {v})
    ensures LowBounded(index[v := c], low[v := c], onStack + {v})
  {
    hide LowHit;
    forall u | u in onStack + {v} ensures LowHit(g, index[v := c], low[v := c], onStack + {v}, u) {
      DiscoverLowHit(g, index, low, onStack, v, c, u);
    }
  }

  lemma DiscoverLowEdges(g: Graph, index: map<nat, nat>, low: map<nat, nat>, onStack: set<nat>,
                         explored: map<nat, nat>, v: nat, c: nat)
    requires v !in index
    requires LowEdges(g, index, low, onStack, explored)
    requires forall u :: u in onStack ==> u in index && At(low, u) <= At(index, u) < c
    ensures LowEdges(g, index[v := c], low[v := c], onStack + {v}, explored[v := 0])
  {
  }

  lemma DiscoverLowInherited(index: map<nat, nat>, low: map<nat, nat>, onStack: set<nat>, path: seq<nat>,
                             active: set<nat>, v: nat, c: nat)
    requires v !in index
    requires LowInherited(index, low, onStack, path, active)
    requires forall u :: u in onStack ==> u in index
    requires forall u :: u in index ==> At(index, u) < c
    requires forall k :: 0 <= k < |path| ==> path[k] in onStack
    ensures LowInherited(index[v := c], low[v := c], onStack + {v}, path + [v], active + {v})
  {
    var t := path + [v];
  }

  lemma DiscoverConsumed(g: Graph, s: Search, v: nat)
    requires v < |g| && v !in s.index
    requires Consumed(g, s.index, s.explored, s.active)
    ensures var t := Discover(s, v); Consumed(g, t.index, t.explored, t.active)
  {
  }

  /** The plain facts about the variables that the step lemmas need. */
  ghost predicate Basics(g: Graph, s: Search) {
    && (forall v :: v in s.index ==> v < |g| && v in s.low && At(s.index, v) < s.counter)
    && (forall v :: v in s.onStack ==> v in s.index)
    && (forall v :: v in s.onStack ==> At(s.low, v) <= At(s.index, v))
    && (forall k :: 0 <= k < |s.path| ==> s.path[k] in s.onStack)
    && (forall k, l :: 0 <= k < l < |s.path| ==> At(s.index, s.path[k]) < At(s.index, s.path[l]))
  }

  lemma InvBasics(g: Graph, s: Search)
    requires Inv(g, s)
    ensures Basics(g, s)
  {
    hide Descends, DoneClosed, LowEdges, LowSmaller, LowInherited, Consumed, Rooted, LowSound;
  }

  lemma DiscoverPlain(g: Graph, s: Search, v: nat)
    requires Discoverable(g, s, v) && Basics(g, s)
    requires Numbered(g, s.index, s.low, s.counter) && Rooted(s.stack, s.path)
    requires DoneClosed(g, s.index, s.onStack) && LowSmaller(s.index, s.low, s.onStack, s.active)
    ensures var t := Discover(s, v);
      && Numbered(g, t.index, t.low, t.counter) && Rooted(t.stack, t.path)
      && DoneClosed(g, t.index, t.onStack) && LowSmaller(t.index, t.low, t.onStack, t.active)
  {
  }

  lemma DiscoverKeeps(g: Graph, s: Search, v: nat)
    requires WellFormed(g) && Inv(g, s) && Discoverable(g, s, v)
    ensures Inv(g, Discover(s, v))
  {
    hide Listed, Framed, Consumed, Descends, LowSound, LowBounded, LowEdges, LowInherited, WellFormed;
    hide Numbered, Rooted, DoneClosed, LowSmaller;
    var c := s.counter;
    InvBasics(g, s);
    DiscoverPlain(g, s, v);
    DiscoverListed(s.index, s.onStack, s.stack, v, c);
    DiscoverFramed(s.index, s.onStack, s.path, s.active, v, c);
    DiscoverConsumed(g, s, v);
    DiscoverDescends(g, s.index, s.onStack, s.path, v, c);
    DiscoverLowSound(g, s.index, s.low, s.onStack, v, c);
    DiscoverLowEdges(g, s.index, s.low, s.onStack, s.explored, v, c);
    DiscoverLowInherited(s.index, s.low, s.onStack, s.path, s.active, v, c);
  }

  // ---------------------------------------------------------------- consuming a successor

  /** Record one more consumed successor of `node`, leaving its low at `l`. */
  function Consume(s: Search, node: nat, l: nat): Search
    requires node in s.explored
  {
    s.(explored := s.explored[node := s.explored[node] + 1], low := s.low[node := l])
  }

  /** l may become the low of node once its next successor has been looked at. */
  ghost predicate Consumable(g: Graph, s: Search, node: nat, l: nat) {
    && node in s.active && node in s.onStack && node in s.explored && node < |g|
    && s.explored[node] < |g[node]|
    && g[node][s.explored[node]] in s.index
    && (g[node][s.explored[node]] in s.onStack ==> l <= At(s.index, g[node][s.explored[node]]))
    && l <= At(s.low, node)
    && exists w :: w in s.onStack && At(s.index, w) == l && Reach(g, node, w)
  }

  lemma LowerLowHit(g: Graph, index: map<nat, nat>, low: map<nat, nat>, onStack: set<nat>, node: nat, l: nat,
                    target: nat, u: nat)
    requires u != node ==> LowHit(g, index, low, onStack, u)
    requires target in onStack && At(index, target) == l && Reach(g, node, target)
    ensures LowHit(g, index, low[node := l], onStack, u)
  {
    hide Reach;
    if u == node {
      assert LowWitness(g, index, low[node := l], onStack, u, target);
    } else {
      var w :| LowWitness(g, index, low, onStack, u, w);
      assert LowWitness(g, index, low[node := l], onStack, u, w);
    }
  }

  lemma LowerLowSound(g: Graph, index: map<nat, nat>, low: map<nat, nat>, onStack: set<nat>, node: nat, l: nat,
                      target: nat)
    requires LowSound(g, index, low, onStack) && LowBounded(index, low, onStack) && l <= At(low, node)
    requires target in onStack && At(index, target) == l && Reach(g, node, target)
    ensures LowSound(g, index, low[node := l], onStack)
    ensures LowBounded(index, low[node := l], onStack)
  {
    hide Reach, LowHit;
    forall u | u in onStack ensures LowHit(g, index, low[node := l], onStack, u) {
      LowerLowHit(g, index, low, onStack, node, l, target, u);
    }
  }

  lemma ConsumeLowEdges(g: Graph, index: map<nat, nat>, low: map<nat, nat>, onStack: set<nat>, explored: map<nat, nat>,
                        node: nat, l: nat)
    requires LowEdges(g, index, low, onStack, explored)
    requires node in explored && node < |g| && explored[node] < |g[node]| && l <= At(low, node)
    requires var succ := g[node][explored[node]];
      succ in index && (succ in onStack ==> l <= At(index, succ))
    ensures LowEdges(g, index, low[node := l], onStack, explored[node := explored[node] + 1])
  {
  }

  lemma ConsumeLowInherited(index: map<nat, nat>, low: map<nat, nat>, onStack: set<nat>, path: seq<nat>,
                            active: set<nat>, node: nat, l: nat)
    requires node in active && l <= At(low, node)
    requires LowInherited(index, low, onStack, path, active) && LowSmaller(index, low, onStack, active)
    ensures LowInherited(index, low[node := l], onStack, path, active)
    ensures LowSmaller(index, low[node := l], onStack, active)
  {
    assert forall u :: At(low[node := l], u) <= At(low, u) && (u != node ==> At(low[node := l], u) == At(low, u));
  }

  lemma ConsumePlain(g: Graph, s: Search, node: nat, l: nat)
    requires node in s.active && node in s.explored && node < |g| && s.explored[node] < |g[node]|
    requires Numbered(g, s.index, s.low, s.counter) && Consumed(g, s.index, s.explored, s.active)
    ensures var t := Consume(s, node, l);
      && Numbered(g, t.index, t.low, t.counter) && Consumed(g, t.index, t.explored, t.active)
  {
  }

  lemma ConsumeKeeps(g: Graph, s: Search, node: nat, l: nat)
    requires Inv(g, s) && Consumable(g, s, node, l)
    ensures Inv(g, Consume(s, node, l))
  {
    hide Listed, Framed, Consumed, Descends, LowSound, LowBounded, LowEdges, LowInherited, Numbered, Rooted;
    hide DoneClosed, LowSmaller, Reach;
    var w :| w in s.onStack && At(s.index, w) == l && Reach(g, node, w);
    ConsumePlain(g, s, node, l);
    ConsumeLowInherited(s.index, s.low, s.onStack, s.path, s.active, node, l);
    LowerLowSound(g, s.index, s.low, s.onStack, node, l, w);
    ConsumeLowEdges(g, s.index, s.low, s.onStack, s.explored, node, l);
  }

  // ---------------------------------------------------------------- finishing a vertex

  function Min(a: nat, b: nat): nat {
    if a <= b then a else b
  }

  /** Drop the top frame and let its parent, if any, inherit the low. */
  function Finish(s: Search): Search
    requires |s.path| > 0 && forall k :: 0 <= k < |s.path| ==> s.path[k] in s.low
  {
    var node := s.path[|s.path| - 1];
    var path := s.path[..|s.path| - 1];
    var low := if |path| == 0 then s.low
               else var parent := path[|path| - 1];
                    s.low[parent := Min(s.low[parent], s.low[node])];
    s.(path := path, low := low, active := s.active - {node})
  }

  /** Numbers on the stack are distinct. */
  lemma StackInjective(index: map<nat, nat>, onStack: set<nat>, stack: seq<nat>, u: nat, v: nat)
    requires Listed(index, onStack, stack)
    requires u in onStack && v in onStack && At(index, u) == At(index, v)
    ensures u == v
  {
    var i :| 0 <= i < |stack| && stack[i] == u;
    var j :| 0 <= j < |stack| && stack[j] == v;
    assert !(i < j) && !(j < i);
  }

  /** The bottom of the stack has the smallest number. */
  lemma BottomSmallest(index: map<nat, nat>, onStack: set<nat>, stack: seq<nat>, v: nat)
    requires Listed(index, onStack, stack) && v in onStack
    ensures |stack| > 0 && At(index, stack[0]) <= At(index, v)
  {
    var i :| 0 <= i < |stack| && stack[i] == v;
  }

  /** The top frame has consumed everything. */
  ghost predicate Exhausted(g: Graph, s: Search) {
    && |s.path| > 0
    && var node := s.path[|s.path| - 1]; node < |g| && At(s.explored, node) == |g[node]|
  }

  lemma FinishFramed(index: map<nat, nat>, onStack: set<nat>, path: seq<nat>, active: set<nat>)
    requires Framed(index, onStack, path, active) && |path| > 0
    ensures Framed(index, onStack, path[..|path| - 1], active - {path[|path| - 1]})
  {
    var n := |path| - 1;
    forall k | 0 <= k < n ensures path[k] != path[n] {
      assert At(index, path[k]) < At(index, path[n]);
    }
    forall v | v in active - {path[n]} ensures exists k :: 0 <= k < n && path[..n][k] == v {
      var k :| 0 <= k < |path| && path[k] == v;
      assert path[..n][k] == v;
    }
  }

  lemma FinishInherited(index: map<nat, nat>, low: map<nat, nat>, onStack: set<nat>, path: seq<nat>, active: set<nat>,
                        l: nat)
    requires |path| > 1
    requires LowInherited(index, low, onStack, path, active)
    requires forall k, m :: 0 <= k < m < |path| ==> At(index, path[k]) < At(index, path[m])
    requires var n := |path| - 1;
      && path[n - 1] in active && l <= At(low, path[n - 1]) && l <= At(low, path[n])
      && forall u :: u in onStack && At(index, u) == At(index, path[n]) ==> u == path[n]
    ensures var n := |path| - 1;
      LowInherited(index, low[path[n - 1] := l], onStack, path[..n], active - {path[n]})
  {
    var n := |path| - 1;
    var node, parent := path[n], path[n - 1];
    var low', path' := low[parent := l], path[..n];
    assert path'[|path'| - 1] == parent;
    assert At(low', parent) == l;
    forall v | v in onStack && v !in active - {node} && At(index, parent) < At(index, v)
      ensures l <= At(low', v)
    {
      assert v != parent && At(low', v) == At(low, v);
      if v != node {
        if At(index, node) < At(index, v) {
          assert At(low, node) <= At(low, v);
        } else {
          assert At(index, path[n - 1]) < At(index, v) < At(index, path[n]);
        }
      }
    }
    forall k, m, v | 0 <= k && m == k + 1 && m < |path'| && v in onStack && v !in active - {node}
        && At(index, path'[k]) < At(index, v) < At(index, path'[m])
      ensures At(low', path'[k]) <= At(low', v)
    {
      assert At(index, path'[m]) < At(index, node);
      assert At(index, path[k]) < At(index, parent);
      assert v != node;
      assert At(low, path[k]) <= At(low, v);
      assert At(low', path[k]) == At(low, path[k]);
    }
  }

  lemma LowerLowEdges(g: Graph, index: map<nat, nat>, low: map<nat, nat>, onStack: set<nat>, explored: map<nat, nat>,
                      node: nat, l: nat)
    requires LowEdges(g, index, low, onStack, explored) && l <= At(low, node)
    ensures LowEdges(g, index, low[node := l], onStack, explored)
  {
    assert forall u :: At(low[node := l], u) <= At(low, u);
  }

  lemma FinishDescends(g: Graph, index: map<nat, nat>, onStack: set<nat>, path: seq<nat>)
    requires Descends(g, index, onStack, path) && |path| > 0
    ensures Descends(g, index, onStack, path[..|path| - 1])
  {
    hide Reach;
  }

  lemma FinishConsumed(g: Graph, s: Search)
    requires Consumed(g, s.index, s.explored, s.active) && Exhausted(g, s)
    ensures Consumed(g, s.index, s.explored, s.active - {s.path[|s.path| - 1]})
  {
  }

  /** The last two frames, and how the low of the parent is witnessed. */
  lemma ParentTarget(g: Graph, s: Search) returns (target: nat)
    requires Inv(g, s) && |s.path| > 1
    ensures var n := |s.path| - 1;
      && target in s.onStack && Reach(g, s.path[n - 1], target)
      && At(s.index, target) == Min(At(s.low, s.path[n - 1]), At(s.low, s.path[n]))
  {
    hide Reach, Listed, Numbered, Rooted, LowEdges, LowInherited, LowSmaller, Consumed, DoneClosed;
    InvBasics(g, s);
    var n := |s.path| - 1;
    var parent, node := s.path[n - 1], s.path[n];
    assert LowHit(g, s.index, s.low, s.onStack, parent) && LowHit(g, s.index, s.low, s.onStack, node);
    var a :| LowWitness(g, s.index, s.low, s.onStack, parent, a);
    var b :| LowWitness(g, s.index, s.low, s.onStack, node, b);
    if At(s.low, parent) <= At(s.low, node) {
      target := a;
    } else {
      target := b;
      assert Reach(g, parent, node);
      ReachTrans(g, parent, node, b);
    }
  }

  /** A vertex that keeps a smaller low cannot be the root of its search. */
  lemma HasParent(g: Graph, s: Search)
    requires Inv(g, s) && |s.path| > 0
    requires var node := s.path[|s.path| - 1]; At(s.low, node) < At(s.index, node)
    ensures |s.path| > 1
  {
    hide Reach, Descends, LowEdges, LowInherited, LowSmaller, Consumed, DoneClosed;
    var node := s.path[|s.path| - 1];
    assert LowHit(g, s.index, s.low, s.onStack, node);
    var w :| LowWitness(g, s.index, s.low, s.onStack, node, w);
    BottomSmallest(s.index, s.onStack, s.stack, w);
    assert s.stack[0] == s.path[0];
  }

  lemma FinishInnerPlain(g: Graph, s: Search)
    requires Basics(g, s) && |s.path| > 1 && Numbered(g, s.index, s.low, s.counter)
    requires Rooted(s.stack, s.path)
    ensures var t := Finish(s);
      Numbered(g, t.index, t.low, t.counter) && Rooted(t.stack, t.path)
  {
  }

  lemma FinishInnerSmaller(index: map<nat, nat>, low: map<nat, nat>, onStack: set<nat>, active: set<nat>, node: nat,
                           parent: nat, l: nat)
    requires LowSmaller(index, low, onStack, active) && At(low, node) < At(index, node)
    requires l <= At(low, parent)
    ensures LowSmaller(index, low[parent := l], onStack, active - {node})
  {
    assert forall u :: At(low[parent := l], u) <= At(low, u);
  }

  /** Finishing a vertex whose low is smaller than its number keeps the invariant. */
  lemma FinishInnerKeeps(g: Graph, s: Search)
    requires Inv(g, s) && Exhausted(g, s)
    requires var node := s.path[|s.path| - 1]; At(s.low, node) < At(s.index, node)
    ensures |s.path| > 1 && Basics(g, s) && Inv(g, Finish(s))
  {
    hide Reach, Listed, Descends, LowEdges, LowInherited, LowSmaller, Consumed, DoneClosed, LowSound;
    hide LowBounded, LowHit, Rooted, Numbered;
    InvBasics(g, s);
    HasParent(g, s);
    var n := |s.path| - 1;
    var node, parent := s.path[n], s.path[n - 1];
    var l := Min(s.low[parent], s.low[node]);
    assert l == Min(At(s.low, parent), At(s.low, node));
    var target := ParentTarget(g, s);
    assert Finish(s).low == s.low[parent := l];
    LowerLowSound(g, s.index, s.low, s.onStack, parent, l, target);
    LowerLowEdges(g, s.index, s.low, s.onStack, s.explored, parent, l);
    FinishFramed(s.index, s.onStack, s.path, s.active);
    FinishConsumed(g, s);
    FinishDescends(g, s.index, s.onStack, s.path);
    FinishInnerPlain(g, s);
    FinishInnerSmaller(s.index, s.low, s.onStack, s.active, node, parent, l);
    forall u | u in s.onStack && At(s.index, u) == At(s.index, node) ensures u == node {
      StackInjective(s.index, s.onStack, s.stack, u, node);
    }
    assert parent in s.active;
    FinishInherited(s.index, s.low, s.onStack, s.path, s.active, l);
  }

  // ---------------------------------------------------------------- completing a component

  /** The top frame is exhausted and its low is its own number: the root of a component. */
  ghost predicate AtRoot(g: Graph, s: Search) {
    && Exhausted(g, s)
    && var node := s.path[|s.path| - 1]; At(s.low, node) == At(s.index, node)
  }

  /** The stack vertices numbered from the top frame's vertex on. */
  ghost function Component(s: Search): set<nat>
    requires |s.path| > 0
  {
    set v | v in s.onStack && At(s.index, s.path[|s.path| - 1]) <= At(s.index, v)
  }

  /** Drop the top frame and its component. */
  ghost function Retire(s: Search, pos: nat): Search
    requires |s.path| > 0 && pos <= |s.stack|
  {
    var node := s.path[|s.path| - 1];
    s.(path := s.path[..|s.path| - 1], active := s.active - {node},
       onStack := s.onStack - Component(s), stack := s.stack[..pos])
  }

  /** Every other member of the component is finished, and its low stays within the component. */
  lemma ComponentLow(g: Graph, s: Search, v: nat)
    requires Inv(g, s) && AtRoot(g, s) && v in Component(s)
    ensures var node := s.path[|s.path| - 1];
      && At(s.index, node) <= At(s.low, v)
      && (v != node ==> v !in s.active && At(s.low, v) < At(s.index, v))
  {
    hide Reach, Numbered, Rooted, Descends, LowEdges, Consumed, DoneClosed, LowSound;
    var node := s.path[|s.path| - 1];
    assert v in s.onStack && node in s.onStack;
    if v != node {
      if At(s.index, v) == At(s.index, node) { StackInjective(s.index, s.onStack, s.stack, v, node); }
      assert v !in s.active by { hide LowInherited, LowSmaller, Listed; }
    }
  }

  lemma {:induction false} ComponentReaches(g: Graph, s: Search, v: nat)
    requires Inv(g, s) && AtRoot(g, s) && v in Component(s)
    ensures Reach(g, v, s.path[|s.path| - 1])
    decreases At(s.index, v)
  {
    hide Reach, Descends, LowEdges, Consumed, DoneClosed, LowInherited, LowSmaller, Framed, Rooted;
    var node := s.path[|s.path| - 1];
    if v == node {
      assert v < |g|;
      ReachSelf(g, v);
    } else {
      ComponentLow(g, s, v);
      assert LowHit(g, s.index, s.low, s.onStack, v);
      var w :| LowWitness(g, s.index, s.low, s.onStack, v, w);
      ComponentReaches(g, s, w);
      ReachTrans(g, v, w, node);
    }
  }

  lemma ComponentReached(g: Graph, s: Search, v: nat)
    requires Inv(g, s) && AtRoot(g, s) && v in Component(s)
    ensures Reach(g, s.path[|s.path| - 1], v)
  {
    hide Reach, LowEdges, Consumed, DoneClosed, LowInherited, LowSmaller, Rooted, LowSound, Listed;
  }

  /** An edge out of the component ends in it or in a vertex already assigned. */
  lemma ComponentEdge(g: Graph, s: Search, v: nat, w: nat)
    requires Inv(g, s) && AtRoot(g, s) && v in Component(s) && Edge(g, v, w)
    ensures w in s.index && (w in s.onStack ==> w in Component(s))
  {
    hide Reach, Descends, DoneClosed, LowInherited, LowSmaller, Rooted, LowSound, Numbered;
    ComponentLow(g, s, v);
    var node := s.path[|s.path| - 1];
    assert v in s.index;
    assert At(s.explored, v) == |g[v]|;
    var j :| 0 <= j < |g[v]| && g[v][j] == w;
  }

  /** The component is a strongly connected component of the graph. */
  lemma ComponentIsScc(g: Graph, s: Search, u: nat, x: nat)
    requires Inv(g, s) && AtRoot(g, s) && u in Component(s)
    ensures x in Component(s) <==> Mutual(g, u, x)
  {
    hide Reach, Numbered, Listed, Rooted, Framed, Consumed, Descends, LowSound, LowBounded, LowEdges;
    hide LowSmaller, LowInherited;
    var node := s.path[|s.path| - 1];
    ComponentReaches(g, s, u);
    ComponentReached(g, s, u);
    if x in Component(s) {
      ComponentReaches(g, s, x);
      ComponentReached(g, s, x);
      ReachTrans(g, u, node, x);
      ReachTrans(g, x, node, u);
    }
    if Mutual(g, u, x) && x !in Component(s) {
      MutualInComponent(g, s, u, x);
    }
  }

  lemma MutualInComponent(g: Graph, s: Search, u: nat, x: nat)
    requires Inv(g, s) && AtRoot(g, s) && u in Component(s) && Mutual(g, u, x)
    ensures x in Component(s)
  {
    hide Reach, Numbered, Listed, Rooted, Framed, Consumed, Descends, LowSound, LowBounded, LowEdges;
    hide LowSmaller, LowInherited;
    var done := set v | v in s.index && v !in s.onStack;
    forall v, w | v in Component(s) + done && Edge(g, v, w) ensures w in Component(s) + done {
      if v in Component(s) { ComponentEdge(g, s, v, w); }
    }
    assert Closed(g, Component(s) + done);
    ClosedContainsReachable(g, Component(s) + done, u, x);
    if x in done {
      assert Closed(g, done);
      ClosedContainsReachable(g, done, x, u);
    }
  }

  /** A stack vertex is in the component exactly when it lies at or above the top frame's vertex. */
  lemma StackPlace(s: Search, pos: nat, i: nat)
    requires Listed(s.index, s.onStack, s.stack) && |s.path| > 0
    requires pos < |s.stack| && s.stack[pos] == s.path[|s.path| - 1] && i < |s.stack|
    ensures s.stack[i] in s.onStack && (s.stack[i] in Component(s) <==> i >= pos)
  {
    assert i < pos ==> At(s.index, s.stack[i]) < At(s.index, s.stack[pos]);
    assert i > pos ==> At(s.index, s.stack[pos]) < At(s.index, s.stack[i]);
  }

  /** The component is the stack from the top frame's vertex on. */
  lemma ComponentIsStackTop(s: Search, pos: nat)
    requires Listed(s.index, s.onStack, s.stack) && |s.path| > 0
    requires pos < |s.stack| && s.stack[pos] == s.path[|s.path| - 1]
    ensures Component(s) == Elements(s.stack[pos..])
    ensures Listed(s.index, s.onStack - Component(s), s.stack[..pos])
  {
    forall i | 0 <= i < |s.stack| ensures s.stack[i] in s.onStack && (s.stack[i] in Component(s) <==> i >= pos) {
      StackPlace(s, pos, i);
    }
    BelowIsListed(s, pos);
    assert Component(s) <= s.onStack;
    hide Component;
    forall v ensures v in Component(s) <==> v in s.stack[pos..] {
      if v in Component(s) {
        var i :| 0 <= i < |s.stack| && s.stack[i] == v;
        assert s.stack[pos..][i - pos] == v;
      }
      if v in s.stack[pos..] {
        var j :| 0 <= j < |s.stack| - pos && s.stack[pos..][j] == v;
        assert s.stack[pos + j] == v;
      }
    }
  }

  /** The stack below that vertex lists what stays on it. */
  lemma BelowIsListed(s: Search, pos: nat)
    requires Listed(s.index, s.onStack, s.stack) && pos <= |s.stack| && |s.path| > 0
    requires forall i :: 0 <= i < |s.stack| ==> s.stack[i] in s.onStack && (s.stack[i] in Component(s) <==> i >= pos)
    ensures Listed(s.index, s.onStack - Component(s), s.stack[..pos])
  {
    hide Component;
    forall v | v in s.onStack - Component(s) ensures v in s.stack[..pos] {
      var i :| 0 <= i < |s.stack| && s.stack[i] == v;
      assert s.stack[..pos][i] == v;
    }
  }

  lemma RetireLowSound(g: Graph, s: Search)
    requires |s.path| > 0
    requires LowSound(g, s.index, s.low, s.onStack) && LowBounded(s.index, s.low, s.onStack)
    ensures LowSound(g, s.index, s.low, s.onStack - Component(s))
    ensures LowBounded(s.index, s.low, s.onStack - Component(s))
  {
    hide Reach;
    var rest := s.onStack - Component(s);
    forall v | v in rest ensures LowHit(g, s.index, s.low, rest, v) {
      var w :| LowWitness(g, s.index, s.low, s.onStack, v, w);
      assert LowWitness(g, s.index, s.low, rest, v, w);
    }
  }

  lemma RetireFramed(s: Search)
    requires Framed(s.index, s.onStack, s.path, s.active) && |s.path| > 0
    ensures var n := |s.path| - 1;
      Framed(s.index, s.onStack - Component(s), s.path[..n], s.active - {s.path[n]})
  {
    FinishFramed(s.index, s.onStack, s.path, s.active);
  }

  lemma RetireInherited(index: map<nat, nat>, low: map<nat, nat>, onStack: set<nat>, rest: set<nat>,
                        path: seq<nat>, active: set<nat>)
    requires |path| > 0 && rest <= onStack
    requires forall k, l :: 0 <= k < l < |path| ==> At(index, path[k]) < At(index, path[l])
    requires forall v :: v in rest ==> At(index, v) < At(index, path[|path| - 1])
    requires LowInherited(index, low, onStack, path, active)
    ensures LowInherited(index, low, rest, path[..|path| - 1], active - {path[|path| - 1]})
  {
    var n := |path| - 1;
    if n > 0 {
      forall v | v in rest && v !in active - {path[n]} && At(index, path[..n][n - 1]) < At(index, v)
        ensures At(low, path[..n][n - 1]) <= At(low, v)
      {
        assert v !in active;
        assert At(index, path[n - 1]) < At(index, v) < At(index, path[n]);
      }
    }
  }

  lemma RetirePlain(g: Graph, s: Search)
    requires Inv(g, s) && AtRoot(g, s)
    ensures var rest := s.onStack - Component(s);
      && DoneClosed(g, s.index, rest) && LowEdges(g, s.index, s.low, rest, s.explored)
      && LowSmaller(s.index, s.low, rest, s.active - {s.path[|s.path| - 1]})
  {
    hide Reach, Numbered, Listed, Rooted, Consumed, Descends, LowSound, LowBounded, LowInherited;
    var rest := s.onStack - Component(s);
    assert s.path[|s.path| - 1] in Component(s);
    forall v, w | v in s.index && v !in rest && Edge(g, v, w) ensures w in s.index && w !in rest {
      hide LowEdges, LowSmaller;
      if v in Component(s) { ComponentEdge(g, s, v, w); }
    }
  }

  lemma RetireRooted(s: Search, pos: nat)
    requires Listed(s.index, s.onStack, s.stack) && Rooted(s.stack, s.path) && |s.path| > 0
    requires forall k, l :: 0 <= k < l < |s.path| ==> At(s.index, s.path[k]) < At(s.index, s.path[l])
    requires pos < |s.stack| && s.stack[pos] == s.path[|s.path| - 1]
    ensures Rooted(s.stack[..pos], s.path[..|s.path| - 1])
  {
    if |s.path| == 1 {
      assert s.stack[0] == s.stack[pos];
    } else {
      assert s.stack[0] == s.path[0];
      assert At(s.index, s.path[0]) < At(s.index, s.path[|s.path| - 1]);
    }
  }

  lemma RetireDescends(g: Graph, s: Search)
    requires |s.path| > 0 && Descends(g, s.index, s.onStack, s.path)
    ensures Descends(g, s.index, s.onStack - Component(s), s.path[..|s.path| - 1])
  {
    hide Reach;
  }

  /** Completing a component keeps the invariant. */
  lemma RetireKeeps(g: Graph, s: Search, pos: nat)
    requires Inv(g, s) && AtRoot(g, s)
    requires pos < |s.stack| && s.stack[pos] == s.path[|s.path| - 1]
    ensures Inv(g, Retire(s, pos))
    ensures Component(s) == Elements(s.stack[pos..])
  {
    hide Reach, Listed, Rooted, Consumed, Descends, LowSound, LowBounded, LowEdges, LowSmaller, LowInherited;
    hide Framed, DoneClosed;
    InvBasics(g, s);
    ComponentIsStackTop(s, pos);
    RetireRooted(s, pos);
    RetireFramed(s);
    FinishConsumed(g, s);
    RetirePlain(g, s);
    RetireDescends(g, s);
    RetireLowSound(g, s);
    RetireInherited(s.index, s.low, s.onStack, s.onStack - Component(s), s.path, s.active);
  }

  /** When the finished vertex is a root, its parent's low does not change. */
  lemma FinishRootLow(g: Graph, s: Search)
    requires Inv(g, s) && AtRoot(g, s)
    ensures Basics(g, s) && Finish(s).low == s.low
  {
    hide Reach, Listed, Rooted, Consumed, Descends, LowSound, LowBounded, LowEdges, LowSmaller, LowInherited;
    hide Framed, DoneClosed, Numbered;
    InvBasics(g, s);
    var n := |s.path| - 1;
    if n > 0 {
      assert At(s.low, s.path[n - 1]) <= At(s.index, s.path[n - 1]) < At(s.index, s.path[n]) == At(s.low, s.path[n]);
      assert s.path[n - 1] in s.index;
      assert s.low[s.path[n - 1] := s.low[s.path[n - 1]]] == s.low;
    }
  }
}
