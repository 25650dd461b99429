/**
  The iterative strongly-connected-component search of the recursion gate (FindCycles), and what an
  empty result says about the depth of call chains.
 */
module CycleFinder {
  import opened CallGraph
  import opened SearchInvariant

  /** One entry of the work stack: a function and how many of its successors were consumed. */
  datatype Frame = Frame(node: nat, cursor: nat)

  // ---------------------------------------------------------------- the reported cycles

  ghost predicate Ascending(s: seq<nat>) {
    forall i, j :: 0 <= i < j < |s| ==> s[i] < s[j]
  }

  ghost predicate Distinct(s: seq<nat>) {
    forall i, j :: 0 <= i < j < |s| ==> s[i] != s[j]
  }

  function Insert(x: nat, s: seq<nat>): seq<nat> {
    if |s| == 0 then [x]
    else if x <= s[0] then [x] + s
    else [s[0]] + Insert(x, s[1..])
  }

  /** The members of s in ascending order. */
  function Sorted(s: seq<nat>): seq<nat> {
    if |s| == 0 then [] else Insert(s[0], Sorted(s[1..]))
  }

  lemma {:induction false} InsertMembers(x: nat, s: seq<nat>)
    ensures Elements(Insert(x, s)) == Elements(s) + {x}
  {
    if |s| > 0 {
      assert s == [s[0]] + s[1..];
      if x > s[0] {
        InsertMembers(x, s[1..]);
        var rest := Insert(x, s[1..]);
        assert Elements([s[0]] + rest) == {s[0]} + Elements(rest);
        assert Elements([s[0]] + s[1..]) == {s[0]} + Elements(s[1..]);
      }
    }
  }

  lemma {:induction false} InsertAscending(x: nat, s: seq<nat>)
    requires Ascending(s) && x !in s
    ensures Ascending(Insert(x, s))
  {
    if |s| > 0 && x > s[0] {
      var rest := Insert(x, s[1..]);
      assert Ascending(rest) by { InsertAscending(x, s[1..]); }
      InsertMembers(x, s[1..]);
      forall i | 0 <= i < |rest| ensures s[0] < rest[i] {
        assert rest[i] in Elements(rest);
      }
    }
  }

  /** Sorting keeps the members, and sorts a sequence without repetitions strictly. */
  lemma {:induction false} SortedCorrect(s: seq<nat>)
    ensures Elements(Sorted(s)) == Elements(s)
    ensures Distinct(s) ==> Ascending(Sorted(s))
  {
    if |s| > 0 {
      assert s == [s[0]] + s[1..];
      var rest := Sorted(s[1..]);
      SortedCorrect(s[1..]);
      InsertMembers(s[0], rest);
      assert Elements([s[0]] + s[1..]) == {s[0]} + Elements(s[1..]);
      if Distinct(s) {
        assert s[0] !in Elements(s[1..]);
        assert s[0] !in Elements(rest);
        InsertAscending(s[0], rest);
      }
    }
  }

  /** c lists, in ascending order, one whole strongly connected component that contains a cycle. */
  ghost predicate IsCyclicComponent(g: Graph, c: seq<nat>) {
    && |c| > 0 && Ascending(c)
    && (forall u :: u in c ==> OnCycle(g, u))
    && (forall u, x :: u in c ==> (x in c <==> Mutual(g, u, x)))
  }

  ghost predicate Pairwise(cycles: seq<seq<nat>>) {
    forall i, j, v :: 0 <= i < j < |cycles| && v in cycles[i] ==> v !in cycles[j]
  }

  ghost predicate Listing(cycles: seq<seq<nat>>, v: nat) {
    exists i :: 0 <= i < |cycles| && v in cycles[i]
  }

  /** cycles lists every cyclic component of the graph exactly once, and nothing else. */
  ghost predicate IsCycleReport(g: Graph, cycles: seq<seq<nat>>) {
    && (forall i :: 0 <= i < |cycles| ==> IsCyclicComponent(g, cycles[i]))
    && Pairwise(cycles)
    && (forall v: nat :: v < |g| ==> (OnCycle(g, v) <==> Listing(cycles, v)))
  }

  /** cycles lists exactly the cyclic components among the vertices in done. */
  ghost predicate CyclesOf(g: Graph, done: set<nat>, cycles: seq<seq<nat>>) {
    && (forall i :: 0 <= i < |cycles| ==> IsCyclicComponent(g, cycles[i]))
    && (forall i, v :: 0 <= i < |cycles| && v in cycles[i] ==> v in done)
    && Pairwise(cycles)
    && (forall v :: v in done && OnCycle(g, v) ==> Listing(cycles, v))
  }

  ghost predicate IsScc(g: Graph, c: set<nat>) {
    forall u, x :: u in c ==> (x in c <==> Mutual(g, u, x))
  }

  /** A component of size one contains a cycle only as a self edge. */
  lemma SingletonCyclic(g: Graph, v: nat)
    requires WellFormed(g) && IsScc(g, {v}) && OnCycle(g, v)
    ensures Edge(g, v, v)
  {
    hide Reach;
    var s :| Edge(g, v, s) && Reach(g, s, v);
    ReachEdge(g, v, s);
    assert Mutual(g, v, s);
    assert s in {v};
  }

  lemma ComponentCyclic(g: Graph, c: set<nat>, node: nat, v: nat)
    requires WellFormed(g) && IsScc(g, c) && node in c && v in c
    requires |c| > 1 || Edge(g, node, node)
    ensures OnCycle(g, v)
  {
    hide Reach;
    if c == {v} {
      ReachSelf(g, v);
    } else {
      var u :| u in c && u != v;
      MutualOnCycle(g, v, u);
    }
  }

  lemma AddCycle(g: Graph, done: set<nat>, cycles: seq<seq<nat>>, c: seq<nat>)
    requires CyclesOf(g, done, cycles)
    requires IsCyclicComponent(g, c) && Elements(c) !! done
    ensures CyclesOf(g, done + Elements(c), cycles + [c])
  {
    hide OnCycle, Mutual, IsCyclicComponent;
    var cycles' := cycles + [c];
    forall v | v in done + Elements(c) && OnCycle(g, v) ensures Listing(cycles', v) {
      if v in c {
        assert v in cycles'[|cycles|];
      } else {
        var i :| 0 <= i < |cycles| && v in cycles[i];
        assert v in cycles'[i];
      }
    }
    forall i, j, v | 0 <= i < j < |cycles'| && v in cycles'[i] ensures v !in cycles'[j] {
      if j == |cycles| {
        assert v in done;
        assert v !in Elements(c);
      }
    }
  }

  /** Appending a finished component when, and only when, it is cyclic keeps the listing exact. */
  lemma AddComponent(g: Graph, done: set<nat>, cycles: seq<seq<nat>>, component: seq<nat>, node: nat)
    requires WellFormed(g) && CyclesOf(g, done, cycles)
    requires IsScc(g, Elements(component)) && node in component && Distinct(component) && node < |g|
    requires Elements(component) !! done
    ensures CyclesOf(g, done + Elements(component),
                     if |component| > 1 || node in g[node] then cycles + [Sorted(component)] else cycles)
  {
    hide Reach, Mutual;
    var c := Elements(component);
    ElementsOfDistinct(component);
    SortedCorrect(component);
    if |component| > 1 || node in g[node] {
      var sorted := Sorted(component);
      assert Elements(sorted) == c;
      assert forall x :: x in sorted <==> x in c;
      assert |sorted| > 0 by { assert node in sorted; }
      forall v | v in sorted ensures OnCycle(g, v) { ComponentCyclic(g, c, node, v); }
      AddCycle(g, done, cycles, sorted);
    } else {
      assert component == [node];
      assert c == {node};
      if OnCycle(g, node) { SingletonCyclic(g, node); }
    }
  }

  // ---------------------------------------------------------------- the program's steps

  /** The work stack holds the frames of the path. */
  ghost predicate Matches(s: Search, work: seq<Frame>) {
    && |work| == |s.path|
    && forall k :: 0 <= k < |work| ==> work[k].node == s.path[k] && work[k].cursor == At(s.explored, s.path[k])
  }

  lemma VisitedBound(g: Graph, s: Search)
    requires Inv(g, s)
    ensures |s.index| <= |g|
    ensures forall v: nat :: v < |g| && v !in s.index ==> |s.index| < |g|
  {
    hide Listed, Rooted, Framed, Consumed, Descends, LowSound, LowBounded, LowEdges, LowSmaller, LowInherited;
    hide DoneClosed;
    assert s.index.Keys <= Below(|g|);
    SubsetSize(s.index.Keys, Below(|g|));
    forall v: nat | v < |g| && v !in s.index ensures |s.index| < |g| {
      SubsetSize(s.index.Keys + {v}, Below(|g|));
    }
  }

  /** What is known of the top frame. */
  lemma TopFacts(g: Graph, s: Search)
    requires Inv(g, s) && |s.path| > 0
    ensures var node := s.path[|s.path| - 1];
      && node < |g| && node in s.index && node in s.low && node in s.explored && node in s.active && node in s.onStack
      && s.explored[node] <= |g[node]|
      && forall k :: 0 <= k < |s.path| - 1 ==> s.path[k] != node
  {
    hide Listed, Rooted, Descends, LowSound, LowBounded, LowEdges, LowSmaller, LowInherited, DoneClosed;
    InvBasics(g, s);
    var node := s.path[|s.path| - 1];
    forall k | 0 <= k < |s.path| - 1 ensures s.path[k] != node {
      assert At(s.index, s.path[k]) < At(s.index, node);
    }
  }

  /** Consuming an edge to a vertex that was visited before. */
  lemma VisitedSuccessor(g: Graph, s: Search, node: nat)
    requires WellFormed(g) && Inv(g, s) && |s.path| > 0 && node == s.path[|s.path| - 1]
    requires node < |g| && node in s.explored && s.explored[node] < |g[node]|
    requires g[node][s.explored[node]] in s.index
    requires node in s.low
    ensures var succ := g[node][s.explored[node]];
      var l := if succ in s.onStack then Min(s.low[node], s.index[succ]) else s.low[node];
      Inv(g, Consume(s, node, l))
  {
    hide Listed, Rooted, Consumed, Descends, LowBounded, LowEdges, LowSmaller, LowInherited, DoneClosed;
    hide Framed, Numbered, Reach;
    TopFacts(g, s);
    var succ := g[node][s.explored[node]];
    var l := if succ in s.onStack then Min(s.low[node], s.index[succ]) else s.low[node];
    assert LowHit(g, s.index, s.low, s.onStack, node);
    var a :| LowWitness(g, s.index, s.low, s.onStack, node, a);
    ReachEdge(g, node, succ);
    assert exists w :: w in s.onStack && At(s.index, w) == l && Reach(g, node, w) by {
      if l == s.low[node] {
        assert a in s.onStack && At(s.index, a) == l && Reach(g, node, a);
      } else {
        assert succ in s.onStack && At(s.index, succ) == l && Reach(g, node, succ);
      }
    }
    hide LowSound;
    assert Consumable(g, s, node, l);
    ConsumeKeeps(g, s, node, l);
  }

  /** Consuming an edge to a new vertex, which gets a frame on top. */
  lemma NewSuccessor(g: Graph, s: Search, node: nat)
    requires WellFormed(g) && Inv(g, s) && |s.path| > 0 && node == s.path[|s.path| - 1]
    requires node < |g| && node in s.explored && s.explored[node] < |g[node]|
    requires g[node][s.explored[node]] !in s.index
    requires node in s.low && node in s.index
    ensures var t := Discover(s, g[node][s.explored[node]]);
      node in t.explored && Inv(g, Consume(t, node, s.low[node]))
  {
    hide Listed, Rooted, Consumed, Descends, LowEdges, LowSmaller, LowInherited, DoneClosed, Framed, Numbered;
    hide Reach, LowBounded;
    TopFacts(g, s);
    InvBasics(g, s);
    var succ := g[node][s.explored[node]];
    var a := LowTarget(g, s, node);
    hide LowSound, LowHit, LowWitness;
    assert Inv(g, Discover(s, succ)) by { DiscoverKeeps(g, s, succ); }
    assert Consumable(g, Discover(s, succ), node, s.low[node]) by {
      hide Inv, WellFormed;
      TreeEdgeConsumable(g, s, node, a);
    }
    ConsumeKeeps(g, Discover(s, succ), node, s.low[node]);
  }

  lemma LowTarget(g: Graph, s: Search, v: nat) returns (w: nat)
    requires LowSound(g, s.index, s.low, s.onStack) && v in s.onStack
    ensures w in s.onStack && At(s.index, w) == At(s.low, v) && Reach(g, v, w)
  {
    hide Reach;
    assert LowHit(g, s.index, s.low, s.onStack, v);
    w :| LowWitness(g, s.index, s.low, s.onStack, v, w);
  }

  lemma TreeEdgeConsumable(g: Graph, s: Search, node: nat, w: nat)
    requires Basics(g, s)
    requires node < |g| && node in s.explored && node in s.active && node in s.onStack
    requires s.explored[node] < |g[node]| && g[node][s.explored[node]] !in s.index
    requires w in s.onStack && At(s.index, w) == At(s.low, node) && Reach(g, node, w)
    ensures Consumable(g, Discover(s, g[node][s.explored[node]]), node, At(s.low, node))
  {
    hide Reach;
    var succ := g[node][s.explored[node]];
    var t := Discover(s, succ);
    assert w in t.onStack && At(t.index, w) == At(s.low, node) && Reach(g, node, w);
  }

  /** The vertices already assigned to a component. */
  ghost function Done(s: Search): set<nat> {
    s.index.Keys - s.onStack
  }

  /** component is the stack from pos up, popped one vertex at a time. */
  ghost predicate Popped(stack: seq<nat>, pos: nat, component: seq<nat>) {
    && pos <= |stack| && |component| == |stack| - pos
    && forall i :: 0 <= i < |component| ==> component[i] == stack[|stack| - 1 - i]
  }

  lemma PoppedElements(stack: seq<nat>, pos: nat, component: seq<nat>)
    requires Popped(stack, pos, component)
    ensures Elements(component) == Elements(stack[pos..])
  {
    forall v | v in stack[pos..] ensures v in component {
      var i :| 0 <= i < |stack| - pos && stack[pos..][i] == v;
      assert component[|stack| - 1 - (pos + i)] == v;
    }
  }

  lemma PoppedDistinct(index: map<nat, nat>, onStack: set<nat>, stack: seq<nat>, pos: nat, component: seq<nat>)
    requires Listed(index, onStack, stack) && Popped(stack, pos, component)
    ensures Distinct(component)
  {
    forall i, j | 0 <= i < j < |component| ensures component[i] != component[j] {
      assert At(index, stack[|stack| - 1 - j]) < At(index, stack[|stack| - 1 - i]);
    }
  }

  lemma CompleteComponent(g: Graph, s: Search, pos: nat, cycles: seq<seq<nat>>, component: seq<nat>)
    requires WellFormed(g) && Inv(g, s) && AtRoot(g, s)
    requires pos < |s.stack| && s.stack[pos] == s.path[|s.path| - 1] && Popped(s.stack, pos, component)
    requires CyclesOf(g, Done(s), cycles)
    ensures var t := Retire(s, pos); var node := s.path[|s.path| - 1];
      && Inv(g, t) && Elements(component) == Component(s) && node < |g|
      && CyclesOf(g, Done(t), if |component| > 1 || node in g[node] then cycles + [Sorted(component)] else cycles)
  {
    hide Listed, Rooted, Consumed, Descends, LowSound, LowBounded, LowEdges, LowSmaller, LowInherited;
    hide DoneClosed, Framed, Numbered, Reach;
    hide CyclesOf, WellFormed, Popped;
    TopFacts(g, s);
    InvBasics(g, s);
    RetireKeeps(g, s, pos);
    PoppedElements(s.stack, pos, component);
    PoppedDistinct(s.index, s.onStack, s.stack, pos, component);
    var node := s.path[|s.path| - 1];
    forall u, x | u in Component(s) ensures x in Component(s) <==> Mutual(g, u, x) {
      ComponentIsScc(g, s, u, x);
    }
    hide Mutual, Inv;
    assert node in Component(s);
    assert node in Elements(component);
    assert Done(Retire(s, pos)) == Done(s) + Elements(component);
    AddComponent(g, Done(s), cycles, component, node);
  }

  /** Pop the vertices down to and including node off the stack. */
  method PopComponent(stack: seq<nat>, onStack: set<nat>, node: nat, ghost pos: nat)
    returns (stack': seq<nat>, onStack': set<nat>, component: seq<nat>)
    requires pos < |stack| && stack[pos] == node
    requires forall i :: pos < i < |stack| ==> stack[i] != node
    ensures stack' == stack[..pos] && Popped(stack, pos, component)
    ensures onStack' == onStack - Elements(component)
  {
    stack', onStack', component := stack, onStack, [];
    while true
      invariant pos < |stack'| <= |stack| && stack' == stack[..|stack'|]
      invariant Popped(stack, |stack'|, component)
      invariant onStack' == onStack - Elements(component)
      decreases |stack'|
    {
      var member := stack'[|stack'| - 1];
      stack' := stack'[..|stack'| - 1];
      onStack' := onStack' - {member};
      assert Elements(component + [member]) == Elements(component) + {member};
      component := component + [member];
      if member == node { break; }
    }
  }

  lemma EmptyInv(g: Graph, s: Search)
    requires s == Search(map[], map[], {}, [], [], map[], {}, 0)
    ensures Inv(g, s)
  {
  }

  lemma EmptyCycles(g: Graph)
    ensures CyclesOf(g, {}, [])
  {
  }

  /** Advancing the cursor of the top frame. */
  function Advance(work: seq<Frame>): seq<Frame>
    requires |work| > 0
  {
    work[|work| - 1 := Frame(work[|work| - 1].node, work[|work| - 1].cursor + 1)]
  }

  lemma MatchesConsume(s: Search, work: seq<Frame>, node: nat, l: nat)
    requires Matches(s, work) && |work| > 0 && node == s.path[|s.path| - 1] && node in s.explored
    requires forall k :: 0 <= k < |s.path| - 1 ==> s.path[k] != node
    ensures Matches(Consume(s, node, l), Advance(work))
  {
  }

  lemma MatchesNew(s: Search, work: seq<Frame>, node: nat, succ: nat, l: nat)
    requires Matches(s, work) && |work| > 0 && node == s.path[|s.path| - 1] && node in s.explored
    requires forall k :: 0 <= k < |s.path| - 1 ==> s.path[k] != node
    requires forall k :: 0 <= k < |s.path| ==> s.path[k] != succ
    ensures Matches(Consume(Discover(s, succ), node, l), Advance(work) + [Frame(succ, 0)])
  {
  }

  /** When every vertex is done, the listing is exact for the whole graph. */
  lemma AllDone(g: Graph, s: Search, cycles: seq<seq<nat>>)
    requires Inv(g, s) && |s.path| == 0 && CyclesOf(g, Done(s), cycles)
    requires forall v: nat :: v < |g| ==> v in s.index
    ensures IsCycleReport(g, cycles)
  {
    hide OnCycle, Mutual, Consumed, Descends, LowSound, LowBounded, LowEdges, LowSmaller, LowInherited;
    hide DoneClosed, Framed, Numbered;
    assert |s.stack| == 0;
    assert forall v: nat :: v < |g| ==> v !in s.onStack && v in Done(s);
  }

  /** The vertex on top of the path is on the stack, once. */
  lemma TopPosition(g: Graph, s: Search) returns (pos: nat)
    requires Inv(g, s) && |s.path| > 0
    ensures pos < |s.stack| && s.stack[pos] == s.path[|s.path| - 1]
    ensures forall i :: pos < i < |s.stack| ==> s.stack[i] != s.stack[pos]
  {
    hide Rooted, Consumed, Descends, LowSound, LowBounded, LowEdges, LowSmaller, LowInherited, DoneClosed, Numbered;
    assert s.path[|s.path| - 1] in s.onStack;
    pos :| 0 <= pos < |s.stack| && s.stack[pos] == s.path[|s.path| - 1];
    forall i | pos < i < |s.stack| ensures s.stack[i] != s.stack[pos] {
      assert At(s.index, s.stack[pos]) < At(s.index, s.stack[i]);
    }
  }

  /** The whole loop invariant of the search, on a snapshot. */
  ghost predicate Live(g: Graph, s: Search, work: seq<Frame>, cycles: seq<seq<nat>>) {
    Inv(g, s) && Matches(s, work) && CyclesOf(g, Done(s), cycles)
  }

  lemma LiveStart(g: Graph)
    ensures Live(g, Search(map[], map[], {}, [], [], map[], {}, 0), [], [])
  {
    hide CyclesOf;
    EmptyInv(g, Search(map[], map[], {}, [], [], map[], {}, 0));
    EmptyCycles(g);
    assert Done(Search(map[], map[], {}, [], [], map[], {}, 0)) == {};
  }

  lemma LiveRoot(g: Graph, s: Search, cycles: seq<seq<nat>>, root: nat)
    requires WellFormed(g) && Live(g, s, [], cycles) && root < |g| && root !in s.index
    ensures Live(g, Discover(s, root), [Frame(root, 0)], cycles)
  {
    hide Inv, CyclesOf;
    assert Done(Discover(s, root)) == Done(s) by { DoneKept(g, s, root); }
    DiscoverKeeps(g, s, root);
  }

  lemma DoneKept(g: Graph, s: Search, v: nat)
    requires Inv(g, s) && v !in s.index
    ensures Done(Discover(s, v)) == Done(s)
  {
    hide Rooted, Consumed, Descends, LowSound, LowBounded, LowEdges, LowSmaller, LowInherited, DoneClosed;
    hide Numbered, Framed, Listed;
  }

  /** What the program may rely on about its top frame. */
  lemma LiveTop(g: Graph, s: Search, work: seq<Frame>, cycles: seq<seq<nat>>)
    requires Live(g, s, work, cycles) && |work| > 0
    ensures var Frame(node, cursor) := work[|work| - 1];
      && |s.path| == |work| && s.path[|work| - 1] == node
      && node < |g| && cursor <= |g[node]| && node in s.explored && cursor == s.explored[node]
    ensures forall k :: 0 <= k < |work| ==> work[k].node in s.index && work[k].node in s.low
    ensures forall k :: 0 <= k < |work| - 1 ==> work[k].node != work[|work| - 1].node
    ensures |s.index| <= |g|
    ensures forall v: nat :: v < |g| && v !in s.index ==> |s.index| < |g|
  {
    hide Inv, CyclesOf;
    TopFacts(g, s);
    InvBasics(g, s);
    VisitedBound(g, s);
  }

  lemma LiveNew(g: Graph, s: Search, work: seq<Frame>, cycles: seq<seq<nat>>, node: nat, cursor: nat, succ: nat)
    requires WellFormed(g) && Live(g, s, work, cycles) && |work| > 0 && work[|work| - 1] == Frame(node, cursor)
    requires node < |g| && cursor < |g[node]| && succ == g[node][cursor] && succ !in s.index
    ensures node in s.low && node in s.explored && node != succ
    ensures Live(g, Consume(Discover(s, succ), node, s.low[node]), Advance(work) + [Frame(succ, 0)], cycles)
    ensures Consume(Discover(s, succ), node, s.low[node]).low == s.low[succ := s.counter]
  {
    hide Inv, CyclesOf, WellFormed;
    TopFacts(g, s);
    InvBasics(g, s);
    NewSuccessor(g, s, node);
    MatchesNew(s, work, node, succ, s.low[node]);
    DoneKept(g, s, succ);
    assert s.low[succ := s.counter][node := s.low[node]] == s.low[succ := s.counter];
  }

  lemma LiveVisited(g: Graph, s: Search, work: seq<Frame>, cycles: seq<seq<nat>>, node: nat, cursor: nat, succ: nat)
    requires WellFormed(g) && Live(g, s, work, cycles) && |work| > 0 && work[|work| - 1] == Frame(node, cursor)
    requires node < |g| && cursor < |g[node]| && succ == g[node][cursor] && succ in s.index
    ensures node in s.low && node in s.explored
    ensures var l := if succ in s.onStack then Min(s.low[node], s.index[succ]) else s.low[node];
      Live(g, Consume(s, node, l), Advance(work), cycles)
    ensures s.low[node := s.low[node]] == s.low
  {
    hide Inv, CyclesOf, WellFormed;
    TopFacts(g, s);
    InvBasics(g, s);
    VisitedSuccessor(g, s, node);
    var l := if succ in s.onStack then Min(s.low[node], s.index[succ]) else s.low[node];
    MatchesConsume(s, work, node, l);
  }

  lemma LiveFinished(g: Graph, s: Search, work: seq<Frame>, cycles: seq<seq<nat>>)
    requires Live(g, s, work, cycles) && |work| > 0
    requires var Frame(node, cursor) := work[|work| - 1];
      node < |g| && cursor == |g[node]| && node in s.low && node in s.index && s.low[node] != s.index[node]
    ensures |s.path| > 1 && |work| > 1 && forall k :: 0 <= k < |s.path| ==> s.path[k] in s.low
    ensures Live(g, Finish(s), work[..|work| - 1], cycles)
    ensures var node, parent := work[|work| - 1].node, work[|work| - 2].node;
      parent in s.low && Finish(s).low == s.low[parent := Min(s.low[parent], s.low[node])]
  {
    hide CyclesOf, LowEdges, LowSmaller, LowInherited, DoneClosed, Consumed, Descends, Numbered, LowSound;
    hide Framed, Listed, Rooted;
    InvBasics(g, s);
    var node := work[|work| - 1].node;
    assert At(s.low, node) < At(s.index, node);
    hide LowBounded, Inv;
    FinishInnerKeeps(g, s);
  }

  lemma LiveCompleted(g: Graph, s: Search, work: seq<Frame>, cycles: seq<seq<nat>>, pos: nat, component: seq<nat>)
    requires WellFormed(g) && Live(g, s, work, cycles) && |work| > 0
    requires var Frame(node, cursor) := work[|work| - 1];
      && node < |g| && cursor == |g[node]| && node in s.low && node in s.index && s.low[node] == s.index[node]
      && pos < |s.stack| && s.stack[pos] == node
    requires Popped(s.stack, pos, component)
    ensures |s.path| > 0 && Elements(component) == Component(s)
    ensures Basics(g, s) && Finish(s).low == s.low
    ensures var node := work[|work| - 1].node;
      Live(g, Retire(s, pos), work[..|work| - 1],
           if |component| > 1 || node in g[node] then cycles + [Sorted(component)] else cycles)
  {
    hide Inv, CyclesOf, WellFormed, Popped;
    TopFacts(g, s);
    FinishRootLow(g, s);
    CompleteComponent(g, s, pos, cycles, component);
  }

  /** At a root, the top frame's vertex is on the stack once, and its parent's low will not change. */
  lemma LiveRootTop(g: Graph, s: Search, work: seq<Frame>, cycles: seq<seq<nat>>) returns (pos: nat)
    requires Live(g, s, work, cycles) && |work| > 0
    requires var Frame(node, cursor) := work[|work| - 1];
      node < |g| && cursor == |g[node]| && node in s.low && node in s.index && s.low[node] == s.index[node]
    ensures var node := work[|work| - 1].node;
      && pos < |s.stack| && s.stack[pos] == node
      && forall i :: pos < i < |s.stack| ==> s.stack[i] != node
    ensures |work| > 1 ==>
      var node, parent := work[|work| - 1].node, work[|work| - 2].node;
      parent in s.low && s.low[parent := Min(s.low[parent], s.low[node])] == s.low
  {
    hide Inv, CyclesOf;
    TopFacts(g, s);
    pos := TopPosition(g, s);
    FinishRootLow(g, s);
  }

  lemma LiveEnd(g: Graph, s: Search, cycles: seq<seq<nat>>)
    requires Live(g, s, [], cycles)
    requires forall v: nat :: v < |g| ==> v in s.index
    ensures IsCycleReport(g, cycles)
  {
    hide Inv, CyclesOf;
    AllDone(g, s, cycles);
  }

  lemma TargetInGraph(g: Graph, v: nat, j: nat)
    requires WellFormed(g) && v < |g| && j < |g[v]|
    ensures g[v][j] < |g|
  {
  }

  /**
    The cycles of the call graph: every strongly connected component that contains a cycle, each
    listed once, in ascending order, and nothing else.
   */
  method FindCycles(g: Graph) returns (cycles: seq<seq<nat>>)
    requires WellFormed(g)
    ensures IsCycleReport(g, cycles)
  {
    hide Live, Basics, IsCycleReport, WellFormed, Popped, At, Component, Elements, Min, Sorted;
    var indexOf: map<nat, nat>, low: map<nat, nat> := map[], map[];
    var onStack: set<nat> := {};
    var stack: seq<nat> := [];
    var work: seq<Frame> := [];
    var counter := 0;
    cycles := [];
    ghost var s := Search(map[], map[], {}, [], [], map[], {}, 0);
    LiveStart(g);
    for root := 0 to |g|
      invariant Live(g, s, work, cycles) && work == []
      invariant s.index == indexOf && s.low == low && s.onStack == onStack && s.stack == stack && s.counter == counter
      invariant forall v: nat :: v < root ==> v in indexOf
    {
      if root in indexOf { continue; }
      LiveRoot(g, s, cycles, root);
      s := Discover(s, root);
      work := [Frame(root, 0)];
      indexOf, low := indexOf[root := counter], low[root := counter];
      counter := counter + 1;
      stack := stack + [root];
      onStack := onStack + {root};
      while |work| > 0
        invariant Live(g, s, work, cycles)
        invariant s.index == indexOf && s.low == low && s.onStack == onStack && s.stack == stack && s.counter == counter
        invariant root in indexOf && forall v: nat :: v < root ==> v in indexOf
        decreases |g| - |indexOf|, |work|
      {
        var node := work[|work| - 1].node;
        var advanced := false;
        ghost var visited, depth := indexOf, |work|;
        LiveTop(g, s, work, cycles);
        while work[|work| - 1].cursor < |g[node]|
          invariant |work| == depth && work[|work| - 1].node == node && !advanced && indexOf == visited
          invariant Live(g, s, work, cycles) && work[|work| - 1].cursor <= |g[node]|
          invariant s.index == indexOf && s.low == low && s.onStack == onStack && s.stack == stack
          invariant s.counter == counter
        {
          var cursor := work[|work| - 1].cursor;
          var succ := g[node][cursor];
          if succ !in indexOf {
            assert succ < |g| by { TargetInGraph(g, node, cursor); }
            LiveNew(g, s, work, cycles, node, cursor, succ);
            s := Consume(Discover(s, succ), node, low[node]);
            indexOf, low := indexOf[succ := counter], low[succ := counter];
            counter := counter + 1;
            stack := stack + [succ];
            onStack := onStack + {succ};
            work := Advance(work) + [Frame(succ, 0)];
            advanced := true;
            break;
          }
          LiveVisited(g, s, work, cycles, node, cursor, succ);
          s := Consume(s, node, if succ in onStack then Min(low[node], indexOf[succ]) else low[node]);
          work := Advance(work);
          if succ in onStack {
            low := low[node := Min(low[node], indexOf[succ])];
          }
        }
        if advanced { continue; }
        LiveTop(g, s, work, cycles);
        ghost var frames := work;
        work := work[..|work| - 1];
        if |work| > 0 {
          var parent := work[|work| - 1].node;
          low := low[parent := Min(low[parent], low[node])];
        }
        if low[node] == indexOf[node] {
          ghost var pos := LiveRootTop(g, s, frames, cycles);
          var component;
          stack, onStack, component := PopComponent(stack, onStack, node, pos);
          LiveCompleted(g, s, frames, cycles, pos, component);
          s := Retire(s, pos);
          if |component| > 1 || node in g[node] {
            cycles := cycles + [Sorted(component)];
          }
        } else {
          LiveFinished(g, s, frames, cycles);
          s := Finish(s);
        }
      }
    }
    LiveEnd(g, s, cycles);
  }

  // ---------------------------------------------------------------- what a report means

  /** The report is empty exactly when every call chain visits at most |g| functions. */
  lemma DepthBound(g: Graph, cycles: seq<seq<nat>>)
    requires WellFormed(g) && IsCycleReport(g, cycles)
    ensures cycles == [] <==> forall p :: IsWalk(g, p) ==> |p| <= |g|
  {
    hide OnCycle, IsWalk, Mutual;
    if cycles == [] {
      forall v: nat | v < |g| ensures !OnCycle(g, v) { assert !Listing(cycles, v); }
      forall p | IsWalk(g, p) ensures |p| <= |g| { AcyclicWalkBound(g, p); }
    } else {
      var p := CycleWalk(g, cycles[0][0], |g|);
    }
  }

  /** Two reports on one graph hold the same components. */
  lemma ReportsAgree(g: Graph, a: seq<seq<nat>>, b: seq<seq<nat>>, c: seq<nat>)
    requires IsCycleReport(g, a) && IsCycleReport(g, b) && c in a
    ensures c in b
  {
    hide OnCycle, Mutual;
    assert IsCyclicComponent(g, c);
    assert c[0] < |g| by { CycleInGraph(g, c[0]); }
    assert Listing(b, c[0]);
    var i :| 0 <= i < |b| && c[0] in b[i];
    assert IsCyclicComponent(g, b[i]);
    forall x ensures x in c <==> x in b[i] {
      assert x in c <==> Mutual(g, c[0], x);
    }
    AscendingUnique(c, b[i]);
  }

  lemma CycleInGraph(g: Graph, v: nat)
    requires OnCycle(g, v)
    ensures v < |g|
  {
    var s :| Edge(g, v, s) && Reach(g, s, v);
  }

  /** An ascending sequence is determined by its members. */
  lemma {:induction false} AscendingUnique(a: seq<nat>, b: seq<nat>)
    requires Ascending(a) && Ascending(b) && forall x :: x in a <==> x in b
    ensures a == b
  {
    assert (a != [] ==> a[0] in a) && (b != [] ==> b[0] in b);
    if |a| == 0 {
      assert b == [];
    } else {
      assert a[0] in b;
      assert b[0] in a;
      assert a[0] == b[0];
      var a', b' := a[1..], b[1..];
      assert a == [a[0]] + a' && b == [b[0]] + b';
      forall x ensures x in a' <==> x in b' {
        assert x in a' <==> x in a && x != a[0];
        assert x in b' <==> x in b && x != b[0];
      }
      AscendingUnique(a', b');
    }
  }
}
