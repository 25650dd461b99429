/**
  Questions that share a memo: when every list of them is answered right, and what is answered about the groups of an
  inventory asked in its own order.
 */
module SharedMemo {
  import opened Bytes
  import opened ReqTree
  import opened ParentCycles
  import opened DescendantSearch
  import opened CycleDescent

  /** The answers to a list of queries that share one memo. */
  function Answers(t: Inventory, memo: map<Id, bool>, asked: seq<Id>): seq<bool>
    requires forall h :: h in t.order ==> h in t.parents
    requires forall g :: g in asked ==> g in t.parents
    decreases |asked|
  {
    if asked == [] then []
    else
      var (r, m) := Query(t, memo, {}, asked[0]);
      [r] + Answers(t, m, asked[1..])
  }

  lemma {:induction false} AnswersLength(t: Inventory, memo: map<Id, bool>, asked: seq<Id>)
    requires forall h :: h in t.order ==> h in t.parents
    requires forall g :: g in asked ==> g in t.parents
    ensures |Answers(t, memo, asked)| == |asked|
    decreases |asked|
  {
    if asked != [] { AnswersLength(t, Query(t, memo, {}, asked[0]).1, asked[1..]); }
  }

  /**
    The group c can be denied an item that is below it: it lies on a cycle with an item below, none of it c's own,
    and the search stops early at no group of the cycle.
   */
  ghost predicate Overlookable(t: Inventory, c: Id)
    requires Valid(t) && c in t.parents
  {
    && OnCycle(t, c) && HasDescendantItem(t, c) && !OwnItem(t, c)
    && forall n: nat :: Walk(t, c, n).Some? ==> !EarlyItem(t, Walk(t, c, n).value)
  }

  /** The same on the ring that begins with c. */
  lemma OverlookableRing(t: Inventory, g: Id, k: nat)
    requires Valid(t) && g in t.parents && Ring(t, g, k)
    ensures Walk(t, g, 1).Some?
    ensures Overlookable(t, Walk(t, g, 1).value)
      <==> AnyOwn(t, g, k) && !OwnItem(t, Walk(t, g, 1).value) && !AnyEarly(t, g, k)
  {
    hide OwnItem, EarlyItem, OnCycle, HasDescendantItem, Ring, AnyOwn;
    RingLength(t, g, k);
    RingOnCycle(t, g, k, 1);
    RingDescendant(t, g, k, 1);
    var c := Walk(t, g, 1).value;
    if Overlookable(t, c) && AnyEarly(t, g, k) {
      var j: nat :| 0 < j <= k && Walk(t, g, j).Some? && EarlyItem(t, Walk(t, g, j).value);
      var n := RingReturns(t, g, k, 1, j);
      assert false;
    }
    if !AnyEarly(t, g, k) {
      forall n: nat | Walk(t, c, n).Some? ensures !EarlyItem(t, Walk(t, c, n).value) {
        RingReaches(t, g, k, 1, n);
        var j: nat :| 0 < j <= k && Walk(t, g, j) == Some(Walk(t, c, n).value);
      }
    }
  }

  /** Such a cycle has at least two groups. */
  lemma OverlookableNotAlone(t: Inventory, c: Id)
    requires Valid(t) && c in t.parents && Overlookable(t, c)
    ensures t.parents[c] != Named(c)
  {
    hide OwnItem, EarlyItem;
    if t.parents[c] == Named(c) {
      ParentStep(t, c, c);
      assert Ring(t, c, 1);
      OverlookableRing(t, c, 1);
    }
  }

  // ---------------------------------------------------------------- one question

  lemma RingIsWhole(t: Inventory, g: Id, k: nat)
    requires g in t.parents && Ring(t, g, k)
    ensures WholeCycles(t, RingGroups(t, g, k))
  {
    hide OnCycle;
    RingLength(t, g, k);
    forall x | x in RingGroups(t, g, k)
      ensures OnCycle(t, x) && Walk(t, x, 1).Some? && Walk(t, x, 1).value in RingGroups(t, g, k)
    {
      var j: nat :| 0 < j <= k && Walk(t, g, j) == Some(x);
      RingOnCycle(t, g, k, j);
      RingReaches(t, g, k, j, 1);
    }
  }

  lemma WholeTogether(t: Inventory, odd: set<Id>, more: set<Id>)
    requires WholeCycles(t, odd) && WholeCycles(t, more)
    ensures WholeCycles(t, odd + more)
  {
    hide OnCycle;
  }

  /** The first question on an untouched cycle, asked from outside. */
  lemma FirstQuestion(t: Inventory, odd: set<Id>, memo: map<Id, bool>, g: Id, k: nat)
    requires Valid(t) && g in t.parents && Ring(t, g, k) && Untouched(t, g, k, memo)
    requires WholeCycles(t, odd) && RightOff(t, odd, memo) && RingGroups(t, g, k) <= odd
    ensures var (r, m) := Query(t, memo, {}, g); Ascended(t, odd, memo, g, k, k, r, m)
  {
    hide Ascended, WholeCycles, RightOff, Query, Untouched, RingGroups;
    Descend(t, odd, memo, {}, g, k, k);
  }

  /** Unless the parent of the group asked about is overlookable, what is recorded on the cycle is right. */
  lemma RingRight(t: Inventory, g: Id, k: nat, m: map<Id, bool>, x: Id)
    requires Valid(t) && g in t.parents && Ring(t, g, k) && RingState(t, g, k, m)
    requires x in RingGroups(t, g, k) && x in m
    requires Walk(t, g, 1).Some? && !Overlookable(t, Walk(t, g, 1).value)
    ensures m[x] == HasDescendantItem(t, x)
  {
    hide Ring, OwnItem, Overlookable, HasDescendantItem, AnyEarly;
    var j: nat :| 0 < j <= k && Walk(t, g, j) == Some(x);
    assert RingEntry(t, g, j, m, AnyEarly(t, g, k));
    RingDescendant(t, g, k, j);
    OverlookableRing(t, g, k);
    if AnyEarly(t, g, k) { EarlyOwn(t, g, k, k); }
    if OwnItem(t, Walk(t, g, 1).value) { assert AnyOwn(t, g, j); }
  }

  /** A group none of whose cycles meets the memo starts an untouched ring. */
  lemma UntouchedRing(t: Inventory, memo: map<Id, bool>, g: Id) returns (k: nat)
    requires g in t.parents && !Broken(t, memo, g)
    ensures Ring(t, g, k) && Untouched(t, g, k, memo)
  {
    var n: nat :| n > 0 && Walk(t, g, n) == Some(g) && !MetWithin(t, memo, g, n);
    k := LeastRing(t, g, n);
  }

  /** The group of a ring that the walk from its start reaches last is the start. */
  lemma StartInRing(t: Inventory, g: Id, k: nat)
    requires g in t.parents && Ring(t, g, k)
    ensures g in RingGroups(t, g, k)
  {
    assert InRing(t, g, k, g);
  }

  /** Asked first on a cycle whose group above it is not overlookable, a question is answered right. */
  lemma FirstQuestionRight(t: Inventory, odd: set<Id>, memo: map<Id, bool>, g: Id, k: nat)
    requires Valid(t) && g in t.parents && Ring(t, g, k) && Untouched(t, g, k, memo)
    requires WholeCycles(t, odd) && RightOff(t, odd, memo)
    requires Walk(t, g, 1).Some? && !Overlookable(t, Walk(t, g, 1).value)
    ensures var (r, m) := Query(t, memo, {}, g);
      && r == HasDescendantItem(t, g) && Gained(odd, memo, m, RingGroups(t, g, k))
      && forall h :: h in m ==> h in t.parents && (h !in odd - RingGroups(t, g, k) ==> m[h] == HasDescendantItem(t, h))
  {
    hide HasDescendantItem, Overlookable, Ring, Query, Untouched, RingState, RingGroups, WholeCycles, Walk;
    var ring := RingGroups(t, g, k);
    var (r, m) := Query(t, memo, {}, g);
    RingIsWhole(t, g, k);
    WholeTogether(t, odd, ring);
    FirstQuestion(t, odd + ring, memo, g, k);
    forall x | x in ring && x in m ensures m[x] == HasDescendantItem(t, x) { RingRight(t, g, k, m, x); }
    StartInRing(t, g, k);
    QueryGrows(t, memo, {}, g);
  }

  /** With a right memo, and no overlookable group, a question is answered right and leaves a right memo. */
  lemma QuestionRight(t: Inventory, memo: map<Id, bool>, g: Id)
    requires Valid(t) && g in t.parents && RightOff(t, {}, memo)
    requires forall c :: c in t.parents ==> !Overlookable(t, c)
    ensures var (r, m) := Query(t, memo, {}, g); r == HasDescendantItem(t, g) && RightOff(t, {}, m)
  {
    hide HasDescendantItem, Overlookable, Broken, Ring, Query, Untouched, RingGroups, Gained;
    if Broken(t, memo, g) {
      QueryCorrect(t, {}, memo, {}, g);
    } else {
      var k := UntouchedRing(t, memo, g);
      RingGoesOnOnce(t, g, k);
      FirstQuestionRight(t, {}, memo, g, k);
    }
  }

  lemma RingGoesOnOnce(t: Inventory, g: Id, k: nat)
    requires g in t.parents && Ring(t, g, k)
    ensures Walk(t, g, 1).Some?
  {
    RingGoesOn(t, g, k, 1);
  }

  // ---------------------------------------------------------------- every list of questions

  ghost predicate AnsweredRight(t: Inventory, memo: map<Id, bool>, asked: seq<Id>)
    requires Valid(t) && forall g :: g in asked ==> g in t.parents
  {
    && |Answers(t, memo, asked)| == |asked|
    && forall i :: 0 <= i < |asked| ==> Answers(t, memo, asked)[i] == HasDescendantItem(t, asked[i])
  }

  /** Without an overlookable group every list of questions is answered right. */
  lemma {:induction false} AnswersRight(t: Inventory, memo: map<Id, bool>, asked: seq<Id>)
    requires Valid(t) && RightOff(t, {}, memo) && forall g :: g in asked ==> g in t.parents
    requires forall c :: c in t.parents ==> !Overlookable(t, c)
    ensures AnsweredRight(t, memo, asked)
    decreases |asked|
  {
    hide HasDescendantItem, Overlookable, RightOff, Query;
    if asked != [] {
      QuestionRight(t, memo, asked[0]);
      AnswersRight(t, Query(t, memo, {}, asked[0]).1, asked[1..]);
    }
  }

  /** An overlookable group has a child on its cycle. */
  lemma ChildOnRing(t: Inventory, c: Id) returns (g: Id, k: nat)
    requires c in t.parents && OnCycle(t, c)
    ensures g in t.parents && Ring(t, g, k) && Walk(t, g, 1) == Some(c)
  {
    var n: nat :| n > 0 && Walk(t, c, n) == Some(c);
    RingOnCycle(t, c, n, n - 1);
    g := Walk(t, c, n - 1).value;
    WalkPlus(t, c, n - 1, 1);
    k := LeastRing(t, g, n);
  }

  /** A question about that child records a no for the overlookable group. */
  lemma DeniedAfterChild(t: Inventory, c: Id) returns (g: Id)
    requires Valid(t) && c in t.parents && Overlookable(t, c)
    ensures g in t.parents && SaysNo(Query(t, map[], {}, g).1, c)
  {
    hide OwnItem, EarlyItem, HasDescendantItem, Query, RingGroups, RightOff, Walk, WholeCycles, Ring;
    var k;
    g, k := ChildOnRing(t, c);
    OverlookableRing(t, g, k);
    RingIsWhole(t, g, k);
    NothingWrong(t, RingGroups(t, g, k));
    FirstQuestion(t, RingGroups(t, g, k), map[], g, k);
    assert k > 0 by { RingLength(t, g, k); }
    assert RingEntry(t, g, 1, Query(t, map[], {}, g).1, AnyEarly(t, g, k));
  }

  /** Asked after its child on the cycle, an overlookable group is denied the item that is below it. */
  lemma OverlookableIsOverlooked(t: Inventory, c: Id) returns (asked: seq<Id>)
    requires Valid(t) && c in t.parents && Overlookable(t, c)
    ensures (forall g :: g in asked ==> g in t.parents) && !AnsweredRight(t, map[], asked)
  {
    hide OwnItem, EarlyItem, HasDescendantItem, Query;
    var g := DeniedAfterChild(t, c);
    var m := Query(t, map[], {}, g).1;
    asked := [g, c];
    assert asked[1..] == [c] && [c][1..] == [];
    MemoAnswers(t, m, c);
    assert Answers(t, m, [c]) == [false];
    assert Answers(t, map[], asked)[1] != HasDescendantItem(t, asked[1]);
  }

  lemma NothingWrong(t: Inventory, odd: set<Id>)
    ensures RightOff(t, odd, map[])
  {
  }

  lemma MemoAnswers(t: Inventory, memo: map<Id, bool>, g: Id)
    requires Valid(t) && g in t.parents && g in memo
    ensures Query(t, memo, {}, g) == (memo[g], memo)
  {
  }

  /** Every list of questions is answered right, in any order, exactly when no group is overlookable. */
  lemma AnswersRightExactly(t: Inventory)
    requires Valid(t)
    ensures (forall asked: seq<Id> :: (forall g :: g in asked ==> g in t.parents) ==> AnsweredRight(t, map[], asked))
      <==> forall c :: c in t.parents ==> !Overlookable(t, c)
  {
    hide AnsweredRight, Overlookable;
    NothingWrong(t, {});
    if forall c :: c in t.parents ==> !Overlookable(t, c) {
      forall asked: seq<Id> | forall g :: g in asked ==> g in t.parents ensures AnsweredRight(t, map[], asked) {
        AnswersRight(t, map[], asked);
      }
    } else {
      var c :| c in t.parents && Overlookable(t, c);
      var asked := OverlookableIsOverlooked(t, c);
    }
  }

  /** In particular when every parent chain ends. */
  lemma AnswersInAnyOrder(t: Inventory, asked: seq<Id>)
    requires Valid(t) && Acyclic(t) && forall g :: g in asked ==> g in t.parents
    ensures AnsweredRight(t, map[], asked)
  {
    hide AnsweredRight, HasDescendantItem, OwnItem, EarlyItem;
    forall c | c in t.parents ensures !Overlookable(t, c) { NoCycles(t, c); }
    NothingWrong(t, {});
    AnswersRight(t, map[], asked);
  }

  lemma CycleNeverEnds(t: Inventory, c: Id)
    requires c in t.parents && OnCycle(t, c)
    ensures NeverEnds(t, c)
  {
    var n: nat :| n > 0 && Walk(t, c, n) == Some(c);
    RepeatNeverEnds(t, c, 0, n);
  }

  lemma NoCycles(t: Inventory, c: Id)
    requires Acyclic(t) && c in t.parents
    ensures !OnCycle(t, c)
  {
    hide OnCycle, NeverEnds;
    if OnCycle(t, c) { CycleNeverEnds(t, c); }
  }

  // ---------------------------------------------------------------- the groups asked about in their own order

  /** g stands at position p, and nothing above it is listed earlier. */
  ghost predicate FirstAt(t: Inventory, g: Id, p: int)
    requires g in t.parents
  {
    && 0 <= p < |t.order| && t.order[p] == g
    && forall q: int, n: nat :: 0 <= q < p ==> Walk(t, g, n) != Some(t.order[q])
  }

  /** g is the first listed group of its cycle. */
  ghost predicate FirstListed(t: Inventory, g: Id)
    requires g in t.parents
  {
    exists p :: FirstAt(t, g, p)
  }

  /** The ring of the first listed group of a cycle on which a question about that group records a wrong no. */
  ghost predicate FaultyRing(t: Inventory, g: Id, k: nat)
    requires Valid(t)
  {
    && g in t.parents && Ring(t, g, k) && FirstListed(t, g)
    && Walk(t, g, 1).Some? && Overlookable(t, Walk(t, g, 1).value)
  }

  ghost predicate OverlookedFrom(t: Inventory, x: Id, g: Id, k: nat, j: nat)
    requires Valid(t)
  {
    FaultyRing(t, g, k) && 0 < j <= k && Walk(t, g, j) == Some(x) && !AnyOwn(t, g, j)
  }

  /**
    x lies on the cycle of a first listed group g whose parent is overlookable, and neither x nor a group between g
    and x has an item of its own.
   */
  ghost predicate Overlooked(t: Inventory, x: Id)
    requires Valid(t)
  {
    exists g, k: nat, j: nat :: OverlookedFrom(t, x, g, k, j)
  }

  /** What is answered about x when the groups are asked about in their own order. */
  ghost predicate Expected(t: Inventory, x: Id)
    requires Valid(t)
  {
    HasDescendantItem(t, x) && !Overlooked(t, x)
  }

  ghost predicate OnFaulty(t: Inventory, x: Id)
    requires Valid(t)
  {
    exists g, k: nat :: FaultyRing(t, g, k) && InRing(t, g, k, x)
  }

  ghost function FaultyGroups(t: Inventory): set<Id>
    requires Valid(t)
  {
    set x | x in t.parents && OnFaulty(t, x)
  }

  lemma FaultyIsWhole(t: Inventory)
    requires Valid(t)
    ensures WholeCycles(t, FaultyGroups(t))
  {
    hide Overlookable, FirstListed, WholeCycles, Ring;
    forall x | x in FaultyGroups(t)
      ensures OnCycle(t, x) && Walk(t, x, 1).Some? && Walk(t, x, 1).value in FaultyGroups(t)
    {
      var g, k: nat :| FaultyRing(t, g, k) && InRing(t, g, k, x);
      RingIsWhole(t, g, k);
      WholeAt(t, RingGroups(t, g, k), x);
    }
    WholeFrom(t, FaultyGroups(t));
  }

  lemma WholeAt(t: Inventory, odd: set<Id>, h: Id)
    requires WholeCycles(t, odd) && h in odd
    ensures h in t.parents && OnCycle(t, h) && Walk(t, h, 1).Some? && Walk(t, h, 1).value in odd
  {
  }

  lemma WholeFrom(t: Inventory, odd: set<Id>)
    requires forall h :: h in odd ==>
      h in t.parents && OnCycle(t, h) && Walk(t, h, 1).Some? && Walk(t, h, 1).value in odd
    ensures WholeCycles(t, odd)
  {
  }

  /** A cycle has one first listed group, and one length. */
  lemma FirstIsUnique(t: Inventory, g: Id, k: nat, h: Id, l: nat, x: Id)
    requires Valid(t) && g in t.parents && h in t.parents && Ring(t, g, k) && Ring(t, h, l)
    requires InRing(t, g, k, x) && InRing(t, h, l, x) && FirstListed(t, g) && FirstListed(t, h)
    ensures g == h && k == l
  {
    hide Ring;
    RingLength(t, g, k);
    RingLength(t, h, l);
    var p :| FirstAt(t, g, p);
    var q :| FirstAt(t, h, q);
    var j: nat :| 0 < j <= k && Walk(t, g, j) == Some(x);
    var i: nat :| 0 < i <= l && Walk(t, h, i) == Some(x);
    var n := RingReturns(t, h, l, i, 0);
    WalkPlus(t, g, j, n);
    var m := RingReturns(t, g, k, j, 0);
    WalkPlus(t, h, i, m);
    assert Walk(t, g, j + n) == Some(h) && Walk(t, h, i + m) == Some(g);
    assert p == q;
    if k < l { RingDiffers(t, g, l, k, l); }
    if l < k { RingDiffers(t, g, k, l, k); }
  }

  /** The memo after the first n groups were asked about. */
  ghost predicate OrderOk(t: Inventory, memo: map<Id, bool>, n: int)
    requires Valid(t)
  {
    && (forall h :: h in memo ==> h in t.parents && memo[h] == Expected(t, h))
    && (forall h :: h in memo && h in FaultyGroups(t) ==> Walk(t, h, 1).Some? && Walk(t, h, 1).value in memo)
    && (forall i :: 0 <= i < n <= |t.order| ==> t.order[i] in memo)
  }

  lemma OverlookedIsFaulty(t: Inventory, x: Id)
    requires Valid(t) && Overlooked(t, x)
    ensures OnFaulty(t, x)
  {
    hide Ring, FirstListed, Overlookable, AnyOwn;
    var g, k: nat, j: nat :| OverlookedFrom(t, x, g, k, j);
    assert InRing(t, g, k, x);
  }

  /** Off the faulty cycles the expected answer is the right one. */
  lemma ExpectedOff(t: Inventory, x: Id)
    requires Valid(t) && x in t.parents && x !in FaultyGroups(t)
    ensures Expected(t, x) == HasDescendantItem(t, x)
  {
    hide Overlooked, OnFaulty, HasDescendantItem;
    if Overlooked(t, x) { OverlookedIsFaulty(t, x); }
  }

  /** On a faulty cycle it is whether a group up to it has an item of its own. */
  lemma ExpectedOn(t: Inventory, g: Id, k: nat, j: nat, x: Id)
    requires Valid(t) && FaultyRing(t, g, k) && 0 < j <= k && Walk(t, g, j) == Some(x)
    ensures Expected(t, x) == AnyOwn(t, g, j)
  {
    hide Overlookable, FirstListed, HasDescendantItem, Ring, AnyEarly, OwnItem;
    OverlookableRing(t, g, k);
    RingDescendant(t, g, k, j);
    if !AnyOwn(t, g, j) { assert OverlookedFrom(t, x, g, k, j); }
    if Overlooked(t, x) {
      var h, l: nat, i: nat :| OverlookedFrom(t, x, h, l, i);
      assert InRing(t, g, k, x) && InRing(t, h, l, x);
      FirstIsUnique(t, g, k, h, l, x);
      if i < j { RingDiffers(t, g, k, i, j); }
      if j < i { RingDiffers(t, g, k, j, i); }
    }
  }

  /** A faulty cycle that meets the memo is in it as a whole. */
  lemma {:induction false} FaultyTouched(t: Inventory, memo: map<Id, bool>, n: int, h: Id, i: nat, j: nat)
    requires Valid(t) && OrderOk(t, memo, n) && h in t.parents && h in FaultyGroups(t) && i <= j
    requires Walk(t, h, i).Some? && Walk(t, h, i).value in memo && Walk(t, h, j).Some?
    ensures Walk(t, h, i).value in FaultyGroups(t) && Walk(t, h, j).value in memo
    decreases j
  {
    hide FaultyGroups, OrderOk;
    FaultyAbove(t, h, i);
    if i < j {
      WalkShorter(t, h, j - 1, j);
      FaultyTouched(t, memo, n, h, i, j - 1);
      FaultyAbove(t, h, j - 1);
      WalkPlus(t, h, j - 1, 1);
      OrderFacts(t, memo, n);
    }
  }

  lemma OrderFacts(t: Inventory, memo: map<Id, bool>, n: int)
    requires Valid(t) && OrderOk(t, memo, n)
    ensures forall h :: h in memo ==> h in t.parents && memo[h] == Expected(t, h)
    ensures forall h :: h in memo && h in FaultyGroups(t) ==> Walk(t, h, 1).Some? && Walk(t, h, 1).value in memo
  {
    hide FaultyGroups, Expected;
  }

  lemma {:induction false} FaultyAbove(t: Inventory, h: Id, i: nat)
    requires Valid(t) && h in t.parents && h in FaultyGroups(t) && Walk(t, h, i).Some?
    ensures Walk(t, h, i).value in FaultyGroups(t)
  {
    hide FaultyGroups, WholeCycles;
    if i > 0 {
      WalkShorter(t, h, i - 1, i);
      FaultyAbove(t, h, i - 1);
      FaultyIsWhole(t);
      WholeAt(t, FaultyGroups(t), Walk(t, h, i - 1).value);
      WalkPlus(t, h, i - 1, 1);
    }
  }

  /** A group outside the memo, all of whose cycles meet it, is not on a faulty cycle. */
  lemma BrokenIsSound(t: Inventory, memo: map<Id, bool>, n: int, h: Id)
    requires Valid(t) && OrderOk(t, memo, n) && h in t.parents && h !in memo && Broken(t, memo, h)
    ensures h !in FaultyGroups(t)
  {
    hide FaultyGroups, OrderOk, WholeCycles;
    if h in FaultyGroups(t) {
      FaultyIsWhole(t);
      WholeAt(t, FaultyGroups(t), h);
      var m: nat :| m > 0 && Walk(t, h, m) == Some(h);
      assert MetWithin(t, memo, h, m);
      var i: nat :| i <= m && Walk(t, h, i).Some? && Walk(t, h, i).value in memo;
      FaultyTouched(t, memo, n, h, i, m);
    }
  }

  lemma OffFaultyRight(t: Inventory, memo: map<Id, bool>, n: int)
    requires Valid(t) && OrderOk(t, memo, n)
    ensures RightOff(t, FaultyGroups(t), memo)
  {
    hide FaultyGroups, Expected, HasDescendantItem;
    forall h | h in memo && h !in FaultyGroups(t) ensures memo[h] == HasDescendantItem(t, h) { ExpectedOff(t, h); }
  }

  /** When a group's cycle is untouched at its turn, it is the first listed group of the cycle. */
  lemma TurnIsFirst(t: Inventory, memo: map<Id, bool>, n: nat, k: nat)
    requires Valid(t) && n < |t.order| && OrderOk(t, memo, n)
    requires Ring(t, t.order[n], k) && Untouched(t, t.order[n], k, memo)
    ensures FirstListed(t, t.order[n])
  {
    hide Ring, Expected, FaultyGroups;
    var g := t.order[n];
    RingLength(t, g, k);
    forall q: int, m: nat | 0 <= q < n ensures Walk(t, g, m) != Some(t.order[q]) {
      var j := RingIndex(t, g, k, m);
      assert t.order[q] in memo;
    }
    assert FirstAt(t, g, n);
  }

  /** The answer to a question, and the memo it leaves. */
  lemma AfterQuestion(t: Inventory, memo: map<Id, bool>, n: nat, m: map<Id, bool>)
    requires Valid(t) && n < |t.order| && OrderOk(t, memo, n) && t.order[n] in m
    requires forall h :: h in memo ==> h in m && m[h] == memo[h]
    requires forall h :: h in m ==> h in t.parents && m[h] == Expected(t, h)
    requires forall h :: h in m && h !in memo && h in FaultyGroups(t) ==>
      Walk(t, h, 1).Some? && Walk(t, h, 1).value in m
    ensures OrderOk(t, m, n + 1)
  {
    hide FaultyGroups, Expected, Walk;
  }

  /** The first question on a cycle that is not faulty. */
  lemma TurnOnSound(t: Inventory, memo: map<Id, bool>, n: nat, k: nat)
    requires Valid(t) && n < |t.order| && OrderOk(t, memo, n) && t.order[n] !in memo
    requires Ring(t, t.order[n], k) && Untouched(t, t.order[n], k, memo) && !FaultyRing(t, t.order[n], k)
    ensures OrderOk(t, Query(t, memo, {}, t.order[n]).1, n + 1)
  {
    var g := t.order[n];
    RingGoesOnOnce(t, g, k);
    TurnIsFirst(t, memo, n, k);
    FaultyIsWhole(t);
    OffFaultyRight(t, memo, n);
    var ring, faulty := RingGroups(t, g, k), FaultyGroups(t);
    forall x | x in ring ensures x !in faulty { SoundRing(t, g, k, x); }
    hide Expected, FaultyGroups, RingGroups, Overlookable, HasDescendantItem, Ring, Query, Untouched, WholeCycles;
    hide FirstListed, OrderOk, Walk, RightOff;
    OrderFacts(t, memo, n);
    FirstQuestionRight(t, faulty, memo, g, k);
    QueryGrows(t, memo, {}, g);
    var m := Query(t, memo, {}, g).1;
    forall h | h in m ensures m[h] == Expected(t, h) {
      if h !in faulty { ExpectedOff(t, h); }
    }
    AfterQuestion(t, memo, n, m);
  }

  lemma SoundRing(t: Inventory, g: Id, k: nat, x: Id)
    requires Valid(t) && g in t.parents && Ring(t, g, k) && FirstListed(t, g) && !FaultyRing(t, g, k)
    requires InRing(t, g, k, x)
    ensures x !in FaultyGroups(t)
  {
    hide Ring, FirstListed, InRing;
    if x in FaultyGroups(t) {
      var h, l: nat :| FaultyRing(t, h, l) && InRing(t, h, l, x);
      FirstIsUnique(t, g, k, h, l, x);
    }
  }

  /** The first question on a faulty cycle records an answer on every group of it. */
  lemma TurnOnFaulty(t: Inventory, memo: map<Id, bool>, n: nat, k: nat)
    requires Valid(t) && n < |t.order| && OrderOk(t, memo, n) && t.order[n] !in memo
    requires FaultyRing(t, t.order[n], k) && Untouched(t, t.order[n], k, memo)
    ensures OrderOk(t, Query(t, memo, {}, t.order[n]).1, n + 1)
  {
    hide Overlookable, FirstListed, Ring, Query, Untouched, HasDescendantItem, AnyEarly, OwnItem, Expected, WholeCycles;
    var g := t.order[n];
    var ring, faulty := RingGroups(t, g, k), FaultyGroups(t);
    OverlookableRing(t, g, k);
    FaultyIsWhole(t);
    OffFaultyRight(t, memo, n);
    assert ring <= faulty;
    FirstQuestion(t, faulty, memo, g, k);
    QueryGrows(t, memo, {}, g);
    var m := Query(t, memo, {}, g).1;
    hide FaultyGroups;
    forall h | h in m ensures h in t.parents && m[h] == Expected(t, h) {
      if h in ring {
        RecordedOnFaulty(t, g, k, m, h);
      } else if h !in faulty {
        ExpectedOff(t, h);
      }
    }
    forall h | h in ring ensures Walk(t, h, 1).Some? && Walk(t, h, 1).value in m {
      RingIsWhole(t, g, k);
      WholeAt(t, ring, h);
      RecordedOnFaulty(t, g, k, m, Walk(t, h, 1).value);
    }
    AfterQuestion(t, memo, n, m);
  }

  lemma RecordedOnFaulty(t: Inventory, g: Id, k: nat, m: map<Id, bool>, x: Id)
    requires Valid(t) && FaultyRing(t, g, k) && RingState(t, g, k, m) && x in RingGroups(t, g, k)
    ensures x in m && m[x] == Expected(t, x)
  {
    hide Overlookable, FirstListed, Ring, AnyEarly, OwnItem, Expected, AnyOwn;
    OverlookableRing(t, g, k);
    var j: nat :| 0 < j <= k && Walk(t, g, j) == Some(x);
    assert RingEntry(t, g, j, m, AnyEarly(t, g, k));
    ExpectedOn(t, g, k, j, x);
  }

  /** One question more. */
  lemma Turn(t: Inventory, memo: map<Id, bool>, n: nat)
    requires Valid(t) && n < |t.order| && OrderOk(t, memo, n)
    ensures var (r, m) := Query(t, memo, {}, t.order[n]);
      r == Expected(t, t.order[n]) && OrderOk(t, m, n + 1)
  {
    hide Expected, FaultyRing, Broken, HasDescendantItem, WholeCycles, FaultyGroups, Ring, Untouched;
    var g := t.order[n];
    QueryGrows(t, memo, {}, g);
    if g in memo {
      MemoAnswers(t, memo, g);
      AfterQuestion(t, memo, n, memo);
    } else if Broken(t, memo, g) {
      TurnOnBroken(t, memo, n);
    } else {
      var k := UntouchedRing(t, memo, g);
      if FaultyRing(t, g, k) { TurnOnFaulty(t, memo, n, k); } else { TurnOnSound(t, memo, n, k); }
    }
  }

  lemma TurnOnBroken(t: Inventory, memo: map<Id, bool>, n: nat)
    requires Valid(t) && n < |t.order| && OrderOk(t, memo, n) && t.order[n] !in memo && Broken(t, memo, t.order[n])
    ensures OrderOk(t, Query(t, memo, {}, t.order[n]).1, n + 1)
  {
    hide Expected, FaultyRing, Broken, HasDescendantItem, WholeCycles, FaultyGroups, Query;
    var g := t.order[n];
    BrokenIsSound(t, memo, n, g);
    FaultyIsWhole(t);
    OffFaultyRight(t, memo, n);
    QueryCorrect(t, FaultyGroups(t), memo, {}, g);
    QueryGrows(t, memo, {}, g);
    var m := Query(t, memo, {}, g).1;
    forall h | h in m ensures m[h] == Expected(t, h) {
      if h !in FaultyGroups(t) { ExpectedOff(t, h); }
    }
    AfterQuestion(t, memo, n, m);
  }

  lemma {:induction false} AnswersFrom(t: Inventory, memo: map<Id, bool>, n: nat)
    requires Valid(t) && n <= |t.order| && OrderOk(t, memo, n)
    ensures |Answers(t, memo, t.order[n..])| == |t.order| - n
    ensures forall i :: n <= i < |t.order| ==> Answers(t, memo, t.order[n..])[i - n] == Expected(t, t.order[i])
    decreases |t.order| - n
  {
    hide Expected, OrderOk, Query;
    if n < |t.order| {
      Turn(t, memo, n);
      var (r, m) := Query(t, memo, {}, t.order[n]);
      AnswersFrom(t, m, n + 1);
      assert t.order[n..][1..] == t.order[n + 1..];
      var rest := Answers(t, m, t.order[n + 1..]);
      assert Answers(t, memo, t.order[n..]) == [r] + rest;
      hide Answers;
      forall i | n <= i < |t.order| ensures ([r] + rest)[i - n] == Expected(t, t.order[i]) {
        if i > n { assert rest[i - (n + 1)] == Expected(t, t.order[i]); }
      }
    }
  }

  /** The groups asked about in their own order: a no is given exactly without a descendant item, or overlooked. */
  lemma AnswersInOrder(t: Inventory, i: nat)
    requires Valid(t) && i < |t.order|
    ensures i < |Answers(t, map[], t.order)|
    ensures Answers(t, map[], t.order)[i] <==> HasDescendantItem(t, t.order[i]) && !Overlooked(t, t.order[i])
  {
    hide HasDescendantItem, Overlooked, Query;
    assert t.order[0..] == t.order;
    AnswersFrom(t, map[], 0);
    assert Answers(t, map[], t.order[0..])[i - 0] == Expected(t, t.order[i]);
  }

  /** Some group is overlooked exactly when the parent of a cycle's first listed group is overlookable. */
  lemma OverlookedExactly(t: Inventory)
    requires Valid(t)
    ensures (exists x :: x in t.parents && HasDescendantItem(t, x) && Overlooked(t, x))
      <==> exists g :: g in t.parents && OnCycle(t, g) && FirstListed(t, g)
                       && Walk(t, g, 1).Some? && Overlookable(t, Walk(t, g, 1).value)
  {
    hide Overlookable, FirstListed, HasDescendantItem, Ring, OwnItem, AnyEarly;
    if x :| x in t.parents && HasDescendantItem(t, x) && Overlooked(t, x) {
      var g, k: nat, j: nat :| OverlookedFrom(t, x, g, k, j);
      RingLength(t, g, k);
      assert OnCycle(t, g);
    }
    if g :| g in t.parents && OnCycle(t, g) && FirstListed(t, g) && Walk(t, g, 1).Some?
            && Overlookable(t, Walk(t, g, 1).value) {
      var n: nat :| n > 0 && Walk(t, g, n) == Some(g);
      var k := LeastRing(t, g, n);
      OverlookableRing(t, g, k);
      RingLength(t, g, k);
      RingDescendant(t, g, k, 1);
      AnyStep(t, g, 1);
      assert OverlookedFrom(t, Walk(t, g, 1).value, g, k, 1);
    }
  }

  // ---------------------------------------------------------------- an example

  /** Two groups that are each other's parent, and below the first a group with an item. */
  function CyclicInventory(): Inventory {
    Inventory(["A", "B", "T"], map["A" := Named("B"), "B" := Named("A"), "T" := Named("A")],
              [Item("I", Named("T"), 0)])
  }

  lemma CyclicChildrenOf(g: Id)
    ensures Children(CyclicInventory(), g)
      == if g == "A" then ["B", "T"] else if g == "B" then ["A"] else []
    ensures DirectItems(CyclicInventory(), g, 1) == if g == "T" then 1 else 0
  {
    var t := CyclicInventory();
    assert ChildrenUpTo(t, g, 1) == if g == "B" then ["A"] else [] by { assert ChildrenUpTo(t, g, 0) == []; }
    assert ChildrenUpTo(t, g, 2) == if g == "B" then ["A"] else if g == "A" then ["B"] else [];
    assert DirectItems(t, g, 0) == 0;
  }

  lemma CyclicChildren()
    ensures Valid(CyclicInventory())
    ensures Children(CyclicInventory(), "A") == ["B", "T"] && Children(CyclicInventory(), "B") == ["A"]
    ensures DirectItems(CyclicInventory(), "A", 1) == 0 && DirectItems(CyclicInventory(), "B", 1) == 0
    ensures DirectItems(CyclicInventory(), "T", 1) == 1
  {
    hide Children, DirectItems;
    CyclicChildrenOf("A");
    CyclicChildrenOf("B");
    CyclicChildrenOf("T");
  }

  lemma CyclicFirstOrder()
    ensures Answers(CyclicInventory(), map[], ["A", "B"]) == [true, false]
  {
    var t := CyclicInventory();
    CyclicChildren();
    hide ChildrenUpTo, DirectItems, Children, Valid;
    assert QueryAny(t, map[], {"A"} + {"B"}, ["A"]) == (false, map[]) by { assert ["A"][1..] == []; }
    assert Query(t, map[], {"A"}, "B") == (false, map["B" := false]);
    assert Query(t, map["B" := false], {"A"}, "T") == (true, map["B" := false]["T" := true]);
    assert ["B", "T"][1..] == ["T"];
    assert QueryAny(t, map[], {"A"}, ["B", "T"]) == (true, map["B" := false]["T" := true]);
    assert {} + {"A"} == {"A"};
    assert Query(t, map[], {}, "A") == (true, map["B" := false]["T" := true]["A" := true]);
    assert ["A", "B"][1..] == ["B"] && ["B"][1..] == [];
  }

  lemma CyclicSecondOrder()
    ensures Answers(CyclicInventory(), map[], ["B", "A"]) == [true, true]
  {
    var t := CyclicInventory();
    CyclicChildren();
    hide ChildrenUpTo, DirectItems, Children, Valid;
    assert Query(t, map[], {"B"} + {"A"}, "B") == (false, map[]);
    assert ["B", "T"][1..] == ["T"] && ["A"][1..] == [];
    assert Query(t, map[], {"B"} + {"A"}, "T").0;
    assert QueryAny(t, map[], {"B"} + {"A"}, ["B", "T"]).0;
    assert Query(t, map[], {"B"}, "A").0 && Query(t, map[], {"B"}, "A").1["A"];
    assert {} + {"B"} == {"B"};
    assert QueryAny(t, map[], {"B"}, ["A"]).0;
    assert Query(t, map[], {}, "B").0;
    assert ["B", "A"][1..] == ["A"];
  }

  /**
    On cyclic parents the memo records the provisional no of a group met inside its own cycle: asked after A,
    group B is denied the item that it has.
   */
  lemma CyclicAnswersDependOnOrder()
    ensures Answers(CyclicInventory(), map[], ["A", "B"]) == [true, false]
    ensures Answers(CyclicInventory(), map[], ["B", "A"]) == [true, true]
    ensures HasDescendantItem(CyclicInventory(), "B")
  {
    CyclicFirstOrder();
    CyclicSecondOrder();
    var t := CyclicInventory();
    assert Walk(t, "T", 1) == Some("A") by { assert Walk(t, "T", 0) == Some("T"); }
    assert PassesThrough(t, 0, 2, "B");
  }
}
