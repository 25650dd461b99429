/**
  One question to the search with a memo in hand: answered right when every cycle through the group meets the memo,
  and followed down the cycle, group by group, when it is the first one on its cycle.
 */
module CycleDescent {
  import opened Bytes
  import opened ReqTree
  import opened ParentCycles
  import opened DescendantSearch

  // ---------------------------------------------------------------- questions off the unfinished cycles

  /** A set of groups on cycles that holds a whole cycle or none of it. */
  ghost predicate WholeCycles(t: Inventory, odd: set<Id>) {
    forall h :: h in odd ==> h in t.parents && OnCycle(t, h) && Walk(t, h, 1).Some? && Walk(t, h, 1).value in odd
  }

  /** The memo is right about every group outside odd. */
  ghost predicate RightOff(t: Inventory, odd: set<Id>, memo: map<Id, bool>) {
    forall h :: h in memo ==> h in t.parents && (h !in odd ==> memo[h] == HasDescendantItem(t, h))
  }

  /** Of the groups in odd, the memo gained at most those in some. */
  ghost predicate Gained(odd: set<Id>, memo: map<Id, bool>, m: map<Id, bool>, some: set<Id>) {
    forall h :: h in odd && h in m ==> h in memo || h in some
  }

  /** a is above g, and every group on the way up is in active. */
  ghost predicate PathIn(t: Inventory, active: set<Id>, a: Id, g: Id)
    requires g in t.parents
  {
    exists n: nat :: n > 0 && Walk(t, g, n) == Some(a) && WayIn(t, active, g, n)
  }

  ghost predicate WayIn(t: Inventory, active: set<Id>, g: Id, n: nat)
    requires g in t.parents
  {
    forall i: nat :: 0 < i <= n ==> Walk(t, g, i).Some? && Walk(t, g, i).value in active
  }

  ghost predicate Paths(t: Inventory, active: set<Id>, g: Id)
    requires g in t.parents
  {
    forall a :: a in active ==> PathIn(t, active, a, g)
  }

  /** Some group on the way from g up its first n parents is in the memo. */
  ghost predicate MetWithin(t: Inventory, memo: map<Id, bool>, g: Id, n: nat)
    requires g in t.parents
  {
    exists i: nat :: i <= n && Walk(t, g, i).Some? && Walk(t, g, i).value in memo
  }

  /** Every cycle through g meets the memo. */
  ghost predicate Broken(t: Inventory, memo: map<Id, bool>, g: Id)
    requires g in t.parents
  {
    forall n: nat :: n > 0 && Walk(t, g, n) == Some(g) ==> MetWithin(t, memo, g, n)
  }

  /** A group under evaluation is not met again. */
  lemma NotActive(t: Inventory, memo: map<Id, bool>, active: set<Id>, g: Id)
    requires g in t.parents && active !! memo.Keys && Paths(t, active, g) && Broken(t, memo, g) && g !in memo
    ensures g !in active
  {
  }

  lemma ChildPaths(t: Inventory, active: set<Id>, g: Id, c: Id)
    requires g in t.parents && c in t.parents && t.parents[c] == Named(g) && Paths(t, active, g)
    ensures Paths(t, active + {g}, c)
  {
    ParentStep(t, c, g);
    forall a | a in active + {g} ensures PathIn(t, active + {g}, a, c) {
      if a in active {
        assert PathIn(t, active, a, g);
        var n: nat :| n > 0 && Walk(t, g, n) == Some(a) && WayIn(t, active, g, n);
        WalkPlus(t, c, 1, n);
        forall i: nat | 0 < i <= n + 1 ensures Walk(t, c, i).Some? && Walk(t, c, i).value in active + {g} {
          WalkPlus(t, c, 1, i - 1);
          if i > 1 { assert Walk(t, g, i - 1).value in active; }
        }
        assert WayIn(t, active + {g}, c, n + 1);
      } else {
        assert WayIn(t, active + {g}, c, 1);
      }
    }
  }

  lemma ChildBroken(t: Inventory, memo: map<Id, bool>, g: Id, c: Id)
    requires g in t.parents && c in t.parents && t.parents[c] == Named(g) && Broken(t, memo, g)
    ensures Broken(t, memo, c)
  {
    ParentStep(t, c, g);
    forall n: nat | n > 0 && Walk(t, c, n) == Some(c) ensures MetWithin(t, memo, c, n) {
      WalkPlus(t, c, 1, n - 1);
      WalkPlus(t, g, n - 1, 1);
      assert Walk(t, g, n) == Some(g);
      assert MetWithin(t, memo, g, n);
      var i: nat :| i <= n && Walk(t, g, i).Some? && Walk(t, g, i).value in memo;
      if i < n {
        WalkPlus(t, c, 1, i);
        assert Walk(t, c, i + 1).value in memo;
      } else {
        assert Walk(t, c, 1).value in memo;
      }
    }
  }

  lemma StaysBroken(t: Inventory, memo: map<Id, bool>, m: map<Id, bool>, g: Id)
    requires g in t.parents && Broken(t, memo, g) && memo.Keys <= m.Keys
    ensures Broken(t, m, g)
  {
    forall n: nat | n > 0 && Walk(t, g, n) == Some(g) ensures MetWithin(t, m, g, n) {
      assert MetWithin(t, memo, g, n);
      var i: nat :| i <= n && Walk(t, g, i).Some? && Walk(t, g, i).value in memo;
      assert Walk(t, g, i).value in m;
    }
  }

  lemma OffCycleBroken(t: Inventory, memo: map<Id, bool>, g: Id)
    requires g in t.parents && !OnCycle(t, g)
    ensures Broken(t, memo, g)
  {
  }

  /** A child of a group outside odd is outside odd. */
  lemma ChildOff(t: Inventory, odd: set<Id>, g: Id, c: Id)
    requires WholeCycles(t, odd) && g in t.parents && c in t.parents && t.parents[c] == Named(g) && g !in odd
    ensures c !in odd
  {
    ParentStep(t, c, g);
  }

  /**
    A question about a group none of whose cycles is untouched is answered right, and leaves the memo right, provided
    the memo is right outside a set of other cycles.
   */
  lemma {:induction false} QueryCorrect(t: Inventory, odd: set<Id>, memo: map<Id, bool>, active: set<Id>, g: Id)
    requires Valid(t) && g in t.parents && active <= t.parents.Keys && active !! memo.Keys
    requires WholeCycles(t, odd) && g !in odd && RightOff(t, odd, memo) && Paths(t, active, g) && Broken(t, memo, g)
    ensures var (r, m) := Query(t, memo, active, g);
      r == HasDescendantItem(t, g) && RightOff(t, odd, m) && Gained(odd, memo, m, {})
    decreases t.parents.Keys - active, 0
  {
    hide HasDescendantItem, Paths, WholeCycles, Broken, Children, DirectItems, OnCycle;
    if g !in memo {
      NotActive(t, memo, active, g);
      DescendantStep(t, g);
      if DirectItems(t, g, |t.items|) == 0 {
        ChildrenName(t, g);
        forall c | c in Children(t, g) ensures Paths(t, active + {g}, c) && Broken(t, memo, c) && c !in odd {
          ChildPaths(t, active, g, c);
          ChildBroken(t, memo, g, c);
          ChildOff(t, odd, g, c);
        }
        QueryAnyCorrect(t, odd, memo, active + {g}, Children(t, g));
      }
    }
  }

  lemma {:induction false} QueryAnyCorrect(t: Inventory, odd: set<Id>, memo: map<Id, bool>, active: set<Id>,
                                           cs: seq<Id>)
    requires Valid(t) && active <= t.parents.Keys && active !! memo.Keys
    requires WholeCycles(t, odd) && RightOff(t, odd, memo)
    requires forall c :: c in cs ==> c in t.parents && c !in odd && Paths(t, active, c) && Broken(t, memo, c)
    ensures var (r, m) := QueryAny(t, memo, active, cs);
      (r <==> exists c :: c in cs && HasDescendantItem(t, c)) && RightOff(t, odd, m) && Gained(odd, memo, m, {})
    decreases t.parents.Keys - active, |cs|
  {
    hide HasDescendantItem, Paths, WholeCycles, Broken, RightOff;
    if cs != [] {
      assert cs[0] in cs;
      QueryCorrect(t, odd, memo, active, cs[0]);
      QueryGrows(t, memo, active, cs[0]);
      var (r, m) := Query(t, memo, active, cs[0]);
      if !r {
        forall c | c in cs[1..] ensures Broken(t, m, c) { StaysBroken(t, memo, m, c); }
        QueryAnyCorrect(t, odd, m, active, cs[1..]);
        assert forall c :: c in cs <==> c == cs[0] || c in cs[1..];
      }
    }
  }

  // ---------------------------------------------------------------- the first question on a cycle

  lemma {:induction false} AnySplits(t: Inventory, memo: map<Id, bool>, active: set<Id>, a: seq<Id>, b: seq<Id>)
    requires Valid(t) && active <= t.parents.Keys
    requires (forall c :: c in a ==> c in t.parents) && forall c :: c in b ==> c in t.parents
    ensures forall c :: c in a + b ==> c in t.parents
    ensures var (r, m) := QueryAny(t, memo, active, a);
      QueryAny(t, memo, active, a + b) == if r then (true, m) else QueryAny(t, m, active, b)
    decreases |a|
  {
    if a == [] {
      assert a + b == b;
    } else {
      assert (a + b)[0] == a[0] && (a + b)[1..] == a[1..] + b;
      var (r, m) := Query(t, memo, active, a[0]);
      AnySplits(t, m, active, a[1..], b);
    }
  }

  /** What the memo says of the j-th group of a ring: yes if anything when the search stopped early, else all. */
  ghost predicate RingEntry(t: Inventory, g: Id, j: nat, m: map<Id, bool>, early: bool)
    requires Valid(t) && g in t.parents
  {
    Walk(t, g, j).Some? ==>
      var x := Walk(t, g, j).value;
      if early then x in m ==> m[x] else x in m && m[x] == AnyOwn(t, g, j)
  }

  /** The answers recorded on the first i groups of a ring after the search went down from the i-th one. */
  ghost predicate RingState(t: Inventory, g: Id, i: nat, m: map<Id, bool>)
    requires Valid(t) && g in t.parents
  {
    forall j: nat :: 0 < j <= i ==> RingEntry(t, g, j, m, AnyEarly(t, g, i))
  }

  /** Of the ring, exactly the groups above the i-th are under evaluation. */
  ghost predicate EvaluatesAbove(t: Inventory, g: Id, k: nat, i: nat, active: set<Id>)
    requires g in t.parents
  {
    forall j: nat :: 0 < j <= k && Walk(t, g, j).Some? ==> (Walk(t, g, j).value in active <==> i < j)
  }

  /** None of the first i groups of the ring is in the memo. */
  ghost predicate Untouched(t: Inventory, g: Id, i: nat, memo: map<Id, bool>)
    requires g in t.parents
  {
    forall j: nat :: 0 < j <= i && Walk(t, g, j).Some? ==> Walk(t, g, j).value !in memo
  }

  ghost function RingGroups(t: Inventory, g: Id, k: nat): set<Id>
    requires g in t.parents
  {
    set x | x in t.parents && InRing(t, g, k, x)
  }

  lemma AnyStep(t: Inventory, g: Id, i: nat)
    requires Valid(t) && g in t.parents && i > 0 && Walk(t, g, i).Some?
    ensures AnyOwn(t, g, i) <==> AnyOwn(t, g, i - 1) || OwnItem(t, Walk(t, g, i).value)
    ensures AnyEarly(t, g, i) <==> AnyEarly(t, g, i - 1) || EarlyItem(t, Walk(t, g, i).value)
  {
    hide OwnItem, EarlyItem;
  }

  /** Which children decide whether a ring group has an early item, and an item of its own. */
  lemma ItemsAround(t: Inventory, d: Id, p: nat)
    requires Valid(t) && p < |Children(t, d)| && DirectItems(t, d, |t.items|) == 0
    requires forall c :: c in Children(t, d) ==> c in t.parents
    requires forall q :: 0 <= q < |Children(t, d)| ==> (OnCycle(t, Children(t, d)[q]) <==> q == p)
    ensures var cs := Children(t, d);
      && (EarlyItem(t, d) <==> exists c :: c in cs[..p] && HasDescendantItem(t, c))
      && (OwnItem(t, d) <==> exists c :: (c in cs[..p] || c in cs[p + 1..]) && HasDescendantItem(t, c))
  {
    hide OnCycle, HasDescendantItem, Children, DirectItems;
    var cs := Children(t, d);
    var before, after := cs[..p], cs[p + 1..];
    forall q | 0 <= q < |before| && HasDescendantItem(t, before[q]) ensures EarlyItem(t, d) && OwnItem(t, d) {
      assert HasDescendantItem(t, cs[q]) && OnCycle(t, cs[p]);
    }
    forall q | 0 <= q < |after| && HasDescendantItem(t, after[q]) ensures OwnItem(t, d) {
      assert after[q] == cs[p + 1 + q];
      assert cs[p + 1 + q] in cs && !OnCycle(t, cs[p + 1 + q]);
    }
    if EarlyItem(t, d) {
      var a, b :| 0 <= a < b < |cs| && HasDescendantItem(t, cs[a]) && OnCycle(t, cs[b]);
      assert cs[a] == before[a];
    }
    if OwnItem(t, d) {
      var c :| c in cs && !OnCycle(t, c) && HasDescendantItem(t, c);
      var q :| 0 <= q < |cs| && cs[q] == c;
      if q < p { assert before[q] == c; } else { assert after[q - (p + 1)] == c; }
    }
  }

  lemma EarlyIsOwn(t: Inventory, g: Id, k: nat, i: nat)
    requires Valid(t) && g in t.parents && Ring(t, g, k) && 0 < i <= k
    ensures Walk(t, g, i).Some?
    ensures EarlyItem(t, Walk(t, g, i).value) ==> OwnItem(t, Walk(t, g, i).value)
  {
    hide OnCycle, HasDescendantItem, Children, DirectItems, Ring;
    var p := ChildrenAround(t, g, k, i);
    var d := Walk(t, g, i).value;
    if DirectItems(t, d, |t.items|) == 0 { ItemsAround(t, d, p); }
  }

  /** The search stopped at the i-th group without going on down the ring. */
  lemma RingStops(t: Inventory, g: Id, k: nat, i: nat, m: map<Id, bool>)
    requires Valid(t) && g in t.parents && Ring(t, g, k) && 0 < i <= k && Untouched(t, g, i - 1, m)
    ensures Walk(t, g, i).Some?
    ensures EarlyItem(t, Walk(t, g, i).value) ==>
      AnyOwn(t, g, i) && RingState(t, g, i, m[Walk(t, g, i).value := true])
  {
    hide OwnItem, EarlyItem, Ring;
    EarlyIsOwn(t, g, k, i);
    AnyStep(t, g, i);
  }

  /** The search went on down the ring and came back to the i-th group. */
  lemma RingRecords(t: Inventory, g: Id, k: nat, i: nat, m: map<Id, bool>, r: bool)
    requires Valid(t) && g in t.parents && Ring(t, g, k) && 0 < i <= k && RingState(t, g, i - 1, m)
    requires Walk(t, g, i).Some? && !EarlyItem(t, Walk(t, g, i).value) && r == AnyOwn(t, g, i)
    requires AnyEarly(t, g, i - 1) ==> r
    ensures RingState(t, g, i, m[Walk(t, g, i).value := r])
  {
    AnyStep(t, g, i);
    hide OwnItem, EarlyItem, AnyOwn, AnyEarly, Ring, Walk, RingEntry;
    var early := AnyEarly(t, g, i);
    var m' := m[Walk(t, g, i).value := r];
    forall j: nat | 0 < j <= i ensures RingEntry(t, g, j, m', early) {
      if j < i {
        RingDiffers(t, g, k, j, i);
        assert RingEntry(t, g, j, m, AnyEarly(t, g, i - 1));
        EntryKept(t, g, j, m, early, Walk(t, g, i).value, r);
      } else {
        EntryMade(t, g, i, m, early, r);
      }
    }
  }

  lemma EntryKept(t: Inventory, g: Id, j: nat, m: map<Id, bool>, early: bool, x: Id, r: bool)
    requires Valid(t) && g in t.parents && RingEntry(t, g, j, m, early) && Walk(t, g, j) != Some(x)
    ensures RingEntry(t, g, j, m[x := r], early)
  {
  }

  lemma EntryMade(t: Inventory, g: Id, i: nat, m: map<Id, bool>, early: bool, r: bool)
    requires Valid(t) && g in t.parents && Walk(t, g, i).Some? && r == AnyOwn(t, g, i) && (early ==> r)
    ensures RingEntry(t, g, i, m[Walk(t, g, i).value := r], early)
  {
  }

  lemma RingDiffers(t: Inventory, g: Id, k: nat, j: nat, i: nat)
    requires g in t.parents && Ring(t, g, k) && 0 < j < i <= k
    ensures Walk(t, g, j) != Walk(t, g, i)
  {
  }

  /** The children off the cycle of a group on it are answered right. */
  lemma SideChildren(t: Inventory, odd: set<Id>, memo: map<Id, bool>, active: set<Id>, d: Id, cs: seq<Id>)
    requires Valid(t) && d in t.parents && active <= t.parents.Keys && (active + {d}) !! memo.Keys
    requires WholeCycles(t, odd) && RightOff(t, odd, memo) && Paths(t, active, d)
    requires forall c :: c in cs ==> c in Children(t, d) && c in t.parents && !OnCycle(t, c)
    ensures var (r, m) := QueryAny(t, memo, active + {d}, cs);
      && (r <==> exists c :: c in cs && HasDescendantItem(t, c)) && RightOff(t, odd, m) && Gained(odd, memo, m, {})
      && (forall h :: h in memo ==> h in m && m[h] == memo[h]) && (active + {d}) !! m.Keys
  {
    hide Paths, Broken, Children, OnCycle, HasDescendantItem, RightOff;
    ChildrenName(t, d);
    forall c | c in cs ensures Paths(t, active + {d}, c) && Broken(t, memo, c) && c !in odd {
      ChildPaths(t, active, d, c);
      OffCycleBroken(t, memo, c);
    }
    QueryAnyCorrect(t, odd, memo, active + {d}, cs);
    QueryAnyGrows(t, memo, active + {d}, cs);
  }

  /** The children of a ring group are searched before, at and after the one on the cycle. */
  lemma SearchAround(t: Inventory, memo: map<Id, bool>, active: set<Id>, cs: seq<Id>, p: nat)
    requires Valid(t) && active <= t.parents.Keys && p < |cs| && forall c :: c in cs ==> c in t.parents
    ensures var (r, m) := QueryAny(t, memo, active, cs[..p]);
      var (r', m') := Query(t, m, active, cs[p]);
      QueryAny(t, memo, active, cs)
        == if r then (true, m) else if r' then (true, m') else QueryAny(t, m', active, cs[p + 1..])
  {
    hide Query;
    assert cs == cs[..p] + cs[p..];
    assert cs[p..][0] == cs[p] && cs[p..][1..] == cs[p + 1..];
    AnySplits(t, memo, active, cs[..p], cs[p..]);
  }

  /** What holds before the search goes down from the i-th group of an untouched ring. */
  ghost predicate Descending(t: Inventory, odd: set<Id>, memo: map<Id, bool>, active: set<Id>, g: Id, k: nat, i: nat)
    requires Valid(t) && g in t.parents
  {
    && Ring(t, g, k) && 0 < i <= k && Walk(t, g, i).Some?
    && active <= t.parents.Keys && active !! memo.Keys && EvaluatesAbove(t, g, k, i, active)
    && Untouched(t, g, i, memo) && Paths(t, active, Walk(t, g, i).value)
    && WholeCycles(t, odd) && RightOff(t, odd, memo) && RingGroups(t, g, k) <= odd
  }

  /** What holds when it has come back with answer r and memo m. */
  ghost predicate Ascended(t: Inventory, odd: set<Id>, memo: map<Id, bool>, g: Id, k: nat, i: nat, r: bool,
                           m: map<Id, bool>)
    requires Valid(t) && g in t.parents
  {
    && r == AnyOwn(t, g, i) && RingState(t, g, i, m)
    && RightOff(t, odd, m) && Gained(odd, memo, m, RingGroups(t, g, k))
  }

  /** Where the descent stands: d is the i-th group, neither answered nor under evaluation. */
  lemma DescendingAt(t: Inventory, odd: set<Id>, memo: map<Id, bool>, active: set<Id>, g: Id, k: nat, i: nat)
    requires Valid(t) && g in t.parents && Descending(t, odd, memo, active, g, k, i)
    ensures var d := Walk(t, g, i).value;
      && d !in memo && d !in active && d in RingGroups(t, g, k) && d in odd && (active + {d}) !! memo.Keys
      && Untouched(t, g, i - 1, memo)
  {
    hide Paths, Ring, WholeCycles, RightOff;
    assert InRing(t, g, k, Walk(t, g, i).value);
  }

  /** Recording an answer on a ring group disturbs nothing outside the ring. */
  lemma Ascends(t: Inventory, odd: set<Id>, memo: map<Id, bool>, g: Id, k: nat, i: nat, r: bool, m: map<Id, bool>)
    requires Valid(t) && g in t.parents && Walk(t, g, i).Some? && Walk(t, g, i).value in RingGroups(t, g, k) * odd
    requires RightOff(t, odd, m) && Gained(odd, memo, m, RingGroups(t, g, k))
    requires r == AnyOwn(t, g, i) && RingState(t, g, i, m[Walk(t, g, i).value := r])
    ensures Ascended(t, odd, memo, g, k, i, r, m[Walk(t, g, i).value := r])
  {
    hide AnyOwn, RingState, HasDescendantItem, InRing;
  }

  /** Answers about other groups leave the ring's entries as they are. */
  lemma RingKept(t: Inventory, odd: set<Id>, g: Id, k: nat, i: nat, m: map<Id, bool>, m': map<Id, bool>)
    requires Valid(t) && g in t.parents && i <= k && RingGroups(t, g, k) <= odd && RingState(t, g, i, m)
    requires Gained(odd, m, m', {}) && forall h :: h in m ==> h in m' && m'[h] == m[h]
    ensures RingState(t, g, i, m')
  {
    hide AnyOwn, AnyEarly;
    forall j: nat | 0 < j <= i ensures RingEntry(t, g, j, m', AnyEarly(t, g, i)) {
      assert RingEntry(t, g, j, m, AnyEarly(t, g, i));
      if Walk(t, g, j).Some? { assert InRing(t, g, k, Walk(t, g, j).value); }
    }
  }

  /** Answers about other groups leave the ring untouched. */
  lemma StaysUntouched(t: Inventory, odd: set<Id>, g: Id, k: nat, i: nat, memo: map<Id, bool>, m: map<Id, bool>)
    requires Valid(t) && g in t.parents && i <= k && RingGroups(t, g, k) <= odd && Untouched(t, g, i, memo)
    requires Gained(odd, memo, m, {})
    ensures Untouched(t, g, i, m)
  {
    forall j: nat | 0 < j <= i && Walk(t, g, j).Some? ensures Walk(t, g, j).value !in m {
      assert InRing(t, g, k, Walk(t, g, j).value);
    }
  }

  /** The first question on a ring: each group either stops early or asks the group before it. */
  lemma {:induction false} Descend(t: Inventory, odd: set<Id>, memo: map<Id, bool>, active: set<Id>, g: Id, k: nat,
                                   i: nat)
    requires Valid(t) && g in t.parents && Descending(t, odd, memo, active, g, k, i)
    ensures var (r, m) := Query(t, memo, active, Walk(t, g, i).value); Ascended(t, odd, memo, g, k, i, r, m)
    decreases i, 1
  {
    hide Ring, Untouched, EvaluatesAbove, Paths, WholeCycles, RightOff, RingState, AnyOwn, AnyEarly, OwnItem;
    hide EarlyItem, OnCycle, HasDescendantItem, Children, DirectItems, RingGroups, Walk, QueryAny, Gained;
    var d := Walk(t, g, i).value;
    DescendingAt(t, odd, memo, active, g, k, i);
    AnyStep(t, g, i);
    if DirectItems(t, d, |t.items|) > 0 {
      DirectIsEarly(t, d);
      GainsNothing(odd, memo, RingGroups(t, g, k));
      RingStops(t, g, k, i, memo);
      Ascends(t, odd, memo, g, k, i, true, memo);
    } else {
      var p := ChildrenAround(t, g, k, i);
      var cs, act := Children(t, d), active + {d};
      ItemsAround(t, d, p);
      SearchAround(t, memo, act, cs, p);
      SideChildren(t, odd, memo, active, d, cs[..p]);
      var (r0, m0) := QueryAny(t, memo, act, cs[..p]);
      StaysUntouched(t, odd, g, k, i, memo, m0);
      StaysUntouched(t, odd, g, k, i - 1, memo, m0);
      GainsMore(odd, memo, m0, {}, RingGroups(t, g, k));
      if r0 {
        RingStops(t, g, k, i, m0);
        Ascends(t, odd, memo, g, k, i, true, m0);
      } else {
        GoDown(t, odd, m0, active, g, k, i);
        var (r1, m1) := Query(t, m0, act, cs[p]);
        GainsBoth(odd, memo, m0, m1, RingGroups(t, g, k));
        if r1 {
          RingRecords(t, g, k, i, m1, true);
          Ascends(t, odd, memo, g, k, i, true, m1);
        } else {
          SideChildren(t, odd, m1, active, d, cs[p + 1..]);
          var (r2, m2) := QueryAny(t, m1, act, cs[p + 1..]);
          RingKept(t, odd, g, k, i - 1, m1, m2);
          GainsMore(odd, m1, m2, {}, RingGroups(t, g, k));
          GainsBoth(odd, memo, m1, m2, RingGroups(t, g, k));
          RingRecords(t, g, k, i, m2, r2);
          Ascends(t, odd, memo, g, k, i, r2, m2);
        }
      }
    }
  }

  lemma DirectIsEarly(t: Inventory, d: Id)
    requires Valid(t) && DirectItems(t, d, |t.items|) > 0
    ensures EarlyItem(t, d)
  {
  }

  lemma GainsNothing(odd: set<Id>, memo: map<Id, bool>, some: set<Id>)
    ensures Gained(odd, memo, memo, some)
  {
  }

  lemma GainsMore(odd: set<Id>, memo: map<Id, bool>, m: map<Id, bool>, some: set<Id>, more: set<Id>)
    requires Gained(odd, memo, m, some) && some <= more
    ensures Gained(odd, memo, m, more)
  {
  }

  lemma GainsBoth(odd: set<Id>, memo: map<Id, bool>, m: map<Id, bool>, m': map<Id, bool>, some: set<Id>)
    requires Gained(odd, memo, m, some) && Gained(odd, m, m', some)
    ensures Gained(odd, memo, m', some)
  {
  }

  /** From the i-th group of a ring to the one before it, or back to the start. */
  lemma {:induction false} GoDown(t: Inventory, odd: set<Id>, memo: map<Id, bool>, active: set<Id>, g: Id, k: nat,
                                  i: nat)
    requires Valid(t) && g in t.parents && Descending(t, odd, memo, active, g, k, i)
    ensures Walk(t, g, i - 1).Some?
    ensures var act := active + {Walk(t, g, i).value};
      var (r, m) := Query(t, memo, act, Walk(t, g, i - 1).value);
      && Ascended(t, odd, memo, g, k, i - 1, r, m) && (forall h :: h in memo ==> h in m && m[h] == memo[h])
      && act !! m.Keys && (AnyEarly(t, g, i - 1) ==> r)
    decreases i, 0
  {
    hide WholeCycles, RightOff, OwnItem, EarlyItem, OnCycle, HasDescendantItem, Paths, Ring, RingGroups, Walk;
    hide EvaluatesAbove, Untouched, AnyOwn, AnyEarly, RingState;
    DescendingAt(t, odd, memo, active, g, k, i);
    RingLength(t, g, k);
    RingGoesOn(t, g, k, i - 1);
    var d, e := Walk(t, g, i).value, Walk(t, g, i - 1).value;
    var act := active + {d};
    QueryGrows(t, memo, act, e);
    GainsNothing(odd, memo, RingGroups(t, g, k));
    if i > 1 {
      CycleChild(t, g, k, i, e);
      ChildPaths(t, active, d, e);
      EvaluatesMore(t, g, k, i, active);
      Descend(t, odd, memo, act, g, k, i - 1);
      if AnyEarly(t, g, i - 1) { EarlyOwn(t, g, k, i - 1); }
    } else {
      BackAtStart(t, g, k, active, memo);
    }
  }

  lemma EvaluatesMore(t: Inventory, g: Id, k: nat, i: nat, active: set<Id>)
    requires g in t.parents && Ring(t, g, k) && 1 < i <= k && Walk(t, g, i).Some? && EvaluatesAbove(t, g, k, i, active)
    ensures EvaluatesAbove(t, g, k, i - 1, active + {Walk(t, g, i).value})
  {
    var d := Walk(t, g, i).value;
    forall j: nat | 0 < j <= k && Walk(t, g, j).Some?
      ensures Walk(t, g, j).value in active + {d} <==> i - 1 < j
    {
      if j < i { RingDiffers(t, g, k, j, i); }
      if i < j { RingDiffers(t, g, k, i, j); }
    }
  }

  /** The child on the cycle of the first group of a ring is the start, which is under evaluation. */
  lemma BackAtStart(t: Inventory, g: Id, k: nat, active: set<Id>, memo: map<Id, bool>)
    requires Valid(t) && g in t.parents && Ring(t, g, k) && Walk(t, g, 1).Some?
    requires EvaluatesAbove(t, g, k, 1, active)
    ensures Walk(t, g, 0) == Some(g) && g in active + {Walk(t, g, 1).value}
    ensures RingState(t, g, 0, memo) && !AnyOwn(t, g, 0) && !AnyEarly(t, g, 0)
  {
    if k > 1 { assert Walk(t, g, k).value in active; }
  }

  lemma EarlyOwn(t: Inventory, g: Id, k: nat, i: nat)
    requires Valid(t) && g in t.parents && Ring(t, g, k) && i <= k && AnyEarly(t, g, i)
    ensures AnyOwn(t, g, i)
  {
    hide OwnItem, EarlyItem, Ring;
    var j: nat :| 0 < j <= i && Walk(t, g, j).Some? && EarlyItem(t, Walk(t, g, j).value);
    EarlyIsOwn(t, g, k, j);
  }
}
