/**
  Cycles of the parent relation. A group has at most one parent, so a group on a cycle lies on exactly one, and what
  is below a cycle hangs off it in trees.
 */
module ParentCycles {
  import opened Bytes
  import opened ReqTree

  /** Following parents from g leads back to g. */
  ghost predicate OnCycle(t: Inventory, g: Id)
    requires g in t.parents
  {
    exists n: nat :: n > 0 && Walk(t, g, n) == Some(g)
  }

  /** The k groups from the parent of g up to g itself are the cycle of g, each met once. */
  ghost predicate Ring(t: Inventory, g: Id, k: nat)
    requires g in t.parents
  {
    && k > 0 && Walk(t, g, k) == Some(g)
    && forall i: nat, j: nat :: 0 < i < j <= k ==> Walk(t, g, i) != Walk(t, g, j)
  }

  /** x is one of the first i groups of the ring. */
  ghost predicate InRing(t: Inventory, g: Id, i: nat, x: Id)
    requires g in t.parents
  {
    exists j: nat :: 0 < j <= i && Walk(t, g, j) == Some(x)
  }

  /** A chain that returns to its start never ends. */
  lemma RingGoesOn(t: Inventory, g: Id, k: nat, n: nat)
    requires g in t.parents && k > 0 && Walk(t, g, k) == Some(g)
    ensures Walk(t, g, n).Some?
  {
    RepeatNeverEnds(t, g, 0, k);
    assert NeverEnds(t, g);
  }

  /** Every group on a cycle has a ring, of at most the given length. */
  lemma {:induction false} LeastRing(t: Inventory, g: Id, n: nat) returns (k: nat)
    requires g in t.parents && n > 0 && Walk(t, g, n) == Some(g)
    ensures k <= n && Ring(t, g, k)
    decreases n
  {
    if i: nat, j: nat :| 0 < i < j <= n && Walk(t, g, i) == Walk(t, g, j) {
      RingGoesOn(t, g, n, i);
      WalkPlus(t, g, i, n - j);
      WalkPlus(t, g, j, n - j);
      assert i + (n - j) == n - (j - i) && j + (n - j) == n;
      k := LeastRing(t, g, n - (j - i));
    } else {
      k := n;
    }
  }

  /** Every walk along a ring ends at one of its groups. */
  lemma {:induction false} RingIndex(t: Inventory, g: Id, k: nat, n: nat) returns (j: nat)
    requires g in t.parents && k > 0 && Walk(t, g, k) == Some(g)
    ensures 0 < j <= k && Walk(t, g, j) == Walk(t, g, n) && Walk(t, g, n).Some?
  {
    RingGoesOn(t, g, k, n);
    if n == 0 {
      j := k;
    } else if n <= k {
      j := n;
    } else {
      WalkPlus(t, g, k, n - k);
      j := RingIndex(t, g, k, n - k);
    }
  }

  /** The groups of a ring are on a cycle. */
  lemma RingOnCycle(t: Inventory, g: Id, k: nat, n: nat)
    requires g in t.parents && k > 0 && Walk(t, g, k) == Some(g)
    ensures Walk(t, g, n).Some? && Walk(t, Walk(t, g, n).value, k) == Walk(t, g, n)
    ensures OnCycle(t, Walk(t, g, n).value)
  {
    RingGoesOn(t, g, k, n);
    WalkPlus(t, g, n, k);
    WalkPlus(t, g, k, n);
    assert n + k == k + n;
  }

  /** From a group of a ring, walking on stays on the ring. */
  lemma RingReaches(t: Inventory, g: Id, k: nat, j: nat, n: nat)
    requires g in t.parents && k > 0 && Walk(t, g, k) == Some(g)
    ensures Walk(t, g, j).Some? && Walk(t, Walk(t, g, j).value, n).Some?
    ensures InRing(t, g, k, Walk(t, Walk(t, g, j).value, n).value)
  {
    RingGoesOn(t, g, k, j);
    WalkPlus(t, g, j, n);
    var i := RingIndex(t, g, k, j + n);
    assert Walk(t, g, i) == Some(Walk(t, g, i).value);
  }

  /** From a group of a ring, every group of the ring is reached. */
  lemma RingReturns(t: Inventory, g: Id, k: nat, j: nat, i: nat) returns (n: nat)
    requires g in t.parents && k > 0 && Walk(t, g, k) == Some(g) && j <= k
    ensures n > 0 && Walk(t, g, j).Some? && Walk(t, Walk(t, g, j).value, n) == Walk(t, g, i)
  {
    RingGoesOn(t, g, k, j);
    n := k - j + k + i;
    WalkPlus(t, g, j, n);
    assert j + n == k + (k + i);
    WalkPlus(t, g, k, k + i);
    WalkPlus(t, g, k, i);
  }

  /** The parent of a group, as one step of its walk. */
  lemma ParentStep(t: Inventory, c: Id, g: Id)
    requires c in t.parents && g in t.parents
    ensures Walk(t, c, 1) == Some(g) <==> t.parents[c] == Named(g)
  {
    assert Walk(t, c, 0) == Some(c);
  }

  /** The one child on the cycle of the i-th group of a ring is the group before it. */
  lemma CycleChild(t: Inventory, g: Id, k: nat, i: nat, c: Id)
    requires g in t.parents && Ring(t, g, k) && 0 < i <= k && c in t.parents
    ensures Walk(t, g, i).Some?
    ensures t.parents[c] == Named(Walk(t, g, i).value) && OnCycle(t, c) <==> Walk(t, g, i - 1) == Some(c)
  {
    RingGoesOn(t, g, k, i);
    RingGoesOn(t, g, k, i - 1);
    var d := Walk(t, g, i).value;
    if t.parents[c] == Named(d) && OnCycle(t, c) {
      ParentStep(t, c, d);
      var n: nat :| n > 0 && Walk(t, c, n) == Some(c);
      WalkPlus(t, c, 1, n - 1);
      WalkPlus(t, g, i, n - 1);
      var j := RingIndex(t, g, k, i + (n - 1));
      assert Walk(t, g, j) == Some(c);
      WalkPlus(t, g, j, 1);
      if j == k {
        assert Walk(t, g, 1) == Walk(t, g, i);
      } else {
        assert Walk(t, g, j + 1) == Walk(t, g, i);
      }
    }
    if Walk(t, g, i - 1) == Some(c) {
      WalkPlus(t, g, i - 1, 1);
      ParentStep(t, c, d);
      RingOnCycle(t, g, k, i - 1);
    }
  }

  // ---------------------------------------------------------------- items on and off a cycle

  /** An item below d that is not below another group of d's cycle. */
  ghost predicate OwnItem(t: Inventory, d: Id)
    requires Valid(t)
  {
    || DirectItems(t, d, |t.items|) > 0
    || exists c :: c in Children(t, d) && c in t.parents && !OnCycle(t, c) && HasDescendantItem(t, c)
  }

  /** d has an item directly, or a child with a descendant item listed before its child on the cycle. */
  ghost predicate EarlyItem(t: Inventory, d: Id)
    requires Valid(t)
  {
    || DirectItems(t, d, |t.items|) > 0
    || exists a, b :: 0 <= a < b < |Children(t, d)| && HasDescendantItem(t, Children(t, d)[a])
                      && Children(t, d)[b] in t.parents && OnCycle(t, Children(t, d)[b])
  }

  /** One of the first i groups of the ring has an item of its own. */
  ghost predicate AnyOwn(t: Inventory, g: Id, i: nat)
    requires Valid(t) && g in t.parents
  {
    exists j: nat :: 0 < j <= i && Walk(t, g, j).Some? && OwnItem(t, Walk(t, g, j).value)
  }

  ghost predicate AnyEarly(t: Inventory, g: Id, i: nat)
    requires Valid(t) && g in t.parents
  {
    exists j: nat :: 0 < j <= i && Walk(t, g, j).Some? && EarlyItem(t, Walk(t, g, j).value)
  }

  lemma OwnIsDescendant(t: Inventory, d: Id)
    requires Valid(t) && d in t.parents && OwnItem(t, d)
    ensures HasDescendantItem(t, d)
  {
    hide HasDescendantItem, OnCycle;
    DescendantStep(t, d);
  }

  /** What is below a group is below its ancestors. */
  lemma DescendantUp(t: Inventory, d: Id, n: nat, x: Id)
    requires d in t.parents && HasDescendantItem(t, d) && Walk(t, d, n) == Some(x)
    ensures HasDescendantItem(t, x)
  {
    var i, m: nat :| PassesThrough(t, i, m, d);
    WalkPlus(t, t.items[i].parent.id, m, n);
    assert PassesThrough(t, i, m + n, x);
  }

  /** An item below a ring is below a group of the ring that has it as its own. */
  lemma {:induction false} OwnerOnRing(t: Inventory, g: Id, k: nat, j: nat, i: int, n: nat)
    requires Valid(t) && g in t.parents && Ring(t, g, k) && 0 < j <= k
    requires Walk(t, g, j).Some? && PassesThrough(t, i, n, Walk(t, g, j).value)
    ensures AnyOwn(t, g, k)
    decreases n
  {
    hide Ring, OnCycle, Children, DirectItems, OwnItem;
    var d := Walk(t, g, j).value;
    if n == 0 {
      DirectItemsPositive(t, d, |t.items|);
      DirectIsOwn(t, d);
    } else {
      var c := DescendantBelow(t, i, n, d);
      ChildrenName(t, d);
      hide PassesThrough;
      if OnCycle(t, c) {
        var j' := ChildIndex(t, g, k, j, c);
        OwnerOnRing(t, g, k, j', i, n - 1);
      } else {
        SideIsOwn(t, d, c, i, n - 1);
      }
    }
  }

  /** Where on the ring a child that is on a cycle stands. */
  lemma ChildIndex(t: Inventory, g: Id, k: nat, j: nat, c: Id) returns (j': nat)
    requires g in t.parents && Ring(t, g, k) && 0 < j <= k && c in t.parents && OnCycle(t, c)
    requires Walk(t, g, j).Some? && t.parents[c] == Named(Walk(t, g, j).value)
    ensures 0 < j' <= k && Walk(t, g, j') == Some(c)
  {
    hide Ring, OnCycle;
    RingLength(t, g, k);
    CycleChild(t, g, k, j, c);
    j' := RingIndex(t, g, k, j - 1);
  }

  lemma DirectIsOwn(t: Inventory, d: Id)
    requires Valid(t) && DirectItems(t, d, |t.items|) > 0
    ensures OwnItem(t, d)
  {
  }

  lemma SideIsOwn(t: Inventory, d: Id, c: Id, i: int, n: nat)
    requires Valid(t) && c in Children(t, d) && c in t.parents && !OnCycle(t, c) && PassesThrough(t, i, n, c)
    ensures OwnItem(t, d)
  {
    hide PassesThrough, Children, DirectItems, OnCycle;
    assert HasDescendantItem(t, c);
  }

  lemma RingLength(t: Inventory, g: Id, k: nat)
    requires g in t.parents && Ring(t, g, k)
    ensures k > 0 && Walk(t, g, k) == Some(g)
  {
  }

  /** A group of a ring has a descendant item exactly when some group of the ring has one of its own. */
  lemma RingDescendant(t: Inventory, g: Id, k: nat, j: nat)
    requires Valid(t) && g in t.parents && Ring(t, g, k) && 0 < j <= k
    ensures Walk(t, g, j).Some?
    ensures HasDescendantItem(t, Walk(t, g, j).value) <==> AnyOwn(t, g, k)
  {
    hide OwnItem, OnCycle, PassesThrough;
    RingGoesOn(t, g, k, j);
    var x := Walk(t, g, j).value;
    if HasDescendantItem(t, x) {
      var i, n: nat :| PassesThrough(t, i, n, x);
      OwnerOnRing(t, g, k, j, i, n);
    }
    if AnyOwn(t, g, k) {
      var i: nat :| 0 < i <= k && Walk(t, g, i).Some? && OwnItem(t, Walk(t, g, i).value);
      OwnIsDescendant(t, Walk(t, g, i).value);
      var n := RingReturns(t, g, k, i, j);
      DescendantUp(t, Walk(t, g, i).value, n, x);
    }
  }

  lemma {:induction false} ChildrenDistinct(t: Inventory, g: Id, k: nat)
    requires Valid(t) && k <= |t.order|
    ensures forall i, j :: 0 <= i < j < |ChildrenUpTo(t, g, k)| ==> ChildrenUpTo(t, g, k)[i] != ChildrenUpTo(t, g, k)[j]
  {
    if k > 0 {
      ChildrenDistinct(t, g, k - 1);
      ChildrenMembers(t, g, k - 1, t.order[k - 1]);
      assert t.order[k - 1] !in t.order[..k - 1];
    }
  }

  /** The children of a ring group: one on the cycle, and the others, which are not, around it. */
  lemma ChildrenAround(t: Inventory, g: Id, k: nat, i: nat) returns (p: nat)
    requires Valid(t) && g in t.parents && Ring(t, g, k) && 0 < i <= k
    ensures Walk(t, g, i).Some? && Walk(t, g, i - 1).Some?
    ensures var cs := Children(t, Walk(t, g, i).value);
      && p < |cs| && cs[p] == Walk(t, g, i - 1).value
      && (forall c :: c in cs ==> c in t.parents)
      && forall q :: 0 <= q < |cs| ==> (OnCycle(t, cs[q]) <==> q == p)
  {
    hide Ring, OnCycle;
    RingLength(t, g, k);
    RingGoesOn(t, g, k, i);
    RingGoesOn(t, g, k, i - 1);
    var d, e := Walk(t, g, i).value, Walk(t, g, i - 1).value;
    var cs := Children(t, d);
    ChildrenName(t, d);
    ChildrenDistinct(t, d, |t.order|);
    CycleChild(t, g, k, i, e);
    p :| 0 <= p < |cs| && cs[p] == e;
    forall q | 0 <= q < |cs| ensures OnCycle(t, cs[q]) <==> q == p {
      CycleChild(t, g, k, i, cs[q]);
    }
  }
}
