/**
  The structural half of the requirements-inventory validator: roots, parent chains, and the memoised
  search for descendant items.
 */
module ReqTree {
  import opened Bytes

  type Id = string

  /** The parent field of a row: missing, a string, or some other value. */
  datatype Parent = Absent | Named(id: Id) | NotAString

  /** An item row: its parent, and how many of its attribute checks fail. */
  datatype Item = Item(id: Id, parent: Parent, fieldErrors: nat)

  /** The group table in insertion order, and the item table. */
  datatype Inventory = Inventory(order: seq<Id>, parents: map<Id, Parent>, items: seq<Item>)

  datatype TreeError = Earlier | GroupParent(group: Id) | Roots | ItemParent(item: Id) | ItemField(item: Id)
                     | ParentCycle(start: Id) | NoDescendantItem(group: Id)

  const DER: Id := "DER"

  ghost predicate Valid(t: Inventory) {
    && (forall g :: g in t.parents <==> g in t.order)
    && (forall i, j :: 0 <= i < j < |t.order| ==> t.order[i] != t.order[j])
  }

  /** The parent names an existing group. */
  predicate IsGroupParent(t: Inventory, p: Parent) {
    p.Named? && p.id in t.parents
  }

  // ---------------------------------------------------------------- parent chains

  /** The group reached from g by following n parents, if the chain is that long. */
  function Walk(t: Inventory, g: Id, n: nat): Option<Id>
    requires g in t.parents
    ensures Walk(t, g, n).Some? ==> Walk(t, g, n).value in t.parents
  {
    if n == 0 then Some(g)
    else
      match Walk(t, g, n - 1)
      case None => None
      case Some(h) => if IsGroupParent(t, t.parents[h]) then Some(t.parents[h].id) else None
  }

  ghost predicate NeverEnds(t: Inventory, g: Id)
    requires g in t.parents
  {
    forall n: nat :: Walk(t, g, n).Some?
  }

  ghost predicate Acyclic(t: Inventory) {
    forall g :: g in t.parents ==> !NeverEnds(t, g)
  }

  lemma {:induction false} WalkPlus(t: Inventory, g: Id, m: nat, n: nat)
    requires g in t.parents && Walk(t, g, m).Some?
    ensures Walk(t, g, m + n) == Walk(t, Walk(t, g, m).value, n)
  {
    if n > 0 {
      WalkPlus(t, g, m, n - 1);
      assert m + n - 1 == m + (n - 1);
    }
  }

  lemma {:induction false} WalkShorter(t: Inventory, g: Id, m: nat, n: nat)
    requires g in t.parents && m <= n && Walk(t, g, n).Some?
    ensures Walk(t, g, m).Some?
  {
    if m < n { WalkShorter(t, g, m, n - 1); }
  }

  /** A chain that visits a group twice never ends. */
  lemma RepeatNeverEnds(t: Inventory, g: Id, i: nat, j: nat)
    requires g in t.parents && i < j
    requires Walk(t, g, i).Some? && Walk(t, g, j) == Walk(t, g, i)
    ensures NeverEnds(t, g)
  {
    forall n: nat ensures Walk(t, g, n).Some? { RepeatReaches(t, g, i, j, n); }
  }

  lemma {:induction false} RepeatReaches(t: Inventory, g: Id, i: nat, j: nat, n: nat)
    requires g in t.parents && i < j
    requires Walk(t, g, i).Some? && Walk(t, g, j) == Walk(t, g, i)
    ensures Walk(t, g, n).Some?
    decreases n
  {
    if n <= j {
      WalkShorter(t, g, n, j);
    } else {
      RepeatReaches(t, g, i, j, n - (j - i));
      WalkPlus(t, g, j, n - j);
      WalkPlus(t, g, i, n - j);
      assert i + (n - j) == n - (j - i);
    }
  }

  /** The walk of the validator: report a start exactly when its parent chain never ends. */
  method ParentCycleFrom(t: Inventory, start: Id) returns (cycle: bool)
    requires Valid(t) && start in t.parents
    ensures cycle <==> NeverEnds(t, start)
  {
    var visited: set<Id> := {};
    var current := start;
    ghost var steps := 0;
    cycle := false;
    while current in t.parents && t.parents[current] != Absent
      invariant !cycle
      invariant current in t.parents ==> Walk(t, start, steps) == Some(current)
      invariant current !in t.parents ==> Walk(t, start, steps) == None
      invariant visited <= t.parents.Keys
      invariant forall g :: g in visited ==> exists i :: 0 <= i < steps && Walk(t, start, i) == Some(g)
      decreases t.parents.Keys - visited
    {
      if current in visited {
        ghost var i :| 0 <= i < steps && Walk(t, start, i) == Some(current);
        RepeatNeverEnds(t, start, i, steps);
        return true;
      }
      ghost var seen := visited;
      visited := visited + {current};
      forall g | g in visited ensures exists i :: 0 <= i < steps + 1 && Walk(t, start, i) == Some(g) {
        if g in seen {
          var i :| 0 <= i < steps && Walk(t, start, i) == Some(g);
          assert 0 <= i < steps + 1;
        } else {
          assert 0 <= steps < steps + 1 && Walk(t, start, steps) == Some(g);
        }
      }
      var parent := t.parents[current];
      if !parent.Named? {
        assert Walk(t, start, steps + 1).None?;
        return false;
      }
      current := parent.id;
      steps := steps + 1;
    }
    if current in t.parents { assert Walk(t, start, steps + 1).None?; }
  }

  // ---------------------------------------------------------------- descendant items

  /** Some item's parent chain passes through g. */
  ghost predicate HasDescendantItem(t: Inventory, g: Id) {
    exists i, n: nat :: PassesThrough(t, i, n, g)
  }

  /** The chain of item i is at g after n parents beyond its own. */
  ghost predicate PassesThrough(t: Inventory, i: int, n: nat, g: Id) {
    && 0 <= i < |t.items| && IsGroupParent(t, t.items[i].parent)
    && Walk(t, t.items[i].parent.id, n) == Some(g)
  }

  /** The children of g among the first k groups, in order. */
  function ChildrenUpTo(t: Inventory, g: Id, k: nat): seq<Id>
    requires k <= |t.order| && forall h :: h in t.order ==> h in t.parents
  {
    if k == 0 then []
    else
      ChildrenUpTo(t, g, k - 1) + if t.parents[t.order[k - 1]] == Named(g) then [t.order[k - 1]] else []
  }

  /** How many of the first k items have g as their parent. */
  function DirectItems(t: Inventory, g: Id, k: nat): nat
    requires k <= |t.items|
  {
    if k == 0 then 0
    else DirectItems(t, g, k - 1) + if t.items[k - 1].parent == Named(g) then 1 else 0
  }

  lemma {:induction false} ChildrenMembers(t: Inventory, g: Id, k: nat, c: Id)
    requires Valid(t) && k <= |t.order|
    ensures c in ChildrenUpTo(t, g, k) <==> c in t.order[..k] && t.parents[c] == Named(g)
  {
    if k > 0 {
      ChildrenMembers(t, g, k - 1, c);
      assert t.order[..k] == t.order[..k - 1] + [t.order[k - 1]];
    }
  }

  lemma {:induction false} DirectItemsPositive(t: Inventory, g: Id, k: nat)
    requires k <= |t.items|
    ensures DirectItems(t, g, k) > 0 <==> exists i :: 0 <= i < k && t.items[i].parent == Named(g)
  {
    if k > 0 { DirectItemsPositive(t, g, k - 1); }
  }

  function Children(t: Inventory, g: Id): seq<Id>
    requires forall h :: h in t.order ==> h in t.parents
  {
    ChildrenUpTo(t, g, |t.order|)
  }

  /** An item whose chain reaches g hangs directly below g, or below one of the children of g. */
  lemma DescendantBelow(t: Inventory, i: int, n: nat, g: Id) returns (c: Id)
    requires Valid(t) && n > 0 && PassesThrough(t, i, n, g)
    ensures c in Children(t, g) && PassesThrough(t, i, n - 1, c)
  {
    c := Walk(t, t.items[i].parent.id, n - 1).value;
    assert t.order[..|t.order|] == t.order;
    ChildrenMembers(t, g, |t.order|, c);
  }

  lemma DescendantOfChild(t: Inventory, c: Id, g: Id)
    requires Valid(t) && g in t.parents && c in Children(t, g) && HasDescendantItem(t, c)
    ensures HasDescendantItem(t, g)
  {
    ChildrenMembers(t, g, |t.order|, c);
    var i, n: nat :| PassesThrough(t, i, n, c);
    assert PassesThrough(t, i, n + 1, g);
  }

  /** A group has a descendant item exactly when it has one directly or one of its children has. */
  lemma DescendantStep(t: Inventory, g: Id)
    requires Valid(t) && g in t.parents
    ensures HasDescendantItem(t, g)
      <==> DirectItems(t, g, |t.items|) > 0 || exists c :: c in Children(t, g) && HasDescendantItem(t, c)
  {
    hide Children;
    DirectItemsPositive(t, g, |t.items|);
    if HasDescendantItem(t, g) {
      var i, n: nat :| PassesThrough(t, i, n, g);
      if n > 0 { var c := DescendantBelow(t, i, n, g); }
    }
    if DirectItems(t, g, |t.items|) > 0 {
      var i :| 0 <= i < |t.items| && t.items[i].parent == Named(g);
      assert PassesThrough(t, i, 0, g);
    }
    forall c | c in Children(t, g) && HasDescendantItem(t, c) ensures HasDescendantItem(t, g) {
      DescendantOfChild(t, c, g);
    }
  }

  lemma {:induction false} ChildrenAreGroups(t: Inventory, g: Id, k: nat)
    requires k <= |t.order| && forall h :: h in t.order ==> h in t.parents
    ensures forall c :: c in ChildrenUpTo(t, g, k) ==> c in t.parents
  {
    if k > 0 { ChildrenAreGroups(t, g, k - 1); }
  }

  /** The children of a group are the groups that name it as their parent. */
  lemma ChildrenName(t: Inventory, g: Id)
    requires Valid(t)
    ensures forall c :: c in Children(t, g) <==> c in t.parents && t.parents[c] == Named(g)
  {
    hide ChildrenUpTo;
    assert t.order[..|t.order|] == t.order;
    forall c: Id ensures c in Children(t, g) <==> c in t.parents && t.parents[c] == Named(g) {
      ChildrenMembers(t, g, |t.order|, c);
    }
  }
}
