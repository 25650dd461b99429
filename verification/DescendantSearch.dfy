/**
  The memoised search of the validator for groups with descendant items: what it answers, on every inventory and for
  every list of questions that share a memo.
 */
module DescendantSearch {
  import opened Bytes
  import opened ReqTree
  import opened ParentCycles

  /** One query of the search: its answer and the memo afterwards. A group under evaluation answers no. */
  function Query(t: Inventory, memo: map<Id, bool>, active: set<Id>, g: Id): (bool, map<Id, bool>)
    requires forall h :: h in t.order ==> h in t.parents
    requires g in t.parents && active <= t.parents.Keys
    decreases t.parents.Keys - active, 0
  {
    if g in memo then (memo[g], memo)
    else if g in active then (false, memo)
    else if DirectItems(t, g, |t.items|) > 0 then (true, memo[g := true])
    else
      ChildrenAreGroups(t, g, |t.order|);
      var (r, m) := QueryAny(t, memo, active + {g}, Children(t, g));
      (r, m[g := r])
  }

  /** The first child that answers yes ends the search. */
  function QueryAny(t: Inventory, memo: map<Id, bool>, active: set<Id>, cs: seq<Id>): (bool, map<Id, bool>)
    requires forall h :: h in t.order ==> h in t.parents
    requires (forall c :: c in cs ==> c in t.parents) && active <= t.parents.Keys
    decreases t.parents.Keys - active, |cs|
  {
    if cs == [] then (false, memo)
    else
      var (r, m) := Query(t, memo, active, cs[0]);
      if r then (true, m) else QueryAny(t, m, active, cs[1..])
  }

  /** The search object: its memo and its active set are updated by the recursive method. */
  class ItemSearch {
    const t: Inventory
    var memo: map<Id, bool>
    var active: set<Id>

    constructor (t: Inventory)
      ensures this.t == t && memo == map[] && active == {}
    {
      this.t := t;
      memo := map[];
      active := {};
    }

    method HasItem(ident: Id) returns (result: bool)
      requires Valid(t) && ident in t.parents && active <= t.parents.Keys
      modifies this
      ensures (result, memo) == Query(t, old(memo), old(active), ident)
      ensures active == old(active)
      decreases t.parents.Keys - active
    {
      if ident in memo { return memo[ident]; }
      if ident in active { return false; }
      ghost var outer, before := active, memo;
      active := active + {ident};
      result := DirectItems(t, ident, |t.items|) > 0;
      if !result {
        var cs := Children(t, ident);
        ChildrenAreGroups(t, ident, |t.order|);
        var i := 0;
        while i < |cs| && !result
          invariant 0 <= i <= |cs|
          invariant active == outer + {ident}
          invariant result ==> (true, memo) == QueryAny(t, before, active, cs)
          invariant !result ==> QueryAny(t, memo, active, cs[i..]) == QueryAny(t, before, active, cs)
        {
          assert cs[i..][0] == cs[i] && cs[i..][1..] == cs[i + 1..];
          result := HasItem(cs[i]);
          i := i + 1;
        }
      }
      active := active - {ident};
      assert active == outer;
      memo := memo[ident := result];
    }
  }

  // ---------------------------------------------------------------- a yes is right

  /** Whatever the memo says yes to does have a descendant item. */
  ghost predicate MemoSound(t: Inventory, memo: map<Id, bool>) {
    forall h :: h in memo ==> h in t.parents && (memo[h] ==> HasDescendantItem(t, h))
  }

  /** A yes is always right, on cyclic parents too. */
  lemma {:induction false} QuerySound(t: Inventory, memo: map<Id, bool>, active: set<Id>, g: Id)
    requires Valid(t) && g in t.parents && active <= t.parents.Keys && MemoSound(t, memo)
    ensures Query(t, memo, active, g).0 ==> HasDescendantItem(t, g)
    ensures MemoSound(t, Query(t, memo, active, g).1)
    decreases t.parents.Keys - active, 0
  {
    hide HasDescendantItem;
    if g !in memo && g !in active {
      DescendantStep(t, g);
      if DirectItems(t, g, |t.items|) == 0 {
        ChildrenAreGroups(t, g, |t.order|);
        QueryAnySound(t, memo, active + {g}, Children(t, g));
      }
    }
  }

  lemma {:induction false} QueryAnySound(t: Inventory, memo: map<Id, bool>, active: set<Id>, cs: seq<Id>)
    requires Valid(t) && (forall c :: c in cs ==> c in t.parents) && active <= t.parents.Keys && MemoSound(t, memo)
    ensures QueryAny(t, memo, active, cs).0 ==> exists c :: c in cs && HasDescendantItem(t, c)
    ensures MemoSound(t, QueryAny(t, memo, active, cs).1)
    decreases t.parents.Keys - active, |cs|
  {
    hide HasDescendantItem;
    if cs != [] {
      QuerySound(t, memo, active, cs[0]);
      assert cs[0] in cs;
      var (r, m) := Query(t, memo, active, cs[0]);
      if !r { QueryAnySound(t, m, active, cs[1..]); }
    }
  }

  // ---------------------------------------------------------------- the first question is answered right

  /** The memo grows, keeps its entries, and gains none for a group under evaluation. */
  lemma {:induction false} QueryGrows(t: Inventory, memo: map<Id, bool>, active: set<Id>, g: Id)
    requires Valid(t) && g in t.parents && active <= t.parents.Keys && active !! memo.Keys
    ensures var m := Query(t, memo, active, g).1;
      && (forall h :: h in memo ==> h in m && m[h] == memo[h]) && active !! m.Keys
      && (g !in active ==> g in m && m[g] == Query(t, memo, active, g).0)
    decreases t.parents.Keys - active, 0
  {
    if g !in memo && g !in active && DirectItems(t, g, |t.items|) == 0 {
      ChildrenAreGroups(t, g, |t.order|);
      QueryAnyGrows(t, memo, active + {g}, Children(t, g));
    }
  }

  lemma {:induction false} QueryAnyGrows(t: Inventory, memo: map<Id, bool>, active: set<Id>, cs: seq<Id>)
    requires Valid(t) && (forall c :: c in cs ==> c in t.parents) && active <= t.parents.Keys && active !! memo.Keys
    ensures var m := QueryAny(t, memo, active, cs).1;
      (forall h :: h in memo ==> h in m && m[h] == memo[h]) && active !! m.Keys
    decreases t.parents.Keys - active, |cs|
  {
    if cs != [] {
      QueryGrows(t, memo, active, cs[0]);
      var (r, m) := Query(t, memo, active, cs[0]);
      if !r { QueryAnyGrows(t, m, active, cs[1..]); }
    }
  }

  ghost predicate SaysNo(memo: map<Id, bool>, h: Id) {
    h in memo && !memo[h]
  }

  /** The groups denied so far have no item of their own, and their children are denied or under evaluation. */
  ghost predicate NoClosed(t: Inventory, memo: map<Id, bool>, active: set<Id>)
    requires Valid(t)
  {
    forall h :: SaysNo(memo, h) ==>
      && h in t.parents && DirectItems(t, h, |t.items|) == 0
      && forall c :: c in Children(t, h) ==> SaysNo(memo, c) || c in active
  }

  /** A question answered no was answered no all the way down. */
  lemma {:induction false} QueryNo(t: Inventory, memo: map<Id, bool>, active: set<Id>, g: Id)
    requires Valid(t) && g in t.parents && active <= t.parents.Keys && active !! memo.Keys
    requires NoClosed(t, memo, active) && !Query(t, memo, active, g).0
    ensures var m := Query(t, memo, active, g).1; NoClosed(t, m, active) && (SaysNo(m, g) || g in active)
    decreases t.parents.Keys - active, 0
  {
    hide DirectItems, Children;
    if g !in memo && g !in active {
      ChildrenName(t, g);
      assert NoClosed(t, memo, active + {g});
      QueryAnyNo(t, memo, active + {g}, Children(t, g));
      QueryAnyGrows(t, memo, active + {g}, Children(t, g));
    }
  }

  lemma {:induction false} QueryAnyNo(t: Inventory, memo: map<Id, bool>, active: set<Id>, cs: seq<Id>)
    requires Valid(t) && (forall c :: c in cs ==> c in t.parents) && active <= t.parents.Keys && active !! memo.Keys
    requires NoClosed(t, memo, active) && !QueryAny(t, memo, active, cs).0
    ensures var m := QueryAny(t, memo, active, cs).1;
      NoClosed(t, m, active) && forall c :: c in cs ==> SaysNo(m, c) || c in active
    decreases t.parents.Keys - active, |cs|
  {
    hide NoClosed;
    if cs != [] {
      var m := Query(t, memo, active, cs[0]).1;
      QueryNo(t, memo, active, cs[0]);
      QueryGrows(t, memo, active, cs[0]);
      QueryAnyNo(t, m, active, cs[1..]);
      QueryAnyGrows(t, m, active, cs[1..]);
      assert forall c :: c in cs ==> c == cs[0] || c in cs[1..];
    }
  }

  /** No item is below a group of a set of denied groups that is closed under children. */
  lemma {:induction false} ClosedHasNone(t: Inventory, memo: map<Id, bool>, g: Id, i: int, n: nat)
    requires Valid(t) && NoClosed(t, memo, {}) && SaysNo(memo, g)
    ensures !PassesThrough(t, i, n, g)
    decreases n
  {
    if PassesThrough(t, i, n, g) {
      if n == 0 {
        DirectItemsPositive(t, g, |t.items|);
      } else {
        var c := DescendantBelow(t, i, n, g);
        ClosedHasNone(t, memo, c, i, n - 1);
      }
    }
  }

  /** A question put to an empty memo is answered right, on cyclic parents too. */
  lemma FreshQueryRight(t: Inventory, g: Id)
    requires Valid(t) && g in t.parents
    ensures Query(t, map[], {}, g).0 == HasDescendantItem(t, g)
  {
    hide Query, PassesThrough;
    QuerySound(t, map[], {}, g);
    if !Query(t, map[], {}, g).0 {
      QueryNo(t, map[], {}, g);
      var m := Query(t, map[], {}, g).1;
      forall i, n: nat ensures !PassesThrough(t, i, n, g) { ClosedHasNone(t, m, g, i, n); }
    }
  }
}
