/** The validator of the requirements inventory, from the root check on: what it reports, and what its silence means. */
module ReqValidator {
  import opened Bytes
  import opened ReqTree
  import opened ParentCycles
  import opened DescendantSearch
  import opened SharedMemo

  predicate GroupRejected(t: Inventory, g: Id) {
    g in t.parents && t.parents[g] != Absent && !IsGroupParent(t, t.parents[g])
  }

  function RootsUpTo(t: Inventory, k: nat): seq<Id>
    requires k <= |t.order| && forall h :: h in t.order ==> h in t.parents
  {
    if k == 0 then []
    else RootsUpTo(t, k - 1) + if t.parents[t.order[k - 1]] == Absent then [t.order[k - 1]] else []
  }

  predicate ItemRejected(t: Inventory, item: Item, e: TreeError) {
    || (e == ItemParent(item.id) && !IsGroupParent(t, item.parent))
    || (e == ItemField(item.id) && item.fieldErrors > 0)
  }

  method GroupChecks(t: Inventory) returns (errors: seq<TreeError>)
    requires Valid(t)
    ensures forall e :: e in errors <==>
      || (e.GroupParent? && GroupRejected(t, e.group))
      || (e == Roots && RootsUpTo(t, |t.order|) != [DER])
  {
    errors := [];
    var roots := [];
    for k := 0 to |t.order|
      invariant roots == RootsUpTo(t, k)
      invariant forall e :: e in errors <==> e.GroupParent? && e.group in t.order[..k] && GroupRejected(t, e.group)
    {
      var g := t.order[k];
      assert t.order[..k + 1] == t.order[..k] + [g];
      if t.parents[g] == Absent {
        roots := roots + [g];
      } else if !IsGroupParent(t, t.parents[g]) {
        errors := errors + [GroupParent(g)];
      }
    }
    assert t.order[..|t.order|] == t.order;
    if |roots| != 1 || roots != [DER] {
      errors := errors + [Roots];
    }
  }

  method ItemChecks(t: Inventory) returns (errors: seq<TreeError>)
    ensures forall e :: e in errors <==> exists i :: 0 <= i < |t.items| && ItemRejected(t, t.items[i], e)
  {
    errors := [];
    for k := 0 to |t.items|
      invariant forall e :: e in errors <==> exists i :: 0 <= i < k && ItemRejected(t, t.items[i], e)
    {
      var item := t.items[k];
      ghost var before := errors;
      if !IsGroupParent(t, item.parent) {
        errors := errors + [ItemParent(item.id)];
      }
      errors := errors + seq(item.fieldErrors, _ => ItemField(item.id));
      forall e ensures e in errors <==> e in before || ItemRejected(t, item, e) {
        if ItemRejected(t, item, e) && e.ItemField? {
          assert errors[|errors| - 1] == e;
        }
      }
      forall e ensures e in errors <==> exists i :: 0 <= i < k + 1 && ItemRejected(t, t.items[i], e) {
        if ItemRejected(t, item, e) { assert ItemRejected(t, t.items[k], e); }
      }
    }
  }

  method CycleChecks(t: Inventory) returns (errors: seq<TreeError>)
    requires Valid(t)
    ensures forall e :: e in errors <==> e.ParentCycle? && e.start in t.parents && NeverEnds(t, e.start)
  {
    errors := [];
    for k := 0 to |t.order|
      invariant forall e :: e in errors <==> e.ParentCycle? && e.start in t.order[..k] && NeverEnds(t, e.start)
    {
      assert t.order[..k + 1] == t.order[..k] + [t.order[k]];
      var cycle := ParentCycleFrom(t, t.order[k]);
      if cycle { errors := errors + [ParentCycle(t.order[k])]; }
    }
    assert t.order[..|t.order|] == t.order;
  }

  /** g is reported: it has no descendant item, or has one that is overlooked when the groups are asked in order. */
  ghost predicate Denied(t: Inventory, g: Id)
    requires Valid(t)
  {
    g in t.parents && (!HasDescendantItem(t, g) || Overlooked(t, g))
  }

  lemma AnswersStep(t: Inventory, memo: map<Id, bool>, asked: seq<Id>, k: nat, all: seq<bool>)
    requires Valid(t) && k < |asked| == |all| && forall g :: g in asked ==> g in t.parents
    requires Answers(t, memo, asked[k..]) == all[k..]
    ensures Query(t, memo, {}, asked[k]).0 == all[k]
    ensures Answers(t, Query(t, memo, {}, asked[k]).1, asked[k + 1..]) == all[k + 1..]
  {
    assert asked[k..][0] == asked[k] && asked[k..][1..] == asked[k + 1..];
    assert all[k..][0] == all[k] && all[k..][1..] == all[k + 1..];
  }

  method DescendantChecks(t: Inventory) returns (errors: seq<TreeError>)
    requires Valid(t)
    ensures forall e :: e in errors <==> e.NoDescendantItem? && Denied(t, e.group)
  {
    hide Answers, Query, HasDescendantItem, Overlooked;
    errors := [];
    var search := new ItemSearch(t);
    AnswersLength(t, map[], t.order);
    ghost var all := Answers(t, map[], t.order);
    assert t.order[0..] == t.order && all[0..] == all;
    for k := 0 to |t.order|
      invariant search.t == t && search.active == {}
      invariant fresh(search)
      invariant Answers(t, search.memo, t.order[k..]) == all[k..]
      invariant forall e :: e in errors <==>
        e.NoDescendantItem? && exists i :: 0 <= i < k && !all[i] && t.order[i] == e.group
    {
      AnswersStep(t, search.memo, t.order, k, all);
      var found := search.HasItem(t.order[k]);
      if !found { errors := errors + [NoDescendantItem(t.order[k])]; }
    }
    forall i | 0 <= i < |t.order| ensures !all[i] <==> Denied(t, t.order[i]) { AnswersInOrder(t, i); }
  }

  /** What an error list reports about an inventory, error by error. */
  ghost predicate Reports(t: Inventory, earlier: bool, e: TreeError)
    requires Valid(t)
  {
    match e
    case Earlier => earlier
    case GroupParent(g) =>
      g in t.parents && t.parents[g] != Absent && !(t.parents[g].Named? && t.parents[g].id in t.parents)
    case Roots => RootsUpTo(t, |t.order|) != [DER]
    case ItemParent(id) =>
      exists i :: 0 <= i < |t.items| && t.items[i].id == id
                  && !(t.items[i].parent.Named? && t.items[i].parent.id in t.parents)
    case ItemField(id) => exists i :: 0 <= i < |t.items| && t.items[i].id == id && t.items[i].fieldErrors > 0
    case ParentCycle(g) => g in t.parents && NeverEnds(t, g)
    case NoDescendantItem(g) => Denied(t, g)
  }

  /** The validator, from the root check on; earlier holds the errors of the shape checks before it. */
  method Validate(t: Inventory, earlier: seq<TreeError>) returns (errors: seq<TreeError>)
    requires Valid(t) && forall e :: e in earlier ==> e == Earlier
    ensures forall e :: e in errors <==> Reports(t, earlier != [], e)
    ensures errors == [] <==> earlier == [] && IsInventoryTree(t)
  {
    hide IsInventoryTree, NeverEnds, Denied, RootsUpTo;
    var groups := GroupChecks(t);
    var items := ItemChecks(t);
    var cycles := CycleChecks(t);
    var descendants := DescendantChecks(t);
    errors := earlier + groups + items + cycles + descendants;
    if earlier != [] { assert earlier[0] in earlier; }
    assert forall e :: e in errors <==> e in earlier || e in groups || e in items || e in cycles || e in descendants;
    forall e ensures e in errors <==> Reports(t, earlier != [], e) {
      assert e in earlier <==> e == Earlier && earlier != [];
    }
    assert errors == [] <==> forall e :: e !in errors by {
      if errors != [] { assert errors[0] in errors; }
    }
    SilentMeansTree(t, earlier != []);
  }

  /**
    The groups form one finite tree rooted at DER: every chain of parents arrives there, and nothing is above it.
    Every group has an item below it, and every item hangs in the tree with its attributes in order.
   */
  ghost predicate IsInventoryTree(t: Inventory) {
    && DER in t.parents && t.parents[DER] == Absent
    && (forall g :: g in t.parents ==> ArrivesAtRoot(t, g) && HasDescendantItem(t, g))
    && (forall i :: 0 <= i < |t.items| ==> IsGroupParent(t, t.items[i].parent) && t.items[i].fieldErrors == 0)
  }

  ghost predicate ArrivesAtRoot(t: Inventory, g: Id)
    requires g in t.parents
  {
    exists n: nat :: Walk(t, g, n) == Some(DER)
  }

  lemma {:induction false} RootsMembers(t: Inventory, k: nat, g: Id)
    requires Valid(t) && k <= |t.order|
    ensures g in RootsUpTo(t, k) <==> g in t.order[..k] && t.parents[g] == Absent
  {
    if k > 0 {
      RootsMembers(t, k - 1, g);
      assert t.order[..k] == t.order[..k - 1] + [t.order[k - 1]];
    }
  }

  lemma {:induction false} OneRoot(t: Inventory, k: nat)
    requires Valid(t) && k <= |t.order|
    requires forall g :: g in t.parents && t.parents[g] == Absent ==> g == DER
    ensures RootsUpTo(t, k) == if DER in t.order[..k] && t.parents[DER] == Absent then [DER] else []
  {
    if k > 0 {
      OneRoot(t, k - 1);
      assert t.order[..k] == t.order[..k - 1] + [t.order[k - 1]];
      if t.order[k - 1] == DER { assert DER !in t.order[..k - 1]; }
    }
  }

  /** The root check passes exactly when DER is the one group without a parent. */
  lemma RootsAreDer(t: Inventory)
    requires Valid(t)
    ensures RootsUpTo(t, |t.order|) == [DER]
      <==> DER in t.parents && forall g :: g in t.parents ==> (t.parents[g] == Absent <==> g == DER)
  {
    assert t.order[..|t.order|] == t.order;
    if RootsUpTo(t, |t.order|) == [DER] {
      assert DER in RootsUpTo(t, |t.order|);
      forall g: Id ensures g in RootsUpTo(t, |t.order|) <==> g in t.parents && t.parents[g] == Absent {
        RootsMembers(t, |t.order|, g);
      }
    }
    if DER in t.parents && forall g :: g in t.parents ==> (t.parents[g] == Absent <==> g == DER) {
      OneRoot(t, |t.order|);
    }
  }

  /** A chain that ends stops at a group without a usable parent. */
  lemma {:induction false} ChainStops(t: Inventory, g: Id, n: nat) returns (m: nat)
    requires g in t.parents && Walk(t, g, n).None?
    ensures Walk(t, g, m).Some? && !IsGroupParent(t, t.parents[Walk(t, g, m).value])
  {
    if Walk(t, g, n - 1).None? { m := ChainStops(t, g, n - 1); } else { m := n - 1; }
  }

  /** With valid parents and DER the one root, a chain ends exactly when it arrives at DER. */
  lemma EndsAtRoot(t: Inventory, g: Id)
    requires g in t.parents && DER in t.parents && t.parents[DER] == Absent
    requires forall h :: h in t.parents && h != DER ==> IsGroupParent(t, t.parents[h])
    ensures !NeverEnds(t, g) <==> ArrivesAtRoot(t, g)
  {
    if !NeverEnds(t, g) {
      var n: nat :| Walk(t, g, n).None?;
      var m := ChainStops(t, g, n);
      assert Walk(t, g, m) == Some(DER);
    }
    if ArrivesAtRoot(t, g) {
      var n: nat :| Walk(t, g, n) == Some(DER);
      assert Walk(t, g, n + 1).None?;
    }
  }

  /** A group other than DER whose chain arrives at DER has a group as its parent. */
  lemma ArrivingHasParent(t: Inventory, g: Id)
    requires g in t.parents && g != DER && ArrivesAtRoot(t, g)
    ensures IsGroupParent(t, t.parents[g])
  {
    var n: nat :| Walk(t, g, n) == Some(DER);
    WalkShorter(t, g, 1, n);
    assert Walk(t, g, 0) == Some(g);
  }

  /** When every parent chain ends, no group is overlooked. */
  lemma NoneOverlooked(t: Inventory, x: Id)
    requires Valid(t) && Acyclic(t)
    ensures !Overlooked(t, x)
  {
    hide FirstListed, Overlookable, AnyOwn, Acyclic;
    forall g, k: nat, j: nat ensures !OverlookedFrom(t, x, g, k, j) {
      if g in t.parents { NoCycles(t, g); }
    }
  }

  /** A report is wrong for some group exactly when the parent of a cycle's first listed group is overlookable. */
  lemma WrongReports(t: Inventory)
    requires Valid(t)
    ensures (exists x :: Denied(t, x) && HasDescendantItem(t, x))
      <==> exists g :: g in t.parents && OnCycle(t, g) && FirstListed(t, g)
                       && Walk(t, g, 1).Some? && Overlookable(t, Walk(t, g, 1).value)
  {
    hide HasDescendantItem, Overlooked, Overlookable, OnCycle, FirstListed;
    OverlookedExactly(t);
    if x :| Denied(t, x) && HasDescendantItem(t, x) { assert Overlooked(t, x); }
    if x :| x in t.parents && HasDescendantItem(t, x) && Overlooked(t, x) { assert Denied(t, x); }
  }

  /** Nothing to report about the groups' parents. */
  ghost predicate ParentsSilent(t: Inventory)
    requires Valid(t)
  {
    && RootsUpTo(t, |t.order|) == [DER]
    && (forall g :: !GroupRejected(t, g))
    && (forall g :: g in t.parents ==> !NeverEnds(t, g))
  }

  lemma ParentsSilentMeansRooted(t: Inventory)
    requires Valid(t)
    ensures ParentsSilent(t)
      <==> DER in t.parents && t.parents[DER] == Absent && forall g :: g in t.parents ==> ArrivesAtRoot(t, g)
  {
    hide NeverEnds, ArrivesAtRoot, RootsUpTo;
    RootsAreDer(t);
    if ParentsSilent(t) {
      forall g | g in t.parents ensures ArrivesAtRoot(t, g) {
        forall h | h in t.parents && h != DER ensures IsGroupParent(t, t.parents[h]) { assert !GroupRejected(t, h); }
        EndsAtRoot(t, g);
      }
    }
    if DER in t.parents && t.parents[DER] == Absent && forall g :: g in t.parents ==> ArrivesAtRoot(t, g) {
      forall h | h in t.parents && h != DER ensures IsGroupParent(t, t.parents[h]) { ArrivingHasParent(t, h); }
      forall g | g in t.parents ensures !NeverEnds(t, g) { EndsAtRoot(t, g); }
    }
  }

  /** The validator is silent exactly about inventories whose groups form one tree rooted at DER. */
  lemma SilentMeansTree(t: Inventory, earlier: bool)
    requires Valid(t)
    ensures (forall e :: !Reports(t, earlier, e)) <==> !earlier && IsInventoryTree(t)
  {
    hide NeverEnds, ArrivesAtRoot, HasDescendantItem, Overlooked, RootsUpTo;
    ParentsSilentMeansRooted(t);
    if forall e :: !Reports(t, earlier, e) {
      assert !Reports(t, earlier, Earlier) && !Reports(t, earlier, Roots);
      forall g ensures !GroupRejected(t, g) { assert !Reports(t, earlier, GroupParent(g)); }
      forall g | g in t.parents ensures !NeverEnds(t, g) { assert !Reports(t, earlier, ParentCycle(g)); }
      forall i | 0 <= i < |t.items| ensures IsGroupParent(t, t.items[i].parent) && t.items[i].fieldErrors == 0 {
        assert !Reports(t, earlier, ItemParent(t.items[i].id)) && !Reports(t, earlier, ItemField(t.items[i].id));
      }
      forall g | g in t.parents ensures HasDescendantItem(t, g) {
        assert !Reports(t, earlier, NoDescendantItem(g));
      }
    }
    if !earlier && IsInventoryTree(t) {
      assert ParentsSilent(t);
      forall e ensures !Reports(t, earlier, e) {
        if e.NoDescendantItem? { NoneOverlooked(t, e.group); }
        if e.GroupParent? { assert !GroupRejected(t, e.group); }
      }
    }
  }
}
