/** The fractional-index list: the incrementally kept cache with its ordered
    visible set, and the full replay it must equal (core/crdt/src/graph.rs,
    core/crdt/src/list.rs). */
module ListView {
  import opened Core
  import opened Nodes
  import opened FracIndex

  /** The resolved state of one item. */
  datatype ItemState = ItemState(position: Option<string>, priority: OpId, sawInsert: bool, deleted: bool) {
    /** Where the item is shown, if it is. */
    function ShownAt(): Option<string> {
      if sawInsert && !deleted then position else None
    }
  }

  const FRESH := ItemState(None, ZERO_PRIORITY, false, false)

  type Items = map<ItemId, ItemState>

  datatype ListCache = ListCache(items: Items, visible: set<(string, ItemId)>)

  function Lookup(items: Items, x: ItemId): ItemState {
    if x in items then items[x] else FRESH
  }

  function Reposition(st: ItemState, prio: OpId, pos: string): ItemState {
    if Less(st.priority, prio) then st.(position := Some(pos), priority := prio) else st
  }

  /** The effect of one list operation on its item. */
  function Touch(st: ItemState, prio: OpId, l: ListOp): ItemState {
    match l
    case ListInsert(_, _, pos) => Reposition(st.(sawInsert := true), prio, pos)
    case ListMove(_, _, pos) => Reposition(st, prio, pos)
    case ListDelete(_, _) => st.(deleted := true)
  }

  // ----- One item over a whole history -----

  ghost predicate OpOn(op: Op, k: string, x: ItemId) {
    op.OnList? && op.l.key == k && op.l.item == x
  }

  ghost function ItemOps(st: ItemState, prio: OpId, ops: seq<Op>, k: string, x: ItemId): ItemState {
    if ops == [] then st else
      var n := |ops| - 1;
      var before := ItemOps(st, prio, ops[..n], k, x);
      if OpOn(ops[n], k, x) then Touch(before, prio, ops[n].l) else before
  }

  /** The state of item `x` of list `k` after the nodes, in order. */
  ghost function ItemAfter(nodes: seq<SyncNode>, k: string, x: ItemId): ItemState {
    if nodes == [] then FRESH else
      var n := |nodes| - 1;
      ItemOps(ItemAfter(nodes[..n], k, x), nodes[n].Priority(), nodes[n].tx.ops, k, x)
  }

  ghost predicate PlacesAt(ops: seq<Op>, k: string, x: ItemId, i: int) {
    0 <= i < |ops| && OpOn(ops[i], k, x) && !ops[i].l.ListDelete?
  }

  ghost predicate FirstPlaceAt(ops: seq<Op>, k: string, x: ItemId, i: int) {
    PlacesAt(ops, k, x, i) && forall j :: 0 <= j < i ==> !PlacesAt(ops, k, x, j)
  }

  ghost predicate Places(n: SyncNode, k: string, x: ItemId) {
    exists i :: PlacesAt(n.tx.ops, k, x, i)
  }

  ghost predicate InsertsAt(ops: seq<Op>, k: string, x: ItemId, i: int) {
    0 <= i < |ops| && OpOn(ops[i], k, x) && ops[i].l.ListInsert?
  }

  ghost predicate DeletesAt(ops: seq<Op>, k: string, x: ItemId, i: int) {
    0 <= i < |ops| && OpOn(ops[i], k, x) && ops[i].l.ListDelete?
  }

  ghost predicate Inserts(n: SyncNode, k: string, x: ItemId) {
    exists i :: InsertsAt(n.tx.ops, k, x, i)
  }

  ghost predicate Deletes(n: SyncNode, k: string, x: ItemId) {
    exists i :: DeletesAt(n.tx.ops, k, x, i)
  }

  /** The first position the node gives the item. */
  ghost predicate PlacedBy(n: SyncNode, k: string, x: ItemId, pos: string) {
    exists i :: FirstPlaceAt(n.tx.ops, k, x, i) && n.tx.ops[i].l.pos == pos
  }

  /** The flags: an insert somewhere, a delete somewhere. */
  ghost predicate FlagsExplained(st: ItemState, nodes: seq<SyncNode>, k: string, x: ItemId) {
    && (st.sawInsert <==> exists j :: 0 <= j < |nodes| && Inserts(nodes[j], k, x))
    && (st.deleted <==> exists j :: 0 <= j < |nodes| && Deletes(nodes[j], k, x))
  }

  /** The position: the first one given by a node of greatest priority among
      those that place the item. */
  ghost predicate PlaceExplained(st: ItemState, nodes: seq<SyncNode>, k: string, x: ItemId) {
    && (st.position.Some? <==> exists j :: 0 <= j < |nodes| && Places(nodes[j], k, x))
    && (st.position.None? ==> st.priority == ZERO_PRIORITY)
    && (st.position.Some? ==>
          && (exists j :: 0 <= j < |nodes| && nodes[j].Priority() == st.priority
                && PlacedBy(nodes[j], k, x, st.position.value))
          && forall j :: 0 <= j < |nodes| && Places(nodes[j], k, x) ==> LessEq(nodes[j].Priority(), st.priority))
  }

  /** What the item's state means, without any order. */
  ghost predicate Explained(st: ItemState, nodes: seq<SyncNode>, k: string, x: ItemId) {
    FlagsExplained(st, nodes, k, x) && PlaceExplained(st, nodes, k, x)
  }

  // ----- Folding one node -----

  ghost predicate FlagsEffect(before: ItemState, after: ItemState, ops: seq<Op>, k: string, x: ItemId) {
    && (after.sawInsert <==> before.sawInsert || exists i :: InsertsAt(ops, k, x, i))
    && (after.deleted <==> before.deleted || exists i :: DeletesAt(ops, k, x, i))
  }

  ghost predicate PlaceEffect(before: ItemState, after: ItemState, prio: OpId, ops: seq<Op>, k: string, x: ItemId) {
    if (exists i :: PlacesAt(ops, k, x, i)) && Less(before.priority, prio)
    then after.priority == prio && exists i :: FirstPlaceAt(ops, k, x, i) && after.position == Some(ops[i].l.pos)
    else after.priority == before.priority && after.position == before.position
  }

  lemma {:induction false} ItemOpsFlags(st: ItemState, prio: OpId, ops: seq<Op>, k: string, x: ItemId)
    ensures FlagsEffect(st, ItemOps(st, prio, ops, k, x), ops, k, x)
  {
    if ops == [] {
      assert forall i :: !InsertsAt(ops, k, x, i) && !DeletesAt(ops, k, x, i);
    } else {
      var n := |ops| - 1;
      var init := ops[..n];
      ItemOpsFlags(st, prio, init, k, x);
      assert forall i :: InsertsAt(init, k, x, i) <==> InsertsAt(ops, k, x, i) && i < n;
      assert forall i :: DeletesAt(init, k, x, i) <==> DeletesAt(ops, k, x, i) && i < n;
      assert (InsertsAt(ops, k, x, n) || DeletesAt(ops, k, x, n)) ==> OpOn(ops[n], k, x);
    }
  }

  lemma {:induction false} ItemOpsPlace(st: ItemState, prio: OpId, ops: seq<Op>, k: string, x: ItemId)
    ensures PlaceEffect(st, ItemOps(st, prio, ops, k, x), prio, ops, k, x)
  {
    if ops == [] {
      assert forall i :: !PlacesAt(ops, k, x, i);
    } else {
      var n := |ops| - 1;
      var init := ops[..n];
      ItemOpsPlace(st, prio, init, k, x);
      assert forall i :: PlacesAt(init, k, x, i) <==> PlacesAt(ops, k, x, i) && i < n;
      assert forall i :: FirstPlaceAt(init, k, x, i) ==> FirstPlaceAt(ops, k, x, i) && init[i] == ops[i];
      if PlacesAt(ops, k, x, n) && forall i :: !PlacesAt(init, k, x, i) {
        assert FirstPlaceAt(ops, k, x, n);
      }
    }
  }

  lemma {:induction false} ItemExplained(nodes: seq<SyncNode>, k: string, x: ItemId)
    requires Ranked(nodes)
    ensures Explained(ItemAfter(nodes, k, x), nodes, k, x)
  {
    if nodes != [] {
      var i := |nodes| - 1;
      var init, n := nodes[..i], nodes[i];
      ItemExplained(init, k, x);
      var before := ItemAfter(init, k, x);
      ItemOpsFlags(before, n.Priority(), n.tx.ops, k, x);
      ItemOpsPlace(before, n.Priority(), n.tx.ops, k, x);
      FlagsStep(before, ItemAfter(nodes, k, x), init, n, k, x);
      PlaceStep(before, ItemAfter(nodes, k, x), init, n, k, x);
      assert nodes == init + [n];
    }
  }

  lemma SomewhereStep(nodes: seq<SyncNode>, n: SyncNode, p: SyncNode -> bool)
    ensures (exists j :: 0 <= j < |nodes + [n]| && p((nodes + [n])[j]))
      <==> (exists j :: 0 <= j < |nodes| && p(nodes[j])) || p(n)
  {
    var all := nodes + [n];
    if j :| 0 <= j < |nodes| && p(nodes[j]) { assert all[j] == nodes[j]; }
    if p(n) { assert all[|nodes|] == n; }
  }

  lemma FlagsStep(before: ItemState, after: ItemState, nodes: seq<SyncNode>, n: SyncNode, k: string, x: ItemId)
    requires FlagsExplained(before, nodes, k, x) && FlagsEffect(before, after, n.tx.ops, k, x)
    ensures FlagsExplained(after, nodes + [n], k, x)
  {
    var ins, del := m => Inserts(m, k, x), m => Deletes(m, k, x);
    SomewhereStep(nodes, n, ins);
    SomewhereStep(nodes, n, del);
    var all := nodes + [n];
    assert (exists j :: 0 <= j < |all| && Inserts(all[j], k, x)) <==> exists j :: 0 <= j < |all| && ins(all[j]);
    assert (exists j :: 0 <= j < |nodes| && Inserts(nodes[j], k, x)) <==> exists j :: 0 <= j < |nodes| && ins(nodes[j]);
    assert (exists j :: 0 <= j < |all| && Deletes(all[j], k, x)) <==> exists j :: 0 <= j < |all| && del(all[j]);
    assert (exists j :: 0 <= j < |nodes| && Deletes(nodes[j], k, x)) <==> exists j :: 0 <= j < |nodes| && del(nodes[j]);
  }

  lemma PlaceStep(before: ItemState, after: ItemState, nodes: seq<SyncNode>, n: SyncNode, k: string, x: ItemId)
    requires PlaceExplained(before, nodes, k, x) && n.Priority() != ZERO_PRIORITY
    requires PlaceEffect(before, after, n.Priority(), n.tx.ops, k, x)
    ensures PlaceExplained(after, nodes + [n], k, x)
  {
    var all := nodes + [n];
    assert all[|nodes|] == n;
    forall j | 0 <= j < |nodes| ensures all[j] == nodes[j] { }
    if Places(n, k, x) && Less(before.priority, n.Priority()) {
      assert Places(all[|nodes|], k, x) && PlacedBy(all[|nodes|], k, x, after.position.value);
    } else if before.position.Some? {
      var j :| 0 <= j < |nodes| && nodes[j].Priority() == before.priority
        && PlacedBy(nodes[j], k, x, before.position.value);
      assert Places(all[j], k, x) && PlacedBy(all[j], k, x, after.position.value);
    }
  }

  // ----- Order independence -----

  lemma SomewhereBoth(nodes: seq<SyncNode>, nodes': seq<SyncNode>, p: SyncNode -> bool)
    requires Elements(nodes) == Elements(nodes')
    ensures (exists j :: 0 <= j < |nodes| && p(nodes[j])) ==> (exists j :: 0 <= j < |nodes'| && p(nodes'[j]))
  {
    if j :| 0 <= j < |nodes| && p(nodes[j]) {
      assert nodes[j] in Elements(nodes');
      var i :| 0 <= i < |nodes'| && nodes'[i] == nodes[j];
    }
  }

  /** The flags are a function of the node set. */
  lemma FlagsUnique(st: ItemState, st': ItemState, nodes: seq<SyncNode>, nodes': seq<SyncNode>, k: string, x: ItemId)
    requires FlagsExplained(st, nodes, k, x) && FlagsExplained(st', nodes', k, x)
    requires Elements(nodes) == Elements(nodes')
    ensures st.sawInsert == st'.sawInsert && st.deleted == st'.deleted
  {
    var ins, del := m => Inserts(m, k, x), m => Deletes(m, k, x);
    assert forall j :: 0 <= j < |nodes| ==>
      ins(nodes[j]) == Inserts(nodes[j], k, x) && del(nodes[j]) == Deletes(nodes[j], k, x);
    assert forall j :: 0 <= j < |nodes'| ==>
      ins(nodes'[j]) == Inserts(nodes'[j], k, x) && del(nodes'[j]) == Deletes(nodes'[j], k, x);
    SomewhereBoth(nodes, nodes', ins);
    SomewhereBoth(nodes', nodes, ins);
    SomewhereBoth(nodes, nodes', del);
    SomewhereBoth(nodes', nodes, del);
  }

  /** `n` has the greatest priority among the nodes that place the item. */
  ghost predicate TopPlacer(all: set<SyncNode>, k: string, x: ItemId, n: SyncNode) {
    n in all && Places(n, k, x) && forall m :: m in all && Places(m, k, x) ==> LessEq(m.Priority(), n.Priority())
  }

  ghost predicate TopPlace(all: set<SyncNode>, k: string, x: ItemId, n: SyncNode, pos: string) {
    TopPlacer(all, k, x, n) && PlacedBy(n, k, x, pos)
  }

  /** All nodes of greatest priority among those that place the item agree where. */
  ghost predicate TiesAgree(all: set<SyncNode>, k: string, x: ItemId) {
    forall n, n', pos, pos' :: TopPlace(all, k, x, n, pos) && TopPlace(all, k, x, n', pos') ==> pos == pos'
  }

  lemma DistinctTiesAgree(nodes: seq<SyncNode>, k: string, x: ItemId)
    requires DistinctPriorities(nodes)
    ensures TiesAgree(Elements(nodes), k, x)
  {
    var all := Elements(nodes);
    forall n, n', pos, pos' | TopPlace(all, k, x, n, pos) && TopPlace(all, k, x, n', pos') ensures pos == pos' {
      assert n.Priority() == n'.Priority();
      var i :| 0 <= i < |nodes| && nodes[i] == n;
      var j :| 0 <= j < |nodes| && nodes[j] == n';
      assert nodes[i] == nodes[j];
    }
  }

  lemma PlaceIsTop(st: ItemState, nodes: seq<SyncNode>, k: string, x: ItemId) returns (n: SyncNode)
    requires PlaceExplained(st, nodes, k, x) && st.position.Some?
    ensures TopPlace(Elements(nodes), k, x, n, st.position.value) && n.Priority() == st.priority
  {
    var i :| 0 <= i < |nodes| && nodes[i].Priority() == st.priority && PlacedBy(nodes[i], k, x, st.position.value);
    n := nodes[i];
    forall m | m in Elements(nodes) && Places(m, k, x) ensures LessEq(m.Priority(), n.Priority()) {
      var j :| 0 <= j < |nodes| && nodes[j] == m;
    }
  }

  /** So is the position, where ties agree. */
  lemma PlaceUnique(st: ItemState, st': ItemState, nodes: seq<SyncNode>, nodes': seq<SyncNode>, k: string, x: ItemId)
    requires PlaceExplained(st, nodes, k, x) && PlaceExplained(st', nodes', k, x)
    requires Elements(nodes) == Elements(nodes') && TiesAgree(Elements(nodes), k, x)
    ensures st.position == st'.position && st.priority == st'.priority
  {
    var pl := m => Places(m, k, x);
    assert forall j :: 0 <= j < |nodes| ==> pl(nodes[j]) == Places(nodes[j], k, x);
    assert forall j :: 0 <= j < |nodes'| ==> pl(nodes'[j]) == Places(nodes'[j], k, x);
    SomewhereBoth(nodes, nodes', pl);
    SomewhereBoth(nodes', nodes, pl);
    if st.position.Some? {
      var n := PlaceIsTop(st, nodes, k, x);
      var n' := PlaceIsTop(st', nodes', k, x);
    }
  }

  lemma TiesItemOrder(nodes: seq<SyncNode>, nodes': seq<SyncNode>, k: string, x: ItemId)
    requires Elements(nodes) == Elements(nodes') && Ranked(nodes) && TiesAgree(Elements(nodes), k, x)
    ensures ItemAfter(nodes, k, x) == ItemAfter(nodes', k, x)
  {
    forall i | 0 <= i < |nodes'| ensures nodes'[i].Priority() != ZERO_PRIORITY {
      assert nodes'[i] in Elements(nodes);
      var j :| 0 <= j < |nodes| && nodes[j] == nodes'[i];
    }
    ItemExplained(nodes, k, x);
    ItemExplained(nodes', k, x);
    FlagsUnique(ItemAfter(nodes, k, x), ItemAfter(nodes', k, x), nodes, nodes', k, x);
    PlaceUnique(ItemAfter(nodes, k, x), ItemAfter(nodes', k, x), nodes, nodes', k, x);
  }

  /** An item's state depends on the nodes, not on their order, when no two nodes
      share a priority. */
  lemma ItemOrderIrrelevant(nodes: seq<SyncNode>, nodes': seq<SyncNode>, k: string, x: ItemId)
    requires Elements(nodes) == Elements(nodes') && DistinctPriorities(nodes) && Ranked(nodes)
    ensures ItemAfter(nodes, k, x) == ItemAfter(nodes', k, x)
  {
    DistinctTiesAgree(nodes, k, x);
    TiesItemOrder(nodes, nodes', k, x);
  }

  /** Of the nodes of greatest priority the first one decides. */
  lemma {:induction false} FrontPlaces(n: SyncNode, rest: seq<SyncNode>, k: string, x: ItemId, pos: string)
    requires n.Priority() != ZERO_PRIORITY && PlacedBy(n, k, x, pos)
    requires forall j :: 0 <= j < |rest| && Places(rest[j], k, x) ==> LessEq(rest[j].Priority(), n.Priority())
    ensures ItemAfter([n] + rest, k, x).position == Some(pos) && ItemAfter([n] + rest, k, x).priority == n.Priority()
  {
    var all := [n] + rest;
    var t := |rest|;
    if t == 0 {
      assert all == [n] && all[..0] == [];
      ItemOpsPlace(FRESH, n.Priority(), n.tx.ops, k, x);
    } else {
      var m := rest[t - 1];
      FrontPlaces(n, rest[..t - 1], k, x, pos);
      assert all[..t] == [n] + rest[..t - 1] && all[t] == m;
      ItemOpsPlace(ItemAfter(all[..t], k, x), m.Priority(), m.tx.ops, k, x);
    }
  }

  lemma FrontOrder(nodes: seq<SyncNode>, n: SyncNode, k: string, x: ItemId, pos: string) returns (order: seq<SyncNode>)
    requires TopPlace(Elements(nodes), k, x, n, pos) && Ranked(nodes)
    ensures multiset(order) == multiset(nodes) && ItemAfter(order, k, x).position == Some(pos)
  {
    var i :| 0 <= i < |nodes| && nodes[i] == n;
    var rest := RemoveAt(nodes, i);
    order := [n] + rest;
    FrontMultiset(nodes, i);
    SameMembers(order, nodes);
    forall j | 0 <= j < |rest| && Places(rest[j], k, x) ensures LessEq(rest[j].Priority(), n.Priority()) {
      assert order[j + 1] in Elements(order);
    }
    FrontPlaces(n, rest, k, x, pos);
  }

  /** Order independence, exactly: all orders of a log give an item the same state if
      and only if the nodes of greatest priority that place it agree where. */
  lemma ItemOrderIff(nodes: seq<SyncNode>, k: string, x: ItemId)
    requires Ranked(nodes)
    ensures (forall order :: multiset(order) == multiset(nodes) ==> SameItem(order, nodes, k, x))
       <==> TiesAgree(Elements(nodes), k, x)
  {
    var all := Elements(nodes);
    if forall order :: multiset(order) == multiset(nodes) ==> SameItem(order, nodes, k, x) {
      forall n, n', pos, pos' | TopPlace(all, k, x, n, pos) && TopPlace(all, k, x, n', pos') ensures pos == pos' {
        var order := FrontOrder(nodes, n, k, x, pos);
        var order' := FrontOrder(nodes, n', k, x, pos');
        assert SameItem(order, nodes, k, x) && SameItem(order', nodes, k, x);
      }
    }
    if TiesAgree(all, k, x) {
      forall order | multiset(order) == multiset(nodes) ensures SameItem(order, nodes, k, x) {
        SameMembers(order, nodes);
        TiesItemOrder(nodes, order, k, x);
      }
    }
  }

  ghost predicate SameItem(nodes: seq<SyncNode>, nodes': seq<SyncNode>, k: string, x: ItemId) {
    ItemAfter(nodes, k, x) == ItemAfter(nodes', k, x)
  }

  // ----- The incremental cache -----

  /** The pairs shown by a table of item states. */
  function ShownSet(items: Items): set<(string, ItemId)> {
    set x | x in items && items[x].ShownAt().Some? :: (items[x].ShownAt().value, x)
  }

  /** One list operation folded into the cache, the visible set kept inline. */
  function UpdateList(c: ListCache, prio: OpId, l: ListOp): ListCache {
    var st := Lookup(c.items, l.item);
    var st' := Touch(st, prio, l);
    var was, now := st.ShownAt(), st'.ShownAt();
    var gone := if was.Some? && was != now then {(was.value, l.item)} else {};
    var come := if now.Some? && was != now then {(now.value, l.item)} else {};
    ListCache(c.items[l.item := st'], c.visible - gone + come)
  }

  const EMPTY_CACHE := ListCache(map[], {})

  function CacheOf(lists: map<string, ListCache>, k: string): ListCache {
    if k in lists then lists[k] else EMPTY_CACHE
  }

  function FoldOps(lists: map<string, ListCache>, prio: OpId, ops: seq<Op>): map<string, ListCache> {
    if ops == [] then lists else
      var n := |ops| - 1;
      var before := FoldOps(lists, prio, ops[..n]);
      if ops[n].OnList? then before[ops[n].l.key := UpdateList(CacheOf(before, ops[n].l.key), prio, ops[n].l)]
        else before
  }

  function FoldNode(lists: map<string, ListCache>, n: SyncNode): map<string, ListCache> {
    if n.Priority() == ZERO_PRIORITY then lists else FoldOps(lists, n.Priority(), n.tx.ops)
  }

  /** The list caches after admitting nodes in order. */
  function FoldNodes(nodes: seq<SyncNode>): map<string, ListCache> {
    FoldTo(nodes, |nodes|)
  }

  function FoldTo(nodes: seq<SyncNode>, k: nat): map<string, ListCache>
    requires k <= |nodes|
  {
    if k == 0 then map[] else FoldNode(FoldTo(nodes, k - 1), nodes[k - 1])
  }

  lemma {:induction false} FoldTake(nodes: seq<SyncNode>, n: nat, k: nat)
    requires k <= n <= |nodes|
    ensures FoldTo(nodes[..n], k) == FoldTo(nodes, k)
  {
    if k > 0 { FoldTake(nodes, n, k - 1); }
  }

  lemma FoldLast(nodes: seq<SyncNode>)
    requires nodes != []
    ensures FoldNodes(nodes) == FoldNode(FoldNodes(nodes[..|nodes| - 1]), nodes[|nodes| - 1])
  {
    FoldTake(nodes, |nodes| - 1, |nodes| - 1);
  }

  lemma FoldSnoc(nodes: seq<SyncNode>, n: SyncNode)
    ensures FoldNodes(nodes + [n]) == FoldNode(FoldNodes(nodes), n)
  {
    FoldLast(nodes + [n]);
    assert (nodes + [n])[..|nodes|] == nodes;
  }

  lemma InShown(items: Items, p: (string, ItemId))
    ensures p in ShownSet(items) <==> Lookup(items, p.1).ShownAt() == Some(p.0)
  {
  }

  lemma UpdateKeepsVisible(c: ListCache, prio: OpId, l: ListOp)
    requires c.visible == ShownSet(c.items)
    ensures var c' := UpdateList(c, prio, l); c'.visible == ShownSet(c'.items)
  {
    var c' := UpdateList(c, prio, l);
    forall p ensures p in c'.visible <==> p in ShownSet(c'.items) {
      InShown(c.items, p);
      InShown(c'.items, p);
    }
  }

  lemma {:induction false} FoldOpsTracks(lists: map<string, ListCache>, prio: OpId, ops: seq<Op>, k: string, x: ItemId)
    requires CacheOf(lists, k).visible == ShownSet(CacheOf(lists, k).items)
    ensures var c' := CacheOf(FoldOps(lists, prio, ops), k);
      && c'.visible == ShownSet(c'.items)
      && Lookup(c'.items, x) == ItemOps(Lookup(CacheOf(lists, k).items, x), prio, ops, k, x)
  {
    if ops != [] {
      var n := |ops| - 1;
      FoldOpsTracks(lists, prio, ops[..n], k, x);
      if ops[n].OnList? && ops[n].l.key == k {
        UpdateKeepsVisible(CacheOf(FoldOps(lists, prio, ops[..n]), k), prio, ops[n].l);
      }
    }
  }

  /** The cache holds every item's state, and its visible set is what they show. */
  lemma {:induction false} CacheTracks(nodes: seq<SyncNode>, k: string, x: ItemId)
    requires Ranked(nodes)
    ensures var c := CacheOf(FoldNodes(nodes), k);
      c.visible == ShownSet(c.items) && Lookup(c.items, x) == ItemAfter(nodes, k, x)
  {
    if nodes != [] {
      var n := |nodes| - 1;
      CacheTracks(nodes[..n], k, x);
      FoldLast(nodes);
      FoldOpsTracks(FoldNodes(nodes[..n]), nodes[n].Priority(), nodes[n].tx.ops, k, x);
    }
  }

  lemma SameShown(items: Items, items': Items)
    requires forall x :: Lookup(items, x) == Lookup(items', x)
    ensures ShownSet(items) == ShownSet(items')
  {
    forall p ensures p in ShownSet(items) <==> p in ShownSet(items') {
      InShown(items, p);
      InShown(items', p);
    }
  }

  // ----- The ordered listing -----

  /** The order of the visible set: position, then item. */
  predicate PairBefore(a: (string, ItemId), b: (string, ItemId)) {
    Before(a.0, b.0) || (a.0 == b.0 && a.1 < b.1)
  }

  lemma PairOrder(a: (string, ItemId), b: (string, ItemId), c: (string, ItemId))
    ensures !(PairBefore(a, b) && PairBefore(b, a))
    ensures PairBefore(a, b) || PairBefore(b, a) || a == b
    ensures PairBefore(a, b) && PairBefore(b, c) ==> PairBefore(a, c)
  {
    if Before(a.0, b.0) { BeforeAsymmetric(a.0, b.0); }
    if Before(b.0, a.0) { BeforeAsymmetric(b.0, a.0); }
    BeforeTotal(a.0, b.0);
    if Before(a.0, b.0) && Before(b.0, c.0) { BeforeTransitive(a.0, b.0, c.0); }
  }

  ghost predicate Least(m: (string, ItemId), s: set<(string, ItemId)>) {
    m in s && forall p :: p in s && p != m ==> PairBefore(m, p)
  }

  lemma {:induction false} LeastExists(s: set<(string, ItemId)>)
    requires s != {}
    ensures exists m :: Least(m, s)
    decreases |s|
  {
    var a :| a in s;
    if s == {a} {
      assert Least(a, s);
    } else {
      LeastExists(s - {a});
      var m :| Least(m, s - {a});
      PairOrder(a, m, m);
      var best := if PairBefore(a, m) then a else m;
      forall p | p in s && p != best ensures PairBefore(best, p) { PairOrder(a, m, p); }
      assert Least(best, s);
    }
  }

  /** The visible set as an ascending sequence. */
  ghost function Listing(s: set<(string, ItemId)>): (r: seq<(string, ItemId)>)
    ensures Ascending(r) && Elements(r) == s
  {
    if s == {} then [] else
      LeastExists(s);
      var m :| Least(m, s);
      var r := [m] + Listing(s - {m});
      AscendingCons(m, Listing(s - {m}));
      r
  }

  ghost predicate Ascending(r: seq<(string, ItemId)>) {
    forall i, j :: 0 <= i < j < |r| ==> PairBefore(r[i], r[j])
  }

  lemma AscendingCons(m: (string, ItemId), r: seq<(string, ItemId)>)
    requires Ascending(r) && forall p :: p in Elements(r) ==> PairBefore(m, p)
    ensures Ascending([m] + r) && Elements([m] + r) == Elements(r) + {m}
  {
    var t := [m] + r;
    forall i, j | 0 <= i < j < |t| ensures PairBefore(t[i], t[j]) {
      assert t[j] == r[j - 1];
      if i == 0 { assert r[j - 1] in Elements(r); } else { assert t[i] == r[i - 1]; }
    }
  }

  /** A set has one ascending listing. */
  lemma {:induction false} AscendingUnique(a: seq<(string, ItemId)>, b: seq<(string, ItemId)>)
    requires Ascending(a) && Ascending(b) && Elements(a) == Elements(b)
    ensures a == b
  {
    EmptyElements(a);
    EmptyElements(b);
    if a != [] {
      assert a[0] in Elements(b) && b[0] in Elements(a);
      PairOrder(a[0], b[0], a[0]);
      assert a[0] == b[0];
      TailElements(a);
      TailElements(b);
      AscendingUnique(a[1..], b[1..]);
      assert a == [a[0]] + a[1..] && b == [b[0]] + b[1..];
    }
  }

  lemma TailElements(a: seq<(string, ItemId)>)
    requires Ascending(a) && a != []
    ensures Ascending(a[1..]) && Elements(a[1..]) == Elements(a) - {a[0]}
  {
    var t := a[1..];
    forall p | p in Elements(a) - {a[0]} ensures p in t {
      var i :| 0 <= i < |a| && a[i] == p;
      assert t[i - 1] == p;
    }
    forall i | 0 <= i < |t| ensures t[i] != a[0] { PairOrder(a[0], a[i + 1], a[0]); }
  }

  /** Putting a pair where it belongs keeps the listing ascending. */
  lemma ListingInsert(r: seq<(string, ItemId)>, i: nat, p: (string, ItemId))
    requires Ascending(r) && i <= |r|
    requires i > 0 ==> PairBefore(r[i - 1], p)
    requires i < |r| ==> PairBefore(p, r[i])
    ensures Listing(Elements(r) + {p}) == InsertAt(r, i, p)
  {
    var t := InsertAt(r, i, p);
    forall a, b | 0 <= a < b < |t| ensures PairBefore(t[a], t[b]) {
      if a < i == b {
        if a < i - 1 { PairOrder(r[a], r[i - 1], p); }
      } else if a == i {
        if b > i + 1 { PairOrder(p, r[i], r[b - 1]); }
      }
    }
    InsertElements(r, i, p);
    AscendingUnique(t, Listing(Elements(r) + {p}));
  }

  // ----- The full replay -----

  /** The replay's table of item states, in whatever order the nodes come. */
  method ReplayItems(nodes: seq<SyncNode>, k: string) returns (items: Items)
    ensures forall x :: Lookup(items, x) == ItemAfter(nodes, k, x)
  {
    items := map[];
    for i := 0 to |nodes|
      invariant forall x :: Lookup(items, x) == ItemAfter(nodes[..i], k, x)
    {
      assert nodes[..i + 1][..i] == nodes[..i] && nodes[..i + 1][i] == nodes[i];
      var prio, ops := nodes[i].Priority(), nodes[i].tx.ops;
      ghost var before := items;
      for j := 0 to |ops|
        invariant forall x :: Lookup(items, x) == ItemOps(Lookup(before, x), prio, ops[..j], k, x)
      {
        assert ops[..j + 1][..j] == ops[..j] && ops[..j + 1][j] == ops[j];
        if ops[j].OnList? && ops[j].l.key == k {
          var x := ops[j].l.item;
          items := items[x := Touch(Lookup(items, x), prio, ops[j].l)];
        }
      }
      assert ops[..|ops|] == ops;
    }
    assert nodes[..|nodes|] == nodes;
  }

  /** The list a key resolves to from the cache kept while admitting `nodes`
      equals the full replay of those nodes in any other order. */
  lemma CacheEqualsReplay(nodes: seq<SyncNode>, order: seq<SyncNode>, k: string, items: Items)
    requires Elements(nodes) == Elements(order) && DistinctPriorities(nodes) && Ranked(nodes)
    requires forall x :: Lookup(items, x) == ItemAfter(order, k, x)
    ensures Listing(CacheOf(FoldNodes(nodes), k).visible) == Listing(ShownSet(items))
  {
    var c := CacheOf(FoldNodes(nodes), k);
    CacheTracks(nodes, k, 0);
    forall x ensures Lookup(c.items, x) == Lookup(items, x) {
      CacheTracks(nodes, k, x);
      ItemOrderIrrelevant(nodes, order, k, x);
    }
    SameShown(c.items, items);
  }

  /** Deletes absorb, and a move alone shows nothing. */
  lemma VisibleMeans(nodes: seq<SyncNode>, k: string, p: (string, ItemId))
    requires Ranked(nodes)
    ensures p in CacheOf(FoldNodes(nodes), k).visible <==>
      && (exists j :: 0 <= j < |nodes| && Inserts(nodes[j], k, p.1))
      && (forall j :: 0 <= j < |nodes| ==> !Deletes(nodes[j], k, p.1))
      && ItemAfter(nodes, k, p.1).position == Some(p.0)
  {
    CacheTracks(nodes, k, p.1);
    InShown(CacheOf(FoldNodes(nodes), k).items, p);
    ItemExplained(nodes, k, p.1);
  }

  /** Sorting the visible pairs, whatever order they are taken in. */
  method SortVisible(s: set<(string, ItemId)>) returns (r: seq<(string, ItemId)>)
    ensures r == Listing(s) && Elements(r) == s
    ensures forall i, j :: 0 <= i < j < |r| ==> Before(r[i].0, r[j].0) || (r[i].0 == r[j].0 && r[i].1 < r[j].1)
  {
    r := [];
    var left := s;
    while left != {}
      invariant Ascending(r) && left <= s && Elements(r) == s - left
      decreases |left|
    {
      var p :| p in left;
      var i := 0;
      while i < |r| && PairBefore(r[i], p)
        invariant i <= |r| && (i > 0 ==> PairBefore(r[i - 1], p))
      {
        i := i + 1;
      }
      if i < |r| {
        assert r[i] in Elements(r);
        PairOrder(r[i], p, p);
      }
      ListingInsert(r, i, p);
      r := InsertAt(r, i, p);
      left := left - {p};
    }
    AscendingUnique(r, Listing(s));
  }

  /** The whole replay: what the items show, sorted. */
  method ResolveListSeq(nodes: seq<SyncNode>, k: string) returns (r: seq<(string, ItemId)>)
    ensures exists items :: (forall x :: Lookup(items, x) == ItemAfter(nodes, k, x)) && r == Listing(ShownSet(items))
    ensures DistinctPriorities(nodes) && Ranked(nodes) ==>
      forall order :: Elements(order) == Elements(nodes) ==> r == Listing(CacheOf(FoldNodes(order), k).visible)
  {
    var items := ReplayItems(nodes, k);
    r := SortVisible(ShownSet(items));
    if DistinctPriorities(nodes) && Ranked(nodes) {
      forall order | Elements(order) == Elements(nodes) ensures r == Listing(CacheOf(FoldNodes(order), k).visible) {
        SameRanks(nodes, order);
        CacheEqualsReplay(order, nodes, k, items);
      }
    }
  }

  lemma SameRanks(nodes: seq<SyncNode>, order: seq<SyncNode>)
    requires DistinctPriorities(nodes) && Ranked(nodes) && Elements(order) == Elements(nodes)
    ensures DistinctPriorities(order) && Ranked(order)
  {
    forall i | 0 <= i < |order| ensures exists j :: 0 <= j < |nodes| && nodes[j] == order[i] {
      assert order[i] in Elements(nodes);
    }
  }

  // ----- Nodes at the zero priority -----

  ghost function RankedOnly(nodes: seq<SyncNode>): (r: seq<SyncNode>)
    ensures Ranked(r)
  {
    if nodes == [] then [] else
      var init, n := RankedOnly(nodes[..|nodes| - 1]), nodes[|nodes| - 1];
      if n.Priority() == ZERO_PRIORITY then init else init + [n]
  }

  ghost predicate UnrankedInserts(nodes: seq<SyncNode>, k: string, x: ItemId) {
    exists j :: 0 <= j < |nodes| && nodes[j].Priority() == ZERO_PRIORITY && Inserts(nodes[j], k, x)
  }

  ghost predicate UnrankedDeletes(nodes: seq<SyncNode>, k: string, x: ItemId) {
    exists j :: 0 <= j < |nodes| && nodes[j].Priority() == ZERO_PRIORITY && Deletes(nodes[j], k, x)
  }

  /** The cache skips such nodes altogether. */
  lemma {:induction false} CacheSkipsUnranked(nodes: seq<SyncNode>)
    ensures FoldNodes(nodes) == FoldNodes(RankedOnly(nodes))
  {
    if nodes != [] {
      var init, n := nodes[..|nodes| - 1], nodes[|nodes| - 1];
      CacheSkipsUnranked(init);
      FoldLast(nodes);
      FoldSnoc(RankedOnly(init), n);
    }
  }

  /** The replay lets them set flags, never a position. */
  lemma {:induction false} ReplayFlagsUnranked(nodes: seq<SyncNode>, k: string, x: ItemId)
    ensures var all, ranked := ItemAfter(nodes, k, x), ItemAfter(RankedOnly(nodes), k, x);
      && all.position == ranked.position && all.priority == ranked.priority
      && (all.sawInsert <==> ranked.sawInsert || UnrankedInserts(nodes, k, x))
      && (all.deleted <==> ranked.deleted || UnrankedDeletes(nodes, k, x))
  {
    if nodes != [] {
      var i := |nodes| - 1;
      var init, n := nodes[..i], nodes[i];
      var before, beforeR := ItemAfter(init, k, x), ItemAfter(RankedOnly(init), k, x);
      ReplayFlagsUnranked(init, k, x);
      assert (RankedOnly(init) + [n])[..|RankedOnly(init)|] == RankedOnly(init);
      UnrankedStep(init, n, k, x);
      assert nodes == init + [n];
      ItemOpsFlags(before, n.Priority(), n.tx.ops, k, x);
      ItemOpsFlags(beforeR, n.Priority(), n.tx.ops, k, x);
      ItemOpsAlike(before, beforeR, n.Priority(), n.tx.ops, k, x);
      if n.Priority() == ZERO_PRIORITY { ItemOpsAtZero(before, n.tx.ops, k, x); }
    }
  }

  lemma UnrankedStep(nodes: seq<SyncNode>, n: SyncNode, k: string, x: ItemId)
    ensures UnrankedInserts(nodes + [n], k, x)
      <==> UnrankedInserts(nodes, k, x) || (n.Priority() == ZERO_PRIORITY && Inserts(n, k, x))
    ensures UnrankedDeletes(nodes + [n], k, x)
      <==> UnrankedDeletes(nodes, k, x) || (n.Priority() == ZERO_PRIORITY && Deletes(n, k, x))
  {
    var all := nodes + [n];
    assert all[|nodes|] == n;
    assert forall j :: 0 <= j < |nodes| ==> all[j] == nodes[j];
  }

  lemma {:induction false} ItemOpsAlike(st: ItemState, st': ItemState, prio: OpId, ops: seq<Op>, k: string, x: ItemId)
    requires st.position == st'.position && st.priority == st'.priority
    ensures ItemOps(st, prio, ops, k, x).position == ItemOps(st', prio, ops, k, x).position
    ensures ItemOps(st, prio, ops, k, x).priority == ItemOps(st', prio, ops, k, x).priority
  {
    if ops != [] { ItemOpsAlike(st, st', prio, ops[..|ops| - 1], k, x); }
  }

  lemma {:induction false} ItemOpsAtZero(st: ItemState, ops: seq<Op>, k: string, x: ItemId)
    ensures ItemOps(st, ZERO_PRIORITY, ops, k, x).position == st.position
    ensures ItemOps(st, ZERO_PRIORITY, ops, k, x).priority == st.priority
  {
    if ops != [] { ItemOpsAtZero(st, ops[..|ops| - 1], k, x); }
  }

  /** When nodes at the zero priority do not change what an item shows: it has
      no position, is deleted anyway, or the flags they set make no difference. */
  ghost predicate Harmless(nodes: seq<SyncNode>, k: string, x: ItemId) {
    var r := ItemAfter(RankedOnly(nodes), k, x);
    r.position.None? || r.deleted ||
    (if r.sawInsert then !UnrankedDeletes(nodes, k, x)
     else UnrankedInserts(nodes, k, x) ==> UnrankedDeletes(nodes, k, x))
  }

  /** Without any assumption on priorities, the cache equals the replay of the
      same nodes exactly when the unranked ones are harmless to every item. */
  lemma CacheEqualsReplayIff(nodes: seq<SyncNode>, k: string, items: Items)
    requires forall x :: Lookup(items, x) == ItemAfter(nodes, k, x)
    ensures CacheOf(FoldNodes(nodes), k).visible == ShownSet(items) <==> forall x :: Harmless(nodes, k, x)
  {
    var c := CacheOf(FoldNodes(nodes), k);
    CacheSkipsUnranked(nodes);
    forall x ensures Harmless(nodes, k, x) <==> Lookup(c.items, x).ShownAt() == Lookup(items, x).ShownAt() {
      CacheTracks(RankedOnly(nodes), k, x);
      ReplayFlagsUnranked(nodes, k, x);
    }
    CacheTracks(RankedOnly(nodes), k, 0);
    if c.visible == ShownSet(items) {
      forall x ensures Lookup(c.items, x).ShownAt() == Lookup(items, x).ShownAt() {
        var a, b := Lookup(c.items, x).ShownAt(), Lookup(items, x).ShownAt();
        if a.Some? { InShown(c.items, (a.value, x)); InShown(items, (a.value, x)); }
        if b.Some? { InShown(c.items, (b.value, x)); InShown(items, (b.value, x)); }
      }
    }
    if forall x :: Harmless(nodes, k, x) {
      forall p ensures p in c.visible <==> p in ShownSet(items) {
        assert Harmless(nodes, k, p.1);
        InShown(c.items, p);
        InShown(items, p);
      }
    }
  }

  // An insert of item 7, and a delete of it at the zero priority.
  const SHOWN_NODE := SyncNode(1, Transaction(0, 1, 0, [OnList(ListInsert("k", 7, "V"))], []), 0)
  const ZERO_DELETE := SyncNode(2, Transaction(0, 0, 0, [OnList(ListDelete("k", 7))], []), 0)

  /** A concrete failure: the delete hides the item from the replay and leaves
      it in the cache. */
  lemma UnrankedDeleteDiffers(items: Items)
    requires forall x :: Lookup(items, x) == ItemAfter([SHOWN_NODE, ZERO_DELETE], "k", x)
    ensures CacheOf(FoldNodes([SHOWN_NODE, ZERO_DELETE]), "k").visible != ShownSet(items)
  {
    var n, d := SHOWN_NODE, ZERO_DELETE;
    CacheEqualsReplayIff([n, d], "k", items);
    assert !Harmless([n, d], "k", 7) by {
      assert [n, d][..1] == [n] && [n][..0] == [];
      assert RankedOnly([n]) == [n] && RankedOnly([n, d]) == [n];
      ShownNodeShows();
      assert DeletesAt(d.tx.ops, "k", 7, 0) && [n, d][1] == d;
    }
  }

  lemma ShownNodeShows()
    ensures ItemAfter([SHOWN_NODE], "k", 7) == ItemState(Some("V"), OpId(1, 0), true, false)
  {
    var ops := SHOWN_NODE.tx.ops;
    assert [SHOWN_NODE][..0] == [] && ops[..0] == [];
    assert ItemOps(FRESH, OpId(1, 0), ops[..0], "k", 7) == FRESH;
    assert ItemOps(FRESH, OpId(1, 0), ops, "k", 7) == Touch(FRESH, OpId(1, 0), ops[0].l);
  }
}
