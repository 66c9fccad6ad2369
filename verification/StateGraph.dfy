/** The node graph with its incrementally kept leaves, frontier, clock and
    views; every operation is proved against the admission ledger
    (core/crdt/src/graph.rs, core/crdt/src/frontier.rs). */
module StateGraph {
  import opened Core
  import opened Nodes
  import opened Dag
  import opened Admission
  import opened Views
  import Policies = Policy
  import TH = TextHistory
  import TB = TextBytes
  import MapView
  import ListView
  import TextReplay
  import TextNodes

  type Texts = map<string, seq<TH.Update>>

  // ----- The frontier -----

  /** Every head but one. */
  function Retain(heads: seq<Hash>, gone: Hash): (r: seq<Hash>)
    ensures Elements(r) == Elements(heads) - {gone}
    ensures NoDuplicates(heads) ==> NoDuplicates(r)
  {
    if heads == [] then []
    else
      var n := |heads| - 1;
      var init := Retain(heads[..n], gone);
      RetainSteps(heads, init, gone);
      if heads[n] == gone then init else init + [heads[n]]
  }

  lemma RetainSteps(heads: seq<Hash>, init: seq<Hash>, gone: Hash)
    requires heads != [] && Elements(init) == Elements(heads[..|heads| - 1]) - {gone}
    requires NoDuplicates(heads[..|heads| - 1]) ==> NoDuplicates(init)
    ensures Elements(heads) == Elements(heads[..|heads| - 1]) + {heads[|heads| - 1]}
    ensures Elements(init + [heads[|heads| - 1]]) == Elements(init) + {heads[|heads| - 1]}
    ensures NoDuplicates(heads) ==> NoDuplicates(init) && NoDuplicates(init + [heads[|heads| - 1]])
  {
    var n := |heads| - 1;
    assert heads == heads[..n] + [heads[n]];
    if NoDuplicates(heads) {
      forall i, j | 0 <= i < j < n ensures Differ(heads[..n], i, j) { assert Differ(heads, i, j); }
      var r := init + [heads[n]];
      forall i | 0 <= i < n ensures heads[i] != heads[n] { assert Differ(heads, i, n); }
      forall i, j | 0 <= i < j < |r| ensures Differ(r, i, j) {
        if j < |init| {
          assert Differ(init, i, j);
        } else {
          assert init[i] in Elements(init);
        }
      }
    }
  }

  /** Insertion sort of distinct ids. */
  method SortIds(s: seq<Hash>) returns (r: seq<Hash>)
    requires NoDuplicates(s)
    ensures Sorted(r) && Elements(r) == Elements(s)
  {
    r := [];
    for k := 0 to |s|
      invariant Sorted(r) && Elements(r) == Elements(s[..k])
    {
      var i := 0;
      while i < |r| && r[i] < s[k]
        invariant i <= |r| && forall j :: 0 <= j < i ==> r[j] < s[k]
      {
        i := i + 1;
      }
      SortedInsert(s, k, r, i);
      r := InsertAt(r, i, s[k]);
    }
    assert s[..|s|] == s;
  }

  lemma SortedInsert(s: seq<Hash>, k: nat, r: seq<Hash>, i: nat)
    requires NoDuplicates(s) && k < |s| && Sorted(r) && Elements(r) == Elements(s[..k])
    requires i <= |r| && (forall j :: 0 <= j < i ==> r[j] < s[k]) && (i < |r| ==> r[i] >= s[k])
    ensures Sorted(InsertAt(r, i, s[k])) && Elements(InsertAt(r, i, s[k])) == Elements(s[..k + 1])
  {
    assert s[..k + 1] == s[..k] + [s[k]];
    if i < |r| {
      assert r[i] in Elements(s[..k]);
      var j :| 0 <= j < k && s[j] == r[i];
      assert Differ(s, j, k);
    }
    InsertElements(r, i, s[k]);
    ElementsSnoc(s[..k], s[k]);
    InsertSorted(r, i, s[k]);
  }

  lemma InsertSorted(r: seq<Hash>, i: nat, h: Hash)
    requires Sorted(r) && i <= |r| && (forall j :: 0 <= j < i ==> r[j] < h) && (i < |r| ==> h < r[i])
    ensures Sorted(InsertAt(r, i, h))
  {
  }

  /** The members of a set, in whatever order it is walked. */
  method Collect(s: set<Hash>) returns (ids: seq<Hash>)
    ensures NoDuplicates(ids) && Elements(ids) == s
  {
    ids := [];
    var left := s;
    while left != {}
      invariant left <= s && NoDuplicates(ids) && Elements(ids) == s - left
      decreases |left|
    {
      var h :| h in left;
      PushNew(ids, h);
      ids, left := ids + [h], left - {h};
    }
  }

  /** Drop the parents from the heads, add the node, keep the list sorted. */
  method Advance(heads: seq<Hash>, n: SyncNode) returns (r: seq<Hash>)
    requires Sorted(heads)
    ensures Sorted(r) && Elements(r) == Elements(heads) - Elements(n.tx.parents) + {n.id}
  {
    r := heads;
    SortedNoDuplicates(heads);
    for i := 0 to |n.tx.parents|
      invariant NoDuplicates(r) && Elements(r) == Elements(heads) - Elements(n.tx.parents[..i])
    {
      assert n.tx.parents[..i + 1] == n.tx.parents[..i] + [n.tx.parents[i]];
      r := Retain(r, n.tx.parents[i]);
    }
    assert n.tx.parents[..|n.tx.parents|] == n.tx.parents;
    if n.id !in r {
      PushNew(r, n.id);
      r := r + [n.id];
    }
    r := SortIds(r);
  }

  /** The parents of a new node are leaves no longer. */
  method RemoveParents(leaves: set<Hash>, parents: seq<Hash>) returns (r: set<Hash>)
    ensures r == leaves - Elements(parents)
  {
    r := leaves;
    for i := 0 to |parents|
      invariant r == leaves - Elements(parents[..i])
    {
      assert parents[..i + 1] == parents[..i] + [parents[i]];
      r := r - {parents[i]};
    }
    assert parents[..|parents|] == parents;
  }

  lemma SortedNoDuplicates(s: seq<Hash>)
    requires Sorted(s)
    ensures NoDuplicates(s)
  {
    forall i, j | 0 <= i < j < |s| ensures Differ(s, i, j) { }
  }

  // ----- The views -----

  /** Fold one node into the map and list caches, operation by operation. */
  method UpdateStateCaches(mapAll: MapView.Winners, mapCanonical: MapView.Winners,
                           lists: map<string, ListView.ListCache>, n: SyncNode, canonical: bool)
    returns (all: MapView.Winners, canon: MapView.Winners, lists': map<string, ListView.ListCache>)
    ensures all == MapView.FoldNode(mapAll, n)
    ensures canon == if canonical then MapView.FoldNode(mapCanonical, n) else mapCanonical
    ensures lists' == ListView.FoldNode(lists, n)
  {
    all, canon, lists' := mapAll, mapCanonical, lists;
    var prio, ops := n.Priority(), n.tx.ops;
    if prio == ZERO_PRIORITY { return; }
    for j := 0 to |ops|
      invariant all == MapView.FoldOps(mapAll, prio, ops[..j])
      invariant canon == if canonical then MapView.FoldOps(mapCanonical, prio, ops[..j]) else mapCanonical
      invariant lists' == ListView.FoldOps(lists, prio, ops[..j])
    {
      assert ops[..j + 1][..j] == ops[..j] && ops[..j + 1][j] == ops[j];
      match ops[j]
      case OnMap(m) =>
        all := MapView.LwwUpdate(all, m.key, MapView.Written(prio, m));
        if canonical { canon := MapView.LwwUpdate(canon, m.key, MapView.Written(prio, m)); }
      case OnList(l) =>
        lists' := lists'[l.key := ListView.UpdateList(ListView.CacheOf(lists', l.key), prio, l)];
      case OnText(_) =>
    }
    assert ops[..|ops|] == ops;
  }

  /** Tell the projections one node: once per text operation, as the single-node
      path does. */
  method TellNode(texts: Texts, n: SyncNode) returns (r: Texts)
    ensures Tells(texts, r, n)
  {
    r := texts;
    var ops := n.tx.ops;
    for j := 0 to |ops|
      invariant forall k :: Elements(HistoryOf(r, k)) == Elements(HistoryOf(texts, k)) + ToldBy(n, k, j)
    {
      if ops[j].OnText? {
        var k := ops[j].t.key;
        assert TextOn(ops[j], k);
        r := r[k := HistoryOf(r, k) + UpdatesIn(n, k)];
      }
    }
    forall k ensures ToldBy(n, k, |ops|) == Elements(UpdatesIn(n, k)) {
      if forall i :: 0 <= i < |ops| ==> !TextOn(ops[i], k) { SilentOps(n, k, |ops|); }
    }
  }

  ghost function ToldBy(n: SyncNode, k: string, j: nat): set<TH.Update>
    requires j <= |n.tx.ops|
  {
    if exists i :: 0 <= i < j && TextOn(n.tx.ops[i], k) then Elements(UpdatesIn(n, k)) else {}
  }

  /** Tell the projections a batch: each operation once, grouped by key. */
  method TellBatch(texts: Texts, nodes: seq<SyncNode>) returns (r: Texts)
    ensures forall k :: Elements(HistoryOf(r, k)) == Elements(HistoryOf(texts, k)) + Spoken(nodes, k)
  {
    var coalesced: Texts := map[];
    for i := 0 to |nodes|
      invariant forall k :: Elements(HistoryOf(coalesced, k)) == Spoken(nodes[..i], k)
    {
      var n := nodes[i];
      assert nodes[..i + 1] == nodes[..i] + [n];
      forall k ensures Spoken(nodes[..i + 1], k) == Spoken(nodes[..i], k) + Elements(UpdatesIn(n, k)) {
        SpokenSnoc(nodes[..i], n, k);
      }
      for j := 0 to |n.tx.ops|
        invariant forall k :: Elements(HistoryOf(coalesced, k)) == Spoken(nodes[..i], k) + Elements(UpdatesTo(n, k, j))
      {
        TellMore(coalesced, nodes[..i], n, j);
        if n.tx.ops[j].OnText? {
          var k := n.tx.ops[j].t.key;
          coalesced := coalesced[k := HistoryOf(coalesced, k) + [UpdateOf(n, n.tx.ops[j].t)]];
        }
      }
    }
    assert nodes[..|nodes|] == nodes;
    r := map k | k in texts.Keys + coalesced.Keys :: HistoryOf(texts, k) + HistoryOf(coalesced, k);
  }

  lemma TellMore(texts: Texts, before: seq<SyncNode>, n: SyncNode, j: nat)
    requires j < |n.tx.ops|
    requires forall k :: Elements(HistoryOf(texts, k)) == Spoken(before, k) + Elements(UpdatesTo(n, k, j))
    ensures var op := n.tx.ops[j];
      var texts' := if op.OnText? then texts[op.t.key := HistoryOf(texts, op.t.key) + [UpdateOf(n, op.t)]] else texts;
      forall k :: Elements(HistoryOf(texts', k)) == Spoken(before, k) + Elements(UpdatesTo(n, k, j + 1))
  {
    var op := n.tx.ops[j];
    if op.OnText? {
      ElementsSnoc(HistoryOf(texts, op.t.key), UpdateOf(n, op.t));
      ElementsSnoc(UpdatesTo(n, op.t.key, j), UpdateOf(n, op.t));
    }
  }

  // ----- Checks -----

  method FindMissing(nodes: map<Hash, SyncNode>, parents: seq<Hash>) returns (r: Option<Hash>)
    ensures r == FirstMissing(nodes.Keys, parents, 0)
  {
    for i := 0 to |parents|
      invariant FirstMissing(nodes.Keys, parents, 0) == FirstMissing(nodes.Keys, parents, i)
    {
      if parents[i] !in nodes { return Some(parents[i]); }
    }
    return None;
  }

  method FindForbidden(p: Policies.Policy, n: SyncNode) returns (r: Option<string>)
    ensures r == FirstForbidden(p, n, 0)
  {
    for i := 0 to |n.tx.ops|
      invariant FirstForbidden(p, n, 0) == FirstForbidden(p, n, i)
    {
      var key := n.tx.ops[i].Key();
      var may := Policies.CanWrite(p, Policies.KeyBytes(key), n.tx.author);
      if !may { return Some(key); }
    }
    return None;
  }

  /** Parents and policy, without duplication. */
  method CheckPlace(p: Policies.Policy, nodes: map<Hash, SyncNode>, n: SyncNode) returns (e: Option<SyncError>)
    ensures PlaceFault(p, nodes.Keys, n) == if e.Some? then e else if n.id in nodes then Some(DuplicateNode) else None
    ensures e.None? ==> Elements(n.tx.parents) <= nodes.Keys
  {
    var missing := FindMissing(nodes, n.tx.parents);
    if missing.Some? { return Some(MissingParent(missing.value)); }
    if !IsSnapshot(n) {
      var forbidden := FindForbidden(p, n);
      if forbidden.Some? { return Some(PolicyViolation(forbidden.value)); }
    }
    return None;
  }

  // ----- Batches -----

  /** Drop repeats and what is stored, refuse what the cheap checks refuse. */
  method ScreenBatch(w: World, nodes: map<Hash, SyncNode>, clock: nat, ns: seq<SyncNode>, now: Option<nat>,
                     ghost a: Ledger)
    returns (survivors: seq<SyncNode>, rejected: Refusals)
    requires nodes.Keys == IdsOf(a.log) && clock == a.clock
    ensures survivors == Screen(w, a, ns, now, |ns|)
    ensures rejected == ScreenRefusals(w, a, ns, now, |ns|)
  {
    survivors, rejected := [], [];
    var seen: set<Hash> := {};
    for i := 0 to |ns|
      invariant seen == IdsTo(ns, i)
      invariant survivors == Screen(w, a, ns, now, i)
      invariant rejected == ScreenRefusals(w, a, ns, now, i)
    {
      var n := ns[i];
      IdsGrow(ns, i);
      if n.id !in seen && n.id !in nodes {
        var cheap := CheapFault(w, clock, n, now);
        if cheap.Some? {
          rejected := rejected + [(n.id, cheap.value)];
        } else {
          survivors := survivors + [n];
        }
      }
      seen := seen + {n.id};
    }
  }

  /** One verdict per node; ids verified before are not checked again. */
  method VerifyBatch(w: World, verified: set<Hash>, ns: seq<SyncNode>) returns (oks: seq<bool>)
    ensures |oks| == |ns| && forall i :: 0 <= i < |ns| ==> oks[i] == (ns[i].id in verified || w.authentic(ns[i]))
  {
    oks := [];
    for i := 0 to |ns|
      invariant |oks| == i && forall j :: 0 <= j < i ==> oks[j] == (ns[j].id in verified || w.authentic(ns[j]))
    {
      oks := oks + [ns[i].id in verified || w.authentic(ns[i])];
    }
  }

  // ----- The graph -----

  /** The nodes among the first `k` that a graph did not author itself. */
  ghost function ForeignTo(log: seq<SyncNode>, localIds: set<Hash>, k: nat): seq<SyncNode>
    requires k <= |log|
  {
    if k == 0 then [] else ForeignTo(log, localIds, k - 1) + if log[k - 1].id in localIds then [] else [log[k - 1]]
  }

  ghost function Foreign(log: seq<SyncNode>, localIds: set<Hash>): seq<SyncNode> {
    ForeignTo(log, localIds, |log|)
  }

  lemma {:induction false} ForeignIgnores(log: seq<SyncNode>, n: SyncNode, localIds: set<Hash>, localIds': set<Hash>,
                                          k: nat)
    requires n.id !in IdsOf(log) && k <= |log| && (localIds' == localIds || localIds' == localIds + {n.id})
    ensures ForeignTo(log + [n], localIds', k) == ForeignTo(log, localIds, k)
  {
    if k > 0 {
      ForeignIgnores(log, n, localIds, localIds', k - 1);
      assert log[k - 1].id in IdsOf(log);
    }
  }

  /** A foreign node joins the foreign ones; an own node does not. */
  lemma ForeignSnoc(log: seq<SyncNode>, n: SyncNode, localIds: set<Hash>, localIds': set<Hash>)
    requires n.id !in IdsOf(log) && localIds <= IdsOf(log) && (localIds' == localIds || localIds' == localIds + {n.id})
    ensures Foreign(log + [n], localIds') == Foreign(log, localIds) + if n.id in localIds' then [] else [n]
  {
    ForeignIgnores(log, n, localIds, localIds', |log|);
  }

  /** Store, frontier and views, as a value. */
  datatype State = State(
    nodes: map<Hash, SyncNode>, leaves: set<Hash>, heads: seq<Hash>, localIds: set<Hash>,
    mapAll: MapView.Winners, mapCanonical: MapView.Winners, lists: map<string, ListView.ListCache>)

  /** The log is a run of appends, and the store, its leaves, its frontier and
      the clock mirror it. */
  ghost predicate Structured(w: World, log: seq<SyncNode>, clock: nat, s: State) {
    match s
    case State(nodes, leaves, heads, localIds, _, _, _) =>
      && Admissible(w.hash, log) && Covers(log, clock)
      && StoreIs(nodes, log)
      && leaves == Childless(log)
      && Sorted(heads) && Elements(heads) == leaves
      && localIds <= IdsOf(log)
  }

  /** The incremental views are the folds of the whole log. */
  ghost predicate ViewsAre(s: State, log: seq<SyncNode>) {
    && s.mapAll == MapView.FoldNodes(log)
    && s.mapCanonical == MapView.FoldNodes(Foreign(log, s.localIds))
    && s.lists == ListView.FoldNodes(log)
  }

  /** How one append changes the store, the leaves and the frontier. */
  ghost predicate Appends(s: State, s': State, n: SyncNode) {
    && s'.nodes == s.nodes[n.id := n]
    && s'.leaves == s.leaves - Elements(n.tx.parents) + {n.id}
    && Sorted(s'.heads) && Elements(s'.heads) == Elements(s.heads) - Elements(n.tx.parents) + {n.id}
    && SameViews(s, s')
  }

  ghost predicate SameViews(s: State, s': State) {
    s'.localIds == s.localIds && s'.mapAll == s.mapAll && s'.mapCanonical == s.mapCanonical && s'.lists == s.lists
  }

  lemma AppendKeeps(w: World, log: seq<SyncNode>, clock: nat, s: State, s': State, n: SyncNode)
    requires Structured(w, log, clock, s) && Fresh(w.hash, IdsOf(log), n) && Appends(s, s', n)
    ensures Structured(w, log + [n], Max(clock, n.tx.lamport), s')
  {
    StoreStep(w.hash, s.nodes, log, n);
    ChildlessStep(w.hash, log, n);
    AdmissibleStep(w.hash, log, n);
  }

  lemma ViewsStep(s: State, s': State, log: seq<SyncNode>, n: SyncNode, own: bool)
    requires ViewsAre(s, log) && n.id !in IdsOf(log) && s.localIds <= IdsOf(log)
    requires s'.localIds == if own then s.localIds + {n.id} else s.localIds
    requires s'.mapAll == MapView.FoldNode(s.mapAll, n)
    requires s'.mapCanonical == if own then s.mapCanonical else MapView.FoldNode(s.mapCanonical, n)
    requires s'.lists == ListView.FoldNode(s.lists, n)
    ensures ViewsAre(s', log + [n])
  {
    MapView.FoldSnoc(log, n);
    ListView.FoldSnoc(log, n);
    ForeignSnoc(log, n, s.localIds, s'.localIds);
    var f := Foreign(log, s.localIds);
    MapView.FoldSnoc(f, n);
    assert f + [] == f;
  }

  ghost predicate Tells(texts: Texts, texts': Texts, n: SyncNode) {
    forall k :: Elements(HistoryOf(texts', k)) == Elements(HistoryOf(texts, k)) + Elements(UpdatesIn(n, k))
  }

  lemma TellStep(texts: Texts, texts': Texts, log: seq<SyncNode>, n: SyncNode)
    requires TextsTell(texts, log) && Tells(texts, texts', n)
    ensures TextsTell(texts', log + [n])
  {
    forall k ensures Elements(HistoryOf(texts', k)) == Spoken(log + [n], k) { SpokenSnoc(log, n, k); }
  }

  /** Everything the graph promises about its state. */
  ghost predicate Whole(w: World, log: seq<SyncNode>, clock: nat, s: State, texts: Texts) {
    match s
    case State(_, _, _, _, _, _, _) => Structured(w, log, clock, s) && ViewsAre(s, log) && TextsTell(texts, log)
  }

  /** How the views and the local ids follow an append. */
  ghost predicate Follows(s: State, s': State, n: SyncNode, own: bool) {
    && s'.nodes == s.nodes && s'.leaves == s.leaves && s'.heads == s.heads
    && s'.localIds == (if own then s.localIds + {n.id} else s.localIds)
    && s'.mapAll == MapView.FoldNode(s.mapAll, n)
    && s'.mapCanonical == (if own then s.mapCanonical else MapView.FoldNode(s.mapCanonical, n))
    && s'.lists == ListView.FoldNode(s.lists, n)
  }

  /** An append followed by its views keeps structure and views. */
  lemma FollowKeeps(w: World, log: seq<SyncNode>, clock: nat, s: State, mid: State, s': State, n: SyncNode, own: bool)
    requires ViewsAre(s, log) && s.localIds <= IdsOf(log) && n.id !in IdsOf(log)
    requires Structured(w, log + [n], clock, mid) && SameViews(s, mid) && Follows(mid, s', n, own)
    ensures Structured(w, log + [n], clock, s') && ViewsAre(s', log + [n])
  {
    ViewsStep(s, s', log, n, own);
    IdsSnoc(log, n);
  }

  class StateGraph {
    const world: World
    var nodes: map<Hash, SyncNode>
    var leaves: set<Hash>
    var heads: seq<Hash>
    var lamport: nat
    var policy: Policies.Policy
    var localIds: set<Hash>
    var verified: set<Hash>
    var mapAll: MapView.Winners
    var mapCanonical: MapView.Winners
    var lists: map<string, ListView.ListCache>
    var texts: Texts
    /** The nodes in the order they were admitted. */
    ghost var log: seq<SyncNode>

    /** What decides about the next node. */
    ghost function Now(): Ledger
      reads `log, `lamport, `verified
    {
      Ledger(log, lamport, verified)
    }

    ghost function View(): State
      reads `nodes, `leaves, `heads, `localIds, `mapAll, `mapCanonical, `lists
    {
      State(nodes, leaves, heads, localIds, mapAll, mapCanonical, lists)
    }

    /** What every operation keeps: a parent-closed acyclic store, exact leaves,
        a sorted frontier, a clock above everything, views equal to the folds. */
    ghost predicate Valid()
      reads `nodes, `leaves, `heads, `localIds, `mapAll, `mapCanonical, `lists, `log, `lamport, `texts
    {
      Whole(world, log, lamport, View(), texts)
    }

    constructor (w: World)
      ensures Valid() && log == [] && lamport == 0 && verified == {} && world == w && policy == Policies.OPEN_POLICY
    {
      world := w;
      nodes, leaves, heads, localIds, verified := map[], {}, [], {}, {};
      mapAll, mapCanonical, lists, texts := map[], map[], map[], map[];
      lamport, policy, log := 0, Policies.OPEN_POLICY, [];
    }

    /** Append one node whose hash and parents have been checked. */
    method InsertNode(n: SyncNode) returns (e: Option<SyncError>)
      requires Structured(world, log, lamport, View()) && n.id == world.hash(n.tx)
        && Elements(n.tx.parents) <= IdsOf(log)
      modifies `nodes, `leaves, `heads, `lamport, `log
      ensures Structured(world, log, lamport, View())
      ensures e == if n.id in IdsOf(old(log)) then Some(DuplicateNode) else None
      ensures e.Some? ==> unchanged(this)
      ensures e.None? ==> log == old(log) + [n] && lamport == Max(old(lamport), n.tx.lamport)
      ensures e.None? ==> Appends(old(View()), View(), n)
    {
      if n.id in nodes { return Some(DuplicateNode); }
      var rest := RemoveParents(leaves, n.tx.parents);
      var tips := Advance(heads, n);
      leaves, heads, nodes := rest + {n.id}, tips, nodes[n.id := n];
      lamport := Max(lamport, n.tx.lamport);
      log := log + [n];
      AppendKeeps(world, old(log), old(lamport), old(View()), View(), n);
      return None;
    }

    /** Fold the node just appended into the map and list views. */
    method Absorb(n: SyncNode, own: bool, ghost before: seq<SyncNode>, ghost s: State)
      requires ViewsAre(s, before) && s.localIds <= IdsOf(before) && n.id !in IdsOf(before)
      requires Structured(world, log, lamport, View()) && log == before + [n] && SameViews(s, View())
      modifies `mapAll, `mapCanonical, `lists, `localIds
      ensures Structured(world, log, lamport, View()) && ViewsAre(View(), log)
      ensures localIds == if own then old(localIds) + {n.id} else old(localIds)
    {
      ghost var mid := View();
      mapAll, mapCanonical, lists := UpdateStateCaches(mapAll, mapCanonical, lists, n, !own);
      if own { localIds := localIds + {n.id}; }
      FollowKeeps(world, before, lamport, s, mid, View(), n, own);
    }

    /** Append a node and fold it into the views, leaving the texts aside. */
    method Admit(n: SyncNode, own: bool) returns (e: Option<SyncError>)
      requires Structured(world, log, lamport, View()) && ViewsAre(View(), log)
      requires n.id == world.hash(n.tx) && Elements(n.tx.parents) <= IdsOf(log)
      modifies `nodes, `leaves, `heads, `lamport, `log, `mapAll, `mapCanonical, `lists, `localIds
      ensures Structured(world, log, lamport, View()) && ViewsAre(View(), log)
      ensures e == if n.id in IdsOf(old(log)) then Some(DuplicateNode) else None
      ensures e.Some? ==> unchanged(this)
      ensures e.None? ==> log == old(log) + [n] && lamport == Max(old(lamport), n.tx.lamport)
      ensures e.None? ==> leaves == old(leaves) - Elements(n.tx.parents) + {n.id}
      ensures e.None? ==> localIds == if own then old(localIds) + {n.id} else old(localIds)
    {
      e := InsertNode(n);
      if e.None? { Absorb(n, own, old(log), old(View())); }
    }

    /** Tell the text projections the node just appended. */
    method Announce(n: SyncNode, ghost before: seq<SyncNode>)
      requires TextsTell(texts, before) && log == before + [n]
      modifies `texts
      ensures TextsTell(texts, log)
    {
      texts := TellNode(texts, n);
      TellStep(old(texts), texts, before, n);
    }

    /** Append a node and bring every view up to date. */
    method Commit(n: SyncNode, own: bool) returns (e: Option<SyncError>)
      requires Valid() && n.id == world.hash(n.tx) && Elements(n.tx.parents) <= IdsOf(log)
      modifies `nodes, `leaves, `heads, `lamport, `log, `mapAll, `mapCanonical, `lists, `localIds, `texts
      ensures Valid()
      ensures e == if n.id in IdsOf(old(log)) then Some(DuplicateNode) else None
      ensures e.Some? ==> unchanged(this)
      ensures e.None? ==> log == old(log) + [n] && lamport == Max(old(lamport), n.tx.lamport)
      ensures e.None? ==> leaves == old(leaves) - Elements(n.tx.parents) + {n.id}
      ensures e.None? ==> localIds == if own then old(localIds) + {n.id} else old(localIds)
    {
      e := Admit(n, own);
      if e.None? { Announce(n, old(log)); }
    }

    /** Place a node whose hash and signature are good, leaving the texts aside. */
    method ApplyRemoteVerified(n: SyncNode) returns (e: Option<SyncError>)
      requires Structured(world, log, lamport, View()) && ViewsAre(View(), log) && n.id == world.hash(n.tx)
      modifies `nodes, `leaves, `heads, `lamport, `log, `mapAll, `mapCanonical, `lists, `localIds
      ensures Structured(world, log, lamport, View()) && ViewsAre(View(), log) && localIds == old(localIds)
      ensures e == PlaceFault(policy, IdsOf(old(log)), n)
      ensures e.Some? ==> unchanged(this)
      ensures e.None? ==> log == old(log) + [n] && lamport == Max(old(lamport), n.tx.lamport)
    {
      assert nodes.Keys == IdsOf(log);
      e := CheckPlace(policy, nodes, n);
      if e.None? { e := Admit(n, false); }
    }

    /** Take a node from a peer. */
    method ApplyRemoteChecked(n: SyncNode, now: Option<nat>) returns (e: Option<SyncError>)
      requires Valid()
      modifies this
      ensures Valid() && policy == old(policy) && localIds == old(localIds)
      ensures e == Judge(world, policy, old(Now()), n, now)
      ensures Now() == Step(world, policy, old(Now()), n, now)
    {
      var cheap := CheapFault(world, lamport, n, now);
      if cheap.Some? { return cheap; }
      if n.id !in verified {
        if !world.authentic(n) { return Some(InvalidSignature); }
        verified := verified + {n.id};
      }
      e := ApplyRemoteVerified(n);
      if e.None? { Announce(n, old(log)); }
    }

    /** The Merkle root: the digest of the sorted leaves, which are the heads. */
    method MerkleRoot(digest: seq<Hash> -> Hash) returns (r: Hash)
      requires Valid()
      ensures r == digest(heads)
    {
      var ids := Collect(leaves);
      var sorted := SortIds(ids);
      SortedUnique(sorted, heads);
      r := digest(sorted);
    }

    /** Apply one survivor of a batch. */
    method SettleOne(n: SyncNode, ok: bool) returns (e: Option<SyncError>)
      requires Structured(world, log, lamport, View()) && ViewsAre(View(), log) && n.id == world.hash(n.tx)
      modifies `nodes, `leaves, `heads, `lamport, `log, `verified, `mapAll, `mapCanonical, `lists, `localIds
      ensures Structured(world, log, lamport, View()) && ViewsAre(View(), log) && localIds == old(localIds)
      ensures e == if ok then PlaceFault(policy, IdsOf(old(log)), n) else Some(InvalidSignature)
      ensures Now() == if ok then Place(policy, old(Now()), n) else old(Now())
    {
      if !ok { return Some(InvalidSignature); }
      verified := verified + {n.id};
      e := ApplyRemoteVerified(n);
    }

    /** Apply survivor `i` and file it under accepted or rejected. */
    method SettleNext(survivors: seq<SyncNode>, ok: bool, i: nat, accepted: seq<SyncNode>, rejected: Refusals,
                      ghost a: Ledger)
      returns (accepted': seq<SyncNode>, rejected': Refusals)
      requires Structured(world, log, lamport, View()) && ViewsAre(View(), log)
      requires i < |survivors| && survivors[i].id == world.hash(survivors[i].tx)
        && ok == Trusted(world, a, survivors[i])
      requires Now() == Settle(world, policy, a, survivors, i)
      requires accepted == Accepted(world, policy, a, survivors, i)
        && rejected == SettleRefusals(world, policy, a, survivors, i)
      modifies `nodes, `leaves, `heads, `lamport, `log, `verified, `mapAll, `mapCanonical, `lists, `localIds
      ensures Structured(world, log, lamport, View()) && ViewsAre(View(), log) && localIds == old(localIds)
      ensures Now() == Settle(world, policy, a, survivors, i + 1)
      ensures accepted' == Accepted(world, policy, a, survivors, i + 1)
        && rejected' == SettleRefusals(world, policy, a, survivors, i + 1)
    {
      var e := SettleOne(survivors[i], ok);
      accepted' := accepted + if e.None? then [survivors[i]] else [];
      rejected' := rejected + if e.Some? then [(survivors[i].id, e.value)] else [];
    }

    /** Apply the survivors in order, signatures judged beforehand. */
    method SettleBatch(survivors: seq<SyncNode>, oks: seq<bool>) returns (accepted: seq<SyncNode>, rejected: Refusals)
      requires Structured(world, log, lamport, View()) && ViewsAre(View(), log)
      requires forall i :: 0 <= i < |survivors| ==> survivors[i].id == world.hash(survivors[i].tx)
      requires |oks| == |survivors| && forall i :: 0 <= i < |oks| ==> oks[i] == Trusted(world, Now(), survivors[i])
      modifies `nodes, `leaves, `heads, `lamport, `log, `verified, `mapAll, `mapCanonical, `lists, `localIds
      ensures Structured(world, log, lamport, View()) && ViewsAre(View(), log) && localIds == old(localIds)
      ensures Now() == Settle(world, policy, old(Now()), survivors, |survivors|)
      ensures accepted == Accepted(world, policy, old(Now()), survivors, |survivors|)
      ensures rejected == SettleRefusals(world, policy, old(Now()), survivors, |survivors|)
    {
      accepted, rejected := [], [];
      ghost var a := Now();
      for i := 0 to |survivors|
        invariant Structured(world, log, lamport, View()) && ViewsAre(View(), log) && localIds == old(localIds)
        invariant Now() == Settle(world, policy, a, survivors, i)
        invariant accepted == Accepted(world, policy, a, survivors, i)
        invariant rejected == SettleRefusals(world, policy, a, survivors, i)
      {
        accepted, rejected := SettleNext(survivors, oks[i], i, accepted, rejected, a);
      }
    }

    /** Screen a batch and judge the signatures of the survivors. */
    method SiftBatch(ns: seq<SyncNode>, now: Option<nat>)
      returns (survivors: seq<SyncNode>, oks: seq<bool>, rejected: Refusals)
      requires nodes.Keys == IdsOf(log)
      ensures survivors == Screen(world, Now(), ns, now, |ns|)
      ensures rejected == ScreenRefusals(world, Now(), ns, now, |ns|)
      ensures forall i :: 0 <= i < |survivors| ==> survivors[i].id == world.hash(survivors[i].tx)
      ensures |oks| == |survivors| && forall i :: 0 <= i < |oks| ==> oks[i] == Trusted(world, Now(), survivors[i])
    {
      ghost var a := Now();
      survivors, rejected := ScreenBatch(world, nodes, lamport, ns, now, a);
      ScreenDistinct(world, a, ns, now, |ns|);
      oks := VerifyBatch(world, verified, survivors);
    }

    /** Take many nodes from a peer at once. */
    method ApplyRemoteBatchChecked(ns: seq<SyncNode>, now: Option<nat>)
      returns (accepted: seq<SyncNode>, rejected: Refusals)
      requires Valid()
      modifies `nodes, `leaves, `heads, `lamport, `log, `verified, `mapAll, `mapCanonical, `lists, `localIds, `texts
      ensures Valid() && policy == old(policy) && localIds == old(localIds)
      ensures Now() == Batch(world, policy, old(Now()), ns, now)
      ensures log == old(log) + accepted
      ensures Accounts(accepted, rejected, IdsOf(ns) - IdsOf(old(log)))
      ensures RefusesRightly(world, policy, old(Now()), ns, now, rejected)
    {
      ghost var a := Now();
      var survivors, oks, early := SiftBatch(ns, now);
      var late;
      accepted, late := SettleBatch(survivors, oks);
      rejected := early + late;
      BatchReports(world, policy, a, ns, now, survivors, accepted, early, late);
      AnnounceAll(accepted, a.log);
    }

    /** Tell the text projections the nodes a batch appended. */
    method AnnounceAll(ns: seq<SyncNode>, ghost before: seq<SyncNode>)
      requires TextsTell(texts, before) && log == before + ns
      modifies `texts
      ensures TextsTell(texts, log)
    {
      texts := TellBatch(texts, ns);
      forall k ensures Elements(HistoryOf(texts, k)) == Spoken(log, k) { SpokenConcat(before, ns, k); }
    }

    /** Advance the clock and make a node of our own on top of all leaves. */
    method Draft(author: Author, wallMs: nat, ops: seq<Op>, parents: seq<Hash>, signature: nat) returns (n: SyncNode)
      requires Valid() && Elements(parents) == leaves
      modifies `lamport
      ensures Valid() && lamport == old(lamport) + 1
      ensures n == SyncNode(world.hash(n.tx), Transaction(author, lamport, wallMs, ops, parents), signature)
      ensures Elements(n.tx.parents) <= IdsOf(log) && leaves - Elements(n.tx.parents) + {n.id} == {n.id}
      ensures HashInjective(world.hash) ==> n.id !in IdsOf(log)
      ensures AnchorsIn(log, n) ==> Younger(n)
    {
      lamport := lamport + 1;
      var tx := Transaction(author, lamport, wallMs, ops, parents);
      n := SyncNode(world.hash(tx), tx, signature);
      OwnNodeIsNew(world, log, old(lamport), View(), n);
      if AnchorsIn(log, n) { AboveClockIsYounger(log, old(lamport), n); }
    }

    /** Append a node of our own, whose signature needs no check. */
    method CommitOwn(n: SyncNode) returns (e: Option<SyncError>)
      requires Valid() && n.id == world.hash(n.tx) && Elements(n.tx.parents) <= IdsOf(log)
      modifies `nodes, `leaves, `heads, `lamport, `log, `mapAll, `mapCanonical, `lists, `localIds, `texts, `verified
      ensures Valid()
      ensures e == if n.id in IdsOf(old(log)) then Some(DuplicateNode) else None
      ensures e.Some? ==> unchanged(this)
      ensures e.None? ==> log == old(log) + [n] && lamport == Max(old(lamport), n.tx.lamport)
      ensures e.None? ==> leaves == old(leaves) - Elements(n.tx.parents) + {n.id}
      ensures e.None? ==> localIds == old(localIds) + {n.id} && verified == old(verified) + {n.id}
    {
      e := Commit(n, true);
      if e.None? { verified := verified + {n.id}; }
    }

    /** Append a transaction of our own on top of all leaves, listed in whatever
        order their set is walked. */
    method ApplyLocal(author: Author, wallMs: nat, ops: seq<Op>, parents: seq<Hash>, signature: nat)
      returns (n: SyncNode, e: Option<SyncError>)
      requires Valid() && Elements(parents) == leaves
      modifies `nodes, `leaves, `heads, `lamport, `log, `mapAll, `mapCanonical, `lists, `localIds, `texts, `verified
      ensures Valid() && policy == old(policy)
      ensures n == SyncNode(world.hash(n.tx), Transaction(author, old(lamport) + 1, wallMs, ops, parents), signature)
      ensures lamport == old(lamport) + 1
      ensures HashInjective(world.hash) ==> e.None?
      ensures AnchorsIn(old(log), n) ==> Younger(n)
      ensures e.None? ==> log == old(log) + [n] && leaves == {n.id} && localIds == old(localIds) + {n.id}
      ensures verified == if e.None? then old(verified) + {n.id} else old(verified)
      ensures e.Some? ==> n.id in old(nodes) && View() == old(View()) && log == old(log)
    {
      n := Draft(author, wallMs, ops, parents, signature);
      e := CommitOwn(n);
    }
  }

  /** A node above the clock of a log is younger than everything it anchors at. */
  lemma AboveClockIsYounger(log: seq<SyncNode>, clock: nat, n: SyncNode)
    requires Covers(log, clock) && clock < n.tx.lamport && AnchorsIn(log, n)
    ensures Younger(n)
  {
    forall j | 0 <= j < |n.tx.ops| ensures YoungerAt(n, j) {
      match n.tx.ops[j]
      case OnText(TextInsert(k, Some(a), c)) =>
        assert WrittenIn(log, a);
      case _ =>
    }
  }

  // ----- Equal roots -----

  ghost predicate DigestInjective(digest: seq<Hash> -> Hash) {
    forall s, t :: digest(s) == digest(t) ==> s == t
  }

  /** Two graphs have the same Merkle root exactly when they hold the same
      transactions; then they hold the same ids too. */
  lemma EqualRoots(a: StateGraph, b: StateGraph, digest: seq<Hash> -> Hash)
    requires a.Valid() && b.Valid() && a.world.hash == b.world.hash
    requires HashInjective(a.world.hash) && DigestInjective(digest)
    ensures digest(a.heads) == digest(b.heads) <==> TransactionsOf(a.log) == TransactionsOf(b.log)
    ensures digest(a.heads) == digest(b.heads) ==> a.nodes.Keys == b.nodes.Keys
  {
    if digest(a.heads) == digest(b.heads) {
      assert Childless(a.log) == Childless(b.log);
      RootsDetermineGraph(a.world.hash, a.log, b.log);
    }
    if TransactionsOf(a.log) == TransactionsOf(b.log) {
      SameChildless(a.world.hash, a.log, b.log);
      SortedUnique(a.heads, b.heads);
    }
  }

  /** Graphs with the same root resolve to the same map and lists. */
  lemma EqualRootsEqualViews(a: StateGraph, b: StateGraph, digest: seq<Hash> -> Hash)
    requires a.Valid() && b.Valid() && a.world.hash == b.world.hash
    requires HashInjective(a.world.hash) && DigestInjective(digest)
    requires digest(a.heads) == digest(b.heads) && Ordered(a.log)
    ensures a.mapAll == b.mapAll
    ensures forall k :: ListView.CacheOf(a.lists, k).visible == ListView.CacheOf(b.lists, k).visible
  {
    EqualRoots(a, b, digest);
    SameMap(a.world.hash, a.log, b.log);
    forall k ensures ListView.CacheOf(a.lists, k).visible == ListView.CacheOf(b.lists, k).visible {
      SameLists(a.world.hash, a.log, b.log, k);
    }
  }

  /** And to the same text, for every key whose characters are told consistently. */
  lemma EqualRootsEqualText(a: StateGraph, b: StateGraph, digest: seq<Hash> -> Hash,
                            k: string, items: seq<TH.Item>, items': seq<TH.Item>)
    requires a.Valid() && b.Valid() && a.world.hash == b.world.hash
    requires HashInjective(a.world.hash) && DigestInjective(digest) && digest(a.heads) == digest(b.heads)
    requires TH.Consistent(HistoryOf(a.texts, k))
    requires TextReplay.Outcome(HistoryOf(a.texts, k), items) && TextReplay.Outcome(HistoryOf(b.texts, k), items')
    ensures items == items'
  {
    EqualRoots(a, b, digest);
    SameTexts(a.log, b.log, a.texts, b.texts, k, items, items');
  }

  // ----- Caches and replays -----

  lemma {:induction false} ForeignElements(log: seq<SyncNode>, localIds: set<Hash>, k: nat)
    requires k <= |log|
    ensures forall n :: n in ForeignTo(log, localIds, k) <==> exists i :: 0 <= i < k && log[i] == n && n.id !in localIds
  {
    if k > 0 { ForeignElements(log, localIds, k - 1); }
  }

  /** The map caches equal the full replay, in any order, of all stored nodes and
      of those stored nodes that are not our own. */
  lemma CachesAreReplays(g: StateGraph, all: seq<SyncNode>, foreign: seq<SyncNode>)
    requires g.Valid() && DistinctPriorities(g.log)
    requires Elements(all) == g.nodes.Values
    requires forall n :: n in foreign <==> n in g.nodes.Values && n.id !in g.localIds
    ensures g.mapAll == MapView.FoldNodes(all)
    ensures g.mapCanonical == MapView.FoldNodes(foreign)
  {
    StoreValues(g.world.hash, g.nodes, g.log);
    MapView.OrderIrrelevant(g.log, all);
    var f := Foreign(g.log, g.localIds);
    ForeignElements(g.log, g.localIds, |g.log|);
    assert Elements(f) == Elements(foreign);
    MapView.OrderIrrelevant(f, foreign);
  }

  /** Every list resolves to what the full replay of the store, in any order,
      gives. */
  lemma ListsAreReplays(g: StateGraph, order: seq<SyncNode>, k: string, items: ListView.Items)
    requires g.Valid() && DistinctPriorities(g.log) && Ranked(g.log) && Elements(order) == g.nodes.Values
    requires forall x :: ListView.Lookup(items, x) == ListView.ItemAfter(order, k, x)
    ensures ListView.Listing(ListView.CacheOf(g.lists, k).visible) == ListView.Listing(ListView.ShownSet(items))
  {
    StoreValues(g.world.hash, g.nodes, g.log);
    ListView.CacheEqualsReplay(g.log, order, k, items);
  }

  /** Every text projection shows what the full replay of the store, in any order
      and through the key sort, shows: for each key whose characters are told
      consistently. */
  lemma TextsAreReplays(g: StateGraph, order: seq<SyncNode>, k: string, items: seq<TH.Item>,
                        visible: seq<TH.Item>, text: seq<TB.Byte>)
    requires g.Valid() && Elements(order) == g.nodes.Values
    requires TH.Consistent(HistoryOf(g.texts, k)) && TextReplay.Outcome(HistoryOf(g.texts, k), items)
    requires TextNodes.Replayed(order, k, visible, text)
    ensures visible == TB.Visible(items) && text == TB.Encode(items)
  {
    StoreValues(g.world.hash, g.nodes, g.log);
    SpokenOfSet(g.log, order, k);
    TextNodes.ReplayIsOutcome(order, k, visible, text, HistoryOf(g.texts, k), items);
  }

  /** The whole state is a function of the admitted log, so a batch leaves what
      the same nodes one by one would. */
  lemma SameLogSameState(g: StateGraph, g': StateGraph)
    requires g.Valid() && g'.Valid() && g.log == g'.log && g.localIds == g'.localIds
    ensures g.View() == g'.View()
    ensures forall k :: Elements(HistoryOf(g.texts, k)) == Elements(HistoryOf(g'.texts, k))
  {
    SortedUnique(g.heads, g'.heads);
    SameStore(g.nodes, g'.nodes, g.log);
    forall k ensures Elements(HistoryOf(g.texts, k)) == Elements(HistoryOf(g'.texts, k)) {
      assert Elements(HistoryOf(g.texts, k)) == Spoken(g.log, k);
    }
  }

  lemma SameStore(nodes: map<Hash, SyncNode>, nodes': map<Hash, SyncNode>, log: seq<SyncNode>)
    requires StoreIs(nodes, log) && StoreIs(nodes', log)
    ensures nodes == nodes'
  {
    forall h | h in nodes ensures h in nodes' && nodes'[h] == nodes[h] {
      assert h in IdsOf(log);
      var i :| 0 <= i < |log| && log[i].id == h;
    }
  }

  /** Bumping the clock is harmless, and makes an own transaction new. */
  lemma OwnNodeIsNew(w: World, log: seq<SyncNode>, clock: nat, s: State, n: SyncNode)
    requires Structured(w, log, clock, s)
    requires n.id == w.hash(n.tx) && n.tx.lamport == clock + 1 && Elements(n.tx.parents) == s.leaves
    ensures Structured(w, log, clock + 1, s) && Elements(n.tx.parents) <= IdsOf(log)
    ensures HashInjective(w.hash) ==> n.id !in IdsOf(log)
    ensures s.leaves - Elements(n.tx.parents) + {n.id} == {n.id}
  {
    if n.id in IdsOf(log) { StoredNode(w.hash, s.nodes, log, n.id); }
  }
}
