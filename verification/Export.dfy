/** Chunked export: a topological order of the nodes a peer is missing, cut into
    packs of bounded size (clients/bridge-wasm/src/lib.rs). */
module Export {
  import opened Core
  import opened Nodes
  import opened Dag
  import opened Admission
  import opened Packs
  import Base64
  import G = StateGraph

  type Index = map<Hash, SyncNode>

  // ----- Unmet parents -----

  /** How many of the listed parents are in `s`, with repetition. */
  function CountIn(ps: seq<Hash>, s: set<Hash>, k: nat): nat
    requires k <= |ps|
  {
    if k == 0 then 0 else CountIn(ps, s, k - 1) + if ps[k - 1] in s then 1 else 0
  }

  function Unmet(n: SyncNode, s: set<Hash>): nat {
    CountIn(n.tx.parents, s, |n.tx.parents|)
  }

  /** How often `h` occurs among the first `k`. */
  function Occurs(ps: seq<Hash>, h: Hash, k: nat): nat
    requires k <= |ps|
  {
    if k == 0 then 0 else Occurs(ps, h, k - 1) + if ps[k - 1] == h then 1 else 0
  }

  lemma {:induction false} CountWithout(ps: seq<Hash>, s: set<Hash>, h: Hash, k: nat)
    requires k <= |ps| && h in s
    ensures CountIn(ps, s, k) == CountIn(ps, s - {h}, k) + Occurs(ps, h, k)
  {
    if k > 0 { CountWithout(ps, s, h, k - 1); }
  }

  lemma {:induction false} CountZero(ps: seq<Hash>, s: set<Hash>, k: nat)
    requires k <= |ps|
    ensures CountIn(ps, s, k) == 0 <==> forall i :: 0 <= i < k ==> ps[i] !in s
  {
    if k > 0 { CountZero(ps, s, k - 1); }
  }

  lemma {:induction false} OccursNone(ps: seq<Hash>, h: Hash, k: nat)
    requires k <= |ps|
    ensures Occurs(ps, h, k) == 0 <==> forall i :: 0 <= i < k ==> ps[i] != h
  {
    if k > 0 { OccursNone(ps, h, k - 1); }
  }

  lemma {:induction false} OccursAppend(ps: seq<Hash>, x: Hash, h: Hash, k: nat)
    requires k <= |ps|
    ensures Occurs(ps + [x], h, k) == Occurs(ps, h, k)
  {
    if k > 0 { OccursAppend(ps, x, h, k - 1); }
  }

  lemma OccursSnoc(ps: seq<Hash>, x: Hash, h: Hash)
    ensures Occurs(ps + [x], h, |ps| + 1) == Occurs(ps, h, |ps|) + if x == h then 1 else 0
  {
    OccursAppend(ps, x, h, |ps|);
  }

  lemma {:induction false} OccursMonotone(ps: seq<Hash>, h: Hash, j: nat, k: nat)
    requires j <= k <= |ps|
    ensures Occurs(ps, h, j) <= Occurs(ps, h, k)
  {
    if j < k { OccursMonotone(ps, h, j, k - 1); }
  }

  // ----- Indexes built first -----

  ghost predicate IndexOf(byId: Index, nodes: seq<SyncNode>) {
    && byId.Keys == IdsOf(nodes)
    && (forall i :: 0 <= i < |nodes| ==> nodes[i].id in byId && byId[nodes[i].id] == nodes[i])
    && (forall x :: x in byId ==> byId[x].id == x)
  }

  method IndexById(nodes: seq<SyncNode>) returns (byId: Index)
    requires DistinctIds(nodes)
    ensures IndexOf(byId, nodes)
  {
    byId := map[];
    for i := 0 to |nodes|
      invariant byId.Keys == IdsTo(nodes, i)
      invariant forall j :: 0 <= j < i ==> nodes[j].id in byId && byId[nodes[j].id] == nodes[j]
      invariant forall x :: x in byId ==> byId[x].id == x
    {
      assert nodes[i].id !in IdsTo(nodes, i);
      forall j | 0 <= j < i ensures nodes[j].id != nodes[i].id { assert nodes[j].id in IdsTo(nodes, i); }
      IdsGrow(nodes, i);
      byId := byId[nodes[i].id := nodes[i]];
    }
  }

  function KidsOf(children: map<Hash, seq<Hash>>, p: Hash): seq<Hash> {
    if p in children then children[p] else []
  }

  /** How often `p` lists `x` among its children. */
  function KidOccurs(children: map<Hash, seq<Hash>>, p: Hash, x: Hash): nat {
    Occurs(KidsOf(children, p), x, |KidsOf(children, p)|)
  }

  function PushKid(children: map<Hash, seq<Hash>>, p: Hash, x: Hash): map<Hash, seq<Hash>> {
    children[p := KidsOf(children, p) + [x]]
  }

  lemma PushedKid(children: map<Hash, seq<Hash>>, p: Hash, x: Hash, q: Hash, y: Hash)
    ensures KidOccurs(PushKid(children, p, x), q, y) == KidOccurs(children, q, y) + if q == p && y == x then 1 else 0
  {
    OccursSnoc(KidsOf(children, p), x, y);
  }

  function ParentOccurs(n: SyncNode, p: Hash): nat {
    Occurs(n.tx.parents, p, |n.tx.parents|)
  }

  /** Every listed child is one of the first `k` nodes. */
  ghost predicate KidsAmong(children: map<Hash, seq<Hash>>, ids: set<Hash>) {
    forall p, i :: 0 <= i < |KidsOf(children, p)| ==> KidsOf(children, p)[i] in ids
  }

  lemma PushedAmong(children: map<Hash, seq<Hash>>, p: Hash, x: Hash, ids: set<Hash>)
    requires KidsAmong(children, ids) && x in ids
    ensures KidsAmong(PushKid(children, p, x), ids)
  {
    var r := PushKid(children, p, x);
    forall q, i | 0 <= i < |KidsOf(r, q)| ensures KidsOf(r, q)[i] in ids {
      if q != p || i < |KidsOf(children, p)| { assert KidsOf(r, q)[i] == KidsOf(children, q)[i]; }
    }
  }

  /** The first `k` nodes are listed by each member as often as they name it. */
  ghost predicate KidsListed(children: map<Hash, seq<Hash>>, nodes: seq<SyncNode>, k: nat, keys: set<Hash>)
    requires k <= |nodes|
  {
    forall i, p :: 0 <= i < k && p in keys ==> KidOccurs(children, p, nodes[i].id) == ParentOccurs(nodes[i], p)
  }

  /** What listing a node under its first `j` parents changes: only its own
      occurrences. */
  ghost predicate Relisting(children: map<Hash, seq<Hash>>, r: map<Hash, seq<Hash>>, n: SyncNode, keys: set<Hash>,
                            j: nat)
    requires j <= |n.tx.parents|
  {
    && (forall p, x :: p in keys && x != n.id ==> KidOccurs(r, p, x) == KidOccurs(children, p, x))
    && (forall p :: p in keys ==> KidOccurs(r, p, n.id) == Occurs(n.tx.parents, p, j))
  }

  ghost predicate Relisted(children: map<Hash, seq<Hash>>, r: map<Hash, seq<Hash>>, n: SyncNode, keys: set<Hash>) {
    Relisting(children, r, n, keys, |n.tx.parents|)
  }

  lemma ListedStep(children: map<Hash, seq<Hash>>, r: map<Hash, seq<Hash>>, nodes: seq<SyncNode>, i: nat,
                   keys: set<Hash>)
    requires i < |nodes| && nodes[i].id !in IdsTo(nodes, i)
    requires KidsListed(children, nodes, i, keys) && Relisted(children, r, nodes[i], keys)
    ensures KidsListed(r, nodes, i + 1, keys)
  {
    forall j, p | 0 <= j < i + 1 && p in keys ensures KidOccurs(r, p, nodes[j].id) == ParentOccurs(nodes[j], p) {
      assert j < i ==> nodes[j].id in IdsTo(nodes, i);
    }
  }

  method CountParents(n: SyncNode, byId: Index) returns (degree: nat)
    ensures degree == Unmet(n, byId.Keys)
  {
    degree := 0;
    for j := 0 to |n.tx.parents|
      invariant degree == CountIn(n.tx.parents, byId.Keys, j)
    {
      if n.tx.parents[j] in byId { degree := degree + 1; }
    }
  }

  method ListKid(children: map<Hash, seq<Hash>>, n: SyncNode, byId: Index, ghost ids: set<Hash>)
    returns (r: map<Hash, seq<Hash>>)
    requires KidsAmong(children, ids) && n.id !in ids
    ensures KidsAmong(r, ids + {n.id})
    ensures Relisted(children, r, n, byId.Keys)
  {
    r := children;
    forall p ensures KidOccurs(children, p, n.id) == 0 {
      OccursNone(KidsOf(children, p), n.id, |KidsOf(children, p)|);
    }
    for j := 0 to |n.tx.parents|
      invariant KidsAmong(r, ids + {n.id}) && Relisting(children, r, n, byId.Keys, j)
    {
      var p := n.tx.parents[j];
      RelistMore(children, r, n, byId.Keys, j);
      if p in byId {
        PushedAmong(r, p, n.id, ids + {n.id});
        r := PushKid(r, p, n.id);
      }
    }
  }

  lemma RelistMore(children: map<Hash, seq<Hash>>, r: map<Hash, seq<Hash>>, n: SyncNode, keys: set<Hash>, j: nat)
    requires j < |n.tx.parents| && Relisting(children, r, n, keys, j)
    ensures var p := n.tx.parents[j];
      Relisting(children, if p in keys then PushKid(r, p, n.id) else r, n, keys, j + 1)
  {
    var p := n.tx.parents[j];
    if p in keys {
      forall q, y
        ensures KidOccurs(PushKid(r, p, n.id), q, y) == KidOccurs(r, q, y) + if q == p && y == n.id then 1 else 0
      {
        PushedKid(r, p, n.id, q, y);
      }
    }
  }

  /** The first `k` nodes have their unmet parents counted. */
  ghost predicate DegreesAre(indegree: map<Hash, nat>, nodes: seq<SyncNode>, k: nat, keys: set<Hash>)
    requires k <= |nodes|
  {
    indegree.Keys == IdsTo(nodes, k) &&
    forall j :: 0 <= j < k ==> nodes[j].id in indegree && indegree[nodes[j].id] == Unmet(nodes[j], keys)
  }

  lemma DegreesStep(indegree: map<Hash, nat>, nodes: seq<SyncNode>, i: nat, keys: set<Hash>)
    requires i < |nodes| && nodes[i].id !in IdsTo(nodes, i) && DegreesAre(indegree, nodes, i, keys)
    ensures DegreesAre(indegree[nodes[i].id := Unmet(nodes[i], keys)], nodes, i + 1, keys)
  {
    IdsGrow(nodes, i);
    forall j | 0 <= j < i ensures nodes[j].id != nodes[i].id { assert nodes[j].id in IdsTo(nodes, i); }
  }

  /** Indegrees within the subset, and the children of each member, as often as
      they name it. */
  method CountDegrees(nodes: seq<SyncNode>, byId: Index)
    returns (indegree: map<Hash, nat>, children: map<Hash, seq<Hash>>)
    requires DistinctIds(nodes) && IndexOf(byId, nodes)
    ensures DegreesAre(indegree, nodes, |nodes|, byId.Keys) && KidsAmong(children, byId.Keys)
    ensures KidsListed(children, nodes, |nodes|, byId.Keys)
  {
    indegree, children := map[], map[];
    for i := 0 to |nodes|
      invariant DegreesAre(indegree, nodes, i, byId.Keys) && KidsAmong(children, IdsTo(nodes, i))
      invariant KidsListed(children, nodes, i, byId.Keys)
    {
      var n := nodes[i];
      IdsGrow(nodes, i);
      assert n.id !in IdsTo(nodes, i);
      DegreesStep(indegree, nodes, i, byId.Keys);
      var degree := CountParents(n, byId);
      ghost var before := children;
      children := ListKid(children, n, byId, IdsTo(nodes, i));
      ListedStep(before, children, nodes, i, byId.Keys);
      indegree := indegree[n.id := degree];
    }
  }

  // ----- Kahn's loop -----

  /** The state of the loop: indegrees count the parents not yet emitted, and
      exactly the nodes without any are emitted or ready, once. */
  ghost predicate Sorting(byId: Index, indegree: map<Hash, nat>, emitted: seq<Hash>, ready: seq<Hash>) {
    && indegree.Keys == byId.Keys
    && (forall x :: x in byId ==> indegree[x] == Unmet(byId[x], byId.Keys - Elements(emitted)))
    && NoDuplicates(emitted + ready)
    && (forall x :: x in emitted || x in ready <==> x in byId && indegree[x] == 0)
  }

  /** Lower the indegree of each child once per listing; a child that reaches
      zero becomes ready. */
  method Release(indegree: map<Hash, nat>, kids: seq<Hash>, ghost unmet: map<Hash, nat>)
    returns (r: map<Hash, nat>, freed: seq<Hash>)
    requires indegree.Keys == unmet.Keys && Elements(kids) <= unmet.Keys
    requires forall x :: x in unmet ==> indegree[x] == unmet[x] + Occurs(kids, x, |kids|)
    ensures r == unmet
    ensures NoDuplicates(freed) && forall x :: x in freed <==> x in kids && unmet[x] == 0
  {
    r, freed := indegree, [];
    forall x | x in kids ensures Occurs(kids, x, |kids|) > 0 { OccursNone(kids, x, |kids|); }
    for j := 0 to |kids|
      invariant r.Keys == unmet.Keys
      invariant forall x :: x in unmet ==> r[x] == unmet[x] + Occurs(kids, x, |kids|) - Occurs(kids, x, j)
      invariant NoDuplicates(freed)
      invariant forall x :: x in freed <==> x in kids && x in r && r[x] == 0
    {
      var kid := kids[j];
      assert kid in Elements(kids);
      OccursMonotone(kids, kid, j + 1, |kids|);
      var d: nat := r[kid] - 1;
      if d == 0 {
        PushNew(freed, kid);
        freed := freed + [kid];
      }
      r := r[kid := d];
    }
  }

  /** One node emitted, its children released. */
  lemma SortingStep(byId: Index, indegree: map<Hash, nat>, emitted: seq<Hash>, ready: seq<Hash>,
                    kids: seq<Hash>, unmet: map<Hash, nat>, freed: seq<Hash>)
    requires Sorting(byId, indegree, emitted, ready) && ready != []
    requires unmet.Keys == byId.Keys
    requires forall x :: x in byId ==> unmet[x] == Unmet(byId[x], byId.Keys - Elements(emitted + [ready[0]]))
    requires Elements(kids) <= byId.Keys
    requires forall x :: x in byId ==> indegree[x] == unmet[x] + Occurs(kids, x, |kids|)
    requires NoDuplicates(freed) && forall x :: x in freed <==> x in kids && unmet[x] == 0
    ensures Sorting(byId, unmet, emitted + [ready[0]], ready[1..] + freed)
  {
    forall x | x in byId ensures Occurs(kids, x, |kids|) == 0 <==> x !in kids { OccursNone(kids, x, |kids|); }
    Shifted(emitted, ready, freed);
  }

  lemma Shifted(emitted: seq<Hash>, ready: seq<Hash>, freed: seq<Hash>)
    requires NoDuplicates(emitted + ready) && NoDuplicates(freed) && ready != []
    requires forall x :: x in freed ==> x !in emitted && x !in ready
    ensures NoDuplicates(emitted + [ready[0]] + (ready[1..] + freed))
    ensures forall x ::
      x in emitted + [ready[0]] || x in ready[1..] + freed <==> x in emitted || x in ready || x in freed
  {
    NoDuplicatesConcat(emitted + ready, freed);
    assert emitted + [ready[0]] + (ready[1..] + freed) == emitted + ready + freed;
    assert ready == [ready[0]] + ready[1..];
  }

  /** The parents of each node that are exported too come before it. */
  ghost predicate ParentsFirst(ordered: seq<SyncNode>, keys: set<Hash>) {
    forall i, p :: 0 <= i < |ordered| && p in ordered[i].tx.parents && p in keys ==> p in IdsTo(ordered, i)
  }

  lemma ParentsFirstStep(ordered: seq<SyncNode>, n: SyncNode, keys: set<Hash>)
    requires ParentsFirst(ordered, keys) && Unmet(n, keys - IdsOf(ordered)) == 0
    ensures ParentsFirst(ordered + [n], keys)
  {
    var all := ordered + [n];
    CountZero(n.tx.parents, keys - IdsOf(ordered), |n.tx.parents|);
    forall i, p | 0 <= i < |all| && p in all[i].tx.parents && p in keys ensures p in IdsTo(all, i) {
      IdsAppend(ordered, n, i);
    }
  }

  /** When nothing is ready everything is out: the earliest node of the log that
      is not would have no unmet parent. */
  lemma {:induction false} AllEmitted(hash: Transaction -> Hash, log: seq<SyncNode>, nodes: seq<SyncNode>, byId: Index,
                                      indegree: map<Hash, nat>, emitted: seq<Hash>, m: nat)
    requires Admissible(hash, log) && Among(nodes, log) && IndexOf(byId, nodes) && m <= |log|
    requires Sorting(byId, indegree, emitted, [])
    ensures IdsTo(log, m) * byId.Keys <= Elements(emitted)
  {
    if m > 0 {
      var n := log[m - 1];
      AllEmitted(hash, log, nodes, byId, indegree, emitted, m - 1);
      IdsGrow(log, m - 1);
      if n.id in byId {
        LoggedUnder(hash, log, nodes, byId, m - 1);
        assert Fresh(hash, IdsTo(log, m - 1), n);
        forall i | 0 <= i < |n.tx.parents| ensures n.tx.parents[i] !in byId.Keys - Elements(emitted) {
          assert n.tx.parents[i] in Elements(n.tx.parents);
        }
        CountZero(n.tx.parents, byId.Keys - Elements(emitted), |n.tx.parents|);
      }
    }
  }

  lemma LoggedUnder(hash: Transaction -> Hash, log: seq<SyncNode>, nodes: seq<SyncNode>, byId: Index, m: nat)
    requires Admissible(hash, log) && Among(nodes, log) && IndexOf(byId, nodes) && m < |log| && log[m].id in byId
    ensures byId[log[m].id] == log[m]
  {
    var i :| 0 <= i < |nodes| && nodes[i].id == log[m].id;
    assert nodes[i] in log;
    var j :| 0 <= j < |log| && log[j] == nodes[i];
    AdmittedOnce(hash, log, j, m);
  }

  lemma AdmittedOnce(hash: Transaction -> Hash, log: seq<SyncNode>, j: nat, m: nat)
    requires Admissible(hash, log) && j < |log| && m < |log| && log[j].id == log[m].id
    ensures j == m
  {
    assert Fresh(hash, IdsTo(log, j), log[j]) && Fresh(hash, IdsTo(log, m), log[m]);
  }

  /** All nodes without a parent in the subset, in any order. */
  method InitialReady(byId: Index, indegree: map<Hash, nat>) returns (ready: seq<Hash>)
    requires indegree.Keys == byId.Keys
    ensures NoDuplicates(ready) && forall x :: x in ready <==> x in byId && indegree[x] == 0
  {
    ready := [];
    var left := indegree.Keys;
    while left != {}
      invariant left <= indegree.Keys && NoDuplicates(ready)
      invariant forall x :: x in ready <==> x in indegree && x !in left && indegree[x] == 0
      decreases |left|
    {
      var x :| x in left;
      left := left - {x};
      if indegree[x] == 0 {
        PushNew(ready, x);
        ready := ready + [x];
      }
    }
  }

  ghost function RestUnmet(byId: Index, emitted: seq<Hash>): map<Hash, nat> {
    map x | x in byId :: Unmet(byId[x], byId.Keys - Elements(emitted))
  }

  /** What releasing the children of the next node relies on. */
  lemma ReleaseReady(nodes: seq<SyncNode>, byId: Index, indegree: map<Hash, nat>, children: map<Hash, seq<Hash>>,
                     emitted: seq<Hash>, ready: seq<Hash>)
    requires Sorting(byId, indegree, emitted, ready) && ready != [] && IndexOf(byId, nodes)
    requires KidsAmong(children, byId.Keys) && KidsListed(children, nodes, |nodes|, byId.Keys)
    ensures var kids := KidsOf(children, ready[0]);
      && Elements(kids) <= byId.Keys
      && forall x :: x in byId ==> indegree[x] == RestUnmet(byId, emitted + [ready[0]])[x] + Occurs(kids, x, |kids|)
  {
    var id := ready[0];
    var rest := byId.Keys - Elements(emitted);
    NextNotEmitted(emitted, ready);
    assert rest - {id} == byId.Keys - Elements(emitted + [id]);
    forall x | x in byId ensures indegree[x] == RestUnmet(byId, emitted + [id])[x] + KidOccurs(children, id, x) {
      assert x in IdsOf(nodes);
      var i :| 0 <= i < |nodes| && nodes[i].id == x;
      assert KidOccurs(children, id, nodes[i].id) == ParentOccurs(nodes[i], id);
      CountWithout(byId[x].tx.parents, rest, id, |byId[x].tx.parents|);
    }
  }

  lemma NextNotEmitted(emitted: seq<Hash>, ready: seq<Hash>)
    requires NoDuplicates(emitted + ready) && ready != []
    ensures ready[0] !in emitted
  {
    forall i | 0 <= i < |emitted| ensures emitted[i] != ready[0] { assert Differ(emitted + ready, i, |emitted|); }
  }

  ghost predicate EmittedIs(ordered: seq<SyncNode>, emitted: seq<Hash>, byId: Index) {
    |ordered| == |emitted| && forall i :: 0 <= i < |emitted| ==>
      emitted[i] in byId && ordered[i] == byId[emitted[i]] && ordered[i].id == emitted[i]
  }

  /** Take the next ready node out and release its children. */
  method EmitNext(nodes: seq<SyncNode>, byId: Index, indegree: map<Hash, nat>, children: map<Hash, seq<Hash>>,
                  ready: seq<Hash>, ghost emitted: seq<Hash>)
    returns (lowered: map<Hash, nat>, ready': seq<Hash>)
    requires Sorting(byId, indegree, emitted, ready) && ready != [] && IndexOf(byId, nodes)
    requires KidsAmong(children, byId.Keys) && KidsListed(children, nodes, |nodes|, byId.Keys)
    ensures Sorting(byId, lowered, emitted + [ready[0]], ready')
  {
    ReleaseReady(nodes, byId, indegree, children, emitted, ready);
    var kids := KidsOf(children, ready[0]);
    ghost var unmet := RestUnmet(byId, emitted + [ready[0]]);
    var freed;
    lowered, freed := Release(indegree, kids, unmet);
    SortingStep(byId, indegree, emitted, ready, kids, unmet, freed);
    ready' := ready[1..] + freed;
  }

  /** A topological order of the exported nodes: each of them once, parents never
      after children. The graph being acyclic, nothing is left over. */
  method KahnOrder(nodes: seq<SyncNode>, ghost hash: Transaction -> Hash, ghost log: seq<SyncNode>)
    returns (ordered: seq<SyncNode>)
    requires DistinctIds(nodes) && Admissible(hash, log) && Among(nodes, log)
    ensures |ordered| == |nodes| && Elements(ordered) == Elements(nodes) && DistinctIds(ordered)
    ensures ParentsFirst(ordered, IdsOf(nodes))
  {
    var byId := IndexById(nodes);
    var indegree, children := CountDegrees(nodes, byId);
    var ready := InitialReady(byId, indegree);
    ordered := [];
    ghost var emitted: seq<Hash> := [];
    StartsSorting(nodes, byId, indegree, ready);
    while ready != []
      invariant Sorting(byId, indegree, emitted, ready) && EmittedIs(ordered, emitted, byId)
      invariant ParentsFirst(ordered, byId.Keys)
      decreases |byId.Keys| - |emitted|
    {
      var id := ready[0];
      RoomLeft(byId, indegree, emitted, ready);
      EmittedStep(ordered, emitted, byId, id);
      NextHasNoUnmet(ordered, emitted, byId, indegree, ready);
      ordered := ordered + [byId[id]];
      indegree, ready := EmitNext(nodes, byId, indegree, children, ready, emitted);
      emitted := emitted + [id];
    }
    AllEmitted(hash, log, nodes, byId, indegree, emitted, |log|);
    Complete(log, nodes, byId, indegree, emitted, ordered);
  }

  lemma RoomLeft(byId: Index, indegree: map<Hash, nat>, emitted: seq<Hash>, ready: seq<Hash>)
    requires Sorting(byId, indegree, emitted, ready) && ready != []
    ensures |emitted| < |byId.Keys| && ready[0] in byId
  {
    var all := emitted + ready;
    NoDuplicatesSize(all);
    assert Elements(all) <= byId.Keys;
    SubsetSize(Elements(all), byId.Keys);
    assert ready[0] in ready;
  }

  lemma EmittedStep(ordered: seq<SyncNode>, emitted: seq<Hash>, byId: Index, id: Hash)
    requires EmittedIs(ordered, emitted, byId) && id in byId && byId[id].id == id
    ensures EmittedIs(ordered + [byId[id]], emitted + [id], byId)
  {
  }

  lemma StartsSorting(nodes: seq<SyncNode>, byId: Index, indegree: map<Hash, nat>, ready: seq<Hash>)
    requires IndexOf(byId, nodes) && DegreesAre(indegree, nodes, |nodes|, byId.Keys)
    requires NoDuplicates(ready) && forall x :: x in ready <==> x in byId && indegree[x] == 0
    ensures Sorting(byId, indegree, [], ready)
  {
    assert [] + ready == ready;
    assert byId.Keys - Elements<Hash>([]) == byId.Keys;
    forall x | x in byId ensures indegree[x] == Unmet(byId[x], byId.Keys) {
      assert x in IdsOf(nodes);
      var i :| 0 <= i < |nodes| && nodes[i].id == x;
    }
  }

  lemma NextHasNoUnmet(ordered: seq<SyncNode>, emitted: seq<Hash>, byId: Index, indegree: map<Hash, nat>,
                       ready: seq<Hash>)
    requires Sorting(byId, indegree, emitted, ready) && ready != [] && EmittedIs(ordered, emitted, byId)
    requires ParentsFirst(ordered, byId.Keys) && byId[ready[0]].id == ready[0]
    ensures ParentsFirst(ordered + [byId[ready[0]]], byId.Keys)
  {
    assert ready[0] in ready;
    assert IdsOf(ordered) == Elements(emitted) by {
      forall i | 0 <= i < |emitted| ensures emitted[i] in IdsOf(ordered) { assert ordered[i].id == emitted[i]; }
    }
    ParentsFirstStep(ordered, byId[ready[0]], byId.Keys);
  }

  lemma Complete(log: seq<SyncNode>, nodes: seq<SyncNode>, byId: Index, indegree: map<Hash, nat>, emitted: seq<Hash>,
                 ordered: seq<SyncNode>)
    requires DistinctIds(nodes) && Among(nodes, log) && IndexOf(byId, nodes) && EmittedIs(ordered, emitted, byId)
    requires Sorting(byId, indegree, emitted, []) && IdsOf(log) * byId.Keys <= Elements(emitted)
    ensures |ordered| == |nodes| && Elements(ordered) == Elements(nodes) && DistinctIds(ordered)
  {
    assert emitted + [] == emitted;
    EmittedDistinct(ordered, emitted, byId);
    forall x | x in byId ensures x in emitted {
      assert x in IdsOf(nodes);
      var i :| 0 <= i < |nodes| && nodes[i].id == x;
      assert nodes[i] in log;
      var j :| 0 <= j < |log| && log[j] == nodes[i];
      assert x in IdsOf(log) * byId.Keys;
    }
    assert Elements(emitted) == byId.Keys;
    NoDuplicatesSize(emitted);
    DistinctSize(nodes, |nodes|);
    forall i | 0 <= i < |ordered| ensures ordered[i] in nodes {
      assert emitted[i] in IdsOf(nodes);
      var j :| 0 <= j < |nodes| && nodes[j].id == emitted[i];
    }
    forall i | 0 <= i < |nodes| ensures nodes[i] in ordered {
      assert nodes[i].id in emitted;
      var j :| 0 <= j < |emitted| && emitted[j] == nodes[i].id;
      assert ordered[j] == nodes[i];
    }
  }

  lemma EmittedDistinct(ordered: seq<SyncNode>, emitted: seq<Hash>, byId: Index)
    requires EmittedIs(ordered, emitted, byId) && NoDuplicates(emitted)
    ensures DistinctIds(ordered)
  {
    forall i, j | 0 <= j < i < |ordered| ensures ordered[j].id != ordered[i].id { assert Differ(emitted, j, i); }
  }

  // ----- A safe schedule -----

  /** The exported nodes are those of the log the receiver does not know. */
  ghost predicate MissingFrom(nodes: seq<SyncNode>, log: seq<SyncNode>, known: set<Hash>) {
    forall n :: n in nodes <==> n in log && n.id !in known
  }

  /** Each node finds its parents among the known ids and those before it. */
  ghost predicate FeedsAt(hash: Transaction -> Hash, ordered: seq<SyncNode>, known: set<Hash>, k: nat)
    requires k < |ordered|
  {
    ordered[k].id == hash(ordered[k].tx) && Elements(ordered[k].tx.parents) <= known + IdsTo(ordered, k)
  }

  ghost predicate Feeds(hash: Transaction -> Hash, ordered: seq<SyncNode>, known: set<Hash>) {
    DistinctIds(ordered) && forall k :: 0 <= k < |ordered| ==> FeedsAt(hash, ordered, known, k)
  }

  /** What a parents-first order of the missing nodes gives. */
  lemma ScheduleFeeds(hash: Transaction -> Hash, log: seq<SyncNode>, nodes: seq<SyncNode>, known: set<Hash>,
                      ordered: seq<SyncNode>)
    requires Admissible(hash, log) && MissingFrom(nodes, log, known)
    requires Elements(ordered) == Elements(nodes) && DistinctIds(ordered) && ParentsFirst(ordered, IdsOf(nodes))
    ensures Feeds(hash, ordered, known)
    ensures forall i :: 0 <= i < |ordered| ==> ordered[i].id !in known
  {
    forall k | 0 <= k < |ordered| ensures FeedsAt(hash, ordered, known, k) && ordered[k].id !in known {
      ScheduledNode(hash, log, nodes, known, ordered, k);
    }
  }

  lemma ScheduledNode(hash: Transaction -> Hash, log: seq<SyncNode>, nodes: seq<SyncNode>, known: set<Hash>,
                      ordered: seq<SyncNode>, k: nat)
    requires Admissible(hash, log) && MissingFrom(nodes, log, known) && k < |ordered|
    requires Elements(ordered) == Elements(nodes) && DistinctIds(ordered) && ParentsFirst(ordered, IdsOf(nodes))
    ensures Fresh(hash, known + IdsTo(ordered, k), ordered[k])
  {
    var n := ordered[k];
    assert n in Elements(nodes);
    var m :| 0 <= m < |log| && log[m] == n;
    assert Fresh(hash, IdsTo(log, m), log[m]);
    forall p | p in Elements(n.tx.parents) ensures p in known + IdsTo(ordered, k) {
      assert p in IdsTo(log, m);
      if p !in known {
        var j :| 0 <= j < m && log[j].id == p;
        assert log[j] in nodes;
        var i :| 0 <= i < |nodes| && nodes[i] == log[j];
        assert p in IdsOf(nodes);
      }
    }
  }

  /** The nodes among the first `k` whose ids a receiver does not hold. */
  ghost function LackingTo(ordered: seq<SyncNode>, held: set<Hash>, k: nat): seq<SyncNode>
    requires k <= |ordered|
  {
    if k == 0 then [] else LackingTo(ordered, held, k - 1) + if ordered[k - 1].id in held then [] else [ordered[k - 1]]
  }

  ghost function Lacking(ordered: seq<SyncNode>, held: set<Hash>): seq<SyncNode> {
    LackingTo(ordered, held, |ordered|)
  }

  lemma {:induction false} LackingAll(ordered: seq<SyncNode>, held: set<Hash>, k: nat)
    requires k <= |ordered| && forall i :: 0 <= i < |ordered| ==> ordered[i].id !in held
    ensures LackingTo(ordered, held, k) == ordered[..k]
  {
    if k > 0 { LackingAll(ordered, held, k - 1); }
  }

  /** Holding more without meeting the ids of the nodes changes nothing. */
  lemma {:induction false} LackingSame(ordered: seq<SyncNode>, held: set<Hash>, held': set<Hash>, k: nat)
    requires k <= |ordered| && forall i :: 0 <= i < |ordered| ==> (ordered[i].id in held <==> ordered[i].id in held')
    ensures LackingTo(ordered, held, k) == LackingTo(ordered, held', k)
  {
    if k > 0 { LackingSame(ordered, held, held', k - 1); }
  }

  lemma {:induction false} LackingConcat(a: seq<SyncNode>, b: seq<SyncNode>, held: set<Hash>, k: nat)
    requires k <= |b|
    ensures LackingTo(a + b, held, |a| + k) == Lacking(a, held) + LackingTo(b, held, k)
  {
    if k == 0 { LackingTake(a + b, a, held, |a|); } else { LackingConcat(a, b, held, k - 1); }
  }

  lemma {:induction false} LackingTake(all: seq<SyncNode>, front: seq<SyncNode>, held: set<Hash>, k: nat)
    requires front <= all && k <= |front|
    ensures LackingTo(all, held, k) == LackingTo(front, held, k)
  {
    if k > 0 { LackingTake(all, front, held, k - 1); }
  }

  /** A log that has taken the first `k` nodes: it grew by those it lacked. */
  ghost predicate FedTo(base: seq<SyncNode>, ordered: seq<SyncNode>, log: seq<SyncNode>, k: nat)
    requires k <= |ordered|
  {
    log == base + LackingTo(ordered, IdsOf(base), k) && IdsOf(log) == IdsOf(base) + IdsTo(ordered, k)
  }

  lemma FedStart(base: seq<SyncNode>, ordered: seq<SyncNode>)
    ensures FedTo(base, ordered, base, 0)
  {
    assert base + [] == base;
  }

  lemma FedNext(base: seq<SyncNode>, ordered: seq<SyncNode>, log: seq<SyncNode>, k: nat)
    requires k < |ordered| && FedTo(base, ordered, log, k)
    ensures FedTo(base, ordered, if ordered[k].id in IdsOf(base) then log else log + [ordered[k]], k + 1)
  {
    IdsGrow(ordered, k);
    IdsSnoc(log, ordered[k]);
    var lacking := LackingTo(ordered, IdsOf(base), k);
    assert lacking + [] == lacking && base + lacking + [ordered[k]] == base + (lacking + [ordered[k]]);
  }

  /** A store that holds the known ids, and maybe more, can append in this order
      exactly the nodes it lacks. */
  lemma {:induction false} ScheduleAdmissible(hash: Transaction -> Hash, ordered: seq<SyncNode>, known: set<Hash>,
                                              base: seq<SyncNode>, k: nat)
    requires Feeds(hash, ordered, known) && Admissible(hash, base) && known <= IdsOf(base) && k <= |ordered|
    ensures var log := base + LackingTo(ordered, IdsOf(base), k);
      Admissible(hash, log) && FedTo(base, ordered, log, k)
  {
    if k == 0 {
      FedStart(base, ordered);
    } else {
      ScheduleAdmissible(hash, ordered, known, base, k - 1);
      AdmitNext(hash, ordered, known, base, base + LackingTo(ordered, IdsOf(base), k - 1), k - 1);
    }
  }

  lemma AdmitNext(hash: Transaction -> Hash, ordered: seq<SyncNode>, known: set<Hash>, base: seq<SyncNode>,
                  log: seq<SyncNode>, k: nat)
    requires Feeds(hash, ordered, known) && known <= IdsOf(base) && k < |ordered|
    requires Admissible(hash, log) && FedTo(base, ordered, log, k)
    ensures var log' := if ordered[k].id in IdsOf(base) then log else log + [ordered[k]];
      Admissible(hash, log') && FedTo(base, ordered, log', k + 1)
  {
    FedNext(base, ordered, log, k);
    assert FeedsAt(hash, ordered, known, k) && ordered[k].id !in IdsTo(ordered, k);
    if ordered[k].id !in IdsOf(base) { AdmissibleStep(hash, log, ordered[k]); }
  }

  /** A receiver that holds the known ids, and maybe more, takes such a schedule in
      one pass: it stores what it lacks and passes over the rest, without an error
      and without a wait. */
  lemma {:induction false} ScheduleAccepted(u: Rules, a: Ledger, ordered: seq<SyncNode>, known: set<Hash>, k: nat)
    requires Sound(u.w, a) && known <= IdsOf(a.log) && Feeds(u.w.hash, ordered, known)
    requires AllAcceptable(u, a.clock, ordered) && k <= |ordered|
    ensures Taking(PassTo(u, a, ordered, k)) && FedTo(a.log, ordered, PassTo(u, a, ordered, k).a.log, k)
  {
    if k == 0 {
      FedStart(a.log, ordered);
    } else {
      ScheduleAccepted(u, a, ordered, known, k - 1);
      PassClock(u, a, ordered, k - 1);
      var r := PassTo(u, a, ordered, k - 1);
      assert FeedsAt(u.w.hash, ordered, known, k - 1) && ordered[k - 1].id !in IdsTo(ordered, k - 1);
      OfferTaken(u, a.clock, r, ordered, k - 1);
      FedNext(a.log, ordered, r.a.log, k - 1);
    }
  }

  ghost predicate Taking(r: Retry) {
    r.fault.None? && r.still == []
  }

  lemma PassClock(u: Rules, a: Ledger, pending: seq<SyncNode>, k: nat)
    requires Sound(u.w, a) && k <= |pending|
    ensures a.clock <= PassTo(u, a, pending, k).a.clock
  {
    PassGrows(u, a, pending, k);
  }

  /** An acceptable node whose parents are there is stored, or passed over if it is
      there itself. */
  lemma OfferTaken(u: Rules, clock: nat, r: Retry, ns: seq<SyncNode>, i: nat)
    requires Taking(r) && AllAcceptable(u, clock, ns) && i < |ns| && clock <= r.a.clock
    requires ns[i].id == u.w.hash(ns[i].tx) && Elements(ns[i].tx.parents) <= IdsOf(r.a.log)
    ensures var r' := Offered(u, r, ns[i]);
      Taking(r') && r'.a.log == if ns[i].id in IdsOf(r.a.log) then r.a.log else r.a.log + [ns[i]]
  {
    var n := ns[i];
    assert Acceptable(u, clock, n);
    assert CheapFault(u.w, r.a.clock, n, None).None?;
    forall j | 0 <= j < |n.tx.parents| ensures n.tx.parents[j] in IdsOf(r.a.log) {
      assert n.tx.parents[j] in Elements(n.tx.parents);
    }
  }

  // ----- Greedy packing -----

  /** The length of a variable-length count, seven bits a byte. */
  function VarintLen(n: nat): (r: nat)
    ensures r >= 1 && (n >= 1 ==> r <= n)
  {
    if n < 128 then 1 else 1 + VarintLen(n / 128)
  }

  ghost function Power128(k: nat): nat {
    if k == 0 then 1 else 128 * Power128(k - 1)
  }

  /** The count fits the digits, and needs all of them. */
  lemma {:induction false} VarintFits(n: nat)
    ensures n < Power128(VarintLen(n)) && (VarintLen(n) > 1 ==> Power128(VarintLen(n) - 1) <= n)
  {
    if n >= 128 {
      VarintFits(n / 128);
      if VarintLen(n / 128) == 1 { assert Power128(1) == 128 * Power128(0); }
    }
  }

  function SumTo(ns: seq<SyncNode>, size: SyncNode -> nat, k: nat): nat
    requires k <= |ns|
  {
    if k == 0 then 0 else SumTo(ns, size, k - 1) + size(ns[k - 1])
  }

  function SumSizes(ns: seq<SyncNode>, size: SyncNode -> nat): nat {
    SumTo(ns, size, |ns|)
  }

  /** A pack is a count followed by the nodes. */
  function PackLen(ns: seq<SyncNode>, size: SyncNode -> nat): nat {
    VarintLen(|ns|) + SumSizes(ns, size)
  }

  lemma Base64Fits(n: nat, max: nat)
    requires n <= max / 4 * 3
    ensures Base64.EncodedLen(n) <= max
  {
  }

  function JoinedTo(chunks: seq<seq<SyncNode>>, k: nat): seq<SyncNode>
    requires k <= |chunks|
  {
    if k == 0 then [] else JoinedTo(chunks, k - 1) + chunks[k - 1]
  }

  function Joined(chunks: seq<seq<SyncNode>>): seq<SyncNode> {
    JoinedTo(chunks, |chunks|)
  }

  lemma {:induction false} JoinedAppend(chunks: seq<seq<SyncNode>>, c: seq<SyncNode>, k: nat)
    requires k <= |chunks|
    ensures JoinedTo(chunks + [c], k) == JoinedTo(chunks, k)
  {
    if k > 0 { JoinedAppend(chunks, c, k - 1); }
  }

  lemma JoinedSnoc(chunks: seq<seq<SyncNode>>, c: seq<SyncNode>)
    ensures Joined(chunks + [c]) == Joined(chunks) + c
  {
    JoinedAppend(chunks, c, |chunks|);
  }

  lemma {:induction false} JoinedPrefix(chunks: seq<seq<SyncNode>>, k: nat, m: nat)
    requires k <= m <= |chunks|
    ensures JoinedTo(chunks, k) <= JoinedTo(chunks, m)
  {
    if k < m { JoinedPrefix(chunks, k, m - 1); }
  }

  /** The ledger after `k` chunks, each taken as it arrives. */
  ghost function DeliverTo(u: Rules, a: Ledger, chunks: seq<seq<SyncNode>>, k: nat): Ledger
    requires k <= |chunks|
  {
    if k == 0 then a else PassTo(u, DeliverTo(u, a, chunks, k - 1), chunks[k - 1], |chunks[k - 1]|).a
  }

  /** One pass over the chunk stores what is lacking of it, in order. */
  ghost predicate TakenWhole(u: Rules, a: Ledger, c: seq<SyncNode>) {
    var r := PassTo(u, a, c, |c|);
    Taking(r) && r.a.log == a.log + Lacking(c, IdsOf(a.log))
  }

  ghost predicate TakenAt(u: Rules, a: Ledger, chunks: seq<seq<SyncNode>>, j: nat)
    requires j < |chunks|
  {
    TakenWhole(u, DeliverTo(u, a, chunks, j), chunks[j])
  }

  ghost predicate Delivered(u: Rules, a: Ledger, d: Ledger, front: seq<SyncNode>) {
    Sound(u.w, d) && a.clock <= d.clock && FedTo(a.log, front, d.log, |front|)
  }

  /** Each chunk of a schedule is taken whole as it arrives, however the schedule was
      cut; in the end the receiver has what it lacked of all. */
  lemma {:induction false} ChunksAccepted(u: Rules, a: Ledger, chunks: seq<seq<SyncNode>>, known: set<Hash>, k: nat)
    requires Sound(u.w, a) && known <= IdsOf(a.log) && k <= |chunks|
    requires Feeds(u.w.hash, Joined(chunks), known) && AllAcceptable(u, a.clock, Joined(chunks))
    ensures forall j :: 0 <= j < k ==> TakenAt(u, a, chunks, j)
    ensures Delivered(u, a, DeliverTo(u, a, chunks, k), JoinedTo(chunks, k))
  {
    if k == 0 {
      FedStart(a.log, []);
    } else {
      ChunksAccepted(u, a, chunks, known, k - 1);
      JoinedPrefix(chunks, k, |chunks|);
      var d := DeliverTo(u, a, chunks, k - 1);
      ChunkAccepted(u, a, d, Joined(chunks), known, JoinedTo(chunks, k - 1), chunks[k - 1]);
      forall j | 0 <= j < k ensures TakenAt(u, a, chunks, j) { assert j < k - 1 ==> TakenAt(u, a, chunks, j); }
    }
  }

  lemma ChunkAccepted(u: Rules, a: Ledger, d: Ledger, all: seq<SyncNode>, known: set<Hash>, front: seq<SyncNode>,
                      c: seq<SyncNode>)
    requires Feeds(u.w.hash, all, known) && known <= IdsOf(a.log) && AllAcceptable(u, a.clock, all) && front + c <= all
    requires Delivered(u, a, d, front)
    ensures TakenWhole(u, d, c) && Delivered(u, a, PassTo(u, d, c, |c|).a, front + c)
  {
    ChunkFeeds(u.w.hash, all, known, IdsOf(a.log), front, c);
    forall i | 0 <= i < |c| ensures Acceptable(u, d.clock, c[i]) {
      assert all[|front| + i] == c[i];
      assert Acceptable(u, a.clock, all[|front| + i]);
    }
    ScheduleAccepted(u, d, c, IdsOf(d.log), |c|);
    PassGrows(u, d, c, |c|);
    FedJoin(a.log, front, d.log, c, PassTo(u, d, c, |c|).a.log);
  }

  lemma ChunkFeeds(hash: Transaction -> Hash, all: seq<SyncNode>, known: set<Hash>, held: set<Hash>,
                   front: seq<SyncNode>, c: seq<SyncNode>)
    requires Feeds(hash, all, known) && known <= held && front + c <= all
    ensures Feeds(hash, c, held + IdsOf(front))
    ensures forall i :: 0 <= i < |c| ==> c[i].id !in IdsOf(front)
  {
    forall i | 0 <= i < |c|
      ensures FeedsAt(hash, c, held + IdsOf(front), i) && c[i].id !in IdsTo(c, i) && c[i].id !in IdsOf(front)
    {
      var at := |front| + i;
      assert all[at] == (front + c)[at] == c[i];
      IdsOfConcat(front, c, all, i);
      assert FeedsAt(hash, all, known, at) && all[at].id !in IdsTo(all, at);
    }
  }

  lemma IdsOfConcat(a: seq<SyncNode>, b: seq<SyncNode>, all: seq<SyncNode>, k: nat)
    requires a + b <= all && k <= |b|
    ensures IdsTo(all, |a| + k) == IdsOf(a) + IdsTo(b, k)
  {
    forall i | 0 <= i < |a| ensures all[i] == a[i] { assert (a + b)[i] == a[i]; }
    forall i | 0 <= i < |b| ensures all[|a| + i] == b[i] { assert (a + b)[|a| + i] == b[i]; }
  }

  lemma FedJoin(base: seq<SyncNode>, front: seq<SyncNode>, log: seq<SyncNode>, c: seq<SyncNode>, log': seq<SyncNode>)
    requires FedTo(base, front, log, |front|) && FedTo(log, c, log', |c|)
    requires forall i :: 0 <= i < |c| ==> c[i].id !in IdsOf(front)
    ensures FedTo(base, front + c, log', |front + c|)
  {
    LackingSame(c, IdsOf(log), IdsOf(base), |c|);
    LackingConcat(front, c, IdsOf(base), |c|);
    IdsOfConcat(front, c, front + c, |c|);
    assert base + Lacking(front, IdsOf(base)) + Lacking(c, IdsOf(base)) == base + Lacking(front + c, IdsOf(base));
  }

  lemma {:induction false} SumAppend(ns: seq<SyncNode>, n: SyncNode, size: SyncNode -> nat, k: nat)
    requires k <= |ns|
    ensures SumTo(ns + [n], size, k) == SumTo(ns, size, k)
  {
    if k > 0 { SumAppend(ns, n, size, k - 1); }
  }

  lemma SumSnoc(ns: seq<SyncNode>, n: SyncNode, size: SyncNode -> nat)
    ensures SumSizes(ns + [n], size) == SumSizes(ns, size) + size(n)
  {
    SumAppend(ns, n, size, |ns|);
  }

  lemma SingleLen(n: SyncNode, size: SyncNode -> nat)
    ensures PackLen([n], size) == size(n) + 1
  {
    assert SumTo([n], size, 0) == 0;
  }

  /** A chunk is within budget, or a single node too large for any. */
  ghost predicate Bounded(c: seq<SyncNode>, size: SyncNode -> nat, maxB64: nat) {
    c != [] && (|c| > 1 ==> Base64.EncodedLen(PackLen(c, size)) <= maxB64)
  }

  /** The next node would not have fitted. */
  ghost predicate NoRoom(c: seq<SyncNode>, next: SyncNode, size: SyncNode -> nat, maxB64: nat) {
    SumSizes(c, size) + |c| + size(next) + 1 > maxB64 / 4 * 3
  }

  /** Each pack is followed by one whose first node had no room in it. */
  ghost predicate Greedy(chunks: seq<seq<SyncNode>>, size: SyncNode -> nat, maxB64: nat) {
    forall i :: 0 < i < |chunks| ==> chunks[i] != [] && NoRoom(chunks[i - 1], chunks[i][0], size, maxB64)
  }

  /** The packs so far and the one being filled. */
  ghost predicate Filling(chunks: seq<seq<SyncNode>>, current: seq<SyncNode>, size: SyncNode -> nat, maxB64: nat) {
    && (forall j :: 0 <= j < |chunks| ==> Bounded(chunks[j], size, maxB64))
    && Greedy(chunks, size, maxB64)
    && (chunks != [] && current != [] ==> NoRoom(chunks[|chunks| - 1], current[0], size, maxB64))
  }

  lemma CloseFilling(chunks: seq<seq<SyncNode>>, current: seq<SyncNode>, size: SyncNode -> nat, maxB64: nat)
    requires Filling(chunks, current, size, maxB64) && current != []
    requires |current| > 1 ==> SumSizes(current, size) + |current| <= maxB64 / 4 * 3
    ensures Filling(chunks + [current], [], size, maxB64)
  {
    ChunkFits(current, size, maxB64);
    var all := chunks + [current];
    forall i | 0 < i < |all| ensures all[i] != [] && NoRoom(all[i - 1], all[i][0], size, maxB64) {
      if i == |chunks| { assert all[i - 1] == chunks[|chunks| - 1]; }
    }
  }

  lemma StartFilling(chunks: seq<seq<SyncNode>>, current: seq<SyncNode>, n: SyncNode, size: SyncNode -> nat,
                     maxB64: nat)
    requires Filling(chunks, current, size, maxB64)
    requires chunks != [] && current == [] ==> NoRoom(chunks[|chunks| - 1], n, size, maxB64)
    ensures Filling(chunks, current + [n], size, maxB64)
  {
    assert current != [] ==> (current + [n])[0] == current[0];
  }

  /** Cut the schedule into packs: the packs in order are the schedule, and every
      pack of more than one node fits the frame. */
  method PackChunks(ordered: seq<SyncNode>, size: SyncNode -> nat, requested: nat) returns (chunks: seq<seq<SyncNode>>)
    ensures Joined(chunks) == ordered
    ensures forall i :: 0 <= i < |chunks| ==> Bounded(chunks[i], size, Max(requested, 1024))
    ensures Greedy(chunks, size, Max(requested, 1024))
  {
    var maxB64 := Max(requested, 1024);
    var budget := maxB64 / 4 * 3;
    chunks := [];
    var current: seq<SyncNode> := [];
    var currentRaw := 0;
    for i := 0 to |ordered|
      invariant Joined(chunks) + current == ordered[..i]
      invariant Filling(chunks, current, size, maxB64) && (chunks != [] ==> current != [])
      invariant currentRaw == SumSizes(current, size) + |current|
      invariant |current| > 1 ==> currentRaw <= budget
    {
      var n := ordered[i];
      var nodeRaw := PackLen([n], size);
      SingleLen(n, size);
      if current != [] && currentRaw + nodeRaw > budget {
        CloseFilling(chunks, current, size, maxB64);
        chunks := CloseChunk(chunks, current);
        current, currentRaw := [], 0;
      }
      SumSnoc(current, n, size);
      StartFilling(chunks, current, n, size, maxB64);
      Continues(Joined(chunks), current, ordered, i);
      current := current + [n];
      currentRaw := currentRaw + nodeRaw;
    }
    if current != [] {
      CloseFilling(chunks, current, size, maxB64);
      chunks := CloseChunk(chunks, current);
    }
    assert ordered[..|ordered|] == ordered;
  }

  function CloseChunk(chunks: seq<seq<SyncNode>>, c: seq<SyncNode>): (r: seq<seq<SyncNode>>)
    ensures r == chunks + [c] && Joined(r) + [] == Joined(chunks) + c
  {
    JoinedSnoc(chunks, c);
    chunks + [c]
  }

  lemma Continues(front: seq<SyncNode>, current: seq<SyncNode>, ordered: seq<SyncNode>, i: nat)
    requires i < |ordered| && front + current == ordered[..i]
    ensures front + (current + [ordered[i]]) == ordered[..i + 1]
  {
    assert front + (current + [ordered[i]]) == front + current + [ordered[i]];
  }

  lemma ChunkFits(c: seq<SyncNode>, size: SyncNode -> nat, maxB64: nat)
    requires c != [] && (|c| > 1 ==> SumSizes(c, size) + |c| <= maxB64 / 4 * 3)
    ensures Bounded(c, size, maxB64)
  {
    if |c| > 1 { Base64Fits(PackLen(c, size), maxB64); }
  }

  /** The whole export: whatever is missing, once, in packs that fit, and in an
      order any receiver that holds the known ids can append: all of it if it holds
      nothing else, otherwise what it lacks. */
  method ExportChunked(g: G.StateGraph, nodes: seq<SyncNode>, size: SyncNode -> nat, requested: nat,
                       ghost known: set<Hash>)
    returns (chunks: seq<seq<SyncNode>>)
    requires g.Valid() && DistinctIds(nodes) && MissingFrom(nodes, g.log, known)
    ensures Elements(Joined(chunks)) == Elements(nodes) && Feeds(g.world.hash, Joined(chunks), known)
    ensures forall i :: 0 <= i < |chunks| ==> Bounded(chunks[i], size, Max(requested, 1024))
    ensures Greedy(chunks, size, Max(requested, 1024))
    ensures forall base :: Admissible(g.world.hash, base) && known <= IdsOf(base) ==>
      Admissible(g.world.hash, base + Lacking(Joined(chunks), IdsOf(base)))
    ensures Lacking(Joined(chunks), known) == Joined(chunks)
  {
    forall i | 0 <= i < |nodes| ensures nodes[i] in g.log { assert nodes[i] in nodes; }
    var ordered := KahnOrder(nodes, g.world.hash, g.log);
    ScheduleFeeds(g.world.hash, g.log, nodes, known, ordered);
    forall base | Admissible(g.world.hash, base) && known <= IdsOf(base)
      ensures Admissible(g.world.hash, base + Lacking(ordered, IdsOf(base)))
    {
      ScheduleAdmissible(g.world.hash, ordered, known, base, |ordered|);
    }
    LackingAll(ordered, known, |ordered|);
    assert ordered[..|ordered|] == ordered;
    chunks := PackChunks(ordered, size, requested);
  }
}
