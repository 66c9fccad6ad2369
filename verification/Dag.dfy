/** The append-only node graph seen through its admission log: what every run of
    appends keeps, and why equal roots mean equal graphs
    (core/crdt/src/graph.rs, core/crdt/src/frontier.rs). */
module Dag {
  import opened Core
  import opened Nodes

  /** Content addressing without collisions. */
  ghost predicate HashInjective(hash: Transaction -> Hash) {
    forall t, t' :: hash(t) == hash(t') ==> t == t'
  }

  // ----- Admission logs -----

  /** The ids of the first `k` nodes. */
  ghost function IdsTo(log: seq<SyncNode>, k: nat): set<Hash>
    requires k <= |log|
  {
    set i | 0 <= i < k :: log[i].id
  }

  ghost function IdsOf(log: seq<SyncNode>): set<Hash> {
    IdsTo(log, |log|)
  }

  /** The node may be appended: content-addressed, new, and with every parent
      already there. */
  ghost predicate Fresh(hash: Transaction -> Hash, known: set<Hash>, n: SyncNode) {
    n.id == hash(n.tx) && n.id !in known && Elements(n.tx.parents) <= known
  }

  /** A run of appends: parent-closed at every point, hence acyclic. */
  ghost predicate Admissible(hash: Transaction -> Hash, log: seq<SyncNode>) {
    forall i :: 0 <= i < |log| ==> Fresh(hash, IdsTo(log, i), log[i])
  }

  ghost function Ancestry(log: seq<SyncNode>): set<Hash> {
    set i, p | 0 <= i < |log| && p in log[i].tx.parents :: p
  }

  /** The nodes no node has as a parent. */
  ghost function Childless(log: seq<SyncNode>): set<Hash> {
    IdsOf(log) - Ancestry(log)
  }

  lemma AdmissibleStep(hash: Transaction -> Hash, log: seq<SyncNode>, n: SyncNode)
    requires Admissible(hash, log) && Fresh(hash, IdsOf(log), n)
    ensures Admissible(hash, log + [n])
    ensures IdsOf(log + [n]) == IdsOf(log) + {n.id}
  {
    var log' := log + [n];
    forall i | 0 <= i < |log'| ensures Fresh(hash, IdsTo(log', i), log'[i]) {
      IdsAppend(log, n, i);
    }
    IdsSnoc(log, n);
  }

  lemma IdsAppend(log: seq<SyncNode>, n: SyncNode, k: nat)
    requires k <= |log|
    ensures IdsTo(log + [n], k) == IdsTo(log, k)
  {
    var log' := log + [n];
    forall h ensures h in IdsTo(log', k) <==> h in IdsTo(log, k) {
      if i :| 0 <= i < k && log[i].id == h { assert log'[i].id == h; }
    }
  }

  lemma IdsGrow(log: seq<SyncNode>, k: nat)
    requires k < |log|
    ensures IdsTo(log, k + 1) == IdsTo(log, k) + {log[k].id}
  {
  }

  lemma IdsSnoc(log: seq<SyncNode>, n: SyncNode)
    ensures IdsOf(log + [n]) == IdsOf(log) + {n.id}
  {
    IdsAppend(log, n, |log|);
    assert (log + [n])[|log|] == n;
  }

  lemma AncestryStep(log: seq<SyncNode>, n: SyncNode)
    ensures Ancestry(log + [n]) == Ancestry(log) + Elements(n.tx.parents)
  {
    var log' := log + [n];
    assert log'[|log|] == n;
    forall p ensures p in Ancestry(log') <==> p in Ancestry(log) + Elements(n.tx.parents) {
      if p in Ancestry(log) {
        var i :| 0 <= i < |log| && p in log[i].tx.parents;
        assert p in log'[i].tx.parents;
      }
      if p in n.tx.parents { assert p in log'[|log|].tx.parents; }
    }
  }

  /** Parents point backwards, so a new node is nobody's parent. */
  lemma AncestryKnown(hash: Transaction -> Hash, log: seq<SyncNode>)
    requires Admissible(hash, log)
    ensures Ancestry(log) <= IdsOf(log)
  {
    forall i, p | 0 <= i < |log| && p in log[i].tx.parents ensures p in IdsOf(log) {
      assert Fresh(hash, IdsTo(log, i), log[i]) && p in Elements(log[i].tx.parents);
    }
  }

  /** Removing the parents and adding the node keeps the childless set exact. */
  lemma ChildlessStep(hash: Transaction -> Hash, log: seq<SyncNode>, n: SyncNode)
    requires Admissible(hash, log) && Fresh(hash, IdsOf(log), n)
    ensures Childless(log + [n]) == Childless(log) - Elements(n.tx.parents) + {n.id}
  {
    AdmissibleStep(hash, log, n);
    AncestryStep(log, n);
    AncestryKnown(hash, log);
  }

  // ----- The store as a map -----

  ghost predicate StoreIs(nodes: map<Hash, SyncNode>, log: seq<SyncNode>) {
    nodes.Keys == IdsOf(log) && forall i :: 0 <= i < |log| ==> log[i].id in nodes && nodes[log[i].id] == log[i]
  }

  lemma StoreStep(hash: Transaction -> Hash, nodes: map<Hash, SyncNode>, log: seq<SyncNode>, n: SyncNode)
    requires Admissible(hash, log) && Fresh(hash, IdsOf(log), n) && StoreIs(nodes, log)
    ensures StoreIs(nodes[n.id := n], log + [n])
  {
    AdmissibleStep(hash, log, n);
    forall i | 0 <= i < |log| ensures log[i].id != n.id { assert log[i].id in IdsOf(log); }
  }

  /** Every stored node is one of the log, under its own hash. */
  lemma StoredNode(hash: Transaction -> Hash, nodes: map<Hash, SyncNode>, log: seq<SyncNode>, h: Hash)
    requires Admissible(hash, log) && StoreIs(nodes, log) && h in nodes
    ensures nodes[h].id == h == hash(nodes[h].tx) && nodes[h] in log
    ensures Elements(nodes[h].tx.parents) <= nodes.Keys
  {
    assert h in IdsOf(log);
    var i :| 0 <= i < |log| && log[i].id == h;
    assert Fresh(hash, IdsTo(log, i), log[i]);
  }

  // ----- Sorted heads -----

  ghost predicate Sorted(s: seq<Hash>) {
    forall i, j :: 0 <= i < j < |s| ==> s[i] < s[j]
  }

  /** A set of ids has one sorted listing. */
  lemma {:induction false} SortedUnique(a: seq<Hash>, b: seq<Hash>)
    requires Sorted(a) && Sorted(b) && Elements(a) == Elements(b)
    ensures a == b
  {
    EmptyElements(a);
    EmptyElements(b);
    if a != [] {
      assert a[0] in Elements(b) && b[0] in Elements(a);
      SortedTail(a);
      SortedTail(b);
      SortedUnique(a[1..], b[1..]);
      assert a == [a[0]] + a[1..] && b == [b[0]] + b[1..];
    }
  }

  lemma SortedTail(a: seq<Hash>)
    requires Sorted(a) && a != []
    ensures Sorted(a[1..]) && Elements(a[1..]) == Elements(a) - {a[0]}
    ensures forall h :: h in Elements(a) ==> a[0] <= h
  {
    var t := a[1..];
    forall h | h in Elements(a) - {a[0]} ensures h in t {
      var i :| 0 <= i < |a| && a[i] == h;
      assert t[i - 1] == h;
    }
    forall i | 0 <= i < |t| ensures a[0] < t[i] { assert t[i] == a[i + 1]; }
  }

  // ----- Equal roots, equal graphs -----

  /** With the same childless nodes and collision-free hashing, whatever one log
      admitted the other did too: by descent from the childless nodes. */
  lemma {:induction false} RootsDetermineIds(hash: Transaction -> Hash, a: seq<SyncNode>, b: seq<SyncNode>, i: nat)
    requires HashInjective(hash) && Admissible(hash, a) && Admissible(hash, b)
    requires Childless(a) == Childless(b) && i < |a|
    ensures exists j :: 0 <= j < |b| && b[j].id == a[i].id && b[j].tx == a[i].tx
    decreases |a| - i
  {
    assert a[i].id in IdsOf(a);
    if a[i].id in Ancestry(a) {
      var k, p :| 0 <= k < |a| && p in a[k].tx.parents && p == a[i].id;
      LaterChild(hash, a, i, k);
      RootsDetermineIds(hash, a, b, k);
      var j :| 0 <= j < |b| && b[j].id == a[k].id && b[j].tx == a[k].tx;
      assert Fresh(hash, IdsTo(b, j), b[j]) && p in Elements(b[j].tx.parents);
    } else {
      assert a[i].id in Childless(b);
    }
    var j :| 0 <= j < |b| && b[j].id == a[i].id;
    assert Fresh(hash, IdsTo(a, i), a[i]) && Fresh(hash, IdsTo(b, j), b[j]);
  }

  /** A child comes after its parent. */
  lemma LaterChild(hash: Transaction -> Hash, log: seq<SyncNode>, i: nat, k: nat)
    requires Admissible(hash, log) && i < |log| && k < |log| && log[i].id in log[k].tx.parents
    ensures i < k
  {
    assert Fresh(hash, IdsTo(log, k), log[k]) && log[i].id in Elements(log[k].tx.parents);
    var m :| 0 <= m < k && log[m].id == log[i].id;
    assert Fresh(hash, IdsTo(log, i), log[i]);
  }

  /** The transactions a log admitted. */
  ghost function TransactionsOf(log: seq<SyncNode>): set<Transaction> {
    set i | 0 <= i < |log| :: log[i].tx
  }

  lemma RootsDetermineGraph(hash: Transaction -> Hash, a: seq<SyncNode>, b: seq<SyncNode>)
    requires HashInjective(hash) && Admissible(hash, a) && Admissible(hash, b) && Childless(a) == Childless(b)
    ensures IdsOf(a) == IdsOf(b) && TransactionsOf(a) == TransactionsOf(b)
  {
    RootsInclude(hash, a, b);
    RootsInclude(hash, b, a);
  }

  lemma RootsInclude(hash: Transaction -> Hash, a: seq<SyncNode>, b: seq<SyncNode>)
    requires HashInjective(hash) && Admissible(hash, a) && Admissible(hash, b) && Childless(a) == Childless(b)
    ensures IdsOf(a) <= IdsOf(b) && TransactionsOf(a) <= TransactionsOf(b)
  {
    forall h | h in IdsOf(a) ensures h in IdsOf(b) {
      var i :| 0 <= i < |a| && a[i].id == h;
      RootsDetermineIds(hash, a, b, i);
    }
    forall i | 0 <= i < |a| ensures a[i].tx in TransactionsOf(b) {
      RootsDetermineIds(hash, a, b, i);
    }
  }

  /** Conversely, the same transactions leave the same nodes childless. */
  lemma SameChildless(hash: Transaction -> Hash, a: seq<SyncNode>, b: seq<SyncNode>)
    requires Admissible(hash, a) && Admissible(hash, b) && TransactionsOf(a) == TransactionsOf(b)
    ensures Childless(a) == Childless(b)
  {
    ChildlessIncluded(hash, a, b);
    ChildlessIncluded(hash, b, a);
  }

  lemma ChildlessIncluded(hash: Transaction -> Hash, a: seq<SyncNode>, b: seq<SyncNode>)
    requires Admissible(hash, a) && Admissible(hash, b) && TransactionsOf(a) <= TransactionsOf(b)
    ensures IdsOf(a) <= IdsOf(b) && Ancestry(a) <= Ancestry(b)
  {
    forall i | 0 <= i < |a| ensures a[i].id in IdsOf(b) && forall p :: p in a[i].tx.parents ==> p in Ancestry(b) {
      assert a[i].tx in TransactionsOf(a);
      var j :| 0 <= j < |b| && b[j].tx == a[i].tx;
      assert Fresh(hash, IdsTo(a, i), a[i]) && Fresh(hash, IdsTo(b, j), b[j]);
      assert b[j].id in IdsOf(b);
    }
  }

  lemma StoreValues(hash: Transaction -> Hash, nodes: map<Hash, SyncNode>, log: seq<SyncNode>)
    requires Admissible(hash, log) && StoreIs(nodes, log)
    ensures nodes.Values == Elements(log)
  {
    forall n | n in nodes.Values ensures n in log {
      var h :| h in nodes && nodes[h] == n;
      StoredNode(hash, nodes, log, h);
    }
    forall i | 0 <= i < |log| ensures log[i] in nodes.Values { assert nodes[log[i].id] == log[i]; }
  }
}
