/** What a graph resolves to, as a function of the transactions it holds: map,
    list and text views agree whenever the transactions do
    (core/crdt/src/graph.rs). */
module Views {
  import opened Core
  import opened Nodes
  import opened Dag
  import opened TextHistory
  import MapView
  import ListView
  import TextReplay

  // ----- Text updates carried by nodes -----

  function UpdateOf(n: SyncNode, t: TextOp): Update {
    match t
    case TextInsert(_, after, ch) => Insert(n.Priority(), after, ch)
    case TextDelete(_, target) => Delete(target)
  }

  predicate TextOn(op: Op, k: string) {
    op.OnText? && op.t.key == k
  }

  /** The updates the first `j` operations of a node hold for key `k`. */
  function UpdatesTo(n: SyncNode, k: string, j: nat): seq<Update>
    requires j <= |n.tx.ops|
  {
    if j == 0 then []
    else if TextOn(n.tx.ops[j - 1], k) then UpdatesTo(n, k, j - 1) + [UpdateOf(n, n.tx.ops[j - 1].t)]
    else UpdatesTo(n, k, j - 1)
  }

  function UpdatesIn(n: SyncNode, k: string): seq<Update> {
    UpdatesTo(n, k, |n.tx.ops|)
  }

  /** Everything a log tells the projection of key `k`. */
  ghost function Spoken(log: seq<SyncNode>, k: string): set<Update> {
    set i, u | 0 <= i < |log| && u in UpdatesIn(log[i], k) :: u
  }

  /** Operation `j` of the node says `u` to the text of key `k`: an insert under
      the node's own lamport and author, or a delete. */
  ghost predicate SaysAt(n: SyncNode, k: string, u: Update, j: int) {
    && 0 <= j < |n.tx.ops|
    && match u
       case Insert(id, a, c) => n.tx.ops[j] == OnText(TextInsert(k, a, c)) && id == OpId(n.tx.lamport, n.tx.author)
       case Delete(t) => n.tx.ops[j] == OnText(TextDelete(k, t))
  }

  lemma {:induction false} UpdatesAreTo(n: SyncNode, k: string, u: Update, m: nat)
    requires m <= |n.tx.ops|
    ensures u in UpdatesTo(n, k, m) <==> exists j :: 0 <= j < m && SaysAt(n, k, u, j)
  {
    if m > 0 {
      UpdatesAreTo(n, k, u, m - 1);
      assert SaysAt(n, k, u, m - 1) <==> TextOn(n.tx.ops[m - 1], k) && UpdateOf(n, n.tx.ops[m - 1].t) == u;
    }
  }

  /** A node tells the text of a key exactly what its operations on it say. */
  lemma UpdatesAre(n: SyncNode, k: string, u: Update)
    ensures u in UpdatesIn(n, k) <==> exists j :: SaysAt(n, k, u, j)
  {
    UpdatesAreTo(n, k, u, |n.tx.ops|);
    if j :| SaysAt(n, k, u, j) { assert 0 <= j < |n.tx.ops| && SaysAt(n, k, u, j); }
  }

  ghost predicate Says(log: seq<SyncNode>, k: string, u: Update) {
    exists i, j :: 0 <= i < |log| && SaysAt(log[i], k, u, j)
  }

  /** And so does a log. */
  lemma SpokenAre(log: seq<SyncNode>, k: string, u: Update)
    ensures u in Spoken(log, k) <==> Says(log, k, u)
  {
    forall i | 0 <= i < |log| ensures u in UpdatesIn(log[i], k) <==> exists j :: SaysAt(log[i], k, u, j) {
      UpdatesAre(log[i], k, u);
    }
    if u in Spoken(log, k) {
      var i :| 0 <= i < |log| && u in UpdatesIn(log[i], k);
      var j :| SaysAt(log[i], k, u, j);
    }
    if Says(log, k, u) {
      var i, j :| 0 <= i < |log| && SaysAt(log[i], k, u, j);
      assert u in UpdatesIn(log[i], k);
    }
  }

  lemma SpokenSnoc(log: seq<SyncNode>, n: SyncNode, k: string)
    ensures Spoken(log + [n], k) == Spoken(log, k) + Elements(UpdatesIn(n, k))
  {
    var log' := log + [n];
    forall u ensures u in Spoken(log', k) <==> u in Spoken(log, k) || u in UpdatesIn(n, k) {
      if u in Spoken(log, k) {
        var i :| 0 <= i < |log| && u in UpdatesIn(log[i], k);
        assert u in UpdatesIn(log'[i], k);
      }
      if u in UpdatesIn(n, k) { assert u in UpdatesIn(log'[|log|], k); }
    }
  }

  lemma SpokenConcat(a: seq<SyncNode>, b: seq<SyncNode>, k: string)
    ensures Spoken(a + b, k) == Spoken(a, k) + Spoken(b, k)
  {
    var c := a + b;
    forall u ensures u in Spoken(c, k) <==> u in Spoken(a, k) || u in Spoken(b, k) {
      if u in Spoken(a, k) {
        var i :| 0 <= i < |a| && u in UpdatesIn(a[i], k);
        assert u in UpdatesIn(c[i], k);
      }
      if u in Spoken(b, k) {
        var i :| 0 <= i < |b| && u in UpdatesIn(b[i], k);
        assert u in UpdatesIn(c[|a| + i], k);
      }
    }
  }

  lemma SpokenOfSet(a: seq<SyncNode>, b: seq<SyncNode>, k: string)
    requires Elements(a) == Elements(b)
    ensures Spoken(a, k) == Spoken(b, k)
  {
    forall u | u in Spoken(a, k) ensures u in Spoken(b, k) {
      var i :| 0 <= i < |a| && u in UpdatesIn(a[i], k);
      assert a[i] in Elements(b);
      var j :| 0 <= j < |b| && b[j] == a[i];
    }
    forall u | u in Spoken(b, k) ensures u in Spoken(a, k) {
      var i :| 0 <= i < |b| && u in UpdatesIn(b[i], k);
      assert b[i] in Elements(a);
      var j :| 0 <= j < |a| && a[j] == b[i];
    }
  }

  function HistoryOf(texts: map<string, seq<Update>>, k: string): seq<Update> {
    if k in texts then texts[k] else []
  }

  /** Each projection has been told exactly what the log says, in some order and
      with some repetition. */
  ghost predicate TextsTell(texts: map<string, seq<Update>>, log: seq<SyncNode>) {
    forall k :: Elements(HistoryOf(texts, k)) == Spoken(log, k)
  }

  lemma {:induction false} SilentOps(n: SyncNode, k: string, j: nat)
    requires j <= |n.tx.ops| && forall i :: 0 <= i < j ==> !TextOn(n.tx.ops[i], k)
    ensures UpdatesTo(n, k, j) == []
  {
    if j > 0 { SilentOps(n, k, j - 1); }
  }

  // ----- Ids above their anchors -----

  /** Every character the node inserts after another is younger than that one. */
  ghost predicate YoungerAt(n: SyncNode, j: nat)
    requires j < |n.tx.ops|
  {
    match n.tx.ops[j]
    case OnText(TextInsert(_, Some(a), _)) => Less(a, n.Priority())
    case _ => true
  }

  ghost predicate Younger(n: SyncNode) {
    forall j :: 0 <= j < |n.tx.ops| ==> YoungerAt(n, j)
  }

  /** Every anchor the node names is the id of a character in the log. */
  ghost predicate AnchorsIn(log: seq<SyncNode>, n: SyncNode) {
    forall j, k, a, c :: 0 <= j < |n.tx.ops| && n.tx.ops[j] == OnText(TextInsert(k, Some(a), c)) ==> WrittenIn(log, a)
  }

  ghost predicate WrittenIn(log: seq<SyncNode>, a: OpId) {
    exists i :: 0 <= i < |log| && log[i].Priority() == a
  }

  lemma {:induction false} YoungerUpdates(n: SyncNode, k: string, j: nat, u: Update)
    requires Younger(n) && j <= |n.tx.ops| && u in UpdatesTo(n, k, j)
    ensures u.Insert? && u.after.Some? ==> Less(u.after.value, u.id)
  {
    assert YoungerAt(n, j - 1);
    if TextOn(n.tx.ops[j - 1], k) && u == UpdateOf(n, n.tx.ops[j - 1].t) {
    } else {
      YoungerUpdates(n, k, j - 1, u);
    }
  }

  /** When all nodes are, every projection shows the documented traversal. */
  lemma YoungerShowsDocument(log: seq<SyncNode>, texts: map<string, seq<Update>>, k: string, items: seq<Item>)
    requires TextsTell(texts, log) && forall i :: 0 <= i < |log| ==> Younger(log[i])
    requires TextReplay.Outcome(HistoryOf(texts, k), items)
    ensures items == Document(BirthsOf(HistoryOf(texts, k)), DeletesOf(HistoryOf(texts, k)))
  {
    var h := HistoryOf(texts, k);
    var g := Raw(BirthsOf(h));
    forall x | x in g && g[x].Some? ensures Less(g[x].value, x) {
      var u := Insert(x, BirthsOf(h)[x].after, BirthsOf(h)[x].ch);
      assert u in Elements(h);
      assert u in Spoken(log, k);
      var i :| 0 <= i < |log| && u in UpdatesIn(log[i], k);
      YoungerUpdates(log[i], k, |log[i].tx.ops|, u);
    }
    TextReplay.OutcomeIsDocument(h, items);
  }

  // ----- Signatures do not matter -----

  ghost function Bare(n: SyncNode): SyncNode {
    n.(signature := 0)
  }

  ghost function Unsigned(log: seq<SyncNode>): seq<SyncNode> {
    seq(|log|, i requires 0 <= i < |log| => Bare(log[i]))
  }

  lemma UnsignedSnoc(log: seq<SyncNode>)
    requires log != []
    ensures var n := |log| - 1; Unsigned(log)[..n] == Unsigned(log[..n]) && Unsigned(log)[n] == Bare(log[n])
  {
  }

  lemma {:induction false} MapUnsigned(log: seq<SyncNode>)
    ensures MapView.FoldNodes(Unsigned(log)) == MapView.FoldNodes(log)
  {
    if log != [] {
      UnsignedSnoc(log);
      MapView.FoldLast(log);
      MapView.FoldLast(Unsigned(log));
      MapUnsigned(log[..|log| - 1]);
    }
  }

  lemma {:induction false} ListUnsigned(log: seq<SyncNode>)
    ensures ListView.FoldNodes(Unsigned(log)) == ListView.FoldNodes(log)
  {
    if log != [] {
      UnsignedSnoc(log);
      ListView.FoldLast(log);
      ListView.FoldLast(Unsigned(log));
      ListUnsigned(log[..|log| - 1]);
    }
  }

  lemma SameUnsigned(hash: Transaction -> Hash, a: seq<SyncNode>, b: seq<SyncNode>)
    requires Admissible(hash, a) && Admissible(hash, b) && TransactionsOf(a) == TransactionsOf(b)
    ensures Elements(Unsigned(a)) == Elements(Unsigned(b))
  {
    UnsignedIncluded(hash, a, b);
    UnsignedIncluded(hash, b, a);
  }

  lemma UnsignedIncluded(hash: Transaction -> Hash, a: seq<SyncNode>, b: seq<SyncNode>)
    requires Admissible(hash, a) && Admissible(hash, b) && TransactionsOf(a) <= TransactionsOf(b)
    ensures Elements(Unsigned(a)) <= Elements(Unsigned(b))
  {
    forall i | 0 <= i < |a| ensures Unsigned(a)[i] in Unsigned(b) {
      assert a[i].tx in TransactionsOf(a);
      var j :| 0 <= j < |b| && b[j].tx == a[i].tx;
      assert Fresh(hash, IdsTo(a, i), a[i]) && Fresh(hash, IdsTo(b, j), b[j]);
      assert Unsigned(b)[j] == Unsigned(a)[i];
    }
  }

  // ----- Equal transactions, equal views -----

  /** No two transactions share a priority, and none has the zero priority. */
  ghost predicate Ordered(log: seq<SyncNode>) {
    && (forall i, j :: 0 <= i < |log| && 0 <= j < |log| && log[i].Priority() == log[j].Priority() ==>
          log[i].tx == log[j].tx)
    && Ranked(log)
  }

  lemma OrderedUnsigned(hash: Transaction -> Hash, log: seq<SyncNode>)
    requires Admissible(hash, log) && Ordered(log)
    ensures DistinctPriorities(Unsigned(log)) && Ranked(Unsigned(log))
  {
    forall i | 0 <= i < |log| ensures log[i].id == hash(log[i].tx) { assert Fresh(hash, IdsTo(log, i), log[i]); }
  }

  lemma SameMap(hash: Transaction -> Hash, a: seq<SyncNode>, b: seq<SyncNode>)
    requires Admissible(hash, a) && Admissible(hash, b) && TransactionsOf(a) == TransactionsOf(b) && Ordered(a)
    ensures MapView.FoldNodes(a) == MapView.FoldNodes(b)
  {
    SameUnsigned(hash, a, b);
    OrderedUnsigned(hash, a);
    MapView.OrderIrrelevant(Unsigned(a), Unsigned(b));
    MapUnsigned(a);
    MapUnsigned(b);
  }

  lemma SameLists(hash: Transaction -> Hash, a: seq<SyncNode>, b: seq<SyncNode>, k: string)
    requires Admissible(hash, a) && Admissible(hash, b) && TransactionsOf(a) == TransactionsOf(b) && Ordered(a)
    ensures ListView.CacheOf(ListView.FoldNodes(a), k).visible == ListView.CacheOf(ListView.FoldNodes(b), k).visible
  {
    var u, v := Unsigned(a), Unsigned(b);
    SameUnsigned(hash, a, b);
    OrderedUnsigned(hash, a);
    ListView.SameRanks(u, v);
    ListUnsigned(a);
    ListUnsigned(b);
    var c, d := ListView.CacheOf(ListView.FoldNodes(u), k), ListView.CacheOf(ListView.FoldNodes(v), k);
    forall x ensures ListView.Lookup(c.items, x) == ListView.Lookup(d.items, x) {
      ListView.CacheTracks(u, k, x);
      ListView.CacheTracks(v, k, x);
      ListView.ItemOrderIrrelevant(u, v, k, x);
    }
    ListView.CacheTracks(u, k, 0);
    ListView.CacheTracks(v, k, 0);
    ListView.SameShown(c.items, d.items);
  }

  lemma {:induction false} SpokenBare(n: SyncNode, m: SyncNode, k: string, j: nat)
    requires n.tx == m.tx && j <= |n.tx.ops|
    ensures UpdatesTo(n, k, j) == UpdatesTo(m, k, j)
  {
    if j > 0 { SpokenBare(n, m, k, j - 1); }
  }

  lemma SpokenIncluded(a: seq<SyncNode>, b: seq<SyncNode>, k: string)
    requires TransactionsOf(a) <= TransactionsOf(b)
    ensures Spoken(a, k) <= Spoken(b, k)
  {
    forall u | u in Spoken(a, k) ensures u in Spoken(b, k) {
      var i :| 0 <= i < |a| && u in UpdatesIn(a[i], k);
      assert a[i].tx in TransactionsOf(a);
      var j :| 0 <= j < |b| && b[j].tx == a[i].tx;
      SpokenBare(a[i], b[j], k, |a[i].tx.ops|);
      assert u in UpdatesIn(b[j], k);
    }
  }

  /** Projections fed from logs with the same transactions show the same text. */
  lemma SameTexts(a: seq<SyncNode>, b: seq<SyncNode>, texts: map<string, seq<Update>>, texts': map<string, seq<Update>>,
                  k: string, items: seq<Item>, items': seq<Item>)
    requires TransactionsOf(a) == TransactionsOf(b) && TextsTell(texts, a) && TextsTell(texts', b)
    requires Consistent(HistoryOf(texts, k))
    requires TextReplay.Outcome(HistoryOf(texts, k), items) && TextReplay.Outcome(HistoryOf(texts', k), items')
    ensures items == items'
  {
    SpokenIncluded(a, b, k);
    SpokenIncluded(b, a, k);
    TextReplay.Convergence(HistoryOf(texts, k), HistoryOf(texts', k), items, items');
  }
}
