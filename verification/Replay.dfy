/** Deterministic replay of a set of nodes under a policy timeline
    (core/crdt/src/replay.rs). */
module Replay {
  import opened Core
  import opened Nodes
  import opened Dag
  import opened Policy
  import opened Admission
  import opened Packs
  import Views
  import MapView
  import G = StateGraph

  const EMPTY_LEDGER := Ledger([], 0, {})
  const E2EE_KEY := "\0e2ee"

  /** Replay into an empty graph. */
  ghost function Replayed(u: Rules, ns: seq<SyncNode>): Retry {
    RetryFrom(u, EMPTY_LEDGER, ns)
  }

  /** Every node got in. */
  ghost predicate Succeeds(u: Rules, ns: seq<SyncNode>) {
    Replayed(u, ns).fault.None? && Replayed(u, ns).still == []
  }

  /** The nodes can be put in an order where parents come first, up to repeats. */
  ghost predicate ParentClosed(hash: Transaction -> Hash, ns: seq<SyncNode>) {
    exists ext :: Admissible(hash, ext) && Among(ext, ns) && IdsOf(ext) == IdsOf(ns)
  }

  /** A successful replay is parent-closed. */
  lemma SucceedsClosed(u: Rules, ns: seq<SyncNode>)
    requires Succeeds(u, ns)
    ensures ParentClosed(u.w.hash, ns)
  {
    var log := Replayed(u, ns).a.log;
    RetryHolds(u, EMPTY_LEDGER, ns);
    assert log[0..] == log;
    forall i | 0 <= i < |log| ensures log[i].id in IdsOf(ns) {
      var j :| 0 <= j < |ns| && ns[j] == log[i];
    }
    forall i | 0 <= i < |ns| ensures ns[i].id in IdsOf(log) { }
    assert Admissible(u.w.hash, log) && Among(log, ns) && IdsOf(log) == IdsOf(ns);
  }

  /** Without errors, a parent-closed set gets in completely. */
  lemma ClosedSucceeds(u: Rules, ns: seq<SyncNode>)
    requires HashInjective(u.w.hash) && Replayed(u, ns).fault.None? && ParentClosed(u.w.hash, ns)
    ensures Succeeds(u, ns)
  {
    var r := Replayed(u, ns);
    var ext :| Admissible(u.w.hash, ext) && Among(ext, ns) && IdsOf(ext) == IdsOf(ns);
    RetryHolds(u, EMPTY_LEDGER, ns);
    assert [] + ext == ext;
    RetryAdmitsLargest(u, EMPTY_LEDGER, ns, ext);
    assert r.still == [] by {
      if r.still != [] {
        var n := r.still[0];
        assert n in ns;
        var j :| 0 <= j < |ns| && ns[j] == n;
        assert n.id in IdsOf(ns);
        StoredNotStuck(u.w.hash, r.a.log, n);
      }
    }
  }

  lemma StoredNotStuck(hash: Transaction -> Hash, log: seq<SyncNode>, n: SyncNode)
    requires HashInjective(hash) && Admissible(hash, log) && n.id == hash(n.tx) && n.id in IdsOf(log)
    ensures !MissesParent(n, IdsOf(log))
  {
    var i :| 0 <= i < |log| && log[i].id == n.id;
    assert Fresh(hash, IdsTo(log, i), log[i]);
    forall j | 0 <= j < |n.tx.parents| ensures n.tx.parents[j] in IdsOf(log) {
      assert n.tx.parents[j] in Elements(log[i].tx.parents);
    }
  }

  // ----- When replay succeeds -----

  /** Whether replay causes an error is decided node by node: under the lamport
      bound, with one signature verdict per id, a successful replay accepts every
      node it was given. */
  ghost predicate OneVerdict(w: World, ns: seq<SyncNode>) {
    forall i, j :: 0 <= i < |ns| && 0 <= j < |ns| && ns[i].id == ns[j].id ==> w.authentic(ns[i]) == w.authentic(ns[j])
  }

  ghost predicate LamportsBounded(ns: seq<SyncNode>) {
    forall i :: 0 <= i < |ns| ==> ns[i].tx.lamport <= LAMPORT_SLACK
  }

  /** Every id marked as verified belongs to an authentic node of the set. */
  ghost predicate VerifiedGood(w: World, a: Ledger, ns: seq<SyncNode>) {
    forall h :: h in a.verified ==> exists i :: 0 <= i < |ns| && ns[i].id == h && w.authentic(ns[i])
  }

  lemma OfferSettles(u: Rules, r: Retry, n: SyncNode, ns: seq<SyncNode>, j: nat)
    requires r.fault.None? && j < |ns| && ns[j] == n && VerifiedGood(u.w, r.a, ns)
    requires OneVerdict(u.w, ns) && LamportsBounded(ns)
    ensures var r' := Offered(u, r, n);
      && VerifiedGood(u.w, r'.a, ns)
      && (r'.fault.None? ==> r'.still == r.still + [n] || (r'.still == r.still && Acceptable(u, 0, n)))
  {
    if CheapFault(u.w, r.a.clock, n, None).None? && Trusted(u.w, r.a, n) {
      if n.id in r.a.verified {
        var i :| 0 <= i < |ns| && ns[i].id == n.id && u.w.authentic(ns[i]);
      }
      assert u.w.authentic(ns[j]);
    }
  }

  ghost predicate Settled(u: Rules, ns: seq<SyncNode>, k: nat, waiting: seq<SyncNode>)
    requires k <= |ns|
  {
    forall i :: 0 <= i < k ==> ns[i] in waiting || Acceptable(u, 0, ns[i])
  }

  /** Unless an error stopped it, a pass has settled the first `k` nodes. */
  ghost predicate SettlesTo(u: Rules, r: Retry, pending: seq<SyncNode>, k: nat, ns: seq<SyncNode>) {
    k <= |pending| && (r.fault.None? ==> VerifiedGood(u.w, r.a, ns) && Settled(u, pending, k, r.still))
  }

  lemma {:induction false} PassSettles(u: Rules, a: Ledger, pending: seq<SyncNode>, k: nat, ns: seq<SyncNode>)
    requires k <= |pending| && Among(pending, ns) && VerifiedGood(u.w, a, ns) && OneVerdict(u.w, ns)
      && LamportsBounded(ns)
    ensures SettlesTo(u, PassTo(u, a, pending, k), pending, k, ns)
  {
    if k > 0 {
      PassSettles(u, a, pending, k - 1, ns);
      OfferSettlesNext(u, PassTo(u, a, pending, k - 1), pending, k - 1, ns);
    }
  }

  lemma OfferSettlesNext(u: Rules, r: Retry, pending: seq<SyncNode>, i: nat, ns: seq<SyncNode>)
    requires SettlesTo(u, r, pending, i, ns) && OneVerdict(u.w, ns) && LamportsBounded(ns)
    requires i < |pending| && Among(pending, ns)
    ensures SettlesTo(u, Offered(u, r, pending[i]), pending, i + 1, ns)
  {
    if Offered(u, r, pending[i]).fault.None? {
      assert pending[i] in ns;
      var j :| 0 <= j < |ns| && ns[j] == pending[i];
      OfferSettles(u, r, pending[i], ns, j);
      SettledStep(u, pending, i, r.still, Offered(u, r, pending[i]).still);
    }
  }

  lemma SettledStep(u: Rules, ns: seq<SyncNode>, i: nat, still: seq<SyncNode>, still': seq<SyncNode>)
    requires i < |ns| && Settled(u, ns, i, still)
    requires still' == still + [ns[i]] || (still' == still && Acceptable(u, 0, ns[i]))
    ensures Settled(u, ns, i + 1, still')
  {
    forall j | 0 <= j < i + 1 ensures ns[j] in still' || Acceptable(u, 0, ns[j]) {
      if j == i && still' != still { assert still'[|still|] == ns[i]; }
    }
  }

  lemma {:induction false} RetrySettles(u: Rules, a: Ledger, pending: seq<SyncNode>, ns: seq<SyncNode>)
    requires Sound(u.w, a) && Among(pending, ns) && VerifiedGood(u.w, a, ns) && OneVerdict(u.w, ns)
      && LamportsBounded(ns)
    ensures var r := RetryFrom(u, a, pending); r.fault.None? ==> Settled(u, pending, |pending|, r.still)
    decreases |pending|
  {
    var r := PassTo(u, a, pending, |pending|);
    PassSettles(u, a, pending, |pending|, ns);
    PassShrinks(u, a, pending, |pending|);
    if pending != [] && r.fault.None? && |r.still| < |pending| {
      PassGrows(u, a, pending, |pending|);
      PassAmong(u, a, pending, |pending|);
      AmongTrans(r.still, pending, ns);
      RetrySettles(u, r.a, r.still, ns);
      SettledTrans(u, pending, r.still, RetryFrom(u, r.a, r.still));
    }
  }

  lemma SettledTrans(u: Rules, ns: seq<SyncNode>, part: seq<SyncNode>, r: Retry)
    requires Settled(u, ns, |ns|, part) && (r.fault.None? ==> Settled(u, part, |part|, r.still))
    ensures r.fault.None? ==> Settled(u, ns, |ns|, r.still)
  {
    if r.fault.None? {
      forall i | 0 <= i < |ns| ensures ns[i] in r.still || Acceptable(u, 0, ns[i]) {
        if ns[i] in part {
          var j :| 0 <= j < |part| && part[j] == ns[i];
        }
      }
    }
  }

  /** Replay succeeds exactly when every node passes its own checks and the set
      is parent-closed. */
  lemma SucceedsIff(u: Rules, ns: seq<SyncNode>)
    requires HashInjective(u.w.hash) && OneVerdict(u.w, ns) && LamportsBounded(ns)
    ensures Succeeds(u, ns) <==> AllAcceptable(u, 0, ns) && ParentClosed(u.w.hash, ns)
  {
    assert Among(ns, ns);
    if Succeeds(u, ns) {
      SucceedsClosed(u, ns);
      RetrySettles(u, EMPTY_LEDGER, ns, ns);
    }
    if AllAcceptable(u, 0, ns) && ParentClosed(u.w.hash, ns) {
      RetryAccepts(u, EMPTY_LEDGER, ns);
      ClosedSucceeds(u, ns);
    }
  }

  /** So success does not depend on the order of the nodes, nor on the order of a
      timeline with distinct cutovers. */
  lemma SuccessOrderIrrelevant(w: World, t: Timeline, t': Timeline, ns: seq<SyncNode>, ns': seq<SyncNode>)
    requires HashInjective(w.hash) && OneVerdict(w, ns) && LamportsBounded(ns) && Elements(ns) == Elements(ns')
    requires SortedTimeline(t) && SortedTimeline(t') && Elements(t) == Elements(t')
    requires forall e, f :: e in Elements(t) && f in Elements(t) && e.effective == f.effective ==> e == f
    ensures Succeeds(Rules(w, OPEN_POLICY, Some(t)), ns) <==> Succeeds(Rules(w, OPEN_POLICY, Some(t')), ns')
  {
    var u, u' := Rules(w, OPEN_POLICY, Some(t)), Rules(w, OPEN_POLICY, Some(t'));
    forall n: SyncNode ensures PolicyFor(u.own, u.timeline, n) == PolicyFor(u'.own, u'.timeline, n) {
      TimelineOrderIrrelevant(t, t', n.tx.lamport);
    }
    SameBounds(w, ns, ns');
    SucceedsIff(u, ns);
    SucceedsIff(u', ns');
    AcceptableEither(u, u', ns, ns');
    AcceptableEither(u', u, ns', ns);
    ClosedEither(w.hash, ns, ns');
    ClosedEither(w.hash, ns', ns);
  }

  lemma SameBounds(w: World, ns: seq<SyncNode>, ns': seq<SyncNode>)
    requires Elements(ns) == Elements(ns') && OneVerdict(w, ns) && LamportsBounded(ns)
    ensures OneVerdict(w, ns') && LamportsBounded(ns')
  {
    forall j | 0 <= j < |ns'| ensures exists i :: 0 <= i < |ns| && ns[i] == ns'[j] { assert ns'[j] in Elements(ns); }
  }

  lemma AcceptableEither(u: Rules, u': Rules, ns: seq<SyncNode>, ns': seq<SyncNode>)
    requires Elements(ns) == Elements(ns') && u.w == u'.w
    requires forall n: SyncNode :: PolicyFor(u.own, u.timeline, n) == PolicyFor(u'.own, u'.timeline, n)
    ensures AllAcceptable(u, 0, ns) ==> AllAcceptable(u', 0, ns')
  {
    if AllAcceptable(u, 0, ns) {
      forall j | 0 <= j < |ns'| ensures Acceptable(u', 0, ns'[j]) {
        assert ns'[j] in Elements(ns);
        var i :| 0 <= i < |ns| && ns[i] == ns'[j];
      }
    }
  }

  lemma ClosedEither(hash: Transaction -> Hash, ns: seq<SyncNode>, ns': seq<SyncNode>)
    requires Elements(ns) == Elements(ns')
    ensures ParentClosed(hash, ns) ==> ParentClosed(hash, ns')
  {
    if ext :| Admissible(hash, ext) && Among(ext, ns) && IdsOf(ext) == IdsOf(ns) {
      forall i | 0 <= i < |ext| ensures ext[i] in ns' { assert ext[i] in Elements(ns); }
      SameIds(ns, ns');
      SameIds(ns', ns);
    }
  }

  lemma SameIds(ns: seq<SyncNode>, ns': seq<SyncNode>)
    requires Elements(ns) == Elements(ns')
    ensures IdsOf(ns) <= IdsOf(ns')
  {
    forall i | 0 <= i < |ns| ensures ns[i].id in IdsOf(ns') {
      assert ns[i] in Elements(ns');
      var j :| 0 <= j < |ns'| && ns'[j] == ns[i];
    }
  }

  // ----- What it resolves to -----

  lemma ReplayTransactions(u: Rules, ns: seq<SyncNode>)
    requires HashInjective(u.w.hash) && Succeeds(u, ns)
    ensures Admissible(u.w.hash, Replayed(u, ns).a.log)
    ensures TransactionsOf(Replayed(u, ns).a.log) == TransactionsOf(ns)
    ensures Among(Replayed(u, ns).a.log, ns)
  {
    var log := Replayed(u, ns).a.log;
    RetryHolds(u, EMPTY_LEDGER, ns);
    RetryHashes(u, ns);
    assert log[0..] == log;
    forall i | 0 <= i < |log| ensures log[i].tx in TransactionsOf(ns) {
      var j :| 0 <= j < |ns| && ns[j] == log[i];
    }
    forall i | 0 <= i < |ns| ensures ns[i].tx in TransactionsOf(log) {
      assert ns[i].id in IdsOf(log);
      var j :| 0 <= j < |log| && log[j].id == ns[i].id;
      assert Fresh(u.w.hash, IdsTo(log, j), log[j]);
    }
  }

  lemma RetryHashes(u: Rules, ns: seq<SyncNode>)
    requires Replayed(u, ns).fault.None?
    ensures forall i :: 0 <= i < |ns| ==> ns[i].id == u.w.hash(ns[i].tx)
  {
    if PassTo(u, EMPTY_LEDGER, ns, |ns|).fault.None? { PassHashes(u, EMPTY_LEDGER, ns, |ns|); }
  }

  /** The resolved map, without the encryption sentinel. */
  function StateOf(cache: MapView.Winners): map<string, Bytes> {
    MapView.Resolve(cache) - {E2EE_KEY}
  }

  /** The resolved map everywhere but at the sentinel, which it never holds. */
  ghost predicate HidesSentinel(r: map<string, Bytes>, full: map<string, Bytes>) {
    && "\0e2ee" !in r
    && forall k :: k != "\0e2ee" ==> (k in r <==> k in full) && (k in r ==> r[k] == full[k])
  }

  /** Replays of the same nodes, in any order and with any repetition, that
      succeed under any rules resolve to the same map. */
  lemma ReplayDeterministic(u: Rules, u': Rules, ns: seq<SyncNode>, ns': seq<SyncNode>)
    requires u.w.hash == u'.w.hash && HashInjective(u.w.hash) && Elements(ns) == Elements(ns') && Views.Ordered(ns)
    requires Succeeds(u, ns) && Succeeds(u', ns')
    ensures StateOf(MapView.FoldNodes(Replayed(u, ns).a.log)) == StateOf(MapView.FoldNodes(Replayed(u', ns').a.log))
  {
    var log, log' := Replayed(u, ns).a.log, Replayed(u', ns').a.log;
    ReplayTransactions(u, ns);
    ReplayTransactions(u', ns');
    SameTransactions(ns, ns');
    SameTransactions(ns', ns);
    OrderedPart(log, ns);
    Views.SameMap(u.w.hash, log, log');
  }

  lemma SameTransactions(ns: seq<SyncNode>, ns': seq<SyncNode>)
    requires Elements(ns) == Elements(ns')
    ensures TransactionsOf(ns) <= TransactionsOf(ns')
  {
    forall i | 0 <= i < |ns| ensures ns[i].tx in TransactionsOf(ns') {
      assert ns[i] in Elements(ns');
      var j :| 0 <= j < |ns'| && ns'[j] == ns[i];
    }
  }

  lemma OrderedPart(log: seq<SyncNode>, ns: seq<SyncNode>)
    requires Among(log, ns) && Views.Ordered(ns)
    ensures Views.Ordered(log)
  {
    forall i | 0 <= i < |log| ensures exists j :: 0 <= j < |ns| && ns[j] == log[i] { assert log[i] in ns; }
  }

  /** The state or the error of a replay under the sorted timeline `t`. A set that
      cannot be completed fails with a missing parent. */
  ghost predicate Reports(w: World, ns: seq<SyncNode>, t: Timeline, r: Option<map<string, Bytes>>,
                          e: Option<SyncError>)
  {
    var u := Rules(w, OPEN_POLICY, Some(t));
    && SortedTimeline(t)
    && (r.Some? <==> Succeeds(u, ns)) && (r.Some? <==> e.None?)
    && (r.Some? ==> r.value == StateOf(MapView.FoldNodes(Replayed(u, ns).a.log)))
    && (r.Some? ==> HidesSentinel(r.value, MapView.Resolve(MapView.FoldNodes(Replayed(u, ns).a.log))))
    && (r.None? ==>
          if Replayed(u, ns).fault.Some? then e == Replayed(u, ns).fault
          else Replayed(u, ns).still != [] && ReportsFirst(Replayed(u, ns).still[0], e))
  }

  /** The first parent of the node is reported missing, or, if it has none, itself. */
  ghost predicate ReportsFirst(n: SyncNode, e: Option<SyncError>) {
    && e.Some? && e.value.MissingParent?
    && (n.tx.parents != [] ==> e.value.parent == n.tx.parents[0]) && (n.tx.parents == [] ==> e.value.parent == n.id)
  }

  function FirstParent(n: SyncNode): Hash {
    if n.tx.parents == [] then n.id else n.tx.parents[0]
  }

  /** Replay through a fresh graph. */
  method ReplayWithPolicyTimeline(w: World, ns: seq<SyncNode>, timeline: Timeline)
    returns (r: Option<map<string, Bytes>>, e: Option<SyncError>)
    ensures exists t ::
      SortedTimeline(t) && (forall c :: AtCutover(t, c) == AtCutover(timeline, c)) && Reports(w, ns, t, r, e)
  {
    var sorted := SortTimeline(timeline);
    ghost var u := Rules(w, OPEN_POLICY, Some(sorted));
    var g := new G.StateGraph(w);
    var pending;
    pending, e := RetryAll(g, Some(sorted), ns, u);
    if e.Some? {
      r := None;
    } else if pending != [] {
      r, e := None, Some(MissingParent(FirstParent(pending[0])));
    } else {
      r := Some(StateOf(g.mapAll));
    }
    assert Reports(w, ns, sorted, r, e);
  }
}
