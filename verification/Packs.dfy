/** Taking in packs of nodes in any order: the multi-pass import and the
    deterministic replay (clients/bridge-wasm/src/lib.rs,
    core/crdt/src/replay.rs). */
module Packs {
  import opened Core
  import opened Nodes
  import opened Dag
  import opened Policy
  import opened Admission
  import G = StateGraph

  // ----- Policy timelines -----

  datatype TimelineEntry = TimelineEntry(effective: nat, policy: Policy)
  type Timeline = seq<TimelineEntry>

  ghost predicate Later(t: Timeline, i: nat, j: nat)
    requires i < |t| && j < |t|
  {
    t[i].effective <= t[j].effective
  }

  ghost predicate SortedTimeline(t: Timeline) {
    forall i, j :: 0 <= i < j < |t| ==> Later(t, i, j)
  }

  /** The entry with the latest cutover not after the lamport. */
  ghost predicate Latest(es: set<TimelineEntry>, lamport: nat, e: TimelineEntry) {
    e in es && e.effective <= lamport && forall f :: f in es && f.effective <= lamport ==> f.effective <= e.effective
  }

  /** `p` is the policy in force at a lamport; before every cutover the open one. */
  ghost predicate InForce(es: set<TimelineEntry>, lamport: nat, p: Policy) {
    || (exists e :: Latest(es, lamport, e) && e.policy == p)
    || (p == OPEN_POLICY && forall f :: f in es ==> lamport < f.effective)
  }

  /** The last entry not after the lamport, in timeline order. */
  function PolicyAt(t: Timeline, lamport: nat, i: nat): Policy
    requires i <= |t|
  {
    if i == 0 then OPEN_POLICY
    else if t[i - 1].effective <= lamport then t[i - 1].policy
    else PolicyAt(t, lamport, i - 1)
  }

  method PolicyForLamport(lamport: nat, t: Timeline) returns (p: Policy)
    requires SortedTimeline(t)
    ensures p == PolicyAt(t, lamport, |t|) && InForce(Elements(t), lamport, p)
  {
    p := OPEN_POLICY;
    for i := 0 to |t|
      invariant p == PolicyAt(t, lamport, i)
      invariant if i == 0 then p == OPEN_POLICY else t[i - 1].effective <= lamport && p == t[i - 1].policy
    {
      if t[i].effective > lamport {
        CutoverAt(t, i, lamport);
        NothingLater(t, lamport, i, |t|);
        return;
      }
      p := t[i].policy;
    }
    CutoverAt(t, |t|, lamport);
  }

  lemma {:induction false} NothingLater(t: Timeline, lamport: nat, i: nat, k: nat)
    requires SortedTimeline(t) && i < |t| && lamport < t[i].effective && i <= k <= |t|
    ensures PolicyAt(t, lamport, k) == PolicyAt(t, lamport, i)
  {
    if i < k {
      NothingLater(t, lamport, i, k - 1);
      assert i < k - 1 ==> Later(t, i, k - 1);
    }
  }

  /** In a sorted timeline the entries in force so far are a prefix. */
  lemma CutoverAt(t: Timeline, i: nat, lamport: nat)
    requires SortedTimeline(t) && i <= |t| && (i > 0 ==> t[i - 1].effective <= lamport)
      && (i < |t| ==> lamport < t[i].effective)
    ensures i > 0 ==> Latest(Elements(t), lamport, t[i - 1])
    ensures i == 0 ==> forall f :: f in Elements(t) ==> lamport < f.effective
  {
    forall j | 0 <= j < |t| ensures if j < i then t[j].effective <= t[i - 1].effective else lamport < t[j].effective {
      assert j < i - 1 ==> Later(t, j, i - 1);
      assert i < j ==> Later(t, i, j);
    }
  }

  /** In a sorted timeline that is the policy in force. */
  lemma {:induction false} PolicyAtInForce(t: Timeline, lamport: nat, i: nat)
    requires SortedTimeline(t) && i <= |t| && (i < |t| ==> lamport < t[i].effective)
    ensures InForce(Elements(t), lamport, PolicyAt(t, lamport, i))
  {
    if i > 0 && t[i - 1].effective > lamport {
      PolicyAtInForce(t, lamport, i - 1);
    } else {
      CutoverAt(t, i, lamport);
    }
  }

  /** With distinct cutovers one policy is in force. */
  lemma InForceUnique(es: set<TimelineEntry>, lamport: nat, p: Policy, p': Policy)
    requires InForce(es, lamport, p) && InForce(es, lamport, p')
    requires forall e, f :: e in es && f in es && e.effective == f.effective ==> e == f
    ensures p == p'
  {
    if e :| Latest(es, lamport, e) && e.policy == p {
      if f :| Latest(es, lamport, f) && f.policy == p' { assert e == f; }
    }
  }

  lemma TimelineOrderIrrelevant(t: Timeline, t': Timeline, lamport: nat)
    requires SortedTimeline(t) && SortedTimeline(t') && Elements(t) == Elements(t')
    requires forall e, f :: e in Elements(t) && f in Elements(t) && e.effective == f.effective ==> e == f
    ensures PolicyAt(t, lamport, |t|) == PolicyAt(t', lamport, |t'|)
  {
    PolicyAtInForce(t, lamport, |t|);
    PolicyAtInForce(t', lamport, |t'|);
    InForceUnique(Elements(t), lamport, PolicyAt(t, lamport, |t|), PolicyAt(t', lamport, |t'|));
  }

  /** The entries with cutover `e`, in order. */
  ghost function AtCutover(t: Timeline, e: nat): Timeline {
    if t == [] then [] else
      var n := |t| - 1;
      AtCutover(t[..n], e) + if t[n].effective == e then [t[n]] else []
  }

  lemma {:induction false} AtCutoverConcat(a: Timeline, b: Timeline, e: nat)
    ensures AtCutover(a + b, e) == AtCutover(a, e) + AtCutover(b, e)
  {
    if b == [] {
      assert a + b == a;
    } else {
      LastOfConcat(a, b);
      AtCutoverConcat(a, b[..|b| - 1], e);
    }
  }

  lemma {:induction false} NoneAtCutover(t: Timeline, e: nat)
    requires forall i :: 0 <= i < |t| ==> t[i].effective != e
    ensures AtCutover(t, e) == []
  {
    if t != [] { NoneAtCutover(t[..|t| - 1], e); }
  }

  /** Put after everything with its cutover, an entry comes last among those. */
  lemma InsertStable(r: Timeline, i: nat, x: TimelineEntry, e: nat)
    requires i <= |r| && forall j :: i <= j < |r| ==> x.effective < r[j].effective
    ensures AtCutover(InsertAt(r, i, x), e) == AtCutover(r + [x], e)
  {
    assert r == r[..i] + r[i..];
    AtCutoverConcat(r[..i], r[i..], e);
    AtCutoverConcat(r[..i] + [x], r[i..], e);
    AtCutoverConcat(r[..i], [x], e);
    AtCutoverConcat(r, [x], e);
    if x.effective == e {
      NoneAtCutover(r[i..], e);
    } else {
      NoneAtCutover([x], e);
    }
  }

  /** A stable sort: the same entries, and those of one cutover in the same order. */
  method SortTimeline(t: Timeline) returns (r: Timeline)
    ensures SortedTimeline(r) && Elements(r) == Elements(t)
    ensures forall e :: AtCutover(r, e) == AtCutover(t, e)
  {
    r := [];
    for k := 0 to |t|
      invariant SortedTimeline(r) && Elements(r) == Elements(t[..k])
      invariant forall e :: AtCutover(r, e) == AtCutover(t[..k], e)
    {
      var i := |r|;
      while i > 0 && r[i - 1].effective > t[k].effective
        invariant 0 <= i <= |r| && forall j :: i <= j < |r| ==> t[k].effective < r[j].effective
      {
        i := i - 1;
      }
      TimelineInsert(r, i, t[k]);
      assert t[..k + 1] == t[..k] + [t[k]];
      forall e ensures AtCutover(InsertAt(r, i, t[k]), e) == AtCutover(t[..k + 1], e) {
        InsertStable(r, i, t[k], e);
        AtCutoverConcat(r, [t[k]], e);
        AtCutoverConcat(t[..k], [t[k]], e);
      }
      r := InsertAt(r, i, t[k]);
    }
    assert t[..|t|] == t;
  }

  lemma TimelineInsert(r: Timeline, i: nat, e: TimelineEntry)
    requires SortedTimeline(r) && i <= |r|
    requires (i > 0 ==> r[i - 1].effective <= e.effective) && forall j :: i <= j < |r| ==> e.effective < r[j].effective
    ensures SortedTimeline(InsertAt(r, i, e)) && Elements(InsertAt(r, i, e)) == Elements(r) + {e}
  {
    var t := InsertAt(r, i, e);
    forall a, b | 0 <= a < b < |t| ensures Later(t, a, b) {
      if b < i { assert Later(r, a, b); }
      else if b == i { assert a < i - 1 ==> Later(r, a, i - 1); }
      else if a > i { assert Later(r, a - 1, b - 1); }
      else if a < i { assert Later(r, a, b - 1); }
    }
    InsertElements(r, i, e);
  }

  // ----- What the retry loop does to the ledger -----

  /** The policy a node is judged by: the graph's own, or the timeline's. */
  function PolicyFor(own: Policy, timeline: Option<Timeline>, n: SyncNode): Policy {
    if timeline.None? then own else PolicyAt(timeline.value, n.tx.lamport, |timeline.value|)
  }

  datatype Rules = Rules(w: World, own: Policy, timeline: Option<Timeline>)

  /** A ledger on its way, the nodes waiting for a parent, and the error that
      stopped it, if any. */
  datatype Retry = Retry(a: Ledger, still: seq<SyncNode>, fault: Option<SyncError>)

  ghost function Verdict(u: Rules, a: Ledger, n: SyncNode): Option<SyncError> {
    Judge(u.w, PolicyFor(u.own, u.timeline, n), a, n, None)
  }

  ghost function Offered(u: Rules, r: Retry, n: SyncNode): Retry {
    if r.fault.Some? then r else
      var e, a' := Verdict(u, r.a, n), Step(u.w, PolicyFor(u.own, u.timeline, n), r.a, n, None);
      if e.None? || e.value.DuplicateNode? then Retry(a', r.still, None)
      else if e.value.MissingParent? then Retry(a', r.still + [n], None)
      else Retry(a', r.still, e)
  }

  /** One pass over the first `k` pending nodes. */
  ghost function PassTo(u: Rules, a: Ledger, pending: seq<SyncNode>, k: nat): Retry
    requires k <= |pending|
  {
    if k == 0 then Retry(a, [], None) else Offered(u, PassTo(u, a, pending, k - 1), pending[k - 1])
  }

  lemma {:induction false} PassShrinks(u: Rules, a: Ledger, pending: seq<SyncNode>, k: nat)
    requires k <= |pending|
    ensures |PassTo(u, a, pending, k).still| <= k
  {
    if k > 0 { PassShrinks(u, a, pending, k - 1); }
  }

  /** Passes until nothing is pending, a pass makes no progress, or an error. */
  ghost function RetryFrom(u: Rules, a: Ledger, pending: seq<SyncNode>): Retry
    decreases |pending|
  {
    PassShrinks(u, a, pending, |pending|);
    var r := PassTo(u, a, pending, |pending|);
    if pending == [] || r.fault.Some? || |r.still| == |pending| then r else RetryFrom(u, r.a, r.still)
  }

  // ----- What it keeps -----

  ghost predicate MissesParent(n: SyncNode, known: set<Hash>) {
    exists i :: 0 <= i < |n.tx.parents| && n.tx.parents[i] !in known
  }

  ghost predicate Stuck(w: World, ns: seq<SyncNode>, known: set<Hash>) {
    forall i :: 0 <= i < |ns| ==> MissesParent(ns[i], known) && ns[i].id == w.hash(ns[i].tx)
  }

  /** Every one of the first `k` nodes is stored or still waiting. */
  ghost predicate Handled(ns: seq<SyncNode>, k: nat, waiting: seq<SyncNode>, known: set<Hash>)
    requires k <= |ns|
  {
    forall i :: 0 <= i < k ==> ns[i] in waiting || ns[i].id in known
  }

  ghost predicate Among(part: seq<SyncNode>, ns: seq<SyncNode>) {
    forall i :: 0 <= i < |part| ==> part[i] in ns
  }

  /** `log'` continues `log` with nodes of `ns` only. */
  ghost predicate GrowsWith(log: seq<SyncNode>, log': seq<SyncNode>, ns: seq<SyncNode>) {
    log <= log' && Among(log'[|log|..], ns)
  }

  lemma GrowsKnown(log: seq<SyncNode>, log': seq<SyncNode>)
    requires log <= log'
    ensures IdsOf(log) <= IdsOf(log')
  {
    forall i | 0 <= i < |log| ensures log[i].id in IdsOf(log') { assert log'[i] == log[i]; }
  }

  lemma GrowsTrans(a: seq<SyncNode>, b: seq<SyncNode>, c: seq<SyncNode>, part: seq<SyncNode>, ns: seq<SyncNode>)
    requires GrowsWith(a, b, ns) && GrowsWith(b, c, part) && Among(part, ns)
    ensures GrowsWith(a, c, ns)
  {
    var tail := c[|a|..];
    forall i | 0 <= i < |tail| ensures tail[i] in ns {
      if |a| + i < |b| {
        assert tail[i] == b[|a|..][i];
      } else {
        assert tail[i] == c[|b|..][|a| + i - |b|];
        var j :| 0 <= j < |part| && part[j] == tail[i];
      }
    }
  }

  /** What one offered node leaves behind. */
  lemma OfferMeans(u: Rules, r: Retry, n: SyncNode)
    requires r.fault.None? && Sound(u.w, r.a)
    ensures var r' := Offered(u, r, n);
      && Sound(u.w, r'.a) && r.a.clock <= r'.a.clock && GrowsWith(r.a.log, r'.a.log, [n])
      && (r'.fault.None? ==> r'.still == r.still + [n] || (n.id in IdsOf(r'.a.log) && r'.still == r.still))
      && (r'.fault.None? && |r'.still| > |r.still| ==>
            r'.a.log == r.a.log && MissesParent(n, IdsOf(r.a.log)) && n.id == u.w.hash(n.tx))
  {
    StepKeeps(u.w, PolicyFor(u.own, u.timeline, n), r.a, n, None);
    IdsSnoc(r.a.log, n);
  }

  lemma {:induction false} PassGrows(u: Rules, a: Ledger, pending: seq<SyncNode>, k: nat)
    requires Sound(u.w, a) && k <= |pending|
    ensures var r := PassTo(u, a, pending, k);
      Sound(u.w, r.a) && a.clock <= r.a.clock && GrowsWith(a.log, r.a.log, pending)
  {
    if k > 0 {
      var n, r := pending[k - 1], PassTo(u, a, pending, k - 1);
      PassGrows(u, a, pending, k - 1);
      if r.fault.None? {
        OfferMeans(u, r, n);
        assert Among([n], pending);
        GrowsTrans(a.log, r.a.log, PassTo(u, a, pending, k).a.log, [n], pending);
      }
    }
  }

  lemma {:induction false} PassAmong(u: Rules, a: Ledger, pending: seq<SyncNode>, k: nat)
    requires k <= |pending|
    ensures Among(PassTo(u, a, pending, k).still, pending)
  {
    if k > 0 { PassAmong(u, a, pending, k - 1); }
  }

  /** Every node so far is stored or still waiting. */
  lemma {:induction false} PassHandles(u: Rules, a: Ledger, pending: seq<SyncNode>, k: nat)
    requires Sound(u.w, a) && k <= |pending|
    ensures var r := PassTo(u, a, pending, k); r.fault.None? ==> Handled(pending, k, r.still, IdsOf(r.a.log))
  {
    if k > 0 {
      var r, r' := PassTo(u, a, pending, k - 1), PassTo(u, a, pending, k);
      PassHandles(u, a, pending, k - 1);
      PassGrows(u, a, pending, k - 1);
      if r'.fault.None? {
        OfferMeans(u, r, pending[k - 1]);
        PassStep(pending, k - 1, r, r');
      }
    }
  }

  /** If every node so far waits, the log is the one the pass started with and
      each of them misses a parent in it. */
  lemma {:induction false} PassStuck(u: Rules, a: Ledger, pending: seq<SyncNode>, k: nat)
    requires Sound(u.w, a) && k <= |pending|
    ensures var r := PassTo(u, a, pending, k);
      r.fault.None? && |r.still| == k ==> r.a.log == a.log && Stuck(u.w, r.still, IdsOf(a.log))
  {
    if k > 0 {
      var r := PassTo(u, a, pending, k - 1);
      PassStuck(u, a, pending, k - 1);
      PassGrows(u, a, pending, k - 1);
      PassShrinks(u, a, pending, k - 1);
      if r.fault.None? { OfferMeans(u, r, pending[k - 1]); }
    }
  }

  lemma PassStep(pending: seq<SyncNode>, i: nat, r: Retry, r': Retry)
    requires i < |pending| && r.a.log <= r'.a.log && Handled(pending, i, r.still, IdsOf(r.a.log))
    requires r'.still == r.still + [pending[i]] || (pending[i].id in IdsOf(r'.a.log) && r'.still == r.still)
    ensures Handled(pending, i + 1, r'.still, IdsOf(r'.a.log))
  {
    GrowsKnown(r.a.log, r'.a.log);
    forall j | 0 <= j < i + 1 ensures pending[j] in r'.still || pending[j].id in IdsOf(r'.a.log) {
      if j == i && r'.still != r.still { assert r'.still[|r.still|] == pending[i]; }
    }
  }

  // ----- Whole runs of the loop -----

  /** The loop ends with every node stored or waiting, and every waiting one
      missing a parent for good. */
  lemma {:induction false} RetryHolds(u: Rules, a: Ledger, ns: seq<SyncNode>)
    requires Sound(u.w, a)
    ensures var r := RetryFrom(u, a, ns);
      && Sound(u.w, r.a) && GrowsWith(a.log, r.a.log, ns) && Among(r.still, ns)
      && (r.fault.None? ==> Handled(ns, |ns|, r.still, IdsOf(r.a.log)) && Stuck(u.w, r.still, IdsOf(r.a.log)))
    decreases |ns|
  {
    var r := PassTo(u, a, ns, |ns|);
    PassGrows(u, a, ns, |ns|);
    PassAmong(u, a, ns, |ns|);
    PassHandles(u, a, ns, |ns|);
    PassStuck(u, a, ns, |ns|);
    PassShrinks(u, a, ns, |ns|);
    if ns != [] && r.fault.None? && |r.still| < |ns| {
      var r' := RetryFrom(u, r.a, r.still);
      RetryHolds(u, r.a, r.still);
      GrowsTrans(a.log, r.a.log, r'.a.log, r.still, ns);
      AmongTrans(r'.still, r.still, ns);
      GrowsKnown(r.a.log, r'.a.log);
      if r'.fault.None? { HandledTrans(ns, r.still, r'.still, IdsOf(r.a.log), IdsOf(r'.a.log)); }
    }
  }

  lemma AmongTrans(a: seq<SyncNode>, b: seq<SyncNode>, c: seq<SyncNode>)
    requires Among(a, b) && Among(b, c)
    ensures Among(a, c)
  {
    forall i | 0 <= i < |a| ensures a[i] in c {
      var j :| 0 <= j < |b| && b[j] == a[i];
    }
  }

  lemma HandledTrans(ns: seq<SyncNode>, part: seq<SyncNode>, still: seq<SyncNode>, known: set<Hash>, known': set<Hash>)
    requires Handled(ns, |ns|, part, known) && Handled(part, |part|, still, known') && known <= known'
    ensures Handled(ns, |ns|, still, known')
  {
    forall i | 0 <= i < |ns| ensures ns[i] in still || ns[i].id in known' {
      if ns[i] in part {
        var j :| 0 <= j < |part| && part[j] == ns[i];
      }
    }
  }

  // ----- The largest admissible part -----

  /** When every node is stored or misses a parent, nothing more could have been
      admitted: any admissible continuation by nodes of the pack is stored. */
  lemma {:induction false} Largest(w: World, base: seq<SyncNode>, known: set<Hash>,
                                   ns: seq<SyncNode>, waiting: seq<SyncNode>, ext: seq<SyncNode>, k: nat)
    requires IdsOf(base) <= known && Handled(ns, |ns|, waiting, known) && Stuck(w, waiting, known)
    requires Admissible(w.hash, base + ext) && Among(ext, ns) && k <= |ext|
    ensures IdsTo(base + ext, |base| + k) <= known
  {
    var all := base + ext;
    if k == 0 {
      forall i | 0 <= i < |base| ensures all[i].id in known { assert base[i].id in IdsOf(base); }
    } else {
      var m := |base| + k - 1;
      Largest(w, base, known, ns, waiting, ext, k - 1);
      IdsGrow(all, m);
      assert Fresh(w.hash, IdsTo(all, m), all[m]);
      assert all[m] == ext[k - 1] && ext[k - 1] in ns;
      var j :| 0 <= j < |ns| && ns[j] == all[m];
      forall i | 0 <= i < |all[m].tx.parents| ensures all[m].tx.parents[i] in known {
        assert all[m].tx.parents[i] in Elements(all[m].tx.parents);
      }
      assert !MissesParent(all[m], known);
    }
  }

  lemma TailKnown(base: seq<SyncNode>, ext: seq<SyncNode>)
    ensures IdsOf(ext) <= IdsTo(base + ext, |base| + |ext|)
  {
    forall i | 0 <= i < |ext| ensures ext[i].id in IdsOf(base + ext) { assert (base + ext)[|base| + i] == ext[i]; }
  }

  /** Order-independent and complete: without an error the loop has admitted
      every node of the pack that any admissible order of its nodes could. */
  lemma RetryAdmitsLargest(u: Rules, a: Ledger, ns: seq<SyncNode>, ext: seq<SyncNode>)
    requires Sound(u.w, a) && RetryFrom(u, a, ns).fault.None?
    requires Admissible(u.w.hash, a.log + ext) && Among(ext, ns)
    ensures IdsOf(ext) <= IdsOf(RetryFrom(u, a, ns).a.log)
  {
    var r := RetryFrom(u, a, ns);
    RetryHolds(u, a, ns);
    GrowsKnown(a.log, r.a.log);
    Largest(u.w, a.log, IdsOf(r.a.log), ns, r.still, ext, |ext|);
    TailKnown(a.log, ext);
  }

  lemma {:induction false} PassHashes(u: Rules, a: Ledger, pending: seq<SyncNode>, k: nat)
    requires k <= |pending| && PassTo(u, a, pending, k).fault.None?
    ensures forall i :: 0 <= i < k ==> pending[i].id == u.w.hash(pending[i].tx)
  {
    if k > 0 {
      OfferHash(u, PassTo(u, a, pending, k - 1), pending[k - 1]);
      PassHashes(u, a, pending, k - 1);
    }
  }

  lemma OfferHash(u: Rules, r: Retry, n: SyncNode)
    ensures Offered(u, r, n).fault.None? ==> r.fault.None? && n.id == u.w.hash(n.tx)
  {
  }

  // ----- No error -----

  /** Nothing but missing parents or duplication can refuse the node, now or at
      any later clock. */
  ghost predicate Acceptable(u: Rules, clock: nat, n: SyncNode) {
    && CheapFault(u.w, clock, n, None).None?
    && u.w.authentic(n)
    && (IsSnapshot(n) || FirstForbidden(PolicyFor(u.own, u.timeline, n), n, 0).None?)
  }

  ghost predicate AllAcceptable(u: Rules, clock: nat, ns: seq<SyncNode>) {
    forall i :: 0 <= i < |ns| ==> Acceptable(u, clock, ns[i])
  }

  lemma AcceptableOffered(u: Rules, clock: nat, r: Retry, n: SyncNode)
    requires r.fault.None? && Acceptable(u, clock, n) && clock <= r.a.clock
    ensures Offered(u, r, n).fault.None?
  {
    assert CheapFault(u.w, r.a.clock, n, None).None?;
  }

  lemma {:induction false} PassAccepts(u: Rules, a: Ledger, pending: seq<SyncNode>, k: nat)
    requires Sound(u.w, a) && k <= |pending| && AllAcceptable(u, a.clock, pending)
    ensures PassTo(u, a, pending, k).fault.None?
  {
    if k > 0 {
      PassAccepts(u, a, pending, k - 1);
      PassGrows(u, a, pending, k - 1);
      AcceptableOffered(u, a.clock, PassTo(u, a, pending, k - 1), pending[k - 1]);
    }
  }

  /** A pack of nodes that pass every check but the parents causes no error. */
  lemma {:induction false} RetryAccepts(u: Rules, a: Ledger, ns: seq<SyncNode>)
    requires Sound(u.w, a) && AllAcceptable(u, a.clock, ns)
    ensures RetryFrom(u, a, ns).fault.None?
    decreases |ns|
  {
    var r := PassTo(u, a, ns, |ns|);
    PassAccepts(u, a, ns, |ns|);
    PassShrinks(u, a, ns, |ns|);
    if ns != [] && |r.still| < |ns| {
      PassGrows(u, a, ns, |ns|);
      PassAmong(u, a, ns, |ns|);
      AcceptablePart(u, a.clock, r.a.clock, ns, r.still);
      RetryAccepts(u, r.a, r.still);
    }
  }

  lemma AcceptablePart(u: Rules, clock: nat, clock': nat, ns: seq<SyncNode>, part: seq<SyncNode>)
    requires clock <= clock' && AllAcceptable(u, clock, ns) && Among(part, ns)
    ensures AllAcceptable(u, clock', part)
  {
    forall i | 0 <= i < |part| ensures Acceptable(u, clock', part[i]) {
      var j :| 0 <= j < |ns| && ns[j] == part[i];
    }
  }

  /** An error ends the pass. */
  lemma {:induction false} FaultStays(u: Rules, a: Ledger, pending: seq<SyncNode>, i: nat, k: nat)
    requires i <= k <= |pending| && PassTo(u, a, pending, i).fault.Some?
    ensures PassTo(u, a, pending, k) == PassTo(u, a, pending, i)
  {
    if i < k { FaultStays(u, a, pending, i, k - 1); }
  }

  // ----- The loops -----

  /** The graph is run under rules `u`. */
  ghost predicate RunsUnder(g: G.StateGraph, timeline: Option<Timeline>, u: Rules)
    reads g
  {
    && g.Valid() && u.w == g.world && u.timeline == timeline
    && (timeline.None? ==> u.own == g.policy)
    && (timeline.Some? ==> SortedTimeline(timeline.value))
  }

  /** Offer one node to the graph, under the policy that applies to it. */
  method Offer(g: G.StateGraph, timeline: Option<Timeline>, n: SyncNode, still: seq<SyncNode>, ghost u: Rules)
    returns (still': seq<SyncNode>, e: Option<SyncError>)
    requires RunsUnder(g, timeline, u)
    modifies g
    ensures RunsUnder(g, timeline, u)
    ensures Retry(g.Now(), still', e) == Offered(u, Retry(old(g.Now()), still, None), n)
  {
    if timeline.Some? {
      var p := PolicyForLamport(n.tx.lamport, timeline.value);
      g.policy := p;
    }
    e := g.ApplyRemoteChecked(n, None);
    still' := still;
    if e == Some(DuplicateNode) {
      e := None;
    } else if e.Some? && e.value.MissingParent? {
      still', e := still + [n], None;
    }
  }

  method RetryPass(g: G.StateGraph, timeline: Option<Timeline>, pending: seq<SyncNode>, ghost u: Rules)
    returns (still: seq<SyncNode>, e: Option<SyncError>)
    requires RunsUnder(g, timeline, u)
    modifies g
    ensures RunsUnder(g, timeline, u)
    ensures Retry(g.Now(), still, e) == PassTo(u, old(g.Now()), pending, |pending|)
  {
    still, e := [], None;
    ghost var a := g.Now();
    for i := 0 to |pending|
      invariant RunsUnder(g, timeline, u)
      invariant e.None? && Retry(g.Now(), still, e) == PassTo(u, a, pending, i)
    {
      still, e := Offer(g, timeline, pending[i], still, u);
      if e.Some? {
        FaultStays(u, a, pending, i + 1, |pending|);
        return;
      }
    }
  }

  /** Passes until nothing is pending, a pass makes no progress, or an error. */
  method RetryAll(g: G.StateGraph, timeline: Option<Timeline>, ns: seq<SyncNode>, ghost u: Rules)
    returns (pending: seq<SyncNode>, e: Option<SyncError>)
    requires RunsUnder(g, timeline, u)
    modifies g
    ensures RunsUnder(g, timeline, u)
    ensures Retry(g.Now(), pending, e) == RetryFrom(u, old(g.Now()), ns)
  {
    pending, e := ns, None;
    while pending != []
      invariant RunsUnder(g, timeline, u) && e.None?
      invariant RetryFrom(u, g.Now(), pending) == RetryFrom(u, old(g.Now()), ns)
      decreases |pending|
    {
      var before := |pending|;
      PassShrinks(u, g.Now(), pending, before);
      pending, e := RetryPass(g, timeline, pending, u);
      if e.Some? || |pending| == before { return; }
    }
  }

  /** `e` is why `n` is refused where the ledger stands, and no retry helps. */
  ghost predicate Stops(u: Rules, a: Ledger, n: SyncNode, e: Option<SyncError>) {
    Verdict(u, a, n) == e && e.Some? && !e.value.MissingParent? && !e.value.DuplicateNode?
  }

  lemma OfferStops(u: Rules, r: Retry, n: SyncNode)
    requires r.fault.None? && Offered(u, r, n).fault.Some?
    ensures Stops(u, Offered(u, r, n).a, n, Offered(u, r, n).fault)
  {
    var p := PolicyFor(u.own, u.timeline, n);
    assert Step(u.w, p, r.a, n, None).log == r.a.log && Step(u.w, p, r.a, n, None).clock == r.a.clock;
  }

  /** An error is the one a node of the list gets in the ledger as it is left. */
  lemma {:induction false} PassStops(u: Rules, a: Ledger, pending: seq<SyncNode>, k: nat)
    requires k <= |pending| && PassTo(u, a, pending, k).fault.Some?
    ensures var r := PassTo(u, a, pending, k); exists i :: 0 <= i < k && Stops(u, r.a, pending[i], r.fault)
  {
    var r := PassTo(u, a, pending, k - 1);
    if r.fault.Some? {
      PassStops(u, a, pending, k - 1);
    } else {
      OfferStops(u, r, pending[k - 1]);
    }
  }

  lemma {:induction false} RetryStops(u: Rules, a: Ledger, ns: seq<SyncNode>)
    requires RetryFrom(u, a, ns).fault.Some?
    ensures var r := RetryFrom(u, a, ns); exists i :: 0 <= i < |ns| && Stops(u, r.a, ns[i], r.fault)
    decreases |ns|
  {
    var p := PassTo(u, a, ns, |ns|);
    PassShrinks(u, a, ns, |ns|);
    if p.fault.Some? {
      PassStops(u, a, ns, |ns|);
    } else {
      var r := RetryFrom(u, a, ns);
      RetryStops(u, p.a, p.still);
      var i :| 0 <= i < |p.still| && Stops(u, r.a, p.still[i], r.fault);
      PassAmong(u, a, ns, |ns|);
      assert p.still[i] in ns;
    }
  }

  /** Import a pack in any order. It terminates; without an error it has admitted
      the largest part of the pack that could be admitted at all; nodes that pass
      every check but the parents cause no error; and an error is the one a node of
      the pack gets in the graph as it is left. */
  method ImportPack(g: G.StateGraph, ns: seq<SyncNode>) returns (e: Option<SyncError>)
    requires g.Valid()
    modifies g
    ensures g.Valid() && g.policy == old(g.policy) && GrowsWith(old(g.log), g.log, ns)
    ensures e.None? ==>
      forall ext :: Admissible(g.world.hash, old(g.log) + ext) && Among(ext, ns) ==> IdsOf(ext) <= IdsOf(g.log)
    ensures AllAcceptable(Rules(g.world, g.policy, None), old(g.lamport), ns) ==> e.None?
    ensures e.Some? ==> !e.value.MissingParent? && !e.value.DuplicateNode?
    ensures e.Some? ==> exists i :: 0 <= i < |ns| && Judge(g.world, g.policy, g.Now(), ns[i], None) == e
  {
    ghost var u, a := Rules(g.world, g.policy, None), g.Now();
    var waiting;
    waiting, e := RetryAll(g, None, ns, u);
    RetryHolds(u, a, ns);
    if e.None? {
      forall ext | Admissible(g.world.hash, a.log + ext) && Among(ext, ns) ensures IdsOf(ext) <= IdsOf(g.log) {
        RetryAdmitsLargest(u, a, ns, ext);
      }
    }
    if AllAcceptable(u, a.clock, ns) { RetryAccepts(u, a, ns); }
    if e.Some? {
      RetryStops(u, a, ns);
      ghost var i :| 0 <= i < |ns| && Stops(u, g.Now(), ns[i], e);
      assert Judge(g.world, g.policy, g.Now(), ns[i], None) == e;
    }
  }

  /** Packs with the same nodes end in the same set of stored ids, whatever the
      order and repetition. */
  lemma ImportOrderIrrelevant(u: Rules, a: Ledger, ns: seq<SyncNode>, ns': seq<SyncNode>)
    requires Sound(u.w, a) && Elements(ns) == Elements(ns')
    requires RetryFrom(u, a, ns).fault.None? && RetryFrom(u, a, ns').fault.None?
    ensures IdsOf(RetryFrom(u, a, ns).a.log) == IdsOf(RetryFrom(u, a, ns').a.log)
  {
    ImportIncluded(u, a, ns, ns');
    ImportIncluded(u, a, ns', ns);
  }

  lemma ImportIncluded(u: Rules, a: Ledger, ns: seq<SyncNode>, ns': seq<SyncNode>)
    requires Sound(u.w, a) && Elements(ns) == Elements(ns') && RetryFrom(u, a, ns').fault.None?
    ensures IdsOf(RetryFrom(u, a, ns).a.log) <= IdsOf(RetryFrom(u, a, ns').a.log)
  {
    var log, log' := RetryFrom(u, a, ns).a.log, RetryFrom(u, a, ns').a.log;
    RetryHolds(u, a, ns);
    RetryHolds(u, a, ns');
    var ext := log[|a.log|..];
    assert a.log + ext == log;
    forall i | 0 <= i < |ext| ensures ext[i] in ns' { assert ext[i] in Elements(ns); }
    RetryAdmitsLargest(u, a, ns', ext);
    GrowsKnown(a.log, log');
    forall i | 0 <= i < |log| ensures log[i].id in IdsOf(log') {
      if i < |a.log| { assert a.log[i].id in IdsOf(a.log); } else { assert ext[i - |a.log|].id in IdsOf(ext); }
    }
  }
}
