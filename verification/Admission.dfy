/** Which nodes a graph admits: the order of the checks, one node at a time and
    in batches (core/crdt/src/graph.rs). */
module Admission {
  import opened Core
  import opened Nodes
  import opened Dag
  import opened Policy

  const LAMPORT_SLACK := 0x100000
  const WALL_SKEW_MAX_MS := 24 * 60 * 60 * 1000
  const SNAP_HASH_KEY := "\0snap:hash"

  /** The cryptography the graph relies on: the content hash, and whether a
      node's signature is absent or valid. */
  datatype World = World(hash: Transaction -> Hash, authentic: SyncNode -> bool)

  datatype SyncError =
    | HashMismatch
    | LamportCeiling
    | WallClockSkew
    | InvalidSignature
    | MissingParent(parent: Hash)
    | PolicyViolation(key: string)
    | DuplicateNode

  /** What admission depends on: the nodes admitted so far in order, the logical
      clock, and the ids whose signature has been checked. */
  datatype Ledger = Ledger(log: seq<SyncNode>, clock: nat, verified: set<Hash>)

  // ----- The checks -----

  predicate IsSnapshot(n: SyncNode) {
    exists i :: 0 <= i < |n.tx.ops| && n.tx.ops[i].OnMap? && n.tx.ops[i].m.Set? && n.tx.ops[i].m.key == SNAP_HASH_KEY
  }

  predicate WithinSkew(n: SyncNode, now: Option<nat>) {
    now.None? || n.tx.wallMs == 0 || n.tx.wallMs <= now.value + WALL_SKEW_MAX_MS
  }

  /** The checks that need no signature. */
  function CheapFault(w: World, clock: nat, n: SyncNode, now: Option<nat>): Option<SyncError> {
    if w.hash(n.tx) != n.id then Some(HashMismatch)
    else if n.tx.lamport > clock + LAMPORT_SLACK then Some(LamportCeiling)
    else if !WithinSkew(n, now) then Some(WallClockSkew)
    else None
  }

  /** The first parent not in the store from position `i` on. */
  ghost function FirstMissing(known: set<Hash>, parents: seq<Hash>, i: nat): (r: Option<Hash>)
    requires i <= |parents|
    ensures r.None? <==> forall j :: i <= j < |parents| ==> parents[j] in known
    decreases |parents| - i
  {
    if i == |parents| then None
    else if parents[i] !in known then Some(parents[i])
    else FirstMissing(known, parents, i + 1)
  }

  ghost predicate Permitted(p: Policy, n: SyncNode, i: nat)
    requires i < |n.tx.ops|
  {
    MayWrite(p, KeyBytes(n.tx.ops[i].Key()), n.tx.author)
  }

  /** The key of the first operation the policy refuses from position `i` on. */
  ghost function FirstForbidden(p: Policy, n: SyncNode, i: nat): (r: Option<string>)
    requires i <= |n.tx.ops|
    ensures r.None? <==> forall j :: i <= j < |n.tx.ops| ==> Permitted(p, n, j)
    decreases |n.tx.ops| - i
  {
    if i == |n.tx.ops| then None
    else if !Permitted(p, n, i) then Some(n.tx.ops[i].Key())
    else FirstForbidden(p, n, i + 1)
  }

  /** Parents, then policy, then duplication. */
  ghost function PlaceFault(p: Policy, known: set<Hash>, n: SyncNode): (r: Option<SyncError>)
    ensures r.None? ==> Elements(n.tx.parents) <= known && n.id !in known
  {
    if FirstMissing(known, n.tx.parents, 0).Some? then Some(MissingParent(FirstMissing(known, n.tx.parents, 0).value))
    else if !IsSnapshot(n) && FirstForbidden(p, n, 0).Some? then Some(PolicyViolation(FirstForbidden(p, n, 0).value))
    else if n.id in known then Some(DuplicateNode)
    else None
  }

  /** The parent reported is the first one missing. */
  lemma {:induction false} FirstMissingIs(known: set<Hash>, parents: seq<Hash>, i: nat) returns (j: nat)
    requires i <= |parents| && FirstMissing(known, parents, i).Some?
    ensures i <= j < |parents| && FirstMissing(known, parents, i) == Some(parents[j])
    ensures parents[j] !in known && forall m :: i <= m < j ==> parents[m] in known
    decreases |parents| - i
  {
    if parents[i] !in known { j := i; } else { j := FirstMissingIs(known, parents, i + 1); }
  }

  /** The key reported is that of the first operation refused. */
  lemma {:induction false} FirstForbiddenIs(p: Policy, n: SyncNode, i: nat) returns (j: nat)
    requires i <= |n.tx.ops| && FirstForbidden(p, n, i).Some?
    ensures i <= j < |n.tx.ops| && FirstForbidden(p, n, i) == Some(n.tx.ops[j].Key())
    ensures !Permitted(p, n, j) && forall m :: i <= m < j ==> Permitted(p, n, m)
    decreases |n.tx.ops| - i
  {
    if Permitted(p, n, i) {
      j := FirstForbiddenIs(p, n, i + 1);
      forall m | i <= m < j ensures Permitted(p, n, m) { assert m == i || Permitted(p, n, m); }
    } else {
      j := i;
    }
  }

  ghost predicate Allowed(p: Policy, n: SyncNode) {
    IsSnapshot(n) || forall j :: 0 <= j < |n.tx.ops| ==> Permitted(p, n, j)
  }

  /** A missing parent hides a policy violation, and that hides a duplicate;
      snapshots are exempt from the policy. */
  lemma PlaceFaultIs(p: Policy, known: set<Hash>, n: SyncNode)
    ensures var r := PlaceFault(p, known, n);
      var there := Elements(n.tx.parents) <= known;
      && (r.Some? && r.value.MissingParent? <==> !there)
      && (r.Some? && r.value.PolicyViolation? <==> there && !Allowed(p, n))
      && (r == Some(DuplicateNode) <==> there && Allowed(p, n) && n.id in known)
      && (r == None <==> there && Allowed(p, n) && n.id !in known)
  {
    var parents := n.tx.parents;
    if FirstMissing(known, parents, 0).Some? {
      var j := FirstMissingIs(known, parents, 0);
      assert parents[j] in Elements(parents);
    }
  }

  ghost predicate Trusted(w: World, a: Ledger, n: SyncNode) {
    n.id in a.verified || w.authentic(n)
  }

  /** Why a remote node is refused, if it is. */
  ghost function Judge(w: World, p: Policy, a: Ledger, n: SyncNode, now: Option<nat>): Option<SyncError> {
    if CheapFault(w, a.clock, n, now).Some? then CheapFault(w, a.clock, n, now)
    else if !Trusted(w, a, n) then Some(InvalidSignature)
    else PlaceFault(p, IdsOf(a.log), n)
  }

  // ----- What each refusal means, in the fields of the node -----

  /** The hash is right, the lamport within 2^20 of the clock, and the wall time,
      where both sides have one, at most a day ahead. */
  ghost predicate Sane(w: World, clock: nat, n: SyncNode, now: Option<nat>) {
    && w.hash(n.tx) == n.id && n.tx.lamport <= clock + 0x100000
    && (now.None? || n.tx.wallMs == 0 || n.tx.wallMs <= now.value + 86400000)
  }

  /** Some operation sets the snapshot marker. */
  ghost predicate Exempt(n: SyncNode) {
    exists v :: OnMap(Set("\0snap:hash", v)) in n.tx.ops
  }

  /** Operation `i` is the first the policy refuses, and it is on key `k`. */
  ghost predicate FirstRefused(p: Policy, n: SyncNode, i: nat, k: string) {
    && i < |n.tx.ops| && Names(n.tx.ops[i], k) && !MayWrite(p, KeyBytes(k), n.tx.author)
    && forall j, l :: 0 <= j < i && Names(n.tx.ops[j], l) ==> MayWrite(p, KeyBytes(l), n.tx.author)
  }

  /** Parent `i` is the first not known. */
  ghost predicate FirstUnknown(known: set<Hash>, n: SyncNode, i: int) {
    0 <= i < |n.tx.parents| && n.tx.parents[i] !in known && forall j :: 0 <= j < i ==> n.tx.parents[j] in known
  }

  ghost predicate Linked(known: set<Hash>, n: SyncNode) {
    forall i :: 0 <= i < |n.tx.parents| ==> n.tx.parents[i] in known
  }

  ghost predicate Lawful(p: Policy, n: SyncNode) {
    Exempt(n) || forall i, k :: 0 <= i < |n.tx.ops| && Names(n.tx.ops[i], k) ==> MayWrite(p, KeyBytes(k), n.tx.author)
  }

  /** `e` is the right reason to refuse `n` where the clock and the verified ids
      are those of `a` and the ids `known` are stored: the first check that fails. */
  ghost predicate Reason(w: World, p: Policy, a: Ledger, known: set<Hash>, n: SyncNode, now: Option<nat>,
                         e: SyncError)
  {
    match e
    case HashMismatch => w.hash(n.tx) != n.id
    case LamportCeiling => w.hash(n.tx) == n.id && n.tx.lamport > a.clock + 0x100000
    case WallClockSkew =>
      && w.hash(n.tx) == n.id && n.tx.lamport <= a.clock + 0x100000
      && now.Some? && n.tx.wallMs != 0 && n.tx.wallMs > now.value + 86400000
    case InvalidSignature => Sane(w, a.clock, n, now) && n.id !in a.verified && !w.authentic(n)
    case MissingParent(h) =>
      && Sane(w, a.clock, n, now) && (n.id in a.verified || w.authentic(n))
      && exists i :: FirstUnknown(known, n, i) && n.tx.parents[i] == h
    case PolicyViolation(k) =>
      && Sane(w, a.clock, n, now) && (n.id in a.verified || w.authentic(n))
      && Linked(known, n) && !Exempt(n) && exists i :: FirstRefused(p, n, i, k)
    case DuplicateNode =>
      && Sane(w, a.clock, n, now) && (n.id in a.verified || w.authentic(n))
      && Linked(known, n) && Lawful(p, n) && n.id in known
  }

  lemma CheapFaultIs(w: World, clock: nat, n: SyncNode, now: Option<nat>)
    ensures CheapFault(w, clock, n, now).None? <==> Sane(w, clock, n, now)
    ensures CheapFault(w, clock, n, now) == Some(HashMismatch) <==> w.hash(n.tx) != n.id
    ensures CheapFault(w, clock, n, now) == Some(LamportCeiling) <==>
      w.hash(n.tx) == n.id && n.tx.lamport > clock + 0x100000
    ensures CheapFault(w, clock, n, now) == Some(WallClockSkew) <==>
      && w.hash(n.tx) == n.id && n.tx.lamport <= clock + 0x100000
      && now.Some? && n.tx.wallMs != 0 && n.tx.wallMs > now.value + 86400000
  {
  }

  /** A snapshot is a node with an operation that sets the marker key. */
  lemma SnapshotIs(n: SyncNode)
    ensures IsSnapshot(n) <==> Exempt(n)
  {
    if Exempt(n) {
      var v :| OnMap(Set("\0snap:hash", v)) in n.tx.ops;
      var i :| 0 <= i < |n.tx.ops| && n.tx.ops[i] == OnMap(Set("\0snap:hash", v));
    }
    if IsSnapshot(n) {
      var i :| 0 <= i < |n.tx.ops| && n.tx.ops[i].OnMap? && n.tx.ops[i].m.Set? && n.tx.ops[i].m.key == SNAP_HASH_KEY;
      assert n.tx.ops[i] == OnMap(Set("\0snap:hash", n.tx.ops[i].m.value));
    }
  }

  lemma PermittedIs(p: Policy, n: SyncNode, i: nat)
    requires i < |n.tx.ops|
    ensures forall k :: Names(n.tx.ops[i], k) ==> (Permitted(p, n, i) <==> MayWrite(p, KeyBytes(k), n.tx.author))
    ensures Names(n.tx.ops[i], n.tx.ops[i].Key())
  {
    forall k ensures Names(n.tx.ops[i], k) <==> n.tx.ops[i].Key() == k { KeyIs(n.tx.ops[i], k); }
  }

  lemma LawfulIs(p: Policy, n: SyncNode)
    ensures Lawful(p, n) <==> Allowed(p, n)
  {
    SnapshotIs(n);
    forall i | 0 <= i < |n.tx.ops|
      ensures Permitted(p, n, i) <==> forall k :: Names(n.tx.ops[i], k) ==> MayWrite(p, KeyBytes(k), n.tx.author)
    {
      PermittedIs(p, n, i);
    }
  }

  lemma FirstRefusedIs(p: Policy, n: SyncNode, k: string)
    ensures FirstForbidden(p, n, 0) == Some(k) <==> exists i :: FirstRefused(p, n, i, k)
  {
    forall i | 0 <= i < |n.tx.ops|
      ensures Permitted(p, n, i) <==> forall l :: Names(n.tx.ops[i], l) ==> MayWrite(p, KeyBytes(l), n.tx.author)
      ensures Names(n.tx.ops[i], k) <==> n.tx.ops[i].Key() == k
    {
      PermittedIs(p, n, i);
      KeyIs(n.tx.ops[i], k);
    }
    if FirstForbidden(p, n, 0).Some? {
      var i := FirstForbiddenIs(p, n, 0);
      if FirstForbidden(p, n, 0) == Some(k) { assert FirstRefused(p, n, i, k); }
      if i' :| FirstRefused(p, n, i', k) { assert i' == i; }
    }
  }

  lemma FirstUnknownIs(known: set<Hash>, n: SyncNode, h: Hash)
    ensures FirstMissing(known, n.tx.parents, 0) == Some(h) <==>
      exists i :: FirstUnknown(known, n, i) && n.tx.parents[i] == h
    ensures FirstMissing(known, n.tx.parents, 0).None? <==> Linked(known, n)
  {
    if FirstMissing(known, n.tx.parents, 0).Some? {
      var i := FirstMissingIs(known, n.tx.parents, 0);
      assert FirstUnknown(known, n, i);
      if i' :| FirstUnknown(known, n, i') && n.tx.parents[i'] == h { assert i' == i; }
    }
  }

  /** The checks after the signature report the first that fails. */
  lemma PlaceReason(w: World, p: Policy, a: Ledger, known: set<Hash>, n: SyncNode, now: Option<nat>, e: SyncError)
    requires Sane(w, a.clock, n, now) && Trusted(w, a, n)
    ensures PlaceFault(p, known, n) == Some(e) <==> Reason(w, p, a, known, n, now, e)
  {
    LawfulIs(p, n);
    SnapshotIs(n);
    match e
    case MissingParent(h) => FirstUnknownIs(known, n, h);
    case PolicyViolation(k) =>
      FirstRefusedIs(p, n, k);
      FirstUnknownIs(known, n, 0);
    case _ => FirstUnknownIs(known, n, 0);
  }

  /** A remote node is refused for exactly the first check it fails, and admitted
      exactly when it fails none. */
  lemma JudgeIs(w: World, p: Policy, a: Ledger, n: SyncNode, now: Option<nat>)
    ensures forall e :: Judge(w, p, a, n, now) == Some(e) <==> Reason(w, p, a, IdsOf(a.log), n, now, e)
    ensures Judge(w, p, a, n, now).None? <==>
      && Sane(w, a.clock, n, now) && (n.id in a.verified || w.authentic(n))
      && Linked(IdsOf(a.log), n) && Lawful(p, n) && n.id !in IdsOf(a.log)
  {
    CheapFaultIs(w, a.clock, n, now);
    forall e ensures Judge(w, p, a, n, now) == Some(e) <==> Reason(w, p, a, IdsOf(a.log), n, now, e) {
      if Sane(w, a.clock, n, now) && Trusted(w, a, n) { PlaceReason(w, p, a, IdsOf(a.log), n, now, e); }
    }
    FirstUnknownIs(IdsOf(a.log), n, 0);
    LawfulIs(p, n);
  }

  /** A peer that has the parents of an authentic node, permits its keys and has
      not fallen behind by more than the slack takes it. */
  lemma PeerAccepts(w: World, p: Policy, a: Ledger, n: SyncNode, now: Option<nat>)
    requires HashInjective(w.hash) && Sound(w, a) && n.tx !in TransactionsOf(a.log)
    requires Sane(w, a.clock, n, now) && w.authentic(n) && Linked(IdsOf(a.log), n) && Lawful(p, n)
    ensures Judge(w, p, a, n, now).None? && Step(w, p, a, n, now).log == a.log + [n]
  {
    NewTransaction(w, a.log, n);
    JudgeIs(w, p, a, n, now);
    StepKeeps(w, p, a, n, now);
  }

  lemma NewTransaction(w: World, log: seq<SyncNode>, n: SyncNode)
    requires HashInjective(w.hash) && Admissible(w.hash, log) && n.id == w.hash(n.tx) && n.tx !in TransactionsOf(log)
    ensures n.id !in IdsOf(log)
  {
    forall i | 0 <= i < |log| ensures log[i].id != n.id {
      assert Fresh(w.hash, IdsTo(log, i), log[i]) && log[i].tx in TransactionsOf(log);
    }
  }

  // ----- One node at a time -----

  ghost function Place(p: Policy, a: Ledger, n: SyncNode): Ledger {
    var a' := a.(verified := a.verified + {n.id});
    if PlaceFault(p, IdsOf(a.log), n).Some? then a'
    else a'.(log := a.log + [n], clock := Max(a.clock, n.tx.lamport))
  }

  ghost function Step(w: World, p: Policy, a: Ledger, n: SyncNode, now: Option<nat>): Ledger {
    if CheapFault(w, a.clock, n, now).Some? || !Trusted(w, a, n) then a else Place(p, a, n)
  }

  /** The ledger after the first `k` nodes, one at a time. */
  ghost function RunTo(w: World, p: Policy, a: Ledger, ns: seq<SyncNode>, now: Option<nat>, k: nat): Ledger
    requires k <= |ns|
  {
    if k == 0 then a else Step(w, p, RunTo(w, p, a, ns, now, k - 1), ns[k - 1], now)
  }

  ghost function Run(w: World, p: Policy, a: Ledger, ns: seq<SyncNode>, now: Option<nat>): Ledger {
    RunTo(w, p, a, ns, now, |ns|)
  }

  ghost predicate Covers(log: seq<SyncNode>, clock: nat) {
    forall i :: 0 <= i < |log| ==> log[i].tx.lamport <= clock
  }

  ghost predicate Sound(w: World, a: Ledger) {
    Admissible(w.hash, a.log) && Covers(a.log, a.clock)
  }

  /** Every step keeps the log parent-closed and content-addressed, and the
      clock at or above everything in it. */
  lemma StepKeeps(w: World, p: Policy, a: Ledger, n: SyncNode, now: Option<nat>)
    requires Sound(w, a)
    ensures Sound(w, Step(w, p, a, n, now))
    ensures a.log <= Step(w, p, a, n, now).log && a.clock <= Step(w, p, a, n, now).clock
    ensures Step(w, p, a, n, now).log == if Judge(w, p, a, n, now).None? then a.log + [n] else a.log
    ensures IdsOf(a.log) <= IdsOf(Step(w, p, a, n, now).log) <= IdsOf(a.log) + {n.id}
  {
    if Judge(w, p, a, n, now).None? { AdmissibleStep(w.hash, a.log, n); }
  }

  /** A stored node is never admitted again, so a node of our own stays out of
      the canonical view even when a peer sends it back. */
  lemma RebroadcastRefused(w: World, p: Policy, a: Ledger, n: SyncNode, now: Option<nat>)
    requires Sound(w, a) && n.id in IdsOf(a.log)
    ensures Judge(w, p, a, n, now).Some? && Step(w, p, a, n, now).log == a.log
  {
    StepKeeps(w, p, a, n, now);
  }

  lemma {:induction false} RunKeeps(w: World, p: Policy, a: Ledger, ns: seq<SyncNode>, now: Option<nat>, k: nat)
    requires Sound(w, a) && k <= |ns|
    ensures var r := RunTo(w, p, a, ns, now, k);
      Sound(w, r) && a.log <= r.log && a.clock <= r.clock && IdsOf(a.log) <= IdsOf(r.log)
  {
    if k > 0 {
      RunKeeps(w, p, a, ns, now, k - 1);
      StepKeeps(w, p, RunTo(w, p, a, ns, now, k - 1), ns[k - 1], now);
    }
  }

  // ----- In batches -----

  ghost predicate Kept(w: World, a: Ledger, ns: seq<SyncNode>, i: nat, now: Option<nat>)
    requires i < |ns|
  {
    ns[i].id !in IdsTo(ns, i) && ns[i].id !in IdsOf(a.log) && CheapFault(w, a.clock, ns[i], now).None?
  }

  /** What survives deduplication and the cheap checks among the first `k`,
      against the state at the start of the batch. */
  ghost function Screen(w: World, a: Ledger, ns: seq<SyncNode>, now: Option<nat>, k: nat): seq<SyncNode>
    requires k <= |ns|
  {
    if k == 0 then []
    else Screen(w, a, ns, now, k - 1) + if Kept(w, a, ns, k - 1, now) then [ns[k - 1]] else []
  }

  type Refusals = seq<(Hash, SyncError)>

  /** What the cheap checks refuse meanwhile. */
  ghost function ScreenRefusals(w: World, a: Ledger, ns: seq<SyncNode>, now: Option<nat>, k: nat): Refusals
    requires k <= |ns|
  {
    if k == 0 then [] else
      var n, e := ns[k - 1], CheapFault(w, a.clock, ns[k - 1], now);
      ScreenRefusals(w, a, ns, now, k - 1) +
        if n.id !in IdsTo(ns, k - 1) && n.id !in IdsOf(a.log) && e.Some? then [(n.id, e.value)] else []
  }

  /** Applying the first `k` survivors in order; signatures are judged at the
      start. */
  ghost function Settle(w: World, p: Policy, a: Ledger, ns: seq<SyncNode>, k: nat): Ledger
    requires k <= |ns|
  {
    if k == 0 then a
    else if Trusted(w, a, ns[k - 1]) then Place(p, Settle(w, p, a, ns, k - 1), ns[k - 1])
    else Settle(w, p, a, ns, k - 1)
  }

  /** Why survivor `i` is refused, if it is. */
  ghost function SettleFault(w: World, p: Policy, a: Ledger, ns: seq<SyncNode>, i: nat): Option<SyncError>
    requires i < |ns|
  {
    if !Trusted(w, a, ns[i]) then Some(InvalidSignature)
    else PlaceFault(p, IdsOf(Settle(w, p, a, ns, i).log), ns[i])
  }

  ghost function SettleRefusals(w: World, p: Policy, a: Ledger, ns: seq<SyncNode>, k: nat): Refusals
    requires k <= |ns|
  {
    if k == 0 then [] else
      var e := SettleFault(w, p, a, ns, k - 1);
      SettleRefusals(w, p, a, ns, k - 1) + if e.Some? then [(ns[k - 1].id, e.value)] else []
  }

  ghost function Accepted(w: World, p: Policy, a: Ledger, ns: seq<SyncNode>, k: nat): seq<SyncNode>
    requires k <= |ns|
  {
    if k == 0 then [] else
      Accepted(w, p, a, ns, k - 1) + if SettleFault(w, p, a, ns, k - 1).None? then [ns[k - 1]] else []
  }

  ghost function BatchTo(w: World, p: Policy, a: Ledger, ns: seq<SyncNode>, now: Option<nat>, k: nat): Ledger
    requires k <= |ns|
  {
    Settle(w, p, a, Screen(w, a, ns, now, k), |Screen(w, a, ns, now, k)|)
  }

  ghost function Batch(w: World, p: Policy, a: Ledger, ns: seq<SyncNode>, now: Option<nat>): Ledger {
    BatchTo(w, p, a, ns, now, |ns|)
  }

  ghost predicate DistinctIds(ns: seq<SyncNode>) {
    forall i :: 0 <= i < |ns| ==> ns[i].id !in IdsTo(ns, i)
  }

  lemma {:induction false} SettleAppend(w: World, p: Policy, a: Ledger, ns: seq<SyncNode>, n: SyncNode, k: nat)
    requires k <= |ns|
    ensures Settle(w, p, a, ns + [n], k) == Settle(w, p, a, ns, k)
  {
    if k > 0 { SettleAppend(w, p, a, ns, n, k - 1); }
  }

  lemma BatchSnoc(w: World, p: Policy, a: Ledger, ns: seq<SyncNode>, now: Option<nat>, i: nat)
    requires i < |ns|
    ensures var before := BatchTo(w, p, a, ns, now, i);
      BatchTo(w, p, a, ns, now, i + 1) ==
        if Kept(w, a, ns, i, now) && Trusted(w, a, ns[i]) then Place(p, before, ns[i]) else before
  {
    var kept := Screen(w, a, ns, now, i);
    SettleAppend(w, p, a, kept, ns[i], |kept|);
    assert kept + [] == kept;
  }

  lemma {:induction false} RunVerifies(w: World, p: Policy, a: Ledger, ns: seq<SyncNode>, now: Option<nat>, k: nat)
    requires k <= |ns|
    ensures a.verified <= RunTo(w, p, a, ns, now, k).verified <= a.verified + IdsTo(ns, k)
  {
    if k > 0 { RunVerifies(w, p, a, ns, now, k - 1); }
  }

  /** Node `i`, if admitted when sent alone, is the first with its id and not
      above the ceiling in force at the start of the batch. */
  ghost predicate BatchableAt(w: World, p: Policy, a: Ledger, ns: seq<SyncNode>, now: Option<nat>, i: nat)
    requires i < |ns|
  {
    Judge(w, p, RunTo(w, p, a, ns, now, i), ns[i], now).None? ==>
      ns[i].id !in IdsTo(ns, i) && ns[i].tx.lamport <= a.clock + LAMPORT_SLACK
  }

  ghost predicate Batchable(w: World, p: Policy, a: Ledger, ns: seq<SyncNode>, now: Option<nat>, k: nat)
    requires k <= |ns|
  {
    forall i :: 0 <= i < k ==> BatchableAt(w, p, a, ns, now, i)
  }

  ghost predicate InStep(r: Ledger, b: Ledger) {
    r.log == b.log && r.clock == b.clock
  }

  /** Some id among `ids` is admitted in `r` and not in `b`. */
  ghost predicate Lost(r: Ledger, b: Ledger, ids: set<Hash>) {
    exists h :: h in ids && h in IdsOf(r.log) && h !in IdsOf(b.log)
  }

  /** The batch side of one node: placed if it was kept and trusted. */
  ghost predicate Settles(w: World, p: Policy, a: Ledger, ids: set<Hash>, b: Ledger, b': Ledger, n: SyncNode,
                          now: Option<nat>)
  {
    b' == if n.id !in ids && n.id !in IdsOf(a.log) && CheapFault(w, a.clock, n, now).None? && Trusted(w, a, n)
          then Place(p, b, n) else b
  }

  lemma SameStep(w: World, p: Policy, a: Ledger, ids: set<Hash>, r: Ledger, b: Ledger, b': Ledger, n: SyncNode,
                 now: Option<nat>)
    requires InStep(r, b) && Settles(w, p, a, ids, b, b', n, now)
    requires a.clock <= r.clock && IdsOf(a.log) <= IdsOf(r.log) && a.verified <= r.verified <= a.verified + ids
    requires Judge(w, p, r, n, now).None? ==> n.id !in ids && n.tx.lamport <= a.clock + LAMPORT_SLACK
    ensures InStep(Step(w, p, r, n, now), b')
  {
    if Judge(w, p, r, n, now).None? {
      assert CheapFault(w, a.clock, n, now).None? && Trusted(w, a, n);
    } else if CheapFault(w, a.clock, n, now).None? && Trusted(w, a, n) {
      assert CheapFault(w, r.clock, n, now).None? && Trusted(w, r, n);
    }
  }

  lemma LostNow(w: World, p: Policy, a: Ledger, ids: set<Hash>, r: Ledger, b: Ledger, b': Ledger, n: SyncNode,
                now: Option<nat>)
    requires InStep(r, b) && Settles(w, p, a, ids, b, b', n, now)
    requires Judge(w, p, r, n, now).None? && (n.id in ids || n.tx.lamport > a.clock + LAMPORT_SLACK)
    ensures Lost(Step(w, p, r, n, now), b', ids + {n.id})
  {
    IdsSnoc(r.log, n);
    assert n.id in IdsOf(r.log + [n]) && n.id !in IdsOf(b.log);
  }

  lemma LostStays(w: World, p: Policy, a: Ledger, ids: set<Hash>, r: Ledger, b: Ledger, b': Ledger, n: SyncNode,
                  now: Option<nat>)
    requires Lost(r, b, ids) && Settles(w, p, a, ids, b, b', n, now)
    ensures Lost(Step(w, p, r, n, now), b', ids + {n.id})
  {
    var h :| h in ids && h in IdsOf(r.log) && h !in IdsOf(b.log);
    IdsSnoc(r.log, n);
    IdsSnoc(b.log, n);
    assert h in IdsOf(Step(w, p, r, n, now).log) && h !in IdsOf(b'.log);
  }

  lemma BatchSettles(w: World, p: Policy, a: Ledger, ns: seq<SyncNode>, now: Option<nat>, i: nat)
    requires i < |ns|
    ensures Settles(w, p, a, IdsTo(ns, i), BatchTo(w, p, a, ns, now, i), BatchTo(w, p, a, ns, now, i + 1), ns[i], now)
  {
    BatchSnoc(w, p, a, ns, now, i);
  }

  lemma BatchableNext(w: World, p: Policy, a: Ledger, ns: seq<SyncNode>, now: Option<nat>, i: nat)
    requires i < |ns|
    ensures Batchable(w, p, a, ns, now, i + 1) <==> Batchable(w, p, a, ns, now, i) && BatchableAt(w, p, a, ns, now, i)
  {
  }

  lemma {:induction false} BatchRunTo(w: World, p: Policy, a: Ledger, ns: seq<SyncNode>, now: Option<nat>, k: nat)
    requires Sound(w, a) && k <= |ns|
    ensures var r, b := RunTo(w, p, a, ns, now, k), BatchTo(w, p, a, ns, now, k);
      if Batchable(w, p, a, ns, now, k) then InStep(r, b) else Lost(r, b, IdsTo(ns, k))
  {
    if k > 0 {
      var i := k - 1;
      BatchRunTo(w, p, a, ns, now, i);
      RunKeeps(w, p, a, ns, now, i);
      RunVerifies(w, p, a, ns, now, i);
      BatchSettles(w, p, a, ns, now, i);
      BatchableNext(w, p, a, ns, now, i);
      IdsGrow(ns, i);
      var r, b, b' := RunTo(w, p, a, ns, now, i), BatchTo(w, p, a, ns, now, i), BatchTo(w, p, a, ns, now, k);
      if !Batchable(w, p, a, ns, now, i) {
        LostStays(w, p, a, IdsTo(ns, i), r, b, b', ns[i], now);
      } else if BatchableAt(w, p, a, ns, now, i) {
        SameStep(w, p, a, IdsTo(ns, i), r, b, b', ns[i], now);
      } else {
        LostNow(w, p, a, IdsTo(ns, i), r, b, b', ns[i], now);
      }
    }
  }

  /** A batch admits exactly what the same nodes sent one by one would, in the
      same order, if and only if every node admitted that way is the first with
      its id and not above the ceiling in force at the start. */
  lemma BatchIsRunIff(w: World, p: Policy, a: Ledger, ns: seq<SyncNode>, now: Option<nat>)
    requires Sound(w, a)
    ensures Batch(w, p, a, ns, now).log == Run(w, p, a, ns, now).log <==> Batchable(w, p, a, ns, now, |ns|)
  {
    BatchRunTo(w, p, a, ns, now, |ns|);
  }

  /** So it does when ids are distinct and no lamport exceeds that ceiling. */
  lemma BatchRefinesRun(w: World, p: Policy, a: Ledger, ns: seq<SyncNode>, now: Option<nat>)
    requires Sound(w, a) && DistinctIds(ns)
    requires forall i :: 0 <= i < |ns| ==> ns[i].tx.lamport <= a.clock + LAMPORT_SLACK
    ensures Batch(w, p, a, ns, now).log == Run(w, p, a, ns, now).log
    ensures Batch(w, p, a, ns, now).clock == Run(w, p, a, ns, now).clock
  {
    forall i | 0 <= i < |ns| ensures BatchableAt(w, p, a, ns, now, i) { assert ns[i].id !in IdsTo(ns, i); }
    BatchRunTo(w, p, a, ns, now, |ns|);
  }

  // ----- Every node of a batch is accounted for -----

  ghost function Refused(rejected: Refusals): set<Hash> {
    set i | 0 <= i < |rejected| :: rejected[i].0
  }

  lemma RefusedConcat(a: Refusals, b: Refusals)
    ensures Refused(a + b) == Refused(a) + Refused(b)
  {
    var all := a + b;
    forall h ensures h in Refused(all) <==> h in Refused(a) || h in Refused(b) {
      if i :| 0 <= i < |a| && a[i].0 == h { assert all[i].0 == h; }
      if i :| 0 <= i < |b| && b[i].0 == h { assert all[|a| + i].0 == h; }
    }
  }

  lemma RefusedOne(r: (Hash, SyncError))
    ensures Refused([r]) == {r.0} && Refused([]) == {}
  {
    assert [r][0].0 in Refused([r]);
  }

  /** Every id is in exactly one of two lists, once. */
  ghost predicate Accounts(kept: seq<SyncNode>, rejected: Refusals, all: set<Hash>) {
    IdsOf(kept) + Refused(rejected) == all && |kept| + |rejected| == |all|
  }

  /** What becomes of a node: passed over as a repeat, kept, or refused. */
  datatype Outcome = PassedOver | KeptOn | TurnedDown(e: SyncError)

  ghost function KeptOf(ns: seq<SyncNode>, outs: seq<Outcome>, k: nat): seq<SyncNode>
    requires k <= |ns| == |outs|
  {
    if k == 0 then [] else KeptOf(ns, outs, k - 1) + if outs[k - 1].KeptOn? then [ns[k - 1]] else []
  }

  ghost function RefusalsOf(ns: seq<SyncNode>, outs: seq<Outcome>, k: nat): Refusals
    requires k <= |ns| == |outs|
  {
    if k == 0 then [] else
      RefusalsOf(ns, outs, k - 1) + if outs[k - 1].TurnedDown? then [(ns[k - 1].id, outs[k - 1].e)] else []
  }

  ghost function KeptIds(ns: seq<SyncNode>, outs: seq<Outcome>, k: nat): set<Hash>
    requires k <= |ns| == |outs|
  {
    if k == 0 then {}
    else if outs[k - 1].KeptOn? then KeptIds(ns, outs, k - 1) + {ns[k - 1].id}
    else KeptIds(ns, outs, k - 1)
  }

  ghost function RefusedIds(ns: seq<SyncNode>, outs: seq<Outcome>, k: nat): set<Hash>
    requires k <= |ns| == |outs|
  {
    if k == 0 then {}
    else if outs[k - 1].TurnedDown? then RefusedIds(ns, outs, k - 1) + {ns[k - 1].id}
    else RefusedIds(ns, outs, k - 1)
  }

  lemma {:induction false} KeptIdsAre(ns: seq<SyncNode>, outs: seq<Outcome>, k: nat)
    requires k <= |ns| == |outs|
    ensures KeptIds(ns, outs, k) == IdsOf(KeptOf(ns, outs, k))
  {
    if k > 0 {
      KeptIdsAre(ns, outs, k - 1);
      var kept := KeptOf(ns, outs, k - 1);
      assert kept + [] == kept;
      IdsSnoc(kept, ns[k - 1]);
    }
  }

  lemma {:induction false} RefusedIdsAre(ns: seq<SyncNode>, outs: seq<Outcome>, k: nat)
    requires k <= |ns| == |outs|
    ensures RefusedIds(ns, outs, k) == Refused(RefusalsOf(ns, outs, k))
  {
    if k > 0 {
      RefusedIdsAre(ns, outs, k - 1);
      var rejected := RefusalsOf(ns, outs, k - 1);
      assert rejected + [] == rejected;
      if outs[k - 1].TurnedDown? {
        RefusedConcat(rejected, [(ns[k - 1].id, outs[k - 1].e)]);
        RefusedOne((ns[k - 1].id, outs[k - 1].e));
      }
    }
  }

  /** Exactly the repeats and the known ones are passed over. */
  ghost predicate PassesOver(ns: seq<SyncNode>, outs: seq<Outcome>, known: set<Hash>) {
    |ns| == |outs| && forall i :: 0 <= i < |ns| ==>
      (outs[i].PassedOver? <==> ns[i].id in IdsTo(ns, i) || ns[i].id in known)
  }

  lemma {:induction false} NewIdsAre(ns: seq<SyncNode>, outs: seq<Outcome>, known: set<Hash>, k: nat)
    requires PassesOver(ns, outs, known) && k <= |ns|
    ensures KeptIds(ns, outs, k) + RefusedIds(ns, outs, k) == IdsTo(ns, k) - known
  {
    if k > 0 {
      var ids, id := KeptIds(ns, outs, k - 1) + RefusedIds(ns, outs, k - 1), ns[k - 1].id;
      NewIdsAre(ns, outs, known, k - 1);
      IdsGrow(ns, k - 1);
      assert outs[k - 1].PassedOver? <==> id in IdsTo(ns, k - 1) || id in known;
      if !outs[k - 1].PassedOver? { assert KeptIds(ns, outs, k) + RefusedIds(ns, outs, k) == ids + {id}; }
    } else {
      assert IdsTo(ns, 0) == {};
    }
  }

  lemma {:induction false} OutcomesCount(ns: seq<SyncNode>, outs: seq<Outcome>, known: set<Hash>, k: nat)
    requires PassesOver(ns, outs, known) && k <= |ns|
    ensures |KeptOf(ns, outs, k)| + |RefusalsOf(ns, outs, k)| == |KeptIds(ns, outs, k) + RefusedIds(ns, outs, k)|
  {
    if k > 0 {
      var ids, id := KeptIds(ns, outs, k - 1) + RefusedIds(ns, outs, k - 1), ns[k - 1].id;
      OutcomesCount(ns, outs, known, k - 1);
      NewIdsAre(ns, outs, known, k - 1);
      if !outs[k - 1].PassedOver? {
        assert id !in ids;
        assert KeptIds(ns, outs, k) + RefusedIds(ns, outs, k) == ids + {id};
      }
    }
  }

  /** Then every new id lands in one list, once. */
  lemma OutcomesAccount(ns: seq<SyncNode>, outs: seq<Outcome>, known: set<Hash>)
    requires PassesOver(ns, outs, known)
    ensures Accounts(KeptOf(ns, outs, |ns|), RefusalsOf(ns, outs, |ns|), IdsOf(ns) - known)
  {
    KeptIdsAre(ns, outs, |ns|);
    RefusedIdsAre(ns, outs, |ns|);
    NewIdsAre(ns, outs, known, |ns|);
    OutcomesCount(ns, outs, known, |ns|);
  }

  ghost function ScreenOutcome(w: World, a: Ledger, ns: seq<SyncNode>, now: Option<nat>, i: nat): Outcome
    requires i < |ns|
  {
    var e := CheapFault(w, a.clock, ns[i], now);
    if ns[i].id in IdsTo(ns, i) || ns[i].id in IdsOf(a.log) then PassedOver
    else if e.None? then KeptOn
    else TurnedDown(e.value)
  }

  lemma {:induction false} ScreenIs(w: World, a: Ledger, ns: seq<SyncNode>, now: Option<nat>, outs: seq<Outcome>,
                                    k: nat)
    requires k <= |ns| == |outs| && forall i :: 0 <= i < |ns| ==> outs[i] == ScreenOutcome(w, a, ns, now, i)
    ensures Screen(w, a, ns, now, k) == KeptOf(ns, outs, k)
    ensures ScreenRefusals(w, a, ns, now, k) == RefusalsOf(ns, outs, k)
  {
    if k > 0 { ScreenIs(w, a, ns, now, outs, k - 1); }
  }

  lemma ScreenAccounts(w: World, a: Ledger, ns: seq<SyncNode>, now: Option<nat>)
    ensures Accounts(Screen(w, a, ns, now, |ns|), ScreenRefusals(w, a, ns, now, |ns|), IdsOf(ns) - IdsOf(a.log))
  {
    var outs := seq(|ns|, i requires 0 <= i < |ns| => ScreenOutcome(w, a, ns, now, i));
    ScreenIs(w, a, ns, now, outs, |ns|);
    OutcomesAccount(ns, outs, IdsOf(a.log));
  }

  ghost function SettleOutcome(w: World, p: Policy, a: Ledger, ns: seq<SyncNode>, i: nat): Outcome
    requires i < |ns|
  {
    var e := SettleFault(w, p, a, ns, i);
    if e.None? then KeptOn else TurnedDown(e.value)
  }

  lemma {:induction false} SettleIs(w: World, p: Policy, a: Ledger, ns: seq<SyncNode>, outs: seq<Outcome>, k: nat)
    requires k <= |ns| == |outs| && forall i :: 0 <= i < |ns| ==> outs[i] == SettleOutcome(w, p, a, ns, i)
    ensures Accepted(w, p, a, ns, k) == KeptOf(ns, outs, k)
    ensures SettleRefusals(w, p, a, ns, k) == RefusalsOf(ns, outs, k)
  {
    if k > 0 { SettleIs(w, p, a, ns, outs, k - 1); }
  }

  lemma SettleAccounts(w: World, p: Policy, a: Ledger, ns: seq<SyncNode>)
    requires DistinctIds(ns)
    ensures Accounts(Accepted(w, p, a, ns, |ns|), SettleRefusals(w, p, a, ns, |ns|), IdsOf(ns))
  {
    var outs := seq(|ns|, i requires 0 <= i < |ns| => SettleOutcome(w, p, a, ns, i));
    SettleIs(w, p, a, ns, outs, |ns|);
    OutcomesAccount(ns, outs, {});
    assert IdsOf(ns) - {} == IdsOf(ns);
  }

  /** The log grows by the accepted nodes. */
  lemma {:induction false} SettleGrows(w: World, p: Policy, a: Ledger, ns: seq<SyncNode>, k: nat)
    requires k <= |ns|
    ensures Settle(w, p, a, ns, k).log == a.log + Accepted(w, p, a, ns, k)
  {
    if k > 0 {
      SettleGrows(w, p, a, ns, k - 1);
      var kept := Accepted(w, p, a, ns, k - 1);
      assert kept + [] == kept && a.log + kept + [ns[k - 1]] == a.log + (kept + [ns[k - 1]]);
    }
  }

  lemma {:induction false} ScreenDistinct(w: World, a: Ledger, ns: seq<SyncNode>, now: Option<nat>, k: nat)
    requires k <= |ns|
    ensures DistinctIds(Screen(w, a, ns, now, k)) && IdsOf(Screen(w, a, ns, now, k)) <= IdsTo(ns, k)
    ensures forall i :: 0 <= i < |Screen(w, a, ns, now, k)| ==>
      Screen(w, a, ns, now, k)[i].id == w.hash(Screen(w, a, ns, now, k)[i].tx)
  {
    if k > 0 {
      var kept, n := Screen(w, a, ns, now, k - 1), ns[k - 1];
      ScreenDistinct(w, a, ns, now, k - 1);
      assert kept + [] == kept;
      if Kept(w, a, ns, k - 1, now) {
        IdsSnoc(kept, n);
        forall j | 0 <= j < |kept + [n]| ensures (kept + [n])[j].id !in IdsTo(kept + [n], j) {
          IdsAppend(kept, n, j);
          if j < |kept| { assert kept[j].id !in IdsTo(kept, j); }
        }
      }
    }
  }

  /** Of the ids of a batch not already stored, each lands in exactly one of
      accepted and refused, once; the accepted ones are the growth of the log. */
  lemma BatchAccounts(w: World, p: Policy, a: Ledger, ns: seq<SyncNode>, now: Option<nat>)
    ensures var kept := Screen(w, a, ns, now, |ns|);
      var accepted := Accepted(w, p, a, kept, |kept|);
      && Accounts(accepted, ScreenRefusals(w, a, ns, now, |ns|) + SettleRefusals(w, p, a, kept, |kept|),
                  IdsOf(ns) - IdsOf(a.log))
      && Batch(w, p, a, ns, now).log == a.log + accepted
  {
    var kept := Screen(w, a, ns, now, |ns|);
    ScreenAccounts(w, a, ns, now);
    ScreenDistinct(w, a, ns, now, |ns|);
    SettleAccounts(w, p, a, kept);
    SettleGrows(w, p, a, kept, |kept|);
    DistinctSize(kept, |kept|);
    RefusedConcat(ScreenRefusals(w, a, ns, now, |ns|), SettleRefusals(w, p, a, kept, |kept|));
  }

  lemma {:induction false} DistinctSize(ns: seq<SyncNode>, k: nat)
    requires DistinctIds(ns) && k <= |ns|
    ensures |IdsTo(ns, k)| == k
  {
    if k == 0 {
      assert IdsTo(ns, 0) == {};
    } else {
      DistinctSize(ns, k - 1);
      IdsGrow(ns, k - 1);
      assert ns[k - 1].id !in IdsTo(ns, k - 1);
    }
  }

  // ----- Why, and in what order, a batch refuses -----

  /** `j` is the first node with id `h`. */
  ghost predicate FirstWith(ns: seq<SyncNode>, h: Hash, j: int) {
    0 <= j < |ns| && ns[j].id == h && h !in IdsTo(ns, j)
  }

  /** Node `j` is the first with the refused id, which was not stored, and the
      reason is right for the clock and the signatures at the start and the log
      when it was tried, after the `j` nodes before it. */
  ghost predicate Explains(w: World, p: Policy, a: Ledger, ns: seq<SyncNode>, now: Option<nat>,
                           r: (Hash, SyncError), j: int)
  {
    && FirstWith(ns, r.0, j) && r.0 !in IdsOf(a.log)
    && Reason(w, p, a, IdsOf(BatchTo(w, p, a, ns, now, j).log), ns[j], now, r.1)
  }

  ghost predicate Explained(w: World, p: Policy, a: Ledger, ns: seq<SyncNode>, now: Option<nat>,
                            r: (Hash, SyncError), k: nat)
  {
    exists j :: 0 <= j < k && Explains(w, p, a, ns, now, r, j)
  }

  /** The refusals of checks that come before the signatures. */
  ghost predicate IsEarly(e: SyncError) {
    e.HashMismatch? || e.LamportCeiling? || e.WallClockSkew?
  }

  ghost predicate Precedes(ns: seq<SyncNode>, h: Hash, h': Hash) {
    forall j, j' :: FirstWith(ns, h, j) && FirstWith(ns, h', j') ==> j < j'
  }

  /** Refusals of one kind, all among the first `k` nodes, in the order of the nodes. */
  ghost predicate Explanations(w: World, p: Policy, a: Ledger, ns: seq<SyncNode>, now: Option<nat>, rs: Refusals,
                               early: bool, k: nat)
  {
    && (forall i :: 0 <= i < |rs| ==> Explained(w, p, a, ns, now, rs[i], k) && IsEarly(rs[i].1) == early)
    && (forall i, i' :: 0 <= i < i' < |rs| ==> Precedes(ns, rs[i].0, rs[i'].0))
  }

  lemma FirstUnique(ns: seq<SyncNode>, h: Hash, j: int, j': int)
    requires FirstWith(ns, h, j) && FirstWith(ns, h, j')
    ensures j == j'
  {
    assert forall i, k :: 0 <= i < k <= |ns| ==> ns[i].id in IdsTo(ns, k);
  }

  lemma PrecedesLast(w: World, p: Policy, a: Ledger, ns: seq<SyncNode>, now: Option<nat>, r: (Hash, SyncError),
                     k: nat, h: Hash)
    requires Explained(w, p, a, ns, now, r, k) && FirstWith(ns, h, k)
    ensures Precedes(ns, r.0, h)
  {
    var i :| 0 <= i < k && Explains(w, p, a, ns, now, r, i);
    forall j, j' | FirstWith(ns, r.0, j) && FirstWith(ns, h, j') ensures j < j' {
      FirstUnique(ns, r.0, i, j);
      FirstUnique(ns, h, k, j');
    }
  }

  lemma ExplainedLater(w: World, p: Policy, a: Ledger, ns: seq<SyncNode>, now: Option<nat>, rs: Refusals,
                       early: bool, k: nat)
    requires Explanations(w, p, a, ns, now, rs, early, k)
    ensures Explanations(w, p, a, ns, now, rs, early, k + 1)
  {
    forall i | 0 <= i < |rs| ensures Explained(w, p, a, ns, now, rs[i], k + 1) {
      assert Explained(w, p, a, ns, now, rs[i], k);
    }
  }

  lemma ExplainNext(w: World, p: Policy, a: Ledger, ns: seq<SyncNode>, now: Option<nat>, rs: Refusals,
                    early: bool, k: nat, r: (Hash, SyncError))
    requires Explanations(w, p, a, ns, now, rs, early, k)
    requires Explains(w, p, a, ns, now, r, k) && IsEarly(r.1) == early
    ensures Explanations(w, p, a, ns, now, rs + [r], early, k + 1)
  {
    ExplainedLater(w, p, a, ns, now, rs, early, k);
    assert Explained(w, p, a, ns, now, r, k + 1);
    forall i | 0 <= i < |rs| ensures Precedes(ns, rs[i].0, r.0) {
      assert Explained(w, p, a, ns, now, rs[i], k);
      PrecedesLast(w, p, a, ns, now, rs[i], k, r.0);
    }
  }

  lemma {:induction false} ScreenExplained(w: World, p: Policy, a: Ledger, ns: seq<SyncNode>, now: Option<nat>, k: nat)
    requires k <= |ns|
    ensures Explanations(w, p, a, ns, now, ScreenRefusals(w, a, ns, now, k), true, k)
  {
    if k > 0 {
      var rs, n, e := ScreenRefusals(w, a, ns, now, k - 1), ns[k - 1], CheapFault(w, a.clock, ns[k - 1], now);
      ScreenExplained(w, p, a, ns, now, k - 1);
      if n.id !in IdsTo(ns, k - 1) && n.id !in IdsOf(a.log) && e.Some? {
        CheapFaultIs(w, a.clock, n, now);
        ExplainNext(w, p, a, ns, now, rs, true, k - 1, (n.id, e.value));
      } else {
        assert rs + [] == rs;
        ExplainedLater(w, p, a, ns, now, rs, true, k - 1);
      }
    }
  }

  lemma {:induction false} RefusalsAppend(w: World, p: Policy, a: Ledger, ns: seq<SyncNode>, n: SyncNode, k: nat)
    requires k <= |ns|
    ensures SettleRefusals(w, p, a, ns + [n], k) == SettleRefusals(w, p, a, ns, k)
  {
    if k > 0 {
      RefusalsAppend(w, p, a, ns, n, k - 1);
      SettleAppend(w, p, a, ns, n, k - 1);
    }
  }

  /** What the survivors among the first `k` nodes of a batch are refused for. */
  ghost function LateRefusals(w: World, p: Policy, a: Ledger, ns: seq<SyncNode>, now: Option<nat>, k: nat): Refusals
    requires k <= |ns|
  {
    SettleRefusals(w, p, a, Screen(w, a, ns, now, k), |Screen(w, a, ns, now, k)|)
  }

  lemma LateSnoc(w: World, p: Policy, a: Ledger, ns: seq<SyncNode>, now: Option<nat>, i: nat)
    requires i < |ns|
    ensures var n, rs := ns[i], LateRefusals(w, p, a, ns, now, i);
      var e := if Trusted(w, a, n) then PlaceFault(p, IdsOf(BatchTo(w, p, a, ns, now, i).log), n)
               else Some(InvalidSignature);
      LateRefusals(w, p, a, ns, now, i + 1) ==
        if Kept(w, a, ns, i, now) && e.Some? then rs + [(n.id, e.value)] else rs
  {
    var kept := Screen(w, a, ns, now, i);
    RefusalsAppend(w, p, a, kept, ns[i], |kept|);
    SettleAppend(w, p, a, kept, ns[i], |kept|);
    assert kept + [] == kept && LateRefusals(w, p, a, ns, now, i) + [] == LateRefusals(w, p, a, ns, now, i);
  }

  lemma LateReason(w: World, p: Policy, a: Ledger, known: set<Hash>, n: SyncNode, now: Option<nat>, e: SyncError)
    requires CheapFault(w, a.clock, n, now).None?
    requires Some(e) == if Trusted(w, a, n) then PlaceFault(p, known, n) else Some(InvalidSignature)
    ensures Reason(w, p, a, known, n, now, e) && !IsEarly(e)
  {
    CheapFaultIs(w, a.clock, n, now);
    if Trusted(w, a, n) { PlaceReason(w, p, a, known, n, now, e); }
  }

  lemma {:induction false} LateExplained(w: World, p: Policy, a: Ledger, ns: seq<SyncNode>, now: Option<nat>, k: nat)
    requires k <= |ns|
    ensures Explanations(w, p, a, ns, now, LateRefusals(w, p, a, ns, now, k), false, k)
  {
    if k > 0 {
      var i := k - 1;
      var n, rs := ns[i], LateRefusals(w, p, a, ns, now, i);
      var known := IdsOf(BatchTo(w, p, a, ns, now, i).log);
      var e := if Trusted(w, a, n) then PlaceFault(p, known, n) else Some(InvalidSignature);
      LateExplained(w, p, a, ns, now, i);
      LateSnoc(w, p, a, ns, now, i);
      if Kept(w, a, ns, i, now) && e.Some? {
        LateReason(w, p, a, known, n, now, e.value);
        ExplainNext(w, p, a, ns, now, rs, false, i, (n.id, e.value));
      } else {
        ExplainedLater(w, p, a, ns, now, rs, false, i);
      }
    }
  }

  /** Every refusal of a batch names the first node with its id and the first
      check that node fails; those of the checks before the signatures come
      first, and either kind follows the order of the nodes. */
  ghost predicate RefusesRightly(w: World, p: Policy, a: Ledger, ns: seq<SyncNode>, now: Option<nat>,
                                 rejected: Refusals)
  {
    exists m: nat :: m <= |rejected|
      && Explanations(w, p, a, ns, now, rejected[..m], true, |ns|)
      && Explanations(w, p, a, ns, now, rejected[m..], false, |ns|)
  }

  lemma {:induction false} BatchIds(w: World, p: Policy, a: Ledger, ns: seq<SyncNode>, now: Option<nat>, k: nat)
    requires k <= |ns|
    ensures IdsOf(BatchTo(w, p, a, ns, now, k).log) <= IdsOf(a.log) + IdsTo(ns, k)
  {
    if k > 0 {
      BatchIds(w, p, a, ns, now, k - 1);
      BatchSnoc(w, p, a, ns, now, k - 1);
      IdsGrow(ns, k - 1);
      IdsSnoc(BatchTo(w, p, a, ns, now, k - 1).log, ns[k - 1]);
    }
  }

  /** A batch passes over what is stored or repeated; it never reports a duplicate. */
  lemma NeverDuplicate(w: World, p: Policy, a: Ledger, ns: seq<SyncNode>, now: Option<nat>,
                       r: (Hash, SyncError), j: int)
    requires Explains(w, p, a, ns, now, r, j)
    ensures r.1 != DuplicateNode
  {
    BatchIds(w, p, a, ns, now, j);
  }

  lemma BatchRefusesRightly(w: World, p: Policy, a: Ledger, ns: seq<SyncNode>, now: Option<nat>,
                            early: Refusals, late: Refusals)
    requires early == ScreenRefusals(w, a, ns, now, |ns|) && late == LateRefusals(w, p, a, ns, now, |ns|)
    ensures RefusesRightly(w, p, a, ns, now, early + late)
  {
    ScreenExplained(w, p, a, ns, now, |ns|);
    LateExplained(w, p, a, ns, now, |ns|);
    assert (early + late)[..|early|] == early && (early + late)[|early|..] == late;
  }

  /** A batch that ends like this has accounted for every node rightly. */
  lemma BatchReports(w: World, p: Policy, a: Ledger, ns: seq<SyncNode>, now: Option<nat>, kept: seq<SyncNode>,
                     accepted: seq<SyncNode>, early: Refusals, late: Refusals)
    requires kept == Screen(w, a, ns, now, |ns|) && early == ScreenRefusals(w, a, ns, now, |ns|)
    requires accepted == Accepted(w, p, a, kept, |kept|) && late == SettleRefusals(w, p, a, kept, |kept|)
    ensures Batch(w, p, a, ns, now) == Settle(w, p, a, kept, |kept|)
    ensures Batch(w, p, a, ns, now).log == a.log + accepted
    ensures Accounts(accepted, early + late, IdsOf(ns) - IdsOf(a.log))
    ensures RefusesRightly(w, p, a, ns, now, early + late)
  {
    BatchAccounts(w, p, a, ns, now);
    BatchRefusesRightly(w, p, a, ns, now, early, late);
  }

  // Two nodes, the second above the ceiling of an empty graph.
  const FIRST_JUMP := SyncNode(0x100000, Transaction(0, 0x100000, 0, [], []), 0)
  const SECOND_JUMP := SyncNode(0x100001, Transaction(0, 0x100001, 0, [], []), 0)

  /** Above that ceiling the two differ: the batch judges both nodes by the clock
      it started with. */
  lemma BatchCeilingDiffers()
    ensures var w := World((t: Transaction) => t.lamport, (n: SyncNode) => true);
      var a := Ledger([], 0, {});
      && Run(w, OPEN_POLICY, a, [FIRST_JUMP, SECOND_JUMP], None).log == [FIRST_JUMP, SECOND_JUMP]
      && Batch(w, OPEN_POLICY, a, [FIRST_JUMP, SECOND_JUMP], None).log == [FIRST_JUMP]
  {
    var w, a := World((t: Transaction) => t.lamport, (n: SyncNode) => true), Ledger([], 0, {});
    var ns := [FIRST_JUMP, SECOND_JUMP];
    assert FirstMissing({}, [], 0) == None;
    assert RunTo(w, OPEN_POLICY, a, ns, None, 0) == a;
    assert RunTo(w, OPEN_POLICY, a, ns, None, 1) == Place(OPEN_POLICY, a, FIRST_JUMP);
    assert [FIRST_JUMP][0].id in IdsOf([FIRST_JUMP]) && IdsOf([FIRST_JUMP]) == {0x100000};
    assert Screen(w, a, ns, None, 0) == [];
    assert Screen(w, a, ns, None, 1) == [FIRST_JUMP];
    assert Screen(w, a, ns, None, 2) == [FIRST_JUMP];
    assert Settle(w, OPEN_POLICY, a, [FIRST_JUMP], 0) == a;
    assert Settle(w, OPEN_POLICY, a, [FIRST_JUMP], 1) == Place(OPEN_POLICY, a, FIRST_JUMP);
  }

  // A child that comes before its parent and again after it.
  const PARENT := SyncNode(1, Transaction(0, 1, 0, [], []), 0)
  const CHILD := SyncNode(2, Transaction(0, 2, 0, [], [1]), 0)

  /** Sent alone the second copy of the child is admitted; the batch drops it as a
      repeat of the first, whose parent was missing. */
  lemma BatchRepeatDiffers()
    ensures var w := World((t: Transaction) => t.lamport, (n: SyncNode) => true);
      var a := Ledger([], 0, {});
      && Run(w, OPEN_POLICY, a, [CHILD, PARENT, CHILD], None).log == [PARENT, CHILD]
      && Batch(w, OPEN_POLICY, a, [CHILD, PARENT, CHILD], None).log == [PARENT]
  {
    var w, a := World((t: Transaction) => t.lamport, (n: SyncNode) => true), Ledger([], 0, {});
    var ns := [CHILD, PARENT, CHILD];
    PlaceParent();
    var early, late := Place(OPEN_POLICY, a, CHILD), Place(OPEN_POLICY, Place(OPEN_POLICY, a, CHILD), PARENT);
    assert RunTo(w, OPEN_POLICY, a, ns, None, 0) == a;
    assert RunTo(w, OPEN_POLICY, a, ns, None, 1) == early;
    assert RunTo(w, OPEN_POLICY, a, ns, None, 2) == late;
    assert ns[0].id in IdsTo(ns, 2);
    assert Screen(w, a, ns, None, 0) == [];
    assert Screen(w, a, ns, None, 1) == [CHILD];
    assert Screen(w, a, ns, None, 2) == [CHILD, PARENT];
    assert Screen(w, a, ns, None, 3) == [CHILD, PARENT];
    assert Settle(w, OPEN_POLICY, a, [CHILD, PARENT], 0) == a;
    assert Settle(w, OPEN_POLICY, a, [CHILD, PARENT], 1) == early;
    assert Settle(w, OPEN_POLICY, a, [CHILD, PARENT], 2) == late;
  }

  lemma PlaceParent()
    ensures var a := Ledger([], 0, {});
      var early := Place(OPEN_POLICY, a, CHILD);
      var late := Place(OPEN_POLICY, early, PARENT);
      early == Ledger([], 0, {2}) && late == Ledger([PARENT], 1, {2, 1})
      && Place(OPEN_POLICY, late, CHILD).log == [PARENT, CHILD]
  {
    assert FirstMissing({}, [1], 0) == Some(1);
    assert FirstMissing({}, [], 0) == None;
    assert [PARENT][0].id in IdsOf([PARENT]) && IdsOf([PARENT]) == {1};
    assert FirstMissing({1}, [1], 0) == None;
  }
}
