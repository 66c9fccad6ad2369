/** The last-writer-wins map caches: incrementally kept winners, and the full
    replay they must equal (core/crdt/src/graph.rs). */
module MapView {
  import opened Core
  import opened Nodes

  /** The winning write of a key; `None` is a tombstone that still holds the slot. */
  datatype Winner = Winner(prio: OpId, value: Option<Bytes>, isBlob: bool)
  type Winners = map<string, Winner>

  function Written(prio: OpId, m: MapOp): Winner {
    match m
    case Set(_, v) => Winner(prio, Some(v), false)
    case Unset(_) => Winner(prio, None, false)
    case SetBlob(_, b) => Winner(prio, Some(HashBytes(b)), true)
  }

  /** Strictly greater priority replaces; an absent key is taken. */
  function LwwUpdate(cache: Winners, key: string, c: Winner): Winners {
    if key in cache && !Less(cache[key].prio, c.prio) then cache else cache[key := c]
  }

  function FoldOp(cache: Winners, prio: OpId, op: Op): Winners {
    if op.OnMap? then LwwUpdate(cache, op.m.key, Written(prio, op.m)) else cache
  }

  function FoldOps(cache: Winners, prio: OpId, ops: seq<Op>): Winners {
    if ops == [] then cache else
      var n := |ops| - 1;
      FoldOp(FoldOps(cache, prio, ops[..n]), prio, ops[n])
  }

  /** One admitted node folded into a cache; the zero priority is skipped. */
  function FoldNode(cache: Winners, n: SyncNode): Winners {
    if n.Priority() == ZERO_PRIORITY then cache else FoldOps(cache, n.Priority(), n.tx.ops)
  }

  /** The cache after admitting nodes in order. */
  function FoldNodes(nodes: seq<SyncNode>): Winners {
    FoldTo(nodes, |nodes|)
  }

  function FoldTo(nodes: seq<SyncNode>, k: nat): Winners
    requires k <= |nodes|
  {
    if k == 0 then map[] else FoldNode(FoldTo(nodes, k - 1), nodes[k - 1])
  }

  lemma {:induction false} FoldTake(nodes: seq<SyncNode>, n: nat, k: nat)
    requires k <= n <= |nodes|
    ensures FoldTo(nodes[..n], k) == FoldTo(nodes, k)
  {
    if k > 0 { FoldTake(nodes, n, k - 1); }
  }

  lemma FoldLast(nodes: seq<SyncNode>)
    requires nodes != []
    ensures FoldNodes(nodes) == FoldNode(FoldNodes(nodes[..|nodes| - 1]), nodes[|nodes| - 1])
  {
    FoldTake(nodes, |nodes| - 1, |nodes| - 1);
  }

  lemma FoldSnoc(nodes: seq<SyncNode>, n: SyncNode)
    ensures FoldNodes(nodes + [n]) == FoldNode(FoldNodes(nodes), n)
  {
    FoldLast(nodes + [n]);
    assert (nodes + [n])[..|nodes|] == nodes;
  }

  // ----- The declarative winner -----

  ghost predicate WritesAt(ops: seq<Op>, k: string, i: int) {
    0 <= i < |ops| && ops[i].OnMap? && ops[i].m.key == k
  }

  ghost predicate FirstWriteAt(ops: seq<Op>, k: string, i: int) {
    WritesAt(ops, k, i) && forall j :: 0 <= j < i ==> !WritesAt(ops, k, j)
  }

  ghost predicate Touches(n: SyncNode, k: string) {
    n.Priority() != ZERO_PRIORITY && exists i :: WritesAt(n.tx.ops, k, i)
  }

  /** `w` is what the first write of `n` to `k` left. */
  ghost predicate WriteOf(n: SyncNode, k: string, w: Winner) {
    && n.Priority() != ZERO_PRIORITY
    && exists i :: FirstWriteAt(n.tx.ops, k, i) && w == Written(n.Priority(), n.tx.ops[i].m)
  }

  /** `cache[k]` is the first write of a node of greatest priority among those
      that write `k`, tombstones included. */
  ghost predicate WinnerAt(cache: Winners, nodes: seq<SyncNode>, k: string) {
    && (k in cache <==> exists j :: 0 <= j < |nodes| && Touches(nodes[j], k))
    && (k in cache ==>
          && (exists j :: 0 <= j < |nodes| && WriteOf(nodes[j], k, cache[k]))
          && forall j :: 0 <= j < |nodes| && Touches(nodes[j], k) ==> LessEq(nodes[j].Priority(), cache[k].prio))
  }

  // ----- Folding one node -----

  /** After the operations of one node: the old winner, unless the node writes
      the key and outranks it; then its first write. */
  ghost predicate OpsEffect(before: Winners, after: Winners, prio: OpId, ops: seq<Op>, k: string) {
    if (exists i :: WritesAt(ops, k, i)) && (k in before ==> Less(before[k].prio, prio))
    then k in after && exists i :: FirstWriteAt(ops, k, i) && after[k] == Written(prio, ops[i].m)
    else (k in after <==> k in before) && (k in before ==> after[k] == before[k])
  }

  /** A write among the earlier operations is one of all, and first of all when first of those. */
  lemma WriteInit(init: seq<Op>, op: Op, k: string, i: int)
    requires WritesAt(init, k, i)
    ensures WritesAt(init + [op], k, i) && (init + [op])[i] == init[i]
    ensures FirstWriteAt(init, k, i) ==> FirstWriteAt(init + [op], k, i)
  {
    forall j | 0 <= j < i && WritesAt(init + [op], k, j) ensures WritesAt(init, k, j) { }
  }

  /** With no write before it, only the last operation can write. */
  lemma WriteLast(init: seq<Op>, op: Op, k: string)
    requires forall i :: !WritesAt(init, k, i)
    ensures forall j :: WritesAt(init + [op], k, j) ==> j == |init|
    ensures WritesAt(init + [op], k, |init|) ==> FirstWriteAt(init + [op], k, |init|)
  {
    forall j | WritesAt(init + [op], k, j) ensures j == |init| {
      assert j < |init| ==> WritesAt(init, k, j);
    }
  }

  /** One more operation of a node that already wrote the key changes nothing at it. */
  lemma LaterWrite(before: Winners, mid: Winners, prio: OpId, init: seq<Op>, op: Op, k: string)
    requires OpsEffect(before, mid, prio, init, k) && exists i :: WritesAt(init, k, i)
    ensures OpsEffect(before, FoldOp(mid, prio, op), prio, init + [op], k)
  {
    var i :| WritesAt(init, k, i);
    WriteInit(init, op, k, i);
    if k in before ==> Less(before[k].prio, prio) {
      var f :| FirstWriteAt(init, k, f) && mid[k] == Written(prio, init[f].m);
      WriteInit(init, op, k, f);
    }
  }

  lemma FirstWrite(before: Winners, mid: Winners, prio: OpId, init: seq<Op>, op: Op, k: string)
    requires OpsEffect(before, mid, prio, init, k) && forall i :: !WritesAt(init, k, i)
    ensures OpsEffect(before, FoldOp(mid, prio, op), prio, init + [op], k)
  {
    WriteLast(init, op, k);
    assert (init + [op])[|init|] == op;
  }

  lemma {:induction false} FoldOpsEffect(cache: Winners, prio: OpId, ops: seq<Op>, k: string)
    ensures OpsEffect(cache, FoldOps(cache, prio, ops), prio, ops, k)
  {
    if ops == [] {
      assert forall i :: !WritesAt(ops, k, i);
    } else {
      var n := |ops| - 1;
      var init, mid := ops[..n], FoldOps(cache, prio, ops[..n]);
      FoldOpsEffect(cache, prio, init, k);
      if exists i :: WritesAt(init, k, i) {
        LaterWrite(cache, mid, prio, init, ops[n], k);
      } else {
        FirstWrite(cache, mid, prio, init, ops[n], k);
      }
      assert ops == init + [ops[n]];
    }
  }

  lemma {:induction false} FoldNodesWins(nodes: seq<SyncNode>, k: string)
    ensures WinnerAt(FoldNodes(nodes), nodes, k)
  {
    if nodes != [] {
      var i := |nodes| - 1;
      var init, n := nodes[..i], nodes[i];
      FoldNodesWins(init, k);
      FoldLast(nodes);
      FoldOpsEffect(FoldNodes(init), n.Priority(), n.tx.ops, k);
      WinnerStep(FoldNodes(init), FoldNodes(nodes), init, n, k);
      assert nodes == init + [n];
    }
  }

  lemma WinnerStep(before: Winners, after: Winners, nodes: seq<SyncNode>, n: SyncNode, k: string)
    requires WinnerAt(before, nodes, k)
    requires if n.Priority() == ZERO_PRIORITY then after == before
      else OpsEffect(before, after, n.Priority(), n.tx.ops, k)
    ensures WinnerAt(after, nodes + [n], k)
  {
    TouchedStep(nodes, n, k);
    if Touches(n, k) && (k in before ==> Less(before[k].prio, n.Priority())) {
      NewWinner(before, after, nodes, n, k);
    } else if k in before {
      OldWinner(before, after, nodes, n, k);
    }
  }

  lemma TouchedStep(nodes: seq<SyncNode>, n: SyncNode, k: string)
    ensures (exists j :: 0 <= j < |nodes + [n]| && Touches((nodes + [n])[j], k))
      <==> (exists j :: 0 <= j < |nodes| && Touches(nodes[j], k)) || Touches(n, k)
  {
    var all := nodes + [n];
    if j :| 0 <= j < |nodes| && Touches(nodes[j], k) { assert Touches(all[j], k); }
    if Touches(n, k) { assert Touches(all[|nodes|], k); }
  }

  lemma NewWinner(before: Winners, after: Winners, nodes: seq<SyncNode>, n: SyncNode, k: string)
    requires WinnerAt(before, nodes, k) && Touches(n, k) && (k in before ==> Less(before[k].prio, n.Priority()))
    requires k in after && WriteOf(n, k, after[k])
    ensures WinnerAt(after, nodes + [n], k)
  {
    var all := nodes + [n];
    TouchedStep(nodes, n, k);
    assert WriteOf(all[|nodes|], k, after[k]);
    forall j | 0 <= j < |all| && Touches(all[j], k) ensures LessEq(all[j].Priority(), after[k].prio) {
      assert j < |nodes| ==> all[j] == nodes[j];
    }
  }

  lemma OldWinner(before: Winners, after: Winners, nodes: seq<SyncNode>, n: SyncNode, k: string)
    requires WinnerAt(before, nodes, k) && k in before && k in after && after[k] == before[k]
    requires Touches(n, k) ==> LessEq(n.Priority(), before[k].prio)
    ensures WinnerAt(after, nodes + [n], k)
  {
    var all := nodes + [n];
    TouchedStep(nodes, n, k);
    var i :| 0 <= i < |nodes| && WriteOf(nodes[i], k, before[k]);
    assert WriteOf(all[i], k, after[k]);
    forall j | 0 <= j < |all| && Touches(all[j], k) ensures LessEq(all[j].Priority(), after[k].prio) {
      assert j < |nodes| ==> all[j] == nodes[j];
    }
  }

  // ----- Order independence -----

  /** `n` has the greatest priority among the nodes that write `k`. */
  ghost predicate TopWriter(all: set<SyncNode>, k: string, n: SyncNode) {
    n in all && Touches(n, k) && forall m :: m in all && Touches(m, k) ==> LessEq(m.Priority(), n.Priority())
  }

  ghost predicate TopWrite(all: set<SyncNode>, k: string, n: SyncNode, w: Winner) {
    TopWriter(all, k, n) && WriteOf(n, k, w)
  }

  /** All nodes of greatest priority among those that write `k` leave the same. */
  ghost predicate TiesAgree(all: set<SyncNode>, k: string) {
    forall n, n', w, w' :: TopWrite(all, k, n, w) && TopWrite(all, k, n', w') ==> w == w'
  }

  lemma DistinctTiesAgree(nodes: seq<SyncNode>, k: string)
    requires DistinctPriorities(nodes)
    ensures TiesAgree(Elements(nodes), k)
  {
    var all := Elements(nodes);
    forall n, n', w, w' | TopWrite(all, k, n, w) && TopWrite(all, k, n', w') ensures w == w' {
      assert n.Priority() == n'.Priority();
      var i :| 0 <= i < |nodes| && nodes[i] == n;
      var j :| 0 <= j < |nodes| && nodes[j] == n';
      assert nodes[i] == nodes[j];
    }
  }

  /** Where ties agree the winner is a function of the node set. */
  lemma WinnerUnique(cache: Winners, cache': Winners, nodes: seq<SyncNode>, nodes': seq<SyncNode>, k: string)
    requires WinnerAt(cache, nodes, k) && WinnerAt(cache', nodes', k)
    requires Elements(nodes) == Elements(nodes') && TiesAgree(Elements(nodes), k)
    ensures k in cache <==> k in cache'
    ensures k in cache ==> cache[k] == cache'[k]
  {
    TouchedBoth(nodes, nodes', k);
    TouchedBoth(nodes', nodes, k);
    if k in cache {
      var n := WinnerIsTop(cache, nodes, k);
      var n' := WinnerIsTop(cache', nodes', k);
    }
  }

  lemma WinnerIsTop(cache: Winners, nodes: seq<SyncNode>, k: string) returns (n: SyncNode)
    requires WinnerAt(cache, nodes, k) && k in cache
    ensures TopWrite(Elements(nodes), k, n, cache[k])
  {
    var i :| 0 <= i < |nodes| && WriteOf(nodes[i], k, cache[k]);
    n := nodes[i];
    forall m | m in Elements(nodes) && Touches(m, k) ensures LessEq(m.Priority(), n.Priority()) {
      var j :| 0 <= j < |nodes| && nodes[j] == m;
    }
  }

  lemma TouchedBoth(nodes: seq<SyncNode>, nodes': seq<SyncNode>, k: string)
    requires Elements(nodes) == Elements(nodes')
    ensures (exists j :: 0 <= j < |nodes| && Touches(nodes[j], k)) ==>
      (exists j :: 0 <= j < |nodes'| && Touches(nodes'[j], k))
  {
    if j :| 0 <= j < |nodes| && Touches(nodes[j], k) {
      assert nodes[j] in Elements(nodes');
      var i :| 0 <= i < |nodes'| && nodes'[i] == nodes[j];
    }
  }

  lemma TiesOrderIrrelevant(nodes: seq<SyncNode>, nodes': seq<SyncNode>)
    requires Elements(nodes) == Elements(nodes') && forall k :: TiesAgree(Elements(nodes), k)
    ensures FoldNodes(nodes) == FoldNodes(nodes')
  {
    forall k ensures (k in FoldNodes(nodes) <==> k in FoldNodes(nodes'))
                  && (k in FoldNodes(nodes) ==> FoldNodes(nodes)[k] == FoldNodes(nodes')[k])
    {
      FoldNodesWins(nodes, k);
      FoldNodesWins(nodes', k);
      WinnerUnique(FoldNodes(nodes), FoldNodes(nodes'), nodes, nodes', k);
    }
  }

  /** Any two admission orders of the same nodes give the same cache, when no two
      nodes share a priority. */
  lemma OrderIrrelevant(nodes: seq<SyncNode>, nodes': seq<SyncNode>)
    requires Elements(nodes) == Elements(nodes') && DistinctPriorities(nodes)
    ensures FoldNodes(nodes) == FoldNodes(nodes')
  {
    forall k ensures TiesAgree(Elements(nodes), k) { DistinctTiesAgree(nodes, k); }
    TiesOrderIrrelevant(nodes, nodes');
  }

  /** Of the nodes of greatest priority the first one admitted wins. */
  lemma {:induction false} FrontWins(n: SyncNode, rest: seq<SyncNode>, k: string, w: Winner, t: nat)
    requires t <= |rest| && WriteOf(n, k, w)
    requires forall j :: 0 <= j < |rest| && Touches(rest[j], k) ==> LessEq(rest[j].Priority(), n.Priority())
    ensures var cache := FoldTo([n] + rest, 1 + t); k in cache && cache[k] == w
  {
    var all := [n] + rest;
    if t == 0 {
      assert FoldTo(all, 0) == map[] && all[0] == n;
      FoldOpsEffect(map[], n.Priority(), n.tx.ops, k);
      var i :| FirstWriteAt(n.tx.ops, k, i) && w == Written(n.Priority(), n.tx.ops[i].m);
      ShownAfter(map[], n.Priority(), n.tx.ops, k);
    } else {
      FrontWins(n, rest, k, w, t - 1);
      var m := rest[t - 1];
      assert all[t] == m;
      FoldOpsEffect(FoldTo(all, t), m.Priority(), m.tx.ops, k);
    }
  }

  lemma FrontOrder(nodes: seq<SyncNode>, n: SyncNode, k: string, w: Winner) returns (order: seq<SyncNode>)
    requires TopWrite(Elements(nodes), k, n, w)
    ensures multiset(order) == multiset(nodes) && k in FoldNodes(order) && FoldNodes(order)[k] == w
  {
    var i :| 0 <= i < |nodes| && nodes[i] == n;
    var rest := RemoveAt(nodes, i);
    order := [n] + rest;
    FrontMultiset(nodes, i);
    SameMembers(order, nodes);
    forall j | 0 <= j < |rest| && Touches(rest[j], k) ensures LessEq(rest[j].Priority(), n.Priority()) {
      assert order[j + 1] in Elements(order);
    }
    FrontWins(n, rest, k, w, |rest|);
  }

  /** Order independence, exactly: all admission orders of a log give the same cache
      if and only if, for every key, the nodes of greatest priority that write it
      leave the same. */
  lemma OrderIrrelevantIff(nodes: seq<SyncNode>)
    ensures (forall order :: multiset(order) == multiset(nodes) ==> FoldNodes(order) == FoldNodes(nodes))
       <==> (forall k :: TiesAgree(Elements(nodes), k))
  {
    var all := Elements(nodes);
    if forall order :: multiset(order) == multiset(nodes) ==> FoldNodes(order) == FoldNodes(nodes) {
      forall k, n, n', w, w' | TopWrite(all, k, n, w) && TopWrite(all, k, n', w') ensures w == w' {
        var order := FrontOrder(nodes, n, k, w);
        var order' := FrontOrder(nodes, n', k, w');
      }
    }
    if forall k :: TiesAgree(all, k) {
      forall order | multiset(order) == multiset(nodes) ensures FoldNodes(order) == FoldNodes(nodes) {
        SameMembers(order, nodes);
        TiesOrderIrrelevant(order, nodes);
      }
    }
  }

  // ----- Reads and the replay oracle -----

  /** The resolved map: winning values, tombstones hidden. */
  function Resolve(cache: Winners): map<string, Bytes> {
    map k | k in cache && cache[k].value.Some? :: cache[k].value.value
  }

  /** Of the first `t` nodes that write `k`, node `j` has the greatest priority and
      is the first that has it. */
  ghost predicate Decides(nodes: seq<SyncNode>, t: nat, k: string, j: int)
    requires t <= |nodes|
  {
    && 0 <= j < t && Touches(nodes[j], k)
    && (forall i :: 0 <= i < t && Touches(nodes[i], k) ==> LessEq(nodes[i].Priority(), nodes[j].Priority()))
    && (forall i :: 0 <= i < j && Touches(nodes[i], k) ==> Less(nodes[i].Priority(), nodes[j].Priority()))
  }

  lemma DeciderStep(nodes: seq<SyncNode>, k: string, t: nat, before: Option<int>) returns (j: Option<int>)
    requires t < |nodes| && (before.Some? <==> k in FoldTo(nodes, t))
    requires before.None? ==> forall i :: 0 <= i < t ==> !Touches(nodes[i], k)
    requires before.Some? ==>
      Decides(nodes, t, k, before.value) && WriteOf(nodes[before.value], k, FoldTo(nodes, t)[k])
    ensures j.Some? <==> k in FoldTo(nodes, t + 1)
    ensures j.None? ==> forall i :: 0 <= i < t + 1 ==> !Touches(nodes[i], k)
    ensures j.Some? ==> Decides(nodes, t + 1, k, j.value) && WriteOf(nodes[j.value], k, FoldTo(nodes, t + 1)[k])
  {
    var n := nodes[t];
    FoldOpsEffect(FoldTo(nodes, t), n.Priority(), n.tx.ops, k);
    j := if Touches(n, k) && (before.Some? ==> Less(nodes[before.value].Priority(), n.Priority())) then Some(t)
         else before;
  }

  lemma {:induction false} Decider(nodes: seq<SyncNode>, k: string, t: nat) returns (j: Option<int>)
    requires t <= |nodes|
    ensures j.Some? <==> k in FoldTo(nodes, t)
    ensures j.None? ==> forall i :: 0 <= i < t ==> !Touches(nodes[i], k)
    ensures j.Some? ==> Decides(nodes, t, k, j.value) && WriteOf(nodes[j.value], k, FoldTo(nodes, t)[k])
  {
    if t == 0 {
      j := None;
    } else {
      var before := Decider(nodes, k, t - 1);
      j := DeciderStep(nodes, k, t - 1, before);
    }
  }

  /** What a first write to `k` makes a reader see. */
  ghost predicate Answers(cache: Winners, k: string, m: MapOp) {
    var r := Resolve(cache);
    && k in cache
    && match m
       case Set(_, v) => k in r && r[k] == v && !cache[k].isBlob
       case Unset(_) => k !in r
       case SetBlob(_, b) => k in r && r[k] == HashBytes(b) && cache[k].isBlob
  }

  lemma Answered(cache: Winners, n: SyncNode, k: string, i: int)
    requires k in cache && WriteOf(n, k, cache[k]) && FirstWriteAt(n.tx.ops, k, i)
    ensures Answers(cache, k, n.tx.ops[i].m)
  {
    var j :| FirstWriteAt(n.tx.ops, k, j) && cache[k] == Written(n.Priority(), n.tx.ops[j].m);
    FirstWriteUnique(n.tx.ops, k, i, j);
  }

  /** A key reads as the first write to it of the node that decides it: its value,
      the hash of its blob, or nothing if it is removed there or written nowhere. */
  lemma ResolveMeans(nodes: seq<SyncNode>, k: string)
    ensures forall j, i :: Decides(nodes, |nodes|, k, j) && FirstWriteAt(nodes[j].tx.ops, k, i) ==>
      Answers(FoldNodes(nodes), k, nodes[j].tx.ops[i].m)
    ensures k in Resolve(FoldNodes(nodes)) <==>
      exists j, i ::
        Decides(nodes, |nodes|, k, j) && FirstWriteAt(nodes[j].tx.ops, k, i) && !nodes[j].tx.ops[i].m.Unset?
  {
    var d := Decider(nodes, k, |nodes|);
    forall j, i | Decides(nodes, |nodes|, k, j) && FirstWriteAt(nodes[j].tx.ops, k, i)
      ensures Answers(FoldNodes(nodes), k, nodes[j].tx.ops[i].m)
    {
      assert d.Some? && d.value == j;
      Answered(FoldNodes(nodes), nodes[j], k, i);
    }
    if d.Some? {
      var j := d.value;
      var i :| FirstWriteAt(nodes[j].tx.ops, k, i);
      assert Decides(nodes, |nodes|, k, j) && FirstWriteAt(nodes[j].tx.ops, k, i);
    }
  }

  /** One node of the scan: a strictly greater write replaces. */
  method ScanNode(table: Winners, n: SyncNode, ghost cache: Winners) returns (perKey: Winners)
    requires Scanned(table, cache)
    ensures Scanned(perKey, FoldNode(cache, n))
  {
    perKey := table;
    var prio, ops := n.Priority(), n.tx.ops;
    for j := 0 to |ops|
      invariant Scanned(perKey, if prio == ZERO_PRIORITY then cache else FoldOps(cache, prio, ops[..j]))
    {
      assert ops[..j + 1][..j] == ops[..j] && ops[..j + 1][j] == ops[j];
      if ops[j].OnMap? {
        ScannedWrite(perKey, if prio == ZERO_PRIORITY then cache else FoldOps(cache, prio, ops[..j]), prio, ops[j].m);
        perKey := Scan(perKey, prio, ops[j].m);
      }
    }
    assert ops[..|ops|] == ops;
  }

  /** One write of the scan; a key starts from the zero priority. */
  function Scan(perKey: Winners, prio: OpId, m: MapOp): Winners {
    var entry := if m.key in perKey then perKey[m.key] else Winner(ZERO_PRIORITY, None, false);
    perKey[m.key := if Less(entry.prio, prio) then Written(prio, m) else entry]
  }

  lemma ScannedWrite(perKey: Winners, cache: Winners, prio: OpId, m: MapOp)
    requires Scanned(perKey, cache)
    ensures Scanned(Scan(perKey, prio, m),
                    if prio == ZERO_PRIORITY then cache else LwwUpdate(cache, m.key, Written(prio, m)))
  {
  }

  /** The full-replay scan kept as the oracle: every key starts from the zero
      priority, and a strictly greater write replaces. */
  method ResolveReplay(nodes: seq<SyncNode>) returns (r: map<string, Bytes>)
    ensures r == Resolve(FoldNodes(nodes))
  {
    var perKey: Winners := map[];
    for i := 0 to |nodes|
      invariant Scanned(perKey, FoldNodes(nodes[..i]))
    {
      assert nodes[..i + 1][..i] == nodes[..i] && nodes[..i + 1][i] == nodes[i];
      FoldLast(nodes[..i + 1]);
      perKey := ScanNode(perKey, nodes[i], FoldNodes(nodes[..i]));
    }
    assert nodes[..|nodes|] == nodes;
    r := Resolve(perKey);
  }

  /** The scan's table: the cache, plus placeholders no write has replaced. */
  ghost predicate Scanned(perKey: Winners, cache: Winners) {
    && (forall k :: k in cache ==> k in perKey && perKey[k] == cache[k] && Less(ZERO_PRIORITY, cache[k].prio))
    && (forall k :: k in perKey && k !in cache ==> perKey[k] == Winner(ZERO_PRIORITY, None, false))
  }

  // ----- Grouping writes into nodes -----

  /** What a key shows; an absent key and a tombstone show nothing. */
  ghost function Shown(cache: Winners, k: string): Option<Bytes> {
    if k in cache then cache[k].value else None
  }

  lemma ResolveIsShown(c: Winners, d: Winners)
    ensures Resolve(c) == Resolve(d) <==> forall k :: Shown(c, k) == Shown(d, k)
  {
    if Resolve(c) == Resolve(d) {
      forall k ensures Shown(c, k) == Shown(d, k) {
        assert k in Resolve(c) <==> Shown(c, k).Some?;
        assert k in Resolve(d) <==> Shown(d, k).Some?;
      }
    }
    if forall k :: Shown(c, k) == Shown(d, k) {
      forall k ensures k in Resolve(c) <==> k in Resolve(d) { assert Shown(c, k) == Shown(d, k); }
      forall k | k in Resolve(c) ensures Resolve(c)[k] == Resolve(d)[k] { assert Shown(c, k) == Shown(d, k); }
    }
  }

  /** What a write leaves at its key. */
  ghost function Leaves(m: MapOp): Option<Bytes> {
    Written(ZERO_PRIORITY, m).value
  }

  ghost predicate Outranked(cache: Winners, prio: OpId) {
    forall k :: k in cache ==> Less(cache[k].prio, prio)
  }

  /** The first writes of `a` and `b` to `k`, if both have one, leave the same. */
  ghost predicate Agree(a: seq<Op>, b: seq<Op>, k: string) {
    forall i, j :: FirstWriteAt(a, k, i) && FirstWriteAt(b, k, j) ==> Leaves(a[i].m) == Leaves(b[j].m)
  }

  lemma FirstWriteUnique(ops: seq<Op>, k: string, i: int, j: int)
    requires FirstWriteAt(ops, k, i) && FirstWriteAt(ops, k, j)
    ensures i == j
  {
  }

  lemma FirstWriteConcat(a: seq<Op>, b: seq<Op>, k: string, i: int)
    ensures FirstWriteAt(a, k, i) ==> FirstWriteAt(a + b, k, i) && (a + b)[i] == a[i]
    ensures FirstWriteAt(b, k, i) && (forall j :: !WritesAt(a, k, j)) ==>
      FirstWriteAt(a + b, k, |a| + i) && (a + b)[|a| + i] == b[i]
  {
    forall j | 0 <= j < |a| ensures WritesAt(a + b, k, j) <==> WritesAt(a, k, j) { }
    forall j | |a| <= j < |a + b| ensures WritesAt(a + b, k, j) <==> WritesAt(b, k, j - |a|) { }
  }

  /** What an outranking node makes a key show. */
  lemma ShownAfter(cache: Winners, prio: OpId, ops: seq<Op>, k: string)
    requires k in cache ==> Less(cache[k].prio, prio)
    ensures forall i :: FirstWriteAt(ops, k, i) ==>
      k in FoldOps(cache, prio, ops) && FoldOps(cache, prio, ops)[k] == Written(prio, ops[i].m)
    ensures (forall i :: !WritesAt(ops, k, i)) ==> LeftAlone(cache, FoldOps(cache, prio, ops), k)
    ensures (exists i :: WritesAt(ops, k, i)) ==> exists i :: FirstWriteAt(ops, k, i)
  {
    FoldOpsEffect(cache, prio, ops, k);
    forall i | FirstWriteAt(ops, k, i)
      ensures k in FoldOps(cache, prio, ops) && FoldOps(cache, prio, ops)[k] == Written(prio, ops[i].m)
    {
      var j :| FirstWriteAt(ops, k, j) && FoldOps(cache, prio, ops)[k] == Written(prio, ops[j].m);
      FirstWriteUnique(ops, k, i, j);
    }
  }

  ghost predicate LeftAlone(cache: Winners, cache': Winners, k: string) {
    (k in cache <==> k in cache') && (k in cache ==> cache[k] == cache'[k])
  }

  /** One key: two nodes with `a` and `b` against one node with both. */
  lemma GroupingAt(cache: Winners, pa: OpId, pb: OpId, pc: OpId, a: seq<Op>, b: seq<Op>, k: string)
    requires k in cache ==> Less(cache[k].prio, pa) && Less(cache[k].prio, pc)
    requires Less(pa, pb)
    ensures Shown(FoldOps(FoldOps(cache, pa, a), pb, b), k) == Shown(FoldOps(cache, pc, a + b), k) <==> Agree(a, b, k)
  {
    var mid, one := FoldOps(cache, pa, a), FoldOps(cache, pc, a + b);
    ShownAfter(cache, pa, a, k);
    ShownAfter(mid, pb, b, k);
    ShownAfter(cache, pc, a + b, k);
    if i :| WritesAt(a, k, i) {
      var f :| FirstWriteAt(a, k, f);
      FirstWriteConcat(a, b, k, f);
      if j :| WritesAt(b, k, j) {
        var e :| FirstWriteAt(b, k, e);
        GroupingClash(a, b, k, f, e);
      }
    } else if j :| WritesAt(b, k, j) {
      var e :| FirstWriteAt(b, k, e);
      FirstWriteConcat(a, b, k, e);
    } else {
      forall j ensures !WritesAt(a + b, k, j) {
        assert WritesAt(a + b, k, j) ==> WritesAt(a, k, j) || WritesAt(b, k, j - |a|);
      }
    }
  }

  lemma GroupingClash(a: seq<Op>, b: seq<Op>, k: string, i: int, j: int)
    requires FirstWriteAt(a, k, i) && FirstWriteAt(b, k, j)
    ensures Agree(a, b, k) <==> Leaves(a[i].m) == Leaves(b[j].m)
  {
    forall i', j' | FirstWriteAt(a, k, i') && FirstWriteAt(b, k, j') ensures i' == i && j' == j {
      FirstWriteUnique(a, k, i, i');
      FirstWriteUnique(b, k, j, j');
    }
  }

  lemma WinnersOutranked(nodes: seq<SyncNode>, prio: OpId)
    requires forall i :: 0 <= i < |nodes| ==> Less(nodes[i].Priority(), prio)
    ensures Outranked(FoldNodes(nodes), prio)
  {
    forall k | k in FoldNodes(nodes) ensures Less(FoldNodes(nodes)[k].prio, prio) {
      FoldNodesWins(nodes, k);
      var j :| 0 <= j < |nodes| && WriteOf(nodes[j], k, FoldNodes(nodes)[k]);
    }
  }

  /** Grouping, exactly: on top of a log they outrank, two nodes resolve to what
      one node with the operations of both does if and only if, for every key
      that both write, their first writes leave the same. */
  lemma GroupingIff(nodes: seq<SyncNode>, a: SyncNode, b: SyncNode, c: SyncNode)
    requires c.tx.ops == a.tx.ops + b.tx.ops && Less(a.Priority(), b.Priority())
    requires Less(ZERO_PRIORITY, a.Priority()) && Less(ZERO_PRIORITY, c.Priority())
    requires forall i :: 0 <= i < |nodes| ==>
      Less(nodes[i].Priority(), a.Priority()) && Less(nodes[i].Priority(), c.Priority())
    ensures Resolve(FoldNodes(nodes + [a] + [b])) == Resolve(FoldNodes(nodes + [c]))
       <==> forall k :: Agree(a.tx.ops, b.tx.ops, k)
  {
    var cache := FoldNodes(nodes);
    WinnersOutranked(nodes, a.Priority());
    WinnersOutranked(nodes, c.Priority());
    FoldSnoc(nodes, a);
    FoldSnoc(nodes + [a], b);
    FoldSnoc(nodes, c);
    var two, one := FoldNodes(nodes + [a] + [b]), FoldNodes(nodes + [c]);
    forall k ensures Shown(two, k) == Shown(one, k) <==> Agree(a.tx.ops, b.tx.ops, k) {
      GroupingAt(cache, a.Priority(), b.Priority(), c.Priority(), a.tx.ops, b.tx.ops, k);
    }
    ResolveIsShown(two, one);
  }

  /** Two writes of different values to one key: apart the second wins, in one
      node the first. */
  lemma GroupingDiffers(author: Author, k: string, v: Bytes, v': Bytes)
    requires v != v'
    ensures var a := SyncNode(0, Transaction(author, 1, 0, [OnMap(Set(k, v))], []), 0);
      var b := SyncNode(1, Transaction(author, 2, 0, [OnMap(Set(k, v'))], []), 0);
      var c := SyncNode(2, Transaction(author, 1, 0, [OnMap(Set(k, v)), OnMap(Set(k, v'))], []), 0);
      Resolve(FoldNodes([a, b])) != Resolve(FoldNodes([c]))
  {
    var a := SyncNode(0, Transaction(author, 1, 0, [OnMap(Set(k, v))], []), 0);
    var b := SyncNode(1, Transaction(author, 2, 0, [OnMap(Set(k, v'))], []), 0);
    var c := SyncNode(2, Transaction(author, 1, 0, [OnMap(Set(k, v)), OnMap(Set(k, v'))], []), 0);
    var none: seq<SyncNode> := [];
    GroupingIff(none, a, b, c);
    assert none + [a] + [b] == [a, b] && none + [c] == [c];
    assert FirstWriteAt(a.tx.ops, k, 0) && FirstWriteAt(b.tx.ops, k, 0);
    assert !Agree(a.tx.ops, b.tx.ops, k);
  }
}
