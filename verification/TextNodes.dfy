/** The full text replay over nodes, kept as the oracle of the live projections
    (core/crdt/src/text.rs, `resolve_text_seq`). */
module TextNodes {
  import opened Core
  import opened Nodes
  import opened Views
  import opened TextHistory
  import opened TextBytes
  import opened PositionIndex
  import TextReplay
  import P = TextProjection

  // ----- The replay order -----

  /** Ascending lamport, author and id. */
  predicate KeyLessEq(a: SyncNode, b: SyncNode) {
    Less(a.Priority(), b.Priority()) || (a.Priority() == b.Priority() && a.id <= b.id)
  }

  ghost predicate InKeyOrder(a: SyncNode, b: SyncNode) {
    || a.tx.lamport < b.tx.lamport || (a.tx.lamport == b.tx.lamport && a.tx.author < b.tx.author)
    || (a.tx.lamport == b.tx.lamport && a.tx.author == b.tx.author && a.id <= b.id)
  }

  ghost predicate KeySorted(s: seq<SyncNode>) {
    forall i, j :: 0 <= i < j < |s| ==> KeyLessEq(s[i], s[j])
  }

  lemma KeyInsert(r: seq<SyncNode>, i: nat, n: SyncNode)
    requires KeySorted(r) && i <= |r|
    requires (forall j :: 0 <= j < i ==> KeyLessEq(r[j], n)) && (i < |r| ==> KeyLessEq(n, r[i]))
    ensures KeySorted(InsertAt(r, i, n))
  {
    var t := InsertAt(r, i, n);
    forall a, b | 0 <= a < b < |t| ensures KeyLessEq(t[a], t[b]) {
      if a == i && b > i + 1 {
        KeyTransitive(n, r[i], r[b - 1]);
      } else if a != i && b != i {
        assert t[a] == r[if a < i then a else a - 1] && t[b] == r[if b < i then b else b - 1];
      }
    }
  }

  lemma KeyTransitive(a: SyncNode, b: SyncNode, c: SyncNode)
    requires KeyLessEq(a, b) && KeyLessEq(b, c)
    ensures KeyLessEq(a, c)
  {
  }

  // ----- What a sequence of nodes says to one projection -----

  function ScriptTo(nodes: seq<SyncNode>, k: string, i: nat): seq<Update>
    requires i <= |nodes|
  {
    if i == 0 then [] else ScriptTo(nodes, k, i - 1) + UpdatesIn(nodes[i - 1], k)
  }

  /** The updates for key `k`, node by node. */
  function Script(nodes: seq<SyncNode>, k: string): seq<Update> {
    ScriptTo(nodes, k, |nodes|)
  }

  lemma {:induction false} ScriptTells(nodes: seq<SyncNode>, k: string, i: nat)
    requires i <= |nodes|
    ensures Elements(ScriptTo(nodes, k, i)) == Spoken(nodes[..i], k)
  {
    if i > 0 {
      ScriptTells(nodes, k, i - 1);
      assert nodes[..i] == nodes[..i - 1] + [nodes[i - 1]];
      SpokenSnoc(nodes[..i - 1], nodes[i - 1], k);
    }
  }

  lemma {:induction false} ScriptTake(nodes: seq<SyncNode>, k: string, n: nat, i: nat)
    requires i <= n <= |nodes|
    ensures ScriptTo(nodes[..n], k, i) == ScriptTo(nodes, k, i)
  {
    if i > 0 { ScriptTake(nodes, k, n, i - 1); }
  }

  lemma {:induction false} ScriptAppend(a: seq<SyncNode>, b: seq<SyncNode>, k: string, i: nat)
    requires i <= |b|
    ensures ScriptTo(a + b, k, |a| + i) == Script(a, k) + ScriptTo(b, k, i)
  {
    if i == 0 {
      ScriptTake(a + b, k, |a|, |a|);
      assert (a + b)[..|a|] == a;
    } else {
      ScriptAppend(a, b, k, i - 1);
    }
  }

  lemma ScriptInsert(r: seq<SyncNode>, i: nat, n: SyncNode, k: string)
    requires i <= |r|
    ensures |Script(InsertAt(r, i, n), k)| == |Script(r, k)| + |UpdatesIn(n, k)|
  {
    assert r == r[..i] + r[i..];
    ScriptAppend(r[..i], r[i..], k, |r[i..]|);
    ScriptAppend(r[..i] + [n], r[i..], k, |r[i..]|);
    ScriptAppend(r[..i], [n], k, 1);
  }

  /** Where a node goes in a sorted sequence, found from the back. */
  method KeyPlace(r: seq<SyncNode>, n: SyncNode) returns (i: nat)
    requires KeySorted(r)
    ensures i <= |r| && KeySorted(InsertAt(r, i, n))
  {
    i := |r|;
    while i > 0 && !KeyLessEq(r[i - 1], n)
      invariant i <= |r| && (i < |r| ==> KeyLessEq(n, r[i]))
    {
      i := i - 1;
    }
    forall j | 0 <= j < i ensures KeyLessEq(r[j], n) {
      if j < i - 1 { KeyTransitive(r[j], r[i - 1], n); }
    }
    KeyInsert(r, i, n);
  }

  lemma SortStep(nodes: seq<SyncNode>, t: nat, r: seq<SyncNode>, i: nat)
    requires t < |nodes| && i <= |r| && multiset(r) == multiset(nodes[..t])
    ensures multiset(InsertAt(r, i, nodes[t])) == multiset(nodes[..t + 1])
  {
    InsertMultiset(r, i, nodes[t]);
    assert nodes[..t + 1] == nodes[..t] + [nodes[t]];
  }

  /** Insertion sort; `k` only serves to compare the load. */
  method SortNodes(nodes: seq<SyncNode>, ghost k: string) returns (r: seq<SyncNode>)
    ensures KeySorted(r) && multiset(r) == multiset(nodes)
    ensures |Script(r, k)| == |Script(nodes, k)|
    ensures forall i, j :: 0 <= i < j < |r| ==> InKeyOrder(r[i], r[j])
  {
    r := [];
    for t := 0 to |nodes|
      invariant KeySorted(r) && multiset(r) == multiset(nodes[..t])
      invariant |Script(r, k)| == |ScriptTo(nodes, k, t)|
    {
      var i := KeyPlace(r, nodes[t]);
      SortStep(nodes, t, r, i);
      ScriptInsert(r, i, nodes[t], k);
      r := InsertAt(r, i, nodes[t]);
    }
    assert nodes[..|nodes|] == nodes;
  }

  // ----- The replay -----

  lemma {:induction false} BirthsSize(h: seq<Update>)
    ensures |BirthsOf(h)| <= |h|
  {
    if h != [] { BirthsSize(h[..|h| - 1]); }
  }

  lemma HistorySnoc(h: seq<Update>, u: Update)
    ensures BirthsOf(h + [u]) == Told(BirthsOf(h), u) && DeletesOf(h + [u]) == Deleted(DeletesOf(h), u)
  {
    HistoryStep(h + [u], |h|);
    assert (h + [u])[..|h|] == h && (h + [u])[..|h| + 1] == h + [u];
  }

  /** The projection has been told `h`. */
  ghost predicate Heard(p: P.TextProjection, h: seq<Update>)
    reads p, p.charIndex, p.byteIndex
  {
    p.Valid() && p.told.births == BirthsOf(h) && p.told.deletes == DeletesOf(h)
  }

  method ApplyOne(p: P.TextProjection, u: Update, ghost h: seq<Update>)
    requires Heard(p, h) && 4 * (|h| + 1) <= U32_MAX
    modifies p, p.charIndex, p.byteIndex
    ensures Heard(p, h + [u])
  {
    BirthsSize(h);
    HistorySnoc(h, u);
    p.Apply(u);
  }

  /** Apply operation `j` of a node, if it is for key `k`. */
  method ApplyOp(p: P.TextProjection, n: SyncNode, k: string, j: nat, ghost h: seq<Update>, ghost h': seq<Update>)
    requires j < |n.tx.ops| && Heard(p, h) && 4 * |h'| <= U32_MAX
    requires h' == if TextOn(n.tx.ops[j], k) then h + [UpdateOf(n, n.tx.ops[j].t)] else h
    modifies p, p.charIndex, p.byteIndex
    ensures Heard(p, h')
  {
    if TextOn(n.tx.ops[j], k) { ApplyOne(p, UpdateOf(n, n.tx.ops[j].t), h); }
  }

  /** Apply the operations of one node that are for key `k`. */
  method ApplyNode(p: P.TextProjection, n: SyncNode, k: string, ghost h: seq<Update>)
    requires Heard(p, h) && 4 * (|h| + |UpdatesIn(n, k)|) <= U32_MAX
    modifies p, p.charIndex, p.byteIndex
    ensures Heard(p, h + UpdatesIn(n, k))
  {
    assert h + [] == h;
    for j := 0 to |n.tx.ops|
      invariant Heard(p, h + UpdatesTo(n, k, j))
    {
      UpdatesGrow(n, k, j + 1, |n.tx.ops|);
      HearMore(h, n, k, j);
      ApplyOp(p, n, k, j, h + UpdatesTo(n, k, j), h + UpdatesTo(n, k, j + 1));
    }
  }

  lemma HearMore(h: seq<Update>, n: SyncNode, k: string, j: nat)
    requires j < |n.tx.ops|
    ensures var heard := h + UpdatesTo(n, k, j);
      h + UpdatesTo(n, k, j + 1) == if TextOn(n.tx.ops[j], k) then heard + [UpdateOf(n, n.tx.ops[j].t)] else heard
  {
  }

  lemma {:induction false} UpdatesGrow(n: SyncNode, k: string, i: nat, j: nat)
    requires i <= j <= |n.tx.ops|
    ensures |UpdatesTo(n, k, i)| <= |UpdatesTo(n, k, j)|
  {
    if i < j { UpdatesGrow(n, k, i, j - 1); }
  }

  lemma {:induction false} ScriptGrows(nodes: seq<SyncNode>, k: string, i: nat, j: nat)
    requires i <= j <= |nodes|
    ensures |ScriptTo(nodes, k, i)| <= |ScriptTo(nodes, k, j)|
  {
    if i < j { ScriptGrows(nodes, k, i, j - 1); }
  }

  /** The births and deletes are exactly the anchors, characters and targets that
      operations on key `k` carry. */
  ghost predicate Carried(nodes: seq<SyncNode>, k: string, births: Births, deletes: set<OpId>) {
    && (forall x :: x in births ==> Says(nodes, k, Insert(x, births[x].after, births[x].ch)))
    && (forall x, a, c :: Says(nodes, k, Insert(x, a, c)) ==> x in births)
    && (forall t :: t in deletes <==> Says(nodes, k, Delete(t)))
  }

  lemma HistoryCarried(h: seq<Update>, nodes: seq<SyncNode>, k: string)
    requires forall u :: u in h <==> Says(nodes, k, u)
    ensures Carried(nodes, k, BirthsOf(h), DeletesOf(h))
  {
    var births, deletes := BirthsOf(h), DeletesOf(h);
    forall x | x in births ensures Says(nodes, k, Insert(x, births[x].after, births[x].ch)) {
      var i :| 0 <= i < |h| && h[i] == Insert(x, births[x].after, births[x].ch);
      assert h[i] in h;
    }
    forall x, a, c | Says(nodes, k, Insert(x, a, c)) ensures x in births {
      assert Insert(x, a, c) in h;
      var i :| 0 <= i < |h| && h[i] == Insert(x, a, c);
    }
    forall t ensures t in deletes <==> Says(nodes, k, Delete(t)) {
      if t in deletes {
        var i :| 0 <= i < |h| && h[i].Delete? && h[i].target == t;
        assert h[i] == Delete(t) && h[i] in h;
      }
      if Says(nodes, k, Delete(t)) {
        assert Delete(t) in h;
        var i :| 0 <= i < |h| && h[i] == Delete(t);
      }
    }
  }

  /** A replay in any order carries what the operations of the nodes say. */
  lemma ScriptCarries(order: seq<SyncNode>, nodes: seq<SyncNode>, k: string)
    requires multiset(order) == multiset(nodes)
    ensures Carried(nodes, k, BirthsOf(Script(order, k)), DeletesOf(Script(order, k)))
  {
    SameMembers(order, nodes);
    SpokenOfSet(order, nodes, k);
    ScriptTells(order, k, |order|);
    assert order[..|order|] == order;
    forall u ensures u in Script(order, k) <==> Says(nodes, k, u) {
      SpokenAre(nodes, k, u);
      assert u in Elements(Script(order, k)) <==> u in Spoken(nodes, k);
    }
    HistoryCarried(Script(order, k), nodes, k);
  }

  /** What the replay in some order sorted by key shows. */
  ghost predicate Replayed(nodes: seq<SyncNode>, k: string, visible: seq<Item>, text: seq<Byte>) {
    exists order, items :: KeySorted(order) && multiset(order) == multiset(nodes)
      && Carried(nodes, k, BirthsOf(Script(order, k)), DeletesOf(Script(order, k)))
      && TextReplay.Outcome(Script(order, k), items) && visible == Visible(items) && text == Encode(items)
  }

  /** Feed node `i` to a projection that has heard those before it. */
  method FeedNext(p: P.TextProjection, nodes: seq<SyncNode>, k: string, i: nat)
    requires i < |nodes| && Heard(p, ScriptTo(nodes, k, i)) && 4 * |Script(nodes, k)| <= U32_MAX
    modifies p, p.charIndex, p.byteIndex
    ensures Heard(p, ScriptTo(nodes, k, i + 1))
  {
    ScriptGrows(nodes, k, i + 1, |nodes|);
    ApplyNode(p, nodes[i], k, ScriptTo(nodes, k, i));
  }

  /** Feed all nodes to a projection that has heard nothing. */
  method Feed(p: P.TextProjection, nodes: seq<SyncNode>, k: string)
    requires Heard(p, []) && 4 * |Script(nodes, k)| <= U32_MAX
    modifies p, p.charIndex, p.byteIndex
    ensures Heard(p, Script(nodes, k))
  {
    for i := 0 to |nodes|
      invariant Heard(p, ScriptTo(nodes, k, i))
    {
      FeedNext(p, nodes, k, i);
    }
  }

  /** Sort the nodes, feed a fresh projection, read it. */
  method ResolveTextSeq(nodes: seq<SyncNode>, k: string) returns (visible: seq<Item>, text: seq<Byte>)
    requires 4 * |Script(nodes, k)| <= U32_MAX
    ensures Replayed(nodes, k, visible, text)
  {
    var order := SortNodes(nodes, k);
    var p := new P.TextProjection();
    Feed(p, order, k);
    visible := p.ResolveSeq();
    text := p.visibleString;
    TextReplay.ProjectionOutcome(p, Script(order, k));
    ScriptCarries(order, nodes, k);
  }

  /** The replay does not depend on the order or on repetition of the nodes: it
      shows what any projection told the same updates shows. */
  lemma ReplayIsOutcome(nodes: seq<SyncNode>, k: string, visible: seq<Item>, text: seq<Byte>,
                        h: seq<Update>, items: seq<Item>)
    requires Replayed(nodes, k, visible, text)
    requires Consistent(h) && Elements(h) == Spoken(nodes, k) && TextReplay.Outcome(h, items)
    ensures visible == Visible(items) && text == Encode(items)
  {
    var order, items' :| KeySorted(order) && multiset(order) == multiset(nodes)
        && TextReplay.Outcome(Script(order, k), items') && visible == Visible(items') && text == Encode(items');
    SameMembers(order, nodes);
    SpokenOfSet(order, nodes, k);
    ReplayOrder(order, k, items', h, items);
  }

  lemma ReplayOrder(order: seq<SyncNode>, k: string, items': seq<Item>, h: seq<Update>, items: seq<Item>)
    requires Consistent(h) && Elements(h) == Spoken(order, k)
    requires TextReplay.Outcome(h, items) && TextReplay.Outcome(Script(order, k), items')
    ensures items == items'
  {
    ScriptTells(order, k, |order|);
    assert order[..|order|] == order;
    TextReplay.Convergence(h, Script(order, k), items, items');
  }
}
