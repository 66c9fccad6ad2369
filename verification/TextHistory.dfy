/** What a text projection has been told, and what it must show for it. A
    history is any finite sequence of single-character inserts and deletes, in
    any delivery order: children before anchors, deletes before inserts,
    repetitions (core/crdt/src/text.rs). */
module TextHistory {
  import opened Core
  import opened TextOrder
  import opened TextForest

  /** One character of the flat sequence, tombstones included. */
  datatype Item = Item(id: OpId, ch: char, deleted: bool)

  datatype Update = Insert(id: OpId, after: Option<OpId>, ch: char) | Delete(target: OpId)

  /** The anchor and character the first insert of an identity carried. */
  datatype Birth = Birth(after: Option<OpId>, ch: char)
  type Births = map<OpId, Birth>

  ghost function BirthsOf(h: seq<Update>): (r: Births)
    ensures forall x :: x in r ==> exists i :: 0 <= i < |h| && h[i] == Insert(x, r[x].after, r[x].ch)
    ensures forall i :: 0 <= i < |h| && h[i].Insert? ==> h[i].id in r
  {
    if h == [] then map[] else
      Told(BirthsOf(h[..|h| - 1]), h[|h| - 1])
  }

  /** The births after one more update: the first insert of an identity counts. */
  ghost function Told(r: Births, u: Update): Births {
    if u.Insert? && u.id !in r then r[u.id := Birth(u.after, u.ch)] else r
  }

  ghost function Deleted(d: set<OpId>, u: Update): set<OpId> {
    if u.Delete? then d + {u.target} else d
  }

  ghost function DeletesOf(h: seq<Update>): set<OpId> {
    set i | 0 <= i < |h| && h[i].Delete? :: h[i].target
  }

  lemma HistoryStep(h: seq<Update>, i: nat)
    requires i < |h|
    ensures BirthsOf(h[..i + 1]) == Told(BirthsOf(h[..i]), h[i])
    ensures DeletesOf(h[..i + 1]) == Deleted(DeletesOf(h[..i]), h[i])
  {
    var a, b := h[..i], h[..i + 1];
    assert b[..i] == a && b[i] == h[i];
    forall x | x in DeletesOf(a) ensures x in DeletesOf(b) {
      var k :| 0 <= k < |a| && a[k].Delete? && a[k].target == x;
      assert b[k] == a[k];
    }
    forall x | x in DeletesOf(b) ensures x in Deleted(DeletesOf(a), h[i]) {
      var k :| 0 <= k < |b| && b[k].Delete? && b[k].target == x;
      assert k < i ==> a[k] == b[k];
    }
    if h[i].Delete? { assert b[i].target in DeletesOf(b); }
  }

  ghost function Raw(ins: Births): Anchors {
    map x | x in ins :: ins[x].after
  }

  function Ids(items: seq<Item>): (r: seq<OpId>)
    ensures |r| == |items| && forall i :: 0 <= i < |items| ==> r[i] == items[i].id
  {
    seq(|items|, i requires 0 <= i < |items| => items[i].id)
  }

  /** The document a set of births and deletes denotes: the forest traversal,
      each character with its tombstone flag. */
  ghost function Document(ins: Births, dels: set<OpId>): (r: seq<Item>)
    ensures Ids(r) == Dfs(Raw(ins)) && Labelled(r, ins, dels)
  {
    var d := Dfs(Raw(ins));
    WalkWithin(Raw(ins), Raw(ins).Keys, Children(Raw(ins), None));
    seq(|d|, t requires 0 <= t < |d| => Item(d[t], ins[d[t]].ch, d[t] in dels))
  }

  // ----- Integration logs -----

  /** `log` lists identities in the order they were integrated, each after its
      anchor; `f` is the forest the flat rule gave them. */
  ghost predicate Grown(ins: Births, log: seq<OpId>, f: Anchors) {
    && NoDuplicates(log) && f.Keys == Elements(log) && Rooted(f)
    && forall k :: 0 <= k < |log| ==> GrownAt(ins, log, f, k)
  }

  ghost predicate GrownAt(ins: Births, log: seq<OpId>, f: Anchors, k: nat)
    requires k < |log| && f.Keys == Elements(log) && Rooted(f)
  {
    var x := log[k];
    && x in ins
    && (ins[x].after.Some? ==> ins[x].after.value in log[..k] && ins[x].after.value in f)
    && f[x] == Climb(f, ins[x].after, x)
    && (f[x].Some? ==> f[x].value in log[..k])
  }

  /** Nothing that could be integrated is waiting. */
  ghost predicate Closed(ins: Births, log: seq<OpId>) {
    forall x :: x in ins && x !in log ==> ins[x].after.Some? && ins[x].after.value !in log
  }

  /** Both forests hang `s` in the same way, and within itself. */
  ghost predicate AgreeOn(f: Anchors, g: Anchors, s: set<OpId>) {
    s <= f.Keys && s <= g.Keys && forall y :: y in s ==> f[y] == g[y] && (f[y].Some? ==> f[y].value in s)
  }

  /** Climbing depends only on the ancestors. */
  lemma {:induction false} ClimbAgrees(f: Anchors, g: Anchors, s: set<OpId>, a: Option<OpId>, x: OpId)
    requires Rooted(f) && Rooted(g) && AgreeOn(f, g, s)
    requires a.Some? ==> a.value in s
    ensures Climb(f, a, x) == Climb(g, a, x)
    decreases UpTo(f, a)
  {
    if a.Some? && !Less(a.value, x) {
      UpToShrinks(f, a.value);
      ClimbAgrees(f, g, s, f[a.value], x);
    }
  }

  /** Integrating one more identity after its anchor. */
  lemma GrowStep(ins: Births, log: seq<OpId>, f: Anchors, x: OpId)
    requires Grown(ins, log, f) && x in ins && x !in log
    requires ins[x].after.Some? ==> ins[x].after.value in log
    ensures ins[x].after.Some? ==> ins[x].after.value in f
    ensures Rooted(f)
    ensures Grown(ins, log + [x], f[x := Climb(f, ins[x].after, x)])
  {
    var a := ins[x].after;
    assert a.Some? ==> a.value in Elements(log);
    var f' := f[x := Climb(f, a, x)];
    var log' := log + [x];
    assert x !in f by { assert x !in Elements(log); }
    assert f'.Keys == Elements(log');
    forall i, j | 0 <= i < j < |log'| ensures Differ(log', i, j) { assert j < |log| ==> Differ(log, i, j); }
    forall k | 0 <= k < |log'| ensures GrownAt(ins, log', f', k) {
      var y := log'[k];
      if k < |log| {
        assert GrownAt(ins, log, f, k) && log'[..k] == log[..k];
        assert y in Elements(log);
        ClimbAgrees(f, f', f.Keys, ins[y].after, y);
      } else {
        assert log'[..k] == log;
        ClimbAgrees(f, f', f.Keys, a, x);
        assert f'[x].Some? ==> f'[x].value in Elements(log);
      }
    }
  }

  /** Everything one log integrated, the other did too, and in the same place. */
  lemma {:induction false} LogIncluded(ins: Births, log: seq<OpId>, f: Anchors, log': seq<OpId>, f': Anchors, k: nat)
    requires Grown(ins, log, f) && Grown(ins, log', f') && Closed(ins, log')
    requires k <= |log|
    ensures forall j :: 0 <= j < k ==> log[j] in f' && f[log[j]] == f'[log[j]]
    decreases k
  {
    if k > 0 {
      LogIncluded(ins, log, f, log', f', k - 1);
      var x := log[k - 1];
      assert GrownAt(ins, log, f, k - 1);
      var a := ins[x].after;
      assert a.Some? ==> a.value in log' by {
        assert a.Some? ==> a.value in f';
        assert a.Some? ==> a.value in Elements(log');
      }
      assert x in log';
      var j :| 0 <= j < |log'| && log'[j] == x;
      assert GrownAt(ins, log', f', j);
      var s := Elements(log[..k - 1]);
      forall y | y in s
        ensures y in f && y in f' && f[y] == f'[y] && (f[y].Some? ==> f[y].value in s)
      {
        var i :| 0 <= i < k - 1 && log[i] == y;
        assert GrownAt(ins, log, f, i);
        assert forall z :: z in log[..i] ==> z in log[..k - 1];
      }
      ClimbAgrees(f, f', s, a, x);
      assert x in Elements(log');
    }
  }

  /** The births alone determine which characters are shown and where. */
  lemma ForestUnique(ins: Births, log: seq<OpId>, f: Anchors, log': seq<OpId>, f': Anchors)
    requires Grown(ins, log, f) && Closed(ins, log)
    requires Grown(ins, log', f') && Closed(ins, log')
    ensures f == f'
  {
    LogIncluded(ins, log, f, log', f', |log|);
    LogIncluded(ins, log', f', log, f, |log'|);
    assert forall x :: x in f ==> x in Elements(log);
    assert forall x :: x in f' ==> x in Elements(log');
  }

  // ----- What a projection shows -----

  /** `items` is the flat sequence reached through `log`, with the characters
      and tombstones the history gave them. */
  ghost predicate Shows(items: seq<Item>, ins: Births, dels: set<OpId>, log: seq<OpId>, f: Anchors) {
    && Grown(ins, log, f)
    && NearestSmaller(Ids(items), f) && Elements(Ids(items)) == f.Keys
    && Labelled(items, ins, dels)
  }

  ghost predicate Labelled(items: seq<Item>, ins: Births, dels: set<OpId>) {
    forall k :: 0 <= k < |items| ==>
      items[k].id in ins && items[k] == Item(items[k].id, ins[items[k].id].ch, items[k].id in dels)
  }

  lemma LabelledInsert(items: seq<Item>, ins: Births, dels: set<OpId>, k: nat, x: OpId)
    requires Labelled(items, ins, dels) && k <= |items| && x in ins
    ensures var items' := InsertAt(items, k, Item(x, ins[x].ch, x in dels));
      Labelled(items', ins, dels) && Ids(items') == InsertAt(Ids(items), k, x)
  {
  }

  /** One flat insertion of a birth whose anchor is shown. */
  lemma ShowsInsert(items: seq<Item>, ins: Births, dels: set<OpId>, log: seq<OpId>, f: Anchors, x: OpId)
    requires Shows(items, ins, dels, log, f) && x in ins && x !in log
    requires ins[x].after.Some? ==> ins[x].after.value in Ids(items)
    ensures Rooted(f) && (ins[x].after.Some? ==> ins[x].after.value in f)
    ensures Shows(InsertAt(items, Place(Ids(items), ins[x].after, x), Item(x, ins[x].ch, x in dels)),
                  ins, dels, log + [x], f[x := Climb(f, ins[x].after, x)])
  {
    var a := ins[x].after;
    assert a.Some? ==> a.value in Elements(Ids(items));
    assert a.Some? ==> a.value in log;
    GrowStep(ins, log, f, x);
    assert x !in f by { assert x !in Elements(log); }
    PlaceKeepsNearest(Ids(items), f, a, x);
    var k := Place(Ids(items), a, x);
    var items' := InsertAt(items, k, Item(x, ins[x].ch, x in dels));
    LabelledInsert(items, ins, dels, k, x);
    InsertElements(Ids(items), k, x);
  }

  /** The sequence after item `k` became a tombstone. */
  function Tombstone(items: seq<Item>, k: nat): seq<Item>
    requires k < |items|
  {
    items[k := items[k].(deleted := true)]
  }

  /** A delete that has arrived flips one flag. */
  lemma ShowsDelete(items: seq<Item>, ins: Births, dels: set<OpId>, log: seq<OpId>, f: Anchors, k: nat)
    requires Shows(items, ins, dels, log, f) && k < |items|
    ensures Shows(Tombstone(items, k), ins, dels + {items[k].id}, log, f)
  {
    var items' := Tombstone(items, k);
    assert Ids(items') == Ids(items);
    NearestNoDuplicates(Ids(items), f);
    forall j | 0 <= j < |items'| && j != k ensures items'[j].id != items[k].id {
      assert if j < k then Differ(Ids(items), j, k) else Differ(Ids(items), k, j);
    }
  }

  /** Convergence, for every history: whatever orders and repetitions the
      updates came in, with whatever anchors, equal births and deletes are
      shown as equal sequences. */
  lemma ShownEqual(ins: Births, dels: set<OpId>,
                   items: seq<Item>, log: seq<OpId>, f: Anchors,
                   items': seq<Item>, log': seq<OpId>, f': Anchors)
    requires Shows(items, ins, dels, log, f) && Closed(ins, log)
    requires Shows(items', ins, dels, log', f') && Closed(ins, log')
    ensures items == items'
  {
    ForestUnique(ins, log, f, log', f');
    NearestUnique(Ids(items), Ids(items'), f);
    assert forall k :: 0 <= k < |items| ==> items[k].id == Ids(items)[k] && items'[k].id == Ids(items')[k];
  }

  /** What is integrated are the births whose chain of anchors has arrived. */
  lemma {:induction false} LogLands(ins: Births, log: seq<OpId>, f: Anchors, k: nat)
    requires Grown(ins, log, f) && k <= |log|
    ensures forall j :: 0 <= j < k ==> log[j] in ins && Landed(Raw(ins), log[j])
  {
    if k > 0 {
      LogLands(ins, log, f, k - 1);
      assert GrownAt(ins, log, f, k - 1);
      LandedAnchor(Raw(ins), log[k - 1]);
    }
  }

  lemma {:induction false} LandsInLog(ins: Births, log: seq<OpId>, x: OpId, r: OpId, n: nat)
    requires Closed(ins, log) && x in ins && Up(Raw(ins), x, r, n) && r in ins && ins[r].after.None?
    ensures x in log
    decreases n
  {
    if n > 0 {
      if n > 1 { assert Up(Raw(ins), Raw(ins)[x].value, r, n - 1); }
      LandsInLog(ins, log, Raw(ins)[x].value, r, n - 1);
    }
  }

  /** The anchors of the integrated births, and the flat forest they hang in. */
  lemma ArrivedIsLog(ins: Births, log: seq<OpId>, f: Anchors)
    requires Grown(ins, log, f) && Closed(ins, log)
    ensures Grounded(Arrived(Raw(ins)), log) && Hung(f, Arrived(Raw(ins)))
  {
    var g, h := Raw(ins), Arrived(Raw(ins));
    LogLands(ins, log, f, |log|);
    forall x ensures x in h <==> x in Elements(log) {
      if x in h {
        var r :| r in g && g[r].None? && Under(g, x, r);
        var n: nat :| Up(g, x, r, n);
        LandsInLog(ins, log, x, r, n);
      }
    }
    assert h.Keys == Elements(log);
    forall k | 0 <= k < |log| ensures GroundedAt(h, log, k) {
      assert GrownAt(ins, log, f, k) && log[k] in Elements(log);
    }
    forall x | x in h ensures (h[x].Some? ==> h[x].value in h) && f[x] == Climb(f, h[x], x) {
      assert x in Elements(log);
      var k :| 0 <= k < |log| && log[k] == x;
      assert GrownAt(ins, log, f, k);
    }
  }

  /** The documented order, exactly: what is shown is the traversal of the
      insertion forest if and only if no arrived character is greater than one
      in the subtree of a greater sibling. */
  lemma ShownIsDocumentIff(ins: Births, dels: set<OpId>, items: seq<Item>, log: seq<OpId>, f: Anchors)
    requires Shows(items, ins, dels, log, f) && Closed(ins, log)
    ensures items == Document(ins, dels) <==> Orderly(Arrived(Raw(ins)))
  {
    ArrivedIsLog(ins, log, f);
    FlatIsDfsIff(Ids(items), f, Arrived(Raw(ins)), log);
    DfsArrived(Raw(ins));
    var d := Document(ins, dels);
    if Ids(items) == Ids(d) {
      forall k | 0 <= k < |items| ensures items[k] == d[k] { assert items[k].id == Ids(items)[k] == d[k].id; }
    }
  }

  // ----- Delivery order -----

  /** Every insert of an identity carries the same anchor and character. */
  ghost predicate Consistent(h: seq<Update>) {
    forall i, j :: 0 <= i < |h| && 0 <= j < |h| && h[i].Insert? && h[j].Insert? && h[i].id == h[j].id ==> h[i] == h[j]
  }

  /** Births and deletes do not depend on order or repetition. */
  lemma DeliveryIrrelevant(h: seq<Update>, h': seq<Update>)
    requires Consistent(h) && Elements(h) == Elements(h')
    ensures BirthsOf(h) == BirthsOf(h') && DeletesOf(h) == DeletesOf(h')
  {
    BirthsIncluded(h, h');
    BirthsIncluded(h', h);
    DeletesIncluded(h, h');
    DeletesIncluded(h', h);
  }

  lemma BirthsIncluded(h: seq<Update>, h': seq<Update>)
    requires Consistent(h) || Consistent(h')
    requires Elements(h) == Elements(h')
    ensures forall x :: x in BirthsOf(h) ==> x in BirthsOf(h') && BirthsOf(h)[x] == BirthsOf(h')[x]
  {
    var r, r' := BirthsOf(h), BirthsOf(h');
    forall x | x in r ensures x in r' && r[x] == r'[x] {
      var i :| 0 <= i < |h| && h[i] == Insert(x, r[x].after, r[x].ch);
      assert h[i] in Elements(h');
      var j :| 0 <= j < |h'| && h'[j] == h[i];
      var k :| 0 <= k < |h'| && h'[k] == Insert(x, r'[x].after, r'[x].ch);
      assert h'[k] in Elements(h);
      var l :| 0 <= l < |h| && h[l] == h'[k];
    }
  }

  lemma DeletesIncluded(h: seq<Update>, h': seq<Update>)
    requires Elements(h) == Elements(h')
    ensures DeletesOf(h) <= DeletesOf(h')
  {
    forall x | x in DeletesOf(h) ensures x in DeletesOf(h') {
      var i :| 0 <= i < |h| && h[i].Delete? && h[i].target == x;
      assert h[i] in Elements(h');
      var j :| 0 <= j < |h'| && h'[j] == h[i];
    }
  }
}
