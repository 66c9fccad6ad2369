/** Whole runs of the text engine: what any delivery of a history resolves to
    (core/crdt/src/text.rs, `resolve_text_seq`). */
module TextReplay {
  import opened Core
  import opened TextOrder
  import opened TextForest
  import opened TextHistory
  import P = TextProjection

  /** `items` is what a history resolves to, tombstones included. */
  ghost predicate Outcome(h: seq<Update>, items: seq<Item>) {
    exists log, f :: Shows(items, BirthsOf(h), DeletesOf(h), log, f) && Closed(BirthsOf(h), log)
  }

  /** A valid projection shows the outcome of what it was told. */
  lemma ProjectionOutcome(p: P.TextProjection, h: seq<Update>)
    requires p.Valid() && p.told.births == BirthsOf(h) && p.told.deletes == DeletesOf(h)
    ensures Outcome(h, p.slab.Flat())
  {
    var ins, dels, log, f := p.told.births, p.told.deletes, p.told.log, p.told.forest;
    forall x | x in ins && x !in log ensures ins[x].after.Some? && ins[x].after.value !in log {
      assert P.Waiting(ins, p.orphans, x);
    }
    assert Shows(p.slab.Flat(), ins, dels, log, f) && Closed(ins, log);
  }

  /** Convergence: two deliveries of the same updates, in any order and with any
      repetition, resolve to the same sequence. No assumption on the anchors. */
  lemma Convergence(h: seq<Update>, h': seq<Update>, items: seq<Item>, items': seq<Item>)
    requires Consistent(h) && Elements(h) == Elements(h')
    requires Outcome(h, items) && Outcome(h', items')
    ensures items == items'
  {
    DeliveryIrrelevant(h, h');
    var ins, dels := BirthsOf(h), DeletesOf(h);
    var log, f :| Shows(items, ins, dels, log, f) && Closed(ins, log);
    var log', f' :| Shows(items', ins, dels, log', f') && Closed(ins, log');
    ShownEqual(ins, dels, items, log, f, items', log', f');
  }

  /** Integration can go on until nothing integrable waits. */
  lemma {:induction false} GrowsClosed(ins: Births, dels: set<OpId>, items: seq<Item>, log: seq<OpId>, f: Anchors)
    returns (items': seq<Item>, log': seq<OpId>, f': Anchors)
    requires Shows(items, ins, dels, log, f)
    ensures Shows(items', ins, dels, log', f') && Closed(ins, log')
    decreases ins.Keys - Elements(log)
  {
    if Closed(ins, log) {
      items', log', f' := items, log, f;
    } else {
      var x :| x in ins && x !in log && !(ins[x].after.Some? && ins[x].after.value !in log);
      var a := ins[x].after;
      assert a.Some? ==> a.value in Ids(items) by {
        assert a.Some? ==> a.value in Elements(log);
        assert a.Some? ==> a.value in Elements(Ids(items));
      }
      ShowsInsert(items, ins, dels, log, f, x);
      ElementsSnoc(log, x);
      assert x !in Elements(log);
      items', log', f' := GrowsClosed(ins, dels,
        InsertAt(items, Place(Ids(items), a, x), Item(x, ins[x].ch, x in dels)), log + [x], f[x := Climb(f, a, x)]);
    }
  }

  /** Every history has an outcome, however long it is. */
  lemma OutcomeExists(h: seq<Update>)
    ensures exists items :: Outcome(h, items)
  {
    var ins, dels := BirthsOf(h), DeletesOf(h);
    assert Shows([], ins, dels, [], map[]);
    var items, log, f := GrowsClosed(ins, dels, [], [], map[]);
    assert Outcome(h, items);
  }

  /** The documented order, exactly: the outcome is the traversal of the insertion
      forest if and only if that forest is orderly. */
  lemma OutcomeIsDocumentIff(h: seq<Update>, items: seq<Item>)
    requires Outcome(h, items)
    ensures items == Document(BirthsOf(h), DeletesOf(h)) <==> Orderly(Arrived(Raw(BirthsOf(h))))
  {
    var ins, dels := BirthsOf(h), DeletesOf(h);
    var log, f :| Shows(items, ins, dels, log, f) && Closed(ins, log);
    ShownIsDocumentIff(ins, dels, items, log, f);
  }

  /** It is when every character is younger than its anchor. */
  lemma OutcomeIsDocument(h: seq<Update>, items: seq<Item>)
    requires Outcome(h, items) && Anchored(Raw(BirthsOf(h)))
    ensures items == Document(BirthsOf(h), DeletesOf(h))
  {
    OutcomeIsDocumentIff(h, items);
    AnchoredOrderly(Arrived(Raw(BirthsOf(h))));
  }

  // Two roots 5 and 4, and a character 3 inserted after 5.
  const X5 := OpId(5, 0)
  const X4 := OpId(4, 0)
  const X3 := OpId(3, 0)
  const OLD_CHILD := [Insert(X5, None, 'a'), Insert(X3, Some(X5), 'b'), Insert(X4, None, 'c')]

  /** The documented order fails there: the root 4 is greater than 3, which is in
      the subtree of its greater sibling 5. */
  lemma SubtreeSplit(items: seq<Item>)
    requires Outcome(OLD_CHILD, items)
    ensures items != Document(BirthsOf(OLD_CHILD), DeletesOf(OLD_CHILD))
  {
    OldChildBirths();
    OldChildOutOfOrder(Raw(BirthsOf(OLD_CHILD)));
    OutcomeIsDocumentIff(OLD_CHILD, items);
  }

  lemma OldChildOutOfOrder(g: Anchors)
    requires g.Keys == {X5, X3, X4} && g[X5] == g[X4] == None && g[X3] == Some(X5)
    ensures !Orderly(Arrived(g))
  {
    LandedAnchor(g, X5);
    LandedAnchor(g, X4);
    LandedAnchor(g, X3);
    var h := Arrived(g);
    UnderSelf(h, X5);
    UnderAnchor(h, X3, X5);
    assert !InOrder(h, X4, X5, X3);
  }

  lemma OldChildBirths()
    ensures var g := Raw(BirthsOf(OLD_CHILD));
      g.Keys == {X5, X3, X4} && g[X5] == g[X4] == None && g[X3] == Some(X5)
  {
    var a, b, c := OLD_CHILD[0], OLD_CHILD[1], OLD_CHILD[2];
    ThreeBirths(a, b, c);
    assert OLD_CHILD == [a, b, c];
  }

  lemma ThreeBirths(a: Update, b: Update, c: Update)
    ensures BirthsOf([a, b, c]) == Told(Told(Told(map[], a), b), c)
  {
    var none: seq<Update> := [];
    BirthsSnoc(none, a);
    BirthsSnoc(none + [a], b);
    BirthsSnoc(none + [a] + [b], c);
    assert none + [a] + [b] + [c] == [a, b, c];
  }

  lemma BirthsSnoc(h: seq<Update>, u: Update)
    ensures BirthsOf(h + [u]) == Told(BirthsOf(h), u)
  {
    assert (h + [u])[..|h|] == h;
  }
}
