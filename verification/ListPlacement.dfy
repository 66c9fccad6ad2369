/** Index-based list edits: the position chosen for an index, and where the
    item then shows up (clients/bridge-wasm/src/lib.rs). */
module ListPlacement {
  import opened Core
  import opened Nodes
  import opened FracIndex
  import opened ListView

  type Placed = (string, ItemId)

  /** The listing without the item being moved, if any. */
  function Without(seqn: seq<Placed>, exclude: Option<ItemId>): seq<Placed> {
    if seqn == [] then []
    else if Some(seqn[0].1) == exclude then Without(seqn[1..], exclude)
    else [seqn[0]] + Without(seqn[1..], exclude)
  }

  ghost predicate Numeral(s: string) {
    forall i :: 0 <= i < |s| ==> IsDigit(s[i])
  }

  /** The neighbours of the clamped index have base-62 positions. */
  ghost predicate NearDigits(seqn: seq<Placed>, index: nat, exclude: Option<ItemId>) {
    var f := Without(seqn, exclude);
    (0 < index && f != [] ==> Numeral(f[Min(index, |f|) - 1].0)) && (index < |f| ==> Numeral(f[index].0))
  }

  /** The position asked for, between the neighbours of the clamped index;
      `None` stands for a panic. */
  function PositionForIndex(seqn: seq<Placed>, index: nat, exclude: Option<ItemId>): Option<Position>
    requires NearDigits(seqn, index, exclude)
  {
    var f := Without(seqn, exclude);
    var i := Min(index, |f|);
    var left: Option<Position> := if i == 0 then None else Some(f[i - 1].0);
    var right: Option<Position> := if i >= |f| then None else Some(f[i].0);
    BetweenSpec(left, right)
  }

  /** What leaving an item out keeps. */
  lemma {:induction false} WithoutKeeps(r: seq<Placed>, exclude: Option<ItemId>)
    requires Ascending(r)
    ensures Ascending(Without(r, exclude))
    ensures forall p :: p in Without(r, exclude) <==> p in r && Some(p.1) != exclude
  {
    if r != [] {
      var t := Without(r[1..], exclude);
      WithoutKeeps(r[1..], exclude);
      assert r == [r[0]] + r[1..];
      if Some(r[0].1) != exclude {
        forall p | p in Elements(t) ensures PairBefore(r[0], p) {
          assert p in r[1..];
        }
        AscendingCons(r[0], t);
      }
    }
  }

  lemma {:induction false} WithoutNone(r: seq<Placed>)
    ensures Without(r, None) == r
  {
    if r != [] {
      WithoutNone(r[1..]);
      assert r == [r[0]] + r[1..];
    }
  }

  /** Between two positions in order, neither ending in 0, the only obstacle is
      that they are the same. */
  lemma GapBlocked(left: Option<Position>, right: Option<Position>)
    requires left.Some? && right.Some? ==> left == right || Before(left.value, right.value)
    requires right.Some? ==> EndsWell(right.value)
    ensures BetweenSpec(left, right).None? <==> left.Some? && left == right
    ensures BetweenSpec(left, right).Some? ==> EndsWell(BetweenSpec(left, right).value)
  {
    BetweenWorks(left, right);
    if right.Some? {
      var l := if left.Some? then left.value else [];
      if l != right.value { WellNotPadded(l, right.value); } else { BeforeIrreflexive(l); }
    }
  }

  lemma {:induction false} BeforeIrreflexive(a: string)
    ensures !Before(a, a)
  {
    if a != [] { BeforeIrreflexive(a[1..]); }
  }

  /** Choosing a position works unless the two neighbours share theirs. */
  lemma PlacementPanics(r: seq<Placed>, index: nat, exclude: Option<ItemId>)
    requires Ascending(r) && NearDigits(r, index, exclude)
    requires index < |Without(r, exclude)| ==> EndsWell(Without(r, exclude)[index].0)
    ensures var f := Without(r, exclude);
      PositionForIndex(r, index, exclude).None? <==> 0 < index < |f| && f[index - 1].0 == f[index].0
    ensures PositionForIndex(r, index, exclude).Some? ==> EndsWell(PositionForIndex(r, index, exclude).value)
  {
    var f := Without(r, exclude);
    WithoutKeeps(r, exclude);
    var i := Min(index, |f|);
    if 0 < i < |f| { assert PairBefore(f[i - 1], f[i]); }
    GapBlocked(if i == 0 then None else Some(f[i - 1].0), if i >= |f| then None else Some(f[i].0));
  }

  // ----- Where the item lands -----

  /** The pair taken out of one set and put into another place of the listing. */
  lemma Lands(r: seq<Placed>, index: nat, exclude: Option<ItemId>, x: ItemId, visible': set<Placed>)
    requires Ascending(r) && NearDigits(r, index, exclude)
    requires PositionForIndex(r, index, exclude).Some?
    requires visible' == Elements(Without(r, exclude)) + {(PositionForIndex(r, index, exclude).value, x)}
    ensures var f := Without(r, exclude);
      Listing(visible') == InsertAt(f, Min(index, |f|), (PositionForIndex(r, index, exclude).value, x))
  {
    var f := Without(r, exclude);
    WithoutKeeps(r, exclude);
    var i := Min(index, |f|);
    var left: Option<Position> := if i == 0 then None else Some(f[i - 1].0);
    var right: Option<Position> := if i >= |f| then None else Some(f[i].0);
    BetweenWorks(left, right);
    ListingInsert(f, i, (BetweenSpec(left, right).value, x));
  }

  /** A node carrying one list operation, as the index helpers commit it. */
  ghost predicate Carries(n: SyncNode, l: ListOp) {
    n.tx.ops == [OnList(l)] && n.Priority() != ZERO_PRIORITY
  }

  lemma CarriedFold(nodes: seq<SyncNode>, n: SyncNode, l: ListOp)
    requires Carries(n, l)
    ensures CacheOf(FoldNodes(nodes + [n]), l.key) == UpdateList(CacheOf(FoldNodes(nodes), l.key), n.Priority(), l)
  {
    FoldSnoc(nodes, n);
    var lists := FoldNodes(nodes);
    assert n.tx.ops[..0] == [] && FoldOps(lists, n.Priority(), n.tx.ops[..0]) == lists;
    assert FoldOps(lists, n.Priority(), n.tx.ops) == lists[l.key := UpdateList(CacheOf(lists, l.key), n.Priority(), l)];
  }

  /** The list a key resolves to after admitting nodes. */
  ghost function Resolved(nodes: seq<SyncNode>, k: string): seq<Placed> {
    Listing(CacheOf(FoldNodes(nodes), k).visible)
  }

  lemma {:induction false} WithoutConcat(a: seq<Placed>, b: seq<Placed>, exclude: Option<ItemId>)
    ensures Without(a + b, exclude) == Without(a, exclude) + Without(b, exclude)
  {
    if a == [] {
      assert a + b == b;
    } else {
      assert (a + b)[1..] == a[1..] + b;
      WithoutConcat(a[1..], b, exclude);
    }
  }

  /** A pair that belongs at index `i` of a listing replaces the old one of its
      item: it stands after what was left of `i`. */
  lemma Replaces(r: seq<Placed>, i: nat, p: Placed)
    requires Ascending(r) && i <= |r|
    requires i > 0 ==> PairBefore(r[i - 1], p)
    requires i < |r| ==> PairBefore(p, r[i])
    ensures var f := Without(r, Some(p.1));
      var j := |Without(r[..i], Some(p.1))|;
      j <= |f| && Listing(Elements(f) + {p}) == InsertAt(f, j, p)
  {
    var x := Some(p.1);
    var a, b := Without(r[..i], x), Without(r[i..], x);
    assert r == r[..i] + r[i..];
    WithoutConcat(r[..i], r[i..], x);
    WithoutKeeps(r, x);
    if a != [] { FrontBefore(r, i, p, a[|a| - 1]); }
    if b != [] { BackAfter(r, i, p, b[0]); }
    ListingJoin(a, b, p);
  }

  lemma ListingJoin(a: seq<Placed>, b: seq<Placed>, p: Placed)
    requires Ascending(a + b) && (a != [] ==> PairBefore(a[|a| - 1], p)) && (b != [] ==> PairBefore(p, b[0]))
    ensures Listing(Elements(a + b) + {p}) == InsertAt(a + b, |a|, p)
  {
    ListingInsert(a + b, |a|, p);
  }

  lemma FrontBefore(r: seq<Placed>, i: nat, p: Placed, q: Placed)
    requires Ascending(r) && i <= |r| && (i > 0 ==> PairBefore(r[i - 1], p)) && q in Without(r[..i], Some(p.1))
    ensures PairBefore(q, p)
  {
    WithoutKeeps(r[..i], Some(p.1));
    var t :| 0 <= t < i && r[t] == q;
    if t < i - 1 { PairOrder(r[t], r[i - 1], p); }
  }

  lemma BackAfter(r: seq<Placed>, i: nat, p: Placed, q: Placed)
    requires Ascending(r) && i <= |r| && (i < |r| ==> PairBefore(p, r[i])) && q in Without(r[i..], Some(p.1))
    ensures PairBefore(p, q)
  {
    WithoutKeeps(r[i..], Some(p.1));
    var t :| i <= t < |r| && r[t] == q;
    if t > i { PairOrder(p, r[i], r[t]); }
  }

  lemma VisibleIsShown(nodes: seq<SyncNode>, k: string)
    ensures var c := CacheOf(FoldNodes(nodes), k); c.visible == ShownSet(c.items)
  {
    CacheSkipsUnranked(nodes);
    CacheTracks(RankedOnly(nodes), k, 0);
  }

  /** Inserting an item at an index puts it there and leaves everything else as it
      was; a deleted item stays away. The item may be new or listed already, if
      the insert outranks its placement. */
  lemma InsertLands(nodes: seq<SyncNode>, n: SyncNode, k: string, x: ItemId, index: nat)
    requires NearDigits(Resolved(nodes, k), index, None)
    requires Less(Lookup(CacheOf(FoldNodes(nodes), k).items, x).priority, n.Priority())
    requires PositionForIndex(Resolved(nodes, k), index, None).Some?
    requires Carries(n, ListInsert(k, x, PositionForIndex(Resolved(nodes, k), index, None).value))
    ensures var r := Resolved(nodes, k);
      Resolved(nodes + [n], k) ==
        if Lookup(CacheOf(FoldNodes(nodes), k).items, x).deleted then r
        else Put(r, index, PositionForIndex(r, index, None).value, x)
  {
    var r, pos := Resolved(nodes, k), PositionForIndex(Resolved(nodes, k), index, None).value;
    var c := CacheOf(FoldNodes(nodes), k);
    CarriedFold(nodes, n, ListInsert(k, x, pos));
    VisibleIsShown(nodes, k);
    InsertShows(c, n.Priority(), k, x, pos, r);
    PutIs(r, index, pos, x);
  }

  lemma InsertShows(c: ListCache, prio: OpId, k: string, x: ItemId, pos: string, r: seq<Placed>)
    requires c.visible == ShownSet(c.items) == Elements(r) && Ascending(r) && Less(Lookup(c.items, x).priority, prio)
    ensures UpdateList(c, prio, ListInsert(k, x, pos)).visible ==
      if Lookup(c.items, x).deleted then c.visible else Elements(Without(r, Some(x))) + {(pos, x)}
  {
    WithoutKeeps(r, Some(x));
    var c' := UpdateList(c, prio, ListInsert(k, x, pos));
    forall p ensures p in c'.visible <==>
      p in if Lookup(c.items, x).deleted then c.visible else Elements(Without(r, Some(x))) + {(pos, x)}
    {
      InShown(c.items, p);
    }
  }

  /** The listing with `x` at the clamped index, and nowhere else. */
  ghost function Put(r: seq<Placed>, index: nat, pos: string, x: ItemId): seq<Placed> {
    var i := Min(index, |r|);
    WithoutConcat(r[..i], r[i..], Some(x));
    assert r == r[..i] + r[i..];
    InsertAt(Without(r, Some(x)), |Without(r[..i], Some(x))|, (pos, x))
  }

  lemma PutIs(r: seq<Placed>, index: nat, pos: Position, x: ItemId)
    requires Ascending(r) && NearDigits(r, index, None) && PositionForIndex(r, index, None) == Some(pos)
    ensures Listing(Elements(Without(r, Some(x))) + {(pos, x)}) == Put(r, index, pos, x)
  {
    WithoutNone(r);
    var i := Min(index, |r|);
    BetweenWorks(if i == 0 then None else Some(r[i - 1].0), if i >= |r| then None else Some(r[i].0));
    Replaces(r, i, (pos, x));
  }

  /** An item not listed before stands exactly at the clamped index. */
  lemma PutNew(r: seq<Placed>, index: nat, pos: string, x: ItemId)
    requires forall i :: 0 <= i < |r| ==> r[i].1 != x
    ensures Put(r, index, pos, x) == InsertAt(r, Min(index, |r|), (pos, x))
  {
    var i := Min(index, |r|);
    WithoutAbsent(r, x);
    WithoutAbsent(r[..i], x);
  }

  lemma {:induction false} WithoutAbsent(r: seq<Placed>, x: ItemId)
    requires forall i :: 0 <= i < |r| ==> r[i].1 != x
    ensures Without(r, Some(x)) == r
  {
    if r != [] {
      WithoutAbsent(r[1..], x);
      assert r == [r[0]] + r[1..];
    }
  }

  lemma {:induction false} RankedIncluded(nodes: seq<SyncNode>)
    ensures forall n :: n in RankedOnly(nodes) ==> n in nodes
  {
    if nodes != [] {
      RankedIncluded(nodes[..|nodes| - 1]);
      assert nodes == nodes[..|nodes| - 1] + [nodes[|nodes| - 1]];
    }
  }

  /** An item's priority is that of some admitted node, so a later lamport beats it. */
  lemma LaterOutranks(nodes: seq<SyncNode>, n: SyncNode, k: string, x: ItemId)
    requires forall j :: 0 <= j < |nodes| ==> nodes[j].tx.lamport < n.tx.lamport
    requires n.Priority() != ZERO_PRIORITY
    ensures var c := CacheOf(FoldNodes(nodes), k);
      c.visible == ShownSet(c.items) && Less(Lookup(c.items, x).priority, n.Priority())
  {
    var ranked := RankedOnly(nodes);
    CacheSkipsUnranked(nodes);
    CacheTracks(ranked, k, x);
    ItemExplained(ranked, k, x);
    RankedIncluded(nodes);
    forall j | 0 <= j < |ranked| ensures ranked[j].tx.lamport < n.tx.lamport { assert ranked[j] in ranked; }
  }

  /** Moving a visible item takes it out and puts it at the index, provided the
      move outranks every stored node, as the local clock ensures. */
  lemma MoveLands(nodes: seq<SyncNode>, n: SyncNode, k: string, x: ItemId, index: nat)
    requires NearDigits(Resolved(nodes, k), index, Some(x))
    requires exists i :: 0 <= i < |Resolved(nodes, k)| && Resolved(nodes, k)[i].1 == x
    requires forall j :: 0 <= j < |nodes| ==> nodes[j].tx.lamport < n.tx.lamport
    requires PositionForIndex(Resolved(nodes, k), index, Some(x)).Some?
    requires Carries(n, ListMove(k, x, PositionForIndex(Resolved(nodes, k), index, Some(x)).value))
    ensures var r := Resolved(nodes, k);
      var f := Without(r, Some(x));
      Resolved(nodes + [n], k) == InsertAt(f, Min(index, |f|), (PositionForIndex(r, index, Some(x)).value, x))
  {
    var r, pos := Resolved(nodes, k), PositionForIndex(Resolved(nodes, k), index, Some(x)).value;
    var c, c' := CacheOf(FoldNodes(nodes), k), CacheOf(FoldNodes(nodes + [n]), k);
    CarriedFold(nodes, n, ListMove(k, x, pos));
    LaterOutranks(nodes, n, k, x);
    WithoutKeeps(r, Some(x));
    var i :| 0 <= i < |r| && r[i].1 == x;
    assert r[i] in Elements(r);
    InShown(c.items, r[i]);
    forall p ensures p in c'.visible <==> p in Elements(Without(r, Some(x))) + {(pos, x)} {
      assert p in c.visible <==> p in Elements(r);
      InShown(c.items, p);
    }
    Lands(r, index, Some(x), x, c'.visible);
  }

  // ----- The index helpers -----

  /** The position for an index, computed as the source does. */
  method ComputePosition(seqn: seq<Placed>, index: nat, exclude: Option<ItemId>) returns (r: Option<Position>)
    requires NearDigits(seqn, index, exclude)
    ensures r == PositionForIndex(seqn, index, exclude)
  {
    var f := Without(seqn, exclude);
    var i := Min(index, |f|);
    var left: Option<Position> := if i == 0 then None else Some(f[i - 1].0);
    var right: Option<Position> := if i >= |f| then None else Some(f[i].0);
    r := Between(left, right);
  }
}
