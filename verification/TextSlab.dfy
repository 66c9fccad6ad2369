/** The chunk slab of a text projection: chunks in stable slots, their order,
    and the slot of every identity. Its operations are proved to be navigation,
    insertion and deletion on the flat sequence (core/crdt/src/text.rs). */
module TextSlab {
  import opened Core
  import opened TextOrder
  import opened TextHistory
  import opened PositionIndex
  import opened TextBytes
  import opened TextChunks

  /** A place in the all-items sequence: position in `order`, index in the chunk. */
  datatype Loc = Loc(orderPos: nat, itemIdx: nat)

  /** A chunk with freshly counted caches. */
  method Recount(items: seq<Item>, orderPos: nat) returns (c: Chunk)
    ensures Counted(c) && c.items == items && c.orderPos == orderPos
  {
    var chars := CountVisible(items, |items|);
    var bytes := CountBytes(items, |items|);
    assert items[..|items|] == items;
    c := Chunk(items, chars, bytes, orderPos);
  }

  lemma MovesNext(items: seq<Item>, mid: nat, k: nat, x: OpId)
    requires mid <= k < |items|
    ensures MovesAt(items[..k + 1], mid, x) <==> MovesAt(items[..k], mid, x) || x == items[k].id
  {
    var a, b := items[..k], items[..k + 1];
    assert b == a + [items[k]];
    if MovesAt(a, mid, x) {
      var j :| mid <= j < |a| && a[j].id == x;
      assert b[j].id == x;
    }
    assert b[k].id == items[k].id;
  }

  /** The items from `mid` on are recorded under slot `newSlot`. */
  method MoveIds(ids: map<OpId, nat>, items: seq<Item>, mid: nat, newSlot: nat) returns (r: map<OpId, nat>)
    requires mid <= |items| && forall k :: 0 <= k < |items| ==> items[k].id in ids
    ensures r.Keys == ids.Keys
    ensures forall x :: x in ids ==> r[x] == if MovesAt(items, mid, x) then newSlot else ids[x]
  {
    r := ids;
    for k := mid to |items|
      invariant r.Keys == ids.Keys
      invariant forall x :: x in ids ==> r[x] == if MovesAt(items[..k], mid, x) then newSlot else ids[x]
    {
      forall x | x in ids
        ensures MovesAt(items[..k + 1], mid, x) <==> MovesAt(items[..k], mid, x) || x == items[k].id
      {
        MovesNext(items, mid, k, x);
      }
      r := r[items[k].id := newSlot];
    }
    assert items[..|items|] == items;
  }

  /** `order` lists every slot, and the chunks before position `from` know their place. */
  ghost predicate NumberedTo(chunks: seq<Chunk>, order: seq<nat>, from: nat) {
    && from <= |order| == |chunks| && NoDuplicates(order)
    && (forall i :: 0 <= i < |order| ==> order[i] < |chunks|)
    && (forall i :: 0 <= i < from ==> chunks[order[i]].orderPos == i)
  }

  /** Every chunk from position `from` on is told its place in `order`. */
  method RenumberFrom(chunks: seq<Chunk>, order: seq<nat>, from: nat) returns (r: seq<Chunk>)
    requires NumberedTo(chunks, order, from)
    ensures Slots(r, order)
    ensures forall s :: 0 <= s < |chunks| ==> r[s] == chunks[s].(orderPos := r[s].orderPos)
  {
    r := chunks;
    for i := from to |order|
      invariant |r| == |chunks|
      invariant forall k :: 0 <= k < i ==> r[order[k]].orderPos == k
      invariant forall s :: 0 <= s < |chunks| ==> r[s] == chunks[s].(orderPos := r[s].orderPos)
    {
      forall k | 0 <= k < i ensures order[k] != order[i] { assert Differ(order, k, i); }
      r := r[order[i] := r[order[i]].(orderPos := i)];
    }
  }

  /** After a cut the slots are still distinct, and numbered up to `pos`. */
  lemma SplitReady(chunks: seq<Chunk>, order: seq<nat>, pos: nat, left: Chunk, right: Chunk)
    requires Slots(chunks, order) && pos < |order| && left.orderPos == pos
    ensures NumberedTo(chunks[order[pos] := left] + [right], InsertAt(order, pos + 1, |chunks|), pos + 1)
  {
    var order' := InsertAt(order, pos + 1, |chunks|);
    forall i, j | 0 <= i < j < |order'| ensures Differ(order', i, j) {
      if i != pos + 1 && j != pos + 1 {
        var a, b := if i <= pos then i else i - 1, if j <= pos then j else j - 1;
        assert order'[i] == order[a] && order'[j] == order[b];
      }
    }
  }

  /** A cut chunk, renumbered, is a valid slab with the same flat sequence. */
  lemma SplitStored(chunks: seq<Chunk>, order: seq<nat>, ids: map<OpId, nat>, pos: nat, mid: nat,
                    left: Chunk, right: Chunk, chunks': seq<Chunk>, ids': map<OpId, nat>)
    requires Stored(chunks, order, ids) && pos < |order| && mid <= |chunks[order[pos]].items|
    requires Counted(left) && left.items == chunks[order[pos]].items[..mid]
    requires Counted(right) && right.items == chunks[order[pos]].items[mid..]
    requires |chunks'| == |chunks| + 1 && Slots(chunks', InsertAt(order, pos + 1, |chunks|))
    requires forall s :: 0 <= s < |chunks'| ==>
      chunks'[s] == (chunks[order[pos] := left] + [right])[s].(orderPos := chunks'[s].orderPos)
    requires ids'.Keys == ids.Keys
    requires forall x :: x in ids ==>
      ids'[x] == if MovesAt(chunks[order[pos]].items, mid, x) then |chunks| else ids[x]
    ensures Stored(chunks', InsertAt(order, pos + 1, |chunks|), ids')
    ensures Flatten(Pieces(chunks', InsertAt(order, pos + 1, |chunks|))) == Flatten(Pieces(chunks, order))
    ensures mid == |chunks[order[pos]].items| / 2 ==>
      Pieces(chunks', InsertAt(order, pos + 1, |chunks|)) == Halved(Pieces(chunks, order), pos)
  {
    SplitPieces(chunks, order, pos, mid, chunks');
    forall s ensures CountedAt(chunks', s) {
      assert CountedAt(chunks, s);
    }
    StoredSplit(chunks, order, ids, pos, mid, chunks', ids');
  }

  /** One empty chunk stores nothing. */
  lemma StoredFirst(ids: map<OpId, nat>)
    requires ids.Keys == {}
    ensures Stored([Chunk([], 0, 0, 0)], [0], ids)
    ensures Flatten(Pieces([Chunk([], 0, 0, 0)], [0])) == []
  {
    var chunks := [Chunk([], 0, 0, 0)];
    assert forall s :: CountedAt(chunks, s);
    assert Pieces(chunks, [0]) == [[]];
    FlattenOne([]);
  }

  datatype Slab = Slab(chunks: seq<Chunk>, order: seq<nat>, idToChunk: map<OpId, nat>) {

    ghost predicate Valid() {
      Stored(chunks, order, idToChunk)
    }

    ghost function Parts(): seq<seq<Item>>
      requires Valid()
    {
      Pieces(chunks, order)
    }

    /** The flat sequence, tombstones included. */
    ghost function Flat(): seq<Item>
      requires Valid()
    {
      Flatten(Parts())
    }

    /** A location inside a chunk or at its end, or past the last chunk. */
    ghost predicate InRange(loc: Loc)
      requires Valid()
    {
      if loc.orderPos < |order| then loc.itemIdx <= |chunks[order[loc.orderPos]].items|
      else loc.orderPos == |order| && loc.itemIdx == 0
    }

    ghost predicate AtItem(loc: Loc)
      requires Valid()
    {
      loc.orderPos < |order| && loc.itemIdx < |chunks[order[loc.orderPos]].items|
    }

    /** The flat position a location stands for. */
    ghost function FlatPos(loc: Loc): nat
      requires Valid() && InRange(loc)
    {
      Offset(Parts(), loc.orderPos) + loc.itemIdx
    }

    function ItemAt(loc: Loc): (x: Item)
      requires Valid() && AtItem(loc)
      ensures FlatPos(loc) < |Flat()| && x == Flat()[FlatPos(loc)]
    {
      LocationPrefix(Parts(), loc.orderPos, loc.itemIdx);
      chunks[order[loc.orderPos]].items[loc.itemIdx]
    }

    /** The map knows exactly the identities of the flat sequence. */
    lemma KnownIds(x: OpId)
      requires Valid()
      ensures x in idToChunk <==> x in Ids(Flat())
    {
      assert x in idToChunk <==> x in Elements(Ids(Flat()));
    }

    // ----- Navigation -----

    method LocOfId(x: OpId) returns (r: Option<Loc>)
      requires Valid()
      ensures r.Some? <==> x in Ids(Flat())
      ensures r.Some? ==> AtItem(r.value) && ItemAt(r.value).id == x
    {
      assert x in idToChunk <==> x in Elements(Ids(Flat()));
      if x !in idToChunk { return None; }
      ghost var i, j := FindStored(chunks, order, idToChunk, x);
      var c := chunks[idToChunk[x]];
      var k := 0;
      while c.items[k].id != x
        invariant 0 <= k <= j
        decreases j - k
      {
        k := k + 1;
      }
      return Some(Loc(c.orderPos, k));
    }

    /** Move a location forward to an actual item; `None` at the end. */
    method NormItemLoc(start: Loc) returns (r: Option<Loc>)
      requires Valid() && InRange(start)
      ensures r.None? ==> FlatPos(start) == |Flat()|
      ensures r.Some? ==> AtItem(r.value) && FlatPos(r.value) == FlatPos(start)
    {
      var loc := start;
      while loc.orderPos < |order|
        invariant InRange(loc) && FlatPos(loc) == FlatPos(start)
        decreases |order| - loc.orderPos
      {
        if loc.itemIdx < |chunks[order[loc.orderPos]].items| { return Some(loc); }
        FlattenAround(Parts(), loc.orderPos);
        loc := Loc(loc.orderPos + 1, 0);
      }
      assert Parts()[..|order|] == Parts();
      return None;
    }

    method EndLoc() returns (loc: Loc)
      requires Valid() && order != []
      ensures loc.orderPos < |order| && InRange(loc) && FlatPos(loc) == |Flat()|
    {
      var last := |order| - 1;
      loc := Loc(last, |chunks[order[last]].items|);
      FlattenAround(Parts(), last);
      assert Parts()[..last + 1] == Parts();
    }

    /** The scan starts right after the anchor's only occurrence. */
    lemma StartIsNext(loc: Loc, p: OpId)
      requires Valid() && AtItem(loc) && ItemAt(loc).id == p
      ensures p in Ids(Flat())
      ensures FlatPos(loc) + 1 == StartAfter(Ids(Flat()), Some(p))
    {
      var ids := Ids(Flat());
      assert ids[FlatPos(loc)] == p;
      SameIndex(ids, IndexOf(ids, p), FlatPos(loc));
    }

    /** Just after the anchor, or the front. */
    method StartLoc(parent: Option<OpId>) returns (loc: Loc)
      requires Valid() && order != []
      requires parent.Some? ==> parent.value in Ids(Flat())
      ensures loc.orderPos < |order| && InRange(loc)
      ensures FlatPos(loc) == StartAfter(Ids(Flat()), parent)
    {
      loc := Loc(0, 0);
      if parent.Some? {
        var ploc := LocOfId(parent.value);
        loc := Loc(ploc.value.orderPos, ploc.value.itemIdx + 1);
        StartIsNext(ploc.value, parent.value);
      }
    }

    /** The insertion scan: skip every identity greater than `x`. */
    method ScanFrom(startLoc: Loc, x: OpId) returns (loc: Loc)
      requires Valid() && startLoc.orderPos < |order| && InRange(startLoc)
      ensures loc.orderPos < |order| && InRange(loc)
      ensures FlatPos(startLoc) <= |Flat()|
      ensures FlatPos(loc) == Scan(Ids(Flat()), FlatPos(startLoc), x)
    {
      loc := startLoc;
      ghost var start := FlatPos(startLoc);
      ghost var ids := Ids(Flat());
      LocationPrefix(Parts(), loc.orderPos, loc.itemIdx);
      while true
        invariant loc.orderPos < |order| && InRange(loc)
        invariant start <= FlatPos(loc) <= |ids|
        invariant forall k :: start <= k < FlatPos(loc) ==> Less(x, ids[k])
        decreases |ids| - FlatPos(loc)
      {
        var norm := NormItemLoc(loc);
        if norm.None? {
          loc := EndLoc();
          ScanIs(ids, start, x, FlatPos(loc));
          return;
        }
        var existing := ItemAt(norm.value).id;
        if Less(x, existing) {
          loc := Loc(norm.value.orderPos, norm.value.itemIdx + 1);
        } else {
          loc := norm.value;
          ScanIs(ids, start, x, FlatPos(loc));
          return;
        }
      }
    }

    /** Where the flat rule puts a new identity. */
    method FindPlace(parent: Option<OpId>, x: OpId) returns (loc: Loc)
      requires Valid() && order != []
      requires parent.Some? ==> parent.value in Ids(Flat())
      ensures loc.orderPos < |order| && InRange(loc)
      ensures FlatPos(loc) == Place(Ids(Flat()), parent, x)
    {
      var start := StartLoc(parent);
      loc := ScanFrom(start, x);
    }

    /** The visible item number `n` of one chunk, and how many precede it in all. */
    method NthInChunk(pos: nat, n: nat) returns (loc: Loc)
      requires Valid() && pos < |order| && n < CharWeights(Parts())[pos]
      ensures AtItem(loc) && !ItemAt(loc).deleted
      ensures |Visible(Flat()[..FlatPos(loc)])| == Prefix(CharWeights(Parts()), pos) + n
    {
      var items := chunks[order[pos]].items;
      assert Parts()[pos] == items;
      var k := NthVisible(items, n);
      loc := Loc(pos, k);
      CharsAtLocation(Parts(), pos, k);
    }

    // ----- Changes -----

    /** The first chunk of an empty document. */
    method WithChunk() returns (s: Slab)
      requires Valid()
      ensures s.Valid() && s.order != [] && s.Flat() == Flat()
      ensures AtMost(Parts(), 128) ==> AtMost(s.Parts(), 128)
      ensures order != [] ==> s == this
    {
      if order != [] { return this; }
      assert Parts() == [] && idToChunk.Keys == {};
      StoredFirst(idToChunk);
      s := Slab([Chunk([], 0, 0, 0)], [0], idToChunk);
    }

    /** Put a new item into its chunk. */
    method InsertItem(loc: Loc, x: Item) returns (s: Slab)
      requires Valid() && loc.orderPos < |order| && InRange(loc) && x.id !in idToChunk
      ensures s.Valid() && s.order == order
      ensures FlatPos(loc) <= |Flat()| && s.Flat() == InsertAt(Flat(), FlatPos(loc), x)
      ensures OneMore(Parts(), s.Parts(), loc.orderPos)
      ensures CharWeights(s.Parts()) == CharWeights(Parts())[loc.orderPos := s.chunks[order[loc.orderPos]].visibleChars]
      ensures ByteWeights(s.Parts()) == ByteWeights(Parts())[loc.orderPos := s.chunks[order[loc.orderPos]].visibleBytes]
      ensures x.deleted ==>
        CharWeights(s.Parts()) == CharWeights(Parts()) && ByteWeights(s.Parts()) == ByteWeights(Parts())
    {
      var slot := order[loc.orderPos];
      StoredInsert(chunks, order, idToChunk, loc.orderPos, loc.itemIdx, x);
      s := Slab(chunks[slot := ChunkInsert(chunks[slot], loc.itemIdx, x)], order, idToChunk[x.id := slot]);
    }

    /** Turn an item into a tombstone. */
    method DeleteItem(loc: Loc) returns (s: Slab)
      requires Valid() && AtItem(loc) && !ItemAt(loc).deleted
      ensures s.Valid() && s.order == order
      ensures s.Flat() == Tombstone(Flat(), FlatPos(loc))
      ensures AtMost(Parts(), 128) ==> AtMost(s.Parts(), 128)
      ensures CharWeights(s.Parts()) == CharWeights(Parts())[loc.orderPos := s.chunks[order[loc.orderPos]].visibleChars]
      ensures ByteWeights(s.Parts()) == ByteWeights(Parts())[loc.orderPos := s.chunks[order[loc.orderPos]].visibleBytes]
    {
      var slot := order[loc.orderPos];
      StoredDelete(chunks, order, idToChunk, loc.orderPos, loc.itemIdx);
      PieceTombstone(Parts(), loc.orderPos, loc.itemIdx);
      s := Slab(chunks[slot := ChunkDelete(chunks[slot], loc.itemIdx)], order, idToChunk);
    }

    /** Cutting a chunk in half leaves the flat sequence unchanged. */
    method SplitChunk(pos: nat) returns (s: Slab)
      requires Valid() && pos < |order|
      ensures s.Valid() && s.Flat() == Flat()
      ensures s.Parts() == Halved(Parts(), pos)
    {
      var slot := order[pos];
      var items := chunks[slot].items;
      var mid := |items| / 2;
      assert forall k :: 0 <= k < |items| ==> Parts()[pos][k].id in idToChunk;
      var ids := MoveIds(idToChunk, items, mid, |chunks|);
      var left := Recount(items[..mid], pos);
      var right := Recount(items[mid..], 0);
      var order' := InsertAt(order, pos + 1, |chunks|);
      SplitReady(chunks, order, pos, left, right);
      var chunks' := RenumberFrom(chunks[slot := left] + [right], order', pos + 1);
      SplitStored(chunks, order, idToChunk, pos, mid, left, right, chunks', ids);
      s := Slab(chunks', order', ids);
    }

    /** The weights both indexes are built from. */
    method Weights() returns (cw: seq<nat>, bw: seq<nat>)
      requires Valid()
      ensures cw == CharWeights(Parts()) && bw == ByteWeights(Parts())
    {
      cw, bw := [], [];
      for i := 0 to |order|
        invariant |cw| == |bw| == i
        invariant forall k :: 0 <= k < i ==> cw[k] == |Visible(Parts()[k])| && bw[k] == |Encode(Parts()[k])|
      {
        assert CountedAt(chunks, order[i]);
        cw := cw + [chunks[order[i]].visibleChars];
        bw := bw + [chunks[order[i]].visibleBytes];
      }
    }
  }
}
