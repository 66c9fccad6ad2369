/** The text projection: a chunked list with tombstones, two position indexes,
    buffered orphans and early deletes. Every method is proved against the flat
    sequence, and the flat sequence against the history that was delivered
    (core/crdt/src/text.rs). */
module TextProjection {
  import opened Core
  import opened TextOrder
  import opened TextHistory
  import opened PositionIndex
  import opened TextBytes
  import opened TextChunks
  import opened TextSlab
  import opened TextAnchors

  /** A chunk is cut once it holds more items than this. */
  const CHUNK_SPLIT: nat := 128

  type Orphans = map<OpId, seq<(OpId, char)>>

  /** The births and deletes that arrived, the order of integration, and the
      forest it grew. */
  datatype Story = Story(births: Births, deletes: set<OpId>, log: seq<OpId>, forest: Anchors) {
    ghost predicate Shown(flat: seq<Item>) {
      Shows(flat, births, deletes, log, forest)
    }
  }

  /** A waiting insert: listed under its anchor, and not shown. */
  ghost predicate OrphanEntry(ins: Births, log: seq<OpId>, p: OpId, e: (OpId, char)) {
    e.0 in ins && e.0 !in log && ins[e.0] == Birth(Some(p), e.1)
  }

  ghost predicate EntriesOk(ins: Births, log: seq<OpId>, p: OpId, es: seq<(OpId, char)>) {
    && (forall k :: 0 <= k < |es| ==> OrphanEntry(ins, log, p, es[k]))
    && (forall j, k :: 0 <= j < k < |es| ==> es[j].0 != es[k].0)
  }

  /** Inserts waiting for their anchor are listed under it, once each. */
  ghost predicate OrphansListed(ins: Births, log: seq<OpId>, orphans: Orphans) {
    forall p :: p in orphans ==> EntriesOk(ins, log, p, orphans[p])
  }

  ghost predicate Waiting(ins: Births, orphans: Orphans, c: OpId)
    requires c in ins
  {
    var a := ins[c].after;
    a.Some? && a.value in orphans && (c, ins[c].ch) in orphans[a.value]
  }

  /** Draining in progress: the anchors in `open` are shown and may still have
      children listed; `rest` are children of `p` already taken off the list. */
  ghost predicate Draining(ins: Births, log: seq<OpId>, orphans: Orphans, open: set<OpId>, p: OpId,
                           rest: seq<(OpId, char)>)
  {
    && OrphansListed(ins, log, orphans)
    && EntriesOk(ins, log, p, rest) && (rest != [] ==> p !in orphans)
    && (forall q :: q in orphans && q in log ==> q in open)
    && (forall c :: c in ins && c !in log ==> Waiting(ins, orphans, c) || (c, ins[c].ch) in rest)
  }

  /** The bookkeeping of a drain with anchors on `stack`. */
  datatype Queue = Queue(ins: Births, log: seq<OpId>, orphans: Orphans, orphanIds: set<OpId>,
                         stack: seq<OpId>, p: OpId, rest: seq<(OpId, char)>) {
    ghost predicate Ok() {
      && orphanIds == ins.Keys - Elements(log)
      && Draining(ins, log, orphans, Elements(stack), p, rest)
      && (rest != [] ==> p in log) && forall q :: q in stack ==> q in log
    }

    /** One taken child integrated. */
    lemma Step() returns (q: Queue)
      requires Ok() && rest != []
      ensures OrphanEntry(ins, log, p, rest[0]) && p in log
      ensures q == Queue(ins, log + [rest[0].0], orphans, orphanIds - {rest[0].0}, stack + [rest[0].0], p, rest[1..])
      ensures q.Ok()
    {
      var x := rest[0].0;
      q := Queue(ins, log + [x], orphans, orphanIds - {x}, stack + [x], p, rest[1..]);
      DrainStep(ins, log, orphans, Elements(stack), p, rest);
      ElementsSnoc(stack, x);
      ElementsSnoc(log, x);
      assert OrphanEntry(ins, log, p, rest[0]);
    }

    /** The top anchor popped, its children taken if there are any. */
    lemma Pop() returns (q: Queue)
      requires Ok() && stack != [] && rest == []
      ensures var top := stack[|stack| - 1];
        q == if top in orphans
             then Queue(ins, log, orphans - {top}, orphanIds, stack[..|stack| - 1], top, orphans[top])
             else Queue(ins, log, orphans, orphanIds, stack[..|stack| - 1], top, [])
      ensures q.Ok()
    {
      var below, top := stack[..|stack| - 1], stack[|stack| - 1];
      assert stack == below + [top] && top in stack;
      ElementsSnoc(below, top);
      if top in orphans {
        DrainTake(ins, log, orphans, Elements(below), top);
        q := Queue(ins, log, orphans - {top}, orphanIds, below, top, orphans[top]);
      } else {
        q := Queue(ins, log, orphans, orphanIds, below, top, []);
      }
    }
  }

  lemma DrainTake(ins: Births, log: seq<OpId>, orphans: Orphans, open: set<OpId>, p: OpId)
    requires Draining(ins, log, orphans, open + {p}, p, []) && p in orphans
    ensures Draining(ins, log, orphans - {p}, open, p, orphans[p])
  {
    var o := orphans - {p};
    forall q | q in o ensures EntriesOk(ins, log, q, o[q]) { assert o[q] == orphans[q]; }
    forall c | c in ins && c !in log ensures Waiting(ins, o, c) || (c, ins[c].ch) in orphans[p] {
      assert Waiting(ins, orphans, c);
    }
  }

  lemma DrainStep(ins: Births, log: seq<OpId>, orphans: Orphans, open: set<OpId>, p: OpId, rest: seq<(OpId, char)>)
    requires Draining(ins, log, orphans, open, p, rest) && rest != []
    ensures Draining(ins, log + [rest[0].0], orphans, open + {rest[0].0}, p, rest[1..])
  {
    var x, log' := rest[0].0, log + [rest[0].0];
    assert OrphanEntry(ins, log, p, rest[0]);
    forall q | q in orphans ensures EntriesOk(ins, log', q, orphans[q]) {
      forall k | 0 <= k < |orphans[q]| ensures OrphanEntry(ins, log', q, orphans[q][k]) {
        assert OrphanEntry(ins, log, q, orphans[q][k]);
      }
    }
    forall k | 0 <= k < |rest[1..]| ensures OrphanEntry(ins, log', p, rest[1..][k]) {
      assert OrphanEntry(ins, log, p, rest[k + 1]);
    }
    forall c | c in ins && c !in log' ensures Waiting(ins, orphans, c) || (c, ins[c].ch) in rest[1..] {
      assert rest == [rest[0]] + rest[1..];
    }
  }

  /** The births not in the log wait, each under its anchor, and no anchor is shown. */
  ghost predicate AllWait(ins: Births, log: seq<OpId>, orphans: Orphans, orphanIds: set<OpId>) {
    && orphanIds == ins.Keys - Elements(log)
    && OrphansListed(ins, log, orphans)
    && (forall p :: p in orphans ==> p !in log)
    && (forall c :: c in ins && c !in log ==> Waiting(ins, orphans, c))
  }

  lemma EmptySlab()
    ensures var s := Slab([], [], map[]);
      s.Valid() && s.Flat() == [] && CharWeights(s.Parts()) == [] && ByteWeights(s.Parts()) == []
  {
    var s := Slab([], [], map[]);
    assert Pieces([], []) == [];
    assert s.Valid();
  }

  lemma EmptyStory()
    ensures Story(map[], {}, [], map[]).Shown([]) && AllWait(map[], [], map[], {})
    ensures Encode([]) == [] && Visible([]) == []
  {
  }

  class TextProjection {
    var slab: Slab
    var pendingDeletes: set<OpId>
    var orphans: Orphans
    var orphanIds: set<OpId>
    var visibleString: seq<Byte>
    var visibleCharsTotal: nat
    var totalItems: nat
    var tombstoneCount: nat
    const charIndex: CountedPositionIndex
    const byteIndex: CountedPositionIndex

    /** What has been delivered, and how it grew. */
    ghost var told: Story

    /** Both indexes hold the visible weights of the chunks. */
    ghost predicate Indexed(s: Slab)
      requires s.Valid()
      reads charIndex, byteIndex
    {
      && charIndex != byteIndex && charIndex.Valid() && byteIndex.Valid()
      && charIndex.weights == CharWeights(s.Parts()) && byteIndex.weights == ByteWeights(s.Parts())
    }

    /** The cached text and counters describe `flat`. */
    ghost predicate Cached(flat: seq<Item>)
      reads `visibleString, `visibleCharsTotal, `totalItems, `tombstoneCount
    {
      && visibleString == Encode(flat)
      && visibleCharsTotal == |Visible(flat)|
      && totalItems == |flat| && tombstoneCount == totalItems - visibleCharsTotal
    }

    /** The chunked storage, both indexes and the cached text all describe one
        flat sequence. */
    ghost predicate Structure()
      reads `slab, `visibleString, `visibleCharsTotal, `totalItems, `tombstoneCount, charIndex, byteIndex
    {
      slab.Valid() && Indexed(slab) && Cached(slab.Flat())
    }

    /** The flat sequence is what the delivered history grew so far, in chunks of
        at most 128 items. */
    ghost predicate Shown()
      requires slab.Valid()
      reads `slab, `told, `pendingDeletes
    {
      && told.Shown(slab.Flat()) && pendingDeletes == told.deletes - Elements(told.log)
      && AtMost(slab.Parts(), 128)
    }

    /** Nothing waits whose anchor is shown. */
    ghost predicate Settled()
      reads `told, `orphans, `orphanIds
    {
      AllWait(told.births, told.log, orphans, orphanIds)
    }

    ghost predicate Valid()
      reads this, charIndex, byteIndex
    {
      Structure() && Shown() && Settled()
    }

    constructor ()
      ensures Valid() && told.births == map[] && told.deletes == {}
      ensures fresh(charIndex) && fresh(byteIndex)
    {
      slab := Slab([], [], map[]);
      pendingDeletes, orphans, orphanIds := {}, map[], {};
      visibleString, visibleCharsTotal, totalItems, tombstoneCount := [], 0, 0, 0;
      charIndex := new CountedPositionIndex();
      byteIndex := new CountedPositionIndex();
      told := Story(map[], {}, [], map[]);
      new;
      EmptySlab();
      EmptyStory();
    }

    // ----- Indexed reads -----

    /** Visible characters before a location. */
    method VisiblePrefixAt(loc: Loc) returns (n: nat)
      requires slab.Valid() && Indexed(slab) && loc.orderPos < |slab.order| && slab.InRange(loc)
      ensures slab.FlatPos(loc) <= |slab.Flat()| && n == |Visible(slab.Flat()[..slab.FlatPos(loc)])|
    {
      var items := slab.chunks[slab.order[loc.orderPos]].items;
      var base := charIndex.PrefixSum(loc.orderPos);
      var inside := CountVisible(items, loc.itemIdx);
      ghost var ps, flat, p := slab.Parts(), slab.Flat(), slab.FlatPos(loc);
      assert ps[loc.orderPos] == items && p == Offset(ps, loc.orderPos) + loc.itemIdx;
      CharsBefore(ps, flat, items, loc.orderPos, loc.itemIdx, base, inside);
      n := base + inside;
    }

    /** Visible bytes before a location. */
    method BytePrefixAt(loc: Loc) returns (n: nat)
      requires slab.Valid() && Indexed(slab) && loc.orderPos < |slab.order| && slab.InRange(loc)
      ensures slab.FlatPos(loc) <= |slab.Flat()| && n == |Encode(slab.Flat()[..slab.FlatPos(loc)])|
    {
      var items := slab.chunks[slab.order[loc.orderPos]].items;
      var base := byteIndex.PrefixSum(loc.orderPos);
      var inside := CountBytes(items, loc.itemIdx);
      ghost var ps, flat, p := slab.Parts(), slab.Flat(), slab.FlatPos(loc);
      assert ps[loc.orderPos] == items && p == Offset(ps, loc.orderPos) + loc.itemIdx;
      BytesBefore(ps, flat, items, loc.orderPos, loc.itemIdx, base, inside);
      n := base + inside;
    }

    // ----- Index maintenance -----

    /** Both indexes are rebuilt from the chunk caches. */
    method RebuildIndexes(s: Slab)
      requires s.Valid() && charIndex != byteIndex && 4 * |s.Flat()| <= U32_MAX
      modifies charIndex, byteIndex
      ensures Indexed(s)
    {
      var cw, bw := s.Weights();
      TotalsAreVisible(s.Parts());
      charIndex.RebuildFromWeights(cw);
      byteIndex.RebuildFromWeights(bw);
    }

    /** Both indexes learn the new weight of one chunk. */
    method IndexChunk(ghost was: Slab, s: Slab, pos: nat)
      requires was.Valid() && Indexed(was)
      requires s.Valid() && s.order == was.order && pos < |s.order| && 4 * |s.Flat()| <= U32_MAX
      requires CharWeights(s.Parts()) == CharWeights(was.Parts())[pos := s.chunks[s.order[pos]].visibleChars]
      requires ByteWeights(s.Parts()) == ByteWeights(was.Parts())[pos := s.chunks[s.order[pos]].visibleBytes]
      modifies charIndex, byteIndex
      ensures Indexed(s)
    {
      TotalsAreVisible(s.Parts());
      charIndex.UpdateWeight(pos, s.chunks[s.order[pos]].visibleChars);
      byteIndex.UpdateWeight(pos, s.chunks[s.order[pos]].visibleBytes);
    }

    // ----- Insertion -----

    /** The string gains one character at a byte offset. */
    method SpliceText(byteOff: nat, ch: char)
      requires byteOff <= |visibleString|
      modifies `visibleString
      ensures visibleString == old(visibleString)[..byteOff] + Utf8(ch) + old(visibleString)[byteOff..]
    {
      if byteOff == |visibleString| {
        visibleString := visibleString + Utf8(ch);
      } else {
        visibleString := visibleString[..byteOff] + Utf8(ch) + visibleString[byteOff..];
      }
    }

    /** The text and counters follow an insertion at flat position `k`. */
    method CacheInsert(ghost flat: seq<Item>, ghost k: nat, x: Item, byteOff: nat)
      requires Cached(flat) && k <= |flat| && (!x.deleted ==> byteOff == |Encode(flat[..k])|)
      modifies `visibleString, `visibleCharsTotal, `totalItems, `tombstoneCount
      ensures Cached(InsertAt(flat, k, x))
    {
      StringInsert(flat, k, x);
      totalItems := totalItems + 1;
      if x.deleted {
        tombstoneCount := tombstoneCount + 1;
        var b := |Encode(flat[..k])|;
        assert visibleString == visibleString[..b] + [] + visibleString[b..];
      } else {
        visibleCharsTotal := visibleCharsTotal + 1;
        SpliceText(byteOff, x.ch);
      }
    }

    /** Put a new item at a location. */
    method InsertItem(loc: Loc, x: Item)
      requires Structure() && loc.orderPos < |slab.order| && slab.InRange(loc)
      requires x.id !in slab.idToChunk && 4 * (totalItems + 1) <= U32_MAX
      modifies `slab, `visibleString, `visibleCharsTotal, `totalItems, `tombstoneCount, charIndex, byteIndex
      ensures Structure() && slab.order == old(slab.order)
      ensures old(slab.FlatPos(loc)) <= |old(slab.Flat())|
      ensures slab.Flat() == InsertAt(old(slab.Flat()), old(slab.FlatPos(loc)), x)
      ensures OneMore(old(slab.Parts()), slab.Parts(), loc.orderPos)
    {
      var byteOff := 0;
      if !x.deleted {
        byteOff := BytePrefixAt(loc);
      }
      ghost var flat, k := slab.Flat(), slab.FlatPos(loc);
      var s := slab.InsertItem(loc, x);
      if !x.deleted {
        IndexChunk(slab, s, loc.orderPos);
      }
      CacheInsert(flat, k, x, byteOff);
      slab := s;
    }

    method EnsureChunk()
      requires Structure()
      modifies `slab, charIndex, byteIndex
      ensures Structure() && slab.order != [] && slab.Flat() == old(slab.Flat())
      ensures AtMost(old(slab.Parts()), 128) ==> AtMost(slab.Parts(), 128)
    {
      if slab.order == [] {
        var s := slab.WithChunk();
        RebuildIndexes(s);
        slab := s;
      }
    }

    method SplitIfFull(pos: nat)
      requires Structure() && pos < |slab.order| && 4 * totalItems <= U32_MAX
      modifies `slab, charIndex, byteIndex
      ensures Structure() && slab.Flat() == old(slab.Flat())
      ensures var ps := old(slab.Parts()); slab.Parts() == if |ps[pos]| > 128 then Halved(ps, pos) else ps
    {
      if |slab.chunks[slab.order[pos]].items| > CHUNK_SPLIT {
        var s := slab.SplitChunk(pos);
        RebuildIndexes(s);
        slab := s;
      }
    }

    /** Put a new item at a location and split its chunk if that is now full. */
    method InsertAndSplit(loc: Loc, x: Item)
      requires Structure() && loc.orderPos < |slab.order| && slab.InRange(loc)
      requires x.id !in slab.idToChunk && 4 * (totalItems + 1) <= U32_MAX
      modifies `slab, `visibleString, `visibleCharsTotal, `totalItems, `tombstoneCount, charIndex, byteIndex
      ensures Structure() && old(slab.FlatPos(loc)) <= |old(slab.Flat())|
      ensures slab.Flat() == InsertAt(old(slab.Flat()), old(slab.FlatPos(loc)), x)
      ensures AtMost(old(slab.Parts()), 128) ==> AtMost(slab.Parts(), 128)
    {
      InsertItem(loc, x);
      if AtMost(old(slab.Parts()), 128) { StaysSmall(old(slab.Parts()), slab.Parts(), loc.orderPos); }
      SplitIfFull(loc.orderPos);
    }

    /** Integration of a new identity is one flat insertion at the place the
        scan finds; an early delete makes it a tombstone at birth. */
    method Integrate(x: OpId, parent: Option<OpId>, ch: char)
      requires Structure() && x !in Ids(slab.Flat())
      requires parent.Some? ==> parent.value in Ids(slab.Flat())
      requires 4 * (totalItems + 1) <= U32_MAX
      modifies `slab, `pendingDeletes, `visibleString, `visibleCharsTotal, `totalItems, `tombstoneCount, charIndex,
               byteIndex
      ensures Structure()
      ensures pendingDeletes == old(pendingDeletes) - {x}
      ensures slab.Flat() ==
        InsertAt(old(slab.Flat()), Place(Ids(old(slab.Flat())), parent, x), Item(x, ch, x in old(pendingDeletes)))
      ensures AtMost(old(slab.Parts()), 128) ==> AtMost(slab.Parts(), 128)
    {
      EnsureChunk();
      var loc := slab.FindPlace(parent, x);
      slab.KnownIds(x);
      var deleted := x in pendingDeletes;
      pendingDeletes := pendingDeletes - {x};
      InsertAndSplit(loc, Item(x, ch, deleted));
    }

    /** Integration of a birth whose anchor is shown extends the log. */
    method IntegrateBirth(x: OpId, parent: Option<OpId>, ch: char)
      requires Structure() && Shown()
      requires x in told.births && told.births[x] == Birth(parent, ch) && x !in told.log
      requires parent.Some? ==> parent.value in told.log
      requires 4 * |told.births| <= U32_MAX
      modifies `slab, `pendingDeletes, `visibleString, `visibleCharsTotal, `totalItems, `tombstoneCount, `told,
               charIndex, byteIndex
      ensures Structure() && Shown()
      ensures told.births == old(told.births) && told.deletes == old(told.deletes) && told.log == old(told.log) + [x]
    {
      ghost var next := NextStory(told, slab.Flat(), pendingDeletes, x);
      Integrate(x, parent, ch);
      told := next;
    }

    // ----- Orphans -----

    /** Draining in progress with bookkeeping `q`. */
    ghost predicate Busy(q: Queue)
      reads this, charIndex, byteIndex
    {
      && Structure() && Shown() && 4 * |told.births| <= U32_MAX
      && told.births == q.ins && told.log == q.log && orphans == q.orphans && orphanIds == q.orphanIds
    }

    /** Integrate one taken child of `p`. */
    method IntegrateOrphan(ghost q: Queue, ghost q': Queue, p: OpId, child: OpId, ch: char)
      requires Busy(q) && OrphanEntry(q.ins, q.log, p, (child, ch)) && p in q.log
      requires q'.ins == q.ins && q'.log == q.log + [child]
      requires q'.orphans == q.orphans && q'.orphanIds == q.orphanIds - {child}
      modifies `slab, `pendingDeletes, `orphanIds, `visibleString, `visibleCharsTotal, `totalItems,
               `tombstoneCount, `told, charIndex, byteIndex
      ensures Busy(q') && told.deletes == old(told.deletes)
    {
      orphanIds := orphanIds - {child};
      IntegrateBirth(child, Some(p), ch);
    }

    /** Integrate the children taken off the list of `p`, each joining the stack. */
    method DrainChildren(ghost q: Queue, children: seq<(OpId, char)>, p: OpId, stack0: seq<OpId>)
      returns (stack: seq<OpId>, ghost q': Queue)
      requires q.Ok() && Busy(q) && q.stack == stack0 && q.p == p && q.rest == children
      modifies `slab, `pendingDeletes, `orphanIds, `visibleString, `visibleCharsTotal, `totalItems,
               `tombstoneCount, `told, charIndex, byteIndex
      ensures q'.Ok() && Busy(q') && q'.rest == [] && q'.stack == stack && q'.ins == q.ins && q'.orphans == q.orphans
      ensures told.deletes == old(told.deletes)
    {
      q', stack := q, stack0;
      for i := 0 to |children|
        invariant q'.Ok() && Busy(q') && q'.stack == stack && q'.p == p && q'.rest == children[i..]
        invariant q'.ins == q.ins && q'.orphans == q.orphans && told.deletes == old(told.deletes)
      {
        assert children[i..][1..] == children[i + 1..];
        ghost var next := q'.Step();
        IntegrateOrphan(q', next, p, children[i].0, children[i].1);
        q' := next;
        stack := stack + [children[i].0];
      }
    }

    /** One round: pop an anchor and integrate its children, if any are listed. */
    method DrainOne(ghost q: Queue, stack0: seq<OpId>) returns (stack: seq<OpId>, ghost q': Queue)
      requires q.Ok() && Busy(q) && q.rest == [] && q.stack == stack0 != []
      modifies `slab, `pendingDeletes, `orphans, `orphanIds, `visibleString, `visibleCharsTotal, `totalItems,
               `tombstoneCount, `told, charIndex, byteIndex
      ensures q'.Ok() && Busy(q') && q'.rest == [] && q'.stack == stack && q'.ins == q.ins
      ensures told.deletes == old(told.deletes)
      ensures |orphans| < |old(orphans)| || (|orphans| == |old(orphans)| && |stack| < |stack0|)
    {
      q' := q.Pop();
      var p := stack0[|stack0| - 1];
      stack := stack0[..|stack0| - 1];
      if p !in orphans { return; }
      var children := orphans[p];
      orphans := orphans - {p};
      stack, q' := DrainChildren(q', children, p, stack);
    }

    /** Integrate buffered inserts now that their anchor is shown. */
    method DrainOrphansOf(parent: OpId, ghost q0: Queue)
      requires q0.Ok() && Busy(q0) && q0.rest == [] && q0.stack == [parent]
      modifies `slab, `pendingDeletes, `orphans, `orphanIds, `visibleString, `visibleCharsTotal, `totalItems,
               `tombstoneCount, `told, charIndex, byteIndex
      ensures Valid() && told.births == q0.ins && told.deletes == old(told.deletes)
    {
      ghost var q := q0;
      var stack := [parent];
      if orphans != map[] {
        while stack != []
          invariant q.Ok() && Busy(q) && q.rest == [] && q.stack == stack && q.ins == q0.ins
          invariant told.deletes == old(told.deletes)
          decreases |orphans|, |stack|
        {
          stack, q := DrainOne(q, stack);
        }
      }
    }

    // ----- Public operations -----

    /** A new insert whose anchor has not arrived is buffered under it. */
    method Buffer(x: OpId, p: OpId, ch: char)
      requires Valid() && x !in told.births && p !in told.log
      modifies `orphans, `orphanIds, `told
      ensures Valid()
      ensures told == old(told).(births := old(told.births)[x := Birth(Some(p), ch)])
    {
      RecordBirth(told, slab.Flat(), x, Birth(Some(p), ch));
      BufferOrphan(told.births, told.log, orphans, orphanIds, x, p, ch);
      var siblings := if p in orphans then orphans[p] else [];
      orphans := orphans[p := siblings + [(x, ch)]];
      orphanIds := orphanIds + {x};
      told := told.(births := told.births[x := Birth(Some(p), ch)]);
    }

    /** The story learns of a birth; `q` is the queue to drain once it is shown. */
    ghost method Hear(x: OpId, b: Birth) returns (q: Queue)
      requires Valid() && x !in told.births
      modifies `told
      ensures Structure() && Shown() && x !in told.log
      ensures told == old(told).(births := old(told.births)[x := b])
      ensures q == Queue(told.births, told.log + [x], orphans, orphanIds, [x], x, []) && q.Ok()
    {
      RecordBirth(told, slab.Flat(), x, b);
      q := NewBirthReady(told.births, told.log, orphans, orphanIds, x, b);
      told := told.(births := told.births[x := b]);
    }

    /** A new insert whose anchor is shown is integrated, and so is everything
        that waited for it. */
    method Admit(x: OpId, after: Option<OpId>, ch: char)
      requires Valid() && x !in told.births && (after.Some? ==> after.value in told.log)
      requires 4 * (|told.births| + 1) <= U32_MAX
      modifies this, charIndex, byteIndex
      ensures Valid()
      ensures told.births == old(told.births)[x := Birth(after, ch)] && told.deletes == old(told.deletes)
    {
      ghost var q := Hear(x, Birth(after, ch));
      IntegrateBirth(x, after, ch);
      DrainOrphansOf(x, q);
    }

    /** Deliver one insert. The first insert of an identity is recorded; a later
        one changes nothing. */
    method ApplyInsert(x: OpId, after: Option<OpId>, ch: char)
      requires Valid() && 4 * (|told.births| + 1) <= U32_MAX
      modifies this, charIndex, byteIndex
      ensures Valid()
      ensures told.births == if x in old(told.births) then old(told.births) else old(told.births)[x := Birth(after, ch)]
      ensures told.deletes == old(told.deletes)
    {
      Recorded(told, slab, x);
      if x in slab.idToChunk || x in orphanIds { return; }
      if after.Some? {
        Recorded(told, slab, after.value);
        if after.value !in slab.idToChunk {
          Buffer(x, after.value, ch);
          return;
        }
      }
      Admit(x, after, ch);
    }

    /** The text and counters follow a deletion at flat position `k`. */
    method CacheDelete(ghost flat: seq<Item>, ghost k: nat, byteOff: nat, chLen: nat)
      requires Cached(flat) && k < |flat| && !flat[k].deleted
      requires byteOff == |Encode(flat[..k])| && chLen == LenUtf8(flat[k].ch)
      modifies `visibleString, `visibleCharsTotal, `tombstoneCount
      ensures Cached(Tombstone(flat, k))
    {
      StringDelete(flat, k);
      tombstoneCount := tombstoneCount + 1;
      visibleCharsTotal := visibleCharsTotal - 1;
      visibleString := visibleString[..byteOff] + visibleString[byteOff + chLen..];
    }

    /** Set the flag of the visible item at a location. */
    method DeleteAt(loc: Loc)
      requires Structure() && slab.AtItem(loc) && !slab.ItemAt(loc).deleted && 4 * totalItems <= U32_MAX
      modifies `slab, `visibleString, `visibleCharsTotal, `tombstoneCount, charIndex, byteIndex
      ensures Structure() && slab.Flat() == Tombstone(old(slab.Flat()), old(slab.FlatPos(loc)))
      ensures AtMost(old(slab.Parts()), 128) ==> AtMost(slab.Parts(), 128)
    {
      ghost var flat, k := slab.Flat(), slab.FlatPos(loc);
      var byteOff := BytePrefixAt(loc);
      var chLen := LenUtf8(slab.ItemAt(loc).ch);
      var s := slab.DeleteItem(loc);
      IndexChunk(slab, s, loc.orderPos);
      CacheDelete(flat, k, byteOff, chLen);
      slab := s;
    }

    /** Deleting a shown identity sets its flag, once. */
    method DeleteKnown(x: OpId)
      requires Structure() && AtMost(slab.Parts(), 128) && x in Ids(slab.Flat()) && 4 * totalItems <= U32_MAX
      modifies `slab, `visibleString, `visibleCharsTotal, `tombstoneCount, charIndex, byteIndex
      ensures Structure() && AtMost(slab.Parts(), 128)
      ensures slab.Flat() == Tombstone(old(slab.Flat()), IndexOf(Ids(old(slab.Flat())), x))
    {
      var at := slab.LocOfId(x);
      var loc := at.value;
      slab.StartIsNext(loc, x);
      ghost var flat, k := slab.Flat(), slab.FlatPos(loc);
      if slab.ItemAt(loc).deleted {
        assert Tombstone(flat, k) == flat;
      } else {
        DeleteAt(loc);
      }
    }

    /** A delete of a character not shown yet is noted. */
    method NoteDelete(x: OpId)
      requires Valid() && x !in told.log
      modifies `pendingDeletes, `told
      ensures Valid() && pendingDeletes == old(pendingDeletes) + {x}
      ensures told == old(told).(deletes := old(told.deletes) + {x})
    {
      LateDelete(told, slab.Flat(), x);
      pendingDeletes := pendingDeletes + {x};
      told := told.(deletes := told.deletes + {x});
    }

    /** A delete of a shown character sets its flag. */
    method DeleteShown(x: OpId)
      requires Valid() && 4 * |told.births| <= U32_MAX && x in told.log && x in Ids(slab.Flat())
      modifies `slab, `visibleString, `visibleCharsTotal, `tombstoneCount, `told, charIndex, byteIndex
      ensures Valid()
      ensures told == old(told).(deletes := old(told.deletes) + {x})
    {
      ghost var next := DeleteStory(told, slab.Flat(), x);
      DeleteKnown(x);
      told := next;
    }

    /** Deliver one delete: a flag if the character is shown, otherwise a note
        that makes it a tombstone at birth. */
    method ApplyDelete(x: OpId)
      requires Valid() && 4 * |told.births| <= U32_MAX
      modifies this, charIndex, byteIndex
      ensures Valid()
      ensures told.births == old(told.births) && told.deletes == old(told.deletes) + {x}
    {
      Recorded(told, slab, x);
      ShownIds(told, slab.Flat());
      if x !in slab.idToChunk {
        NoteDelete(x);
      } else {
        DeleteShown(x);
      }
    }

    /** Deliver one update. */
    method Apply(u: Update)
      requires Valid() && 4 * (|told.births| + 1) <= U32_MAX
      modifies this, charIndex, byteIndex
      ensures Valid()
      ensures told.births == Told(old(told.births), u) && told.deletes == Deleted(old(told.deletes), u)
    {
      match u
      case Insert(x, after, ch) => ApplyInsert(x, after, ch);
      case Delete(x) => ApplyDelete(x);
    }

    /** Deliver update `i` of a history. */
    method ApplyNext(h: seq<Update>, i: nat)
      requires Valid() && i < |h| && 4 * |h| <= U32_MAX
      requires told.births == BirthsOf(h[..i]) && told.deletes == DeletesOf(h[..i]) && |told.births| <= i
      modifies this, charIndex, byteIndex
      ensures Valid()
      ensures told.births == BirthsOf(h[..i + 1]) && told.deletes == DeletesOf(h[..i + 1]) && |told.births| <= i + 1
    {
      HistoryStep(h, i);
      Apply(h[i]);
    }

    /** Deliver a whole history. */
    method ApplyUpdates(h: seq<Update>)
      requires Valid() && told.births == map[] && told.deletes == {} && 4 * |h| <= U32_MAX
      modifies this, charIndex, byteIndex
      ensures Valid() && told.births == BirthsOf(h) && told.deletes == DeletesOf(h)
    {
      for i := 0 to |h|
        invariant Valid() && told.births == BirthsOf(h[..i]) && told.deletes == DeletesOf(h[..i]) && |told.births| <= i
      {
        ApplyNext(h, i);
      }
      assert h[..|h|] == h;
    }

    // ----- Reads -----

    /** Location of the visible item number `offset`. */
    method LocOfVisibleOffset(offset: nat) returns (r: Option<Loc>)
      requires slab.Valid() && Indexed(slab)
      ensures r.None? <==> offset >= |Visible(slab.Flat())|
      ensures r.Some? ==> slab.AtItem(r.value) && !slab.ItemAt(r.value).deleted
      ensures r.Some? ==> |Visible(slab.Flat()[..slab.FlatPos(r.value)])| == offset
    {
      TotalsAreVisible(slab.Parts());
      var sel := charIndex.SelectOffset(offset);
      if sel.None? { return None; }
      var loc := slab.NthInChunk(sel.value.0, sel.value.1);
      return Some(loc);
    }

    /** Identity of the visible character at `offset`, through the index. */
    method IdAtVisibleOffset(offset: nat) returns (r: Option<OpId>)
      requires slab.Valid() && Indexed(slab)
      ensures r == if offset < |Visible(slab.Flat())| then Some(Visible(slab.Flat())[offset].id) else None
    {
      var at := LocOfVisibleOffset(offset);
      if at.None? { return None; }
      VisibleAt(slab.Flat(), slab.FlatPos(at.value));
      return Some(slab.ItemAt(at.value).id);
    }

    /** Byte offset of a visible character offset; the end when past it. */
    method ByteOffsetOfVisible(offset: nat) returns (n: nat)
      requires slab.Valid() && Indexed(slab) && visibleString == Encode(slab.Flat())
      ensures n == BytesUpTo(slab.Flat(), offset)
    {
      var at := LocOfVisibleOffset(offset);
      if at.None? {
        n := |visibleString|;
        EncodeVisible(slab.Flat());
        assert Visible(slab.Flat())[..|Visible(slab.Flat())|] == Visible(slab.Flat());
      } else {
        n := BytePrefixAt(at.value);
        ghost var flat, k := slab.Flat(), slab.FlatPos(at.value);
        VisibleAt(flat, k);
        VisibleCut(flat, k);
        EncodeVisible(flat[..k]);
        assert Visible(flat)[..offset] == Visible(flat[..k]);
      }
    }

    /** A window of the text, cut out of the byte string. */
    method ResolveStringRange(start: nat, len: nat) returns (r: seq<Byte>)
      requires Structure()
      ensures r == Window(slab.Flat(), start, start + len)
    {
      if len == 0 || start >= visibleCharsTotal {
        NoWindow(slab.Flat(), start, start + len);
        return [];
      }
      var lo := ByteOffsetOfVisible(start);
      var hi := ByteOffsetOfVisible(start + len);
      WindowBytes(slab.Flat(), visibleString, start, start + len, lo, hi);
      r := visibleString[lo..hi];
    }

    /** Visible offset of an identity, when it is shown and not a tombstone. */
    method VisibleOffsetOfId(x: OpId) returns (r: Option<nat>)
      requires slab.Valid() && Indexed(slab)
      ensures var p := PositionOf(Visible(slab.Flat()), x);
        r == if p < |Visible(slab.Flat())| then Some(p) else None
    {
      var at := slab.LocOfId(x);
      ghost var flat := slab.Flat();
      if at.None? {
        NotVisible(flat, x);
        return None;
      }
      slab.StartIsNext(at.value, x);
      if slab.ItemAt(at.value).deleted {
        TombstoneNotVisible(flat, slab.FlatPos(at.value));
        return None;
      }
      var n := VisiblePrefixAt(at.value);
      VisibleAt(flat, slab.FlatPos(at.value));
      VisibleDistinct(flat);
      PositionIs(Visible(flat), n, x);
      return Some(n);
    }

    /** Anchor to insertion index, through the index. */
    method OffsetForAnchor(a: Anchor) returns (n: nat)
      requires Structure()
      ensures n == IndexFor(Visible(slab.Flat()), a)
    {
      match a
      case Start => n := 0;
      case End => n := visibleCharsTotal;
      case AtOffset(i) => n := Min(i, visibleCharsTotal);
      case After(x) =>
        var o := VisibleOffsetOfId(x);
        n := if o.Some? then o.value + 1 else visibleCharsTotal;
    }

    /** Offset to stable anchor, through the index. */
    method AnchorForOffset(offset: nat) returns (a: Anchor)
      requires Structure()
      ensures a == AnchorFor(Visible(slab.Flat()), offset)
    {
      if offset == 0 { return Start; }
      if offset >= visibleCharsTotal { return End; }
      var id := IdAtVisibleOffset(offset - 1);
      return if id.Some? then After(id.value) else Start;
    }

    /** The fast path of offset canonicalization. */
    method CanonicalizeOffsetFast(offset: nat) returns (a: Anchor)
      requires Structure()
      ensures a == CanonicalAnchor(Visible(slab.Flat()), offset)
    {
      var idx := Min(offset, visibleCharsTotal);
      if idx == 0 { return Start; }
      if idx >= visibleCharsTotal { return End; }
      var id := IdAtVisibleOffset(idx - 1);
      return After(id.value);
    }

    /** The visible characters with their identities, chunk by chunk. */
    method ResolveSeq() returns (r: seq<Item>)
      requires slab.Valid()
      ensures r == Visible(slab.Flat())
    {
      r := [];
      for i := 0 to |slab.order|
        invariant r == Visible(Flatten(slab.Parts()[..i]))
      {
        var items := slab.chunks[slab.order[i]].items;
        FlattenStep(slab.Parts(), i);
        VisibleAppend(Flatten(slab.Parts()[..i]), items);
        var vis := Filter(items);
        r := r + vis;
      }
      assert slab.Parts()[..|slab.order|] == slab.Parts();
    }
  }

  method Filter(items: seq<Item>) returns (r: seq<Item>)
    ensures r == Visible(items)
  {
    r := [];
    for k := 0 to |items|
      invariant r == Visible(items[..k])
    {
      VisibleStep(items, k);
      if !items[k].deleted { r := r + [items[k]]; }
    }
    assert items[..|items|] == items;
  }

  /** The bytes of a window of visible characters. */
  /** Length of the first `offset` visible characters, or of all if there are fewer. */
  ghost function BytesUpTo(flat: seq<Item>, offset: nat): nat {
    |Encode(Visible(flat)[..Min(offset, |Visible(flat)|)])|
  }

  /** The text of the visible characters from `from` to `to`, clamped. */
  ghost function Window(flat: seq<Item>, from: nat, to: nat): seq<Byte>
    requires from <= to
  {
    var v := Visible(flat);
    Encode(v[Min(from, |v|)..Min(to, |v|)])
  }

  lemma WindowBytes(flat: seq<Item>, text: seq<Byte>, from: nat, to: nat, lo: nat, hi: nat)
    requires from <= to && text == Encode(flat) && lo == BytesUpTo(flat, from) && hi == BytesUpTo(flat, to)
    ensures lo <= hi <= |text| && text[lo..hi] == Window(flat, from, to)
  {
    var v := Visible(flat);
    var i, j := Min(from, |v|), Min(to, |v|);
    EncodeVisible(flat);
    assert v == v[..j] + v[j..] && v[..j] == v[..i] + v[i..j];
    EncodeAppend(v[..j], v[j..]);
    EncodeAppend(v[..i], v[i..j]);
  }

  lemma NoWindow(flat: seq<Item>, from: nat, to: nat)
    requires from == to || (from <= to && from >= |Visible(flat)|)
    ensures Window(flat, from, to) == []
  {
  }

  /** Visible items come from the sequence, in order. */
  lemma {:induction false} VisibleFrom(items: seq<Item>, i: nat) returns (k: nat)
    requires i < |Visible(items)|
    ensures k < |items| && !items[k].deleted && items[k] == Visible(items)[i] && |Visible(items[..k])| == i
  {
    var n := |items| - 1;
    VisibleSnoc(items);
    if i < |Visible(items[..n])| {
      k := VisibleFrom(items[..n], i);
      assert items[..n][..k] == items[..k];
    } else {
      k := n;
    }
  }

  lemma {:induction false} NotVisible(items: seq<Item>, x: OpId)
    requires x !in Ids(items)
    ensures PositionOf(Visible(items), x) == |Visible(items)|
  {
    var v := Visible(items);
    forall i | 0 <= i < |v| ensures v[i].id in Ids(items) {
      var k := VisibleFrom(items, i);
      assert Ids(items)[k] == v[i].id;
    }
  }

  lemma {:induction false} TombstoneNotVisible(items: seq<Item>, k: nat)
    requires NoDuplicates(Ids(items)) && k < |items| && items[k].deleted
    ensures PositionOf(Visible(items), items[k].id) == |Visible(items)|
  {
    var v := Visible(items);
    forall i | 0 <= i < |v| ensures v[i].id != items[k].id {
      var j := VisibleFrom(items, i);
      assert if j < k then Differ(Ids(items), j, k) else Differ(Ids(items), k, j);
    }
  }

  lemma {:induction false} VisibleDistinct(items: seq<Item>)
    requires NoDuplicates(Ids(items))
    ensures NoDuplicates(Ids(Visible(items)))
  {
    var v := Visible(items);
    forall i, j | 0 <= i < j < |v| ensures Differ(Ids(v), i, j) {
      var a := VisibleFrom(items, i);
      var b := VisibleFrom(items, j);
      assert if a < b then Differ(Ids(items), a, b) else Differ(Ids(items), b, a);
    }
  }

  /** An anchor stands right after its character; on one that is deleted or was
      never there, at the end of the document. */
  lemma AnchorIndex(items: seq<Item>, x: OpId)
    requires NoDuplicates(Ids(items))
    ensures var v := Visible(items);
      && (forall i :: 0 <= i < |v| && v[i].id == x ==> IndexFor(v, After(x)) == i + 1)
      && ((forall k :: 0 <= k < |items| && items[k].id == x ==> items[k].deleted) ==> IndexFor(v, After(x)) == |v|)
  {
    var v := Visible(items);
    VisibleDistinct(items);
    forall i | 0 <= i < |v| && v[i].id == x ensures IndexFor(v, After(x)) == i + 1 { PositionIs(v, i, x); }
    if k :| 0 <= k < |items| && items[k].id == x {
      if items[k].deleted { TombstoneNotVisible(items, k); }
    } else {
      forall y | y in Ids(items) ensures y != x { var k :| 0 <= k < |items| && Ids(items)[k] == y; }
      NotVisible(items, x);
    }
  }

  /** A delete of something not shown changes nothing that is shown. */
  lemma LateDelete(told: Story, flat: seq<Item>, x: OpId)
    requires told.Shown(flat) && x !in told.log
    ensures told.(deletes := told.deletes + {x}).Shown(flat)
    ensures x !in Elements(told.log)
  {
    ShownIds(told, flat);
    forall k | 0 <= k < |flat| ensures flat[k].id != x { assert Ids(flat)[k] in told.log; }
  }

  /** A delete of something shown sets its flag. */
  lemma StoryDelete(told: Story, flat: seq<Item>, x: OpId)
    requires told.Shown(flat) && x in Ids(flat)
    ensures told.(deletes := told.deletes + {x}).Shown(Tombstone(flat, IndexOf(Ids(flat), x)))
    ensures x in Elements(told.log)
  {
    var k := IndexOf(Ids(flat), x);
    assert flat[k].id == Ids(flat)[k];
    ShowsDelete(flat, told.births, told.deletes, told.log, told.forest, k);
    assert x in Elements(Ids(flat));
  }

  lemma DeleteStory(told: Story, flat: seq<Item>, x: OpId) returns (next: Story)
    requires told.Shown(flat) && x in Ids(flat)
    ensures next == told.(deletes := told.deletes + {x})
    ensures next.Shown(Tombstone(flat, IndexOf(Ids(flat), x)))
    ensures next.deletes - Elements(next.log) == told.deletes - Elements(told.log) && |flat| <= |told.births|
  {
    ShownRoom(told, flat);
    StoryDelete(told, flat, x);
    next := told.(deletes := told.deletes + {x});
  }

  lemma ShownRoom(told: Story, flat: seq<Item>)
    requires told.Shown(flat)
    ensures |flat| <= |told.births|
  {
    NearestNoDuplicates(Ids(flat), told.forest);
    NoDuplicatesSize(Ids(flat));
    forall y | y in Elements(told.log) ensures y in told.births {
      var k :| 0 <= k < |told.log| && told.log[k] == y;
      assert GrownAt(told.births, told.log, told.forest, k);
    }
    SubsetSize(Elements(told.log), told.births.Keys);
  }

  /** An identity is stored or waiting exactly when its birth is recorded. */
  lemma Recorded(told: Story, slab: Slab, x: OpId)
    requires slab.Valid() && told.Shown(slab.Flat())
    ensures x in slab.idToChunk <==> x in told.log
    ensures x in told.log ==> x in told.births
  {
    slab.KnownIds(x);
    ShownIds(told, slab.Flat());
    if x in told.log {
      var k :| 0 <= k < |told.log| && told.log[k] == x;
      assert GrownAt(told.births, told.log, told.forest, k);
    }
  }

  lemma ShownIds(told: Story, flat: seq<Item>)
    requires told.Shown(flat)
    ensures forall y :: y in Ids(flat) <==> y in told.log
  {
    assert forall y :: y in Ids(flat) <==> y in Elements(Ids(flat));
    assert forall y :: y in told.log <==> y in Elements(told.log);
  }

  /** Recording a birth leaves what is shown as it is. */
  lemma RecordBirth(told: Story, flat: seq<Item>, x: OpId, b: Birth)
    requires told.Shown(flat) && x !in told.births
    ensures told.(births := told.births[x := b]).Shown(flat)
    ensures x !in told.log
  {
    var Story(ins, dels, log, f) := told;
    var ins' := ins[x := b];
    forall k | 0 <= k < |log| ensures GrownAt(ins', log, f, k) && log[k] != x {
      assert GrownAt(ins, log, f, k);
    }
  }

  /** A new birth without its anchor joins the waiting list. */
  lemma BufferOrphan(ins: Births, log: seq<OpId>, orphans: Orphans, orphanIds: set<OpId>, x: OpId, p: OpId, ch: char)
    requires AllWait(ins, log, orphans, orphanIds) && x !in ins && x !in log && p !in log
    ensures AllWait(ins[x := Birth(Some(p), ch)], log,
                    orphans[p := (if p in orphans then orphans[p] else []) + [(x, ch)]], orphanIds + {x})
  {
    var ins' := ins[x := Birth(Some(p), ch)];
    var was := if p in orphans then orphans[p] else [];
    var orphans' := orphans[p := was + [(x, ch)]];
    forall q | q in orphans' ensures EntriesOk(ins', log, q, orphans'[q]) {
      var es := orphans'[q];
      forall k | 0 <= k < |es| ensures OrphanEntry(ins', log, q, es[k]) {
        if q in orphans && k < |orphans[q]| { assert OrphanEntry(ins, log, q, orphans[q][k]); }
      }
    }
    forall c | c in ins' && c !in log ensures Waiting(ins', orphans', c) {
      if c == x {
        assert orphans'[p][|was|] == (x, ch);
      } else {
        assert Waiting(ins, orphans, c);
      }
    }
  }

  /** A new birth whose anchor is shown: the only anchor that may open is itself. */
  lemma NewBirthReady(ins: Births, log: seq<OpId>, orphans: Orphans, orphanIds: set<OpId>, x: OpId, b: Birth)
    returns (q: Queue)
    requires AllWait(ins, log, orphans, orphanIds) && x !in ins && x !in log
    ensures q == Queue(ins[x := b], log + [x], orphans, orphanIds, [x], x, []) && q.Ok()
  {
    q := Queue(ins[x := b], log + [x], orphans, orphanIds, [x], x, []);
    var ins', log' := ins[x := b], log + [x];
    ElementsSnoc(log, x);
    ElementsSnoc([], x);
    assert [x] == [] + [x];
    forall q | q in orphans ensures EntriesOk(ins', log', q, orphans[q]) {
      forall k | 0 <= k < |orphans[q]| ensures OrphanEntry(ins', log', q, orphans[q][k]) {
        assert OrphanEntry(ins, log, q, orphans[q][k]);
      }
    }
    forall c | c in ins' && c !in log' ensures Waiting(ins', orphans, c) {
      assert Waiting(ins, orphans, c);
    }
  }

  /** The story after one more integration, and what makes the step possible. */
  lemma NextStory(told: Story, items: seq<Item>, pending: set<OpId>, x: OpId) returns (next: Story)
    requires told.Shown(items) && pending == told.deletes - Elements(told.log) && x in told.births && x !in told.log
    requires told.births[x].after.Some? ==> told.births[x].after.value in told.log
    ensures x !in Ids(items) && |items| + 1 <= |told.births|
    ensures told.births[x].after.Some? ==> told.births[x].after.value in Ids(items)
    ensures next.births == told.births && next.deletes == told.deletes && next.log == told.log + [x]
    ensures pending - {x} == next.deletes - Elements(next.log)
    ensures next.Shown(InsertAt(items, Place(Ids(items), told.births[x].after, x),
                                Item(x, told.births[x].ch, x in pending)))
  {
    var Story(ins, dels, log, f) := told;
    ShownMembers(items, ins, dels, log, f, x);
    ShowsInsert(items, ins, dels, log, f, x);
    assert x !in Elements(log);
    next := Story(ins, dels, log + [x], f[x := Climb(f, ins[x].after, x)]);
  }

  /** The log lists what is shown; a birth not in it leaves room for one more. */
  lemma ShownMembers(items: seq<Item>, ins: Births, dels: set<OpId>, log: seq<OpId>, f: Anchors, x: OpId)
    requires Shows(items, ins, dels, log, f) && x in ins && x !in log
    ensures forall y :: y in Ids(items) <==> y in log
    ensures |items| + 1 <= |ins|
  {
    NearestNoDuplicates(Ids(items), f);
    NoDuplicatesSize(Ids(items));
    assert forall y :: y in Ids(items) <==> y in Elements(Ids(items));
    assert forall y :: y in log <==> y in Elements(log);
    forall y | y in Elements(log) ensures y in ins {
      var k :| 0 <= k < |log| && log[k] == y;
      assert GrownAt(ins, log, f, k);
    }
    SubsetSize(Elements(log) + {x}, ins.Keys);
  }
}
