/** The storage of a text projection, as values: item sequences cut into chunks,
    and the arithmetic that ties a chunk location to a position of the flat
    sequence (core/crdt/src/text.rs). */
module TextChunks {
  import opened Core
  import opened TextOrder
  import opened TextHistory
  import opened TextBytes
  import opened PositionIndex

  // ----- Pieces -----

  ghost function Flatten(ps: seq<seq<Item>>): seq<Item> {
    FlattenTo(ps, |ps|)
  }

  /** The first `i` pieces one after the other. */
  ghost function FlattenTo(ps: seq<seq<Item>>, i: nat): seq<Item>
    requires i <= |ps|
  {
    if i == 0 then [] else FlattenTo(ps, i - 1) + ps[i - 1]
  }

  lemma {:induction false} TakeFlatten(ps: seq<seq<Item>>, n: nat, i: nat)
    requires i <= n <= |ps|
    ensures FlattenTo(ps[..n], i) == FlattenTo(ps, i)
  {
    if i > 0 { TakeFlatten(ps, n, i - 1); }
  }

  lemma FlattenSnoc(ps: seq<seq<Item>>)
    requires ps != []
    ensures Flatten(ps) == Flatten(ps[..|ps| - 1]) + ps[|ps| - 1]
  {
    TakeFlatten(ps, |ps| - 1, |ps| - 1);
  }

  /** One more piece of a prefix. */
  lemma FlattenStep(ps: seq<seq<Item>>, i: nat)
    requires i < |ps|
    ensures Flatten(ps[..i + 1]) == Flatten(ps[..i]) + ps[i]
  {
    assert ps[..i + 1][..i] == ps[..i];
    FlattenSnoc(ps[..i + 1]);
  }

  /** Flat position at which piece `i` starts. */
  ghost function Offset(ps: seq<seq<Item>>, i: nat): nat
    requires i <= |ps|
  {
    |Flatten(ps[..i])|
  }

  lemma {:induction false} FlattenConcat(a: seq<seq<Item>>, b: seq<seq<Item>>)
    ensures Flatten(a + b) == Flatten(a) + Flatten(b)
  {
    if b == [] {
      assert a + b == a;
    } else {
      var n := |b| - 1;
      FlattenConcat(a, b[..n]);
      LastOfConcat(a, b);
      FlattenSnoc(a + b);
      FlattenSnoc(b);
    }
  }

  lemma FlattenOne(p: seq<Item>)
    ensures Flatten([p]) == p
  {
    FlattenSnoc([p]);
  }

  /** The flat sequence around piece `i`. */
  lemma FlattenAround(ps: seq<seq<Item>>, i: nat)
    requires i < |ps|
    ensures Flatten(ps) == Flatten(ps[..i]) + ps[i] + Flatten(ps[i + 1..])
    ensures Offset(ps, i + 1) == Offset(ps, i) + |ps[i]| <= |Flatten(ps)|
  {
    assert ps == ps[..i] + [ps[i]] + ps[i + 1..];
    FlattenConcat(ps[..i] + [ps[i]], ps[i + 1..]);
    FlattenConcat(ps[..i], [ps[i]]);
    FlattenOne(ps[i]);
    assert ps[..i + 1] == ps[..i] + [ps[i]];
  }

  /** Rewriting one piece rewrites the flat sequence in one place. */
  lemma FlattenReplace(ps: seq<seq<Item>>, i: nat, q: seq<Item>)
    requires i < |ps|
    ensures Flatten(ps[i := q]) == Flatten(ps[..i]) + q + Flatten(ps[i + 1..])
  {
    var ps': seq<seq<Item>> := ps[i := q];
    FlattenAround(ps', i);
    assert ps'[..i] == ps[..i] && ps'[i + 1..] == ps[i + 1..];
  }

  lemma SpliceInsert<T>(a: seq<T>, p: seq<T>, b: seq<T>, j: nat, x: T)
    requires j <= |p|
    ensures a + InsertAt(p, j, x) + b == InsertAt(a + p + b, |a| + j, x)
  {
    var w := a + p + b;
    assert w[..|a| + j] == a + p[..j];
    assert w[|a| + j..] == p[j..] + b;
  }

  lemma SpliceUpdate<T>(a: seq<T>, p: seq<T>, b: seq<T>, j: nat, x: T)
    requires j < |p|
    ensures (a + p + b)[|a| + j] == p[j]
    ensures a + p[j := x] + b == (a + p + b)[|a| + j := x]
  {
  }

  /** An insertion into a piece is an insertion at the corresponding position. */
  lemma PieceInsert(ps: seq<seq<Item>>, i: nat, j: nat, x: Item)
    requires i < |ps| && j <= |ps[i]|
    ensures Offset(ps, i) + j <= |Flatten(ps)|
    ensures Flatten(ps[i := InsertAt(ps[i], j, x)]) == InsertAt(Flatten(ps), Offset(ps, i) + j, x)
  {
    FlattenAround(ps, i);
    FlattenReplace(ps, i, InsertAt(ps[i], j, x));
    SpliceInsert(Flatten(ps[..i]), ps[i], Flatten(ps[i + 1..]), j, x);
  }

  lemma PieceUpdate(ps: seq<seq<Item>>, i: nat, j: nat, x: Item)
    requires i < |ps| && j < |ps[i]|
    ensures Offset(ps, i) + j < |Flatten(ps)| && Flatten(ps)[Offset(ps, i) + j] == ps[i][j]
    ensures Flatten(ps[i := ps[i][j := x]]) == Flatten(ps)[Offset(ps, i) + j := x]
  {
    FlattenAround(ps, i);
    FlattenReplace(ps, i, ps[i][j := x]);
    SpliceUpdate(Flatten(ps[..i]), ps[i], Flatten(ps[i + 1..]), j, x);
  }

  /** Cutting a piece in two changes nothing. */
  lemma PieceSplit(ps: seq<seq<Item>>, i: nat, mid: nat)
    requires i < |ps| && mid <= |ps[i]|
    ensures Flatten(ps[..i] + [ps[i][..mid], ps[i][mid..]] + ps[i + 1..]) == Flatten(ps)
  {
    var l, r := ps[i][..mid], ps[i][mid..];
    FlattenAround(ps, i);
    FlattenConcat(ps[..i] + [l, r], ps[i + 1..]);
    FlattenConcat(ps[..i], [l, r]);
    assert [l, r] == [l] + [r];
    FlattenConcat([l], [r]);
    FlattenOne(l);
    FlattenOne(r);
    assert ps[i] == l + r;
  }

  /** The item at a location, and the flat sequence before it. */
  lemma LocationPrefix(ps: seq<seq<Item>>, i: nat, j: nat)
    requires i < |ps| && j <= |ps[i]|
    ensures Offset(ps, i) + j <= |Flatten(ps)|
    ensures Flatten(ps)[..Offset(ps, i) + j] == Flatten(ps[..i]) + ps[i][..j]
    ensures j < |ps[i]| ==> Offset(ps, i) + j < |Flatten(ps)| && Flatten(ps)[Offset(ps, i) + j] == ps[i][j]
  {
    FlattenAround(ps, i);
  }

  /** Every flat position is in some piece. */
  lemma {:induction false} Locate(ps: seq<seq<Item>>, k: nat) returns (i: nat, j: nat)
    requires k < |Flatten(ps)|
    ensures i < |ps| && j < |ps[i]| && Offset(ps, i) + j == k
  {
    var n := |ps| - 1;
    FlattenSnoc(ps);
    if k < |Flatten(ps[..n])| {
      i, j := Locate(ps[..n], k);
      assert ps[..n][..i] == ps[..i];
    } else {
      i, j := n, k - |Flatten(ps[..n])|;
    }
  }

  // ----- Weights -----

  ghost function CharWeights(ps: seq<seq<Item>>): (r: seq<nat>)
    ensures |r| == |ps|
  {
    seq(|ps|, i requires 0 <= i < |ps| => |Visible(ps[i])|)
  }

  ghost function ByteWeights(ps: seq<seq<Item>>): (r: seq<nat>)
    ensures |r| == |ps|
  {
    seq(|ps|, i requires 0 <= i < |ps| => |Encode(ps[i])|)
  }

  /** The sum of the first `i` chunk weights is the visible size of what
      precedes chunk `i`. */
  lemma {:induction false} CharsArePrefixes(ps: seq<seq<Item>>, i: nat)
    requires i <= |ps|
    ensures Prefix(CharWeights(ps), i) == |Visible(Flatten(ps[..i]))|
  {
    if i > 0 {
      CharsArePrefixes(ps, i - 1);
      FlattenStep(ps, i - 1);
      VisibleAppend(Flatten(ps[..i - 1]), ps[i - 1]);
    }
  }

  lemma {:induction false} BytesArePrefixes(ps: seq<seq<Item>>, i: nat)
    requires i <= |ps|
    ensures Prefix(ByteWeights(ps), i) == |Encode(Flatten(ps[..i]))|
  {
    if i > 0 {
      BytesArePrefixes(ps, i - 1);
      FlattenStep(ps, i - 1);
      EncodeAppend(Flatten(ps[..i - 1]), ps[i - 1]);
    }
  }

  lemma TotalsAreVisible(ps: seq<seq<Item>>)
    ensures Total(CharWeights(ps)) == |Visible(Flatten(ps))|
    ensures Total(ByteWeights(ps)) == |Encode(Flatten(ps))|
  {
    CharsArePrefixes(ps, |ps|);
    BytesArePrefixes(ps, |ps|);
    assert ps[..|ps|] == ps;
  }

  /** Visible characters before location `(i, j)`: whole chunks, then part of one. */
  lemma CharsAtLocation(ps: seq<seq<Item>>, i: nat, j: nat)
    requires i < |ps| && j <= |ps[i]|
    ensures Offset(ps, i) + j <= |Flatten(ps)|
    ensures |Visible(Flatten(ps)[..Offset(ps, i) + j])| == Prefix(CharWeights(ps), i) + |Visible(ps[i][..j])|
  {
    CharsArePrefixes(ps, i);
    LocationPrefix(ps, i, j);
    VisibleAppend(Flatten(ps[..i]), ps[i][..j]);
  }

  /** The same in bytes. */
  lemma BytesAtLocation(ps: seq<seq<Item>>, i: nat, j: nat)
    requires i < |ps| && j <= |ps[i]|
    ensures Offset(ps, i) + j <= |Flatten(ps)|
    ensures |Encode(Flatten(ps)[..Offset(ps, i) + j])| == Prefix(ByteWeights(ps), i) + |Encode(ps[i][..j])|
  {
    BytesArePrefixes(ps, i);
    LocationPrefix(ps, i, j);
    EncodeAppend(Flatten(ps[..i]), ps[i][..j]);
  }

  /** Both with the parts named: `flat` all items, `items` those of piece `i`. */
  lemma CharsBefore(ps: seq<seq<Item>>, flat: seq<Item>, items: seq<Item>, i: nat, j: nat, base: nat, inside: nat)
    requires flat == Flatten(ps) && i < |ps| && items == ps[i] && j <= |items|
    requires base == Prefix(CharWeights(ps), i) && inside == |Visible(items[..j])|
    ensures Offset(ps, i) + j <= |flat| && |Visible(flat[..Offset(ps, i) + j])| == base + inside
  {
    CharsAtLocation(ps, i, j);
  }

  lemma BytesBefore(ps: seq<seq<Item>>, flat: seq<Item>, items: seq<Item>, i: nat, j: nat, base: nat, inside: nat)
    requires flat == Flatten(ps) && i < |ps| && items == ps[i] && j <= |items|
    requires base == Prefix(ByteWeights(ps), i) && inside == |Encode(items[..j])|
    ensures Offset(ps, i) + j <= |flat| && |Encode(flat[..Offset(ps, i) + j])| == base + inside
  {
    BytesAtLocation(ps, i, j);
  }

  method CountVisible(items: seq<Item>, upto: nat) returns (n: nat)
    requires upto <= |items|
    ensures n == |Visible(items[..upto])|
  {
    n := 0;
    for k := 0 to upto
      invariant n == |Visible(items[..k])|
    {
      VisibleStep(items, k);
      if !items[k].deleted { n := n + 1; }
    }
  }

  /** Index of the visible item number `n`. */
  method NthVisible(items: seq<Item>, n: nat) returns (k: nat)
    requires n < |Visible(items)|
    ensures k < |items| && !items[k].deleted && |Visible(items[..k])| == n
  {
    k := 0;
    var seen := 0;
    assert items[..|items|] == items;
    while true
      invariant k < |items| && seen == |Visible(items[..k])| <= n
      decreases |items| - k
    {
      VisibleStep(items, k);
      if !items[k].deleted {
        if seen == n { return; }
        seen := seen + 1;
      }
      k := k + 1;
    }
  }

  method CountBytes(items: seq<Item>, upto: nat) returns (n: nat)
    requires upto <= |items|
    ensures n == |Encode(items[..upto])|
  {
    n := 0;
    for k := 0 to upto
      invariant n == |Encode(items[..k])|
    {
      VisibleStep(items, k);
      if !items[k].deleted { n := n + LenUtf8(items[k].ch); }
    }
  }

  // ----- Chunk slab -----

  /** A chunk: its items, their cached visible size, and its place in the order. */
  datatype Chunk = Chunk(items: seq<Item>, visibleChars: nat, visibleBytes: nat, orderPos: nat)

  /** `order` and the chunks' `orderPos` are inverse to each other. */
  ghost predicate Slots(chunks: seq<Chunk>, order: seq<nat>) {
    && |chunks| == |order|
    && forall i :: 0 <= i < |order| ==> order[i] < |chunks| && chunks[order[i]].orderPos == i
  }

  ghost function Pieces(chunks: seq<Chunk>, order: seq<nat>): (r: seq<seq<Item>>)
    requires Slots(chunks, order)
    ensures |r| == |order|
    ensures forall i :: 0 <= i < |order| ==> r[i] == chunks[order[i]].items
  {
    seq(|order|, i requires 0 <= i < |order| => chunks[order[i]].items)
  }

  /** The caches of a chunk are what a recount would give. */
  ghost predicate Counted(c: Chunk) {
    c.visibleChars == |Visible(c.items)| && c.visibleBytes == |Encode(c.items)|
  }

  /** `idToChunk` names the slot of every item, and of nothing else. */
  ghost predicate Located(ps: seq<seq<Item>>, order: seq<nat>, idToChunk: map<OpId, nat>)
    requires |ps| == |order|
  {
    && (forall i, j :: 0 <= i < |ps| && 0 <= j < |ps[i]| ==>
          ps[i][j].id in idToChunk && idToChunk[ps[i][j].id] == order[i])
    && idToChunk.Keys == Elements(Ids(Flatten(ps)))
  }

  ghost predicate CountedAt(chunks: seq<Chunk>, s: int) {
    0 <= s < |chunks| ==> Counted(chunks[s])
  }

  ghost predicate AllCounted(chunks: seq<Chunk>) {
    forall s :: CountedAt(chunks, s)
  }

  /** The whole slab: order, caches and locations agree. */
  ghost predicate Stored(chunks: seq<Chunk>, order: seq<nat>, idToChunk: map<OpId, nat>) {
    && Slots(chunks, order)
    && AllCounted(chunks)
    && Located(Pieces(chunks, order), order, idToChunk)
    && NoDuplicates(Ids(Flatten(Pieces(chunks, order))))
  }

  /** Where an identity is stored. */
  lemma FindStored(chunks: seq<Chunk>, order: seq<nat>, idToChunk: map<OpId, nat>, x: OpId) returns (i: nat, j: nat)
    requires Stored(chunks, order, idToChunk) && x in idToChunk
    ensures i < |order| && idToChunk[x] == order[i] && j < |chunks[order[i]].items| && chunks[order[i]].items[j].id == x
  {
    var ps := Pieces(chunks, order);
    var flat := Flatten(ps);
    assert x in Elements(Ids(flat));
    var k :| 0 <= k < |flat| && Ids(flat)[k] == x;
    i, j := Locate(ps, k);
    LocationPrefix(ps, i, j);
    assert ps[i][j].id == x;
  }

  /** The chunk after an item went in at index `j`, its caches adjusted. */
  function ChunkInsert(c: Chunk, j: nat, x: Item): Chunk
    requires j <= |c.items|
  {
    Chunk(InsertAt(c.items, j, x),
          c.visibleChars + (if x.deleted then 0 else 1),
          c.visibleBytes + (if x.deleted then 0 else LenUtf8(x.ch)),
          c.orderPos)
  }

  lemma CountedInsert(c: Chunk, j: nat, x: Item)
    requires Counted(c) && j <= |c.items|
    ensures Counted(ChunkInsert(c, j, x))
  {
    assert c.items == c.items[..j] + c.items[j..];
    VisibleConcat(c.items[..j], c.items[j..]);
    VisibleAround(c.items[..j], x, c.items[j..]);
  }

  /** Inserting at location `(i, j)` is one flat insertion. */
  lemma StoredInsert(chunks: seq<Chunk>, order: seq<nat>, idToChunk: map<OpId, nat>, i: nat, j: nat, x: Item)
    requires Stored(chunks, order, idToChunk)
    requires i < |order| && j <= |chunks[order[i]].items| && x.id !in idToChunk
    ensures var ps := Pieces(chunks, order);
      var c := ChunkInsert(chunks[order[i]], j, x);
      var chunks' := chunks[order[i] := c];
      && Offset(ps, i) + j <= |Flatten(ps)|
      && Stored(chunks', order, idToChunk[x.id := order[i]])
      && Flatten(Pieces(chunks', order)) == InsertAt(Flatten(ps), Offset(ps, i) + j, x)
      && CharWeights(Pieces(chunks', order)) == CharWeights(ps)[i := c.visibleChars]
      && ByteWeights(Pieces(chunks', order)) == ByteWeights(ps)[i := c.visibleBytes]
      && (x.deleted ==> c.visibleChars == CharWeights(ps)[i] && c.visibleBytes == ByteWeights(ps)[i])
  {
    var c := ChunkInsert(chunks[order[i]], j, x);
    assert CountedAt(chunks, order[i]);
    CountedInsert(chunks[order[i]], j, x);
    CountedReplace(chunks, order[i], c);
    PiecesReplace(chunks, order, i, c);
    PlacedInsert(Pieces(chunks, order), order, idToChunk, i, j, x);
    InsertWeights(chunks[order[i]], c, Pieces(chunks, order), i, x.deleted);
  }

  /** One piece with new items gets the weights cached for them. */
  lemma InsertWeights(was: Chunk, c: Chunk, ps: seq<seq<Item>>, i: nat, hidden: bool)
    requires i < |ps| && ps[i] == was.items && Counted(was) && Counted(c)
    requires hidden ==> c.visibleChars == was.visibleChars && c.visibleBytes == was.visibleBytes
    ensures CharWeights(ps[i := c.items]) == CharWeights(ps)[i := c.visibleChars]
    ensures ByteWeights(ps[i := c.items]) == ByteWeights(ps)[i := c.visibleBytes]
    ensures hidden ==> c.visibleChars == CharWeights(ps)[i] && c.visibleBytes == ByteWeights(ps)[i]
  {
    WeightsReplace(ps, i, c.items);
  }

  lemma CountedReplace(chunks: seq<Chunk>, s: nat, c: Chunk)
    requires AllCounted(chunks) && s < |chunks| && Counted(c)
    ensures AllCounted(chunks[s := c])
  {
    var chunks' := chunks[s := c];
    forall t ensures CountedAt(chunks', t) { assert CountedAt(chunks, t); }
  }

  /** Inserting into one piece keeps the pieces placed and their identities distinct. */
  lemma PlacedInsert(ps: seq<seq<Item>>, order: seq<nat>, idToChunk: map<OpId, nat>, i: nat, j: nat, x: Item)
    requires |ps| == |order| && i < |ps| && j <= |ps[i]|
    requires Located(ps, order, idToChunk) && NoDuplicates(Ids(Flatten(ps))) && x.id !in idToChunk
    ensures var ps' := ps[i := InsertAt(ps[i], j, x)];
      && Offset(ps, i) + j <= |Flatten(ps)|
      && Flatten(ps') == InsertAt(Flatten(ps), Offset(ps, i) + j, x)
      && Located(ps', order, idToChunk[x.id := order[i]])
      && NoDuplicates(Ids(Flatten(ps')))
  {
    PieceInsert(ps, i, j, x);
    FreshInsert(Flatten(ps), Offset(ps, i) + j, x);
    LocatedInsert(ps, order, idToChunk, i, j, x);
  }

  /** Replacing one chunk replaces one piece. */
  lemma PiecesReplace(chunks: seq<Chunk>, order: seq<nat>, i: nat, c: Chunk)
    requires Slots(chunks, order) && i < |order| && c.orderPos == i
    ensures Slots(chunks[order[i] := c], order)
    ensures Pieces(chunks[order[i] := c], order) == Pieces(chunks, order)[i := c.items]
  {
    assert forall k :: 0 <= k < |order| && k != i ==> order[k] != order[i];
  }

  lemma WeightsReplace(ps: seq<seq<Item>>, i: nat, q: seq<Item>)
    requires i < |ps|
    ensures CharWeights(ps[i := q]) == CharWeights(ps)[i := |Visible(q)|]
    ensures ByteWeights(ps[i := q]) == ByteWeights(ps)[i := |Encode(q)|]
  {
  }

  lemma LocatedInsert(ps: seq<seq<Item>>, order: seq<nat>, idToChunk: map<OpId, nat>, i: nat, j: nat, x: Item)
    requires |ps| == |order| && i < |ps| && j <= |ps[i]|
    requires Located(ps, order, idToChunk) && x.id !in idToChunk
    requires Elements(Ids(Flatten(ps[i := InsertAt(ps[i], j, x)]))) == Elements(Ids(Flatten(ps))) + {x.id}
    ensures Located(ps[i := InsertAt(ps[i], j, x)], order, idToChunk[x.id := order[i]])
  {
    var ps': seq<seq<Item>> := ps[i := InsertAt(ps[i], j, x)];
    var m := idToChunk[x.id := order[i]];
    forall a, b | 0 <= a < |ps'| && 0 <= b < |ps'[a]| ensures ps'[a][b].id in m && m[ps'[a][b].id] == order[a] {
      if a == i && b != j {
        assert ps'[a][b] == ps[a][if b < j then b else b - 1];
      }
    }
  }

  lemma FreshInsert(flat: seq<Item>, k: nat, x: Item)
    requires k <= |flat| && NoDuplicates(Ids(flat)) && x.id !in Elements(Ids(flat))
    ensures Ids(InsertAt(flat, k, x)) == InsertAt(Ids(flat), k, x.id)
    ensures NoDuplicates(Ids(InsertAt(flat, k, x)))
    ensures Elements(Ids(InsertAt(flat, k, x))) == Elements(Ids(flat)) + {x.id}
  {
    var ids := Ids(flat);
    assert Ids(InsertAt(flat, k, x)) == InsertAt(ids, k, x.id);
    InsertElements(ids, k, x.id);
    var ids' := InsertAt(ids, k, x.id);
    forall a, b | 0 <= a < b < |ids'| ensures Differ(ids', a, b) {
      if a != k && b != k {
        assert Differ(ids, if a < k then a else a - 1, if b < k then b else b - 1);
      } else {
        var o := if a == k then b else a;
        assert ids'[o] == ids[if o < k then o else o - 1];
      }
    }
  }

  /** The chunk after item `j` became a tombstone. */
  function ChunkDelete(c: Chunk, j: nat): Chunk
    requires j < |c.items| && c.visibleChars > 0 && c.visibleBytes >= LenUtf8(c.items[j].ch)
  {
    Chunk(Tombstone(c.items, j),
          c.visibleChars - 1, c.visibleBytes - LenUtf8(c.items[j].ch), c.orderPos)
  }

  lemma CountedDelete(c: Chunk, j: nat)
    requires Counted(c) && j < |c.items| && !c.items[j].deleted
    ensures c.visibleChars > 0 && c.visibleBytes >= LenUtf8(c.items[j].ch)
    ensures Counted(ChunkDelete(c, j))
  {
    FlagAround(c.items, j);
  }

  /** The visible text around item `j`, before and after it becomes a tombstone. */
  lemma FlagAround(items: seq<Item>, j: nat)
    requires j < |items| && !items[j].deleted
    ensures var items' := Tombstone(items, j);
      && Visible(items) == Visible(items[..j]) + [items[j]] + Visible(items[j + 1..])
      && Visible(items') == Visible(items[..j]) + Visible(items[j + 1..])
      && Encode(items) == Encode(items[..j]) + Utf8(items[j].ch) + Encode(items[j + 1..])
      && Encode(items') == Encode(items[..j]) + Encode(items[j + 1..])
  {
    var y := items[j].(deleted := true);
    UpdateAround(items, j, items[j]);
    UpdateAround(items, j, y);
    VisibleAround(items[..j], items[j], items[j + 1..]);
    VisibleAround(items[..j], y, items[j + 1..]);
    assert Visible(items[..j]) + [] == Visible(items[..j]);
    assert Encode(items[..j]) + [] == Encode(items[..j]);
  }

  /** Deleting at location `(i, j)` sets one flag of the flat sequence. */
  lemma StoredDelete(chunks: seq<Chunk>, order: seq<nat>, idToChunk: map<OpId, nat>, i: nat, j: nat)
    requires Stored(chunks, order, idToChunk)
    requires i < |order| && j < |chunks[order[i]].items| && !chunks[order[i]].items[j].deleted
    ensures chunks[order[i]].visibleChars > 0
    ensures chunks[order[i]].visibleBytes >= LenUtf8(chunks[order[i]].items[j].ch)
    ensures var ps := Pieces(chunks, order);
      var c := ChunkDelete(chunks[order[i]], j);
      var chunks' := chunks[order[i] := c];
      && Stored(chunks', order, idToChunk)
      && Pieces(chunks', order) == ps[i := c.items]
      && CharWeights(Pieces(chunks', order)) == CharWeights(ps)[i := c.visibleChars]
      && ByteWeights(Pieces(chunks', order)) == ByteWeights(ps)[i := c.visibleBytes]
  {
    var ps := Pieces(chunks, order);
    assert CountedAt(chunks, order[i]);
    CountedDelete(chunks[order[i]], j);
    var c := ChunkDelete(chunks[order[i]], j);
    CountedReplace(chunks, order[i], c);
    PiecesReplace(chunks, order, i, c);
    LocatedDelete(ps, order, idToChunk, i, j, c.items[j]);
    WeightsReplace(ps, i, c.items);
  }

  lemma PieceTombstone(ps: seq<seq<Item>>, i: nat, j: nat)
    requires i < |ps| && j < |ps[i]|
    ensures Offset(ps, i) + j < |Flatten(ps)| && Flatten(ps)[Offset(ps, i) + j] == ps[i][j]
    ensures Flatten(ps[i := Tombstone(ps[i], j)]) == Tombstone(Flatten(ps), Offset(ps, i) + j)
  {
    PieceUpdate(ps, i, j, ps[i][j].(deleted := true));
  }

  lemma LocatedDelete(ps: seq<seq<Item>>, order: seq<nat>, idToChunk: map<OpId, nat>, i: nat, j: nat, y: Item)
    requires |ps| == |order| && i < |ps| && j < |ps[i]| && y.id == ps[i][j].id
    requires Located(ps, order, idToChunk)
    ensures Located(ps[i := ps[i][j := y]], order, idToChunk)
    ensures Ids(Flatten(ps[i := ps[i][j := y]])) == Ids(Flatten(ps))
  {
    PieceUpdate(ps, i, j, y);
    assert Ids(Flatten(ps[i := ps[i][j := y]])) == Ids(Flatten(ps));
    var ps': seq<seq<Item>> := ps[i := ps[i][j := y]];
    forall a, b | 0 <= a < |ps'| && 0 <= b < |ps'[a]|
      ensures ps'[a][b].id in idToChunk && idToChunk[ps'[a][b].id] == order[a]
    {
      assert ps[a][b].id == ps'[a][b].id;
    }
  }

  /** `x` is in the part of a chunk that a cut at `mid` moves out. */
  ghost predicate MovesAt(items: seq<Item>, mid: nat, x: OpId) {
    exists k :: mid <= k < |items| && items[k].id == x
  }

  /** Cutting chunk `i` at `mid` into its slot and a fresh one keeps the flat
      sequence and every location. */
  lemma StoredSplit(chunks: seq<Chunk>, order: seq<nat>, idToChunk: map<OpId, nat>, i: nat, mid: nat,
                    chunks': seq<Chunk>, idToChunk': map<OpId, nat>)
    requires Stored(chunks, order, idToChunk)
    requires i < |order| && mid <= |chunks[order[i]].items|
    requires |chunks'| == |chunks| + 1
    requires AllCounted(chunks')
    requires forall s :: 0 <= s < |chunks| && s != order[i] ==> chunks'[s].items == chunks[s].items
    requires chunks'[order[i]].items == chunks[order[i]].items[..mid]
    requires chunks'[|chunks|].items == chunks[order[i]].items[mid..]
    requires Slots(chunks', InsertAt(order, i + 1, |chunks|))
    requires idToChunk'.Keys == idToChunk.Keys
    requires forall x :: x in idToChunk ==>
      idToChunk'[x] == if MovesAt(chunks[order[i]].items, mid, x) then |chunks| else idToChunk[x]
    ensures Stored(chunks', InsertAt(order, i + 1, |chunks|), idToChunk')
    ensures Flatten(Pieces(chunks', InsertAt(order, i + 1, |chunks|))) == Flatten(Pieces(chunks, order))
  {
    SplitPieces(chunks, order, i, mid, chunks');
    PieceSplit(Pieces(chunks, order), i, mid);
    LocatedSplit(Pieces(chunks, order), order, idToChunk, i, mid, |chunks|, idToChunk');
  }

  lemma LocatedSplit(ps: seq<seq<Item>>, order: seq<nat>, idToChunk: map<OpId, nat>, i: nat, mid: nat,
                     newSlot: nat, idToChunk': map<OpId, nat>)
    requires |ps| == |order| && i < |ps| && mid <= |ps[i]|
    requires NoDuplicates(Ids(Flatten(ps))) && Located(ps, order, idToChunk)
    requires idToChunk'.Keys == idToChunk.Keys
    requires forall x :: x in idToChunk ==> idToChunk'[x] == if MovesAt(ps[i], mid, x) then newSlot else idToChunk[x]
    ensures Flatten(ps[..i] + [ps[i][..mid], ps[i][mid..]] + ps[i + 1..]) == Flatten(ps)
    ensures Located(ps[..i] + [ps[i][..mid], ps[i][mid..]] + ps[i + 1..], InsertAt(order, i + 1, newSlot), idToChunk')
  {
    PieceSplit(ps, i, mid);
    var ps': seq<seq<Item>> := ps[..i] + [ps[i][..mid], ps[i][mid..]] + ps[i + 1..];
    var order' := InsertAt(order, i + 1, newSlot);
    forall a, b | 0 <= a < |ps'| && 0 <= b < |ps'[a]|
      ensures ps'[a][b].id in idToChunk' && idToChunk'[ps'[a][b].id] == order'[a]
    {
      if a == i + 1 {
        assert ps'[a][b] == ps[i][mid + b];
      } else {
        var o := if a <= i then a else a - 1;
        assert ps'[a][b] == ps[o][b] && order'[a] == order[o];
        forall k | mid <= k < |ps[i]| ensures ps[i][k].id != ps[o][b].id { DistinctLocations(ps, o, b, i, k); }
      }
    }
  }

  /** Chunk `i` cut in the middle. */
  ghost function Halved(ps: seq<seq<Item>>, i: nat): seq<seq<Item>>
    requires i < |ps|
  {
    var half := |ps[i]| / 2;
    ps[..i] + [ps[i][..half], ps[i][half..]] + ps[i + 1..]
  }

  /** No chunk holds more than `n` items. */
  ghost predicate AtMost(ps: seq<seq<Item>>, n: nat) {
    forall i :: 0 <= i < |ps| ==> |ps[i]| <= n
  }

  /** Chunk `i` has one item more, the others as many as before. */
  ghost predicate OneMore(ps: seq<seq<Item>>, qs: seq<seq<Item>>, i: nat) {
    && |qs| == |ps| && i < |ps| && |qs[i]| == |ps[i]| + 1
    && forall j :: 0 <= j < |ps| && j != i ==> |qs[j]| == |ps[j]|
  }

  /** One item more in one chunk, which is then cut if it is too long, leaves all
      chunks within the limit. */
  lemma StaysSmall(ps: seq<seq<Item>>, qs: seq<seq<Item>>, i: nat)
    requires AtMost(ps, 128) && OneMore(ps, qs, i)
    ensures AtMost(if |qs[i]| > 128 then Halved(qs, i) else qs, 128)
  {
    var r := Halved(qs, i);
    forall j | 0 <= j < |r| && |qs[i]| > 128 ensures |r[j]| <= 128 {
      assert j > i + 1 ==> r[j] == qs[j - 1];
    }
  }

  lemma SplitPieces(chunks: seq<Chunk>, order: seq<nat>, i: nat, mid: nat, chunks': seq<Chunk>)
    requires Slots(chunks, order) && i < |order| && mid <= |chunks[order[i]].items|
    requires |chunks'| == |chunks| + 1 && Slots(chunks', InsertAt(order, i + 1, |chunks|))
    requires forall s :: 0 <= s < |chunks| && s != order[i] ==> chunks'[s].items == chunks[s].items
    requires chunks'[order[i]].items == chunks[order[i]].items[..mid]
    requires chunks'[|chunks|].items == chunks[order[i]].items[mid..]
    ensures var ps := Pieces(chunks, order);
      Pieces(chunks', InsertAt(order, i + 1, |chunks|)) == ps[..i] + [ps[i][..mid], ps[i][mid..]] + ps[i + 1..]
  {
    var ps, order' := Pieces(chunks, order), InsertAt(order, i + 1, |chunks|);
    var ps': seq<seq<Item>> := ps[..i] + [ps[i][..mid], ps[i][mid..]] + ps[i + 1..];
    var q := Pieces(chunks', order');
    forall a | 0 <= a < |order'| ensures q[a] == ps'[a] {
      if a <= i {
        assert order'[a] == order[a];
        assert a != i ==> order[a] != order[i];
      } else if a > i + 1 {
        assert order'[a] == order[a - 1];
        assert order[a - 1] != order[i];
      }
    }
  }

  /** Two different locations hold different identities. */
  lemma DistinctLocations(ps: seq<seq<Item>>, a: nat, b: nat, i: nat, k: nat)
    requires NoDuplicates(Ids(Flatten(ps)))
    requires a < |ps| && b < |ps[a]| && i < |ps| && k < |ps[i]| && (a != i || b != k)
    ensures ps[a][b].id != ps[i][k].id
  {
    LocationPrefix(ps, a, b);
    LocationPrefix(ps, i, k);
    var u, v := Offset(ps, a) + b, Offset(ps, i) + k;
    if a < i {
      OffsetMonotone(ps, a + 1, i);
      FlattenAround(ps, a);
    } else if i < a {
      OffsetMonotone(ps, i + 1, a);
      FlattenAround(ps, i);
    }
    var ids := Ids(Flatten(ps));
    assert ids[u] == ps[a][b].id && ids[v] == ps[i][k].id;
    assert if u < v then Differ(ids, u, v) else Differ(ids, v, u);
  }

  lemma {:induction false} OffsetMonotone(ps: seq<seq<Item>>, i: nat, j: nat)
    requires i <= j <= |ps|
    ensures Offset(ps, i) <= Offset(ps, j)
    decreases j
  {
    if i < j {
      OffsetMonotone(ps, i, j - 1);
      FlattenAround(ps, j - 1);
    }
  }

  // ----- The visible string -----

  /** A visible insertion is one splice of the string. */
  lemma StringInsert(flat: seq<Item>, k: nat, x: Item)
    requires k <= |flat|
    ensures var b := |Encode(flat[..k])|; var v := |Visible(flat[..k])|;
      && b <= |Encode(flat)| && v <= |Visible(flat)|
      && Encode(InsertAt(flat, k, x)) == Encode(flat)[..b] + (if x.deleted then [] else Utf8(x.ch)) + Encode(flat)[b..]
      && Visible(InsertAt(flat, k, x)) == Visible(flat)[..v] + (if x.deleted then [] else [x]) + Visible(flat)[v..]
  {
    assert flat == flat[..k] + flat[k..];
    VisibleConcat(flat[..k], flat[k..]);
    VisibleAround(flat[..k], x, flat[k..]);
  }

  /** A deletion cuts one character out of the string. */
  lemma StringDelete(flat: seq<Item>, k: nat)
    requires k < |flat| && !flat[k].deleted
    ensures var b := |Encode(flat[..k])|; var v := |Visible(flat[..k])|; var n := LenUtf8(flat[k].ch);
      var flat' := Tombstone(flat, k);
      && b + n <= |Encode(flat)| && v < |Visible(flat)|
      && Encode(flat') == Encode(flat)[..b] + Encode(flat)[b + n..]
      && Visible(flat') == RemoveAt(Visible(flat), v)
      && Visible(flat)[v] == flat[k]
  {
    FlagAround(flat, k);
    Cut(Encode(flat[..k]), Utf8(flat[k].ch), Encode(flat[k + 1..]));
    Cut(Visible(flat[..k]), [flat[k]], Visible(flat[k + 1..]));
  }

  lemma Cut<T>(p: seq<T>, q: seq<T>, r: seq<T>)
    ensures (p + q + r)[..|p|] == p && (p + q + r)[|p| + |q|..] == r
    ensures q != [] ==> (p + q + r)[|p|] == q[0]
  {
  }

  /** The scan is determined by what it promises. */
  lemma {:induction false} ScanIs(ids: seq<OpId>, k: nat, x: OpId, r: nat)
    requires k <= r <= |ids|
    requires forall i :: k <= i < r ==> Less(x, ids[i])
    requires r < |ids| ==> !Less(x, ids[r])
    ensures Scan(ids, k, x) == r
  {
    var s := Scan(ids, k, x);
    assert !(s < r) && !(r < s);
  }
}
