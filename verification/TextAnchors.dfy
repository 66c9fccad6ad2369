/** Cursor positions: visible offsets and stable anchors, on the materialized
    sequence of visible characters (core/crdt/src/text_range.rs,
    core/crdt/src/graph.rs). */
module TextAnchors {
  import opened Core
  import opened TextHistory

  datatype Anchor = Start | End | After(id: OpId) | AtOffset(offset: nat)

  /** Position of an identity in a sequence, or its length. */
  ghost function PositionOf(v: seq<Item>, x: OpId): (r: nat)
    ensures r <= |v|
    ensures r < |v| ==> v[r].id == x
    ensures forall i :: 0 <= i < r ==> v[i].id != x
  {
    if v == [] then 0 else if v[0].id == x then 0 else 1 + PositionOf(v[1..], x)
  }

  /** Anchor to insertion index, by scanning the sequence. */
  ghost function IndexFor(v: seq<Item>, a: Anchor): nat {
    match a
    case Start => 0
    case End => |v|
    case AtOffset(i) => Min(i, |v|)
    case After(x) => Min(PositionOf(v, x) + 1, |v|)
  }

  /** Offset to stable anchor, by indexing the sequence. */
  ghost function AnchorFor(v: seq<Item>, o: nat): Anchor {
    if o == 0 then Start else if o >= |v| then End else After(v[o - 1].id)
  }

  /** The form used when a local edit is canonicalized: the offset is clamped
      first, so on an empty document every offset is the start. */
  ghost function CanonicalAnchor(v: seq<Item>, o: nat): Anchor {
    var i := Min(o, |v|);
    if i == 0 then Start else if i >= |v| then End else After(v[i - 1].id)
  }

  lemma PositionIs(v: seq<Item>, i: nat, x: OpId)
    requires NoDuplicates(Ids(v)) && i < |v| && v[i].id == x
    ensures PositionOf(v, x) == i
  {
    SameIndex(Ids(v), PositionOf(v, x), i);
  }

  /** Offset to anchor and back is the offset, clamped to the document. */
  lemma AnchorRoundTrip(v: seq<Item>, o: nat)
    requires NoDuplicates(Ids(v))
    ensures IndexFor(v, AnchorFor(v, o)) == Min(o, |v|)
    ensures IndexFor(v, CanonicalAnchor(v, o)) == Min(o, |v|)
  {
    if 0 < o < |v| { PositionIs(v, o - 1, v[o - 1].id); }
  }
}
