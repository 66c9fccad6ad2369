/** Operations, transactions and DAG nodes (core/crdt/src/op.rs,
    core/crdt/src/node.rs). */
module Nodes {
  import opened Core

  /** A 32-byte hash, read as a big-endian number. */
  type Hash = nat
  /** A 16-byte list item identity, read the same way. */
  type ItemId = nat
  type Bytes = seq<nat>

  /** The last `k` bytes of a number, most significant first. */
  function BytesOf(h: nat, k: nat): (r: Bytes)
    ensures |r| == k && forall i :: 0 <= i < k ==> r[i] < 256
  {
    if k == 0 then [] else BytesOf(h / 256, k - 1) + [h % 256]
  }

  /** The 32 bytes of a hash. */
  function HashBytes(h: Hash): (r: Bytes)
    ensures |r| == 32 && forall i :: 0 <= i < 32 ==> r[i] < 256
  {
    BytesOf(h, 32)
  }

  ghost function Power256(k: nat): nat {
    if k == 0 then 1 else 256 * Power256(k - 1)
  }

  /** The number big-endian bytes spell. */
  ghost function BigEndian(bs: Bytes): nat {
    if bs == [] then 0 else BigEndian(bs[..|bs| - 1]) * 256 + bs[|bs| - 1]
  }

  lemma {:induction false} BytesSpell(h: nat, k: nat)
    requires h < Power256(k)
    ensures BigEndian(BytesOf(h, k)) == h
  {
    if k > 0 {
      BytesSpell(h / 256, k - 1);
      assert BytesOf(h, k)[..k - 1] == BytesOf(h / 256, k - 1);
    }
  }

  /** The bytes of a hash spell it. */
  lemma HashBytesSpell(h: Hash)
    requires h < Power256(32)
    ensures BigEndian(HashBytes(h)) == h
  {
    BytesSpell(h, 32);
  }

  datatype MapOp = Set(key: string, value: Bytes) | Unset(key: string) | SetBlob(key: string, blob: Hash)

  datatype ListOp =
    | ListInsert(key: string, item: ItemId, pos: string)
    | ListMove(key: string, item: ItemId, pos: string)
    | ListDelete(key: string, item: ItemId)

  /** Single-character text operations; range operations are not part of this model. */
  datatype TextOp = TextInsert(key: string, after: Option<OpId>, ch: char) | TextDelete(key: string, target: OpId)

  datatype Op = OnMap(m: MapOp) | OnList(l: ListOp) | OnText(t: TextOp) {
    function Key(): string {
      match this
      case OnMap(m) => m.key
      case OnList(l) => l.key
      case OnText(t) => t.key
    }
  }

  /** The operation is on key `k`. */
  ghost predicate Names(op: Op, k: string) {
    || (exists v :: op == OnMap(Set(k, v))) || op == OnMap(Unset(k)) || (exists b :: op == OnMap(SetBlob(k, b)))
    || (exists i, pos :: op == OnList(ListInsert(k, i, pos))) || (exists i, pos :: op == OnList(ListMove(k, i, pos)))
    || (exists i :: op == OnList(ListDelete(k, i)))
    || (exists a, c :: op == OnText(TextInsert(k, a, c))) || (exists t :: op == OnText(TextDelete(k, t)))
  }

  lemma KeyIs(op: Op, k: string)
    ensures op.Key() == k <==> Names(op, k)
  {
    match op
    case OnMap(m) =>
    case OnList(l) =>
    case OnText(t) =>
  }

  datatype Transaction = Transaction(author: Author, lamport: nat, wallMs: nat, ops: seq<Op>, parents: seq<Hash>)

  datatype SyncNode = SyncNode(id: Hash, tx: Transaction, signature: nat) {
    /** The last-writer-wins priority of everything in the node. */
    function Priority(): OpId {
      OpId(tx.lamport, tx.author)
    }
  }

  /** No two different nodes of a collection share a priority. */
  ghost predicate DistinctPriorities(nodes: seq<SyncNode>) {
    forall i, j :: 0 <= i < |nodes| && 0 <= j < |nodes| && nodes[i].Priority() == nodes[j].Priority() ==>
      nodes[i] == nodes[j]
  }

  /** Every node outranks the priority that never wins. */
  ghost predicate Ranked(nodes: seq<SyncNode>) {
    forall i :: 0 <= i < |nodes| ==> nodes[i].Priority() != ZERO_PRIORITY
  }
}
