/** List edits by index, committed to the graph
    (clients/bridge-wasm/src/lib.rs). */
module ListEdits {
  import opened Core
  import opened Nodes
  import opened Dag
  import opened ListPlacement
  import opened Admission
  import ListView
  import G = StateGraph

  /** What an edit by index can end in. */
  datatype Edit = Done | NotInList | Panicked | Failed(e: SyncError)

  /** The list at `key`, in order. */
  ghost function ListAt(g: G.StateGraph, key: string): seq<Placed>
    reads g
  {
    ListView.Listing(ListView.CacheOf(g.lists, key).visible)
  }

  ghost predicate DeletedAt(g: G.StateGraph, key: string, item: ItemId)
    reads g
  {
    ListView.Lookup(ListView.CacheOf(g.lists, key).items, item).deleted
  }

  /** The node a clock at `clock` gives a list operation of ours. */
  ghost function OwnNode(hash: Transaction -> Hash, author: Author, clock: nat, wallMs: nat, op: ListOp,
                         parents: seq<Hash>, signature: nat): SyncNode
  {
    var tx := Transaction(author, clock + 1, wallMs, [OnList(op)], parents);
    SyncNode(hash(tx), tx, signature)
  }

  /** Commit one list operation of ours. */
  method CommitList(g: G.StateGraph, op: ListOp, author: Author, wallMs: nat, parents: seq<Hash>, signature: nat)
    returns (e: Option<SyncError>)
    requires g.Valid() && Elements(parents) == g.leaves
    modifies g
    ensures g.Valid() && (HashInjective(g.world.hash) ==> e.None?)
    ensures e.None? ==>
      g.log == old(g.log) + [OwnNode(g.world.hash, author, old(g.lamport), wallMs, op, parents, signature)]
    ensures e.Some? ==> g.log == old(g.log)
  {
    var n;
    n, e := g.ApplyLocal(author, wallMs, [OnList(op)], parents, signature);
  }

  /** The list of a graph is that of its log, which its clock covers. */
  lemma ListOfLog(g: G.StateGraph, key: string, item: ItemId)
    requires g.Valid()
    ensures ListAt(g, key) == Resolved(g.log, key) && Covers(g.log, g.lamport)
    ensures DeletedAt(g, key, item) == DeletedIn(g.log, key, item)
  {
  }

  ghost predicate DeletedIn(log: seq<SyncNode>, key: string, item: ItemId) {
    ListView.Lookup(ListView.CacheOf(ListView.FoldNodes(log), key).items, item).deleted
  }

  /** The item shows up exactly at the index, also if it was listed before; a
      deleted item stays away. */
  ghost predicate InsertedAt(was: seq<Placed>, after: seq<Placed>, deleted: bool, index: nat, pos: string,
                             item: ItemId)
  {
    && after == (if deleted then was else Put(was, index, pos, item))
    && (!deleted && (forall i :: 0 <= i < |was| ==> was[i].1 != item) ==>
          after == InsertAt(was, Min(index, |was|), (pos, item)))
  }

  lemma InsertDone(log: seq<SyncNode>, clock: nat, n: SyncNode, key: string, index: nat, item: ItemId)
    requires NearDigits(Resolved(log, key), index, None) && Covers(log, clock) && n.tx.lamport == clock + 1
    requires PositionForIndex(Resolved(log, key), index, None).Some?
    requires n.tx.ops == [OnList(ListInsert(key, item, PositionForIndex(Resolved(log, key), index, None).value))]
    ensures var was := Resolved(log, key);
      InsertedAt(was, Resolved(log + [n], key), DeletedIn(log, key, item), index,
                 PositionForIndex(was, index, None).value, item)
  {
    var was := Resolved(log, key);
    LaterOutranks(log, n, key, item);
    InsertLands(log, n, key, item, index);
    if forall i :: 0 <= i < |was| ==> was[i].1 != item {
      PutNew(was, index, PositionForIndex(was, index, None).value, item);
    }
  }

  /** Insert an item at an index, or change nothing and panic. */
  method ListInsertAt(g: G.StateGraph, key: string, index: nat, item: ItemId,
                      author: Author, wallMs: nat, parents: seq<Hash>, signature: nat) returns (r: Edit)
    requires g.Valid() && Elements(parents) == g.leaves
    requires NearDigits(ListAt(g, key), index, None)
    modifies g
    ensures g.Valid()
    ensures var was := old(ListAt(g, key));
      var pos := PositionForIndex(was, index, None);
      && (r.Panicked? <==> pos.None?)
      && (r.Done? ==> InsertedAt(was, ListAt(g, key), old(DeletedAt(g, key, item)), index, pos.value, item))
      && (r.Done? ==> g.log == old(g.log) + [OwnNode(g.world.hash, author, old(g.lamport), wallMs,
                                                     ListInsert(key, item, pos.value), parents, signature)])
      && (!r.Done? ==> ListAt(g, key) == was && g.log == old(g.log))
    ensures !r.NotInList? && (HashInjective(g.world.hash) ==> !r.Failed?)
  {
    ghost var log, clock := g.log, g.lamport;
    ListOfLog(g, key, item);
    var seqn := ListView.SortVisible(ListView.CacheOf(g.lists, key).visible);
    var pos := ComputePosition(seqn, index, None);
    if pos.None? { return Panicked; }
    var op := ListInsert(key, item, pos.value);
    var e := CommitList(g, op, author, wallMs, parents, signature);
    ListOfLog(g, key, item);
    if e.Some? { return Failed(e.value); }
    InsertDone(log, clock, OwnNode(g.world.hash, author, clock, wallMs, op, parents, signature), key, index, item);
    return Done;
  }

  ghost predicate Absent(was: seq<Placed>, item: ItemId) {
    forall i :: 0 <= i < |was| ==> was[i].1 != item
  }

  /** The item has left its place and stands at the index of the rest. */
  ghost predicate MovedTo(was: seq<Placed>, after: seq<Placed>, index: nat, pos: string, item: ItemId) {
    var f := Without(was, Some(item));
    after == InsertAt(f, Min(index, |f|), (pos, item))
  }

  lemma MoveDone(log: seq<SyncNode>, clock: nat, n: SyncNode, key: string, index: nat, item: ItemId)
    requires NearDigits(Resolved(log, key), index, Some(item)) && Covers(log, clock) && n.tx.lamport == clock + 1
    requires !Absent(Resolved(log, key), item) && PositionForIndex(Resolved(log, key), index, Some(item)).Some?
    requires n.tx.ops == [OnList(ListMove(key, item, PositionForIndex(Resolved(log, key), index, Some(item)).value))]
    ensures var was := Resolved(log, key);
      MovedTo(was, Resolved(log + [n], key), index, PositionForIndex(was, index, Some(item)).value, item)
  {
    MoveLands(log, n, key, item, index);
  }

  /** Move a visible item to an index of the list without it. */
  method ListMoveTo(g: G.StateGraph, key: string, index: nat, item: ItemId,
                    author: Author, wallMs: nat, parents: seq<Hash>, signature: nat) returns (r: Edit)
    requires g.Valid() && Elements(parents) == g.leaves
    requires NearDigits(ListAt(g, key), index, Some(item))
    modifies g
    ensures g.Valid()
    ensures var was := old(ListAt(g, key));
      var pos := PositionForIndex(was, index, Some(item));
      && (r.NotInList? <==> Absent(was, item))
      && (!r.NotInList? ==> (r.Panicked? <==> pos.None?))
      && (r.Done? ==> MovedTo(was, ListAt(g, key), index, pos.value, item))
      && (r.Done? ==> g.log == old(g.log) + [OwnNode(g.world.hash, author, old(g.lamport), wallMs,
                                                     ListMove(key, item, pos.value), parents, signature)])
      && (!r.Done? ==> ListAt(g, key) == was && g.log == old(g.log))
    ensures HashInjective(g.world.hash) ==> !r.Failed?
  {
    ghost var log, clock := g.log, g.lamport;
    ListOfLog(g, key, item);
    var seqn := ListView.SortVisible(ListView.CacheOf(g.lists, key).visible);
    if !exists i :: 0 <= i < |seqn| && seqn[i].1 == item { return NotInList; }
    var pos := ComputePosition(seqn, index, Some(item));
    if pos.None? { return Panicked; }
    var op := ListMove(key, item, pos.value);
    var e := CommitList(g, op, author, wallMs, parents, signature);
    ListOfLog(g, key, item);
    if e.Some? { return Failed(e.value); }
    MoveDone(log, clock, OwnNode(g.world.hash, author, clock, wallMs, op, parents, signature), key, index, item);
    return Done;
  }
}
