# NodalMerge in Dafny

A model of the NodalMerge CRDT core and of its pack transport, with proofs of
what every run of it keeps. NodalMerge stores signed, content-addressed nodes in
an append-only DAG and keeps map, list and text views of it up to date
incrementally; peers compare Merkle roots, reconcile id sets and exchange packs.

The modules, in the order they build on each other:

- `Core`, `Nodes`: operation ids and their order, operations, transactions, nodes.
- `PositionIndex`: the counted Fenwick index.
- `TextOrder`, `TextForest`, `TextHistory`: the flat RGA insertion as an order on ids,
  when it is the documented forest traversal, and what a history of inserts and
  deletes shows.
- `TextBytes`, `TextChunks`, `TextSlab`, `TextProjection`, `TextAnchors`, `TextReplay`: the
  chunked text engine as a refinement of the flat sequence, cursors and anchors,
  convergence.
- `FracIndex`, `ListView`, `ListPlacement`, `ListEdits`: fractional positions, the list
  cache against its replay, edits by index.
- `MapView`: the last-writer-wins caches against their replay.
- `Policy`: globs and write rules.
- `Dag`, `Admission`, `Views`, `StateGraph`: the DAG through its admission log, the
  checks, batches, the graph object, equal roots.
- `TextNodes`: the sorted text replay over nodes.
- `Packs`, `Replay`, `Canonical`: multi-pass import, deterministic replay, the canonical
  encoding.
- `Export`, `Base64`: topological export, packing, base64.
- `Ibf`, `Mst`: set reconciliation.

Key ideas. A flat text sequence is characterised by one invariant: every id hangs
under the nearest smaller id on its left. The RGA scan keeps it, a forest has only
one such sequence, and so convergence needs no assumption on anchors at all. Whether
it is also the documented traversal of the anchor forest is decided by what stands
between a character and its anchor in that traversal. The graph is seen through the
log of its admissions: the store, leaves, heads, clock and caches are functions of
that log, each kept incrementally by the code and proved equal to the function.
Batches, imports and replays are functions from ledger to ledger that the loops are
proved against, and the order-independence results are about those functions.

Blake3 and Ed25519 are parameters: a hash function that the theorems assume
injective where they say so, and a predicate on nodes. 32-byte keys, hashes and
16-byte item ids are numbers, compared as the byte arrays are. Hash iteration order
is an arbitrary choice, or an argument.

Where the code and its comments differ, the model follows the code:

- A comment says an own node enters the canonical view once a peer sends it back
  (core/crdt/src/graph.rs:1959-1960). It is refused as a duplicate, so it does not
  (`Admission.RebroadcastRefused`).
- The comment on the caches calls them an exact function of the node set
  (core/crdt/src/graph.rs:130-135). Nodes at the zero priority are skipped by the
  list cache and not by the list replay; `ListView.CacheEqualsReplayIff` says exactly
  when that matters.
- Both views are documented as functions of the node set alone
  (core/crdt/src/graph.rs:130-135, core/crdt/src/list.rs:295-302). Of two nodes with
  the same priority the first admitted wins; `MapView.OrderIrrelevantIff` and
  `ListView.ItemOrderIff` say exactly when the order does not show.
- Grouping operations into nodes is documented as irrelevant to the resolved state
  (core/crdt/src/graph.rs:303-308). Of several writes of one node to a key the first
  wins, so it is not (`MapView.GroupingDiffers`); `MapView.GroupingIff` says exactly
  when two nodes can be one.
- The text module says its order is the traversal of the insertion forest
  (core/crdt/src/text.rs:9-25). With an id smaller than its anchor it need not be
  (`TextReplay.SubtreeSplit`); `TextReplay.OutcomeIsDocumentIff` says exactly when it
  is, and `Views.YoungerShowsDocument` that it is when authors anchor at characters
  they hold.
- The panic of `between` is documented for unordered bounds and for a bound of 0;
  it also happens whenever the upper bound is the lower one followed by zeros
  (`FracIndex.BetweenWorks`), which positions made by `between` never are.
- The documentation of the batch entry point puts every node in exactly one bucket
  (core/crdt/src/graph.rs:1465-1467). Repeats and stored nodes are in neither, as the
  result type says (`Admission.BatchAccounts`). A batch also judges all lamports by
  the clock it started with and drops the second copy of a node whose first copy was
  refused (`Admission.BatchCeilingDiffers`, `Admission.BatchRepeatDiffers`);
  `Admission.BatchIsRunIff` says exactly when it admits what single steps would.

## Model

| member | source | states |
|---|---|---|
| `TextOrder.Scan` | core/crdt/src/text.rs:690-712 | the scan stops at the first id that is not greater, having skipped only greater ones |
| `TextOrder.ClimbIsLeft` | core/crdt/src/text.rs:690-712 | where the scan stops, the nearest smaller id on the left is the anchor or the first of its ancestors smaller than the new id |
| `TextOrder.PlaceKeepsNearest` | core/crdt/src/text.rs:673-712 | one flat insertion keeps the invariant that every id hangs under the nearest smaller id on its left |
| `TextOrder.NearestUnique` | core/crdt/src/text.rs:9-25 | a forest has only one flat sequence with that invariant |
| `TextForest.DfsLists` | core/crdt/src/text.rs:9-25 | the traversal of the insertion forest lists every character once; each precedes those in its subtree, and the subtree of a greater sibling precedes that of a smaller one |
| `TextForest.StandsBefore` | core/crdt/src/text.rs:9-25 | in the traversal, standing before is exactly being an ancestor or being in the subtree of a greater sibling |
| `TextForest.SubtreeUnbroken` | core/crdt/src/text.rs:9-25 | a subtree is an unbroken stretch of the traversal that starts with its root |
| `TextForest.BetweenAnchor` | core/crdt/src/text.rs:9-25 | what stands between a character and its anchor in the traversal are exactly the subtrees of its greater siblings |
| `TextForest.FlatIsDfsIff` | core/crdt/src/text.rs:9-25 | the flat sequence of the engine is the traversal if and only if no character is greater than one in the subtree of a greater sibling |
| `TextForest.AnchoredOrderly` | core/crdt/src/text.rs:9-25 | that holds whenever every id is greater than its anchor |
| `TextForest.DfsArrived` | core/crdt/src/text.rs:9-25 | characters whose chain of anchors is incomplete do not affect the traversal |
| `TextHistory.ShowsInsert` | core/crdt/src/text.rs:665-764 | integrating a birth shows it at its place, labelled with its character, a tombstone exactly if its delete came first |
| `TextHistory.ShowsDelete` | core/crdt/src/text.rs:784-820 | deleting an item changes its label and nothing else |
| `TextHistory.ForestUnique` | core/crdt/src/text.rs:767-782 | whatever the order of integration, the integrated births hang in the same forest |
| `TextHistory.ShownEqual` | core/crdt/src/text.rs:665-782 | two integrations of the same births and deletes show the same items |
| `TextHistory.ArrivedIsLog` | core/crdt/src/text.rs:767-782 | what is integrated are exactly the births whose chain of anchors has arrived, each hanging under its anchor or the first smaller ancestor of it |
| `TextHistory.ShownIsDocumentIff` | core/crdt/src/text.rs:9-25 | what is shown is the documented traversal, tombstones where deleted, if and only if the arrived births are orderly |
| `TextHistory.DeliveryIrrelevant` | core/crdt/src/text.rs:893-925 | births and deletes told by a history depend only on the set of its updates |
| `TextChunks.CharsAtLocation` | core/crdt/src/text.rs:536-545 | chunk prefix sum plus visible items inside the chunk is the number of visible characters before a location |
| `TextChunks.BytesAtLocation` | core/crdt/src/text.rs:548-561 | the same for UTF-8 bytes |
| `TextChunks.TotalsAreVisible` | core/crdt/src/text.rs:623-640 | the chunk weights add up to the visible characters and to their bytes |
| `TextChunks.StoredInsert` | core/crdt/src/text.rs:730-745 | inserting into one chunk keeps slots, caches and the id index consistent with the chunks |
| `TextChunks.StoredDelete` | core/crdt/src/text.rs:784-820 | so does setting one tombstone |
| `TextChunks.StoredSplit` | core/crdt/src/text.rs:642-659 | so does splitting a chunk |
| `TextChunks.StringInsert` | core/crdt/src/text.rs:736-756 | the text after a visible insert is the old text with the UTF-8 of the character at the byte offset of its place |
| `TextChunks.StringDelete` | core/crdt/src/text.rs:784-820 | the text after a deletion is the old text without the bytes of that character |
| `TextChunks.CountVisible` | core/crdt/src/text.rs:536-545 | the number of visible items before an index |
| `TextChunks.NthVisible` | core/crdt/src/text.rs:564-582 | the index of the n-th visible item |
| `TextChunks.CountBytes` | core/crdt/src/text.rs:548-561 | the UTF-8 length of the visible items before an index |
| `TextSlab.Recount` | core/crdt/src/text.rs:301-312 | the recounted caches are the visible characters and bytes of the items |
| `TextSlab.RenumberFrom` | core/crdt/src/text.rs:642-659 | after a split, order and order positions are mutually inverse again |
| `TextSlab.Slab.LocOfId` | core/crdt/src/text.rs:491-499 | finds an id exactly if it is in the flat sequence, at the item that carries it |
| `TextSlab.Slab.NormItemLoc` | core/crdt/src/text.rs:503-514 | normalising past chunk ends does not move the flat position; nothing is found only at the end |
| `TextSlab.Slab.EndLoc` | core/crdt/src/text.rs:522-533 | the end of the last chunk is the end of the flat sequence |
| `TextSlab.Slab.StartLoc` | core/crdt/src/text.rs:673-688 | the scan starts right after the anchor, or at the front |
| `TextSlab.Slab.ScanFrom` | core/crdt/src/text.rs:690-712 | the chunked scan lands where the flat scan does |
| `TextSlab.Slab.FindPlace` | core/crdt/src/text.rs:673-720 | the chunked search finds the flat insertion place |
| `TextSlab.Slab.InsertItem` | core/crdt/src/text.rs:730-745 | inserting into a chunk is one insertion into the flat sequence and changes the weights of that chunk only |
| `TextSlab.Slab.DeleteItem` | core/crdt/src/text.rs:784-820 | deleting in a chunk sets one flag of the flat sequence |
| `TextSlab.Slab.SplitChunk` | core/crdt/src/text.rs:642-659 | a split cuts the chunk in the middle and leaves the others, the flat sequence and the validity of the structure |
| `TextSlab.Slab.Weights` | core/crdt/src/text.rs:623-640 | the weights collected are the visible characters and bytes chunk by chunk |
| `PositionIndex.CountedPositionIndex.AddU32` | core/crdt/src/text.rs:222-228 | exactly the cells covering the index grow, saturating at 32 bits |
| `PositionIndex.CountedPositionIndex.SubU32` | core/crdt/src/text.rs:230-236 | exactly the cells covering the index shrink, saturating at zero |
| `PositionIndex.CountedPositionIndex.RebuildFenwick` | core/crdt/src/text.rs:214-220 | every cell holds the sum of the weights it covers, cut to 32 bits; below a total of 2^32 nothing is cut and the index is exact |
| `PositionIndex.CountedPositionIndex.RebuildFromWeights` | core/crdt/src/text.rs:179-184 | the weights are cut to 32 bits and the cells hold their sums; below a total of 2^32 the index represents the given weights |
| `PositionIndex.CountedPositionIndex.UpdateWeight` | core/crdt/src/text.rs:186-202 | exactly the covering cells move, saturating; an exact index whose new total is below 2^32 stays exact; out of range nothing changes |
| `PositionIndex.CountedPositionIndex.PrefixSum` | core/crdt/src/text.rs:238-246 | equals the plain sum of the first weights |
| `PositionIndex.CountedPositionIndex.TotalLen` | core/crdt/src/text.rs:175-177 | equals the sum of all weights |
| `PositionIndex.CountedPositionIndex.LowerBound` | core/crdt/src/text.rs:249-276 | finds the only entry whose prefix sums enclose the target, and nothing exactly for 0 or beyond the total |
| `PositionIndex.Descend` | core/crdt/src/text.rs:258-275 | the binary descent ends at that entry |
| `PositionIndex.CountedPositionIndex.SelectOffset` | core/crdt/src/text.rs:205-212 | finds the entry and remainder that an offset falls into, and nothing exactly at or beyond the total |
| `TextProjection.TextProjection.constructor` | core/crdt/src/text.rs:827-835 | an empty projection is valid |
| `TextProjection.TextProjection.VisiblePrefixAt` | core/crdt/src/text.rs:536-545 | the visible characters before a location of the flat sequence |
| `TextProjection.TextProjection.BytePrefixAt` | core/crdt/src/text.rs:548-561 | the bytes of the text before a location |
| `TextProjection.TextProjection.RebuildIndexes` | core/crdt/src/text.rs:623-640 | both indexes represent the chunk weights |
| `TextProjection.TextProjection.SplitIfFull` | core/crdt/src/text.rs:761-763 | a chunk of more than 128 items, and no other, is cut in the middle, without changing the flat sequence |
| `TextChunks.StaysSmall` | core/crdt/src/text.rs:761-763 | one more item and the split that may follow leave every chunk at no more than 128 items |
| `TextProjection.TextProjection.Integrate` | core/crdt/src/text.rs:665-764 | chunks, indexes, counters and text follow one flat insertion at the scanned place; a pending delete makes it a tombstone and is consumed |
| `TextProjection.TextProjection.IntegrateBirth` | core/crdt/src/text.rs:665-764 | a birth whose anchor is shown joins the shown forest |
| `TextProjection.TextProjection.DrainOrphansOf` | core/crdt/src/text.rs:767-782 | everything that waited for an arrival, directly or not, is integrated; nothing integrable keeps waiting |
| `TextProjection.TextProjection.Buffer` | core/crdt/src/text.rs:900-908 | a birth without its anchor is recorded and waits |
| `TextProjection.TextProjection.ApplyInsert` | core/crdt/src/text.rs:893-911 | the first insert of an id is recorded and everything integrable is shown; a repeated insert changes nothing |
| `TextProjection.TextProjection.DeleteKnown` | core/crdt/src/text.rs:784-820 | one flag of the flat sequence is set, with caches, indexes and text following |
| `TextProjection.TextProjection.ApplyDelete` | core/crdt/src/text.rs:913-925 | the delete is recorded and the shown items are right for it, whether the insert has come or not |
| `TextProjection.TextProjection.ApplyUpdates` | core/crdt/src/text.rs:880-891 | after any history the projection is valid for exactly its births and deletes |
| `TextProjection.TextProjection.LocOfVisibleOffset` | core/crdt/src/text.rs:564-582 | the location of the visible character at an offset, nothing exactly beyond the length |
| `TextProjection.TextProjection.IdAtVisibleOffset` | core/crdt/src/text.rs:588-591 | the id at an offset of the visible sequence |
| `TextProjection.TextProjection.VisibleOffsetOfId` | core/crdt/src/text.rs:599-605 | the offset of an id in the visible sequence, nothing if it is not visible |
| `TextProjection.TextProjection.ByteOffsetOfVisible` | core/crdt/src/text.rs:609-614 | the byte length of the first visible characters, across chunk edges and multi-byte characters |
| `TextProjection.TextProjection.ResolveStringRange` | core/crdt/src/text.rs:1017-1025 | the UTF-8 of the clamped window of visible characters |
| `TextProjection.TextProjection.OffsetForAnchor` | core/crdt/src/text.rs:978-1046 | equals the offset of the anchor computed from the visible sequence |
| `TextProjection.TextProjection.AnchorForOffset` | core/crdt/src/text.rs:1031-1042 | equals the anchor computed from the visible sequence |
| `TextProjection.TextProjection.CanonicalizeOffsetFast` | core/crdt/src/graph.rs:1051-1086 | the fast offset anchor equals the one computed from the visible sequence |
| `TextProjection.TextProjection.ResolveSeq` | core/crdt/src/text.rs:999-1061 | the materialised sequence is the visible items of the flat sequence |
| `TextProjection.AnchorIndex` | core/crdt/src/text.rs:978-993 | an anchor stands right after its character, and at the end if that is deleted or was never there |
| `TextAnchors.AnchorRoundTrip` | core/crdt/src/text.rs:978-1046 | offset to anchor to offset gives the offset clamped to the length |
| `TextReplay.ProjectionOutcome` | core/crdt/src/text.rs:665-925 | a valid projection shows the outcome of the updates it was told |
| `TextReplay.OutcomeExists` | core/crdt/src/text.rs:665-782 | every history has an outcome, however long it is |
| `TextReplay.Convergence` | core/crdt/src/text.rs:665-925 | two deliveries of the same updates, in any order and with any repetition, resolve to the same items, without any assumption on anchors |
| `TextReplay.OutcomeIsDocumentIff` | core/crdt/src/text.rs:9-25 | the outcome of a history is the documented traversal if and only if its arrived births are orderly |
| `TextReplay.OutcomeIsDocument` | core/crdt/src/text.rs:9-25 | it is when every id is greater than its anchor |
| `TextNodes.SortNodes` | core/crdt/src/text.rs:1180-1181 | the same nodes, ascending by lamport, author and id |
| `TextNodes.ApplyNode` | core/crdt/src/text.rs:837-877 | the projection has then been told the operations of the node for the key, in order |
| `TextNodes.ResolveTextSeq` | core/crdt/src/text.rs:1179-1188 | the replay shows the visible items and the text of the outcome of the nodes sorted by key; its births and deletes are exactly the anchors, characters and targets that the operations carry |
| `TextNodes.ScriptCarries` | core/crdt/src/text.rs:837-877 | in any order of the nodes, a character is born exactly if an insert under its lamport and author says so, with the anchor and character of such an insert, and deleted exactly if a delete names it |
| `TextNodes.ReplayIsOutcome` | core/crdt/src/text.rs:1179-1188 | it shows what any projection told the same updates shows, in whatever order and with whatever repetition |
| `TextReplay.SubtreeSplit` | core/crdt/src/text.rs:9-25 | a concrete history with an id smaller than its anchor whose outcome is not the documented traversal |
| `FracIndex.Val` | core/crdt/src/list.rs:93-100 | every digit has a value below 62 |
| `FracIndex.Ch` | core/crdt/src/list.rs:103-106 | the digit of a value has that value |
| `FracIndex.BetweenUnboundedAbove` | core/crdt/src/list.rs:159-174 | the loop computes the specified position above a bound |
| `FracIndex.BetweenBounded` | core/crdt/src/list.rs:178-247 | the loop with its recursive tail computes the specified position, or hits the panic of the specification |
| `FracIndex.Between` | core/crdt/src/list.rs:142-156 | computes the specified position between two optional bounds, or panics as specified |
| `FracIndex.BetweenIs` | core/crdt/src/list.rs:151-247 | the position follows the lower bound up to the first place with a digit strictly between the bounds and takes the middle one there |
| `FracIndex.MidpointUnique` | core/crdt/src/list.rs:151-247 | only one position does that |
| `FracIndex.BeforeIs` | core/crdt/src/list.rs:54-57 | a proper prefix comes first, otherwise the first difference decides |
| `FracIndex.BetweenWorks` | core/crdt/src/list.rs:123-156 | panics exactly on unordered bounds or zero padding; otherwise strictly between, not ending in 0, at most one digit longer |
| `FracIndex.InsertStaysSpread` | core/crdt/src/list.rs:142-252 | inserting anywhere between increasing positions that do not end in 0 never panics and keeps them so |
| `FracIndex.FirstIsMidpoint` | core/crdt/src/list.rs:110-113 | the first position is the middle digit |
| `ListView.ItemExplained` | core/crdt/src/list.rs:302-352 | an item's state is explained without order: inserted or deleted somewhere, placed by the first placement of a node of greatest priority |
| `ListView.ItemOrderIrrelevant` | core/crdt/src/list.rs:295-302 | with distinct priorities an item's state depends on the node set only |
| `ListView.ItemOrderIff` | core/crdt/src/list.rs:295-302 | all orders of a log give an item the same state if and only if the nodes of greatest priority that place it agree where |
| `ListView.UpdateKeepsVisible` | core/crdt/src/graph.rs:1758-1808 | keeping the visible set inline keeps it equal to what the items show |
| `ListView.CacheTracks` | core/crdt/src/graph.rs:1758-1808 | after any admissions the cache holds every item's state and shows exactly those items |
| `ListView.CacheEqualsReplay` | core/crdt/src/graph.rs:2303-2333 | the ordered visible set equals the full replay of the same nodes in any other order |
| `ListView.VisibleMeans` | core/crdt/src/list.rs:337-364 | an item shows exactly if some node inserts it, none deletes it and it has the winning position: deletes absorb, a move alone shows nothing |
| `ListView.ReplayItems` | core/crdt/src/list.rs:302-352 | the replay loop computes every item's state |
| `ListView.SortVisible` | core/crdt/src/list.rs:353-364 | sorting by position and item gives the ascending listing, whatever the iteration order |
| `ListView.ResolveListSeq` | core/crdt/src/list.rs:302-364 | the replayed listing equals that of the cache kept under every admission order |
| `ListView.AscendingUnique` | core/crdt/src/list.rs:353-364 | a set of placed items has one ascending listing |
| `ListView.CacheEqualsReplayIff` | core/crdt/src/graph.rs:1668-1670 | without assuming ranks, cache and replay agree exactly when nodes at the zero priority change no item's visibility |
| `ListView.UnrankedDeleteDiffers` | core/crdt/src/graph.rs:1668-1670 | a concrete delete at the zero priority that hides an item from the replay and not from the cache |
| `ListPlacement.PlacementPanics` | clients/bridge-wasm/src/lib.rs:1447-1461 | choosing a position panics exactly when both neighbours of the index share a position |
| `ListPlacement.ComputePosition` | clients/bridge-wasm/src/lib.rs:1447-1461 | computes the specified position between the neighbours of the clamped index |
| `ListPlacement.InsertLands` | clients/bridge-wasm/src/lib.rs:650-665 | an item that was not deleted shows up at the clamped index, also if it was listed before, and everything else stays; a deleted one stays away |
| `ListPlacement.MoveLands` | clients/bridge-wasm/src/lib.rs:672-688 | a visible item is taken out and put at the clamped index, given a lamport above every stored one |
| `ListPlacement.LaterOutranks` | core/crdt/src/graph.rs:868-882 | a lamport above all stored ones outranks every item's placement |
| `ListEdits.ListInsertAt` | clients/bridge-wasm/src/lib.rs:650-665 | end to end on the graph: the new list is the old one with the item at the clamped index and nowhere else, unchanged if the item was deleted, or the edit panics and changes nothing; the log grows by one node with that author, time, signature and that one insert |
| `ListEdits.ListMoveTo` | clients/bridge-wasm/src/lib.rs:672-688 | end to end on the graph: not in list, panic or the item at the clamped index of the rest, each exactly when it should be; the log grows by one node with that author, time, signature and that one move |
| `MapView.FoldOpsEffect` | core/crdt/src/graph.rs:1674-1746 | of the writes of one node to a key only the first counts, and only against a strictly smaller priority |
| `MapView.FoldNodesWins` | core/crdt/src/graph.rs:1662-1746 | a cached winner is the first write of a node of greatest priority among all that write the key, tombstones included |
| `MapView.ResolveMeans` | core/crdt/src/graph.rs:1948-1954 | a key reads as the first write to it of the first admitted node of greatest priority that writes it: the value set, the 32 bytes of the blob hash and marked as a blob, or nothing if that write removes it or there is none |
| `Nodes.HashBytesSpell` | core/crdt/src/graph.rs:1676-1678 | the 32 bytes shown for a blob spell its hash, most significant first |
| `Nodes.KeyIs` | core/crdt/src/op.rs:203-220 | the key of an operation is the one it names, for every kind of operation |
| `Core.LessIsNumeric` | core/crdt/src/op.rs:18-28 | ids are ordered by lamport, then by author |
| `MapView.OrderIrrelevant` | core/crdt/src/graph.rs:130-135 | with distinct priorities any two admission orders give the same cache |
| `MapView.OrderIrrelevantIff` | core/crdt/src/graph.rs:130-135 | all admission orders of a log give the same cache if and only if, for every key, the nodes of greatest priority that write it leave the same |
| `MapView.ResolveReplay` | core/crdt/src/graph.rs:1991-2030 | the full replay scan resolves to the same map as the cache |
| `MapView.GroupingIff` | core/crdt/src/graph.rs:303-308 | on top of a log they outrank, two nodes resolve to what one node with the operations of both does if and only if, for every key both write, their first writes leave the same |
| `MapView.GroupingDiffers` | core/crdt/src/graph.rs:303-308 | two different values written to one key, in two nodes and in one node, resolve differently |
| `Dag.AdmissibleStep` | core/crdt/src/graph.rs:1588-1605 | appending a fresh node keeps the log content-addressed, duplicate-free and parent-closed at every point |
| `Dag.ChildlessStep` | core/crdt/src/graph.rs:1592-1596 | dropping the parents and adding the node keeps the leaves exactly the childless nodes |
| `Dag.StoreStep` | core/crdt/src/graph.rs:1588-1605 | the store remains the log indexed by id |
| `Dag.LaterChild` | core/crdt/src/graph.rs:1004-1010 | a child is admitted after its parent, so the graph has no cycle |
| `Dag.RootsDetermineGraph` | core/crdt/src/graph.rs:1609-1623 | with collision-free hashing two admissible logs with the same childless nodes hold the same ids and transactions |
| `Dag.SameChildless` | core/crdt/src/graph.rs:1609-1623 | conversely the same transactions leave the same nodes childless |
| `Dag.SortedUnique` | core/crdt/src/graph.rs:1615-1623 | a set of ids has one sorted listing |
| `Admission.FirstMissingIs` | core/crdt/src/graph.rs:1005-1010 | the parent reported is missing, and all before it are stored |
| `Admission.FirstForbiddenIs` | core/crdt/src/graph.rs:1014-1032 | the key reported is that of an operation the policy refuses, and all before it are permitted |
| `Admission.PlaceFaultIs` | core/crdt/src/graph.rs:1004-1038 | a missing parent, else a violation of the policy unless the node is a snapshot, else a duplicate, else acceptance: each error exactly when it should be |
| `Admission.StepKeeps` | core/crdt/src/graph.rs:972-1038 | each remote step, accepted or not, keeps the log admissible and the clock above it, and grows it by the node exactly if no check fails |
| `Admission.RunKeeps` | core/crdt/src/graph.rs:972-1038 | so does any run of remote steps |
| `Admission.RebroadcastRefused` | core/crdt/src/graph.rs:1588-1591 | a stored node is never admitted again, so an own node sent back does not become canonical |
| `Admission.BatchIsRunIff` | core/crdt/src/graph.rs:1479-1538 | a batch admits the same nodes in the same order as one by one if and only if every node admitted one by one is the first with its id and not above the initial lamport ceiling |
| `Admission.BatchRefinesRun` | core/crdt/src/graph.rs:1479-1538 | it does when ids are distinct and no lamport exceeds that ceiling |
| `Admission.BatchCeilingDiffers` | core/crdt/src/graph.rs:1495-1500 | a concrete pair above that ceiling that a batch and single steps treat differently |
| `Admission.BatchRepeatDiffers` | core/crdt/src/graph.rs:1479-1494 | a concrete child sent before and after its parent that single steps admit and a batch drops as a repeat |
| `Admission.BatchAccounts` | core/crdt/src/graph.rs:1479-1538 | every id of a batch not already stored is accepted or rejected, exactly once, and the accepted ones are the growth of the log |
| `Views.UpdatesAre` | core/crdt/src/text.rs:837-877 | a node tells the text of a key exactly its inserts on it, under the lamport and author of the node with their anchors and characters, and its deletes |
| `Views.SpokenAre` | core/crdt/src/graph.rs:1089-1105 | and a log exactly what its nodes say |
| `Views.SameMap` | core/crdt/src/graph.rs:130-135 | logs with the same transactions give the same map cache, whatever the order and the signatures |
| `Views.SameLists` | core/crdt/src/graph.rs:130-135 | and the same visible lists |
| `Views.SameTexts` | core/crdt/src/graph.rs:1089-1257 | and the same texts, for keys told consistently |
| `StateGraph.Advance` | core/crdt/src/frontier.rs:52-63 | the heads lose the parents, gain the node and stay sorted without duplicates |
| `StateGraph.RemoveParents` | core/crdt/src/graph.rs:1592-1595 | the leaves without the parents |
| `StateGraph.SortIds` | core/crdt/src/frontier.rs:61-62 | the same ids in ascending order |
| `StateGraph.UpdateStateCaches` | core/crdt/src/graph.rs:1662-1733 | the caches after the loop are the node folded into each; the canonical one only for foreign nodes |
| `StateGraph.TellNode` | core/crdt/src/graph.rs:1089-1105 | each touched projection is told the node's updates for its key and no other |
| `StateGraph.TellBatch` | core/crdt/src/graph.rs:1162-1218 | each projection is told exactly the updates of the batch for its key |
| `StateGraph.CheckPlace` | core/crdt/src/graph.rs:1004-1035 | parents and policy are checked in the order of the specification |
| `StateGraph.ScreenBatch` | core/crdt/src/graph.rs:1482-1511 | deduplication and the cheap checks keep and reject what the specification says, against the initial state |
| `StateGraph.VerifyBatch` | core/crdt/src/graph.rs:1543-1586 | one verdict per node, true for verified ids and authentic nodes |
| `StateGraph.StateGraph.constructor` | core/crdt/src/graph.rs:458-496 | an empty graph satisfies every invariant |
| `StateGraph.StateGraph.InsertNode` | core/crdt/src/graph.rs:1588-1605 | store, leaves, heads and clock follow one append; a duplicate changes nothing |
| `StateGraph.StateGraph.ApplyLocal` | core/crdt/src/graph.rs:858-901 | the clock grows by one, the new node outranks all stored ones and becomes the only leaf, and with collision-free hashing it always succeeds; text it inserts after stored characters has a greater id than they; the node carries the operations, parents, time and signature given; every invariant is kept |
| `Admission.PeerAccepts` | core/crdt/src/graph.rs:972-1038 | a peer that has the parents of an authentic node it does not hold, permits its keys and is not too far behind admits it |
| `StateGraph.StateGraph.ApplyRemoteVerified` | core/crdt/src/graph.rs:1004-1038 | refuses with the first failing check and changes nothing, or appends the node and folds it into the views |
| `StateGraph.StateGraph.ApplyRemoteChecked` | core/crdt/src/graph.rs:972-1000 | the verdict is the first failing check in the documented order and the ledger moves by exactly one step; every invariant is kept |
| `Admission.CheapFaultIs` | core/crdt/src/graph.rs:973-984 | a wrong hash, else a lamport more than 2^20 above the clock, else a wall time more than a day ahead where both sides have one: each exactly then |
| `Admission.SnapshotIs` | core/crdt/src/compaction.rs:388-392 | the nodes exempt from the policy are those with an operation that sets the snapshot marker key |
| `Admission.JudgeIs` | core/crdt/src/graph.rs:972-1038 | a node is refused for a reason exactly if that check fails and all before it pass, stated in the fields of the node, and admitted exactly if none fails |
| `StateGraph.StateGraph.SettleBatch` | core/crdt/src/graph.rs:1516-1534 | the survivors are applied in order with signatures judged at the start |
| `StateGraph.StateGraph.ApplyRemoteBatchChecked` | core/crdt/src/graph.rs:1479-1538 | the ledger after a batch is the specified one, the log grows by the accepted nodes, every new id is accounted for once; each refusal names the first node with its id and the first check it fails, by the clock and the signatures at the start and the log when it was tried; the cheap refusals come first, each kind in the order of the batch; every invariant is kept |
| `StateGraph.StateGraph.SiftBatch` | core/crdt/src/graph.rs:1482-1515 | the survivors of the cheap checks, one verdict on the signature of each, and the refusals so far |
| `Admission.BatchRefusesRightly` | core/crdt/src/graph.rs:1516-1534 | the refusals of a batch have the right reasons, in the right order |
| `Admission.NeverDuplicate` | core/crdt/src/graph.rs:1482-1494 | a batch never reports a duplicate |
| `StateGraph.StateGraph.MerkleRoot` | core/crdt/src/graph.rs:1615-1623 | the root is the digest of the frontier's heads |
| `StateGraph.EqualRoots` | core/crdt/src/graph.rs:1609-1623 | two reachable graphs have equal roots exactly when they hold the same transactions, and then the same ids |
| `StateGraph.EqualRootsEqualViews` | core/crdt/src/graph.rs:1609-1623 | then they resolve to the same map and the same lists |
| `StateGraph.EqualRootsEqualText` | core/crdt/src/graph.rs:1609-1623 | and to the same text |
| `StateGraph.CachesAreReplays` | core/crdt/src/graph.rs:1948-2030 | the map caches equal the full replay, in any order, of all stored nodes and of the stored nodes that are not local |
| `StateGraph.ListsAreReplays` | core/crdt/src/graph.rs:2303-2333 | every list equals the full replay of the store in any order |
| `StateGraph.TextsAreReplays` | core/crdt/src/text.rs:1179-1188 | every text projection shows what the sorted full replay of the store shows, for keys whose characters are told consistently |
| `Views.YoungerShowsDocument` | core/crdt/src/text.rs:9-25 | a graph whose nodes all anchor at smaller ids shows the documented traversal for every key |
| `StateGraph.SameLogSameState` | core/crdt/src/graph.rs:1149-1257 | store, leaves, heads, caches and told updates are a function of the admitted log, so batch and single steps leave the same state |
| `Policy.GlobMatches` | core/crdt/src/policy.rs:97-151 | the backtracking matcher terminates and accepts exactly the texts of the pattern's language |
| `Policy.MatchFromAnywhere` | core/crdt/src/policy.rs:108-124 | the loop of the double star accepts exactly what some suffix match does |
| `Policy.MatchWithinSegment` | core/crdt/src/policy.rs:127-138 | the loop of the single star stops at a separator and misses nothing |
| `Policy.Decides` | core/crdt/src/policy.rs:16-22 | matching token by token is the same as cutting the text into one piece per token |
| `Policy.PlainPatterns` | core/crdt/src/policy.rs:101-150 | the empty pattern is the empty text, and a byte other than a star stands for itself |
| `Policy.StarPatterns` | core/crdt/src/policy.rs:106-138 | a star is any run without a separator, a double star any run; a separator right after a double star belongs to it |
| `Policy.KeyBytesConcat` | core/crdt/src/policy.rs:97-99 | a key is matched as the UTF-8 of its characters in order |
| `Policy.OpenAllows` | core/crdt/src/policy.rs:66-72 | the default policy lets anyone write anything |
| `Policy.CanWrite` | core/crdt/src/policy.rs:80-87 | the first rule that matches decides, the default only if none does |
| `Packs.PolicyForLamport` | core/crdt/src/replay.rs:151-166 | the policy with the latest cutover not after the lamport, the open one before all |
| `Packs.SortTimeline` | core/crdt/src/replay.rs:93-94 | the entries by ascending cutover, those of one cutover in the given order |
| `Packs.TimelineOrderIrrelevant` | core/crdt/src/replay.rs:93-94 | with distinct cutovers the order of a timeline does not matter |
| `Packs.RetryPass` | clients/bridge-wasm/src/lib.rs:1089-1103 | one pass of the loop is one pass of the specification |
| `Packs.RetryAll` | clients/bridge-wasm/src/lib.rs:1085-1107 | the loop terminates in the specified ledger and waiting list |
| `Packs.RetryHolds` | clients/bridge-wasm/src/lib.rs:1085-1107 | at the end every node is stored or waiting, and every waiting one misses a parent for good |
| `Packs.RetryAdmitsLargest` | clients/bridge-wasm/src/lib.rs:1085-1107 | without an error the loop has admitted every node that any admissible order of the pack could |
| `Packs.RetryAccepts` | clients/bridge-wasm/src/lib.rs:1093-1100 | nodes that pass every check but the parents cause no error |
| `Packs.ImportOrderIrrelevant` | clients/bridge-wasm/src/lib.rs:1085-1107 | packs with the same nodes end in the same stored ids, whatever the order and repetition |
| `Packs.ImportPack` | clients/bridge-wasm/src/lib.rs:1069-1109 | the import admits only nodes of the pack, the largest admissible part of it, and keeps every invariant of the graph; an error is the one some node of the pack gets in the graph as it is left |
| `Packs.RetryStops` | clients/bridge-wasm/src/lib.rs:1093-1100 | an error that stops the loop is a final verdict on one of the nodes |
| `Replay.SucceedsIff` | core/crdt/src/replay.rs:87-121 | replay succeeds exactly when every node passes its own checks and the set is parent-closed |
| `Replay.SuccessOrderIrrelevant` | core/crdt/src/replay.rs:87-121 | success depends on the set of nodes and the set of timeline entries only |
| `Replay.ReplayTransactions` | core/crdt/src/replay.rs:123-129 | a successful replay holds exactly the transactions it was given |
| `Replay.ReplayDeterministic` | core/crdt/src/replay.rs:123-133 | successful replays of the same nodes resolve to the same map |
| `Replay.ReplayWithPolicyTimeline` | core/crdt/src/replay.rs:87-133 | the resolved map exactly on success, without the sentinel key and otherwise unchanged; else the first error, or the first parent of the first node left over |
| `Canonical.EntryLayout` | core/crdt/src/replay.rs:181-192 | an entry is the length of the key in four little-endian bytes, the key in UTF-8, the length of the value and the value |
| `Canonical.EncodedConcat` | core/crdt/src/replay.rs:183-191 | the entries follow one another in order |
| `Canonical.Utf8Value` | core/crdt/src/replay.rs:187-187 | the bytes of a character are its UTF-8 form, the shortest one |
| `Canonical.CanonicalBytes` | core/crdt/src/replay.rs:181-192 | the bytes are the length-prefixed entries in key order |
| `Canonical.CanonicalIff` | core/crdt/src/replay.rs:168-192 | two maps have the same encoding exactly when they are equal, for lengths below 2^32 |
| `Canonical.KeyBytesInjective` | core/crdt/src/replay.rs:168-192 | different keys have different UTF-8 bytes |
| `Export.CountDegrees` | clients/bridge-wasm/src/lib.rs:1308-1329 | indegrees count the exported parents, and each node is listed as a child as often as it names the parent |
| `Export.Release` | clients/bridge-wasm/src/lib.rs:1338-1347 | every child loses one per listing and becomes ready exactly when none is left |
| `Export.KahnOrder` | clients/bridge-wasm/src/lib.rs:1306-1358 | every node exactly once, exported parents first; nothing is left over, so the defensive branch never runs |
| `Export.ScheduleFeeds` | clients/bridge-wasm/src/lib.rs:1284-1288 | in a parents-first order of the missing nodes each node finds its parents among the known ids and those before it |
| `Export.ScheduleAdmissible` | clients/bridge-wasm/src/lib.rs:1284-1288 | a store that holds the known ids, and maybe more, can append in that order exactly the nodes it lacks |
| `Export.ScheduleAccepted` | clients/bridge-wasm/src/lib.rs:1275-1291 | a receiver that holds the known ids, and maybe more, takes the schedule in one pass: it stores what it lacks, in order, without an error or a wait |
| `Export.ChunksAccepted` | clients/bridge-wasm/src/lib.rs:1284-1288 | however the schedule is cut, each chunk is taken as it arrives, and in the end the receiver has stored exactly what it lacked of all, in order |
| `Export.VarintFits` | clients/bridge-wasm/src/lib.rs:1357-1360 | the count of a pack takes as many seven-bit digits as it needs and no more |
| `Export.PackChunks` | clients/bridge-wasm/src/lib.rs:1360-1379 | the packs in order are the schedule, each is full for its successor, and each of more than one node fits the requested base64 length or 1024 |
| `Export.ExportChunked` | clients/bridge-wasm/src/lib.rs:1292-1382 | whatever is missing, once, in packs that fit, in an order every receiver that holds the known ids can append: all of it, or what it lacks |
| `Base64.SymbolsAre` | clients/bridge-wasm/src/lib.rs:1463-1522 | the symbols are the 64 of the standard alphabet in order, each read back as its position, and every other byte is refused |
| `Base64.SextetsSpell` | clients/bridge-wasm/src/lib.rs:1509-1522 | the four digits of a group spell the number its bytes spell |
| `Base64.EncodedAt` | clients/bridge-wasm/src/lib.rs:1509-1522 | group q of the text is that of the three bytes from 3q on |
| `Base64.GroupReads` | clients/bridge-wasm/src/lib.rs:1463-1499 | a group is read exactly if its bytes up to the padding are symbols, the first two always |
| `Base64.GroupSpells` | clients/bridge-wasm/src/lib.rs:1463-1499 | the bytes of a group spell the number its symbols spell, without the bits that fill no byte |
| `Base64.UnpaddedDecodes` | clients/bridge-wasm/src/lib.rs:1463-1499 | missing padding reads as padding |
| `Base64.LoneSymbol` | clients/bridge-wasm/src/lib.rs:1463-1499 | a single symbol after whole groups is an error |
| `Base64.Encode` | clients/bridge-wasm/src/lib.rs:1509-1522 | the text has four characters for every three bytes begun |
| `Base64.Decode` | clients/bridge-wasm/src/lib.rs:1463-1499 | computes the specified decoding, with every error |
| `Base64.RoundTrip` | clients/bridge-wasm/src/lib.rs:1463-1522 | decoding gives back what was encoded |
| `Ibf.Touch` | core/crdt/src/ibf.rs:87-94 | every cell changes by what the id contributes to it, also when its indices coincide |
| `Ibf.Filter.Insert` | core/crdt/src/ibf.rs:87-94 | each cell gains the contribution of the id |
| `Ibf.Filter.FromIds` | core/crdt/src/ibf.rs:80-84 | each cell is the sum of the contributions of all ids |
| `Ibf.Filter.Subtract` | core/crdt/src/ibf.rs:101-107 | each cell is the difference of the two |
| `Ibf.FindPure` | core/crdt/src/ibf.rs:132-142 | the first cell with count one or minus one whose checksum is that of its id, and nothing exactly if there is none |
| `Ibf.Peel` | core/crdt/src/ibf.rs:143-157 | peeling one cell conserves counts and sums: what is left plus what was taken is the original |
| `Ibf.NothingHides` | core/crdt/src/ibf.rs:160-165 | if no pure-looking cell is false and every differing id hits some cell once, nothing is left over where all cells are zero |
| `Ibf.StackedHides` | core/crdt/src/ibf.rs:160-165 | the second condition is needed: four ids, each three times in one cell, that cancel to zero without any pure cell |
| `Ibf.CommonCancels` | core/crdt/src/ibf.rs:96-107 | the difference of two filters is that of the one-sided differences of their sets |
| `Ibf.Decode` | core/crdt/src/ibf.rs:115-166 | a result accounts for the filter exactly; if no pure-looking cell is false and every differing id hits some cell once, it is exactly the two differences without repeats; a small difference every part of which has a pure cell is then always decoded |
| `Ibf.Reconcile` | core/crdt/src/ibf.rs:96-166 | under the same two conditions building, subtracting and decoding two sets yields their one-sided differences |
| `Mst.NibblesSpell` | core/crdt/src/mst.rs:294-298 | a byte is its two nibbles, the high one first |
| `Mst.PrecedesIs` | core/crdt/src/mst.rs:132-133 | ids are compared at the first byte in which they differ |
| `Mst.NibblesDecide` | core/crdt/src/mst.rs:289-298 | sixty-four nibbles determine an id |
| `Mst.TreeHashDecides` | core/crdt/src/mst.rs:235-287 | equal subtree hashes mean equal id sets |
| `Mst.SameSetSameHash` | core/crdt/src/mst.rs:126-136 | equal id sets mean equal hashes, whatever the order |
| `Mst.RootDecides` | core/crdt/src/mst.rs:126-145 | two roots are equal exactly when the id sets are |
| `Mst.BuiltUnder` | core/crdt/src/mst.rs:235-266 | everything stored for a subtree lies under its path and holds only its ids, each on its own path |
| `Mst.StoredOnce` | core/crdt/src/mst.rs:235-266 | each id is stored at exactly one node, whose path is a prefix of its nibbles |
| `Mst.AllKeys` | core/crdt/src/mst.rs:232-234 | the keys of all nodes are the ids the trie was built from |
| `Mst.GroupByNibble` | core/crdt/src/mst.rs:246-251 | each group holds the ids with that nibble, in order |
| `Mst.Trie.BuildRecursive` | core/crdt/src/mst.rs:235-266 | the nodes stored are the specified subtree and the hash returned is its hash |
| `Mst.SortIds` | core/crdt/src/mst.rs:132-133 | the same ids in byte order |
| `Mst.Trie.FromIds` | core/crdt/src/mst.rs:129-136 | the nodes are those of the trie of the reordered ids, none for none |
| `Mst.TriesCompare` | core/crdt/src/mst.rs:126-145 | two tries built from duplicate-free ids have equal roots exactly when the sets are equal |

## Left out

- Text range operations: their meaning depends on the visible state when they are applied, so they do not converge as a type; only single-character inserts and deletes are modelled.
- Actor interning, the free list of chunk slots, dirty ranges, counters and timings of the text engine: ids are used directly; the rest is bookkeeping that no result depends on.
- Eviction, temperature tiers, parity checks and self-healing of text projections: a projection is modelled as resident for good.
- `StateGraph` keeps for each text key the updates its projection was told, in order, and not the projection object; `TextProjection` proves what such a history shows.
- TextProjection.TextProjection.RebuildIndexes: requires a document of at most 2^30 items, because beyond 2^32 bytes the 32-bit cells of the index saturate and its sums are no longer sums.
- TextProjection.TextProjection.SplitIfFull: requires the same, for the same reason.
- TextProjection.TextProjection.Integrate: requires the same, for the same reason.
- TextProjection.TextProjection.IntegrateBirth: requires the same, for the same reason.
- TextProjection.TextProjection.DrainOrphansOf: requires the same, for the same reason.
- TextProjection.TextProjection.ApplyInsert: requires the same, for the same reason.
- TextProjection.TextProjection.DeleteKnown: requires the same, for the same reason.
- TextProjection.TextProjection.ApplyDelete: requires the same, for the same reason.
- TextProjection.TextProjection.ApplyUpdates: requires the same, for the same reason.
- TextNodes.ResolveTextSeq: requires at most 2^30 updates for the key, for the same reason.
- TextNodes.ApplyNode: requires the same; range operations of the node are left out.
- PositionIndex: the lowest set bit is stated arithmetically, not with machine words.
- Overflow of 64-bit lamports and wall clocks, and of the 32-bit cell counts of the filter: numbers are unbounded.
- StateGraph.StateGraph.ApplyLocal: takes the order of the leaf set and the signature as arguments, because hash iteration and signing are outside the model; the clock bump of range inserts is left out with them.
- StateGraph.VerifyBatch: judges signatures one by one; that a batch verification agrees with that is a property of the signature library.
- ListPlacement.ComputePosition: requires base-62 positions of the two neighbours of the index, because on other characters the source may panic inside the digit table.
- ListEdits.ListInsertAt: requires the same.
- ListEdits.ListMoveTo: requires the same.
- StateGraph.UpdateStateCaches: keeps the map and list caches; the set of referenced blobs and the conflict events of the same loop are left out.
- Packs.ImportPack: the base64 and binary unpacking and the decryption of encrypted nodes before the loop are not part of this model.
- Replay.ReplayWithPolicyTimeline: the fingerprint is the canonical encoding; Blake3 on top of it is not modelled, nor is the hash of a policy timeline.
- Export.PackChunks: a node's binary size is a parameter; a pack is a variable-length count followed by the nodes.
- The MST wire descent, its cost estimates, and the wire encodings of the filter and the trie.
- Conflict surfacing, blob reference sets, compaction and snapshots, capabilities, room lineage, archive and garbage-collection contracts.
- Storage back ends, the JavaScript and Python clients and servers, WebSocket and WebRTC transport, user interfaces.
