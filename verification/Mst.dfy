/** The Merkle search trie over node ids: one nibble per level, a leaf wherever
    a single id is left (core/crdt/src/mst.rs). */
module Mst {
  import opened Core
  import opened TextBytes

  /** A 32-byte id. */
  type Id = s: seq<Byte> | |s| == 32 witness seq(32, _ => 0)
  /** A 32-byte hash, read as a number; zero stands for an empty subtree. */
  type H = nat
  type Path = seq<nat>

  const DEPTH: nat := 64
  const FANOUT: nat := 16

  function NibbleAt(id: Id, depth: nat): (n: nat)
    requires depth < DEPTH
    ensures n < FANOUT
  {
    if depth % 2 == 0 then id[depth / 2] / 16 else id[depth / 2] % 16
  }

  /** A byte is its two nibbles, the high one first. */
  lemma NibblesSpell(id: Id, i: nat)
    requires i < 32
    ensures id[i] == 16 * NibbleAt(id, 2 * i) + NibbleAt(id, 2 * i + 1)
  {
  }

  /** The trie's keyed hashes of a leaf and of sixteen child hashes. */
  datatype Hashing = Hashing(leaf: seq<Id> -> H, inner: seq<H> -> H) {
    /** Collision-free, domain-separated, and never all zeros. */
    ghost predicate Ideal() {
      && (forall a, b :: leaf(a) == leaf(b) ==> a == b)
      && (forall a, b :: inner(a) == inner(b) ==> a == b)
      && (forall a, b :: leaf(a) != inner(b))
      && (forall a :: leaf(a) != 0) && (forall a :: inner(a) != 0)
    }
  }

  /** A stored trie node: `children` holds zero for an empty subtree. */
  datatype MstNode = MstNode(hash: H, children: seq<H>, keys: seq<Id>)

  // ----- Groups -----

  /** The ids among the first `k` with nibble `n` at a depth, in order. */
  function GroupTo(ids: seq<Id>, depth: nat, n: nat, k: nat): seq<Id>
    requires depth < DEPTH && k <= |ids|
  {
    if k == 0 then [] else GroupTo(ids, depth, n, k - 1) + if NibbleAt(ids[k - 1], depth) == n then [ids[k - 1]] else []
  }

  function Group(ids: seq<Id>, depth: nat, n: nat): seq<Id>
    requires depth < DEPTH
  {
    GroupTo(ids, depth, n, |ids|)
  }

  lemma {:induction false} GroupIs(ids: seq<Id>, depth: nat, n: nat, k: nat)
    requires depth < DEPTH && k <= |ids|
    ensures forall x ::
      x in GroupTo(ids, depth, n, k) <==> exists i :: 0 <= i < k && ids[i] == x && NibbleAt(x, depth) == n
  {
    if k > 0 { GroupIs(ids, depth, n, k - 1); }
  }

  lemma {:induction false} GroupDistinct(ids: seq<Id>, depth: nat, n: nat, k: nat)
    requires depth < DEPTH && k <= |ids| && NoDuplicates(ids)
    ensures NoDuplicates(GroupTo(ids, depth, n, k))
  {
    if k > 0 {
      GroupDistinct(ids, depth, n, k - 1);
      GroupIs(ids, depth, n, k - 1);
      var g, x := GroupTo(ids, depth, n, k - 1), ids[k - 1];
      assert g + [] == g;
      forall i | 0 <= i < k - 1 ensures ids[i] != x { assert Differ(ids, i, k - 1); }
      PushNew(g, x);
    }
  }

  // ----- The hash of a subtree -----

  /** The children's hashes of an inner node. */
  function ChildHash(h: Hashing, depth: nat, ids: seq<Id>, n: nat): H
    requires depth < DEPTH && n < FANOUT
    decreases DEPTH - depth, 0
  {
    var g := Group(ids, depth, n);
    if g == [] then 0 else TreeHash(h, depth + 1, g)
  }

  function TreeHash(h: Hashing, depth: nat, ids: seq<Id>): H
    requires depth <= DEPTH
    decreases DEPTH - depth, 1
  {
    if |ids| == 1 || depth == DEPTH then h.leaf(ids)
    else h.inner(seq(FANOUT, n requires 0 <= n < FANOUT => ChildHash(h, depth, ids, n)))
  }

  function RootHash(h: Hashing, ids: seq<Id>): H {
    if ids == [] then 0 else TreeHash(h, 0, ids)
  }

  lemma TreeHashNotZero(h: Hashing, depth: nat, ids: seq<Id>)
    requires h.Ideal() && depth <= DEPTH
    ensures TreeHash(h, depth, ids) != 0
  {
  }

  /** Equal subtree hashes mean the same ids. */
  lemma {:induction false} TreeHashDecides(h: Hashing, depth: nat, a: seq<Id>, b: seq<Id>)
    requires h.Ideal() && depth <= DEPTH && a != [] && b != []
    requires TreeHash(h, depth, a) == TreeHash(h, depth, b)
    ensures Elements(a) == Elements(b)
    decreases DEPTH - depth
  {
    if depth < DEPTH && |a| != 1 && |b| != 1 {
      SameChildren(h, depth, a, b);
      forall n | 0 <= n < FANOUT ensures Elements(Group(a, depth, n)) == Elements(Group(b, depth, n)) {
        var g, k := Group(a, depth, n), Group(b, depth, n);
        assert ChildHash(h, depth, a, n) == ChildHash(h, depth, b, n);
        if g != [] { TreeHashNotZero(h, depth + 1, g); }
        if k != [] { TreeHashNotZero(h, depth + 1, k); }
        if g != [] && k != [] { TreeHashDecides(h, depth + 1, g, k); }
      }
      GroupsCover(a, b, depth);
      GroupsCover(b, a, depth);
    }
  }

  lemma SameChildren(h: Hashing, depth: nat, a: seq<Id>, b: seq<Id>)
    requires h.Ideal() && depth < DEPTH && |a| != 1 && |b| != 1 && TreeHash(h, depth, a) == TreeHash(h, depth, b)
    ensures forall n :: 0 <= n < FANOUT ==> ChildHash(h, depth, a, n) == ChildHash(h, depth, b, n)
  {
    var s := seq(FANOUT, n requires 0 <= n < FANOUT => ChildHash(h, depth, a, n));
    var t := seq(FANOUT, n requires 0 <= n < FANOUT => ChildHash(h, depth, b, n));
    assert h.inner(s) == h.inner(t);
    assert s == t;
    forall n | 0 <= n < FANOUT ensures ChildHash(h, depth, a, n) == ChildHash(h, depth, b, n) { assert s[n] == t[n]; }
  }

  lemma GroupsCover(a: seq<Id>, b: seq<Id>, depth: nat)
    requires depth < DEPTH
    requires forall n :: 0 <= n < FANOUT ==> Elements(Group(a, depth, n)) <= Elements(Group(b, depth, n))
    ensures Elements(a) <= Elements(b)
  {
    forall i | 0 <= i < |a| ensures a[i] in b {
      var n := NibbleAt(a[i], depth);
      GroupIs(a, depth, n, |a|);
      GroupIs(b, depth, n, |b|);
      assert a[i] in Elements(Group(a, depth, n));
    }
  }

  // ----- The order of the ids does not matter -----

  /** All ids share their first nibbles. */
  ghost predicate Agree(ids: seq<Id>, depth: nat) {
    forall i, j, d :: 0 <= i < |ids| && 0 <= j < |ids| && 0 <= d < depth && d < DEPTH ==>
      NibbleAt(ids[i], d) == NibbleAt(ids[j], d)
  }

  /** Sixty-four nibbles are the whole id. */
  lemma NibblesDecide(x: Id, y: Id)
    requires forall d :: 0 <= d < DEPTH ==> NibbleAt(x, d) == NibbleAt(y, d)
    ensures x == y
  {
    forall i | 0 <= i < 32 ensures x[i] == y[i] {
      assert NibbleAt(x, 2 * i) == x[i] / 16 && NibbleAt(y, 2 * i) == y[i] / 16;
      assert NibbleAt(x, 2 * i + 1) == x[i] % 16 && NibbleAt(y, 2 * i + 1) == y[i] % 16;
    }
  }

  lemma DeepIsSingle(ids: seq<Id>)
    requires Agree(ids, DEPTH) && NoDuplicates(ids)
    ensures |ids| <= 1
  {
    if |ids| > 1 {
      assert Differ(ids, 0, 1);
      NibblesDecide(ids[0], ids[1]);
    }
  }

  lemma GroupAgrees(ids: seq<Id>, depth: nat, n: nat)
    requires depth < DEPTH && Agree(ids, depth)
    ensures Agree(Group(ids, depth, n), depth + 1)
  {
    var g := Group(ids, depth, n);
    GroupIs(ids, depth, n, |ids|);
    forall i, j, d | 0 <= i < |g| && 0 <= j < |g| && 0 <= d < depth + 1 ensures NibbleAt(g[i], d) == NibbleAt(g[j], d) {
      assert g[i] in g && g[j] in g;
      var a :| 0 <= a < |ids| && ids[a] == g[i] && NibbleAt(g[i], depth) == n;
      var b :| 0 <= b < |ids| && ids[b] == g[j] && NibbleAt(g[j], depth) == n;
    }
  }

  lemma SameGroups(a: seq<Id>, b: seq<Id>, depth: nat, n: nat)
    requires depth < DEPTH && Elements(a) == Elements(b)
    ensures Elements(Group(a, depth, n)) <= Elements(Group(b, depth, n))
  {
    GroupIs(a, depth, n, |a|);
    GroupIs(b, depth, n, |b|);
    forall x | x in Group(a, depth, n) ensures x in Group(b, depth, n) {
      assert x in Elements(b);
    }
  }

  lemma {:induction false} SameSetSameHash(h: Hashing, depth: nat, a: seq<Id>, b: seq<Id>)
    requires depth <= DEPTH && NoDuplicates(a) && NoDuplicates(b) && Elements(a) == Elements(b) && a != []
    requires Agree(a, depth) && Agree(b, depth)
    ensures TreeHash(h, depth, a) == TreeHash(h, depth, b)
    decreases DEPTH - depth
  {
    NoDuplicatesSize(a);
    NoDuplicatesSize(b);
    if depth == DEPTH { DeepIsSingle(a); }
    if |a| == 1 {
      assert a[0] in Elements(b) && a == b;
    } else {
      forall n | 0 <= n < FANOUT ensures ChildHash(h, depth, a, n) == ChildHash(h, depth, b, n) {
        var g, k := Group(a, depth, n), Group(b, depth, n);
        SameGroups(a, b, depth, n);
        SameGroups(b, a, depth, n);
        EmptyElements(g);
        EmptyElements(k);
        if g != [] {
          GroupDistinct(a, depth, n, |a|);
          GroupDistinct(b, depth, n, |b|);
          GroupAgrees(a, depth, n);
          GroupAgrees(b, depth, n);
          SameSetSameHash(h, depth + 1, g, k);
        }
      }
      assert seq(FANOUT, n requires 0 <= n < FANOUT => ChildHash(h, depth, a, n))
          == seq(FANOUT, n requires 0 <= n < FANOUT => ChildHash(h, depth, b, n));
    }
  }

  /** The root decides set equality, both ways and in any order. */
  lemma RootDecides(h: Hashing, a: seq<Id>, b: seq<Id>)
    requires h.Ideal() && NoDuplicates(a) && NoDuplicates(b)
    ensures RootHash(h, a) == RootHash(h, b) <==> Elements(a) == Elements(b)
  {
    EmptyElements(a);
    EmptyElements(b);
    if a != [] { TreeHashNotZero(h, 0, a); }
    if b != [] { TreeHashNotZero(h, 0, b); }
    if a != [] && b != [] {
      if RootHash(h, a) == RootHash(h, b) { TreeHashDecides(h, 0, a, b); }
      if Elements(a) == Elements(b) { SameSetSameHash(h, 0, a, b); }
    }
  }

  // ----- The stored trie -----

  /** The nodes stored for the subtree of `ids` at `path`. */
  function Built(h: Hashing, path: Path, ids: seq<Id>): map<Path, MstNode>
    requires |path| <= DEPTH
    decreases DEPTH - |path|, 0
  {
    if |ids| == 1 || |path| == DEPTH then map[path := MstNode(h.leaf(ids), seq(FANOUT, _ => 0), ids)]
    else KidsBuilt(h, path, ids, FANOUT)[path := MstNode(TreeHash(h, |path|, ids), Children(h, |path|, ids), [])]
  }

  function Children(h: Hashing, depth: nat, ids: seq<Id>): seq<H>
    requires depth < DEPTH
  {
    seq(FANOUT, n requires 0 <= n < FANOUT => ChildHash(h, depth, ids, n))
  }

  /** The nodes stored for the first `k` children. */
  function KidsBuilt(h: Hashing, path: Path, ids: seq<Id>, k: nat): map<Path, MstNode>
    requires |path| < DEPTH && k <= FANOUT
    decreases DEPTH - |path| - 1, 1, k
  {
    if k == 0 then map[] else
      var g := Group(ids, |path|, k - 1);
      KidsBuilt(h, path, ids, k - 1) + if g == [] then map[] else Built(h, path + [k - 1], g)
  }

  /** The path is spelled by the id's nibbles. */
  ghost predicate OnPath(x: Id, path: Path) {
    |path| <= DEPTH && forall d :: 0 <= d < |path| ==> NibbleAt(x, d) == path[d]
  }

  ghost predicate Locates(m: map<Path, MstNode>, x: Id, q: Path) {
    q in m && x in m[q].keys
  }

  /** Everything stored for a subtree lies under its path, and every key is one of
      its ids, on the path that holds it. */
  lemma {:induction false} BuiltUnder(h: Hashing, path: Path, ids: seq<Id>, q: Path)
    requires |path| <= DEPTH && q in Built(h, path, ids) && forall i :: 0 <= i < |ids| ==> OnPath(ids[i], path)
    ensures path <= q
    ensures forall x :: x in Built(h, path, ids)[q].keys ==> x in ids && OnPath(x, q)
    decreases DEPTH - |path|, 0
  {
    if !(|ids| == 1 || |path| == DEPTH) && q != path { KidsUnder(h, path, ids, FANOUT, q); }
  }

  lemma GroupOnPath(path: Path, ids: seq<Id>, n: nat)
    requires |path| < DEPTH && n < FANOUT && forall i :: 0 <= i < |ids| ==> OnPath(ids[i], path)
    ensures var g := Group(ids, |path|, n);
      forall i :: 0 <= i < |g| ==> OnPath(g[i], path + [n]) && g[i] in ids
  {
    var g := Group(ids, |path|, n);
    GroupIs(ids, |path|, n, |ids|);
    forall i | 0 <= i < |g| ensures OnPath(g[i], path + [n]) && g[i] in ids {
      assert g[i] in g;
    }
  }

  lemma {:induction false} KidsUnder(h: Hashing, path: Path, ids: seq<Id>, k: nat, q: Path)
    requires |path| < DEPTH && k <= FANOUT && q in KidsBuilt(h, path, ids, k)
    requires forall i :: 0 <= i < |ids| ==> OnPath(ids[i], path)
    ensures path <= q && |path| < |q| && q[|path|] < k
    ensures forall x :: x in KidsBuilt(h, path, ids, k)[q].keys ==> x in ids && OnPath(x, q)
    decreases DEPTH - |path| - 1, 1, k
  {
    var g := Group(ids, |path|, k - 1);
    if g != [] && q in Built(h, path + [k - 1], g) {
      GroupOnPath(path, ids, k - 1);
      BuiltUnder(h, path + [k - 1], g, q);
    } else {
      KidsUnder(h, path, ids, k - 1, q);
    }
  }

  /** The child subtree a path leads into, and nothing else, stores it. */
  lemma {:induction false} KidsAt(h: Hashing, path: Path, ids: seq<Id>, k: nat, n: nat, q: Path)
    requires |path| < DEPTH && n < k <= FANOUT && (forall i :: 0 <= i < |ids| ==> OnPath(ids[i], path))
    requires path + [n] <= q
    ensures var g := Group(ids, |path|, n);
      var kids := KidsBuilt(h, path, ids, k);
      && (q in kids <==> g != [] && q in Built(h, path + [n], g))
      && (q in kids ==> kids[q] == Built(h, path + [n], g)[q])
  {
    assert q[|path|] == n;
    var g := Group(ids, |path|, k - 1);
    if g != [] && q in Built(h, path + [k - 1], g) {
      GroupOnPath(path, ids, k - 1);
      BuiltUnder(h, path + [k - 1], g, q);
      assert q[|path|] == (path + [k - 1])[|path|];
    }
    if n == k - 1 {
      if q in KidsBuilt(h, path, ids, k - 1) { KidsUnder(h, path, ids, k - 1, q); }
    } else {
      KidsAt(h, path, ids, k - 1, n, q);
    }
  }

  /** Each id is stored at exactly one node, a leaf on its own path. */
  lemma {:induction false} StoredOnce(h: Hashing, path: Path, ids: seq<Id>, x: Id) returns (q: Path)
    requires |path| <= DEPTH && x in ids && forall i :: 0 <= i < |ids| ==> OnPath(ids[i], path)
    ensures Locates(Built(h, path, ids), x, q) && path <= q && OnPath(x, q)
    ensures forall p :: Locates(Built(h, path, ids), x, p) ==> p == q
    decreases DEPTH - |path|
  {
    if |ids| == 1 || |path| == DEPTH {
      q := path;
    } else {
      var n := NibbleAt(x, |path|);
      var g := Group(ids, |path|, n);
      GroupIs(ids, |path|, n, |ids|);
      GroupOnPath(path, ids, n);
      q := StoredOnce(h, path + [n], g, x);
      KidsAt(h, path, ids, FANOUT, n, q);
      assert path <= path + [n] <= q;
      forall p | Locates(Built(h, path, ids), x, p) ensures p == q {
        assert p != path;
        KidsUnder(h, path, ids, FANOUT, p);
        assert p[|path|] == n && path + [n] <= p;
        KidsAt(h, path, ids, FANOUT, n, p);
        assert Locates(Built(h, path + [n], g), x, p);
      }
    }
  }

  // ----- Sorting -----

  /** The order of byte arrays, from byte `d` on. */
  predicate Precedes(a: Id, b: Id, d: nat)
    requires d <= 32
    decreases 32 - d
  {
    d < 32 && (a[d] < b[d] || (a[d] == b[d] && Precedes(a, b, d + 1)))
  }

  lemma {:induction false} PrecedesLaws(a: Id, b: Id, c: Id, d: nat)
    requires d <= 32
    ensures Precedes(a, b, d) || Precedes(b, a, d) || a[d..] == b[d..]
    ensures Precedes(a, b, d) && Precedes(b, c, d) ==> Precedes(a, c, d)
    decreases 32 - d
  {
    if d < 32 {
      PrecedesLaws(a, b, c, d + 1);
      assert a[d..] == [a[d]] + a[d + 1..] && b[d..] == [b[d]] + b[d + 1..];
    }
  }

  /** Ids are compared at the first byte in which they differ. */
  lemma {:induction false} PrecedesIs(a: Id, b: Id, d: nat)
    requires d <= 32
    ensures Precedes(a, b, d) <==> exists i :: d <= i < 32 && a[i] < b[i] && a[d..i] == b[d..i]
    decreases 32 - d
  {
    if d < 32 {
      PrecedesIs(a, b, d + 1);
      forall i | d < i < 32 ensures a[d..i] == b[d..i] <==> a[d] == b[d] && a[d + 1..i] == b[d + 1..i] {
        assert a[d..i] == [a[d]] + a[d + 1..i] && b[d..i] == [b[d]] + b[d + 1..i];
      }
      if a[d] < b[d] { assert a[d..d] == b[d..d]; }
    }
  }

  ghost predicate NotAfter(a: Id, b: Id) {
    a == b || Precedes(a, b, 0)
  }

  ghost predicate Ascending(ids: seq<Id>) {
    forall i, j :: 0 <= i < j < |ids| ==> NotAfter(ids[i], ids[j])
  }

  /** The same ids, as many of them. */
  ghost predicate Reordered(r: seq<Id>, ids: seq<Id>) {
    Elements(r) == Elements(ids) && |r| == |ids|
  }

  /** The same ids in byte order. */
  method SortIds(ids: seq<Id>) returns (r: seq<Id>)
    ensures Ascending(r) && Reordered(r, ids)
  {
    r := [];
    for k := 0 to |ids|
      invariant Ascending(r) && Reordered(r, ids[..k])
    {
      var i := 0;
      while i < |r| && !Precedes(ids[k], r[i], 0)
        invariant i <= |r| && (i > 0 ==> !Precedes(ids[k], r[i - 1], 0))
      {
        i := i + 1;
      }
      SortedInsert(r, i, ids[k]);
      InsertElements(r, i, ids[k]);
      ElementsSnoc(ids[..k], ids[k]);
      assert ids[..k + 1] == ids[..k] + [ids[k]];
      r := InsertAt(r, i, ids[k]);
    }
    assert ids[..|ids|] == ids;
  }

  lemma SortedInsert(r: seq<Id>, i: nat, x: Id)
    requires Ascending(r) && i <= |r| && (i > 0 ==> !Precedes(x, r[i - 1], 0)) && (i < |r| ==> Precedes(x, r[i], 0))
    ensures Ascending(InsertAt(r, i, x))
  {
    var t := InsertAt(r, i, x);
    if i > 0 {
      PrecedesLaws(x, r[i - 1], x, 0);
      assert x[0..] == x && r[i - 1][0..] == r[i - 1];
    }
    forall a, b | 0 <= a < b < |t| ensures NotAfter(t[a], t[b]) {
      if b == i { if a < i - 1 { PrecedesLaws(r[a], r[i - 1], x, 0); } }
      if a == i { if b > i + 1 { PrecedesLaws(x, r[i], r[b - 1], 0); } }
    }
  }

  // ----- The builder -----

  type Nodes = map<Path, MstNode>

  lemma OneMoreKid(base: Nodes, h: Hashing, path: Path, ids: seq<Id>, n: nat)
    requires |path| < DEPTH && n < FANOUT
    ensures var g := Group(ids, |path|, n);
      base + KidsBuilt(h, path, ids, n + 1) ==
        if g == [] then base + KidsBuilt(h, path, ids, n)
        else base + KidsBuilt(h, path, ids, n) + Built(h, path + [n], g)
  {
  }

  lemma InnerOnTop(base: Nodes, h: Hashing, path: Path, ids: seq<Id>)
    requires |path| < DEPTH && |ids| != 1
    ensures (base + KidsBuilt(h, path, ids, FANOUT))
        [path := MstNode(TreeHash(h, |path|, ids), Children(h, |path|, ids), [])]
         == base + Built(h, path, ids)
  {
  }

  /** The trie object: `nodes` filled in place by the recursion. */
  class Trie {
    const h: Hashing
    var nodes: map<Path, MstNode>

    constructor (hashing: Hashing)
      ensures nodes == map[] && h == hashing
    {
      h, nodes := hashing, map[];
    }

    method BuildRecursive(path: Path, ids: seq<Id>) returns (hash: H)
      requires |path| <= DEPTH
      modifies this
      ensures nodes == old(nodes) + Built(h, path, ids) && hash == TreeHash(h, |path|, ids)
      decreases DEPTH - |path|, 1
    {
      if |ids| == 1 || |path| == DEPTH {
        hash := h.leaf(ids);
        nodes := nodes[path := MstNode(hash, seq(FANOUT, _ => 0), ids)];
        return;
      }
      var children := BuildChildren(path, ids);
      InnerOnTop(old(nodes), h, path, ids);
      hash := h.inner(children);
      nodes := nodes[path := MstNode(hash, children, [])];
    }

    /** Build the subtree of every non-empty group. */
    method BuildChildren(path: Path, ids: seq<Id>) returns (children: seq<H>)
      requires |path| < DEPTH
      modifies this
      ensures nodes == old(nodes) + KidsBuilt(h, path, ids, FANOUT) && children == Children(h, |path|, ids)
      decreases DEPTH - |path|, 0
    {
      var groups := GroupByNibble(ids, |path|);
      children := [];
      for n := 0 to FANOUT
        invariant nodes == old(nodes) + KidsBuilt(h, path, ids, n)
        invariant |children| == n && forall j :: 0 <= j < n ==> children[j] == ChildHash(h, |path|, ids, j)
      {
        var child := 0;
        OneMoreKid(old(nodes), h, path, ids, n);
        if groups[n] != [] { child := BuildRecursive(path + [n], groups[n]); }
        children := children + [child];
      }
    }

    method FromIds(ids: seq<Id>)
      requires nodes == map[]
      modifies this
      ensures BuiltFrom(h, nodes, ids)
    {
      var sorted := SortIds(ids);
      if sorted != [] {
        var _ := BuildRecursive([], sorted);
      }
      assert Reordered(sorted, ids);
    }

    function Root(): H
      reads this
    {
      if [] in nodes then nodes[[]].hash else 0
    }
  }

  /** The nodes of the trie of some ordering of the ids. */
  ghost predicate BuiltFrom(h: Hashing, nodes: Nodes, ids: seq<Id>) {
    exists sorted :: Reordered(sorted, ids) && nodes == if sorted == [] then map[] else Built(h, [], sorted)
  }

  lemma StillDistinct(r: seq<Id>, ids: seq<Id>)
    requires Reordered(r, ids) && NoDuplicates(ids)
    ensures NoDuplicates(r)
  {
    NoDuplicatesSize(ids);
    SizeNoDuplicates(r);
  }

  method GroupByNibble(ids: seq<Id>, depth: nat) returns (groups: seq<seq<Id>>)
    requires depth < DEPTH
    ensures |groups| == FANOUT && forall n :: 0 <= n < FANOUT ==> groups[n] == Group(ids, depth, n)
  {
    groups := seq(FANOUT, _ => []);
    for i := 0 to |ids|
      invariant |groups| == FANOUT && forall n :: 0 <= n < FANOUT ==> groups[n] == GroupTo(ids, depth, n, i)
    {
      var n := NibbleAt(ids[i], depth);
      groups := groups[n := groups[n] + [ids[i]]];
    }
  }

  /** Two tries built from duplicate-free ids, in whatever order, have the same
      root exactly when the id sets are the same. */
  lemma TriesCompare(a: Trie, b: Trie, ids: seq<Id>, ids': seq<Id>)
    requires a.h == b.h && a.h.Ideal() && NoDuplicates(ids) && NoDuplicates(ids')
    requires BuiltFrom(a.h, a.nodes, ids) && BuiltFrom(b.h, b.nodes, ids')
    ensures a.Root() == b.Root() <==> Elements(ids) == Elements(ids')
  {
    var s :| Reordered(s, ids) && a.nodes == if s == [] then map[] else Built(a.h, [], s);
    var t :| Reordered(t, ids') && b.nodes == if t == [] then map[] else Built(b.h, [], t);
    StillDistinct(s, ids);
    StillDistinct(t, ids');
    RootDecides(a.h, s, t);
  }

  /** The keys of all nodes are the ids the trie was built from. */
  lemma AllKeys(h: Hashing, ids: seq<Id>, x: Id)
    ensures x in ids <==> exists q :: Locates(Built(h, [], ids), x, q)
  {
    if x in ids {
      var q := StoredOnce(h, [], ids, x);
    }
    if q :| Locates(Built(h, [], ids), x, q) { BuiltUnder(h, [], ids, q); }
  }
}
