/** The documented order of a text: insertions form a forest, and the document is
    its pre-order traversal with siblings in descending identity
    (core/crdt/src/text.rs, module comment). This module says exactly when the
    flat sequence of the engine is that traversal. */
module TextForest {
  import opened Core
  import opened TextOrder

  ghost function Children(g: Anchors, p: Option<OpId>): set<OpId> {
    set x | x in g && g[x] == p
  }

  /** Pre-order traversal of the trees rooted at `sibs`, greatest root first;
      `open` are the identities not yet on the path from the start. */
  ghost function Walk(g: Anchors, open: set<OpId>, sibs: set<OpId>): seq<OpId>
    requires sibs <= open
    decreases open, |sibs|
  {
    if sibs == {} then [] else
      var m := Greatest(sibs);
      var below := open - {m};
      assert m in open && m !in below;
      [m] + Walk(g, below, Children(g, Some(m)) * below) + Walk(g, open, sibs - {m})
  }

  /** The whole traversal. Characters whose anchor chain is incomplete are not
      reached. */
  ghost function Dfs(g: Anchors): seq<OpId> {
    Walk(g, g.Keys, Children(g, None))
  }

  // ----- Ancestors -----

  /** `n` anchors up from `z` is `y`. */
  ghost predicate Up(g: Anchors, z: OpId, y: OpId, n: nat)
    decreases n
  {
    if n == 0 then z == y else z in g && g[z].Some? && Up(g, g[z].value, y, n - 1)
  }

  /** `z` is in the subtree of `y`. */
  ghost predicate Under(g: Anchors, z: OpId, y: OpId) {
    exists n: nat :: Up(g, z, y, n)
  }

  lemma UnderSelf(g: Anchors, z: OpId)
    ensures Under(g, z, z)
  {
    assert Up(g, z, z, 0);
  }

  lemma UnderAnchor(g: Anchors, z: OpId, y: OpId)
    requires z in g
    ensures g[z].Some? && Under(g, g[z].value, y) ==> Under(g, z, y)
    ensures Under(g, z, y) && z != y ==> g[z].Some? && Under(g, g[z].value, y)
  {
    if g[z].Some? && Under(g, g[z].value, y) {
      var n: nat :| Up(g, g[z].value, y, n);
      assert Up(g, z, y, n + 1);
    }
    if Under(g, z, y) && z != y {
      var n: nat :| Up(g, z, y, n);
      assert Up(g, g[z].value, y, n - 1);
    }
  }

  lemma {:induction false} UpJoin(g: Anchors, z: OpId, y: OpId, x: OpId, n: nat, m: nat)
    requires Up(g, z, y, n) && Up(g, y, x, m)
    ensures Up(g, z, x, n + m)
    decreases n
  {
    if n > 0 { UpJoin(g, g[z].value, y, x, n - 1, m); }
  }

  lemma UnderJoin(g: Anchors, z: OpId, y: OpId, x: OpId)
    requires Under(g, z, y) && Under(g, y, x)
    ensures Under(g, z, x)
  {
    var n: nat :| Up(g, z, y, n);
    var m: nat :| Up(g, y, x, m);
    UpJoin(g, z, y, x, n, m);
  }

  lemma {:induction false} UpSplit(g: Anchors, z: OpId, x: OpId, y: OpId, n: nat, m: nat)
    requires Up(g, z, x, n) && Up(g, z, y, m) && n <= m
    ensures Up(g, x, y, m - n)
    decreases n
  {
    if n > 0 { UpSplit(g, g[z].value, x, y, n - 1, m - 1); }
  }

  /** Two ancestors of one character are on one line. */
  lemma Comparable(g: Anchors, z: OpId, x: OpId, y: OpId)
    requires Under(g, z, x) && Under(g, z, y)
    ensures Under(g, x, y) || Under(g, y, x)
  {
    var n: nat :| Up(g, z, x, n);
    var m: nat :| Up(g, z, y, m);
    if n <= m { UpSplit(g, z, x, y, n, m); } else { UpSplit(g, z, y, x, m, n); }
  }

  // ----- Forests -----

  /** `log` lists the characters, each after its anchor. */
  ghost predicate Grounded(g: Anchors, log: seq<OpId>) {
    && NoDuplicates(log) && g.Keys == Elements(log)
    && forall k :: 0 <= k < |log| ==> GroundedAt(g, log, k)
  }

  ghost predicate GroundedAt(g: Anchors, log: seq<OpId>, k: nat)
    requires k < |log| && g.Keys == Elements(log)
  {
    log[k] in Elements(log) && (g[log[k]].Some? ==> g[log[k]].value in log[..k])
  }

  /** The place of a character in the log; the start comes before all. */
  ghost function Rank(log: seq<OpId>, a: Option<OpId>): int
    requires a.Some? ==> a.value in log
  {
    if a.None? then -1 else IndexOf(log, a.value)
  }

  lemma AnchorEarlier(g: Anchors, log: seq<OpId>, x: OpId)
    requires Grounded(g, log) && x in g
    ensures x in log && (g[x].Some? ==> g[x].value in g && g[x].value in log)
    ensures Rank(log, g[x]) < Rank(log, Some(x))
  {
    assert x in Elements(log);
    var k := IndexOf(log, x);
    assert GroundedAt(g, log, k);
    if g[x].Some? {
      var j :| 0 <= j < k && log[j] == g[x].value;
      assert log[j] in Elements(log);
      SameIndex(log, j, IndexOf(log, log[j]));
    }
  }

  lemma {:induction false} UpRank(g: Anchors, log: seq<OpId>, z: OpId, y: OpId, n: nat)
    requires Grounded(g, log) && z in g && Up(g, z, y, n)
    ensures z in log && y in g && y in log && Rank(log, Some(y)) + n <= Rank(log, Some(z))
    decreases n
  {
    AnchorEarlier(g, log, z);
    if n > 0 { UpRank(g, log, g[z].value, y, n - 1); }
  }

  lemma UnderRank(g: Anchors, log: seq<OpId>, z: OpId, y: OpId)
    requires Grounded(g, log) && z in g && Under(g, z, y)
    ensures z in log && y in g && y in log && Rank(log, Some(y)) <= Rank(log, Some(z))
    ensures z != y ==> Rank(log, Some(y)) < Rank(log, Some(z))
  {
    var n: nat :| Up(g, z, y, n);
    UpRank(g, log, z, y, n);
  }

  /** A character is in the subtree of one sibling only. */
  lemma SiblingUnique(g: Anchors, log: seq<OpId>, v: OpId, x: OpId, y: OpId)
    requires Grounded(g, log) && v in g && x in g && y in g && g[x] == g[y]
    requires Under(g, v, x) && Under(g, v, y)
    ensures x == y
  {
    Comparable(g, v, x, y);
    if x != y {
      var lower, upper := if Under(g, x, y) then x else y, if Under(g, x, y) then y else x;
      UnderAnchor(g, lower, upper);
      AnchorEarlier(g, log, lower);
      AnchorEarlier(g, log, upper);
      UnderRank(g, log, g[lower].value, upper);
    }
  }

  lemma {:induction false} RootAbove(g: Anchors, log: seq<OpId>, z: OpId) returns (r: OpId)
    requires Grounded(g, log) && z in g
    ensures z in log && r in Children(g, None) && Under(g, z, r)
    decreases Rank(log, if z in log then Some(z) else None) + 1
  {
    AnchorEarlier(g, log, z);
    if g[z].None? {
      r := z;
      UnderSelf(g, z);
    } else {
      r := RootAbove(g, log, g[z].value);
      UnderAnchor(g, z, r);
    }
  }

  // ----- The order a traversal means -----

  /** `u` and `v` are in the subtrees of siblings `y` and `x`, and `y` is greater. */
  ghost predicate Apart(g: Anchors, u: OpId, v: OpId, y: OpId, x: OpId) {
    x in g && y in g && g[x] == g[y] && Less(x, y) && Under(g, u, y) && Under(g, v, x)
  }

  /** `u` comes before `v`: it is an ancestor, or stands under a greater sibling. */
  ghost predicate Precedes(g: Anchors, u: OpId, v: OpId) {
    (u != v && Under(g, v, u)) || exists y, x :: Apart(g, u, v, y, x)
  }

  lemma PrecedesAsymmetric(g: Anchors, log: seq<OpId>, u: OpId, v: OpId)
    requires Grounded(g, log) && u in g && v in g && Precedes(g, u, v)
    ensures !Precedes(g, v, u)
  {
    if u != v && Under(g, v, u) {
      UnderRank(g, log, v, u);
      if v != u && Under(g, u, v) { UnderRank(g, log, u, v); }
      forall y, x | Apart(g, v, u, y, x) ensures false { AncestorNotApart(g, log, u, v, y, x); }
    } else {
      var y, x :| Apart(g, u, v, y, x);
      if Under(g, u, v) { AncestorNotApart(g, log, v, u, y, x); }
      forall y', x' | Apart(g, v, u, y', x') ensures false { ApartOnce(g, log, u, v, y, x, y', x'); }
    }
  }

  lemma AncestorNotApart(g: Anchors, log: seq<OpId>, u: OpId, v: OpId, y: OpId, x: OpId)
    requires Grounded(g, log) && v in g && Under(g, v, u)
    ensures !Apart(g, v, u, y, x)
  {
    if Apart(g, v, u, y, x) {
      UnderJoin(g, v, u, x);
      SiblingUnique(g, log, v, x, y);
    }
  }

  lemma ApartOnce(g: Anchors, log: seq<OpId>, u: OpId, v: OpId, y: OpId, x: OpId, y': OpId, x': OpId)
    requires Grounded(g, log) && u in g && v in g && Apart(g, u, v, y, x)
    ensures !Apart(g, v, u, y', x')
  {
    if Apart(g, v, u, y', x') {
      Comparable(g, u, y, x');
      if y == x' {
        SiblingUnique(g, log, v, x, y');
      } else if Under(g, y, x') {
        UnderSibling(g, y, x, x');
        UnderJoin(g, v, x, x');
        SiblingUnique(g, log, v, x', y');
      } else {
        UnderSibling(g, x', y', y);
        UnderJoin(g, v, y', y);
        SiblingUnique(g, log, v, x, y);
      }
    }
  }

  /** Siblings share their proper ancestors. */
  lemma UnderSibling(g: Anchors, y: OpId, x: OpId, r: OpId)
    requires x in g && y in g && g[x] == g[y] && Under(g, y, r) && y != r
    ensures Under(g, x, r)
  {
    UnderAnchor(g, y, r);
    UnderAnchor(g, x, r);
  }

  // ----- The traversal lists everyone, in that order -----

  /** Everything after `p` in the log is open. */
  ghost predicate Free(log: seq<OpId>, open: set<OpId>, p: Option<OpId>)
    requires p.Some? ==> p.value in log
  {
    forall k :: Rank(log, p) < k < |log| ==> log[k] in open
  }

  ghost predicate UnderSome(g: Anchors, z: OpId, sibs: set<OpId>) {
    exists y :: y in sibs && Under(g, z, y)
  }

  /** One step of the traversal goes down without meeting its own path. */
  lemma WalkDown(g: Anchors, log: seq<OpId>, p: Option<OpId>, open: set<OpId>, m: OpId)
    requires Grounded(g, log) && m in Children(g, p)
    requires (p.Some? ==> p.value in log) && Free(log, open, p)
    ensures m in log && m in open && Free(log, open - {m}, Some(m))
    ensures Children(g, Some(m)) <= open - {m}
  {
    AnchorEarlier(g, log, m);
    assert log[Rank(log, Some(m))] == m;
    forall k | Rank(log, Some(m)) < k < |log| ensures log[k] in open - {m} {
      assert log[k] in open;
      assert Differ(log, Rank(log, Some(m)), k);
    }
    forall c | c in Children(g, Some(m)) ensures c in open - {m} {
      AnchorEarlier(g, log, c);
      assert log[Rank(log, Some(c))] == c;
    }
  }

  /** A proper descendant is under a child. */
  lemma {:induction false} StepBelow(g: Anchors, z: OpId, m: OpId, n: nat) returns (c: OpId)
    requires Up(g, z, m, n) && n > 0
    ensures c in Children(g, Some(m)) && Under(g, z, c)
    decreases n
  {
    if n == 1 {
      c := z;
      UnderSelf(g, z);
    } else {
      c := StepBelow(g, g[z].value, m, n - 1);
      UnderAnchor(g, z, c);
    }
  }

  lemma UnderChild(g: Anchors, z: OpId, m: OpId)
    ensures UnderSome(g, z, Children(g, Some(m))) ==> Under(g, z, m)
    ensures Under(g, z, m) && z != m ==> UnderSome(g, z, Children(g, Some(m)))
  {
    if UnderSome(g, z, Children(g, Some(m))) {
      var c :| c in Children(g, Some(m)) && Under(g, z, c);
      UnderSelf(g, m);
      UnderAnchor(g, c, m);
      UnderJoin(g, z, c, m);
    }
    if Under(g, z, m) && z != m {
      var n: nat :| Up(g, z, m, n);
      var c := StepBelow(g, z, m, n);
    }
  }

  lemma {:induction false} WalkListed(g: Anchors, log: seq<OpId>, p: Option<OpId>, open: set<OpId>, sibs: set<OpId>,
                                      z: OpId)
    requires Grounded(g, log) && sibs <= Children(g, p) && sibs <= open && z in g
    requires (p.Some? ==> p.value in log) && Free(log, open, p)
    ensures z in Walk(g, open, sibs) <==> UnderSome(g, z, sibs)
    decreases open, |sibs|
  {
    if sibs != {} {
      var m := Greatest(sibs);
      var kids, rest := Children(g, Some(m)), sibs - {m};
      WalkDown(g, log, p, open, m);
      assert kids * (open - {m}) == kids;
      WalkListed(g, log, Some(m), open - {m}, kids, z);
      WalkListed(g, log, p, open, rest, z);
      UnderChild(g, z, m);
      UnderSelf(g, m);
      assert UnderSome(g, z, sibs) <==> Under(g, z, m) || UnderSome(g, z, rest);
    }
  }

  ghost predicate Ordered(g: Anchors, w: seq<OpId>) {
    forall i, j :: 0 <= i < j < |w| ==> Precedes(g, w[i], w[j])
  }

  lemma {:induction false} WalkOrdered(g: Anchors, log: seq<OpId>, p: Option<OpId>, open: set<OpId>, sibs: set<OpId>)
    requires Grounded(g, log) && sibs <= Children(g, p) && sibs <= open
    requires (p.Some? ==> p.value in log) && Free(log, open, p)
    ensures Ordered(g, Walk(g, open, sibs))
    ensures forall i :: 0 <= i < |Walk(g, open, sibs)| ==> Walk(g, open, sibs)[i] in g
    decreases open, |sibs|
  {
    if sibs != {} {
      var m := Greatest(sibs);
      var kids, rest := Children(g, Some(m)), sibs - {m};
      WalkDown(g, log, p, open, m);
      assert kids * (open - {m}) == kids;
      WalkOrdered(g, log, Some(m), open - {m}, kids);
      WalkOrdered(g, log, p, open, rest);
      var a, b := Walk(g, open - {m}, kids), Walk(g, open, rest);
      forall i | 0 <= i < |a| ensures Under(g, a[i], m) && a[i] != m {
        WalkListed(g, log, Some(m), open - {m}, kids, a[i]);
        BelowIsNot(g, log, a[i], m);
      }
      forall j | 0 <= j < |b| ensures UnderSome(g, b[j], rest) {
        WalkListed(g, log, p, open, rest, b[j]);
      }
      OrderedGlue(g, m, a, b, rest);
    }
  }

  lemma BelowIsNot(g: Anchors, log: seq<OpId>, z: OpId, m: OpId)
    requires Grounded(g, log) && z in g && UnderSome(g, z, Children(g, Some(m)))
    ensures Under(g, z, m) && z != m
  {
    UnderChild(g, z, m);
    var c :| c in Children(g, Some(m)) && Under(g, z, c);
    UnderRank(g, log, z, c);
    AnchorEarlier(g, log, c);
  }

  lemma OrderedGlue(g: Anchors, m: OpId, a: seq<OpId>, b: seq<OpId>, rest: set<OpId>)
    requires m in g && Ordered(g, a) && Ordered(g, b)
    requires forall y :: y in rest ==> y in g && g[y] == g[m] && Less(y, m)
    requires forall i :: 0 <= i < |a| ==> Under(g, a[i], m) && a[i] != m
    requires forall j :: 0 <= j < |b| ==> UnderSome(g, b[j], rest)
    ensures Ordered(g, [m] + a + b)
  {
    var w := [m] + a + b;
    UnderSelf(g, m);
    forall i, j | 0 <= i < j < |w| ensures Precedes(g, w[i], w[j]) {
      if j <= |a| {
        assert w[j] == a[j - 1];
        if i > 0 { assert w[i] == a[i - 1]; }
      } else {
        var q := j - 1 - |a|;
        assert w[j] == b[q];
        if i > |a| {
          assert w[i] == b[i - 1 - |a|];
        } else {
          assert i > 0 ==> w[i] == a[i - 1];
          var y :| y in rest && Under(g, b[q], y);
          assert Apart(g, w[i], w[j], m, y);
        }
      }
    }
  }

  /** The traversal of a forest lists every character once, in that order. */
  ghost predicate Lists(g: Anchors, d: seq<OpId>) {
    Elements(d) == g.Keys && Ordered(g, d) && NoDuplicates(d)
  }

  lemma DfsLists(g: Anchors, log: seq<OpId>)
    requires Grounded(g, log)
    ensures Lists(g, Dfs(g))
  {
    var d := Dfs(g);
    forall k | 0 <= k < |log| ensures log[k] in g.Keys { assert log[k] in Elements(log); }
    WalkOrdered(g, log, None, g.Keys, Children(g, None));
    forall z | z in g ensures z in d {
      var r := RootAbove(g, log, z);
      WalkListed(g, log, None, g.Keys, Children(g, None), z);
    }
    forall i, j | 0 <= i < j < |d| ensures Differ(d, i, j) {
      if d[i] == d[j] { PrecedesAsymmetric(g, log, d[i], d[j]); }
    }
  }

  /** In the traversal, coming before is standing before. */
  lemma StandsBefore(g: Anchors, log: seq<OpId>, d: seq<OpId>, i: nat, j: nat)
    requires Grounded(g, log) && Lists(g, d) && i < |d| && j < |d|
    ensures Precedes(g, d[i], d[j]) <==> i < j
  {
    assert d[i] in Elements(d) && d[j] in Elements(d);
    if j <= i && Precedes(g, d[i], d[j]) { PrecedesAsymmetric(g, log, d[i], d[j]); }
  }

  /** What comes after `y` without being under it comes after all that is. */
  lemma PastSubtree(g: Anchors, y: OpId, v: OpId, z: OpId)
    requires Precedes(g, y, v) && !Under(g, v, y) && Under(g, z, y)
    ensures Precedes(g, z, v)
  {
    var p, q :| Apart(g, y, v, p, q);
    UnderJoin(g, z, y, p);
    assert Apart(g, z, v, p, q);
  }

  /** A subtree is an unbroken stretch that starts with its root. */
  lemma SubtreeUnbroken(g: Anchors, log: seq<OpId>, d: seq<OpId>, i: nat, j: nat, k: nat)
    requires Grounded(g, log) && Lists(g, d) && i < j <= k < |d| && Under(g, d[k], d[i])
    ensures Under(g, d[j], d[i])
  {
    StandsBefore(g, log, d, i, j);
    StandsBefore(g, log, d, k, j);
    if !Under(g, d[j], d[i]) { PastSubtree(g, d[i], d[j], d[k]); }
  }

  // ----- When the flat sequence is the traversal -----

  /** The flat forest: each character hangs under its anchor, or the first
      ancestor of that smaller than itself. */
  ghost predicate Hung(f: Anchors, g: Anchors) {
    && Rooted(f) && f.Keys == g.Keys
    && forall x :: x in g ==> (g[x].Some? ==> g[x].value in g) && f[x] == Climb(f, g[x], x)
  }

  /** No character is greater than one in the subtree of a greater sibling. */
  ghost predicate Orderly(g: Anchors) {
    forall x, y, z :: InOrder(g, x, y, z)
  }

  ghost predicate InOrder(g: Anchors, x: OpId, y: OpId, z: OpId) {
    x in g && y in g && z in g && g[x] == g[y] && Less(x, y) && Under(g, z, y) ==> Less(x, z)
  }

  /** What stands between a character and its anchor are the subtrees of its
      greater siblings. */
  lemma BetweenAnchor(g: Anchors, log: seq<OpId>, d: seq<OpId>, i: int, u: nat, t: nat)
    requires Grounded(g, log) && Lists(g, d) && -1 <= i < |d| && t < |d| && u < |d|
    requires d[t] in g && g[d[t]] == At(d, i)
    ensures i < u < t <==> exists y :: Apart(g, d[u], d[t], y, d[t])
  {
    if i < u < t { SiblingBetween(g, log, d, i, u, t); }
    if y :| Apart(g, d[u], d[t], y, d[t]) {
      StandsBefore(g, log, d, u, t);
      if i >= 0 {
        UnderChild(g, d[u], d[i]);
        assert d[u] in Elements(d);
        BelowIsNot(g, log, d[u], d[i]);
        StandsBefore(g, log, d, i, u);
      }
    }
  }

  lemma SiblingBetween(g: Anchors, log: seq<OpId>, d: seq<OpId>, i: int, u: nat, t: nat)
    requires Grounded(g, log) && Lists(g, d) && -1 <= i < u < t < |d|
    requires d[t] in g && g[d[t]] == At(d, i)
    ensures exists y :: Apart(g, d[u], d[t], y, d[t])
  {
    var x := d[t];
    StandsBefore(g, log, d, u, t);
    if i >= 0 {
      StandsBefore(g, log, d, i, u);
      StandsBefore(g, log, d, u, i);
    }
    if d[u] != x && Under(g, x, d[u]) {
      UnderAnchor(g, x, d[u]);
      assert false;
    } else {
      var y, r :| Apart(g, d[u], x, y, r);
      if r != x {
        UnderAnchor(g, x, r);
        assert i >= 0 ==> Apart(g, d[u], d[i], y, r);
      }
    }
  }

  /** Climbing in the flat forest never moves to the right. */
  lemma {:induction false} ClimbBack(s: seq<OpId>, f: Anchors, i: int, x: OpId) returns (k: int)
    requires Rooted(f) && NearestSmaller(s, f) && -1 <= i < |s|
    ensures i >= 0 ==> s[i] in f
    ensures -1 <= k <= i && Climb(f, At(s, i), x) == At(s, k)
    decreases i
  {
    k := i;
    if i >= 0 {
      assert NearestAt(s, f, i);
      if !Less(s[i], x) { k := ClimbBack(s, f, Left(s, i, s[i]), x); }
    }
  }

  lemma AnchorPlace(g: Anchors, log: seq<OpId>, d: seq<OpId>, x: OpId) returns (i: int, t: nat)
    requires Grounded(g, log) && Lists(g, d) && x in g
    ensures -1 <= i < t < |d| && d[t] == x && g[x] == At(d, i)
  {
    assert x in Elements(d);
    t :| 0 <= t < |d| && d[t] == x;
    i := -1;
    if g[x].Some? {
      AnchorEarlier(g, log, x);
      assert g[x].value in Elements(d);
      i :| 0 <= i < |d| && d[i] == g[x].value;
      UnderSelf(g, d[i]);
      UnderAnchor(g, x, d[i]);
      StandsBefore(g, log, d, i, t);
    }
  }

  /** If the traversal has the flat invariant, the forest is orderly. */
  lemma NearestOrderly(g: Anchors, log: seq<OpId>, d: seq<OpId>, f: Anchors)
    requires Grounded(g, log) && Lists(g, d) && Hung(f, g) && NearestSmaller(d, f)
    ensures Orderly(g)
  {
    forall x, y, z | x in g && y in g && z in g && g[x] == g[y] && Less(x, y) && Under(g, z, y)
      ensures InOrder(g, x, y, z)
    {
      var i, t := AnchorPlace(g, log, d, x);
      assert z in Elements(d);
      var u :| 0 <= u < |d| && d[u] == z;
      UnderSelf(g, x);
      assert Apart(g, z, x, y, x);
      BetweenAnchor(g, log, d, i, u, t);
      var k := ClimbBack(d, f, i, x);
      assert NearestAt(d, f, t);
      var j := Left(d, t, x);
      if j >= 0 && k >= 0 { SameIndex(d, j, k); }
    }
  }

  /** One more character of the traversal has it, if the forest is orderly. */
  lemma OrderlyStep(g: Anchors, log: seq<OpId>, d: seq<OpId>, f: Anchors, t: nat)
    requires Grounded(g, log) && Lists(g, d) && Hung(f, g) && Orderly(g) && t < |d|
    requires forall u :: 0 <= u < t ==> NearestAt(d, f, u)
    ensures NearestAt(d, f, t)
  {
    var x := d[t];
    assert x in Elements(d);
    var i, t' := AnchorPlace(g, log, d, x);
    SameIndex(d, t, t');
    forall u | i < u < t ensures Less(x, d[u]) {
      BetweenAnchor(g, log, d, i, u, t);
      var y :| Apart(g, d[u], x, y, x);
      assert d[u] in Elements(d) && InOrder(g, x, y, d[u]);
    }
    ClimbsNearest(d, f, g[x], i, t);
  }

  lemma ClimbsNearest(d: seq<OpId>, f: Anchors, a: Option<OpId>, i: int, t: nat)
    requires Rooted(f) && NoDuplicates(d) && -1 <= i < t < |d| && a == At(d, i)
    requires d[t] in f && forall u :: 0 <= u < t ==> NearestAt(d, f, u)
    requires a.Some? ==> a.value in f
    requires f[d[t]] == Climb(f, a, d[t]) && forall u :: i < u < t ==> Less(d[t], d[u])
    ensures NearestAt(d, f, t)
  {
    var init, x := d[..t], d[t];
    forall u | 0 <= u < t ensures init[u] != x && NearestAt(init, f, u) {
      assert Differ(d, u, t) && NearestAt(d, f, u);
      LeftIs(init, u, d[u], Left(d, u, d[u]));
    }
    ClimbIsLeft(init, f, i, t, x);
    LeftIs(d, t, x, Left(init, t, x));
  }

  lemma {:induction false} OrderlyNearest(g: Anchors, log: seq<OpId>, d: seq<OpId>, f: Anchors, t: nat)
    requires Grounded(g, log) && Lists(g, d) && Hung(f, g) && Orderly(g) && t < |d|
    ensures NearestAt(d, f, t)
  {
    forall u | 0 <= u < t ensures NearestAt(d, f, u) { OrderlyNearest(g, log, d, f, u); }
    OrderlyStep(g, log, d, f, t);
  }

  /** The flat sequence is the documented traversal exactly for orderly forests. */
  lemma FlatIsDfsIff(s: seq<OpId>, f: Anchors, g: Anchors, log: seq<OpId>)
    requires Grounded(g, log) && Hung(f, g)
    requires NearestSmaller(s, f) && Elements(s) == f.Keys
    ensures s == Dfs(g) <==> Orderly(g)
  {
    var d := Dfs(g);
    DfsLists(g, log);
    if s == d { NearestOrderly(g, log, d, f); }
    if Orderly(g) {
      forall t | 0 <= t < |d| ensures NearestAt(d, f, t) { OrderlyNearest(g, log, d, f, t); }
      NearestUnique(s, d, f);
    }
  }

  /** Forests in which every character is younger than its anchor are orderly. */
  lemma AnchoredOrderly(g: Anchors)
    requires Anchored(g)
    ensures Orderly(g)
  {
    forall x, y, z ensures InOrder(g, x, y, z) {
      if Under(g, z, y) {
        var n: nat :| Up(g, z, y, n);
        UpGrows(g, z, y, n);
      }
    }
  }

  lemma {:induction false} UpGrows(g: Anchors, z: OpId, y: OpId, n: nat)
    requires Anchored(g) && Up(g, z, y, n)
    ensures LessEq(y, z)
    decreases n
  {
    if n > 0 { UpGrows(g, g[z].value, y, n - 1); }
  }

  // ----- Characters whose chain of anchors has not arrived -----

  /** The chain of anchors from `x` ends at the start. */
  ghost predicate Landed(g: Anchors, x: OpId) {
    exists r :: r in g && g[r].None? && Under(g, x, r)
  }

  ghost function Arrived(g: Anchors): Anchors {
    map x | x in g && Landed(g, x) :: g[x]
  }

  lemma LandedAnchor(g: Anchors, x: OpId)
    requires x in g
    ensures Landed(g, x) <==> g[x].None? || Landed(g, g[x].value)
  {
    if g[x].None? {
      UnderSelf(g, x);
    } else {
      if Landed(g, x) {
        var r :| r in g && g[r].None? && Under(g, x, r);
        UnderAnchor(g, x, r);
      }
      if Landed(g, g[x].value) {
        var r :| r in g && g[r].None? && Under(g, g[x].value, r);
        UnderAnchor(g, x, r);
      }
    }
  }

  lemma {:induction false} WalkRestrict(f: Anchors, g: Anchors, open: set<OpId>, sibs: set<OpId>)
    requires sibs <= open && sibs <= f.Keys
    requires f.Keys <= g.Keys && forall x :: x in f ==> f[x] == g[x]
    requires forall x :: x in g && g[x].Some? && g[x].value in f ==> x in f
    ensures Walk(f, open * f.Keys, sibs) == Walk(g, open, sibs)
    decreases open, |sibs|
  {
    if sibs != {} {
      var m := Greatest(sibs);
      var kids := Children(f, Some(m));
      assert kids == Children(g, Some(m));
      assert open * f.Keys - {m} == (open - {m}) * f.Keys;
      assert kids * (open * f.Keys - {m}) == kids * (open - {m});
      WalkRestrict(f, g, open - {m}, kids * (open - {m}));
      WalkRestrict(f, g, open, sibs - {m});
    }
  }

  /** They do not affect the traversal. */
  lemma DfsArrived(g: Anchors)
    ensures Dfs(Arrived(g)) == Dfs(g)
  {
    var f := Arrived(g);
    forall x | x in g ensures x in f <==> g[x].None? || Landed(g, g[x].value) { LandedAnchor(g, x); }
    assert Children(f, None) == Children(g, None);
    assert g.Keys * f.Keys == f.Keys;
    WalkRestrict(f, g, g.Keys, Children(g, None));
  }

  lemma {:induction false} WalkWithin(g: Anchors, open: set<OpId>, sibs: set<OpId>)
    requires sibs <= open
    ensures forall t :: 0 <= t < |Walk(g, open, sibs)| ==> Walk(g, open, sibs)[t] in open
    decreases open, |sibs|
  {
    if sibs != {} {
      var m := Greatest(sibs);
      WalkWithin(g, open - {m}, Children(g, Some(m)) * (open - {m}));
      WalkWithin(g, open, sibs - {m});
      assert Greatest(sibs) == m;
    }
  }
}
