/** The order of a collaborative text as the engine keeps it: a flat sequence and
    a scan, with no forest in sight. This module finds the invariant of that scan
    and proves that it leaves no choice (core/crdt/src/text.rs). */
module TextOrder {
  import opened Core

  /** Which character each character was inserted after; `None` is the start. */
  type Anchors = map<OpId, Option<OpId>>

  /** Every character is younger than its anchor. */
  ghost predicate Anchored(f: Anchors) {
    forall x :: x in f && f[x].Some? ==> Less(f[x].value, x)
  }

  /** Moreover every anchor is itself in the forest. */
  ghost predicate Rooted(f: Anchors) {
    forall x :: x in f && f[x].Some? ==> f[x].value in f && Less(f[x].value, x)
  }

  lemma {:induction false} GreatestExists(s: set<OpId>)
    requires s != {}
    ensures exists m :: m in s && forall x :: x in s ==> LessEq(x, m)
    decreases |s|
  {
    var y :| y in s;
    if s != {y} {
      GreatestExists(s - {y});
      var m :| m in s - {y} && forall x :: x in s - {y} ==> LessEq(x, m);
      var g := if Less(m, y) then y else m;
      forall x | x in s ensures LessEq(x, g) {
        if x != y { assert x in s - {y}; }
      }
    }
  }

  ghost function Greatest(s: set<OpId>): (m: OpId)
    requires s != {}
    ensures m in s && forall x :: x in s ==> LessEq(x, m)
  {
    GreatestExists(s);
    var m :| m in s && forall x :: x in s ==> LessEq(x, m);
    m
  }

  // ----- The flat scan -----

  /** First position at or after `k` whose identity is not greater than `x`. */
  function Scan(ids: seq<OpId>, k: nat, x: OpId): (r: nat)
    requires k <= |ids|
    ensures k <= r <= |ids|
    ensures forall i :: k <= i < r ==> Less(x, ids[i])
    ensures r < |ids| ==> !Less(x, ids[r])
    decreases |ids| - k
  {
    if k < |ids| && Less(x, ids[k]) then Scan(ids, k + 1, x) else k
  }

  /** Where the scan for `x` starts: just after its anchor, or at the front. */
  function StartAfter(ids: seq<OpId>, a: Option<OpId>): (r: nat)
    requires a.Some? ==> a.value in ids
    ensures r <= |ids|
    ensures a.None? ==> r == 0
    ensures a.Some? ==> r > 0 && ids[r - 1] == a.value
  {
    match a
    case None => 0
    case Some(p) => IndexOf(ids, p) + 1
  }

  function IndexOf(ids: seq<OpId>, p: OpId): (r: nat)
    requires p in ids
    ensures r < |ids| && ids[r] == p
  {
    if ids[0] == p then 0 else 1 + IndexOf(ids[1..], p)
  }

  /** The flat insertion rule. */
  function Place(ids: seq<OpId>, a: Option<OpId>, x: OpId): (r: nat)
    requires a.Some? ==> a.value in ids
    ensures r <= |ids|
  {
    Scan(ids, StartAfter(ids, a), x)
  }

  // ----- What it preserves: everyone hangs under the nearest smaller identity on the left -----

  /** Position `i` is the last before `t` whose identity is not greater than `x`,
      or -1 when there is none. */
  ghost predicate IsLeft(s: seq<OpId>, t: nat, x: OpId, i: int)
    requires t <= |s|
  {
    && -1 <= i < t
    && (i >= 0 ==> !Less(x, s[i]))
    && forall u :: i < u < t ==> Less(x, s[u])
  }

  lemma {:induction false} LeftExists(s: seq<OpId>, t: nat, x: OpId)
    requires t <= |s|
    ensures exists i :: IsLeft(s, t, x, i)
  {
    if t == 0 {
      assert IsLeft(s, t, x, -1);
    } else if Less(x, s[t - 1]) {
      LeftExists(s, t - 1, x);
      var i :| IsLeft(s, t - 1, x, i);
      assert IsLeft(s, t, x, i);
    } else {
      assert IsLeft(s, t, x, t - 1);
    }
  }

  ghost function Left(s: seq<OpId>, t: nat, x: OpId): (i: int)
    requires t <= |s|
    ensures IsLeft(s, t, x, i)
  {
    LeftExists(s, t, x);
    var i :| IsLeft(s, t, x, i);
    i
  }

  ghost function At(s: seq<OpId>, i: int): Option<OpId>
    requires -1 <= i < |s|
  {
    if i == -1 then None else Some(s[i])
  }

  /** In `s`, the anchor of every identity is the nearest smaller one on its left. */
  ghost predicate NearestSmaller(s: seq<OpId>, f: Anchors) {
    forall t :: 0 <= t < |s| ==> NearestAt(s, f, t)
  }

  ghost predicate NearestAt(s: seq<OpId>, f: Anchors, t: nat)
    requires t < |s|
  {
    s[t] in f && f[s[t]] == At(s, Left(s, t, s[t]))
  }

  /** `Left` is determined by what it promises. */
  lemma LeftIs(s: seq<OpId>, t: nat, x: OpId, i: int)
    requires t <= |s| && IsLeft(s, t, x, i)
    ensures Left(s, t, x) == i
  {
    var l := Left(s, t, x);
    assert !(l < i) && !(i < l);
  }

  /** The anchor an insertion gets in the flat sequence: walk up from the named
      anchor to the first identity smaller than `x`. */
  ghost function Climb(f: Anchors, a: Option<OpId>, x: OpId): (r: Option<OpId>)
    requires Rooted(f) && (a.Some? ==> a.value in f)
    ensures r.Some? ==> r.value in f && Less(r.value, x)
    ensures a.Some? && Less(a.value, x) ==> r == a
    decreases UpTo(f, a)
  {
    if a.None? || Less(a.value, x) then a else
      UpToShrinks(f, a.value);
      Climb(f, f[a.value], x)
  }

  /** Identities at or below `a`; it shrinks on the way up. */
  ghost function UpTo(f: Anchors, a: Option<OpId>): set<OpId> {
    set y | y in f && a.Some? && LessEq(y, a.value)
  }

  lemma UpToShrinks(f: Anchors, x: OpId)
    requires Rooted(f) && x in f
    ensures UpTo(f, f[x]) < UpTo(f, Some(x))
  {
    assert x in UpTo(f, Some(x)) && x !in UpTo(f, f[x]);
  }

  /** Climbing from position `i` ends at the nearest identity left of `k` that
      is smaller than `x`. */
  lemma {:induction false} ClimbIsLeft(s: seq<OpId>, f: Anchors, i: int, k: nat, x: OpId)
    requires Rooted(f) && NearestSmaller(s, f) && x !in s
    requires -1 <= i < k <= |s| || (i == -1 && k == 0)
    requires forall u :: i < u < k ==> Less(x, s[u])
    ensures i >= 0 ==> s[i] in f
    ensures Climb(f, At(s, i), x) == At(s, Left(s, k, x))
    decreases i
  {
    assert i >= 0 ==> NearestAt(s, f, i);
    if i == -1 || Less(s[i], x) {
      LeftIs(s, k, x, i);
    } else {
      assert NearestAt(s, f, i);
      ClimbIsLeft(s, f, Left(s, i, s[i]), k, x);
    }
  }

  /** An insertion at a scan stop moves nobody's nearest smaller identity. */
  lemma LeftAfterInsert(s: seq<OpId>, k: nat, x: OpId, t: nat)
    requires k <= |s| && t < |s| + 1
    requires k < |s| ==> Less(s[k], x)
    ensures var s' := InsertAt(s, k, x);
      At(s', Left(s', t, s'[t])) == if t <= k then At(s, Left(s, t, s'[t])) else At(s, Left(s, t - 1, s[t - 1]))
  {
    var s' := InsertAt(s, k, x);
    assert Shifted(s, s', k);
    if t <= k {
      LeftIs(s', t, s'[t], Left(s, t, s'[t]));
    } else {
      LeftPastInsert(s, s', k, x, t - 1);
    }
  }

  /** Everything from position `k` on has moved right by one. */
  ghost predicate Shifted(s: seq<OpId>, s': seq<OpId>, k: nat) {
    && k <= |s| && |s'| == |s| + 1
    && (forall u :: 0 <= u < k ==> s'[u] == s[u])
    && (forall u :: k < u <= |s| ==> s'[u] == s[u - 1])
  }

  lemma LeftPastInsert(s: seq<OpId>, s': seq<OpId>, k: nat, x: OpId, t: nat)
    requires k <= t < |s| && Shifted(s, s', k) && s'[k] == x
    requires Less(s[k], x)
    ensures At(s', Left(s', t + 1, s[t])) == At(s, Left(s, t, s[t]))
  {
    var y := s[t];
    var i := Left(s, t, y);
    if i < k {
      assert LessEq(y, s[k]);
      forall u | i < u < t + 1 ensures Less(y, s'[u]) {
        if u > k { assert Less(y, s[u - 1]); }
      }
      LeftIs(s', t + 1, y, i);
    } else {
      forall u | i + 1 < u < t + 1 ensures Less(y, s'[u]) { assert Less(y, s[u - 1]); }
      LeftIs(s', t + 1, y, i + 1);
    }
  }

  /** One flat insertion keeps the characterisation, whatever the anchor is. */
  lemma PlaceKeepsNearest(s: seq<OpId>, f: Anchors, a: Option<OpId>, x: OpId)
    requires Rooted(f) && NearestSmaller(s, f) && Elements(s) == f.Keys && x !in f
    requires a.Some? ==> a.value in s
    ensures a.Some? ==> a.value in f
    ensures var f' := f[x := Climb(f, a, x)];
      Rooted(f') && NearestSmaller(InsertAt(s, Place(s, a, x), x), f')
  {
    assert a.Some? ==> a.value in Elements(s);
    var f' := f[x := Climb(f, a, x)];
    var k := Place(s, a, x);
    var s' := InsertAt(s, k, x);
    ClimbIsLeft(s, f, StartAfter(s, a) - 1, k, x);
    assert k < |s| ==> s[k] in Elements(s);
    forall t | 0 <= t < |s'| ensures NearestAt(s', f', t) {
      LeftAfterInsert(s, k, x, t);
      if t != k { assert NearestAt(s, f, if t < k then t else t - 1); }
    }
  }

  /** The characterisation leaves no room for repetition. */
  lemma {:induction false} NearestNoRepeat(s: seq<OpId>, f: Anchors, t1: nat, t2: nat)
    requires Rooted(f) && NearestSmaller(s, f)
    requires t1 < t2 < |s|
    ensures s[t1] != s[t2]
    decreases t2
  {
    if s[t1] == s[t2] {
      assert NearestAt(s, f, t1) && NearestAt(s, f, t2);
      var i1, i2 := Left(s, t1, s[t1]), Left(s, t2, s[t2]);
      assert i2 > t1;
      NearestNoRepeat(s, f, i1, i2);
    }
  }

  lemma NearestNoDuplicates(s: seq<OpId>, f: Anchors)
    requires Rooted(f) && NearestSmaller(s, f)
    ensures NoDuplicates(s)
  {
    forall i, j | 0 <= i < j < |s| ensures Differ(s, i, j) { NearestNoRepeat(s, f, i, j); }
  }

  /** Taking out the greatest identity keeps the characterisation; it stood
      right after its anchor. */
  lemma DropGreatest(s: seq<OpId>, f: Anchors, z: OpId) returns (j: nat)
    requires Rooted(f) && NearestSmaller(s, f) && Elements(s) == f.Keys
    requires z in f && forall x :: x in f ==> LessEq(x, z)
    ensures j < |s| && s[j] == z
    ensures f[z] == At(s, j - 1)
    ensures NearestSmaller(RemoveAt(s, j), f - {z})
    ensures Elements(RemoveAt(s, j)) == (f - {z}).Keys
    ensures Rooted(f - {z})
  {
    NearestNoDuplicates(s, f);
    assert z in Elements(s);
    j :| 0 <= j < |s| && s[j] == z;
    assert j > 0 ==> s[j - 1] in Elements(s);
    LeftIs(s, j, z, j - 1);
    assert NearestAt(s, f, j);
    var s', f' := RemoveAt(s, j), f - {z};
    forall t | 0 <= t < |s'| ensures NearestAt(s', f', t) {
      var t' := if t < j then t else t + 1;
      assert s'[t] == s[t'] && NearestAt(s, f, t') && s[t'] in Elements(s);
      assert s[t'] != z by { assert if t' < j then Differ(s, t', j) else Differ(s, j, t'); }
      var i := Left(s, t', s[t']);
      assert i != j;
      LeftIs(s', t, s'[t], if i < j then i else i - 1);
    }
    RemovedElements(s, j);
  }

  lemma RemovedElements(s: seq<OpId>, j: nat)
    requires NoDuplicates(s) && j < |s|
    ensures Elements(RemoveAt(s, j)) == Elements(s) - {s[j]}
  {
    var s' := RemoveAt(s, j);
    forall x | x in Elements(s) - {s[j]} ensures x in s' {
      var t :| 0 <= t < |s| && s[t] == x;
      assert s'[if t < j then t else t - 1] == x;
    }
    forall t | 0 <= t < |s'| ensures s'[t] != s[j] {
      if t < j { assert Differ(s, t, j); } else { assert Differ(s, j, t + 1); }
    }
  }

  /** A forest has one sequence of this kind. */
  lemma {:induction false} NearestUnique(s: seq<OpId>, t: seq<OpId>, f: Anchors)
    requires Rooted(f) && NearestSmaller(s, f) && NearestSmaller(t, f)
    requires Elements(s) == f.Keys == Elements(t)
    ensures s == t
    decreases |f|
  {
    if f.Keys == {} {
      EmptyElements(s);
      EmptyElements(t);
    } else {
      var z := Greatest(f.Keys);
      var i := DropGreatest(s, f, z);
      var j := DropGreatest(t, f, z);
      var s', t' := RemoveAt(s, i), RemoveAt(t, j);
      NearestUnique(s', t', f - {z});
      NearestNoDuplicates(s', f - {z});
      SameSlot(s, i, t, j);
    }
  }

  /** A sequence is determined by what is left after removing `z`, and by what
      stood before `z`. */
  lemma SameSlot(s: seq<OpId>, i: nat, t: seq<OpId>, j: nat)
    requires i < |s| && j < |t| && s[i] == t[j] && At(s, i - 1) == At(t, j - 1)
    requires RemoveAt(s, i) == RemoveAt(t, j) && NoDuplicates(RemoveAt(s, i))
    ensures s == t
  {
    var r := RemoveAt(s, i);
    assert i == j by {
      if i > 0 {
        assert r[i - 1] == s[i - 1] && r[j - 1] == t[j - 1];
        SameIndex(r, i - 1, j - 1);
      }
    }
    assert s == r[..i] + [s[i]] + r[i..];
    assert t == r[..i] + [s[i]] + r[i..];
  }
}
