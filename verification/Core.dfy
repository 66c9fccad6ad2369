/** Vocabulary shared by every part of the model: optional values, operation
    identities and their total order. */
module Core {

  datatype Option<+T> = None | Some(value: T)

  /** A 32-byte public key, read as a big-endian number: comparing the numbers
      is comparing the byte arrays. */
  type Author = nat

  /** `(lamport, author)`: the identity of a character and the priority of a
      last-writer-wins operation. */
  datatype OpId = OpId(lamport: nat, author: Author)

  /** The priority that never wins: lamport 0 and an all-zero author. */
  const ZERO_PRIORITY := OpId(0, 0)

  predicate Less(a: OpId, b: OpId) {
    a.lamport < b.lamport || (a.lamport == b.lamport && a.author < b.author)
  }

  /** The order of the pairs read as one number, the lamport above the 256 bits of
      the author. */
  lemma LessIsNumeric(a: OpId, b: OpId, base: nat)
    requires a.author < base && b.author < base
    ensures Less(a, b) <==> a.lamport * base + a.author < b.lamport * base + b.author
  {
    if a.lamport < b.lamport { Ahead(a.lamport, b.lamport, base); }
    if a.lamport > b.lamport { Ahead(b.lamport, a.lamport, base); }
  }

  lemma {:induction false} Ahead(m: nat, n: nat, base: nat)
    requires m < n
    ensures m * base + base <= n * base
  {
    if m + 1 < n { Ahead(m, n - 1, base); }
    assert n * base == (n - 1) * base + base;
  }

  predicate LessEq(a: OpId, b: OpId) {
    a == b || Less(a, b)
  }

  function Min(a: int, b: int): int {
    if a <= b then a else b
  }

  function Max(a: int, b: int): int {
    if a <= b then b else a
  }

  /** The elements of a sequence. */
  ghost function Elements<T>(s: seq<T>): set<T> {
    set x | x in s
  }

  lemma EmptyElements<T>(s: seq<T>)
    ensures Elements(s) == {} <==> s == []
  {
    if s != [] { assert s[0] in Elements(s); }
  }

  ghost predicate NoDuplicates<T>(s: seq<T>) {
    forall i, j :: 0 <= i < j < |s| ==> Differ(s, i, j)
  }

  ghost predicate Differ<T>(s: seq<T>, i: nat, j: nat)
    requires i < j < |s|
  {
    s[i] != s[j]
  }

  lemma SameIndex<T>(s: seq<T>, i: nat, j: nat)
    requires NoDuplicates(s) && i < |s| && j < |s| && s[i] == s[j]
    ensures i == j
  {
    assert !(i < j && Differ(s, i, j)) && !(j < i && Differ(s, j, i));
  }

  lemma PushNew<T>(s: seq<T>, x: T)
    requires NoDuplicates(s) && x !in s
    ensures NoDuplicates(s + [x]) && Elements(s + [x]) == Elements(s) + {x}
  {
    forall i, j | 0 <= i < j < |s + [x]| ensures Differ(s + [x], i, j) { if j < |s| { assert Differ(s, i, j); } }
  }

  lemma NoDuplicatesConcat<T>(a: seq<T>, b: seq<T>)
    requires NoDuplicates(a) && NoDuplicates(b) && forall x :: x in a ==> x !in b
    ensures NoDuplicates(a + b)
  {
    forall i, j | 0 <= i < j < |a + b| ensures Differ(a + b, i, j) {
      if j < |a| {
        assert Differ(a, i, j);
      } else if i >= |a| {
        assert Differ(b, i - |a|, j - |a|);
      } else {
        assert a[i] in a && b[j - |a|] in b;
      }
    }
  }

  lemma LastOfConcat<T>(a: seq<T>, b: seq<T>)
    requires b != []
    ensures (a + b)[..|a + b| - 1] == a + b[..|b| - 1]
    ensures (a + b)[|a + b| - 1] == b[|b| - 1]
  {
  }

  /** Put `x` before position `k`. */
  function InsertAt<T>(s: seq<T>, k: nat, x: T): (r: seq<T>)
    requires k <= |s|
  {
    s[..k] + [x] + s[k..]
  }

  lemma ElementsSnoc<T>(s: seq<T>, x: T)
    ensures Elements(s + [x]) == Elements(s) + {x}
  {
  }

  lemma InsertElements<T>(s: seq<T>, k: nat, x: T)
    requires k <= |s|
    ensures Elements(InsertAt(s, k, x)) == Elements(s) + {x}
  {
    var t := InsertAt(s, k, x);
    forall y ensures y in t <==> y in s || y == x {
      if y in s {
        var i :| 0 <= i < |s| && s[i] == y;
        assert t[if i < k then i else i + 1] == y;
      }
      if y == x { assert t[k] == y; }
    }
  }

  lemma InsertMultiset<T>(s: seq<T>, k: nat, x: T)
    requires k <= |s|
    ensures multiset(InsertAt(s, k, x)) == multiset(s) + multiset{x}
  {
    assert s == s[..k] + s[k..];
  }

  /** Take out position `k`. */
  function RemoveAt<T>(s: seq<T>, k: nat): (r: seq<T>)
    requires k < |s|
  {
    s[..k] + s[k + 1..]
  }

  /** Position `k` brought to the front: the same elements in another order. */
  lemma FrontMultiset<T>(s: seq<T>, k: nat)
    requires k < |s|
    ensures multiset([s[k]] + RemoveAt(s, k)) == multiset(s)
  {
    assert s == s[..k] + [s[k]] + s[k + 1..];
  }

  lemma SameMembers<T>(a: seq<T>, b: seq<T>)
    requires multiset(a) == multiset(b)
    ensures Elements(a) == Elements(b)
  {
    forall x ensures x in a <==> x in b { assert x in multiset(a) <==> x in multiset(b); }
  }

  lemma SubsetSize<T>(a: set<T>, b: set<T>)
    requires a <= b
    ensures |a| <= |b|
  {
    assert b == a + (b - a);
  }

  /** A duplicate-free sequence has as many positions as elements. */
  lemma {:induction false} NoDuplicatesSize<T>(s: seq<T>)
    requires NoDuplicates(s)
    ensures |Elements(s)| == |s|
  {
    if s != [] {
      var n := |s| - 1;
      forall i, j | 0 <= i < j < n ensures Differ(s[..n], i, j) { assert Differ(s, i, j); }
      NoDuplicatesSize(s[..n]);
      assert Elements(s) == Elements(s[..n]) + {s[n]} by {
        assert s == s[..n] + [s[n]];
      }
      forall i | 0 <= i < n ensures s[i] != s[n] { assert Differ(s, i, n); }
    }
  }

  /** Conversely, so many different elements leave no room for a duplicate. */
  lemma {:induction false} SizeNoDuplicates<T>(s: seq<T>)
    ensures |Elements(s)| <= |s|
    ensures |Elements(s)| == |s| ==> NoDuplicates(s)
  {
    if s != [] {
      var n := |s| - 1;
      var init := s[..n];
      SizeNoDuplicates(init);
      ElementsSnoc(init, s[n]);
      assert s == init + [s[n]];
      if |Elements(s)| == |s| { PushNew(init, s[n]); }
    }
  }
}
