/** The canonical encoding of a resolved map that its fingerprint is taken of:
    length-prefixed entries in key order (core/crdt/src/replay.rs). */
module Canonical {
  import opened Core
  import opened Nodes
  import opened FracIndex
  import opened TextBytes
  import opened Policy

  type Entry = (string, Bytes)

  // ----- Entries in key order -----

  ghost predicate KeysAscend(es: seq<Entry>) {
    forall i, j :: 0 <= i < j < |es| ==> Before(es[i].0, es[j].0)
  }

  /** `es` lists the map in key order. */
  ghost predicate Lists(es: seq<Entry>, m: map<string, Bytes>) {
    KeysAscend(es) && Elements(es) == m.Items
  }

  lemma {:induction false} AscendingUnique(a: seq<Entry>, b: seq<Entry>)
    requires KeysAscend(a) && KeysAscend(b) && Elements(a) == Elements(b)
    ensures a == b
  {
    EmptyElements(a);
    EmptyElements(b);
    if a != [] {
      assert a[0] in Elements(b) && b[0] in Elements(a);
      SameFirst(a, b);
      RestElements(a);
      RestElements(b);
      AscendingUnique(a[1..], b[1..]);
      assert a == [a[0]] + a[1..] && b == [b[0]] + b[1..];
    }
  }

  lemma SameFirst(a: seq<Entry>, b: seq<Entry>)
    requires a != [] && b != [] && KeysAscend(a) && KeysAscend(b) && a[0] in b && b[0] in a
    ensures a[0] == b[0]
  {
    var i :| 0 <= i < |b| && b[i] == a[0];
    var j :| 0 <= j < |a| && a[j] == b[0];
    if i > 0 && j > 0 { BeforeAsymmetric(a[0].0, b[0].0); }
  }

  lemma RestElements(a: seq<Entry>)
    requires KeysAscend(a) && a != []
    ensures KeysAscend(a[1..]) && Elements(a[1..]) == Elements(a) - {a[0]}
  {
    var t := a[1..];
    forall p | p in Elements(a) - {a[0]} ensures p in t {
      var i :| 0 <= i < |a| && a[i] == p;
      assert t[i - 1] == p;
    }
    forall i | 0 <= i < |t| ensures t[i] != a[0] {
      assert Before(a[0].0, a[i + 1].0);
      BeforeAsymmetric(a[0].0, a[i + 1].0);
    }
  }

  // ----- The bytes -----

  /** A length as four bytes, least significant first. */
  function Le32(n: nat): (r: seq<nat>)
    ensures |r| == 4
  {
    [n % 256, n / 256 % 256, n / 65536 % 256, n / 16777216 % 256]
  }

  function EntryBytes(e: Entry): seq<nat> {
    var key := Widen(KeyBytes(e.0));
    Le32(|key|) + key + Le32(|e.1|) + e.1
  }

  function Widen(bs: seq<Byte>): (r: seq<nat>)
    ensures |r| == |bs|
  {
    seq(|bs|, i requires 0 <= i < |bs| => bs[i] as nat)
  }

  function Encoded(es: seq<Entry>): seq<nat> {
    if es == [] then [] else EntryBytes(es[0]) + Encoded(es[1..])
  }

  /** Lengths that the four-byte prefix can hold. */
  ghost predicate Fits32(e: Entry) {
    |KeyBytes(e.0)| < 0x1_0000_0000 && |e.1| < 0x1_0000_0000
  }

  lemma Le32Injective(n: nat, m: nat)
    requires n < 0x1_0000_0000 && m < 0x1_0000_0000 && Le32(n) == Le32(m)
    ensures n == m
  {
    Le32Value(n);
    Le32Value(m);
  }

  lemma Le32Value(n: nat)
    requires n < 0x1_0000_0000
    ensures var b := Le32(n); n == b[0] + 256 * b[1] + 65536 * b[2] + 16777216 * b[3]
  {
    assert n == n % 256 + 256 * (n / 256);
    assert n / 256 == n / 256 % 256 + 256 * (n / 65536);
    assert n / 65536 == n / 65536 % 256 + 256 * (n / 16777216);
  }

  // ----- UTF-8 keeps keys apart -----

  /** The first byte tells the length. */
  lemma LeadByte(c: char)
    ensures var b, n := Utf8(c)[0], LenUtf8(c);
      && (n == 1 <==> b < 0x80) && (n == 2 <==> 0xC0 <= b < 0xE0) && (n == 3 <==> 0xE0 <= b < 0xF0)
      && (n == 4 <==> 0xF0 <= b)
  {
    var v, n := c as int, LenUtf8(c);
    assert Utf8(c)[0] == Utf8Byte(v, n, 0);
  }

  function Over(b: Byte, mark: nat): int {
    b as int - mark
  }

  /** The bytes give the character back. */
  lemma Utf8Value(c: char)
    ensures var b, n := Utf8(c), LenUtf8(c);
      c as int ==
        if n == 1 then b[0]
        else if n == 2 then Over(b[0], 0xC0) * 64 + Over(b[1], 0x80)
        else if n == 3 then Over(b[0], 0xE0) * 4096 + Over(b[1], 0x80) * 64 + Over(b[2], 0x80)
        else Over(b[0], 0xF0) * 262144 + Over(b[1], 0x80) * 4096 + Over(b[2], 0x80) * 64 + Over(b[3], 0x80)
    ensures var v := c as int;
      |Utf8(c)| == if v < 0x80 then 1 else if v < 0x800 then 2 else if v < 0x10000 then 3 else 4
  {
    var v, n, b := c as int, LenUtf8(c), Utf8(c);
    forall i | 0 <= i < n ensures b[i] == Utf8Byte(v, n, i) { }
    SixBits(v);
  }

  lemma SixBits(v: nat)
    ensures v == v / 64 * 64 + v % 64
    ensures v / 64 == v / 4096 * 64 + v / 64 % 64
    ensures v / 4096 == v / 262144 * 64 + v / 4096 % 64
  {
  }

  lemma Utf8Injective(c: char, d: char, x: seq<Byte>, y: seq<Byte>)
    requires Utf8(c) + x == Utf8(d) + y
    ensures c == d && x == y
  {
    LeadByte(c);
    LeadByte(d);
    assert (Utf8(c) + x)[0] == (Utf8(d) + y)[0];
    var n := LenUtf8(c);
    assert (Utf8(c) + x)[..n] == Utf8(c) && (Utf8(d) + y)[..n] == Utf8(d);
    assert (Utf8(c) + x)[n..] == x && (Utf8(d) + y)[n..] == y;
    Utf8Value(c);
    Utf8Value(d);
  }

  lemma {:induction false} KeyBytesInjective(a: string, b: string)
    requires KeyBytes(a) == KeyBytes(b)
    ensures a == b
  {
    KeyBytesEmpty(a);
    KeyBytesEmpty(b);
    if a != [] {
      Utf8Injective(a[0], b[0], KeyBytes(a[1..]), KeyBytes(b[1..]));
      KeyBytesInjective(a[1..], b[1..]);
      assert a == [a[0]] + a[1..] && b == [b[0]] + b[1..];
    }
  }

  lemma KeyBytesEmpty(s: string)
    ensures KeyBytes(s) == [] <==> s == []
  {
    if s != [] { assert |Utf8(s[0])| >= 1; }
  }

  lemma WidenInjective(a: seq<Byte>, b: seq<Byte>)
    requires Widen(a) == Widen(b)
    ensures a == b
  {
    assert |a| == |b|;
    forall i | 0 <= i < |a| ensures a[i] == b[i] { assert Widen(a)[i] == Widen(b)[i]; }
  }

  // ----- The encoding is injective -----

  /** A length-prefixed part can be read off the front. */
  lemma PrefixRead(a: seq<nat>, b: seq<nat>, x: seq<nat>, y: seq<nat>)
    requires |a| < 0x1_0000_0000 && |b| < 0x1_0000_0000
    requires Le32(|a|) + a + x == Le32(|b|) + b + y
    ensures a == b && x == y
  {
    var s, t := Le32(|a|) + a + x, Le32(|b|) + b + y;
    assert s[..4] == Le32(|a|) && t[..4] == Le32(|b|);
    Le32Injective(|a|, |b|);
    assert s[4..4 + |a|] == a && t[4..4 + |b|] == b;
    assert s[4 + |a|..] == x && t[4 + |b|..] == y;
  }

  /** The number four little-endian bytes spell. */
  ghost function Spelled(b: seq<nat>): nat
    requires |b| == 4
  {
    b[0] + 256 * b[1] + 65536 * b[2] + 16777216 * b[3]
  }

  /** The layout of an entry: the length of the key, the key in UTF-8, the length
      of the value, the value. */
  lemma EntryLayout(e: Entry)
    requires Fits32(e)
    ensures var b, k := EntryBytes(e), |KeyBytes(e.0)|;
      && |b| == 8 + k + |e.1|
      && Spelled(b[..4]) == k && (forall i :: 0 <= i < k ==> b[4 + i] == KeyBytes(e.0)[i])
      && Spelled(b[4 + k..8 + k]) == |e.1| && b[8 + k..] == e.1
  {
    var b, key := EntryBytes(e), Widen(KeyBytes(e.0));
    var k := |key|;
    assert b[..4] == Le32(k) && b[4 + k..8 + k] == Le32(|e.1|);
    Le32Value(k);
    Le32Value(|e.1|);
  }

  lemma EntryRead(e: Entry, f: Entry, x: seq<nat>, y: seq<nat>)
    requires Fits32(e) && Fits32(f) && EntryBytes(e) + x == EntryBytes(f) + y
    ensures e == f && x == y
  {
    var k, l := Widen(KeyBytes(e.0)), Widen(KeyBytes(f.0));
    assert EntryBytes(e) + x == Le32(|k|) + k + (Le32(|e.1|) + e.1 + x);
    assert EntryBytes(f) + y == Le32(|l|) + l + (Le32(|f.1|) + f.1 + y);
    PrefixRead(k, l, Le32(|e.1|) + e.1 + x, Le32(|f.1|) + f.1 + y);
    PrefixRead(e.1, f.1, x, y);
    WidenInjective(KeyBytes(e.0), KeyBytes(f.0));
    KeyBytesInjective(e.0, f.0);
  }

  lemma {:induction false} EncodedInjective(a: seq<Entry>, b: seq<Entry>)
    requires (forall i :: 0 <= i < |a| ==> Fits32(a[i])) && (forall i :: 0 <= i < |b| ==> Fits32(b[i]))
    requires Encoded(a) == Encoded(b)
    ensures a == b
  {
    EncodedEmpty(a);
    EncodedEmpty(b);
    if a != [] {
      EntryRead(a[0], b[0], Encoded(a[1..]), Encoded(b[1..]));
      EncodedInjective(a[1..], b[1..]);
      assert a == [a[0]] + a[1..] && b == [b[0]] + b[1..];
    }
  }

  lemma EncodedOne(e: Entry)
    ensures Encoded([e]) == EntryBytes(e)
  {
    assert |[e][1..]| == 0;
  }

  /** The entries follow one another in order. */
  lemma {:induction false} EncodedConcat(a: seq<Entry>, b: seq<Entry>)
    ensures Encoded(a + b) == Encoded(a) + Encoded(b)
  {
    if a == [] {
      assert a + b == b;
    } else {
      EncodedConcat(a[1..], b);
      EncodedCons(a, b, EntryBytes(a[0]), Encoded(a[1..]), Encoded(b));
    }
  }

  lemma EncodedCons(a: seq<Entry>, b: seq<Entry>, e: seq<nat>, s: seq<nat>, t: seq<nat>)
    requires a != [] && e == EntryBytes(a[0]) && s == Encoded(a[1..]) && s + t == Encoded(a[1..] + b)
    ensures Encoded(a + b) == e + s + t
  {
    assert (a + b)[1..] == a[1..] + b && (a + b)[0] == a[0];
    assert e + (s + t) == e + s + t;
  }

  lemma EncodedEmpty(es: seq<Entry>)
    ensures Encoded(es) == [] <==> es == []
  {
    if es != [] { assert |EntryBytes(es[0])| >= 4; }
  }

  /** Different maps have different encodings, and equal maps equal ones. */
  lemma CanonicalIff(m: map<string, Bytes>, m': map<string, Bytes>, es: seq<Entry>, es': seq<Entry>)
    requires Lists(es, m) && Lists(es', m')
    requires (forall i :: 0 <= i < |es| ==> Fits32(es[i])) && (forall i :: 0 <= i < |es'| ==> Fits32(es'[i]))
    ensures Encoded(es) == Encoded(es') <==> m == m'
  {
    if m == m' { AscendingUnique(es, es'); }
    if Encoded(es) == Encoded(es') {
      EncodedInjective(es, es');
      assert m.Items == m'.Items;
      SameItems(m, m');
    }
  }

  lemma SameItems(m: map<string, Bytes>, m': map<string, Bytes>)
    requires m.Items == m'.Items
    ensures m == m'
  {
    forall k | k in m ensures k in m' && m'[k] == m[k] { assert (k, m[k]) in m.Items; }
    forall k | k in m' ensures k in m { assert (k, m'[k]) in m'.Items; }
  }

  // ----- The loop -----

  /** Walk the map in key order and emit each entry. */
  method CanonicalBytes(m: map<string, Bytes>) returns (bytes: seq<nat>)
    ensures exists es :: Lists(es, m) && bytes == Encoded(es)
  {
    var entries: seq<Entry> := [];
    var left := m.Items;
    while left != {}
      invariant KeysAscend(entries) && left <= m.Items && Elements(entries) == m.Items - left
      decreases |left|
    {
      var e :| e in left;
      var i := 0;
      while i < |entries| && Before(entries[i].0, e.0)
        invariant i <= |entries| && forall j :: 0 <= j < i ==> Before(entries[j].0, e.0)
      {
        i := i + 1;
      }
      EntryInsert(m, entries, i, e);
      entries, left := InsertAt(entries, i, e), left - {e};
    }
    bytes := [];
    for i := 0 to |entries|
      invariant bytes + Encoded(entries[i..]) == Encoded(entries)
    {
      assert entries[i..][1..] == entries[i + 1..];
      bytes := bytes + EntryBytes(entries[i]);
    }
    assert bytes + [] == bytes;
    assert Lists(entries, m) && bytes == Encoded(entries);
  }

  lemma EntryInsert(m: map<string, Bytes>, es: seq<Entry>, i: nat, e: Entry)
    requires KeysAscend(es) && i <= |es| && Elements(es) <= m.Items && e in m.Items && e !in es
    requires (forall j :: 0 <= j < i ==> Before(es[j].0, e.0)) && (i < |es| ==> !Before(es[i].0, e.0))
    ensures KeysAscend(InsertAt(es, i, e)) && Elements(InsertAt(es, i, e)) == Elements(es) + {e}
  {
    if i < |es| {
      assert es[i] in Elements(es);
      BeforeTotal(es[i].0, e.0);
    }
    var t := InsertAt(es, i, e);
    forall a, b | 0 <= a < b < |t| ensures Before(t[a].0, t[b].0) {
      if a == i && b > i + 1 { BeforeTransitive(e.0, es[i].0, es[b - 1].0); }
    }
    InsertElements(es, i, e);
  }
}
