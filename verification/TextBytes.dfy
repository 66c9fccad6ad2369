/** The visible text of an item sequence: which items show, and their UTF-8
    bytes (core/crdt/src/text.rs). */
module TextBytes {
  import opened Core
  import opened TextHistory

  type Byte = b: nat | b < 256

  /** The UTF-8 form of one character. */
  function Utf8(c: char): (r: seq<Byte>)
    ensures |r| == LenUtf8(c)
  {
    seq(LenUtf8(c), i requires 0 <= i < LenUtf8(c) => Utf8Byte(c as int, LenUtf8(c), i))
  }

  /** Byte `i` of an `n`-byte sequence: a length mark, then six bits a byte. */
  function Utf8Byte(v: nat, n: nat, i: nat): Byte
    requires v < 0x110000 && 1 <= n <= 4 && i < n
    requires (n == 1 ==> v < 0x80) && (n == 2 ==> v < 0x800) && (n == 3 ==> v < 0x10000)
  {
    if n == 1 then v
    else if i == n - 1 then 0x80 + v % 64
    else if i == n - 2 && i > 0 then 0x80 + v / 64 % 64
    else if i == n - 3 && i > 0 then 0x80 + v / 4096 % 64
    else if n == 2 then 0xC0 + v / 64
    else if n == 3 then 0xE0 + v / 4096
    else 0xF0 + v / 262144
  }

  function LenUtf8(c: char): (r: nat)
    ensures 1 <= r <= 4
  {
    var v := c as int;
    if v < 0x80 then 1 else if v < 0x800 then 2 else if v < 0x10000 then 3 else 4
  }

  /** The items that are not tombstones. */
  ghost function Visible(items: seq<Item>): (r: seq<Item>)
    ensures |r| <= |items|
  {
    VisibleTo(items, |items|)
  }

  /** Those among the first `k` items. */
  ghost function VisibleTo(items: seq<Item>, k: nat): (r: seq<Item>)
    requires k <= |items|
    ensures |r| <= k
  {
    if k == 0 then [] else VisibleTo(items, k - 1) + (if items[k - 1].deleted then [] else [items[k - 1]])
  }

  /** The visible text as bytes. */
  ghost function Encode(items: seq<Item>): (r: seq<Byte>)
    ensures |r| <= 4 * |items|
  {
    EncodeTo(items, |items|)
  }

  /** The bytes of the first `k` items. */
  ghost function EncodeTo(items: seq<Item>, k: nat): (r: seq<Byte>)
    requires k <= |items|
    ensures |r| <= 4 * k
  {
    if k == 0 then [] else EncodeTo(items, k - 1) + (if items[k - 1].deleted then [] else Utf8(items[k - 1].ch))
  }

  lemma {:induction false} TakeVisible(items: seq<Item>, n: nat, k: nat)
    requires k <= n <= |items|
    ensures VisibleTo(items[..n], k) == VisibleTo(items, k)
    ensures EncodeTo(items[..n], k) == EncodeTo(items, k)
  {
    if k > 0 { TakeVisible(items, n, k - 1); }
  }

  /** The last item of a sequence adds itself, if it is visible. */
  lemma VisibleSnoc(items: seq<Item>)
    requires items != []
    ensures var n := |items| - 1;
      && Visible(items) == Visible(items[..n]) + (if items[n].deleted then [] else [items[n]])
      && Encode(items) == Encode(items[..n]) + (if items[n].deleted then [] else Utf8(items[n].ch))
  {
    TakeVisible(items, |items| - 1, |items| - 1);
  }

  /** One more item of a prefix. */
  lemma VisibleStep(items: seq<Item>, k: nat)
    requires k < |items|
    ensures Visible(items[..k + 1]) == Visible(items[..k]) + (if items[k].deleted then [] else [items[k]])
    ensures Encode(items[..k + 1]) == Encode(items[..k]) + (if items[k].deleted then [] else Utf8(items[k].ch))
  {
    assert items[..k + 1][..k] == items[..k];
    VisibleSnoc(items[..k + 1]);
  }

  lemma VisibleConcat(a: seq<Item>, b: seq<Item>)
    ensures Visible(a + b) == Visible(a) + Visible(b)
    ensures Encode(a + b) == Encode(a) + Encode(b)
  {
    VisibleAppend(a, b);
    EncodeAppend(a, b);
  }

  lemma {:induction false} VisibleAppend(a: seq<Item>, b: seq<Item>)
    ensures Visible(a + b) == Visible(a) + Visible(b)
  {
    if b == [] {
      assert a + b == a;
    } else {
      var n := |b| - 1;
      VisibleAppend(a, b[..n]);
      LastOfConcat(a, b);
      VisibleSnoc(a + b);
      VisibleSnoc(b);
    }
  }

  lemma {:induction false} EncodeAppend(a: seq<Item>, b: seq<Item>)
    ensures Encode(a + b) == Encode(a) + Encode(b)
  {
    if b == [] {
      assert a + b == a;
    } else {
      var n := |b| - 1;
      EncodeAppend(a, b[..n]);
      LastOfConcat(a, b);
      VisibleSnoc(a + b);
      VisibleSnoc(b);
    }
  }

  lemma VisibleOne(x: Item)
    ensures Visible([x]) == if x.deleted then [] else [x]
    ensures Encode([x]) == if x.deleted then [] else Utf8(x.ch)
  {
    VisibleSnoc([x]);
  }

  /** What visible text looks like around one item. */
  lemma VisibleAround(a: seq<Item>, x: Item, b: seq<Item>)
    ensures Visible(a + [x] + b) == Visible(a) + (if x.deleted then [] else [x]) + Visible(b)
    ensures Encode(a + [x] + b) == Encode(a) + (if x.deleted then [] else Utf8(x.ch)) + Encode(b)
  {
    VisibleConcat(a + [x], b);
    VisibleConcat(a, [x]);
    VisibleOne(x);
  }

  /** A visible item and its place among the visible ones. */
  lemma VisibleAt(items: seq<Item>, k: nat)
    requires k < |items| && !items[k].deleted
    ensures |Visible(items[..k])| < |Visible(items)|
    ensures Visible(items)[|Visible(items[..k])|] == items[k]
  {
    UpdateAround(items, k, items[k]);
    VisibleAround(items[..k], items[k], items[k + 1..]);
  }

  /** The bytes of a sequence are those of its visible items. */
  lemma {:induction false} EncodeVisible(items: seq<Item>)
    ensures Encode(Visible(items)) == Encode(items)
  {
    if items != [] {
      var n := |items| - 1;
      VisibleSnoc(items);
      EncodeVisible(items[..n]);
      EncodeAppend(Visible(items[..n]), if items[n].deleted then [] else [items[n]]);
      VisibleOne(items[n]);
    }
  }

  /** Cutting a sequence at `k` cuts its visible items and its bytes. */
  lemma VisibleCut(items: seq<Item>, k: nat)
    requires k <= |items|
    ensures Visible(items) == Visible(items[..k]) + Visible(items[k..])
    ensures Encode(items) == Encode(items[..k]) + Encode(items[k..])
  {
    assert items == items[..k] + items[k..];
    VisibleConcat(items[..k], items[k..]);
  }

  lemma UpdateAround<T>(s: seq<T>, j: nat, y: T)
    requires j < |s|
    ensures s[j := y] == s[..j] + [y] + s[j + 1..]
    ensures y == s[j] ==> s[j := y] == s
  {
  }
}
