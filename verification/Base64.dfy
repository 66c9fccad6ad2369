/** The base64 text the packs travel in, as the bytes of the string (section 4 of
    RFC 4648; clients/bridge-wasm/src/lib.rs). */
module Base64 {
  import opened Core
  import opened TextBytes

  type Six = n: nat | n < 64

  /** The byte `=`. */
  const PAD: Byte := 61

  /** `A` to `Z`, `a` to `z`, `0` to `9`, `+` and `/`. */
  function Symbol(v: Six): Byte {
    if v < 26 then 65 + v
    else if v < 52 then 97 + v - 26
    else if v < 62 then 48 + v - 52
    else if v == 62 then 43 else 47
  }

  /** The value of a symbol; `None` for any other byte. */
  function Value(c: Byte): Option<Six> {
    if 65 <= c <= 90 then Some(c - 65)
    else if 97 <= c <= 122 then Some(c - 97 + 26)
    else if 48 <= c <= 57 then Some(c - 48 + 52)
    else if c == 43 then Some(62) else if c == 47 then Some(63) else None
  }

  const UPPER := "ABCDEFGHIJKLMNOPQRSTUVWXYZ"
  const LOWER := "abcdefghijklmnopqrstuvwxyz"
  const ALPHABET := UPPER + LOWER + "0123456789+/"

  lemma UpperIs(v: nat)
    requires v < 26
    ensures UPPER[v] as int == Symbol(v) && LOWER[v] as int == Symbol(26 + v)
  {
  }

  lemma SymbolIs(v: Six)
    ensures |ALPHABET| == 64 && Symbol(v) == ALPHABET[v] as int
  {
    if v < 26 { UpperIs(v); } else if v < 52 { UpperIs(v - 26); }
  }

  /** The symbols are the 64 of the standard, in its order; `=` is none of them. */
  lemma SymbolsAre(v: Six, c: Byte)
    ensures |ALPHABET| == 64 && Symbol(v) == ALPHABET[v] as int
    ensures Value(c) == Some(v) <==> c == ALPHABET[v] as int
    ensures Value(c).None? <==> forall u :: 0 <= u < 64 ==> c != ALPHABET[u] as int
    ensures PAD == '=' as int && forall u :: 0 <= u < 64 ==> ALPHABET[u] != '='
  {
    forall u | 0 <= u < 64 ensures ALPHABET[u] as int == Symbol(u) { SymbolIs(u); }
    if Value(c).Some? { assert ALPHABET[Value(c).value] as int == c; }
  }

  lemma SymbolValue(v: Six)
    ensures Value(Symbol(v)) == Some(v) && Symbol(v) != PAD
  {
  }

  // ----- Encoding -----

  /** Four symbols for up to three bytes, padded. */
  function EncodeGroup(g: seq<Byte>): (r: seq<Byte>)
    requires 1 <= |g| <= 3
    ensures |r| == 4
  {
    seq(4, i requires 0 <= i < 4 => if i <= |g| then Symbol(Sextet(g, i)) else PAD)
  }

  /** Six bits of the group; missing bytes count as zero. */
  function Sextet(g: seq<Byte>, i: nat): Six
    requires 1 <= |g| <= 3 && i < 4
  {
    var b0: nat, b1: nat, b2: nat := g[0], if |g| > 1 then g[1] else 0, if |g| > 2 then g[2] else 0;
    if i == 0 then b0 / 4
    else if i == 1 then b0 % 4 * 16 + b1 / 16
    else if i == 2 then b1 % 16 * 4 + b2 / 64
    else b2 % 64
  }

  ghost function ByteOr0(g: seq<Byte>, i: nat): nat {
    if i < |g| then g[i] else 0
  }

  /** The four sextets are the base-64 digits of the number the bytes spell. */
  lemma SextetsSpell(g: seq<Byte>)
    requires 1 <= |g| <= 3
    ensures Sextet(g, 0) * 262144 + Sextet(g, 1) * 4096 + Sextet(g, 2) * 64 + Sextet(g, 3) ==
      ByteOr0(g, 0) * 65536 + ByteOr0(g, 1) * 256 + ByteOr0(g, 2)
  {
  }

  function EncodeFrom(data: seq<Byte>, i: nat): seq<Byte>
    requires i <= |data|
    decreases |data| - i
  {
    if i == |data| then [] else
      var j := Min(i + 3, |data|);
      EncodeGroup(data[i..j]) + EncodeFrom(data, j)
  }

  function EncodedLen(n: nat): nat {
    (n + 2) / 3 * 4
  }

  lemma {:induction false} EncodeLength(data: seq<Byte>, i: nat)
    requires i <= |data|
    ensures |EncodeFrom(data, i)| == EncodedLen(|data| - i)
    decreases |data| - i
  {
    if i < |data| {
      EncodeLength(data, Min(i + 3, |data|));
      LengthStep(|data| - i);
    }
  }

  lemma LengthStep(n: nat)
    requires n > 0
    ensures EncodedLen(n) == 4 + EncodedLen(if n < 3 then 0 else n - 3)
  {
    if n >= 3 { assert (n + 2) / 3 == (n - 1) / 3 + 1; }
  }

  lemma {:induction false} EncodedTail(data: seq<Byte>, i: nat, q: nat)
    requires i + 3 * q <= |data|
    ensures 4 * q <= |EncodeFrom(data, i)| && EncodeFrom(data, i)[4 * q..] == EncodeFrom(data, i + 3 * q)
    decreases q
  {
    if q > 0 {
      EncodedTail(data, i + 3, q - 1);
      var s, g, t := EncodeFrom(data, i), EncodeGroup(data[i..i + 3]), EncodeFrom(data, i + 3);
      assert s == g + t;
      TailAfter(g, t, 4 * (q - 1));
    }
  }

  lemma TailAfter(g: seq<Byte>, t: seq<Byte>, n: nat)
    requires |g| == 4 && n <= |t|
    ensures (g + t)[4 + n..] == t[n..]
  {
  }

  /** Group `q` of the text is that of the three bytes from `3 * q` on. */
  lemma EncodedAt(data: seq<Byte>, q: nat)
    requires 3 * q < |data|
    ensures var s := EncodeFrom(data, 0);
      4 * q + 4 <= |s| && s[4 * q..][..4] == EncodeGroup(data[3 * q..Min(3 * q + 3, |data|)])
  {
    EncodedTail(data, 0, q);
  }

  method Encode(data: seq<Byte>) returns (out: seq<Byte>)
    ensures out == EncodeFrom(data, 0) && |out| == EncodedLen(|data|)
  {
    out := [];
    var i := 0;
    while i < |data|
      invariant i <= |data| && out + EncodeFrom(data, i) == EncodeFrom(data, 0)
    {
      var j := Min(i + 3, |data|);
      var g := EncodeGroup(data[i..j]);
      assert out + (g + EncodeFrom(data, j)) == out + g + EncodeFrom(data, j);
      out := out + g;
      i := j;
    }
    assert out + [] == out;
    EncodeLength(data, 0);
  }

  // ----- Decoding -----

  function FirstByte(v0: Six, v1: Six): Byte {
    v0 * 4 + v1 / 16
  }

  function SecondByte(v1: Six, v2: Six): Byte {
    v1 * 16 % 256 + v2 / 4
  }

  function ThirdByte(v2: Six, v3: Six): Byte {
    v2 * 64 % 256 + v3
  }

  /** One group of up to four symbols: its bytes, or `None` on a bad symbol. */
  function DecodeGroup(c0: Byte, c1: Byte, c2: Byte, c3: Byte): Option<seq<Byte>> {
    var v0, v1 := Value(c0), Value(c1);
    if v0.None? || v1.None? then None
    else
      var first := FirstByte(v0.value, v1.value);
      if c2 == PAD then Some([first])
      else
        var v2 := Value(c2);
        if v2.None? then None
        else
          var second := SecondByte(v1.value, v2.value);
          if c3 == PAD then Some([first, second])
          else
            var v3 := Value(c3);
            if v3.None? then None else Some([first, second, ThirdByte(v2.value, v3.value)])
  }

  function At(s: seq<Byte>, i: nat): Byte {
    if i < |s| then s[i] else PAD
  }

  function DecodeFrom(s: seq<Byte>, i: nat): Option<seq<Byte>>
    decreases |s| - i
  {
    if i >= |s| then Some([])
    else if i + 1 >= |s| then None
    else if s[i] == PAD then Some([])
    else
      var g, rest := DecodeGroup(s[i], s[i + 1], At(s, i + 2), At(s, i + 3)), DecodeFrom(s, i + 4);
      if g.None? || rest.None? then None else Some(g.value + rest.value)
  }

  method Decode(s: seq<Byte>) returns (r: Option<seq<Byte>>)
    ensures r == DecodeFrom(s, 0)
  {
    var out: seq<Byte> := [];
    var i := 0;
    PrependNothing(DecodeFrom(s, 0));
    while i < |s|
      invariant DecodeFrom(s, 0) == Prepend(out, DecodeFrom(s, i))
      decreases |s| - i
    {
      if i + 1 >= |s| { return None; }
      if s[i] == PAD { break; }
      var g := DecodeGroup(s[i], s[i + 1], At(s, i + 2), At(s, i + 3));
      if g.None? { return None; }
      PrependMore(out, g.value, DecodeFrom(s, i + 4));
      out := out + g.value;
      i := i + 4;
    }
    assert out + [] == out;
    return Some(out);
  }

  function Prepend(out: seq<Byte>, r: Option<seq<Byte>>): Option<seq<Byte>> {
    if r.None? then None else Some(out + r.value)
  }

  lemma PrependNothing(r: Option<seq<Byte>>)
    ensures Prepend([], r) == r
  {
    if r.Some? { assert [] + r.value == r.value; }
  }

  lemma PrependMore(out: seq<Byte>, g: seq<Byte>, r: Option<seq<Byte>>)
    ensures Prepend(out, Prepend(g, r)) == Prepend(out + g, r)
  {
    if r.Some? { assert out + (g + r.value) == out + g + r.value; }
  }

  // ----- The round trip -----

  /** Splitting three bytes into four times six bits and back. */
  lemma Repack(b0: nat, b1: nat, b2: nat)
    requires b0 < 256 && b1 < 256 && b2 < 256
    ensures b0 / 4 * 4 + (b0 % 4 * 16 + b1 / 16) / 16 == b0
    ensures (b0 % 4 * 16 + b1 / 16) * 16 % 256 + (b1 % 16 * 4 + b2 / 64) / 4 == b1
    ensures (b1 % 16 * 4 + b2 / 64) * 64 % 256 + b2 % 64 == b2
  {
    HighBits(b0 % 4, 16, b1 / 16);
    HighBits(b1 % 16, 4, b2 / 64);
    LowBits(b0 % 4, b1 / 16, 16);
    LowBits(b1 % 16, b2 / 64, 64);
  }

  lemma HighBits(h: nat, m: nat, l: nat)
    requires (m == 4 || m == 16) && l < m
    ensures (h * m + l) / m == h
  {
  }

  lemma LowBits(h: nat, l: nat, m: nat)
    requires (m == 16 && l < 16) || (m == 64 && l < 4)
    ensures (h * (256 / m) + l) * m % 256 == l * m
  {
    assert (h * (256 / m) + l) * m == 256 * h + l * m;
  }

  /** What a group of symbols decodes to, by how much of it is padding. */
  lemma DecodeSymbols(v0: Six, v1: Six, v2: Six, v3: Six)
    ensures DecodeGroup(Symbol(v0), Symbol(v1), PAD, PAD) == Some([FirstByte(v0, v1)])
    ensures DecodeGroup(Symbol(v0), Symbol(v1), Symbol(v2), PAD) == Some([FirstByte(v0, v1), SecondByte(v1, v2)])
    ensures DecodeGroup(Symbol(v0), Symbol(v1), Symbol(v2), Symbol(v3)) ==
      Some([FirstByte(v0, v1), SecondByte(v1, v2), ThirdByte(v2, v3)])
  {
    SymbolValue(v0);
    SymbolValue(v1);
    SymbolValue(v2);
    SymbolValue(v3);
  }

  /** The bytes come back from the sextets. */
  lemma SextetBytes(g: seq<Byte>)
    requires 1 <= |g| <= 3
    ensures FirstByte(Sextet(g, 0), Sextet(g, 1)) == g[0]
    ensures |g| > 1 ==> SecondByte(Sextet(g, 1), Sextet(g, 2)) == g[1]
    ensures |g| > 2 ==> ThirdByte(Sextet(g, 2), Sextet(g, 3)) == g[2]
  {
    Repack(g[0], if |g| > 1 then g[1] else 0, if |g| > 2 then g[2] else 0);
  }

  lemma GroupRoundTrip(g: seq<Byte>)
    requires 1 <= |g| <= 3
    ensures var s := EncodeGroup(g); s[0] != PAD && DecodeGroup(s[0], s[1], s[2], s[3]) == Some(g)
  {
    var v0, v1, v2, v3 := Sextet(g, 0), Sextet(g, 1), Sextet(g, 2), Sextet(g, 3);
    SymbolValue(v0);
    DecodeSymbols(v0, v1, v2, v3);
    SextetBytes(g);
    assert g == if |g| == 1 then [g[0]] else if |g| == 2 then [g[0], g[1]] else [g[0], g[1], g[2]];
  }

  lemma GroupInFront(s: seq<Byte>, k: nat, g: seq<Byte>, rest: seq<Byte>)
    requires k <= |s| && |g| == 4 && s[k..] == g + rest
    ensures k + 4 <= |s| && s[k + 4..] == rest
    ensures s[k] == g[0] && s[k + 1] == g[1] && s[k + 2] == g[2] && s[k + 3] == g[3]
  {
    forall i | 0 <= i < 4 ensures s[k + i] == g[i] { assert s[k..][i] == g[i]; }
    assert s[k + 4..] == s[k..][4..];
  }

  /** Decoding gives back what was encoded. */
  lemma {:induction false} RoundTrip(data: seq<Byte>, i: nat, s: seq<Byte>, k: nat)
    requires i <= |data| && k <= |s| && s[k..] == EncodeFrom(data, i)
    ensures DecodeFrom(s, k) == Some(data[i..])
    decreases |data| - i
  {
    if i < |data| {
      var j := Min(i + 3, |data|);
      var g := EncodeGroup(data[i..j]);
      GroupRoundTrip(data[i..j]);
      GroupInFront(s, k, g, EncodeFrom(data, j));
      RoundTrip(data, j, s, k + 4);
      assert data[i..j] + data[j..] == data[i..];
    } else {
      assert data[i..] == [];
    }
  }

  // ----- What other texts decode to -----

  /** A group is read exactly when its first two bytes are symbols, and so is each
      of the others up to the padding. */
  lemma GroupReads(c0: Byte, c1: Byte, c2: Byte, c3: Byte)
    ensures DecodeGroup(c0, c1, c2, c3).Some? <==>
      && Value(c0).Some? && Value(c1).Some?
      && (c2 == 61 || (Value(c2).Some? && (c3 == 61 || Value(c3).Some?)))
  {
  }

  /** The bytes spell the digits of the symbols; bits that fill no byte are dropped. */
  lemma GroupSpells(v0: Six, v1: Six, v2: Six, v3: Six)
    ensures var c0, c1, c2, c3 := Symbol(v0), Symbol(v1), Symbol(v2), Symbol(v3);
      && (exists a: Byte :: DecodeGroup(c0, c1, 61, 61) == Some([a]) && a == (v0 * 64 + v1) / 16)
      && (exists a: Byte, b: Byte :: DecodeGroup(c0, c1, c2, 61) == Some([a, b])
           && a * 256 + b == (v0 * 4096 + v1 * 64 + v2) / 4)
      && (exists a: Byte, b: Byte, c: Byte :: DecodeGroup(c0, c1, c2, c3) == Some([a, b, c])
           && a * 65536 + b * 256 + c == v0 * 262144 + v1 * 4096 + v2 * 64 + v3)
  {
    DecodeSymbols(v0, v1, v2, v3);
    var a, b, c := FirstByte(v0, v1), SecondByte(v1, v2), ThirdByte(v2, v3);
    DigitSums(v0, v1, v2, v3);
    assert DecodeGroup(Symbol(v0), Symbol(v1), 61, 61) == Some([a]);
    assert DecodeGroup(Symbol(v0), Symbol(v1), Symbol(v2), 61) == Some([a, b]);
    assert DecodeGroup(Symbol(v0), Symbol(v1), Symbol(v2), Symbol(v3)) == Some([a, b, c]);
  }

  lemma DigitSums(v0: Six, v1: Six, v2: Six, v3: Six)
    ensures FirstByte(v0, v1) == (v0 * 64 + v1) / 16
    ensures FirstByte(v0, v1) * 256 + SecondByte(v1, v2) == (v0 * 4096 + v1 * 64 + v2) / 4
    ensures FirstByte(v0, v1) * 65536 + SecondByte(v1, v2) * 256 + ThirdByte(v2, v3) ==
      v0 * 262144 + v1 * 4096 + v2 * 64 + v3
  {
    assert v1 * 16 % 256 == v1 % 16 * 16;
    assert v2 * 64 % 256 == v2 % 4 * 64;
  }

  /** Missing padding reads as padding. */
  lemma {:induction false} UnpaddedDecodes(s: seq<Byte>, pads: seq<Byte>, i: nat)
    requires i <= |s| && (|s| - i + |pads|) % 4 == 0 && |pads| <= 2 && forall j :: 0 <= j < |pads| ==> pads[j] == 61
    ensures DecodeFrom(s + pads, i) == DecodeFrom(s, i)
    decreases |s| - i
  {
    var t := s + pads;
    if i < |s| {
      assert i + 2 <= |s|;
      if i + 4 <= |s| { UnpaddedDecodes(s, pads, i + 4); }
    }
  }

  /** A single symbol after whole groups is refused. */
  lemma {:induction false} LoneSymbol(s: seq<Byte>, i: nat)
    requires i <= |s| && (|s| - i) % 4 == 1 && forall j :: i <= j < |s| ==> s[j] != 61
    ensures DecodeFrom(s, i).None?
    decreases |s| - i
  {
    if i + 4 <= |s| { LoneSymbol(s, i + 4); }
  }
}
