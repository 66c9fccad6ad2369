/** Scoped write policies: the glob matcher and the first-match rule
    (core/crdt/src/policy.rs). */
module Policy {
  import opened Core
  import opened TextBytes

  const STAR: Byte := 42
  const SLASH: Byte := 47

  // ----- The language of a pattern -----

  /** One step of a pattern: a literal byte, `*`, or `**` with the separator
      that may follow it. */
  datatype Token = Literal(b: Byte) | Segment | Anything

  function Parse(pat: seq<Byte>): seq<Token> {
    if pat == [] then []
    else if pat[0] != STAR then [Literal(pat[0])] + Parse(pat[1..])
    else if |pat| == 1 || pat[1] != STAR then [Segment] + Parse(pat[1..])
    else if |pat| == 2 || pat[2] != SLASH then [Anything] + Parse(pat[2..])
    else [Anything] + Parse(pat[3..])
  }

  ghost predicate Fits(t: Token, piece: seq<Byte>) {
    match t
    case Literal(b) => piece == [b]
    case Segment => SLASH !in piece
    case Anything => true
  }

  ghost function Joined(pieces: seq<seq<Byte>>): seq<Byte> {
    if pieces == [] then [] else pieces[0] + Joined(pieces[1..])
  }

  /** `txt` cut into one piece per token. */
  ghost predicate Cut(tokens: seq<Token>, txt: seq<Byte>, pieces: seq<seq<Byte>>) {
    |pieces| == |tokens| && Joined(pieces) == txt && forall i :: 0 <= i < |tokens| ==> Fits(tokens[i], pieces[i])
  }

  /** The texts a pattern stands for. */
  ghost predicate InLanguage(pat: seq<Byte>, txt: seq<Byte>) {
    exists pieces :: Cut(Parse(pat), txt, pieces)
  }

  // ----- One token at a time -----

  ghost predicate SplitAt(tokens: seq<Token>, txt: seq<Byte>, i: nat)
    requires tokens != [] && i <= |txt|
    decreases |tokens|, 0
  {
    Fits(tokens[0], txt[..i]) && Accepts(tokens[1..], txt[i..])
  }

  ghost predicate Accepts(tokens: seq<Token>, txt: seq<Byte>)
    decreases |tokens|, 1
  {
    if tokens == [] then txt == [] else exists i :: 0 <= i <= |txt| && SplitAt(tokens, txt, i)
  }

  lemma {:induction false} AcceptsCuts(tokens: seq<Token>, txt: seq<Byte>)
    requires Accepts(tokens, txt)
    ensures exists pieces :: Cut(tokens, txt, pieces)
    decreases |tokens|
  {
    if tokens == [] {
      assert Cut(tokens, txt, []);
    } else {
      var i :| 0 <= i <= |txt| && SplitAt(tokens, txt, i);
      AcceptsCuts(tokens[1..], txt[i..]);
      var rest :| Cut(tokens[1..], txt[i..], rest);
      var pieces := [txt[..i]] + rest;
      assert pieces[1..] == rest && txt == txt[..i] + txt[i..];
      forall j | 0 <= j < |tokens| ensures Fits(tokens[j], pieces[j]) {
        if j > 0 { assert tokens[1..][j - 1] == tokens[j] && pieces[j] == rest[j - 1]; }
      }
      assert Cut(tokens, txt, pieces);
    }
  }

  lemma {:induction false} CutsAccepted(tokens: seq<Token>, txt: seq<Byte>, pieces: seq<seq<Byte>>)
    requires Cut(tokens, txt, pieces)
    ensures Accepts(tokens, txt)
    decreases |tokens|
  {
    if tokens != [] {
      var i := |pieces[0]|;
      assert txt[..i] == pieces[0] && txt[i..] == Joined(pieces[1..]);
      forall j | 0 <= j < |tokens[1..]| ensures Fits(tokens[1..][j], pieces[1..][j]) {
        assert Fits(tokens[j + 1], pieces[j + 1]);
      }
      CutsAccepted(tokens[1..], txt[i..], pieces[1..]);
      assert SplitAt(tokens, txt, i);
    }
  }

  lemma Decides(pat: seq<Byte>, txt: seq<Byte>)
    ensures Accepts(Parse(pat), txt) <==> InLanguage(pat, txt)
  {
    if Accepts(Parse(pat), txt) { AcceptsCuts(Parse(pat), txt); }
    if pieces :| Cut(Parse(pat), txt, pieces) { CutsAccepted(Parse(pat), txt, pieces); }
  }

  // ----- The matcher -----

  lemma LiteralStep(b: Byte, rest: seq<Token>, txt: seq<Byte>)
    ensures Accepts([Literal(b)] + rest, txt) <==> txt != [] && txt[0] == b && Accepts(rest, txt[1..])
  {
    var tokens := [Literal(b)] + rest;
    assert tokens[1..] == rest;
    if i :| 0 <= i <= |txt| && SplitAt(tokens, txt, i) { assert txt[..i] == [b]; }
    if txt != [] && txt[0] == b && Accepts(rest, txt[1..]) {
      assert txt[..1] == [b];
      assert SplitAt(tokens, txt, 1);
    }
  }

  ghost predicate TailIn(pat: seq<Byte>, txt: seq<Byte>, i: nat)
    requires i <= |txt|
  {
    InLanguage(pat, txt[i..])
  }

  lemma GapStep(t: Token, pat: seq<Byte>, txt: seq<Byte>)
    ensures Accepts([t] + Parse(pat), txt) <==> exists i :: 0 <= i <= |txt| && Fits(t, txt[..i]) && TailIn(pat, txt, i)
  {
    var tokens := [t] + Parse(pat);
    assert tokens[1..] == Parse(pat);
    forall i | 0 <= i <= |txt| ensures SplitAt(tokens, txt, i) <==> Fits(t, txt[..i]) && TailIn(pat, txt, i) {
      Decides(pat, txt[i..]);
    }
  }

  /** The language of patterns, without their tokens: the empty pattern is the
      empty text, and a byte other than `*` (42) is itself. */
  lemma PlainPatterns(b: Byte, pat: seq<Byte>, txt: seq<Byte>)
    requires b != 42
    ensures InLanguage([], txt) <==> txt == []
    ensures InLanguage([b] + pat, txt) <==> txt != [] && txt[0] == b && InLanguage(pat, txt[1..])
  {
    var none: seq<Byte> := [];
    Decides(none, txt);
    Decides([b] + pat, txt);
    assert ([b] + pat)[1..] == pat;
    LiteralStep(b, Parse(pat), txt);
    if txt != [] { Decides(pat, txt[1..]); }
  }

  /** `*` is any run without `/` (47), `**` any run at all; a `/` right after `**`
      belongs to it, so `**` with `/` before a pattern accepts every text that ends
      in one the pattern accepts. */
  lemma StarPatterns(pat: seq<Byte>, txt: seq<Byte>)
    ensures (pat == [] || pat[0] != 42) ==>
      (InLanguage([42] + pat, txt) <==> exists i :: 0 <= i <= |txt| && 47 !in txt[..i] && TailIn(pat, txt, i))
    ensures (pat == [] || pat[0] != 47) ==>
      (InLanguage([42, 42] + pat, txt) <==> exists i :: 0 <= i <= |txt| && TailIn(pat, txt, i))
    ensures InLanguage([42, 42, 47] + pat, txt) <==> exists i :: 0 <= i <= |txt| && TailIn(pat, txt, i)
  {
    var one: seq<Byte>, two: seq<Byte>, three: seq<Byte> := [42], [42, 42], [42, 42, 47];
    assert (one + pat)[1..] == pat && (two + pat)[2..] == pat && (three + pat)[3..] == pat;
    Decides(one + pat, txt);
    Decides(two + pat, txt);
    Decides(three + pat, txt);
    GapStep(Segment, pat, txt);
    GapStep(Anything, pat, txt);
  }

  /** The backtracking matcher decides exactly the language of its pattern. */
  method GlobMatches(pattern: seq<Byte>, text: seq<Byte>) returns (r: bool)
    ensures r <==> InLanguage(pattern, text)
  {
    Decides(pattern, text);
    r := GlobMatchesInner(pattern, text);
  }

  method GlobMatchesInner(pattern: seq<Byte>, text: seq<Byte>) returns (r: bool)
    ensures r <==> Accepts(Parse(pattern), text)
    decreases |pattern|, 0
  {
    var pat, txt := pattern, text;
    while pat != []
      invariant |pat| <= |pattern|
      invariant Accepts(Parse(pattern), text) <==> Accepts(Parse(pat), txt)
      decreases |pat|
    {
      if pat[0] == STAR && |pat| > 1 && pat[1] == STAR {
        var rest := pat[2..];
        if rest != [] && rest[0] == SLASH { rest := rest[1..]; }
        r := MatchFromAnywhere(rest, txt);
        return;
      }
      if pat[0] == STAR {
        r := MatchWithinSegment(pat[1..], txt);
        return;
      }
      LiteralStep(pat[0], Parse(pat[1..]), txt);
      if txt == [] || txt[0] != pat[0] { return false; }
      pat, txt := pat[1..], txt[1..];
    }
    return txt == [];
  }

  /** The loop of `**`: try the rest of the pattern at every position. */
  method MatchFromAnywhere(pat: seq<Byte>, text: seq<Byte>) returns (r: bool)
    ensures r <==> Accepts([Anything] + Parse(pat), text)
    decreases |pat|, 1
  {
    ghost var tokens := [Anything] + Parse(pat);
    assert tokens[1..] == Parse(pat);
    var k := 0;
    while true
      invariant k <= |text|
      invariant forall i :: 0 <= i < k ==> !SplitAt(tokens, text, i)
      decreases |text| - k
    {
      r := GlobMatchesInner(pat, text[k..]);
      assert r <==> SplitAt(tokens, text, k);
      if r || k == |text| { return; }
      k := k + 1;
    }
  }

  /** The loop of `*`: the same, stopping at a separator. */
  method MatchWithinSegment(pat: seq<Byte>, text: seq<Byte>) returns (r: bool)
    ensures r <==> Accepts([Segment] + Parse(pat), text)
    decreases |pat|, 1
  {
    ghost var tokens := [Segment] + Parse(pat);
    assert tokens[1..] == Parse(pat);
    var k := 0;
    while true
      invariant k <= |text| && SLASH !in text[..k]
      invariant forall i :: 0 <= i < k ==> !SplitAt(tokens, text, i)
      decreases |text| - k
    {
      r := GlobMatchesInner(pat, text[k..]);
      assert r <==> SplitAt(tokens, text, k);
      if r || k == |text| { return; }
      if text[k] == SLASH {
        forall i | k < i <= |text| ensures !SplitAt(tokens, text, i) { assert text[..i][k] == SLASH; }
        return;
      }
      k := k + 1;
    }
  }

  // ----- Rules -----

  /** A key as the bytes its pattern is matched against. */
  function KeyBytes(key: string): seq<Byte> {
    if key == [] then [] else Utf8(key[0]) + KeyBytes(key[1..])
  }

  /** Character by character, in order. */
  lemma {:induction false} KeyBytesConcat(a: string, b: string)
    ensures KeyBytes(a + b) == KeyBytes(a) + KeyBytes(b)
    ensures forall c :: KeyBytes([c]) == Utf8(c)
  {
    if a == [] {
      assert a + b == b;
    } else {
      KeyBytesConcat(a[1..], b);
      assert (a + b)[1..] == a[1..] + b;
    }
    forall c ensures KeyBytes([c]) == Utf8(c) { assert |[c][1..]| == 0; }
  }

  datatype Default = AllowAll | DenyAll

  datatype Rule = Rule(glob: seq<Byte>, writers: seq<Author>)

  datatype Policy = Policy(rules: seq<Rule>, fallback: Default)

  const OPEN_POLICY := Policy([], AllowAll)

  /** May the author write the key, by the rules from `i` on: the first that matches
      decides. */
  ghost predicate MayWriteFrom(p: Policy, key: seq<Byte>, author: Author, i: nat)
    requires i <= |p.rules|
    decreases |p.rules| - i
  {
    if i == |p.rules| then p.fallback == AllowAll
    else if InLanguage(p.rules[i].glob, key) then author in p.rules[i].writers
    else MayWriteFrom(p, key, author, i + 1)
  }

  ghost predicate MayWrite(p: Policy, key: seq<Byte>, author: Author) {
    MayWriteFrom(p, key, author, 0)
  }

  /** Without rules anyone may write anything. */
  lemma OpenAllows(key: seq<Byte>, author: Author)
    ensures MayWrite(OPEN_POLICY, key, author)
  {
  }

  ghost predicate FirstMatch(p: Policy, key: seq<Byte>, i: int) {
    && 0 <= i < |p.rules| && InLanguage(p.rules[i].glob, key)
    && forall j :: 0 <= j < i ==> !InLanguage(p.rules[j].glob, key)
  }

  /** The first matching rule decides, and the default if there is none. */
  method CanWrite(p: Policy, key: seq<Byte>, author: Author) returns (r: bool)
    ensures r <==> MayWrite(p, key, author)
    ensures forall i :: FirstMatch(p, key, i) ==> (r <==> author in p.rules[i].writers)
    ensures (forall i :: !FirstMatch(p, key, i)) ==> (r <==> p.fallback == AllowAll)
  {
    for k := 0 to |p.rules|
      invariant forall j :: 0 <= j < k ==> !InLanguage(p.rules[j].glob, key)
      invariant MayWrite(p, key, author) <==> MayWriteFrom(p, key, author, k)
    {
      var hit := GlobMatches(p.rules[k].glob, key);
      if hit {
        assert FirstMatch(p, key, k) && forall i :: FirstMatch(p, key, i) ==> i == k;
        return author in p.rules[k].writers;
      }
    }
    return p.fallback == AllowAll;
  }
}
