/** Fractional-index positions: base-62 strings and a position strictly between
    two of them (core/crdt/src/list.rs). */
module FracIndex {
  import opened Core

  const RADIX: nat := 62

  predicate IsDigit(c: char) {
    '0' <= c <= '9' || 'A' <= c <= 'Z' || 'a' <= c <= 'z'
  }

  function Val(c: char): (v: nat)
    requires IsDigit(c)
    ensures v < RADIX
  {
    if c <= '9' then c as int - '0' as int
    else if c <= 'Z' then c as int - 'A' as int + 10
    else c as int - 'a' as int + 36
  }

  function Ch(v: nat): (c: char)
    requires v < RADIX
    ensures IsDigit(c) && Val(c) == v
  {
    if v < 10 then (v + '0' as int) as char
    else if v < 36 then (v - 10 + 'A' as int) as char
    else (v - 36 + 'a' as int) as char
  }

  type Position = s: string | forall i :: 0 <= i < |s| ==> IsDigit(s[i])

  /** Lexicographic order on the characters, as the source compares strings. */
  predicate Before(a: string, b: string) {
    b != [] && (a == [] || a[0] < b[0] || (a[0] == b[0] && Before(a[1..], b[1..])))
  }

  /** A proper prefix comes first; otherwise the first difference decides. */
  lemma {:induction false} BeforeIs(a: string, b: string)
    ensures Before(a, b) <==> a < b || exists i :: 0 <= i < |a| && i < |b| && a[i] < b[i] && a[..i] == b[..i]
  {
    if a != [] && b != [] {
      BeforeIs(a[1..], b[1..]);
      assert a == [a[0]] + a[1..] && b == [b[0]] + b[1..];
      forall i | 0 < i && i < |a| && i < |b|
        ensures a[..i] == b[..i] <==> a[0] == b[0] && a[1..][..i - 1] == b[1..][..i - 1]
      {
        assert a[..i] == [a[0]] + a[1..][..i - 1] && b[..i] == [b[0]] + b[1..][..i - 1];
      }
      if a[0] < b[0] { assert a[..0] == b[..0]; }
    }
  }

  ghost predicate Zeros(s: string) {
    forall i :: 0 <= i < |s| ==> s[i] == '0'
  }

  /** `r` is `l` followed by nothing but the digit 0: the gap the scheme cannot fill. */
  ghost predicate PaddedBy0(l: string, r: string) {
    |l| <= |r| && r[..|l|] == l && Zeros(r[|l|..])
  }

  ghost predicate EndsWell(s: string) {
    s != [] && s[|s| - 1] != '0'
  }

  // ----- The positions the source computes -----

  function Above(left: Position): (r: Position) {
    if left == [] then [Ch(RADIX / 2)]
    else if Val(left[0]) < RADIX - 1 then [Ch((Val(left[0]) + RADIX) / 2)]
    else [left[0]] + Above(left[1..])
  }

  /** `None` stands for the panic on equal bounds. */
  function Bounded(left: Position, right: Position): (r: Option<Position>)
    requires !Before(right, left)
    decreases |right|
  {
    if right == [] then None
    else if left == [] then
      var rb := Val(right[0]);
      if rb >= 2 then Some([Ch(rb / 2)])
      else if rb == 1 then Some([Ch(0), Ch(RADIX / 2)])
      else Prepend(Ch(0), Bounded([], right[1..]))
    else
      var la, rb := Val(left[0]), Val(right[0]);
      if la == rb then
        ValInjective(left[0], right[0]);
        Prepend(Ch(la), Bounded(left[1..], right[1..]))
      else if rb - la >= 2 then Some([Ch((la + rb) / 2)])
      else Some([Ch(la)] + Above(left[1..]))
  }

  function Prepend(c: char, r: Option<Position>): Option<Position>
    requires IsDigit(c)
  {
    if r.None? then None else Some([c] + r.value)
  }

  /** A position between two optional bounds; `None` stands for a panic. */
  function BetweenSpec(left: Option<Position>, right: Option<Position>): (r: Option<Position>) {
    if left.Some? && right.Some? && !Before(left.value, right.value) then None
    else
      var l := if left.Some? then left.value else [];
      if right.None? then Some(Above(l))
      else
        BeforeAsymmetric(l, right.value);
        Bounded(l, right.value)
  }

  lemma ValInjective(c: char, d: char)
    requires IsDigit(c) && IsDigit(d)
    ensures Val(c) == Val(d) <==> c == d
    ensures Val(c) < Val(d) <==> c < d
  {
  }

  lemma {:induction false} BeforeAsymmetric(a: string, b: string)
    requires Before(a, b) || a == []
    ensures !Before(b, a)
  {
    if a != [] && a[0] == b[0] { BeforeAsymmetric(a[1..], b[1..]); }
  }

  lemma {:induction false} BeforeTransitive(a: string, b: string, c: string)
    requires Before(a, b) && Before(b, c)
    ensures Before(a, c)
  {
    if a != [] && a[0] == b[0] == c[0] { BeforeTransitive(a[1..], b[1..], c[1..]); }
  }

  lemma {:induction false} BeforeTotal(a: string, b: string)
    ensures Before(a, b) || Before(b, a) || a == b
  {
    if a != [] && b != [] && a[0] == b[0] {
      BeforeTotal(a[1..], b[1..]);
      assert a == [a[0]] + a[1..] && b == [b[0]] + b[1..];
    }
  }

  // ----- What they promise -----

  lemma {:induction false} AboveIsAbove(left: Position)
    ensures Before(left, Above(left)) && EndsWell(Above(left)) && |Above(left)| <= |left| + 1
  {
    if left != [] {
      if Val(left[0]) < RADIX - 1 {
        ValInjective(left[0], Ch((Val(left[0]) + RADIX) / 2));
      } else {
        AboveIsAbove(left[1..]);
        EndsWellCons(left[0], Above(left[1..]));
      }
    }
  }

  lemma EndsWellCons(c: char, s: string)
    requires EndsWell(s)
    ensures EndsWell([c] + s)
  {
    assert ([c] + s)[|s|] == s[|s| - 1];
  }

  lemma PaddedCons(l: string, r: string)
    requires l != [] && r != [] && l[0] == r[0]
    ensures PaddedBy0(l, r) <==> PaddedBy0(l[1..], r[1..])
  {
    if |l| <= |r| {
      assert r[1..][..|l| - 1] == r[1..|l|];
      assert r[1..][|l| - 1..] == r[|l|..];
      assert l == [l[0]] + l[1..] && r[..|l|] == [r[0]] + r[1..|l|];
    }
  }

  lemma ZerosCons(r: string)
    requires r != []
    ensures PaddedBy0([], r) <==> r[0] == '0' && PaddedBy0([], r[1..])
  {
    assert r[0..] == r && r[1..][0..] == r[1..];
    if r[0] == '0' && Zeros(r[1..]) {
      forall i | 0 <= i < |r| ensures r[i] == '0' { if i > 0 { assert r[1..][i - 1] == '0'; } }
    }
    if Zeros(r) { forall i | 0 <= i < |r[1..]| ensures r[1..][i] == '0' { assert r[i + 1] == '0'; } }
  }

  /** Between ordered bounds the only obstacle is zero padding, and every
      position produced is strictly inside and does not end in 0. */
  lemma {:induction false} BoundedIsBetween(left: Position, right: Position)
    requires !Before(right, left)
    ensures Bounded(left, right).None? <==> PaddedBy0(left, right)
    ensures Bounded(left, right).Some? ==> Before(left, Bounded(left, right).value)
    ensures Bounded(left, right).Some? ==> Before(Bounded(left, right).value, right)
    ensures Bounded(left, right).Some? ==> EndsWell(Bounded(left, right).value)
    ensures Bounded(left, right).Some? ==> |Bounded(left, right).value| <= Max(|left|, |right|) + 1
    decreases |right|
  {
    if right == [] {
      assert left == [];
    } else if left == [] {
      ZerosCons(right);
      ValInjective(right[0], Ch(0));
      if Val(right[0]) == 0 {
        BoundedIsBetween([], right[1..]);
        if Bounded([], right[1..]).Some? { EndsWellCons(Ch(0), Bounded([], right[1..]).value); }
      } else if Val(right[0]) >= 2 {
        ValInjective(Ch(Val(right[0]) / 2), right[0]);
      }
    } else {
      ValInjective(left[0], right[0]);
      if left[0] == right[0] {
        PaddedCons(left, right);
        BoundedIsBetween(left[1..], right[1..]);
        var t := Bounded(left[1..], right[1..]);
        if t.Some? { EndsWellCons(left[0], t.value); }
      } else {
        BoundedSplit(left, right);
      }
    }
  }

  /** The first differing digit decides. */
  lemma BoundedSplit(left: Position, right: Position)
    requires left != [] && right != [] && left[0] < right[0] && !Before(right, left)
    ensures Bounded(left, right).Some? && !PaddedBy0(left, right)
    ensures var m := Bounded(left, right).value;
      Before(left, m) && Before(m, right) && EndsWell(m) && |m| <= Max(|left|, |right|) + 1
  {
    var la, rb := Val(left[0]), Val(right[0]);
    ValInjective(left[0], right[0]);
    DifferNotPadded(left, right);
    if rb - la >= 2 {
      var c := Ch((la + rb) / 2);
      assert Bounded(left, right) == Some([c]);
      ValInjective(left[0], c);
      ValInjective(c, right[0]);
    } else {
      var t := Above(left[1..]);
      assert Bounded(left, right) == Some([left[0]] + t) by { ValInjective(Ch(la), left[0]); }
      AboveIsAbove(left[1..]);
      EndsWellCons(left[0], t);
      assert ([left[0]] + t)[1..] == t;
    }
  }

  lemma DifferNotPadded(l: string, r: string)
    requires l != [] && r != [] && l[0] != r[0]
    ensures !PaddedBy0(l, r)
  {
    if |l| <= |r| { assert r[..|l|][0] == r[0]; }
  }

  /** `between` panics exactly on unordered bounds and on zero padding; otherwise
      it lands strictly inside, never ends in 0, and is at most one digit longer. */
  lemma BetweenWorks(left: Option<Position>, right: Option<Position>)
    ensures var r := BetweenSpec(left, right);
      var l := if left.Some? then left.value else [];
      && (r.None? <==> right.Some? && ((left.Some? && !Before(l, right.value)) || PaddedBy0(l, right.value)))
      && (r.Some? ==>
            && EndsWell(r.value)
            && (left.Some? ==> Before(left.value, r.value))
            && (right.Some? ==> Before(r.value, right.value))
            && |r.value| <= Max(|l|, if right.Some? then |right.value| else 0) + 1)
  {
    var l := if left.Some? then left.value else [];
    if right.None? {
      AboveIsAbove(l);
    } else if left.None? || Before(l, right.value) {
      BeforeAsymmetric(l, right.value);
      BoundedIsBetween(l, right.value);
    }
  }

  /** A position that does not end in 0 is never zero padding of a smaller one. */
  lemma WellNotPadded(l: string, r: string)
    requires EndsWell(r) && l != r
    ensures !PaddedBy0(l, r)
  {
    if |l| < |r| && r[..|l|] == l {
      assert r[|l|..][|r| - |l| - 1] == r[|r| - 1];
    } else if |l| == |r| {
      assert r[..|l|] == r;
    }
  }

  // ----- The loops of the source -----

  lemma AboveAt(left: Position, i: nat)
    requires i < |left|
    ensures Above(left[i..]) == if Val(left[i]) < RADIX - 1 then [Ch((Val(left[i]) + RADIX) / 2)]
                                else [left[i]] + Above(left[i + 1..])
  {
    assert left[i..][0] == left[i] && left[i..][1..] == left[i + 1..];
  }

  lemma AboveNext(left: Position, i: nat, pre: Position, rest: Position)
    requires i < |left| && pre == left[..i]
    ensures left[..i + 1] + rest == pre + ([left[i]] + rest)
  {
    assert left[..i + 1] == pre + [left[i]];
  }

  // ----- Which position it is -----

  /** The digit of the left bound at place `j`; a missing one counts as 0. */
  ghost function Floor(left: Position, j: nat): nat {
    if j < |left| then Val(left[j]) else 0
  }

  /** The digit of the right bound at place `j`, as long as `r` has followed it;
      otherwise one past the greatest digit. */
  ghost function Ceiling(right: Option<Position>, r: Position, j: nat): nat
    requires j <= |r|
  {
    if right.Some? && j < |right.value| && r[..j] == right.value[..j] then Val(right.value[j]) else 62
  }

  /** At place `j` there is no room, and `r` has the digit of the left bound. */
  ghost predicate FollowsAt(left: Position, right: Option<Position>, r: Position, j: int) {
    0 <= j < |r| && Val(r[j]) == Floor(left, j) && Ceiling(right, r, j) < Floor(left, j) + 2
  }

  /** At place `j` there is room, and `r` has the middle digit. */
  ghost predicate HalvesAt(left: Position, right: Option<Position>, r: Position, j: int) {
    && 0 <= j < |r| && Floor(left, j) + 2 <= Ceiling(right, r, j)
    && Val(r[j]) == (Floor(left, j) + Ceiling(right, r, j)) / 2
  }

  /** `r` follows the left bound up to the first place with a digit strictly
      between the bounds, and there takes the middle. */
  ghost predicate Midpoint(left: Position, right: Option<Position>, r: Position) {
    (forall j :: 0 <= j < |r| - 1 ==> FollowsAt(left, right, r, j)) && HalvesAt(left, right, r, |r| - 1)
  }

  /** That is one position. */
  lemma MidpointUnique(left: Position, right: Option<Position>, r: Position, s: Position)
    requires Midpoint(left, right, r) && Midpoint(left, right, s)
    ensures r == s
  {
    var n := Min(|r|, |s|) - 1;
    SamePrefix(left, right, r, s, n);
    assert Ceiling(right, r, n) == Ceiling(right, s, n);
    assert n < |r| - 1 ==> FollowsAt(left, right, r, n);
    assert n < |s| - 1 ==> FollowsAt(left, right, s, n);
    ValInjective(r[n], s[n]);
    assert r == r[..n] + [r[n]] && s == s[..n] + [s[n]];
  }

  lemma {:induction false} SamePrefix(left: Position, right: Option<Position>, r: Position, s: Position, n: nat)
    requires Midpoint(left, right, r) && Midpoint(left, right, s) && n < |r| && n < |s|
    ensures r[..n] == s[..n]
  {
    if n > 0 {
      SamePrefix(left, right, r, s, n - 1);
      assert FollowsAt(left, right, r, n - 1) && FollowsAt(left, right, s, n - 1);
      ValInjective(r[n - 1], s[n - 1]);
      assert r[..n] == r[..n - 1] + [r[n - 1]] && s[..n] == s[..n - 1] + [s[n - 1]];
    }
  }

  ghost function Rest(s: Position): Position {
    if s == [] then [] else s[1..]
  }

  /** The right bound past a first digit `c`: its rest if it starts with `c`, and
      none otherwise. */
  ghost function Beyond(right: Option<Position>, c: char): Option<Position> {
    if right.Some? && right.value != [] && right.value[0] == c then Some(right.value[1..]) else None
  }

  lemma CeilingCons(right: Option<Position>, c: char, r: Position, j: nat)
    requires IsDigit(c) && j <= |r|
    ensures Ceiling(right, [c] + r, j + 1) == Ceiling(Beyond(right, c), r, j)
  {
    assert ([c] + r)[..j + 1] == [c] + r[..j];
    if right.Some? && j + 1 < |right.value| {
      var s := right.value;
      assert s[..j + 1] == [s[0]] + s[1..][..j];
      if s[..j + 1] == [c] + r[..j] { assert s[0] == c && s[1..][..j] == s[..j + 1][1..] == r[..j]; }
    }
  }

  /** Behind a first digit everything happens one place later. */
  lemma PlaceCons(left: Position, right: Option<Position>, c: char, r: Position, j: nat)
    requires IsDigit(c) && j < |r|
    ensures FollowsAt(Rest(left), Beyond(right, c), r, j) ==> FollowsAt(left, right, [c] + r, j + 1)
    ensures HalvesAt(Rest(left), Beyond(right, c), r, j) ==> HalvesAt(left, right, [c] + r, j + 1)
  {
    CeilingCons(right, c, r, j);
    assert ([c] + r)[j + 1] == r[j] && Floor(left, j + 1) == Floor(Rest(left), j);
  }

  lemma MidpointCons(left: Position, right: Option<Position>, c: char, r: Position)
    requires IsDigit(c) && FollowsAt(left, right, [c] + r, 0) && Midpoint(Rest(left), Beyond(right, c), r)
    ensures Midpoint(left, right, [c] + r)
  {
    forall j | 0 < j < |r| ensures FollowsAt(left, right, [c] + r, j) {
      assert FollowsAt(Rest(left), Beyond(right, c), r, j - 1);
      PlaceCons(left, right, c, r, j - 1);
    }
    PlaceCons(left, right, c, r, |r| - 1);
  }

  lemma {:induction false} AboveIs(left: Position)
    ensures Midpoint(left, None, Above(left))
  {
    if left != [] && Val(left[0]) == RADIX - 1 {
      AboveIs(left[1..]);
      MidpointCons(left, None, left[0], Above(left[1..]));
    }
  }

  lemma {:induction false} BelowIs(right: Position)
    requires Bounded([], right).Some?
    ensures Midpoint([], Some(right), Bounded([], right).value)
  {
    var none: Position := [];
    var rb := Val(right[0]);
    if rb == 1 {
      AboveIs(none);
      MidpointCons(none, Some(right), Ch(0), Above(none));
    } else if rb == 0 {
      BelowIs(right[1..]);
      ValInjective(right[0], Ch(0));
      MidpointCons(none, Some(right), Ch(0), Bounded(none, right[1..]).value);
    }
  }

  lemma {:induction false} BoundedIs(left: Position, right: Position)
    requires !Before(right, left) && Bounded(left, right).Some?
    ensures Midpoint(left, Some(right), Bounded(left, right).value)
    decreases |right|
  {
    if left == [] {
      BelowIs(right);
    } else {
      var la, rb := Val(left[0]), Val(right[0]);
      ValInjective(left[0], right[0]);
      ValInjective(left[0], Ch(la));
      if la == rb {
        BoundedIs(left[1..], right[1..]);
        MidpointCons(left, Some(right), Ch(la), Bounded(left[1..], right[1..]).value);
      } else if rb - la < 2 {
        AboveIs(left[1..]);
        MidpointCons(left, Some(right), Ch(la), Above(left[1..]));
      }
    }
  }

  /** A position between two bounds is the middle of the first gap. */
  lemma BetweenIs(left: Option<Position>, right: Option<Position>)
    requires BetweenSpec(left, right).Some?
    ensures Midpoint(if left.Some? then left.value else [], right, BetweenSpec(left, right).value)
  {
    var l := if left.Some? then left.value else [];
    if right.None? {
      AboveIs(l);
    } else {
      BeforeAsymmetric(l, right.value);
      BoundedIs(l, right.value);
    }
  }

  method BetweenUnboundedAbove(left: Position) returns (out: Position)
    ensures out == Above(left)
  {
    var i := 0;
    while i < |left|
      invariant 0 <= i <= |left|
      invariant Above(left) == left[..i] + Above(left[i..])
    {
      AboveAt(left, i);
      var d := Val(left[i]);
      if d < RADIX - 1 {
        out := left[..i] + [Ch((d + RADIX) / 2)];
        return;
      }
      AboveNext(left, i, left[..i], Above(left[i + 1..]));
      i := i + 1;
    }
    assert left[..|left|] == left && left[|left|..] == [];
    out := left + [Ch(RADIX / 2)];
  }

  /** `None` is the panic of the source. */
  method BetweenBounded(left: Position, right: Position) returns (r: Option<Position>)
    requires !Before(right, left)
    ensures r == Bounded(left, right)
    decreases |right|, 1
  {
    var out: Position := [];
    var i := 0;
    assert left[0..] == left && right[0..] == right;
    PrependNothing(Bounded(left, right));
    while i < |left| && i < |right| && Val(left[i]) == Val(right[i])
      invariant 0 <= i <= |left| && i <= |right|
      invariant !Before(right[i..], left[i..])
      invariant Bounded(left, right) == PrependAll(out, Bounded(left[i..], right[i..]))
    {
      ValInjective(left[i], right[i]);
      var c := Ch(Val(left[i]));
      assert left[i..][1..] == left[i + 1..] && right[i..][1..] == right[i + 1..];
      PrependSnoc(out, c, Bounded(left[i + 1..], right[i + 1..]));
      out := out + [c];
      i := i + 1;
    }
    var tail := AfterPrefix(left[i..], right[i..]);
    r := PrependAll(out, tail);
  }

  /** The arms of the loop that leave it: the first position where the bounds
      differ, or where one of them ends. */
  method AfterPrefix(left: Position, right: Position) returns (r: Option<Position>)
    requires !Before(right, left)
    requires left != [] && right != [] ==> Val(left[0]) != Val(right[0])
    ensures r == Bounded(left, right)
    decreases |right|, 0
  {
    if left != [] && right != [] {
      var la, rb := Val(left[0]), Val(right[0]);
      ValInjective(left[0], right[0]);
      if rb - la >= 2 {
        return Some([Ch((la + rb) / 2)]);
      }
      var tail := BetweenUnboundedAbove(left[1..]);
      return Some([Ch(la)] + tail);
    }
    if right != [] {
      var rb := Val(right[0]);
      if rb >= 2 {
        return Some([Ch(rb / 2)]);
      }
      if rb == 0 {
        var tail := BetweenBounded([], right[1..]);
        return Prepend(Ch(0), tail);
      }
      return Some([Ch(0), Ch(RADIX / 2)]);
    }
    return None;
  }

  function PrependAll(p: Position, r: Option<Position>): Option<Position> {
    if r.None? then None else Some(p + r.value)
  }

  lemma PrependNothing(r: Option<Position>)
    ensures PrependAll([], r) == r
  {
    if r.Some? { assert [] + r.value == r.value; }
  }

  lemma PrependSnoc(p: Position, c: char, r: Option<Position>)
    requires IsDigit(c)
    ensures PrependAll(p, Prepend(c, r)) == PrependAll(p + [c], r)
  {
    if r.Some? { assert p + ([c] + r.value) == (p + [c]) + r.value; }
  }

  /** The public entry point. */
  method Between(left: Option<Position>, right: Option<Position>) returns (r: Option<Position>)
    ensures r == BetweenSpec(left, right)
  {
    if left.Some? && right.Some? && !Before(left.value, right.value) { return None; }
    var l := if left.Some? then left.value else [];
    if right.None? {
      var m := BetweenUnboundedAbove(l);
      return Some(m);
    }
    BeforeAsymmetric(l, right.value);
    r := BetweenBounded(l, right.value);
  }

  // ----- Whole runs -----

  /** Positions in strictly increasing order, none ending in 0. */
  ghost predicate Spread(ps: seq<Position>) {
    && (forall i :: 0 <= i < |ps| ==> EndsWell(ps[i]))
    && (forall i, j :: 0 <= i < j < |ps| ==> Before(ps[i], ps[j]))
  }

  function LeftOf(ps: seq<Position>, k: nat): Option<Position>
    requires k <= |ps|
  {
    if k == 0 then None else Some(ps[k - 1])
  }

  function RightOf(ps: seq<Position>, k: nat): Option<Position>
    requires k <= |ps|
  {
    if k == |ps| then None else Some(ps[k])
  }

  /** Inserting anywhere into a spread list never panics and keeps it spread, so
      any run of inserts from the empty list does. */
  lemma InsertStaysSpread(ps: seq<Position>, k: nat)
    requires Spread(ps) && k <= |ps|
    ensures BetweenSpec(LeftOf(ps, k), RightOf(ps, k)).Some?
    ensures Spread(InsertAt(ps, k, BetweenSpec(LeftOf(ps, k), RightOf(ps, k)).value))
  {
    var left, right := LeftOf(ps, k), RightOf(ps, k);
    var l := if left.Some? then left.value else [];
    if right.Some? {
      assert l != right.value by {
        if left.Some? { BeforeAsymmetric(l, right.value); }
      }
      WellNotPadded(l, right.value);
    }
    BetweenWorks(left, right);
    var m := BetweenSpec(left, right).value;
    var ps' := InsertAt(ps, k, m);
    forall i, j | 0 <= i < j < |ps'| ensures Before(ps'[i], ps'[j]) {
      if i < k == j {
        if i < k - 1 { BeforeTransitive(ps[i], ps[k - 1], m); }
      } else if i == k {
        if j > k + 1 { BeforeTransitive(m, ps[k], ps[j - 1]); }
      }
    }
  }

  /** The position of the first insert. */
  lemma FirstIsMidpoint()
    ensures BetweenSpec(None, None) == Some("V") && Spread([])
  {
    assert Ch(31) == 'V';
  }
}
