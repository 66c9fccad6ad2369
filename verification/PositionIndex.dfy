/** The counted position index of the text engine: a Fenwick tree over the
    visible weight of each chunk (core/crdt/src/text.rs). */
module PositionIndex {
  import opened Core

  const U32_MAX: nat := 0xFFFF_FFFF

  function ToU32(v: nat): nat {
    if v < U32_MAX then v else U32_MAX
  }

  function SaturatingAdd(a: nat, b: nat): nat {
    ToU32(a + b)
  }

  function SaturatingSub(a: nat, b: nat): nat {
    if a < b then 0 else a - b
  }

  /** Sum of the first `i` weights: the reference the tree is measured against. */
  ghost function Prefix(w: seq<nat>, i: nat): nat
    requires i <= |w|
  {
    if i == 0 then 0 else Prefix(w, i - 1) + w[i - 1]
  }

  ghost function Total(w: seq<nat>): nat {
    Prefix(w, |w|)
  }

  /** The largest power of two dividing `i`; the source computes it as
      `i & -i`, and `i & (i - 1)` is `i - LowBit(i)`. */
  function LowBit(i: nat): (r: nat)
    requires i > 0
    ensures 0 < r <= i
  {
    if i % 2 == 1 then 1 else 2 * LowBit(i / 2)
  }

  /** Cell `k` of the tree counts the 1-based position `p`. */
  ghost predicate Covers(k: nat, p: nat)
    requires k > 0
  {
    k - LowBit(k) < p <= k
  }

  lemma {:induction false} PrefixMonotone(w: seq<nat>, i: nat, j: nat)
    requires i <= j <= |w|
    ensures Prefix(w, i) <= Prefix(w, j)
    decreases j
  {
    if i < j { PrefixMonotone(w, i, j - 1); }
  }

  lemma {:induction false} PrefixUpdate(w: seq<nat>, idx: nat, v: nat, i: nat)
    requires idx < |w| && i <= |w|
    ensures Prefix(w[idx := v], i) == Prefix(w, i) + (if idx < i then v - w[idx] else 0)
  {
    if i > 0 { PrefixUpdate(w, idx, v, i - 1); }
  }

  /** The update walk `j += low(j)` doubles the reach at least. */
  lemma {:induction false} LowBitNext(j: nat)
    requires j > 0
    ensures LowBit(j + LowBit(j)) >= 2 * LowBit(j)
  {
    if j % 2 == 0 {
      LowBitNext(j / 2);
      assert j + LowBit(j) == 2 * (j / 2 + LowBit(j / 2));
    }
  }

  /** Cells strictly between two steps of the walk start at or after `j`. */
  lemma {:induction false} LowBitGap(j: nat, k: nat)
    requires 0 < j < k < j + LowBit(j)
    ensures k - LowBit(k) >= j
  {
    if k % 2 == 0 { LowBitGap(j / 2, k / 2); }
  }

  ghost predicate IsPower2(b: nat) {
    b > 0 && (b == 1 || (b % 2 == 0 && IsPower2(b / 2)))
  }

  /** Adding a power of two below the lowest bit makes it the lowest bit. */
  lemma {:induction false} LowBitOfStep(i: nat, b: nat)
    requires IsPower2(b)
    requires i > 0 ==> LowBit(i) >= 2 * b
    ensures LowBit(i + b) == b
    decreases b
  {
    if b > 1 { LowBitOfStep(i / 2, b / 2); }
  }

  /** The weight cell `k` covers among the first `i` positions. */
  ghost function Span(w: seq<nat>, k: nat, i: nat): (r: nat)
    requires 0 < k && i <= |w|
    ensures i >= k ==> r == Prefix(w, k) - Prefix(w, k - LowBit(k))
  {
    PrefixMonotone(w, Min(k - LowBit(k), i), Min(k, i));
    Prefix(w, Min(k, i)) - Prefix(w, Min(k - LowBit(k), i))
  }

  lemma SpanGrows(w: seq<nat>, k: nat, i: nat)
    requires 0 < k && i < |w|
    ensures Span(w, k, i + 1) == Span(w, k, i) + (if Covers(k, i + 1) then w[i] else 0)
    ensures Span(w, k, i) <= Total(w) && Span(w, k, i + 1) <= Total(w)
  {
    PrefixMonotone(w, Min(k, i), |w|);
    PrefixMonotone(w, Min(k, i + 1), |w|);
  }

  lemma SpanUpdate(w: seq<nat>, idx: nat, v: nat, k: nat)
    requires 0 < k <= |w| && idx < |w|
    ensures Span(w[idx := v], k, |w|) == Span(w, k, |w|) + (if Covers(k, idx + 1) then v - w[idx] else 0)
    ensures Span(w[idx := v], k, |w|) <= Total(w[idx := v])
  {
    PrefixUpdate(w, idx, v, k);
    PrefixUpdate(w, idx, v, k - LowBit(k));
    PrefixMonotone(w[idx := v], k, |w|);
  }

  /** What every cell must hold: the weights of the positions it covers. */
  ghost predicate CellsMatch(w: seq<nat>, cells: seq<nat>) {
    && |cells| == |w| + 1
    && forall k :: 1 <= k < |cells| ==> cells[k] == Span(w, k, |w|)
  }

  /** What the cells hold after a rebuild, whatever the weights. */
  ghost predicate Saturated(w: seq<nat>, cells: seq<nat>) {
    && |cells| == |w| + 1
    && forall k :: 1 <= k < |cells| ==> cells[k] == ToU32(Span(w, k, |w|))
  }

  lemma SpanBelowTotal(w: seq<nat>, k: nat)
    requires 0 < k <= |w|
    ensures Span(w, k, |w|) <= Total(w)
  {
    PrefixMonotone(w, k, |w|);
  }

  /** Saturation bites only above 32 bits. */
  lemma SaturatedMatch(w: seq<nat>, cells: seq<nat>)
    requires Saturated(w, cells) && Total(w) <= U32_MAX
    ensures CellsMatch(w, cells)
  {
    forall k | 1 <= k < |cells| ensures cells[k] == Span(w, k, |w|) { SpanBelowTotal(w, k); }
  }

  /** A cell after one of its weights went from `ow` to `nw`. */
  function Moved(cell: nat, ow: nat, nw: nat): nat {
    if nw == ow then cell else if nw > ow then SaturatingAdd(cell, nw - ow) else SaturatingSub(cell, ow - nw)
  }

  lemma MovedMatch(w: seq<nat>, cells: seq<nat>, w': seq<nat>, cells': seq<nat>, idx: nat, v: nat)
    requires CellsMatch(w, cells) && idx < |w| && w' == w[idx := v] && Total(w') <= U32_MAX && |cells'| == |cells|
    requires forall k :: 1 <= k < |cells| ==>
      cells'[k] == if Covers(k, idx + 1) then Moved(cells[k], w[idx], v) else cells[k]
    ensures CellsMatch(w', cells')
  {
    forall k | 1 <= k < |cells| ensures cells'[k] == Span(w', k, |w'|) { SpanUpdate(w, idx, v, k); }
  }

  lemma HalfPower(b: nat)
    requires IsPower2(b)
    ensures if b == 1 then b / 2 == 0 else b == 2 * (b / 2) && IsPower2(b / 2)
  {
  }

  /** One step of the descent: the next cell counts exactly the step. */
  lemma StepDown(w: seq<nat>, cells: seq<nat>, idx: nat, bit: nat)
    requires CellsMatch(w, cells) && IsPower2(bit) && (idx > 0 ==> LowBit(idx) >= 2 * bit) && idx + bit < |cells|
    ensures LowBit(idx + bit) == bit && Prefix(w, idx) + cells[idx + bit] == Prefix(w, idx + bit)
  {
    LowBitOfStep(idx, bit);
  }

  /** What the descent knows: `idx` lies before the target, and with the next
      steps it cannot be passed over. */
  ghost predicate Narrowed(w: seq<nat>, target: nat, idx: nat, bit: nat) {
    && idx <= |w| && Prefix(w, idx) < target
    && (bit > 0 ==> IsPower2(bit) && (idx > 0 ==> LowBit(idx) >= 2 * bit))
    && var next := idx + if bit > 0 then 2 * bit else 1; next > |w| || target <= Prefix(w, next)
  }

  lemma NarrowStep(w: seq<nat>, cells: seq<nat>, target: nat, idx: nat, bit: nat)
    requires CellsMatch(w, cells) && bit > 0 && Narrowed(w, target, idx, bit)
    ensures if idx + bit < |cells| && Prefix(w, idx) + cells[idx + bit] < target
      then Prefix(w, idx) + cells[idx + bit] == Prefix(w, idx + bit) && Narrowed(w, target, idx + bit, bit / 2)
      else Narrowed(w, target, idx, bit / 2)
  {
    HalfPower(bit);
    if idx + bit < |cells| { StepDown(w, cells, idx, bit); }
  }

  /** The binary descent from the largest power of two. */
  method Descend(w: seq<nat>, cells: seq<nat>, target: nat) returns (idx: nat)
    requires CellsMatch(w, cells) && 0 < target <= Total(w)
    ensures idx < |w| && Prefix(w, idx) < target <= Prefix(w, idx + 1)
  {
    var bit: nat := 1;
    while bit < |cells|
      invariant IsPower2(bit)
      decreases |cells| - bit
    {
      bit := 2 * bit;
    }
    var running := 0;
    idx := 0;
    while bit > 0
      invariant Narrowed(w, target, idx, bit) && running == Prefix(w, idx)
      decreases bit
    {
      NarrowStep(w, cells, target, idx, bit);
      var next := idx + bit;
      if next < |cells| {
        var cand := running + cells[next];
        if cand < target {
          idx, running := next, cand;
        }
      }
      bit := bit / 2;
    }
  }

  class CountedPositionIndex {
    var weights: seq<nat>
    var fenwick: seq<nat>

    /** Saturation never bites: every partial sum fits 32 bits. */
    ghost predicate Valid()
      reads this
    {
      && Total(weights) <= U32_MAX
      && (fenwick == [] ==> weights == [])
      && (fenwick != [] ==> CellsMatch(weights, fenwick))
    }

    constructor ()
      ensures Valid() && weights == []
    {
      weights, fenwick := [], [];
    }

    /** Adds `delta` to exactly the cells that cover `idx1`. */
    method AddU32(idx1: nat, delta: nat)
      requires idx1 > 0
      modifies `fenwick
      ensures |fenwick| == old(|fenwick|)
      ensures forall k :: 1 <= k < |fenwick| ==>
        fenwick[k] == if Covers(k, idx1) then SaturatingAdd(old(fenwick)[k], delta) else old(fenwick)[k]
    {
      var j := idx1;
      while j < |fenwick|
        invariant idx1 <= j && Covers(j, idx1)
        invariant |fenwick| == old(|fenwick|)
        invariant forall k :: 1 <= k < |fenwick| ==>
          fenwick[k] == if k < j && Covers(k, idx1) then SaturatingAdd(old(fenwick)[k], delta) else old(fenwick)[k]
        decreases |fenwick| - j
      {
        fenwick := fenwick[j := SaturatingAdd(fenwick[j], delta)];
        WalkStep(j, idx1);
        j := j + LowBit(j);
      }
    }

    /** Subtracts `delta` from exactly the cells that cover `idx1`. */
    method SubU32(idx1: nat, delta: nat)
      requires idx1 > 0
      modifies `fenwick
      ensures |fenwick| == old(|fenwick|)
      ensures forall k :: 1 <= k < |fenwick| ==>
        fenwick[k] == if Covers(k, idx1) then SaturatingSub(old(fenwick)[k], delta) else old(fenwick)[k]
    {
      var j := idx1;
      while j < |fenwick|
        invariant idx1 <= j && Covers(j, idx1)
        invariant |fenwick| == old(|fenwick|)
        invariant forall k :: 1 <= k < |fenwick| ==>
          fenwick[k] == if k < j && Covers(k, idx1) then SaturatingSub(old(fenwick)[k], delta) else old(fenwick)[k]
        decreases |fenwick| - j
      {
        fenwick := fenwick[j := SaturatingSub(fenwick[j], delta)];
        WalkStep(j, idx1);
        j := j + LowBit(j);
      }
    }

    /** Replaces all weights, each cut to 32 bits. */
    method RebuildFromWeights(ws: seq<nat>)
      modifies this
      ensures |weights| == |ws| && forall i :: 0 <= i < |ws| ==> weights[i] == ToU32(ws[i])
      ensures Saturated(weights, fenwick)
      ensures Total(ws) <= U32_MAX ==> Valid() && weights == ws
    {
      weights := seq(|ws|, i requires 0 <= i < |ws| => ToU32(ws[i]));
      if Total(ws) <= U32_MAX {
        forall i | 0 <= i < |ws| ensures ToU32(ws[i]) == ws[i] { WeightBelowTotal(ws, i); }
        assert weights == ws;
      }
      RebuildFenwick();
    }

    method RebuildFenwick()
      modifies `fenwick
      ensures fenwick != [] && Saturated(weights, fenwick)
      ensures Total(weights) <= U32_MAX ==> Valid()
    {
      fenwick := seq(|weights| + 1, _ => 0);
      for i := 0 to |weights|
        invariant |fenwick| == |weights| + 1
        invariant forall k :: 1 <= k < |fenwick| ==> fenwick[k] == ToU32(Span(weights, k, i))
      {
        forall k | 1 <= k < |fenwick|
          ensures Span(weights, k, i + 1) == Span(weights, k, i) + if Covers(k, i + 1) then weights[i] else 0
        {
          SpanGrows(weights, k, i);
        }
        AddU32(i + 1, weights[i]);
      }
      if Total(weights) <= U32_MAX { SaturatedMatch(weights, fenwick); }
    }

    /** One weight changes, or nothing when `idx` is out of range; exactly the cells
        that cover it follow, as far as 32 bits go. */
    method UpdateWeight(idx: nat, newWeight: nat)
      modifies this
      ensures weights == if idx < |old(weights)| then old(weights)[idx := ToU32(newWeight)] else old(weights)
      ensures |fenwick| == |old(fenwick)|
      ensures forall k :: 1 <= k < |fenwick| ==>
        (fenwick[k] == if idx < |old(weights)| && Covers(k, idx + 1)
                       then Moved(old(fenwick)[k], old(weights)[idx], ToU32(newWeight)) else old(fenwick)[k])
      ensures old(Valid()) && (idx < |old(weights)| ==> Total(old(weights)[idx := newWeight]) <= U32_MAX) ==>
        Valid() && (idx < |old(weights)| ==> weights == old(weights)[idx := newWeight])
    {
      if idx >= |weights| { return; }
      var nw := ToU32(newWeight);
      var ow := weights[idx];
      ghost var before, cells := weights, fenwick;
      if ow != nw {
        weights := weights[idx := nw];
        if nw > ow {
          AddU32(idx + 1, nw - ow);
        } else {
          SubU32(idx + 1, ow - nw);
        }
      }
      if old(Valid()) && Total(before[idx := newWeight]) <= U32_MAX {
        WeightBelowTotal(before[idx := newWeight], idx);
        MovedMatch(before, cells, weights, fenwick, idx, newWeight);
      }
    }

    /** Sum of the first `i` weights, `i` clamped to their number. */
    method PrefixSum(i: nat) returns (acc: nat)
      requires Valid()
      ensures acc == Prefix(weights, Min(i, |weights|))
    {
      var j := Min(i, SaturatingSub(|fenwick|, 1));
      acc := 0;
      while j > 0
        invariant 0 <= j <= Min(i, |weights|)
        invariant j > 0 ==> |fenwick| == |weights| + 1
        invariant acc + Prefix(weights, j) == Prefix(weights, Min(i, |weights|))
      {
        acc := acc + fenwick[j];
        j := j - LowBit(j);
      }
    }

    method TotalLen() returns (n: nat)
      requires Valid()
      ensures n == Total(weights)
    {
      n := PrefixSum(|weights|);
    }

    /** The entry whose span of the running sum contains `target`. */
    method LowerBound(target: nat) returns (r: Option<nat>)
      requires Valid()
      ensures r.None? <==> target == 0 || target > Total(weights)
      ensures r.Some? ==> r.value < |weights| && Prefix(weights, r.value) < target <= Prefix(weights, r.value + 1)
    {
      if target == 0 || weights == [] { return None; }
      var total := PrefixSum(|weights|);
      if target > total { return None; }
      var idx := Descend(weights, fenwick, target);
      return Some(idx);
    }

    /** Offset to `(entry, offset inside the entry)`. */
    method SelectOffset(offset: nat) returns (r: Option<(nat, nat)>)
      requires Valid()
      ensures r.None? <==> offset >= Total(weights)
      ensures r.Some? ==>
        && r.value.0 < |weights| && r.value.1 < weights[r.value.0]
        && Prefix(weights, r.value.0) + r.value.1 == offset
    {
      var total := TotalLen();
      if offset >= total { return None; }
      var e := LowerBound(offset + 1);
      var start := PrefixSum(e.value);
      return Some((e.value, SaturatingSub(offset, start)));
    }
  }

  /** One step of the update walk skips only cells that do not cover `p`. */
  lemma WalkStep(j: nat, p: nat)
    requires j > 0 && Covers(j, p)
    ensures Covers(j + LowBit(j), p)
    ensures forall k :: j < k < j + LowBit(j) ==> !Covers(k, p)
  {
    LowBitNext(j);
    forall k | j < k < j + LowBit(j) ensures !Covers(k, p) { LowBitGap(j, k); }
  }

  lemma WeightBelowTotal(w: seq<nat>, i: nat)
    requires i < |w|
    ensures w[i] <= Total(w)
  {
    PrefixMonotone(w, i + 1, |w|);
  }
}
