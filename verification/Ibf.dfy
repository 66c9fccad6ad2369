/** The invertible Bloom filter used for set reconciliation: insertion,
    subtraction and peeling (core/crdt/src/ibf.rs). */
module Ibf {
  import opened Core

  const IBF_CELLS: nat := 80
  const IBF_K: nat := 3

  /** A byte string as the set of its one-bits; an id, a checksum or a sum. */
  type Bits = set<nat>

  /** The hash functions: the cells of an id and its checksum. */
  datatype Hashing = Hashing(spots: Bits -> seq<nat>, checksum: Bits -> Bits) {
    ghost predicate Valid() {
      forall id :: |spots(id)| == IBF_K && forall j :: 0 <= j < IBF_K ==> spots(id)[j] < IBF_CELLS
    }
  }

  datatype Cell = Cell(count: int, idSum: Bits, hashSum: Bits)

  const EMPTY := Cell(0, {}, {})

  // ----- The group of cells -----

  function Xor(a: Bits, b: Bits): Bits {
    (a - b) + (b - a)
  }

  function Plus(a: Cell, b: Cell): Cell {
    Cell(a.count + b.count, Xor(a.idSum, b.idSum), Xor(a.hashSum, b.hashSum))
  }

  function Neg(a: Cell): Cell {
    a.(count := -a.count)
  }

  function Minus(a: Cell, b: Cell): Cell {
    Cell(a.count - b.count, Xor(a.idSum, b.idSum), Xor(a.hashSum, b.hashSum))
  }

  lemma XorLaws(a: Bits, b: Bits, c: Bits)
    ensures Xor(a, b) == Xor(b, a)
    ensures Xor(Xor(a, b), c) == Xor(a, Xor(b, c))
    ensures Xor(a, {}) == a && Xor(a, a) == {}
  {
  }

  lemma CellLaws(a: Cell, b: Cell, c: Cell)
    ensures Plus(a, b) == Plus(b, a)
    ensures Plus(Plus(a, b), c) == Plus(a, Plus(b, c))
    ensures Plus(a, EMPTY) == a && Plus(a, Neg(a)) == EMPTY && Minus(a, b) == Plus(a, Neg(b))
  {
    XorLaws(a.idSum, b.idSum, c.idSum);
    XorLaws(a.hashSum, b.hashSum, c.hashSum);
  }

  // ----- What an id contributes to a cell -----

  /** How many of the first `k` indices of the id are cell `i`. */
  function HitsTo(spots: seq<nat>, i: nat, k: nat): nat
    requires k <= |spots|
  {
    if k == 0 then 0 else HitsTo(spots, i, k - 1) + if spots[k - 1] == i then 1 else 0
  }

  /** One hit. */
  function Mark(h: Hashing, id: Bits): Cell {
    Cell(1, id, h.checksum(id))
  }

  /** `k` hits on the same cell: the sums cancel in pairs. */
  function Marks(h: Hashing, id: Bits, k: nat): Cell {
    if k == 0 then EMPTY else Plus(Marks(h, id, k - 1), Mark(h, id))
  }

  function Contribution(h: Hashing, id: Bits, i: nat): Cell {
    Marks(h, id, HitsTo(h.spots(id), i, |h.spots(id)|))
  }

  /** Cell `i` of the filter of the first `k` ids. */
  function SumTo(h: Hashing, ids: seq<Bits>, i: nat, k: nat): Cell
    requires k <= |ids|
  {
    if k == 0 then EMPTY else Plus(SumTo(h, ids, i, k - 1), Contribution(h, ids[k - 1], i))
  }

  function Sum(h: Hashing, ids: seq<Bits>, i: nat): Cell {
    SumTo(h, ids, i, |ids|)
  }

  lemma {:induction false} SumAppend(h: Hashing, ids: seq<Bits>, id: Bits, i: nat, k: nat)
    requires k <= |ids|
    ensures SumTo(h, ids + [id], i, k) == SumTo(h, ids, i, k)
  {
    if k > 0 { SumAppend(h, ids, id, i, k - 1); }
  }

  lemma SumSnoc(h: Hashing, ids: seq<Bits>, id: Bits, i: nat)
    ensures Sum(h, ids + [id], i) == Plus(Sum(h, ids, i), Contribution(h, id, i))
  {
    SumAppend(h, ids, id, i, |ids|);
  }

  // ----- The filter -----

  ghost predicate Holds(h: Hashing, cells: seq<Cell>, ids: seq<Bits>) {
    |cells| == IBF_CELLS && forall i :: 0 <= i < IBF_CELLS ==> cells[i] == Sum(h, ids, i)
  }

  /** The cells of the first `k` ids. */
  ghost predicate HoldsTo(h: Hashing, cells: seq<Cell>, ids: seq<Bits>, k: nat) {
    k <= |ids| && |cells| == IBF_CELLS && forall i :: 0 <= i < IBF_CELLS ==> cells[i] == SumTo(h, ids, i, k)
  }

  lemma HoldsMore(h: Hashing, cells: seq<Cell>, cells': seq<Cell>, ids: seq<Bits>, k: nat)
    requires k < |ids| && HoldsTo(h, cells, ids, k) && |cells'| == IBF_CELLS
    requires forall i :: 0 <= i < IBF_CELLS ==> cells'[i] == Plus(cells[i], Contribution(h, ids[k], i))
    ensures HoldsTo(h, cells', ids, k + 1)
  {
  }

  /** Add a mark, or take one away, at each index of an id; indices that coincide
      are hit repeatedly. */
  method Touch(cells: array<Cell>, h: Hashing, id: Bits, adding: bool)
    requires h.Valid() && cells.Length == IBF_CELLS
    modifies cells
    ensures forall i :: 0 <= i < IBF_CELLS ==>
      cells[i] == if adding then Plus(old(cells[i]), Contribution(h, id, i))
        else Minus(old(cells[i]), Contribution(h, id, i))
  {
    var spots, mark := h.spots(id), Mark(h, id);
    forall i | 0 <= i < IBF_CELLS ensures Plus(cells[i], EMPTY) == cells[i] && Minus(cells[i], EMPTY) == cells[i] {
      CellLaws(cells[i], EMPTY, EMPTY);
    }
    for k := 0 to |spots|
      invariant forall i :: 0 <= i < IBF_CELLS ==>
        cells[i] == if adding then Plus(old(cells[i]), Marks(h, id, HitsTo(spots, i, k)))
          else Minus(old(cells[i]), Marks(h, id, HitsTo(spots, i, k)))
    {
      var s := spots[k];
      MarkMore(old(cells[s]), h, id, HitsTo(spots, s, k));
      cells[s] := if adding then Plus(cells[s], mark) else Minus(cells[s], mark);
    }
  }

  lemma MarkMore(c: Cell, h: Hashing, id: Bits, k: nat)
    ensures Plus(Plus(c, Marks(h, id, k)), Mark(h, id)) == Plus(c, Marks(h, id, k + 1))
    ensures Minus(Minus(c, Marks(h, id, k)), Mark(h, id)) == Minus(c, Marks(h, id, k + 1))
  {
    CellLaws(c, Marks(h, id, k), Mark(h, id));
  }

  /** The filter object: cells updated in place. */
  class Filter {
    const h: Hashing
    const cells: array<Cell>

    ghost predicate Valid()
      reads this
    {
      h.Valid() && cells.Length == IBF_CELLS
    }

    constructor (hashing: Hashing)
      requires hashing.Valid()
      ensures Valid() && h == hashing && fresh(cells) && cells.Length == 80 && Holds(h, cells[..], [])
    {
      h := hashing;
      cells := new Cell[IBF_CELLS](_ => EMPTY);
    }

    method Insert(id: Bits)
      requires Valid()
      modifies cells
      ensures forall i :: 0 <= i < IBF_CELLS ==> cells[i] == Plus(old(cells[i]), Contribution(h, id, i))
    {
      Touch(cells, h, id, true);
    }

    static method FromIds(h: Hashing, ids: seq<Bits>) returns (f: Filter)
      requires h.Valid()
      ensures fresh(f) && fresh(f.cells) && f.Valid() && f.h == h && Holds(h, f.cells[..], ids)
    {
      f := new Filter(h);
      for k := 0 to |ids|
        invariant fresh(f) && fresh(f.cells) && f.Valid() && f.h == h
        invariant HoldsTo(h, f.cells[..], ids, k)
      {
        ghost var before := f.cells[..];
        f.Insert(ids[k]);
        HoldsMore(h, before, f.cells[..], ids, k);
      }
    }

    /** Take another filter away, cell by cell. */
    method Subtract(other: Filter)
      requires Valid() && other.Valid() && cells != other.cells
      modifies cells
      ensures forall i :: 0 <= i < IBF_CELLS ==> cells[i] == Minus(old(cells[i]), other.cells[i])
    {
      for k := 0 to IBF_CELLS
        invariant forall i :: 0 <= i < k ==> cells[i] == Minus(old(cells[i]), other.cells[i])
        invariant forall i :: k <= i < IBF_CELLS ==> cells[i] == old(cells[i])
      {
        cells[k] := Minus(cells[k], other.cells[k]);
      }
    }
  }

  // ----- Peeling -----

  /** A cell that looks like exactly one id. */
  predicate Pure(h: Hashing, c: Cell) {
    (c.count == 1 || c.count == -1) && h.checksum(c.idSum) == c.hashSum
  }

  /** What the two lists of a peeling account for in cell `i`. */
  function Peeled(h: Hashing, mine: seq<Bits>, theirs: seq<Bits>, i: nat): Cell {
    Minus(Sum(h, mine, i), Sum(h, theirs, i))
  }

  lemma PeelMine(h: Hashing, c: Cell, mine: seq<Bits>, theirs: seq<Bits>, id: Bits, i: nat)
    ensures Plus(Minus(c, Contribution(h, id, i)), Peeled(h, mine + [id], theirs, i)) ==
      Plus(c, Peeled(h, mine, theirs, i))
  {
    SumSnoc(h, mine, id, i);
    var x, m, t := Contribution(h, id, i), Sum(h, mine, i), Sum(h, theirs, i);
    Regroup(c, x, m, t);
  }

  lemma PeelTheirs(h: Hashing, c: Cell, mine: seq<Bits>, theirs: seq<Bits>, id: Bits, i: nat)
    ensures Plus(Plus(c, Contribution(h, id, i)), Peeled(h, mine, theirs + [id], i)) ==
      Plus(c, Peeled(h, mine, theirs, i))
  {
    SumSnoc(h, theirs, id, i);
    var x, m, t := Contribution(h, id, i), Sum(h, mine, i), Sum(h, theirs, i);
    Regroup(c, x, m, t);
  }

  lemma Regroup(c: Cell, x: Cell, m: Cell, t: Cell)
    ensures Plus(Minus(c, x), Minus(Plus(m, x), t)) == Plus(c, Minus(m, t))
    ensures Plus(Plus(c, x), Minus(m, Plus(t, x))) == Plus(c, Minus(m, t))
  {
    XorRegroup(c.idSum, x.idSum, m.idSum, t.idSum);
    XorRegroup(c.hashSum, x.hashSum, m.hashSum, t.hashSum);
  }

  lemma XorRegroup(c: Bits, x: Bits, m: Bits, t: Bits)
    ensures Xor(Xor(c, x), Xor(Xor(m, x), t)) == Xor(c, Xor(m, t))
    ensures Xor(Xor(c, x), Xor(m, Xor(t, x))) == Xor(c, Xor(m, t))
  {
  }

  // ----- When peeling is exact -----

  /** A pure-looking cell of the difference of `ds` and `es` holds an id of the
      side its count says. */
  ghost predicate TruePure(h: Hashing, ds: seq<Bits>, es: seq<Bits>, i: nat) {
    var c := Peeled(h, ds, es, i);
    Pure(h, c) ==> if c.count == 1 then c.idSum in ds else c.idSum in es
  }

  /** No false pure cell in any signed part of the difference. */
  ghost predicate NoFalsePure(h: Hashing, d: set<Bits>, e: set<Bits>) {
    forall ds, es, i :: Elements(ds) <= d && Elements(es) <= e && NoDuplicates(ds) && NoDuplicates(es)
      && 0 <= i < IBF_CELLS
      ==> TruePure(h, ds, es, i)
  }

  /** One side of a peeling: what is left and what has been taken, together the
      original, nothing twice. */
  ghost predicate Splits(left: seq<Bits>, taken: seq<Bits>, all: set<Bits>) {
    && NoDuplicates(left) && NoDuplicates(taken)
    && (forall x :: x in left ==> x !in taken)
    && Elements(left) + Elements(taken) == all
  }

  lemma TakeOne(left: seq<Bits>, taken: seq<Bits>, all: set<Bits>, p: nat)
    requires Splits(left, taken, all) && p < |left|
    ensures Splits(RemoveAt(left, p), taken + [left[p]], all)
  {
    var rest := RemoveAt(left, p);
    PushNew(taken, left[p]);
    forall i, j | 0 <= i < j < |rest| ensures Differ(rest, i, j) {
      assert Differ(left, if i < p then i else i + 1, if j < p then j else j + 1);
    }
    forall i | 0 <= i < |rest| ensures rest[i] in left && rest[i] != left[p] {
      assert rest[i] == left[if i < p then i else i + 1];
      assert if i < p then Differ(left, i, p) else Differ(left, p, i + 1);
    }
    forall x | x in left && x != left[p] ensures x in rest {
      var i :| 0 <= i < |left| && left[i] == x;
      assert rest[if i < p then i else i - 1] == x;
    }
  }

  lemma {:induction false} SumRemove(h: Hashing, ids: seq<Bits>, p: nat, i: nat, k: nat)
    requires p < |ids| && k < |ids|
    ensures p <= k ==> Plus(SumTo(h, RemoveAt(ids, p), i, k), Contribution(h, ids[p], i)) == SumTo(h, ids, i, k + 1)
    ensures k <= p ==> SumTo(h, RemoveAt(ids, p), i, k) == SumTo(h, ids, i, k)
  {
    var rest := RemoveAt(ids, p);
    if k > 0 {
      SumRemove(h, ids, p, i, k - 1);
      if p < k {
        assert rest[k - 1] == ids[k];
        Swap(SumTo(h, rest, i, k - 1), Contribution(h, ids[k], i), Contribution(h, ids[p], i));
      } else {
        assert rest[k - 1] == ids[k - 1];
      }
    }
  }

  lemma Swap(a: Cell, b: Cell, c: Cell)
    ensures Plus(Plus(a, b), c) == Plus(Plus(a, c), b)
  {
    CellLaws(a, b, c);
    CellLaws(a, c, b);
    CellLaws(b, c, a);
  }

  /** Taking an id off one side is what peeling it does to every cell. */
  lemma PeelRemovesMine(h: Hashing, ds: seq<Bits>, es: seq<Bits>, p: nat, i: nat)
    requires p < |ds|
    ensures Minus(Peeled(h, ds, es, i), Contribution(h, ds[p], i)) == Peeled(h, RemoveAt(ds, p), es, i)
  {
    SumRemove(h, ds, p, i, |ds| - 1);
    Cancelled(Sum(h, RemoveAt(ds, p), i), Contribution(h, ds[p], i), Sum(h, es, i));
  }

  lemma PeelRemovesTheirs(h: Hashing, ds: seq<Bits>, es: seq<Bits>, p: nat, i: nat)
    requires p < |es|
    ensures Plus(Peeled(h, ds, es, i), Contribution(h, es[p], i)) == Peeled(h, ds, RemoveAt(es, p), i)
  {
    SumRemove(h, es, p, i, |es| - 1);
    Cancelled(Sum(h, RemoveAt(es, p), i), Contribution(h, es[p], i), Sum(h, ds, i));
  }

  lemma Cancelled(m: Cell, x: Cell, t: Cell)
    ensures Minus(Minus(Plus(m, x), t), x) == Minus(m, t)
    ensures Plus(Minus(t, Plus(m, x)), x) == Minus(t, m)
  {
    XorCancelled(m.idSum, x.idSum, t.idSum);
    XorCancelled(m.hashSum, x.hashSum, t.hashSum);
  }

  lemma XorCancelled(m: Bits, x: Bits, t: Bits)
    ensures Xor(Xor(Xor(m, x), t), x) == Xor(m, t)
    ensures Xor(Xor(t, Xor(m, x)), x) == Xor(t, m)
  {
  }

  /** An id that hits some cell exactly once. */
  ghost predicate LoneSpot(h: Hashing, id: Bits) {
    exists i :: 0 <= i < IBF_CELLS && HitsTo(h.spots(id), i, |h.spots(id)|) == 1
  }

  /** Where all cells are zero, an id of one side shows up as a pure cell of the
      rest, and so is an id of the other side. */
  lemma HiddenMine(h: Hashing, ds: seq<Bits>, es: seq<Bits>, d: set<Bits>, e: set<Bits>)
    requires NoFalsePure(h, d, e) && ds != [] && LoneSpot(h, ds[0])
    requires NoDuplicates(ds) && NoDuplicates(es) && Elements(ds) <= d && Elements(es) <= e
    requires forall i :: 0 <= i < IBF_CELLS ==> Peeled(h, ds, es, i) == EMPTY
    ensures ds[0] in Elements(ds) && ds[0] in Elements(es)
  {
    var x := ds[0];
    var i :| 0 <= i < IBF_CELLS && HitsTo(h.spots(x), i, |h.spots(x)|) == 1;
    assert Splits(ds, [], Elements(ds));
    TakeOne(ds, [], Elements(ds), 0);
    PeelRemovesMine(h, ds, es, 0, i);
    LoneMark(h, x, i);
    assert TruePure(h, RemoveAt(ds, 0), es, i);
  }

  lemma HiddenTheirs(h: Hashing, ds: seq<Bits>, es: seq<Bits>, d: set<Bits>, e: set<Bits>)
    requires NoFalsePure(h, d, e) && es != [] && LoneSpot(h, es[0])
    requires NoDuplicates(ds) && NoDuplicates(es) && Elements(ds) <= d && Elements(es) <= e
    requires forall i :: 0 <= i < IBF_CELLS ==> Peeled(h, ds, es, i) == EMPTY
    ensures es[0] in Elements(ds) && es[0] in Elements(es)
  {
    var x := es[0];
    var i :| 0 <= i < IBF_CELLS && HitsTo(h.spots(x), i, |h.spots(x)|) == 1;
    assert Splits(es, [], Elements(es));
    TakeOne(es, [], Elements(es), 0);
    PeelRemovesTheirs(h, ds, es, 0, i);
    LoneMark(h, x, i);
    assert TruePure(h, ds, RemoveAt(es, 0), i);
  }

  /** So nothing left over hides in all-zero cells. */
  lemma NothingHides(h: Hashing, ds: seq<Bits>, es: seq<Bits>, d: set<Bits>, e: set<Bits>)
    requires NoFalsePure(h, d, e) && d !! e && (forall x :: x in d + e ==> LoneSpot(h, x))
    requires NoDuplicates(ds) && NoDuplicates(es) && Elements(ds) <= d && Elements(es) <= e
    requires forall i :: 0 <= i < IBF_CELLS ==> Peeled(h, ds, es, i) == EMPTY
    ensures ds == [] && es == []
  {
    if ds != [] {
      assert ds[0] in d + e;
      HiddenMine(h, ds, es, d, e);
    }
    if es != [] {
      assert es[0] in d + e;
      HiddenTheirs(h, ds, es, d, e);
    }
  }

  lemma LoneMark(h: Hashing, x: Bits, i: nat)
    requires HitsTo(h.spots(x), i, |h.spots(x)|) == 1
    ensures Minus(EMPTY, Contribution(h, x, i)) == Cell(-1, x, h.checksum(x))
    ensures Plus(EMPTY, Contribution(h, x, i)) == Cell(1, x, h.checksum(x))
  {
    assert Marks(h, x, 1) == Plus(Marks(h, x, 0), Mark(h, x));
    XorLaws({}, x, {});
    XorLaws({}, h.checksum(x), {});
    XorLaws(x, {}, {});
    XorLaws(h.checksum(x), {}, {});
  }

  // ----- Why a lone spot is needed -----

  // Hash functions that put every id three times into the first cell, and two
  // pairs of ids with the same sum.
  const STACKED := Hashing((id: Bits) => [0, 0, 0], (id: Bits) => {})
  const PAIR: seq<Bits> := [{}, {0, 1}]
  const OTHER_PAIR: seq<Bits> := [{0}, {1}]

  lemma StackedContribution(id: Bits, i: nat)
    ensures Contribution(STACKED, id, i) == if i == 0 then Cell(3, id, {}) else EMPTY
  {
    var spots := STACKED.spots(id);
    assert HitsTo(spots, i, 0) == 0;
    assert HitsTo(spots, i, 1) == if i == 0 then 1 else 0;
    assert HitsTo(spots, i, 2) == if i == 0 then 2 else 0;
    assert HitsTo(spots, i, 3) == if i == 0 then 3 else 0;
    assert Marks(STACKED, id, 1) == Cell(1, id, {});
    assert Marks(STACKED, id, 2) == Cell(2, {}, {});
    assert Marks(STACKED, id, 3) == Cell(3, id, {});
  }

  lemma {:induction false} StackedCount(ids: seq<Bits>, i: nat, k: nat)
    requires k <= |ids|
    ensures SumTo(STACKED, ids, i, k).count == if i == 0 then 3 * k else 0
  {
    if k > 0 {
      StackedCount(ids, i, k - 1);
      StackedContribution(ids[k - 1], i);
    }
  }

  lemma PairSum(h: Hashing, a: Bits, b: Bits, i: nat)
    ensures Sum(h, [a, b], i) == Plus(Contribution(h, a, i), Contribution(h, b, i))
  {
    SumSnoc(h, [a], b, i);
    assert [a] + [b] == [a, b];
    assert SumTo(h, [a], i, 1) == Plus(SumTo(h, [a], i, 0), Contribution(h, a, i));
    CellLaws(Contribution(h, a, i), EMPTY, EMPTY);
    CellLaws(EMPTY, Contribution(h, a, i), EMPTY);
  }

  lemma StackedCancels(a: Bits, b: Bits, c: Bits, d: Bits, i: nat)
    requires Xor(a, b) == Xor(c, d)
    ensures Peeled(STACKED, [a, b], [c, d], i) == EMPTY
  {
    PairSum(STACKED, a, b, i);
    PairSum(STACKED, c, d, i);
    StackedContribution(a, i);
    StackedContribution(b, i);
    StackedContribution(c, i);
    StackedContribution(d, i);
    XorLaws(Xor(a, b), {}, {});
    XorLaws({}, {}, {});
  }

  lemma StackedNeverPure(ds: seq<Bits>, es: seq<Bits>, i: nat)
    ensures TruePure(STACKED, ds, es, i)
  {
    StackedCount(ds, i, |ds|);
    StackedCount(es, i, |es|);
  }

  /** Without a lone spot a difference of four ids can cancel to all-zero cells,
      although no pure-looking cell is ever false. */
  lemma StackedHides()
    ensures NoFalsePure(STACKED, Elements(PAIR), Elements(OTHER_PAIR)) && Elements(PAIR) !! Elements(OTHER_PAIR)
    ensures forall i :: 0 <= i < IBF_CELLS ==> Peeled(STACKED, PAIR, OTHER_PAIR, i) == EMPTY
  {
    forall ds, es, i | 0 <= i < IBF_CELLS ensures TruePure(STACKED, ds, es, i) { StackedNeverPure(ds, es, i); }
    var a: Bits, b: Bits, c: Bits, d: Bits := {}, {0, 1}, {0}, {1};
    assert Xor(a, b) == Xor(c, d);
    forall i | 0 <= i < IBF_CELLS ensures Peeled(STACKED, PAIR, OTHER_PAIR, i) == EMPTY {
      StackedCancels(a, b, c, d, i);
    }
  }

  // ----- Decoding -----

  /** The hypotheses on the hash functions under which decoding is exact. */
  ghost predicate Separable(h: Hashing, d: set<Bits>, e: set<Bits>) {
    NoFalsePure(h, d, e) && forall x :: x in d + e ==> LoneSpot(h, x)
  }

  ghost predicate Clean(h: Hashing, ds: seq<Bits>, es: seq<Bits>) {
    && NoDuplicates(ds) && NoDuplicates(es) && Elements(ds) !! Elements(es)
    && Separable(h, Elements(ds), Elements(es))
  }

  /** Every mark peeled so far is accounted for. */
  ghost predicate Conserved(h: Hashing, original: seq<Cell>, work: seq<Cell>, mine: seq<Bits>, theirs: seq<Bits>) {
    |original| == |work| == IBF_CELLS &&
    forall i :: 0 <= i < IBF_CELLS ==> Plus(work[i], Peeled(h, mine, theirs, i)) == original[i]
  }

  ghost predicate Encodes(h: Hashing, cells: seq<Cell>, ds: seq<Bits>, es: seq<Bits>) {
    |cells| == IBF_CELLS && forall i :: 0 <= i < IBF_CELLS ==> cells[i] == Peeled(h, ds, es, i)
  }

  method FindPure(h: Hashing, cells: array<Cell>) returns (k: int)
    requires cells.Length == IBF_CELLS
    ensures -1 <= k < IBF_CELLS
    ensures k >= 0 ==> Pure(h, cells[k])
    ensures k >= 0 ==> (cells[k].count == 1 || cells[k].count == -1) && cells[k].hashSum == h.checksum(cells[k].idSum)
    ensures forall i :: 0 <= i < (if k < 0 then IBF_CELLS else k) ==> !Pure(h, cells[i])
    ensures forall i :: 0 <= i < (if k < 0 then IBF_CELLS else k) ==>
      (cells[i].count != 1 && cells[i].count != -1) || cells[i].hashSum != h.checksum(cells[i].idSum)
  {
    for i := 0 to IBF_CELLS
      invariant forall j :: 0 <= j < i ==> !Pure(h, cells[j])
    {
      if Pure(h, cells[i]) { return i; }
    }
    return -1;
  }

  /** Peel one pure cell. */
  method Peel(h: Hashing, work: array<Cell>, k: nat, mine: seq<Bits>, theirs: seq<Bits>, ghost original: seq<Cell>)
    returns (mine': seq<Bits>, theirs': seq<Bits>)
    requires h.Valid() && work.Length == IBF_CELLS && k < IBF_CELLS && Pure(h, work[k])
    requires Conserved(h, original, work[..], mine, theirs)
    modifies work
    ensures Conserved(h, original, work[..], mine', theirs')
    ensures old(work[k]).count == 1 ==>
      && mine' == mine + [old(work[k]).idSum] && theirs' == theirs
      && forall i :: 0 <= i < IBF_CELLS ==> work[i] == Minus(old(work[i]), Contribution(h, old(work[k]).idSum, i))
    ensures old(work[k]).count == -1 ==>
      && mine' == mine && theirs' == theirs + [old(work[k]).idSum]
      && forall i :: 0 <= i < IBF_CELLS ==> work[i] == Plus(old(work[i]), Contribution(h, old(work[k]).idSum, i))
  {
    var c := work[k];
    ghost var was := work[..];
    Touch(work, h, c.idSum, c.count != 1);
    if c.count == 1 {
      mine', theirs' := mine + [c.idSum], theirs;
      forall i | 0 <= i < IBF_CELLS ensures Plus(work[i], Peeled(h, mine', theirs', i)) == original[i] {
        PeelMine(h, was[i], mine, theirs, c.idSum, i);
      }
    } else {
      mine', theirs' := mine, theirs + [c.idSum];
      forall i | 0 <= i < IBF_CELLS ensures Plus(work[i], Peeled(h, mine', theirs', i)) == original[i] {
        PeelTheirs(h, was[i], mine, theirs, c.idSum, i);
      }
    }
  }

  /** Under the hypotheses the peeled id comes off the side its count says. */
  lemma PeelSide(h: Hashing, was: seq<Cell>, k: nat, left: seq<Bits>, right: seq<Bits>, mine: seq<Bits>,
                 theirs: seq<Bits>, ds: seq<Bits>, es: seq<Bits>) returns (left': seq<Bits>, right': seq<Bits>)
    requires Clean(h, ds, es) && Encodes(h, was, left, right) && k < IBF_CELLS && Pure(h, was[k])
    requires Splits(left, mine, Elements(ds)) && Splits(right, theirs, Elements(es))
    ensures was[k].count == 1 ==>
      && Splits(left', mine + [was[k].idSum], Elements(ds)) && right' == right
      && forall i :: 0 <= i < IBF_CELLS ==>
            Minus(was[i], Contribution(h, was[k].idSum, i)) == Peeled(h, left', right', i)
    ensures was[k].count == -1 ==>
      && Splits(right', theirs + [was[k].idSum], Elements(es)) && left' == left
      && forall i :: 0 <= i < IBF_CELLS ==>
            Plus(was[i], Contribution(h, was[k].idSum, i)) == Peeled(h, left', right', i)
  {
    assert TruePure(h, left, right, k);
    left', right' := left, right;
    if was[k].count == 1 {
      var p :| 0 <= p < |left| && left[p] == was[k].idSum;
      left' := RemoveAt(left, p);
      TakeOne(left, mine, Elements(ds), p);
      forall i | 0 <= i < IBF_CELLS
        ensures Minus(was[i], Contribution(h, was[k].idSum, i)) == Peeled(h, left', right', i)
      {
        PeelRemovesMine(h, left, right, p, i);
      }
    } else {
      var p :| 0 <= p < |right| && right[p] == was[k].idSum;
      right' := RemoveAt(right, p);
      TakeOne(right, theirs, Elements(es), p);
      forall i | 0 <= i < IBF_CELLS
        ensures Plus(was[i], Contribution(h, was[k].idSum, i)) == Peeled(h, left', right', i)
      {
        PeelRemovesTheirs(h, left, right, p, i);
      }
    }
  }

  method AllZero(cells: array<Cell>) returns (r: bool)
    requires cells.Length == IBF_CELLS
    ensures r <==> forall i :: 0 <= i < IBF_CELLS ==> cells[i] == EMPTY
  {
    for i := 0 to IBF_CELLS
      invariant forall j :: 0 <= j < i ==> cells[j] == EMPTY
    {
      if cells[i] != EMPTY { return false; }
    }
    return true;
  }

  lemma ZeroMeansAll(h: Hashing, original: seq<Cell>, work: seq<Cell>, mine: seq<Bits>, theirs: seq<Bits>)
    requires Conserved(h, original, work, mine, theirs) && forall i :: 0 <= i < IBF_CELLS ==> work[i] == EMPTY
    ensures Encodes(h, original, mine, theirs)
  {
    forall i | 0 <= i < IBF_CELLS ensures original[i] == Peeled(h, mine, theirs, i) {
      CellLaws(Peeled(h, mine, theirs, i), EMPTY, EMPTY);
    }
  }

  /** A peeling on its way: what is conserved, and what is left if it is exact. */
  ghost predicate Peeling(h: Hashing, original: seq<Cell>, work: seq<Cell>, mine: seq<Bits>, theirs: seq<Bits>,
                          left: seq<Bits>, right: seq<Bits>, ds: seq<Bits>, es: seq<Bits>) {
    && Conserved(h, original, work, mine, theirs)
    && (Encodes(h, original, ds, es) && Clean(h, ds, es) ==>
          Encodes(h, work, left, right) && Splits(left, mine, Elements(ds)) && Splits(right, theirs, Elements(es)))
  }

  /** Scan for a pure cell and peel it, if there is one. */
  method PeelOnce(h: Hashing, work: array<Cell>, mine: seq<Bits>, theirs: seq<Bits>, ghost original: seq<Cell>,
                  ghost left: seq<Bits>, ghost right: seq<Bits>, ghost ds: seq<Bits>, ghost es: seq<Bits>)
    returns (progress: bool, mine': seq<Bits>, theirs': seq<Bits>, ghost left': seq<Bits>, ghost right': seq<Bits>)
    requires h.Valid() && work.Length == IBF_CELLS && Peeling(h, original, work[..], mine, theirs, left, right, ds, es)
    modifies work
    ensures Peeling(h, original, work[..], mine', theirs', left', right', ds, es)
    ensures |mine'| + |theirs'| == |mine| + |theirs| + if progress then 1 else 0
    ensures !progress ==> forall i :: 0 <= i < IBF_CELLS ==> !Pure(h, work[i])
  {
    mine', theirs', left', right' := mine, theirs, left, right;
    var k := FindPure(h, work);
    progress := k >= 0;
    if progress {
      ghost var was := work[..];
      if Encodes(h, original, ds, es) && Clean(h, ds, es) {
        left', right' := PeelSide(h, was, k, left, right, mine, theirs, ds, es);
      }
      mine', theirs' := Peel(h, work, k, mine, theirs, original);
    }
  }

  /** Every part of the difference but the empty one has a pure cell. */
  ghost predicate Peelable(h: Hashing, d: set<Bits>, e: set<Bits>) {
    forall left, right :: PartOf(left, d) && PartOf(right, e) && (left != [] || right != []) ==> HasPure(h, left, right)
  }

  ghost predicate PartOf(part: seq<Bits>, all: set<Bits>) {
    NoDuplicates(part) && Elements(part) <= all
  }

  ghost predicate HasPure(h: Hashing, left: seq<Bits>, right: seq<Bits>) {
    exists i :: 0 <= i < IBF_CELLS && Pure(h, Peeled(h, left, right, i))
  }

  /** Exact peeling takes out no more than there is. */
  lemma TakenSize(h: Hashing, original: seq<Cell>, work: seq<Cell>, mine: seq<Bits>, theirs: seq<Bits>,
                  left: seq<Bits>, right: seq<Bits>, ds: seq<Bits>, es: seq<Bits>)
    requires Peeling(h, original, work, mine, theirs, left, right, ds, es)
    ensures Encodes(h, original, ds, es) && Clean(h, ds, es) ==> |mine| + |theirs| <= |ds| + |es|
  {
    if Encodes(h, original, ds, es) && Clean(h, ds, es) {
      NoDuplicatesSize(mine);
      NoDuplicatesSize(theirs);
      NoDuplicatesSize(ds);
      NoDuplicatesSize(es);
      SubsetSize(Elements(mine), Elements(ds));
      SubsetSize(Elements(theirs), Elements(es));
    }
  }

  lemma StuckMeansZero(h: Hashing, original: seq<Cell>, work: seq<Cell>, mine: seq<Bits>, theirs: seq<Bits>,
                       left: seq<Bits>, right: seq<Bits>, ds: seq<Bits>, es: seq<Bits>)
    requires Peeling(h, original, work, mine, theirs, left, right, ds, es)
    requires forall i :: 0 <= i < IBF_CELLS ==> !Pure(h, work[i])
    ensures Encodes(h, original, ds, es) && Clean(h, ds, es) && Peelable(h, Elements(ds), Elements(es)) ==>
      forall i :: 0 <= i < IBF_CELLS ==> work[i] == EMPTY
  {
    if Encodes(h, original, ds, es) && Clean(h, ds, es) && Peelable(h, Elements(ds), Elements(es)) {
      assert !HasPure(h, left, right);
      assert left == [] && right == [];
      XorLaws({}, {}, {});
    }
  }

  /** Decode a subtracted filter. Whatever it returns accounts for every mark; if
      the filter is the difference of two sets and no false pure cell arises, it
      returns exactly the two one-sided differences; and if every part of a small
      enough difference can be peeled, it does return. */
  method Decode(h: Hashing, cells: array<Cell>, ghost ds: seq<Bits>, ghost es: seq<Bits>)
    returns (r: Option<(seq<Bits>, seq<Bits>)>)
    requires h.Valid() && cells.Length == IBF_CELLS
    ensures r.Some? ==> Encodes(h, cells[..], r.value.0, r.value.1)
    ensures r.Some? && Encodes(h, cells[..], ds, es) && Clean(h, ds, es) ==>
      Lists(r.value.0, ds) && Lists(r.value.1, es)
    ensures Sure(h, cells[..], ds, es) ==> r.Some?
  {
    var work := new Cell[IBF_CELLS](i requires 0 <= i < cells.Length reads cells => cells[i]);
    ghost var original := cells[..];
    assert work[..] == original;
    var done, mine, theirs;
    ghost var left, right;
    done, mine, theirs, left, right := PeelAll(h, work, original, ds, es);
    var zero := AllZero(work);
    Verdict(h, original, work[..], mine, theirs, left, right, ds, es, done, zero);
    r := if done && zero then Some((mine, theirs)) else None;
  }

  /** The same ids, each once. */
  ghost predicate Lists(ids: seq<Bits>, all: seq<Bits>) {
    NoDuplicates(ids) && Elements(ids) == Elements(all)
  }

  /** The filter of a difference that peeling is bound to take apart. */
  ghost predicate Sure(h: Hashing, cells: seq<Cell>, ds: seq<Bits>, es: seq<Bits>) {
    Encodes(h, cells, ds, es) && Clean(h, ds, es) && Peelable(h, Elements(ds), Elements(es))
      && |ds| + |es| < IBF_CELLS * 4
  }

  lemma Verdict(h: Hashing, original: seq<Cell>, work: seq<Cell>, mine: seq<Bits>, theirs: seq<Bits>,
                left: seq<Bits>, right: seq<Bits>, ds: seq<Bits>, es: seq<Bits>, done: bool, zero: bool)
    requires Peeling(h, original, work, mine, theirs, left, right, ds, es)
    requires if done then forall i :: 0 <= i < IBF_CELLS ==> !Pure(h, work[i]) else |mine| + |theirs| == IBF_CELLS * 4
    requires zero <==> forall i :: 0 <= i < IBF_CELLS ==> work[i] == EMPTY
    ensures zero ==> Encodes(h, original, mine, theirs)
    ensures zero && Encodes(h, original, ds, es) && Clean(h, ds, es) ==> Lists(mine, ds) && Lists(theirs, es)
    ensures Sure(h, original, ds, es) ==> done && zero
  {
    if zero {
      ZeroMeansAll(h, original, work, mine, theirs);
      ZeroMeansExact(h, original, work, mine, theirs, left, right, ds, es);
    }
    TakenSize(h, original, work, mine, theirs, left, right, ds, es);
    if done { StuckMeansZero(h, original, work, mine, theirs, left, right, ds, es); }
  }

  /** Peel until no pure cell is left, or the safety cap is reached. */
  method PeelAll(h: Hashing, work: array<Cell>, ghost original: seq<Cell>, ghost ds: seq<Bits>, ghost es: seq<Bits>)
    returns (done: bool, mine: seq<Bits>, theirs: seq<Bits>, ghost left: seq<Bits>, ghost right: seq<Bits>)
    requires h.Valid() && work.Length == IBF_CELLS && work[..] == original
    modifies work
    ensures Peeling(h, original, work[..], mine, theirs, left, right, ds, es)
    ensures done ==> forall i :: 0 <= i < IBF_CELLS ==> !Pure(h, work[i])
    ensures !done ==> |mine| + |theirs| == IBF_CELLS * 4
  {
    mine, theirs, left, right := [], [], ds, es;
    NothingPeeled(h, original, ds, es);
    var iters := 0;
    while iters < IBF_CELLS * 4
      invariant iters == |mine| + |theirs| <= IBF_CELLS * 4
      invariant Peeling(h, original, work[..], mine, theirs, left, right, ds, es)
    {
      iters := iters + 1;
      var progress;
      progress, mine, theirs, left, right := PeelOnce(h, work, mine, theirs, original, left, right, ds, es);
      if !progress { return true, mine, theirs, left, right; }
    }
    done := false;
  }

  lemma NothingPeeled(h: Hashing, original: seq<Cell>, ds: seq<Bits>, es: seq<Bits>)
    requires |original| == IBF_CELLS
    ensures Peeling(h, original, original, [], [], ds, es, ds, es)
  {
    forall i | 0 <= i < IBF_CELLS ensures Plus(original[i], Peeled(h, [], [], i)) == original[i] {
      CellLaws(original[i], EMPTY, EMPTY);
      XorLaws({}, {}, {});
    }
  }

  lemma ZeroMeansExact(h: Hashing, original: seq<Cell>, work: seq<Cell>, mine: seq<Bits>, theirs: seq<Bits>,
                       left: seq<Bits>, right: seq<Bits>, ds: seq<Bits>, es: seq<Bits>)
    requires Peeling(h, original, work, mine, theirs, left, right, ds, es)
    requires forall i :: 0 <= i < IBF_CELLS ==> work[i] == EMPTY
    ensures Encodes(h, original, ds, es) && Clean(h, ds, es) ==> Lists(mine, ds) && Lists(theirs, es)
  {
    if Encodes(h, original, ds, es) && Clean(h, ds, es) {
      NothingHides(h, left, right, Elements(ds), Elements(es));
    }
  }

  // ----- Two filters -----

  /** Ids in both sets cancel: the difference of two filters is that of the
      one-sided differences. */
  lemma {:induction false} CommonCancels(h: Hashing, a: seq<Bits>, b: seq<Bits>) returns (ds: seq<Bits>, es: seq<Bits>)
    requires NoDuplicates(a) && NoDuplicates(b)
    ensures NoDuplicates(ds) && Elements(ds) == Elements(a) - Elements(b)
    ensures NoDuplicates(es) && Elements(es) == Elements(b) - Elements(a)
    ensures forall i :: 0 <= i < IBF_CELLS ==> Peeled(h, a, b, i) == Peeled(h, ds, es, i)
    decreases |b|
  {
    if b == [] {
      ds, es := a, [];
    } else {
      var n := |b| - 1;
      var x, init := b[n], b[..n];
      DropLast(b);
      if x in a {
        var p :| 0 <= p < |a| && a[p] == x;
        assert Splits(a, [], Elements(a));
        TakeOne(a, [], Elements(a), p);
        ds, es := CommonCancels(h, RemoveAt(a, p), init);
        forall i | 0 <= i < IBF_CELLS ensures Peeled(h, a, b, i) == Peeled(h, ds, es, i) {
          PeelRemovesMine(h, a, b, p, i);
          PeelRemovesTheirs(h, RemoveAt(a, p), b, n, i);
          BothCancel(Peeled(h, a, b, i), Contribution(h, x, i));
          assert RemoveAt(b, n) == init;
        }
      } else {
        ds, es := CommonCancels(h, a, init);
        assert x !in Elements(init) && x !in Elements(es);
        PushNew(es, x);
        forall i | 0 <= i < IBF_CELLS ensures Peeled(h, a, b, i) == Peeled(h, ds, es + [x], i) {
          assert Peeled(h, a, init, i) == Peeled(h, ds, es, i);
          SumSnoc(h, init, x, i);
          SumSnoc(h, es, x, i);
          MinusMore(Sum(h, a, i), Sum(h, init, i), Sum(h, ds, i), Sum(h, es, i), Contribution(h, x, i));
        }
        es := es + [x];
      }
    }
  }

  lemma DropLast(b: seq<Bits>)
    requires NoDuplicates(b) && b != []
    ensures var n := |b| - 1;
      b == b[..n] + [b[n]] && NoDuplicates(b[..n]) && b[n] !in b[..n] && Elements(b) == Elements(b[..n]) + {b[n]}
  {
    var n := |b| - 1;
    var init := b[..n];
    assert b == init + [b[n]];
    forall i, j | 0 <= i < j < n ensures Differ(init, i, j) { assert Differ(b, i, j); }
    forall i | 0 <= i < n ensures init[i] != b[n] { assert Differ(b, i, n); }
  }

  lemma BothCancel(c: Cell, x: Cell)
    ensures Plus(Minus(c, x), x) == c
  {
    XorLaws(c.idSum, x.idSum, x.idSum);
    XorLaws(c.hashSum, x.hashSum, x.hashSum);
  }

  lemma MinusMore(a: Cell, b: Cell, d: Cell, e: Cell, x: Cell)
    requires Minus(a, b) == Minus(d, e)
    ensures Minus(a, Plus(b, x)) == Minus(d, Plus(e, x))
  {
    XorLaws(a.idSum, b.idSum, x.idSum);
    XorLaws(d.idSum, e.idSum, x.idSum);
    XorLaws(a.hashSum, b.hashSum, x.hashSum);
    XorLaws(d.hashSum, e.hashSum, x.hashSum);
  }

  /** Reconcile two sets: build both filters, subtract, decode. On success and
      without false pure cells the answer is exact. */
  method Reconcile(h: Hashing, a: seq<Bits>, b: seq<Bits>) returns (r: Option<(seq<Bits>, seq<Bits>)>)
    requires h.Valid() && NoDuplicates(a) && NoDuplicates(b)
    ensures r.Some? && Separable(h, Elements(a) - Elements(b), Elements(b) - Elements(a)) ==>
      && NoDuplicates(r.value.0) && Elements(r.value.0) == Elements(a) - Elements(b)
      && NoDuplicates(r.value.1) && Elements(r.value.1) == Elements(b) - Elements(a)
    ensures var d, e := Elements(a) - Elements(b), Elements(b) - Elements(a);
      Separable(h, d, e) && Peelable(h, d, e) && |d| + |e| < IBF_CELLS * 4 ==> r.Some?
  {
    var f := Filter.FromIds(h, a);
    var g := Filter.FromIds(h, b);
    f.Subtract(g);
    ghost var ds, es := CommonCancels(h, a, b);
    NoDuplicatesSize(ds);
    NoDuplicatesSize(es);
    r := Decode(h, f.cells, ds, es);
  }
}
