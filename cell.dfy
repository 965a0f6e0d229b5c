// Cells of holmes: the index arithmetic of include/cell.h and the Cell record
// with its operations (src/cell.c).  A Cell is a value here; the cell
// mutators of the source (which write through a `Cell *`) return the updated
// cell, and the grid stores it back into its array.

module Cells {
  import opened Bits
  import opened CandSets

  // ------------------------------------------------------ index arithmetic

  /** ROW_FROM_IDX */
  function RowOf(i: int): (r: int)
    requires 0 <= i < 81
    ensures 0 <= r < 9
  {
    i / 9
  }

  /** COL_FROM_IDX */
  function ColOf(i: int): (c: int)
    requires 0 <= i < 81
    ensures 0 <= c < 9
  {
    i % 9
  }

  /** BOX_FROM_IDX: boxes are numbered row-major, three per band. */
  function BoxOf(i: int): (b: int)
    requires 0 <= i < 81
    ensures 0 <= b < 9
  {
    (RowOf(i) / 3) * 3 + ColOf(i) / 3
  }

  /** BOX_POSITION_FROM_IDX: the position of a cell inside its box, row-major. */
  function BoxPos(i: int): (p: int)
    requires 0 <= i < 81
    ensures 0 <= p < 9
  {
    (RowOf(i) % 3) * 3 + ColOf(i) % 3
  }

  /** IDX_FROM_ROW_COL */
  function IdxOf(r: int, c: int): (i: int)
    requires 0 <= r < 9 && 0 <= c < 9
    ensures 0 <= i < 81
  {
    r * 9 + c
  }

  /** The cell index at position p of box b: the inverse of (BoxOf, BoxPos). */
  function BoxCell(b: int, p: int): (i: int)
    requires 0 <= b < 9 && 0 <= p < 9
    ensures 0 <= i < 81
  {
    IdxOf((b / 3) * 3 + p / 3, (b % 3) * 3 + p % 3)
  }

  /** An index is its row and column put back together. */
  lemma IdxRoundTrip(i: int)
    requires 0 <= i < 81
    ensures IdxOf(RowOf(i), ColOf(i)) == i
  {
  }

  /** Row and column of an index given by its coordinates. */
  lemma Coords(i: int, r: int, c: int)
    requires 0 <= r < 9 && 0 <= c < 9 && i == 9 * r + c
    ensures 0 <= i < 81 && RowOf(i) == r && ColOf(i) == c && IdxOf(r, c) == i
  {
  }

  lemma Thirds(x: int, y: int)
    requires 0 <= x < 3 && 0 <= y < 3
    ensures (3 * x + y) / 3 == x && (3 * x + y) % 3 == y
  {
  }

  /** The cell at position p of box b lies in box b, at position p. */
  lemma BoxOfCell(b: int, p: int)
    requires 0 <= b < 9 && 0 <= p < 9
    ensures BoxOf(BoxCell(b, p)) == b && BoxPos(BoxCell(b, p)) == p
  {
    Coords(BoxCell(b, p), (b / 3) * 3 + p / 3, (b % 3) * 3 + p % 3);
    Thirds(b / 3, p / 3);
    Thirds(b % 3, p % 3);
  }

  /** Every index is the cell at its own box position. */
  lemma BoxCellOf(i: int)
    requires 0 <= i < 81
    ensures BoxCell(BoxOf(i), BoxPos(i)) == i
  {
    var r, c := RowOf(i), ColOf(i);
    Thirds(r / 3, c / 3);
    Thirds(r % 3, c % 3);
  }

  /**
   * i |-> (box, position) is injective, and box b is hit by exactly the nine
   * indices BoxCell(b, 0..8), which are pairwise distinct.
   */
  lemma BoxBijection(b: int)
    requires 0 <= b < 9
    ensures forall i, j :: 0 <= i < 81 && 0 <= j < 81 && BoxOf(i) == BoxOf(j) && BoxPos(i) == BoxPos(j) ==> i == j
    ensures forall i :: 0 <= i < 81 && BoxOf(i) == b ==> BoxCell(b, BoxPos(i)) == i
    ensures forall p :: 0 <= p < 9 ==> BoxOf(BoxCell(b, p)) == b
    ensures forall p, q :: 0 <= p < 9 && 0 <= q < 9 && BoxCell(b, p) == BoxCell(b, q) ==> p == q
  {
    forall i | 0 <= i < 81
      ensures BoxCell(BoxOf(i), BoxPos(i)) == i
    {
      BoxCellOf(i);
    }
    forall p | 0 <= p < 9
      ensures BoxOf(BoxCell(b, p)) == b && BoxPos(BoxCell(b, p)) == p
    {
      BoxOfCell(b, p);
    }
  }

  // -------------------------------------------------------------- the peers

  /** Two distinct cell indices that share a row, a column or a box. */
  predicate Peers(i: int, j: int)
    requires 0 <= i < 81 && 0 <= j < 81
  {
    i != j && (RowOf(i) == RowOf(j) || ColOf(i) == ColOf(j) || BoxOf(i) == BoxOf(j))
  }

  /** The peer relation is irreflexive and symmetric. */
  lemma PeersSymmetric(i: int, j: int)
    requires 0 <= i < 81 && 0 <= j < 81
    ensures !Peers(i, i)
    ensures Peers(i, j) <==> Peers(j, i)
  {
  }

  /** The peer relation in (row, column) coordinates. */
  predicate PeersAt(r1: int, c1: int, r2: int, c2: int)
  {
    (r1 != r2 || c1 != c2) && (r1 == r2 || c1 == c2 || (r1 / 3 == r2 / 3 && c1 / 3 == c2 / 3))
  }

  lemma SameBox(r1: int, c1: int, r2: int, c2: int)
    requires 0 <= r1 < 9 && 0 <= c1 < 9 && 0 <= r2 < 9 && 0 <= c2 < 9
    ensures (r1 / 3) * 3 + c1 / 3 == (r2 / 3) * 3 + c2 / 3 <==> r1 / 3 == r2 / 3 && c1 / 3 == c2 / 3
  {
  }

  lemma PeersCoords(i: int, j: int, r1: int, c1: int, r2: int, c2: int)
    requires 0 <= r1 < 9 && 0 <= c1 < 9 && 0 <= r2 < 9 && 0 <= c2 < 9
    requires i == 9 * r1 + c1 && j == 9 * r2 + c2
    ensures 0 <= i < 81 && 0 <= j < 81
    ensures Peers(i, j) <==> PeersAt(r1, c1, r2, c2)
  {
    Coords(i, r1, c1);
    Coords(j, r2, c2);
    SameBox(r1, c1, r2, c2);
  }

  /** How many k' in 0..k-1 satisfy f. */
  function CountTrue(f: int -> bool, k: int): nat
    decreases k
  {
    if k <= 0 then 0 else CountTrue(f, k - 1) + (if f(k - 1) then 1 else 0)
  }

  /** A count over b..b+k-1 is a count over 0..k-1 of the shifted predicate. */
  lemma {:induction false} CountShift(f: int -> bool, g: int -> bool, b: int, k: int)
    requires 0 <= b && 0 <= k
    requires forall c :: 0 <= c < k ==> f(b + c) == g(c)
    ensures CountTrue(f, b + k) == CountTrue(f, b) + CountTrue(g, k)
  {
    if k > 0 {
      CountShift(f, g, b, k - 1);
      assert f(b + k - 1) == g(k - 1);
    }
  }

  /** The peers of i, as a predicate on indices. */
  function PeerFlags(i: int): int -> bool
  {
    j => 0 <= i < 81 && 0 <= j < 81 && Peers(i, j)
  }

  /** Number of peers of i among the indices 0..k-1. */
  function PeerCount(i: int, k: int): nat
  {
    CountTrue(PeerFlags(i), k)
  }

  function RowFlags(r: int, c: int, r2: int): int -> bool
  {
    c2 => PeersAt(r, c, r2, c2)
  }

  /** Row r2 holds 8 peers of (r, c) when it is row r, 3 when it is in r's band, else 1. */
  lemma RowPeers(r: int, c: int, r2: int)
    requires 0 <= r < 9 && 0 <= c < 9 && 0 <= r2 < 9
    ensures CountTrue(RowFlags(r, c, r2), 9) == if r2 == r then 8 else if r2 / 3 == r / 3 then 3 else 1
  {
    var f := RowFlags(r, c, r2);
    assert CountTrue(f, 9) == CountTrue(f, 8) + (if f(8) then 1 else 0);
    assert CountTrue(f, 8) == CountTrue(f, 7) + (if f(7) then 1 else 0);
    assert CountTrue(f, 7) == CountTrue(f, 6) + (if f(6) then 1 else 0);
    assert CountTrue(f, 6) == CountTrue(f, 5) + (if f(5) then 1 else 0);
    assert CountTrue(f, 5) == CountTrue(f, 4) + (if f(4) then 1 else 0);
    assert CountTrue(f, 4) == CountTrue(f, 3) + (if f(3) then 1 else 0);
    assert CountTrue(f, 3) == CountTrue(f, 2) + (if f(2) then 1 else 0);
    assert CountTrue(f, 2) == CountTrue(f, 1) + (if f(1) then 1 else 0);
    assert CountTrue(f, 1) == (if f(0) then 1 else 0);
    if c == 0 {} else if c == 1 {} else if c == 2 {} else if c == 3 {} else if c == 4 {}
    else if c == 5 {} else if c == 6 {} else if c == 7 {} else {}
  }

  /** Counting the peers of i one row at a time. */
  lemma RowBlock(i: int, r: int, c: int, r2: int)
    requires 0 <= r < 9 && 0 <= c < 9 && i == 9 * r + c && 0 <= r2 < 9
    ensures PeerCount(i, 9 * r2 + 9) ==
      PeerCount(i, 9 * r2) + (if r2 == r then 8 else if r2 / 3 == r / 3 then 3 else 1)
  {
    RowFlagsMatch(i, r, c, r2);
    CountShift(PeerFlags(i), RowFlags(r, c, r2), 9 * r2, 9);
    RowPeers(r, c, r2);
  }

  lemma RowFlagsMatch(i: int, r: int, c: int, r2: int)
    requires 0 <= r < 9 && 0 <= c < 9 && i == 9 * r + c && 0 <= r2 < 9
    ensures forall c2 :: 0 <= c2 < 9 ==> PeerFlags(i)(9 * r2 + c2) == RowFlags(r, c, r2)(c2)
  {
    forall c2 | 0 <= c2 < 9
      ensures PeerFlags(i)(9 * r2 + c2) == RowFlags(r, c, r2)(c2)
    {
      PeersCoords(i, 9 * r2 + c2, r, c, r2, c2);
    }
  }

  /** Every cell has exactly 20 peers among the 81 (NUM_PEERS). */
  lemma TwentyPeers(i: int)
    requires 0 <= i < 81
    ensures PeerCount(i, 81) == 20
  {
    var r, c := i / 9, i % 9;
    RowBlock(i, r, c, 0);
    RowBlock(i, r, c, 1);
    RowBlock(i, r, c, 2);
    RowBlock(i, r, c, 3);
    RowBlock(i, r, c, 4);
    RowBlock(i, r, c, 5);
    RowBlock(i, r, c, 6);
    RowBlock(i, r, c, 7);
    RowBlock(i, r, c, 8);
    if r == 0 {} else if r == 1 {} else if r == 2 {} else if r == 3 {} else if r == 4 {}
    else if r == 5 {} else if r == 6 {} else if r == 7 {} else {}
  }

  /** The count of peers grows by one exactly at each peer. */
  lemma PeerCountStep(i: int, k: int)
    requires 0 <= i < 81 && 0 <= k < 81
    ensures PeerCount(i, k + 1) == PeerCount(i, k) + (if Peers(i, k) then 1 else 0)
  {
  }

  /** The count of peers below k is monotone in k, so it never passes 20. */
  lemma {:induction false} PeerCountMono(i: int, k: int, m: int)
    requires 0 <= i < 81 && 0 <= k <= m <= 81
    ensures PeerCount(i, k) <= PeerCount(i, m)
    decreases m - k
  {
    if k < m {
      PeerCountMono(i, k, m - 1);
      assert PeerCount(i, m) == PeerCount(i, m - 1) + (if Peers(i, m - 1) then 1 else 0);
    }
  }

  // --------------------------------------------------------------- the Cell

  /** include/cell.h: the value (0 when empty), the candidates and the cached coordinates. */
  datatype Cell = Cell(value: int, cands: CandSet, row: int, col: int, box: int)

  /** The cell stored at index i: coordinates cached, value a digit, candidates well formed. */
  predicate CellAt(c: Cell, i: int)
  {
    0 <= i < 81 && c.row == RowOf(i) && c.col == ColOf(i) && c.box == BoxOf(i)
    && 0 <= c.value <= 9 && Valid(c.cands)
  }

  /** cell_create */
  function Create(idx: int, value: int): (c: Cell)
    requires 0 <= idx < 81 && 0 <= value <= 9
    ensures CellAt(c, idx) && c.value == value && Elems(c.cands) == {}
  {
    Cell(value, Empty(), RowOf(idx), ColOf(idx), BoxOf(idx))
  }

  /** cell_idx */
  function CellIdx(c: Cell): (i: int)
    requires 0 <= c.row < 9 && 0 <= c.col < 9
    ensures 0 <= i < 81
  {
    IdxOf(c.row, c.col)
  }

  /** A cell knows its own index: cell_idx(cell_create(i, v)) == i, and so for any cell at i. */
  lemma CellIdxAt(c: Cell, i: int)
    requires CellAt(c, i)
    ensures CellIdx(c) == i
  {
    IdxRoundTrip(i);
  }

  /** cell_is_empty */
  predicate IsEmpty(c: Cell)
  {
    c.value == 0
  }

  /** cell_eq: same index. */
  predicate Eq(a: Cell, b: Cell)
    requires 0 <= a.row < 9 && 0 <= a.col < 9 && 0 <= b.row < 9 && 0 <= b.col < 9
  {
    CellIdx(a) == CellIdx(b)
  }

  /** cell_is_neighbour */
  predicate IsNeighbour(a: Cell, b: Cell)
    requires 0 <= a.row < 9 && 0 <= a.col < 9 && 0 <= b.row < 9 && 0 <= b.col < 9
  {
    !Eq(a, b) && (a.row == b.row || a.col == b.col || a.box == b.box)
  }

  /** Cells at i and j are neighbours exactly when i and j are peers. */
  lemma NeighbourPeers(a: Cell, i: int, b: Cell, j: int)
    requires CellAt(a, i) && CellAt(b, j)
    ensures IsNeighbour(a, b) <==> Peers(i, j)
    ensures IsNeighbour(a, b) <==> IsNeighbour(b, a)
    ensures !IsNeighbour(a, a)
  {
    CellIdxAt(a, i);
    CellIdxAt(b, j);
  }

  /** cell_has_cand */
  predicate HasCand(c: Cell, cand: int)
    requires 0 <= cand <= 9
  {
    Has(c.cands, cand)
  }

  /** Two cells that differ at most in their candidates. */
  predicate SameButCands(a: Cell, b: Cell)
  {
    a.value == b.value && a.row == b.row && a.col == b.col && a.box == b.box
  }

  /** cell_add_cand: only the candidates change, gaining cand. */
  function AddCand(c: Cell, cand: int): (r: Cell)
    requires 1 <= cand <= 9 && Valid(c.cands)
    ensures SameButCands(r, c) && Valid(r.cands) && Elems(r.cands) == Elems(c.cands) + {cand}
  {
    c.(cands := Add(c.cands, cand))
  }

  /** cell_remove_cand: only the candidates change, losing cand. */
  function RemoveCand(c: Cell, cand: int): (r: Cell)
    requires 0 <= cand <= 9 && Valid(c.cands)
    ensures SameButCands(r, c) && Valid(r.cands) && Elems(r.cands) == Elems(c.cands) - {cand}
  {
    c.(cands := Remove(c.cands, cand))
  }

  /** cell_clear_cands: only the candidates change, becoming empty. */
  function ClearCands(c: Cell): (r: Cell)
    ensures SameButCands(r, c) && Valid(r.cands) && Elems(r.cands) == {}
  {
    c.(cands := Clear(c.cands))
  }

  /** cell_only_cand: the sole candidate of a cell that has exactly one. */
  function OnlyCand(c: Cell): (v: int)
    ensures Valid(c.cands) && c.cands.len == 1 ==> 1 <= v <= 9 && Elems(c.cands) == {v}
  {
    Only(c.cands)
  }

  /** Putting back a removed candidate restores the cell. */
  lemma AddRemoveCand(c: Cell, cand: int)
    requires 1 <= cand <= 9 && Valid(c.cands) && HasCand(c, cand)
    ensures AddCand(RemoveCand(c, cand), cand) == c
  {
    AddRemove(c.cands, cand);
  }

  // ------------------------------------------------------- missing values

  /** Every cell of the list holds a digit 0..9. */
  predicate Digits(cells: seq<Cell>)
  {
    forall k :: 0 <= k < |cells| ==> 0 <= cells[k].value <= 9
  }

  /** Some cell of the list holds value v. */
  predicate Holds(cells: seq<Cell>, v: int)
  {
    exists k :: 0 <= k < |cells| && cells[k].value == v
  }

  /** The accumulator of cells_missing_values after the given cells. */
  function MissingOf(cells: seq<Cell>): (r: CandSet)
    requires Digits(cells)
    ensures Valid(r)
  {
    if cells == [] then Full()
    else Remove(MissingOf(cells[..|cells| - 1]), cells[|cells| - 1].value)
  }

  /** The missing values are exactly the digits 1..9 that no cell holds; 0 is ignored. */
  lemma {:induction false} MissingOfHas(cells: seq<Cell>, v: int)
    requires Digits(cells) && 1 <= v <= 9
    ensures Has(MissingOf(cells), v) <==> !Holds(cells, v)
  {
    if cells == [] {
      assert v in AllValues();
    } else {
      var init := cells[..|cells| - 1];
      MissingOfHas(init, v);
      assert forall k :: 0 <= k < |init| ==> init[k] == cells[k];
      assert Has(MissingOf(cells), v) <==> v in Elems(MissingOf(cells));
      assert Has(MissingOf(init), v) <==> v in Elems(MissingOf(init));
      if Holds(cells, v) {
        var k :| 0 <= k < |cells| && cells[k].value == v;
        if k < |init| {
          assert init[k].value == v;
        }
      }
    }
  }

  /** cells_missing_values */
  method MissingValues(cells: seq<Cell>) returns (r: CandSet)
    requires Digits(cells)
    ensures r == MissingOf(cells)
  {
    r := Full();
    var i := 0;
    while i < |cells|
      invariant 0 <= i <= |cells|
      invariant r == MissingOf(cells[..i])
    {
      assert cells[..i + 1][..i] == cells[..i];
      r := Remove(r, cells[i].value);
      i := i + 1;
    }
    assert cells[..i] == cells;
  }
}
