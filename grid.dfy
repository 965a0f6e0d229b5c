// The grid of holmes (src/grid.c, include/grid.h): 81 cells in one array,
// the row, column and box views of that array, the table of the 20 peers of
// every cell and the count of empty cells.  The views `rows`, `cols` and
// `boxes` are arrays of references to the same cells in the source; here they
// are the index map UnitIdx, and the peer table holds indices.

module Grids {
  import opened CandSets
  import opened Cells

  /** NUM_PEERS (NUM_NEIGHBOURS in grid.h) */
  const NumPeers := 20

  // ------------------------------------------------------------- the units

  /** UNIT_ROW, UNIT_COL, UNIT_BOX */
  datatype UnitType = Row | Col | Box

  /** The index of entry p of unit u: rows[u][p], cols[u][p] or boxes[u][p]. */
  function UnitIdx(t: UnitType, u: int, p: int): (i: int)
    requires 0 <= u < 9 && 0 <= p < 9
    ensures 0 <= i < 81
  {
    match t
    case Row => IdxOf(u, p)
    case Col => IdxOf(p, u)
    case Box => BoxCell(u, p)
  }

  /** The unit of type t that index i belongs to: its row, column or box. */
  function UnitOf(t: UnitType, i: int): (u: int)
    requires 0 <= i < 81
    ensures 0 <= u < 9
  {
    match t
    case Row => RowOf(i)
    case Col => ColOf(i)
    case Box => BoxOf(i)
  }

  /** The position of index i inside its unit of type t. */
  function PosOf(t: UnitType, i: int): (p: int)
    requires 0 <= i < 81
    ensures 0 <= p < 9
  {
    match t
    case Row => ColOf(i)
    case Col => RowOf(i)
    case Box => BoxPos(i)
  }

  /**
   * rows[r][c], cols[c][r] and boxes[b][pos] denote the cell whose index has
   * that row and column, or that box and position: the views and UnitOf/PosOf
   * are inverse to each other.
   */
  lemma UnitRoundTrip(t: UnitType, i: int, u: int, p: int)
    requires 0 <= i < 81 && 0 <= u < 9 && 0 <= p < 9
    ensures UnitIdx(t, UnitOf(t, i), PosOf(t, i)) == i
    ensures UnitOf(t, UnitIdx(t, u, p)) == u && PosOf(t, UnitIdx(t, u, p)) == p
  {
    match t
    case Row =>
      IdxRoundTrip(i);
      Coords(IdxOf(u, p), u, p);
    case Col =>
      IdxRoundTrip(i);
      Coords(IdxOf(p, u), p, u);
    case Box =>
      BoxCellOf(i);
      BoxOfCell(u, p);
  }

  /** Index i is entry PosOf(t, i) of its unit UnitOf(t, i). */
  lemma UnitBack(t: UnitType, i: int)
    requires 0 <= i < 81
    ensures UnitIdx(t, UnitOf(t, i), PosOf(t, i)) == i
  {
    UnitRoundTrip(t, i, 0, 0);
  }

  /** Two different entries of one unit are peers. */
  lemma UnitPeers(t: UnitType, u: int, p: int, q: int)
    requires 0 <= u < 9 && 0 <= p < 9 && 0 <= q < 9 && p != q
    ensures Peers(UnitIdx(t, u, p), UnitIdx(t, u, q))
  {
    UnitRoundTrip(t, 0, u, p);
    UnitRoundTrip(t, 0, u, q);
  }

  /** A peer of i shares a row, a column or a box with it. */
  lemma PeerInUnit(i: int, j: int) returns (t: UnitType)
    requires 0 <= i < 81 && 0 <= j < 81 && Peers(i, j)
    ensures UnitOf(t, i) == UnitOf(t, j)
  {
    if RowOf(i) == RowOf(j) {
      t := Row;
    } else if ColOf(i) == ColOf(j) {
      t := Col;
    } else {
      t := Box;
    }
  }

  // ------------------------------------------------------------ cell lists

  /** Exactly the 81 cells of a grid, each knowing its index. */
  predicate Cells81(cs: seq<Cell>)
  {
    |cs| == 81 && forall i :: 0 <= i < 81 ==> CellAt(cs[i], i)
  }

  /** The nine cells of unit u of type t, in view order. */
  function UnitCells(cs: seq<Cell>, t: UnitType, u: int): (r: seq<Cell>)
    requires |cs| == 81 && 0 <= u < 9
    ensures |r| == 9
  {
    seq(9, p requires 0 <= p < 9 => cs[UnitIdx(t, u, p)])
  }

  /** Number of empty cells in a list of cells. */
  function CountEmpty(cs: seq<Cell>): (n: nat)
    ensures n <= |cs|
  {
    if cs == [] then 0
    else CountEmpty(cs[..|cs| - 1]) + (if IsEmpty(cs[|cs| - 1]) then 1 else 0)
  }

  /** No cell is empty exactly when the count of empty cells is zero. */
  lemma {:induction false} CountEmptyZero(cs: seq<Cell>)
    ensures CountEmpty(cs) == 0 <==> forall k :: 0 <= k < |cs| ==> !IsEmpty(cs[k])
  {
    if cs != [] {
      var init := cs[..|cs| - 1];
      CountEmptyZero(init);
      assert forall k :: 0 <= k < |init| ==> init[k] == cs[k];
    }
  }

  /** Replacing one cell changes the count only by that cell's emptiness. */
  lemma {:induction false} CountEmptyUpdate(cs: seq<Cell>, i: int, c: Cell)
    requires 0 <= i < |cs|
    ensures CountEmpty(cs[i := c]) + (if IsEmpty(cs[i]) then 1 else 0) ==
      CountEmpty(cs) + (if IsEmpty(c) then 1 else 0)
    decreases |cs|
  {
    var last := |cs| - 1;
    assert cs[i := c][..last] == if i == last then cs[..last] else cs[..last][i := c];
    if i < last {
      CountEmptyUpdate(cs[..last], i, c);
    }
  }

  /** Lists with the same values have the same number of empty cells. */
  lemma {:induction false} CountEmptySameValues(a: seq<Cell>, b: seq<Cell>)
    requires |a| == |b| && forall k :: 0 <= k < |a| ==> a[k].value == b[k].value
    ensures CountEmpty(a) == CountEmpty(b)
  {
    if a != [] {
      CountEmptySameValues(a[..|a| - 1], b[..|b| - 1]);
    }
  }

  /** Units of lists with the same values miss the same values. */
  lemma {:induction false} MissingOfSameValues(a: seq<Cell>, b: seq<Cell>)
    requires |a| == |b| && Digits(a)
    requires forall k :: 0 <= k < |a| ==> a[k].value == b[k].value
    ensures Digits(b) && MissingOf(a) == MissingOf(b)
  {
    if a != [] {
      MissingOfSameValues(a[..|a| - 1], b[..|b| - 1]);
    }
  }

  // --------------------------------------------------------- the peer table

  /** The peers of i among 0..k-1, ascending: row i of the table after k steps. */
  function PeersBelow(i: int, k: int): (r: seq<int>)
    requires 0 <= i < 81 && 0 <= k <= 81
  {
    if k == 0 then [] else PeersBelow(i, k - 1) + (if Peers(i, k - 1) then [k - 1] else [])
  }

  lemma {:induction false} PeersBelowLen(i: int, k: int)
    requires 0 <= i < 81 && 0 <= k <= 81
    ensures |PeersBelow(i, k)| == PeerCount(i, k)
  {
    if k > 0 {
      PeersBelowLen(i, k - 1);
      PeerCountStep(i, k - 1);
    }
  }

  /** One step of the scan of grid_generate_neighbours: k is appended exactly when it is a neighbour. */
  lemma ScanStep(i: int, k: int, a: Cell, b: Cell)
    requires 0 <= k < 81 && CellAt(a, i) && CellAt(b, k)
    ensures IsNeighbour(a, b) ==> PeersBelow(i, k + 1) == PeersBelow(i, k) + [k]
    ensures !IsNeighbour(a, b) ==> PeersBelow(i, k + 1) == PeersBelow(i, k)
    ensures |PeersBelow(i, k + 1)| <= NumPeers
  {
    NeighbourPeers(a, i, b, k);
    PeersBelowAtMost(i, k + 1);
  }

  /** ScanStep for the cells i and k of a grid. */
  lemma ScanStepAt(cs: seq<Cell>, i: int, k: int)
    requires Cells81(cs) && 0 <= i < 81 && 0 <= k < 81
    ensures 0 <= cs[i].row < 9 && 0 <= cs[i].col < 9 && 0 <= cs[k].row < 9 && 0 <= cs[k].col < 9
    ensures IsNeighbour(cs[i], cs[k]) ==> PeersBelow(i, k + 1) == PeersBelow(i, k) + [k]
    ensures !IsNeighbour(cs[i], cs[k]) ==> PeersBelow(i, k + 1) == PeersBelow(i, k)
    ensures |PeersBelow(i, k + 1)| <= NumPeers
  {
    assert CellAt(cs[i], i) && CellAt(cs[k], k);
    ScanStep(i, k, cs[i], cs[k]);
  }

  /** The scan never finds more than 20 peers. */
  lemma PeersBelowAtMost(i: int, k: int)
    requires 0 <= i < 81 && 0 <= k <= 81
    ensures |PeersBelow(i, k)| <= NumPeers
  {
    PeersBelowLen(i, k);
    PeerCountMono(i, k, 81);
    TwentyPeers(i);
  }

  /** Row k of the table holds exactly the peers of i below k, in ascending order. */
  lemma {:induction false} PeersBelowFacts(i: int, k: int)
    requires 0 <= i < 81 && 0 <= k <= 81
    ensures forall n :: 0 <= n < |PeersBelow(i, k)| ==>
      0 <= PeersBelow(i, k)[n] < k && Peers(i, PeersBelow(i, k)[n])
    ensures forall n, m :: 0 <= n < m < |PeersBelow(i, k)| ==>
      PeersBelow(i, k)[n] < PeersBelow(i, k)[m]
    ensures forall j :: 0 <= j < k && Peers(i, j) ==> j in PeersBelow(i, k)
  {
    if k > 0 {
      PeersBelowFacts(i, k - 1);
    }
  }

  /** Row i of the peer table: the 20 peers of i, ascending. */
  function PeerList(i: int): (r: seq<int>)
    requires 0 <= i < 81
    ensures |r| == NumPeers
  {
    PeersBelowLen(i, 81);
    TwentyPeers(i);
    PeersBelow(i, 81)
  }

  /** The table lists exactly the peers of i, ascending, never i itself. */
  lemma PeerListFacts(i: int)
    requires 0 <= i < 81
    ensures forall n :: 0 <= n < NumPeers ==> 0 <= PeerList(i)[n] < 81 && Peers(i, PeerList(i)[n])
    ensures forall n :: 0 <= n < NumPeers ==> PeerList(i)[n] != i
    ensures forall n, m :: 0 <= n < m < NumPeers ==> PeerList(i)[n] < PeerList(i)[m]
    ensures forall j :: 0 <= j < 81 && Peers(i, j) ==> j in PeerList(i)
  {
    PeersBelowFacts(i, 81);
  }

  // ------------------------------------------------------ initial candidates

  /** What grid_cell_initial_cands computes: the values missing from row, column and box. */
  function InitialCands(cs: seq<Cell>, i: int): (r: CandSet)
    requires |cs| == 81 && Digits(cs) && 0 <= i < 81
    ensures Valid(r)
  {
    DigitsUnit(cs, Row, RowOf(i));
    DigitsUnit(cs, Col, ColOf(i));
    DigitsUnit(cs, Box, BoxOf(i));
    IntersectionOf([MissingOf(UnitCells(cs, Row, RowOf(i))),
                    MissingOf(UnitCells(cs, Col, ColOf(i))),
                    MissingOf(UnitCells(cs, Box, BoxOf(i)))])
  }

  lemma DigitsUnit(cs: seq<Cell>, t: UnitType, u: int)
    requires |cs| == 81 && Digits(cs) && 0 <= u < 9
    ensures Digits(UnitCells(cs, t, u))
  {
  }

  /** A cell of the unit view that holds v is a cell sharing that unit. */
  lemma UnitHoldsSome(cs: seq<Cell>, t: UnitType, u: int, v: int) returns (j: int)
    requires |cs| == 81 && 0 <= u < 9 && Holds(UnitCells(cs, t, u), v)
    ensures 0 <= j < 81 && UnitOf(t, j) == u && cs[j].value == v
  {
    var unit := UnitCells(cs, t, u);
    var p :| 0 <= p < 9 && unit[p].value == v;
    UnitEntry(cs, t, u, p);
    UnitEntryUnit(t, u, p);
    j := UnitIdx(t, u, p);
  }

  lemma UnitEntry(cs: seq<Cell>, t: UnitType, u: int, p: int)
    requires |cs| == 81 && 0 <= u < 9 && 0 <= p < 9
    ensures UnitCells(cs, t, u)[p] == cs[UnitIdx(t, u, p)]
  {
  }

  lemma UnitEntryUnit(t: UnitType, u: int, p: int)
    requires 0 <= u < 9 && 0 <= p < 9
    ensures UnitOf(t, UnitIdx(t, u, p)) == u
  {
    UnitRoundTrip(t, 0, u, p);
  }

  /** A cell sharing unit u that holds v shows up in the unit view. */
  lemma UnitHoldsAt(cs: seq<Cell>, t: UnitType, j: int, v: int)
    requires |cs| == 81 && 0 <= j < 81 && cs[j].value == v
    ensures Holds(UnitCells(cs, t, UnitOf(t, j)), v)
  {
    var u, p := UnitOf(t, j), PosOf(t, j);
    UnitBack(t, j);
    UnitEntry(cs, t, u, p);
    HoldsWitness(UnitCells(cs, t, u), p, v);
  }

  lemma HoldsWitness(unit: seq<Cell>, p: int, v: int)
    requires 0 <= p < |unit| && unit[p].value == v
    ensures Holds(unit, v)
  {
  }

  /**
   * An empty cell's initial candidates are exactly the values that none of
   * its 20 peers holds.
   */
  lemma InitialCandsPeers(cs: seq<Cell>, i: int, v: int)
    requires |cs| == 81 && Digits(cs) && 0 <= i < 81 && IsEmpty(cs[i]) && 1 <= v <= 9
    ensures Has(InitialCands(cs, i), v) <==>
      forall j :: 0 <= j < 81 && Peers(i, j) ==> cs[j].value != v
  {
    var sets := [MissingOf(UnitCells(cs, Row, RowOf(i))),
                 MissingOf(UnitCells(cs, Col, ColOf(i))),
                 MissingOf(UnitCells(cs, Box, BoxOf(i)))];
    DigitsUnit(cs, Row, RowOf(i));
    DigitsUnit(cs, Col, ColOf(i));
    DigitsUnit(cs, Box, BoxOf(i));
    MissingOfHas(UnitCells(cs, Row, RowOf(i)), v);
    MissingOfHas(UnitCells(cs, Col, ColOf(i)), v);
    MissingOfHas(UnitCells(cs, Box, BoxOf(i)), v);
    assert AllHave(sets, v) <==> Has(sets[0], v) && Has(sets[1], v) && Has(sets[2], v);
    if exists j :: 0 <= j < 81 && Peers(i, j) && cs[j].value == v {
      var j :| 0 <= j < 81 && Peers(i, j) && cs[j].value == v;
      var t := PeerInUnit(i, j);
      UnitHoldsAt(cs, t, j, v);
      assert !Has(sets[if t == Row then 0 else if t == Col then 1 else 2], v);
    }
    if !AllHave(sets, v) {
      var t := if !Has(sets[0], v) then Row else if !Has(sets[1], v) then Col else Box;
      var j := UnitHoldsSome(cs, t, UnitOf(t, i), v);
      assert j != i;
      assert Peers(i, j);
    }
  }

  /** Filled cells keep no candidates (grid_create and grid_fill_cell leave them so). */
  predicate Coherent(cs: seq<Cell>)
  {
    forall i :: 0 <= i < |cs| && !IsEmpty(cs[i]) ==> cs[i].cands.len == 0
  }

  /** grid_create leaves the grid coherent. */
  lemma InitialCoherent(s: seq<char>)
    requires GridString(s)
    ensures Coherent(Initial(s))
  {
    InitialFacts(s);
    forall i | 0 <= i < 81 && !IsEmpty(Initial(s)[i])
      ensures Initial(s)[i].cands.len == 0
    {
      ElemsCount(Initial(s)[i].cands);
    }
  }

  // ------------------------------------------------------------ filling

  /** The cell at i once filled with v: value set, candidates cleared. */
  function Filled(c: Cell, v: int): (r: Cell)
    ensures r.value == v && Valid(r.cands) && Elems(r.cands) == {}
    ensures r.row == c.row && r.col == c.col && r.box == c.box
  {
    ClearCands(c).(value := v)
  }

  /** The grid after grid_fill_cell(i, v): v set at i and removed from every peer. */
  function FillSpec(cs: seq<Cell>, i: int, v: int): (r: seq<Cell>)
    requires Cells81(cs) && 0 <= i < 81 && 1 <= v <= 9
    ensures Cells81(r)
  {
    seq(81, j requires 0 <= j < 81 =>
      if j == i then Filled(cs[i], v)
      else if Peers(i, j) then RemoveCand(cs[j], v)
      else cs[j])
  }

  /** Cell j while grid_fill_cell runs: v removed from the first n entries of the peer table. */
  function FillUpTo(cs: seq<Cell>, i: int, v: int, n: int, j: int): (c: Cell)
    requires Cells81(cs) && 0 <= i < 81 && 1 <= v <= 9 && 0 <= n <= NumPeers && 0 <= j < 81
  {
    if j == i then Filled(cs[i], v)
    else if j in PeerList(i)[..n] then RemoveCand(cs[j], v)
    else cs[j]
  }

  /** Step n of the loop of grid_fill_cell removes v from the n-th peer only. */
  lemma FillStep(cs: seq<Cell>, i: int, v: int, n: int)
    requires Cells81(cs) && 0 <= i < 81 && 1 <= v <= 9 && 0 <= n < NumPeers
    ensures 0 <= PeerList(i)[n] < 81 && PeerList(i)[n] != i
    ensures FillUpTo(cs, i, v, n + 1, PeerList(i)[n]) == RemoveCand(FillUpTo(cs, i, v, n, PeerList(i)[n]), v)
    ensures forall j :: 0 <= j < 81 && j != PeerList(i)[n] ==> FillUpTo(cs, i, v, n + 1, j) == FillUpTo(cs, i, v, n, j)
  {
    var P := PeerList(i);
    PeerListFacts(i);
    assert P[..n + 1] == P[..n] + [P[n]];
    assert P[n] !in P[..n];
  }

  /**
   * grid_fill_cell: the filled cell holds v and no candidates, every peer
   * loses v, every other cell is untouched, and the grid stays well formed.
   */
  lemma FillSpecFacts(cs: seq<Cell>, i: int, v: int)
    requires Cells81(cs) && 0 <= i < 81 && 1 <= v <= 9
    ensures Cells81(FillSpec(cs, i, v))
    ensures FillSpec(cs, i, v)[i].value == v && Elems(FillSpec(cs, i, v)[i].cands) == {}
    ensures forall j :: 0 <= j < 81 && Peers(i, j) ==>
      SameButCands(FillSpec(cs, i, v)[j], cs[j]) &&
      Elems(FillSpec(cs, i, v)[j].cands) == Elems(cs[j].cands) - {v}
    ensures forall j :: 0 <= j < 81 && j != i && !Peers(i, j) ==> FillSpec(cs, i, v)[j] == cs[j]
    ensures forall j :: 0 <= j < 81 && Peers(i, j) && !HasCand(cs[j], v) ==>
      FillSpec(cs, i, v)[j] == cs[j]
  {
    forall j | 0 <= j < 81 && Peers(i, j) && !HasCand(cs[j], v)
      ensures FillSpec(cs, i, v)[j] == cs[j]
    {
      assert RemoveCand(cs[j], v) == cs[j];
    }
  }

  /** grid_fill_cell keeps the grid coherent. */
  lemma FillCoherent(cs: seq<Cell>, i: int, v: int)
    requires Cells81(cs) && 0 <= i < 81 && 1 <= v <= 9 && Coherent(cs)
    ensures Coherent(FillSpec(cs, i, v))
  {
    var r := FillSpec(cs, i, v);
    FillSpecFacts(cs, i, v);
    forall j | 0 <= j < 81 && !IsEmpty(r[j])
      ensures r[j].cands.len == 0
    {
      ElemsCount(r[j].cands);
      if j != i && Peers(i, j) {
        ElemsCount(cs[j].cands);
      }
    }
  }

  /** Filling an empty cell removes exactly one empty cell. */
  lemma FillCount(cs: seq<Cell>, i: int, v: int)
    requires Cells81(cs) && 0 <= i < 81 && 1 <= v <= 9 && IsEmpty(cs[i])
    ensures CountEmpty(FillSpec(cs, i, v)) == CountEmpty(cs) - 1
  {
    var r := FillSpec(cs, i, v);
    CountEmptyUpdate(cs, i, r[i]);
    CountEmptySameValues(cs[i := r[i]], r);
  }

  // ---------------------------------------------------------------- Grid

  /** An ASCII digit '0'..'9'. */
  predicate IsDigit(ch: char)
  {
    '0' <= ch <= '9'
  }

  /** A grid string: at least 81 digits, '0' for an empty cell. */
  predicate GridString(s: seq<char>)
  {
    |s| >= 81 && forall i :: 0 <= i < 81 ==> IsDigit(s[i])
  }

  /** grid_str[i] - '0' */
  function DigitAt(s: seq<char>, i: int): (v: int)
    requires GridString(s) && 0 <= i < 81
    ensures 0 <= v <= 9
  {
    s[i] as int - '0' as int
  }

  /** Cell i after the first pass of grid_create: value from the string, no candidates. */
  function ClueCell(s: seq<char>, i: int): (c: Cell)
    requires GridString(s) && 0 <= i < 81
    ensures CellAt(c, i) && c.value == DigitAt(s, i)
  {
    Create(i, DigitAt(s, i))
  }

  /** The cells after the first pass of grid_create. */
  function Clues(s: seq<char>): (r: seq<Cell>)
    requires GridString(s)
    ensures Cells81(r) && Digits(r)
  {
    seq(81, i requires 0 <= i < 81 => ClueCell(s, i))
  }

  /** Cell i as grid_create leaves it: an empty cell gets its initial candidates. */
  function InitialCell(s: seq<char>, i: int): (c: Cell)
    requires GridString(s) && 0 <= i < 81
    ensures CellAt(c, i) && c.value == DigitAt(s, i)
  {
    if DigitAt(s, i) == 0 then ClueCell(s, i).(cands := InitialCands(Clues(s), i)) else ClueCell(s, i)
  }

  lemma InitialCellOf(s: seq<char>, i: int, c: Cell, cands: CandSet)
    requires GridString(s) && 0 <= i < 81 && c == ClueCell(s, i)
    requires IsEmpty(c) ==> cands == InitialCands(Clues(s), i)
    ensures InitialCell(s, i) == if IsEmpty(c) then c.(cands := cands) else c
  {
  }

  /** Cell j during the second pass of grid_create, once the cells below i are done. */
  function PassUpTo(s: seq<char>, i: int, j: int): (c: Cell)
    requires GridString(s) && 0 <= j < 81
    ensures CellAt(c, j) && c.value == DigitAt(s, j)
  {
    if j < i then InitialCell(s, j) else ClueCell(s, j)
  }

  lemma PassStep(s: seq<char>, i: int)
    requires GridString(s) && 0 <= i < 81
    ensures PassUpTo(s, i + 1, i) == InitialCell(s, i)
    ensures forall j :: 0 <= j < 81 && j != i ==> PassUpTo(s, i + 1, j) == PassUpTo(s, i, j)
  {
  }

  /** The cells grid_create builds. */
  function Initial(s: seq<char>): (r: seq<Cell>)
    requires GridString(s)
    ensures |r| == 81
  {
    seq(81, i requires 0 <= i < 81 => InitialCell(s, i))
  }

  /** Number of '0' characters among the first k of a grid string. */
  function ZerosBelow(s: seq<char>, k: int): (n: nat)
    requires GridString(s) && 0 <= k <= 81
  {
    if k == 0 then 0 else ZerosBelow(s, k - 1) + (if DigitAt(s, k - 1) == 0 then 1 else 0)
  }

  /**
   * The grid that grid_create builds from a string: the clues as values,
   * each empty cell with the values none of its peers holds, each filled
   * cell with no candidates, and empty_cells the number of '0's.
   */
  lemma InitialFacts(s: seq<char>)
    requires GridString(s)
    ensures Cells81(Initial(s))
    ensures forall i :: 0 <= i < 81 ==> Initial(s)[i].value == DigitAt(s, i)
    ensures forall i :: 0 <= i < 81 && DigitAt(s, i) != 0 ==> Elems(Initial(s)[i].cands) == {}
    ensures forall i, v :: 0 <= i < 81 && DigitAt(s, i) == 0 && 1 <= v <= 9 ==>
      (HasCand(Initial(s)[i], v) <==> forall j :: 0 <= j < 81 && Peers(i, j) ==> DigitAt(s, j) != v)
    ensures CountEmpty(Initial(s)) == ZerosBelow(s, 81)
  {
    var cl := Clues(s);
    forall i, v | 0 <= i < 81 && DigitAt(s, i) == 0 && 1 <= v <= 9
      ensures HasCand(Initial(s)[i], v) <==> forall j :: 0 <= j < 81 && Peers(i, j) ==> DigitAt(s, j) != v
    {
      InitialCandsPeers(cl, i, v);
    }
    CluesCount(s, 81);
    assert cl[..81] == cl;
    CountEmptySameValues(cl, Initial(s));
  }

  lemma {:induction false} CluesCount(s: seq<char>, k: int)
    requires GridString(s) && 0 <= k <= 81
    ensures CountEmpty(Clues(s)[..k]) == ZerosBelow(s, k)
  {
    if k > 0 {
      CluesCount(s, k - 1);
      assert Clues(s)[..k][..k - 1] == Clues(s)[..k - 1];
    }
  }

  class Grid {
    /** cells[81] (and, through UnitIdx, rows, cols and boxes) */
    var cells: array<Cell>
    /** neighbours[81][NUM_NEIGHBOURS], as cell indices */
    var peers: array2<int>
    /** empty_cells */
    var emptyCells: int

    /** The cells know their indices and hold digits, and the peer table is complete. */
    ghost predicate Valid()
      reads this, cells, peers
    {
      cells.Length == 81 && Cells81(cells[..])
      && peers.Length0 == 81 && peers.Length1 == NumPeers
      && (forall i, n :: 0 <= i < 81 && 0 <= n < NumPeers ==> peers[i, n] == PeerList(i)[n])
    }

    /** empty_cells is the number of empty cells. */
    ghost predicate Counted()
      reads this, cells
    {
      emptyCells == CountEmpty(cells[..])
    }

    /** grid_create: two passes over the cells, then grid_generate_neighbours. */
    constructor (s: seq<char>)
      requires GridString(s)
      ensures Valid() && Counted() && fresh(cells) && fresh(peers)
      ensures cells[..] == Initial(s)
      ensures emptyCells == ZerosBelow(s, 81)
    {
      cells := new Cell[81];
      peers := new int[81, NumPeers];
      emptyCells := 81;
      new;
      var i := 0;
      while i < 81
        invariant 0 <= i <= 81 && cells.Length == 81
        invariant peers.Length0 == 81 && peers.Length1 == NumPeers && fresh(cells) && fresh(peers)
        invariant forall j :: 0 <= j < i ==> cells[j] == ClueCell(s, j)
        invariant emptyCells == 81 - i + ZerosBelow(s, i)
      {
        var value := s[i] as int - '0' as int;
        cells[i] := Create(i, value);
        if !IsEmpty(cells[i]) {
          emptyCells := emptyCells - 1;
        }
        i := i + 1;
      }
      assert cells[..] == Clues(s);
      CandidatesPass(s);
      assert cells[..] == Initial(s);
      InitialFacts(s);
      GenerateNeighbours();
    }

    /** The second pass of grid_create: each empty cell gets its initial candidates. */
    method CandidatesPass(ghost s: seq<char>)
      requires GridString(s) && cells.Length == 81 && cells[..] == Clues(s)
      modifies cells
      ensures forall j :: 0 <= j < 81 ==> cells[j] == InitialCell(s, j)
    {
      var i := 0;
      while i < 81
        invariant 0 <= i <= 81
        invariant forall j :: 0 <= j < 81 ==> cells[j] == PassUpTo(s, i, j)
      {
        var c := cells[i];
        if IsEmpty(c) {
          var cands := CellInitialCands(i, s);
          InitialCellOf(s, i, c, cands);
          cells[i] := c.(cands := cands);
        } else {
          InitialCellOf(s, i, c, c.cands);
        }
        PassStep(s, i);
        i := i + 1;
      }
    }

    /**
     * grid_cell_initial_cands, called in the second pass of grid_create:
     * cells below i already have their candidates, the values are the clues.
     */
    method CellInitialCands(i: int, ghost s: seq<char>) returns (r: CandSet)
      requires GridString(s) && 0 <= i < 81 && cells.Length == 81 && CellAt(cells[i], i)
      requires forall j :: 0 <= j < 81 ==> cells[j].value == DigitAt(s, j)
      ensures r == InitialCands(Clues(s), i)
    {
      var cs := cells[..];
      var cl := Clues(s);
      DigitsUnit(cl, Row, RowOf(i));
      DigitsUnit(cl, Col, ColOf(i));
      DigitsUnit(cl, Box, BoxOf(i));
      MissingOfSameValues(UnitCells(cl, Row, RowOf(i)), UnitCells(cs, Row, RowOf(i)));
      MissingOfSameValues(UnitCells(cl, Col, ColOf(i)), UnitCells(cs, Col, ColOf(i)));
      MissingOfSameValues(UnitCells(cl, Box, BoxOf(i)), UnitCells(cs, Box, BoxOf(i)));
      var rowMissing := MissingValues(UnitCells(cs, Row, cells[i].row));
      var colMissing := MissingValues(UnitCells(cs, Col, cells[i].col));
      var boxMissing := MissingValues(UnitCells(cs, Box, cells[i].box));
      r := IntersectionOf([rowMissing, colMissing, boxMissing]);
    }

    /** grid->peers[i]: row i of the peer table. */
    function PeerRow(i: int): (r: seq<int>)
      reads this, peers
      requires peers.Length0 == 81 && peers.Length1 == NumPeers && 0 <= i < 81
      ensures |r| == NumPeers
      ensures Valid() ==> r == PeerList(i)
    {
      var p := peers;
      seq(NumPeers, n requires 0 <= n < NumPeers reads p => p[i, n])
    }

    /** grid_is_solved: no empty cell is left, when the counter is exact. */
    function IsSolved(): (r: bool)
      reads this, cells
      requires cells.Length == 81 && Counted()
      ensures r <==> forall i :: 0 <= i < 81 ==> !IsEmpty(cells[i])
    {
      CountEmptyZero(cells[..]);
      emptyCells == 0
    }

    /**
     * grid_fill_cell: v is set at i, i's candidates are cleared, v is removed
     * from the 20 peers listed in the table, and empty_cells drops by one
     * (still exact when the cell was empty).
     */
    method FillCell(i: int, v: int)
      requires Valid() && 0 <= i < 81 && 1 <= v <= 9
      modifies this, cells
      ensures Valid() && cells == old(cells) && peers == old(peers)
      ensures cells[..] == FillSpec(old(cells[..]), i, v)
      ensures emptyCells == old(emptyCells) - 1
      ensures old(Counted()) && old(IsEmpty(cells[i])) ==> Counted()
    {
      ghost var cs := cells[..];
      FillSpecFacts(cs, i, v);
      PeerListFacts(i);
      cells[i] := cells[i].(value := v);
      cells[i] := ClearCands(cells[i]);
      emptyCells := emptyCells - 1;
      var n := 0;
      while n < NumPeers
        invariant 0 <= n <= NumPeers
        invariant cells == old(cells) && peers == old(peers) && emptyCells == old(emptyCells) - 1
        invariant forall m :: 0 <= m < NumPeers ==> peers[i, m] == PeerList(i)[m]
        invariant forall j :: 0 <= j < 81 ==> cells[j] == FillUpTo(cs, i, v, n, j)
      {
        var j := peers[i, n];
        FillStep(cs, i, v, n);
        cells[j] := RemoveCand(cells[j], v);
        n := n + 1;
      }
      assert PeerList(i)[..NumPeers] == PeerList(i);
      assert cells[..] == FillSpec(cs, i, v);
      if old(Counted()) && old(IsEmpty(cells[i])) {
        FillCount(cs, i, v);
      }
    }

    /** grid_generate_neighbours: row i of the table lists the peers of i, ascending. */
    method GenerateNeighbours()
      requires cells.Length == 81 && Cells81(cells[..])
      requires peers.Length0 == 81 && peers.Length1 == NumPeers
      modifies peers
      ensures forall i, n :: 0 <= i < 81 && 0 <= n < NumPeers ==> peers[i, n] == PeerList(i)[n]
    {
      var i := 0;
      while i < 81
        invariant 0 <= i <= 81
        invariant forall i', n :: 0 <= i' < i && 0 <= n < NumPeers ==> peers[i', n] == PeerList(i')[n]
      {
        NeighbourRow(i);
        i := i + 1;
      }
    }

    /** The inner loop of grid_generate_neighbours, for cell i. */
    method NeighbourRow(i: int)
      requires cells.Length == 81 && Cells81(cells[..]) && 0 <= i < 81
      requires peers.Length0 == 81 && peers.Length1 == NumPeers
      modifies peers
      ensures forall n :: 0 <= n < NumPeers ==> peers[i, n] == PeerList(i)[n]
      ensures forall i', n :: 0 <= i' < 81 && i' != i && 0 <= n < NumPeers ==> peers[i', n] == old(peers[i', n])
    {
      ghost var cs := cells[..];
      var a := cells[i];
      var count := 0;
      var j := 0;
      ghost var row: seq<int> := [];
      while j < 81
        invariant 0 <= j <= 81
        invariant row == PeersBelow(i, j)
        invariant count == |row| <= NumPeers
        invariant forall n :: 0 <= n < count ==> peers[i, n] == row[n]
        invariant forall i', n :: 0 <= i' < 81 && i' != i && 0 <= n < NumPeers ==> peers[i', n] == old(peers[i', n])
      {
        var b := cells[j];
        ScanStepAt(cs, i, j);
        if IsNeighbour(a, b) {
          peers[i, count] := j;
          row := row + [j];
          count := count + 1;
        }
        j := j + 1;
      }
      assert PeerList(i) == PeersBelow(i, 81);
    }
  }
}
