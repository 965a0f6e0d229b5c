// The brute-force completion counter of holmes (src/techniques/backtrack.c).
// It writes digits into the empty cells one after another, in index order,
// stepping back when a cell has run out of digits, counts the assignments
// that leave no placement clashing, stops at the second one, and finally
// clears the cells it wrote.
//
// The proof follows the cursor through the space of assignments.  The state
// of the search is the digit sequence Cursor(a, curr): the digits written so
// far, then 10 ("not yet reached") for every later empty cell.  Every step
// moves this sequence up in lexicographic order, which bounds the loop, and
// every completion at or below it has already been counted.

module Backtrack {
  import opened Cells
  import opened Grids
  import opened Search

  // -------------------------------------------------------- the empty cells

  /** The indices below n of the empty cells of cs, in increasing order. */
  function EmptyBelow(cs: seq<Cell>, n: int): (r: seq<int>)
    requires |cs| == 81 && 0 <= n <= 81
    ensures forall k :: 0 <= k < |r| ==> 0 <= r[k] < n
  {
    if n == 0 then []
    else EmptyBelow(cs, n - 1) + (if IsEmpty(cs[n - 1]) then [n - 1] else [])
  }

  /** empty_idxs[..num_empty] */
  function Empties(cs: seq<Cell>): (r: seq<int>)
    requires |cs| == 81
    ensures InGrid(r)
  {
    EmptyBelow(cs, 81)
  }

  /** The entries are cell indices. */
  predicate InGrid(idxs: seq<int>)
  {
    forall k :: 0 <= k < |idxs| ==> 0 <= idxs[k] < 81
  }

  /** EmptyBelow lists exactly the empty cells below n, each once, in order. */
  lemma {:induction false} EmptyBelowFacts(cs: seq<Cell>, n: int)
    requires |cs| == 81 && 0 <= n <= 81
    ensures Ascending(EmptyBelow(cs, n))
    ensures forall j :: j in EmptyBelow(cs, n) <==> 0 <= j < n && IsEmpty(cs[j])
  {
    if n > 0 {
      EmptyBelowFacts(cs, n - 1);
    }
  }

  /** The listed cells are the empty cells of the grid. */
  lemma EmptiesFacts(cs: seq<Cell>)
    requires |cs| == 81
    ensures Ascending(Empties(cs))
    ensures forall j :: 0 <= j < 81 ==> (j in Empties(cs) <==> IsEmpty(cs[j]))
    ensures forall k :: 0 <= k < |Empties(cs)| ==> IsEmpty(cs[Empties(cs)[k]])
  {
    EmptyBelowFacts(cs, 81);
    var e := Empties(cs);
    forall k | 0 <= k < |e|
      ensures IsEmpty(cs[e[k]])
    {
      assert e[k] in e;
    }
  }

  /** The first loop of backtrack: collect the indices of the empty cells. */
  method CollectEmpty(g: Grid) returns (idxs: seq<int>)
    requires g.cells.Length == 81
    ensures idxs == Empties(g.cells[..])
  {
    idxs := [];
    for i := 0 to 81
      invariant idxs == EmptyBelow(g.cells[..], i)
    {
      if IsEmpty(g.cells[i]) {
        idxs := idxs + [i];
      }
    }
  }

  // ------------------------------------------------------- placement check

  /** Entry p of unit u of type t holds the digit v. */
  predicate HasValue(cs: seq<Cell>, t: UnitType, u: int, p: int, v: int)
    requires |cs| == 81 && 0 <= u < 9 && 0 <= p < 9
  {
    cs[UnitIdx(t, u, p)].value == v
  }

  /** How many of the first n entries of unit u hold v. */
  function ValueCount(cs: seq<Cell>, t: UnitType, u: int, v: int, n: int): nat
    requires |cs| == 81 && 0 <= u < 9 && 0 <= n <= 9
  {
    if n == 0 then 0
    else ValueCount(cs, t, u, v, n - 1) + (if HasValue(cs, t, u, n - 1, v) then 1 else 0)
  }

  /** The count is zero exactly when no entry holds v. */
  lemma {:induction false} ValueCountZero(cs: seq<Cell>, t: UnitType, u: int, v: int, n: int)
    requires |cs| == 81 && 0 <= u < 9 && 0 <= n <= 9
    ensures ValueCount(cs, t, u, v, n) == 0 <==> forall p :: 0 <= p < n ==> !HasValue(cs, t, u, p, v)
  {
    if n > 0 {
      ValueCountZero(cs, t, u, v, n - 1);
    }
  }

  /** The count is at most one exactly when no two entries both hold v. */
  lemma {:induction false} ValueCountAtMostOne(cs: seq<Cell>, t: UnitType, u: int, v: int, n: int)
    requires |cs| == 81 && 0 <= u < 9 && 0 <= n <= 9
    ensures ValueCount(cs, t, u, v, n) <= 1 <==>
      forall p, q :: 0 <= p < q < n ==> !(HasValue(cs, t, u, p, v) && HasValue(cs, t, u, q, v))
  {
    if n > 0 {
      ValueCountAtMostOne(cs, t, u, v, n - 1);
      ValueCountZero(cs, t, u, v, n - 1);
    }
  }

  /** cells_with_value over one unit of the grid. */
  method CellsWithValue(g: Grid, t: UnitType, u: int, v: int) returns (count: int)
    requires g.cells.Length == 81 && 0 <= u < 9
    ensures count == ValueCount(g.cells[..], t, u, v, 9)
  {
    count := 0;
    for p := 0 to 9
      invariant count == ValueCount(g.cells[..], t, u, v, p)
    {
      if g.cells[UnitIdx(t, u, p)].value == v {
        count := count + 1;
      }
    }
  }

  /** The condition is_placement_valid checks: v at most once in i's row, column and box. */
  predicate PlacementValid(cs: seq<Cell>, i: int, v: int)
    requires |cs| == 81 && 0 <= i < 81
  {
    ValueCount(cs, Row, UnitOf(Row, i), v, 9) <= 1
    && ValueCount(cs, Col, UnitOf(Col, i), v, 9) <= 1
    && ValueCount(cs, Box, UnitOf(Box, i), v, 9) <= 1
  }

  /** is_placement_valid */
  method IsPlacementValid(g: Grid, idx: int, v: int) returns (ok: bool)
    requires g.cells.Length == 81 && 0 <= idx < 81 && CellAt(g.cells[idx], idx)
    ensures ok == PlacementValid(g.cells[..], idx, v)
  {
    var cell := g.cells[idx];
    var count := CellsWithValue(g, Row, cell.row, v);
    if count > 1 {
      return false;
    }
    count := CellsWithValue(g, Col, cell.col, v);
    if count > 1 {
      return false;
    }
    count := CellsWithValue(g, Box, cell.box, v);
    if count > 1 {
      return false;
    }
    return true;
  }

  /** No peer of cell i holds v. */
  predicate NoPeerHas(cs: seq<Cell>, i: int, v: int)
    requires |cs| == 81 && 0 <= i < 81
  {
    forall j :: 0 <= j < 81 && Peers(i, j) ==> cs[j].value != v
  }

  /** When entry p0 holds v, v is at most once in the unit exactly when no other entry holds it. */
  lemma CountOthers(cs: seq<Cell>, t: UnitType, u: int, p0: int, v: int)
    requires |cs| == 81 && 0 <= u < 9 && 0 <= p0 < 9 && HasValue(cs, t, u, p0, v)
    ensures ValueCount(cs, t, u, v, 9) <= 1 <==>
      forall q :: 0 <= q < 9 && q != p0 ==> !HasValue(cs, t, u, q, v)
  {
    ValueCountAtMostOne(cs, t, u, v, 9);
    if ValueCount(cs, t, u, v, 9) > 1 {
      var p, q :| 0 <= p < q < 9 && HasValue(cs, t, u, p, v) && HasValue(cs, t, u, q, v);
      assert p != p0 || q != p0;
    }
  }

  /** Another cell j of i's unit is the entry at j's own position, which is not i's. */
  lemma OtherCellEntry(t: UnitType, i: int, j: int)
    requires 0 <= i < 81 && 0 <= j < 81 && j != i && UnitOf(t, j) == UnitOf(t, i)
    ensures UnitIdx(t, UnitOf(t, i), PosOf(t, j)) == j && PosOf(t, j) != PosOf(t, i)
  {
    UnitBack(t, i);
    UnitBack(t, j);
  }

  /** Another entry of i's unit is a cell j != i in that unit. */
  lemma OtherEntryCell(t: UnitType, i: int, q: int)
    requires 0 <= i < 81 && 0 <= q < 9 && q != PosOf(t, i)
    ensures UnitIdx(t, UnitOf(t, i), q) != i && UnitOf(t, UnitIdx(t, UnitOf(t, i), q)) == UnitOf(t, i)
  {
    UnitBack(t, i);
    UnitRoundTrip(t, 0, UnitOf(t, i), q);
  }

  /** The other entries of i's unit are the cells j != i with the same unit. */
  lemma OthersInUnit(cs: seq<Cell>, t: UnitType, i: int, v: int)
    requires |cs| == 81 && 0 <= i < 81
    ensures (forall q :: 0 <= q < 9 && q != PosOf(t, i) ==> !HasValue(cs, t, UnitOf(t, i), q, v)) <==>
      (forall j :: 0 <= j < 81 && j != i && UnitOf(t, j) == UnitOf(t, i) ==> cs[j].value != v)
  {
    var u, p0 := UnitOf(t, i), PosOf(t, i);
    if forall q :: 0 <= q < 9 && q != p0 ==> !HasValue(cs, t, u, q, v) {
      forall j | 0 <= j < 81 && j != i && UnitOf(t, j) == u
        ensures cs[j].value != v
      {
        OtherCellEntry(t, i, j);
        assert !HasValue(cs, t, u, PosOf(t, j), v);
      }
    } else {
      var q :| 0 <= q < 9 && q != p0 && HasValue(cs, t, u, q, v);
      OtherEntryCell(t, i, q);
    }
  }

  /** When cell i holds v, v is at most once in one of i's units exactly when no
      other cell of that unit holds it. */
  lemma UnitClear(cs: seq<Cell>, t: UnitType, i: int, v: int)
    requires |cs| == 81 && 0 <= i < 81 && cs[i].value == v
    ensures ValueCount(cs, t, UnitOf(t, i), v, 9) <= 1 <==>
      forall j :: 0 <= j < 81 && j != i && UnitOf(t, j) == UnitOf(t, i) ==> cs[j].value != v
  {
    UnitBack(t, i);
    CountOthers(cs, t, UnitOf(t, i), PosOf(t, i), v);
    OthersInUnit(cs, t, i, v);
  }

  /** With v written in cell i, is_placement_valid accepts exactly when no peer holds v. */
  lemma PlacementValidPeers(cs: seq<Cell>, i: int, v: int)
    requires |cs| == 81 && 0 <= i < 81 && cs[i].value == v
    ensures PlacementValid(cs, i, v) <==> NoPeerHas(cs, i, v)
  {
    UnitClear(cs, Row, i, v);
    UnitClear(cs, Col, i, v);
    UnitClear(cs, Box, i, v);
  }

  // ----------------------------------------------------------- completions

  /** Every entry lies in lo..hi. */
  predicate Digits(d: seq<int>, lo: int, hi: int)
  {
    forall k :: 0 <= k < |d| ==> lo <= d[k] <= hi
  }

  /** Digit a[k], written in cell idxs[k] after a[0..k-1] in the cells before it,
      clashes with no peer that is a clue and with no earlier written peer. */
  predicate PlacedOk(cs: seq<Cell>, idxs: seq<int>, a: seq<int>, k: int)
    requires |cs| == 81 && InGrid(idxs) && |a| == |idxs| && 0 <= k < |a|
  {
    (forall j :: 0 <= j < 81 && !IsEmpty(cs[j]) && Peers(idxs[k], j) ==> cs[j].value != a[k])
    && (forall m :: 0 <= m < k && Peers(idxs[k], idxs[m]) ==> a[m] != a[k])
  }

  /** b gives the empty cells idxs of puzzle cs digits that clash with nothing. */
  predicate Completion(cs: seq<Cell>, idxs: seq<int>, b: seq<int>)
    requires |cs| == 81 && InGrid(idxs)
  {
    |b| == |idxs| && forall k :: 0 <= k < |b| ==> 1 <= b[k] <= 9 && PlacedOk(cs, idxs, b, k)
  }

  /** A completion, stated without the order of filling: every written digit
      differs from its clue peers and from every other written peer. */
  lemma CompletionSymmetric(cs: seq<Cell>, idxs: seq<int>, b: seq<int>)
    requires |cs| == 81 && InGrid(idxs) && |b| == |idxs|
    ensures Completion(cs, idxs, b) <==>
      (forall k :: 0 <= k < |b| ==> 1 <= b[k] <= 9)
      && (forall k, j :: 0 <= k < |b| && 0 <= j < 81 && !IsEmpty(cs[j]) && Peers(idxs[k], j) ==>
            cs[j].value != b[k])
      && (forall k, m :: 0 <= k < |b| && 0 <= m < |b| && k != m && Peers(idxs[k], idxs[m]) ==>
            b[k] != b[m])
  {
    if Completion(cs, idxs, b) {
      forall k, m | 0 <= k < |b| && 0 <= m < |b| && k != m && Peers(idxs[k], idxs[m])
        ensures b[k] != b[m]
      {
        PeersSymmetric(idxs[k], idxs[m]);
        if m < k {
          assert PlacedOk(cs, idxs, b, k);
        } else {
          assert PlacedOk(cs, idxs, b, m);
        }
      }
    }
  }

  /** Whether a[k] is placed well depends on a[0..k] only. */
  lemma PlacedPrefix(cs: seq<Cell>, idxs: seq<int>, a: seq<int>, b: seq<int>, k: int)
    requires |cs| == 81 && InGrid(idxs) && |a| == |idxs| && |b| == |idxs| && 0 <= k < |a|
    requires forall m :: 0 <= m <= k ==> a[m] == b[m]
    ensures PlacedOk(cs, idxs, a, k) == PlacedOk(cs, idxs, b, k)
  {
  }

  /** The grid cells show puzzle cs0 with a[k] written into empty cell idxs[k]. */
  ghost predicate Shows(cells: seq<Cell>, cs0: seq<Cell>, idxs: seq<int>, a: seq<int>)
    requires |cs0| == 81 && InGrid(idxs) && |a| == |idxs|
  {
    |cells| == 81
    && (forall k :: 0 <= k < |idxs| ==> cells[idxs[k]] == cs0[idxs[k]].(value := a[k]))
    && (forall j :: 0 <= j < 81 && !IsEmpty(cs0[j]) ==> cells[j] == cs0[j])
  }

  /** The grid shows digit a[k] in empty cell idxs[k]. */
  lemma ShowsAt(cells: seq<Cell>, cs0: seq<Cell>, idxs: seq<int>, a: seq<int>, k: int)
    requires |cs0| == 81 && InGrid(idxs) && |a| == |idxs| && 0 <= k < |a|
    requires Shows(cells, cs0, idxs, a)
    ensures cells[idxs[k]].value == a[k]
  {
  }

  /** Writing x into empty cell idxs[k] keeps the picture. */
  lemma ShowsUpdate(cells: seq<Cell>, cs0: seq<Cell>, idxs: seq<int>, a: seq<int>, k: int, x: int)
    requires |cs0| == 81 && InGrid(idxs) && Ascending(idxs) && |a| == |idxs| && 0 <= k < |a|
    requires IsEmpty(cs0[idxs[k]]) && Shows(cells, cs0, idxs, a)
    ensures Shows(cells[idxs[k] := cs0[idxs[k]].(value := x)], cs0, idxs, a[k := x])
  {
  }

  /** The puzzle itself shows zeros written into its empty cells. */
  lemma ShowsStart(cs0: seq<Cell>, a: seq<int>)
    requires |cs0| == 81 && |a| == |Empties(cs0)|
    requires forall k :: 0 <= k < |a| ==> a[k] == 0
    ensures Shows(cs0, cs0, Empties(cs0), a)
  {
    EmptiesFacts(cs0);
  }

  /** With zeros written everywhere the grid is the puzzle again. */
  lemma ShowsZero(cells: seq<Cell>, cs0: seq<Cell>, a: seq<int>)
    requires |cs0| == 81 && |a| == |Empties(cs0)|
    requires forall k :: 0 <= k < |a| ==> a[k] == 0
    requires Shows(cells, cs0, Empties(cs0), a)
    ensures cells == cs0
  {
    var e := Empties(cs0);
    EmptiesFacts(cs0);
    forall j | 0 <= j < 81
      ensures cells[j] == cs0[j]
    {
      if IsEmpty(cs0[j]) {
        var k :| 0 <= k < |e| && e[k] == j;
        assert cells[j] == cs0[j].(value := 0);
      }
    }
  }

  /** A digit placed well at the cursor clashes with no peer in the grid. */
  lemma GridCheckPlaced(cells: seq<Cell>, cs0: seq<Cell>, a: seq<int>, curr: int)
    requires |cs0| == 81 && |a| == |Empties(cs0)| && 0 <= curr < |a|
    requires Shows(cells, cs0, Empties(cs0), a)
    requires forall k :: curr < k < |a| ==> a[k] == 0
    requires PlacedOk(cs0, Empties(cs0), a, curr) && a[curr] >= 1
    ensures NoPeerHas(cells, Empties(cs0)[curr], a[curr])
  {
    var e := Empties(cs0);
    var i := e[curr];
    var v := a[curr];
    EmptiesFacts(cs0);
    forall j | 0 <= j < 81 && Peers(i, j)
      ensures cells[j].value != v
    {
      if IsEmpty(cs0[j]) {
        var m :| 0 <= m < |e| && e[m] == j;
        assert cells[j].value == a[m];
      }
    }
  }

  /** A digit not placed well at the cursor meets a peer holding it in the grid. */
  lemma GridCheckClash(cells: seq<Cell>, cs0: seq<Cell>, a: seq<int>, curr: int)
    requires |cs0| == 81 && |a| == |Empties(cs0)| && 0 <= curr < |a|
    requires Shows(cells, cs0, Empties(cs0), a)
    requires !PlacedOk(cs0, Empties(cs0), a, curr)
    ensures !NoPeerHas(cells, Empties(cs0)[curr], a[curr])
  {
    var e := Empties(cs0);
    var i := e[curr];
    var v := a[curr];
    if exists j :: 0 <= j < 81 && !IsEmpty(cs0[j]) && Peers(i, j) && cs0[j].value == v {
      var j :| 0 <= j < 81 && !IsEmpty(cs0[j]) && Peers(i, j) && cs0[j].value == v;
      assert cells[j].value == v;
    } else {
      var m :| 0 <= m < curr && Peers(i, e[m]) && a[m] == v;
      assert cells[e[m]].value == v;
    }
  }

  /** In the grid during the search, is_placement_valid on the cursor cell decides
      PlacedOk for the digit just written there. */
  lemma GridCheck(cells: seq<Cell>, cs0: seq<Cell>, a: seq<int>, curr: int)
    requires |cs0| == 81 && |a| == |Empties(cs0)| && 0 <= curr < |a|
    requires Shows(cells, cs0, Empties(cs0), a) && a[curr] >= 1
    requires forall k :: curr < k < |a| ==> a[k] == 0
    ensures PlacementValid(cells, Empties(cs0)[curr], a[curr]) <==> PlacedOk(cs0, Empties(cs0), a, curr)
  {
    EmptiesFacts(cs0);
    var i := Empties(cs0)[curr];
    assert cells[i].value == a[curr];
    PlacementValidPeers(cells, i, a[curr]);
    if PlacedOk(cs0, Empties(cs0), a, curr) {
      GridCheckPlaced(cells, cs0, a, curr);
    } else {
      GridCheckClash(cells, cs0, a, curr);
    }
  }

  // ------------------------------------------------------ lexicographic order

  /** d is at most e in lexicographic order. */
  predicate LexLe(d: seq<int>, e: seq<int>)
    requires |d| == |e|
    decreases |d|
  {
    d == [] || d[0] < e[0] || (d[0] == e[0] && LexLe(d[1..], e[1..]))
  }

  lemma {:induction false} LexRefl(d: seq<int>)
    ensures LexLe(d, d)
    decreases |d|
  {
    if d != [] {
      LexRefl(d[1..]);
    }
  }

  lemma {:induction false} LexTrans(d: seq<int>, e: seq<int>, f: seq<int>)
    requires |d| == |e| == |f| && LexLe(d, e) && LexLe(e, f)
    ensures LexLe(d, f)
    decreases |d|
  {
    if d != [] && d[0] == e[0] && e[0] == f[0] {
      LexTrans(d[1..], e[1..], f[1..]);
    }
  }

  /** n entries "not yet reached". */
  function Tens(n: nat): (r: seq<int>)
    ensures |r| == n && forall k :: 0 <= k < n ==> r[k] == 10
  {
    if n == 0 then [] else [10] + Tens(n - 1)
  }

  /** d and e agree before k and d[k] < e[k]: d lies strictly below e. */
  lemma {:induction false} LexBumpAt(d: seq<int>, e: seq<int>, k: int)
    requires |d| == |e| && 0 <= k < |d| && d[k] < e[k]
    requires forall m :: 0 <= m < k ==> d[m] == e[m]
    ensures LexLe(d, e) && !LexLe(e, d)
    decreases k
  {
    if k > 0 {
      LexBumpAt(d[1..], e[1..], k - 1);
    }
  }

  /** If b is at most e but not at most d, where d and e first differ at k with
      d[k] < e[k], then b agrees with both before k, and at k it lies between
      them, or follows e below it, or follows d above it. */
  lemma {:induction false} LexSplitAt(b: seq<int>, d: seq<int>, e: seq<int>, k: int)
    requires |b| == |d| == |e| && 0 <= k < |d| && d[k] < e[k]
    requires forall m :: 0 <= m < k ==> d[m] == e[m]
    requires LexLe(b, e) && !LexLe(b, d)
    ensures forall m :: 0 <= m < k ==> b[m] == d[m]
    ensures (d[k] < b[k] < e[k]) || (b[k] == e[k] && LexLe(b[k + 1..], e[k + 1..]))
      || (b[k] == d[k] && !LexLe(b[k + 1..], d[k + 1..]))
    decreases k
  {
    if k > 0 {
      LexSplitAt(b[1..], d[1..], e[1..], k - 1);
      assert b[1..][k..] == b[k + 1..] && d[1..][k..] == d[k + 1..] && e[1..][k..] == e[k + 1..];
    }
  }

  /** Digits up to 9 lie below entries that are all 10. */
  lemma BelowTens(x: seq<int>, y: seq<int>)
    requires |x| == |y| && Digits(x, 0, 9) && forall m :: 0 <= m < |y| ==> y[m] == 10
    ensures LexLe(x, y)
  {
  }

  /** A sequence of digits is below the sequence "nothing reached". */
  lemma TensAbove(b: seq<int>)
    requires Digits(b, 0, 9)
    ensures LexLe(b, Tens(|b|))
  {
    if b != [] {
      assert Tens(|b|)[0] == 10;
    }
  }

  // ---------------------------------------------------------------- the rank

  function Pow11(n: nat): (p: nat)
    ensures p >= 1
  {
    if n == 0 then 1 else 11 * Pow11(n - 1)
  }

  /** The sequence read as a base-11 number, most significant entry first. */
  function Num(d: seq<int>): int
  {
    if d == [] then 0 else d[0] * Pow11(|d| - 1) + Num(d[1..])
  }

  lemma MulMono(x: int, y: int, p: int)
    requires x <= y && 0 <= p
    ensures x * p <= y * p
  {
    assert (y - x) * p >= 0;
  }

  /** One leading digit and a smaller remainder stay below 11 times the place value. */
  lemma DigitBound(x: int, r: int, p: int)
    requires 0 <= x <= 10 && 0 <= r < p
    ensures 0 <= x * p + r < 11 * p
  {
    MulMono(0, x, p);
    MulMono(x, 10, p);
  }

  /** A larger leading digit outweighs any remainders below the place value. */
  lemma DigitLess(x: int, y: int, rx: int, ry: int, p: int)
    requires 0 <= x < y && 0 <= rx < p && 0 <= ry
    ensures x * p + rx < y * p + ry
  {
    MulMono(x + 1, y, p);
    assert (x + 1) * p == x * p + p;
  }

  /** Base-11 digits give a number below 11^n. */
  lemma {:induction false} NumBound(d: seq<int>)
    requires Digits(d, 0, 10)
    ensures 0 <= Num(d) < Pow11(|d|)
    decreases |d|
  {
    if d != [] {
      var p := Pow11(|d| - 1);
      NumBound(d[1..]);
      assert Num(d) == d[0] * p + Num(d[1..]);
      DigitBound(d[0], Num(d[1..]), p);
    }
  }

  /** The base-11 number grows with the lexicographic order. */
  lemma {:induction false} LexNum(d: seq<int>, e: seq<int>)
    requires |d| == |e| && Digits(d, 0, 10) && Digits(e, 0, 10)
    requires LexLe(d, e) && !LexLe(e, d)
    ensures Num(d) < Num(e)
    decreases |d|
  {
    var p := Pow11(|d| - 1);
    if d[0] < e[0] {
      NumBound(d[1..]);
      NumBound(e[1..]);
      assert Num(d) == d[0] * p + Num(d[1..]);
      assert Num(e) == e[0] * p + Num(e[1..]);
      DigitLess(d[0], e[0], Num(d[1..]), Num(e[1..]), p);
    } else {
      LexNum(d[1..], e[1..]);
    }
  }

  /** The rank of a sequence of base-11 digits rises with the lexicographic order. */
  lemma RankOf(d: seq<int>, e: seq<int>)
    requires |d| == |e| && Digits(d, 0, 10) && Digits(e, 0, 10) && LexLe(d, e) && !LexLe(e, d)
    ensures Num(d) < Num(e) < Pow11(|d|)
  {
    LexNum(d, e);
    NumBound(e);
  }

  // -------------------------------------------------------------- the cursor

  /** The state of the search: the digits written up to curr, then "not yet reached". */
  function Cursor(a: seq<int>, curr: int): (d: seq<int>)
    requires 0 <= curr < |a|
    ensures |d| == |a|
  {
    a[..curr] + [a[curr]] + Tens(|a| - curr - 1)
  }

  /** The facts every step needs about the digits written so far. */
  predicate Searching(a: seq<int>, curr: int)
  {
    0 <= curr < |a| && Digits(a, 0, 9) && forall k :: curr < k < |a| ==> a[k] == 0
  }

  /** The cursor entry by entry. */
  lemma CursorAt(a: seq<int>, curr: int)
    requires Searching(a, curr)
    ensures forall m :: 0 <= m <= curr ==> Cursor(a, curr)[m] == a[m]
    ensures forall m :: curr < m < |a| ==> Cursor(a, curr)[m] == 10
    ensures Digits(Cursor(a, curr), 0, 10)
  {
  }

  /** Writing the next digit at the cursor raises it. */
  lemma StayRise(a: seq<int>, curr: int)
    requires Searching(a, curr) && a[curr] < 9
    ensures LexLe(Cursor(a, curr), Cursor(a[curr := a[curr] + 1], curr))
    ensures Num(Cursor(a, curr)) < Num(Cursor(a[curr := a[curr] + 1], curr)) < Pow11(|a|)
  {
    var a2 := a[curr := a[curr] + 1];
    CursorAt(a, curr);
    CursorAt(a2, curr);
    LexBumpAt(Cursor(a, curr), Cursor(a2, curr), curr);
    RankOf(Cursor(a, curr), Cursor(a2, curr));
  }

  /** A sequence of digits 1..9 at or below the raised cursor but not the old one
      agrees with the new digits up to the cursor. */
  lemma StayShape(b: seq<int>, a: seq<int>, curr: int)
    requires Searching(a, curr) && a[curr] < 9 && |b| == |a| && Digits(b, 1, 9)
    requires LexLe(b, Cursor(a[curr := a[curr] + 1], curr)) && !LexLe(b, Cursor(a, curr))
    ensures forall m :: 0 <= m <= curr ==> b[m] == a[curr := a[curr] + 1][m]
  {
    var a2 := a[curr := a[curr] + 1];
    var d, e := Cursor(a, curr), Cursor(a2, curr);
    CursorAt(a, curr);
    CursorAt(a2, curr);
    LexSplitAt(b, d, e, curr);
    if b[curr] == d[curr] {
      BelowTens(b[curr + 1..], d[curr + 1..]);
    }
  }

  /** Moving on to the next cell after a digit is accepted raises the cursor. */
  lemma AdvanceRise(a: seq<int>, curr: int)
    requires Searching(a, curr) && a[curr] < 9 && curr < |a| - 1
    ensures LexLe(Cursor(a, curr), Cursor(a[curr := a[curr] + 1], curr + 1))
    ensures Num(Cursor(a, curr)) < Num(Cursor(a[curr := a[curr] + 1], curr + 1)) < Pow11(|a|)
  {
    var a2 := a[curr := a[curr] + 1];
    CursorAt(a, curr);
    CursorAt(a2, curr + 1);
    LexBumpAt(Cursor(a, curr), Cursor(a2, curr + 1), curr);
    RankOf(Cursor(a, curr), Cursor(a2, curr + 1));
  }

  /** Nothing made of digits 1..9 lies between the cursor and the one after moving on. */
  lemma AdvanceShape(b: seq<int>, a: seq<int>, curr: int)
    requires Searching(a, curr) && a[curr] < 9 && curr < |a| - 1 && |b| == |a| && Digits(b, 1, 9)
    requires LexLe(b, Cursor(a[curr := a[curr] + 1], curr + 1))
    ensures LexLe(b, Cursor(a, curr))
  {
    var a2 := a[curr := a[curr] + 1];
    var d, e := Cursor(a, curr), Cursor(a2, curr + 1);
    CursorAt(a, curr);
    CursorAt(a2, curr + 1);
    BelowTens(b[curr + 1..], d[curr + 1..]);
    assert !LexLe(b[curr + 1..], e[curr + 1..]) by {
      assert b[curr + 1..][0] > e[curr + 1..][0];
    }
    if !LexLe(b, d) {
      LexSplitAt(b, d, e, curr);
    }
  }

  /** Clearing a cell that has run through 9 and stepping back raises the cursor. */
  lemma BackRise(a: seq<int>, curr: int)
    requires Searching(a, curr) && a[curr] == 9 && 0 < curr
    ensures LexLe(Cursor(a, curr), Cursor(a[curr := 0], curr - 1))
    ensures Num(Cursor(a, curr)) < Num(Cursor(a[curr := 0], curr - 1)) < Pow11(|a|)
  {
    var a2 := a[curr := 0];
    assert Searching(a2, curr - 1);
    CursorAt(a, curr);
    CursorAt(a2, curr - 1);
    LexBumpAt(Cursor(a, curr), Cursor(a2, curr - 1), curr);
    RankOf(Cursor(a, curr), Cursor(a2, curr - 1));
  }

  /** Nothing made of digits 1..9 lies between the cursor and the one after stepping back. */
  lemma BackShape(b: seq<int>, a: seq<int>, curr: int)
    requires Searching(a, curr) && a[curr] == 9 && 0 < curr && |b| == |a| && Digits(b, 1, 9)
    requires LexLe(b, Cursor(a[curr := 0], curr - 1))
    ensures LexLe(b, Cursor(a, curr))
  {
    var a2 := a[curr := 0];
    var d, e := Cursor(a, curr), Cursor(a2, curr - 1);
    CursorAt(a, curr);
    CursorAt(a2, curr - 1);
    BelowTens(b[curr + 1..], d[curr + 1..]);
    if !LexLe(b, d) {
      LexSplitAt(b, d, e, curr);
    }
  }

  // ------------------------------------------------------------ the counting

  /** A completion is a sequence of digits 1..9, one per empty cell. */
  lemma CompletionDigits(cs: seq<Cell>, idxs: seq<int>, b: seq<int>)
    requires |cs| == 81 && InGrid(idxs) && Completion(cs, idxs, b)
    ensures |b| == |idxs| && Digits(b, 1, 9)
  {
  }

  /** A completion that agrees with a up to k shows that a[k] is placed well. */
  lemma CompletionPrefix(cs: seq<Cell>, idxs: seq<int>, b: seq<int>, a: seq<int>, k: int)
    requires |cs| == 81 && InGrid(idxs) && Completion(cs, idxs, b)
    requires |a| == |idxs| && 0 <= k < |a| && forall m :: 0 <= m <= k ==> b[m] == a[m]
    ensures PlacedOk(cs, idxs, a, k)
  {
    PlacedPrefix(cs, idxs, b, a, k);
  }

  /** Every digit before the cursor is written and placed well. */
  predicate Prefix(cs: seq<Cell>, idxs: seq<int>, a: seq<int>, n: int)
    requires |cs| == 81 && InGrid(idxs) && |a| == |idxs| && 0 <= n <= |a|
  {
    forall k :: 0 <= k < n ==> 1 <= a[k] && PlacedOk(cs, idxs, a, k)
  }

  /** Changing a digit at or after n keeps the digits before n placed well. */
  lemma PrefixUpdate(cs: seq<Cell>, idxs: seq<int>, a: seq<int>, n: int, j: int, x: int)
    requires |cs| == 81 && InGrid(idxs) && |a| == |idxs| && 0 <= n <= j < |a|
    requires Prefix(cs, idxs, a, n)
    ensures Prefix(cs, idxs, a[j := x], n)
  {
    var a2 := a[j := x];
    forall k | 0 <= k < n
      ensures PlacedOk(cs, idxs, a2, k)
    {
      PlacedPrefix(cs, idxs, a, a2, k);
    }
  }

  /** found holds exactly the completions at or below cursor d. */
  ghost predicate FoundAll(cs: seq<Cell>, idxs: seq<int>, found: set<seq<int>>, d: seq<int>)
    requires |cs| == 81 && InGrid(idxs)
  {
    (forall b :: b in found ==> Completion(cs, idxs, b) && |b| == |d| && LexLe(b, d))
    && (forall b :: Completion(cs, idxs, b) && |b| == |d| && LexLe(b, d) ==> b in found)
  }

  /** Moving the cursor up keeps found exact once the completions passed over are added. */
  lemma FoundMove(cs: seq<Cell>, idxs: seq<int>, found: set<seq<int>>, extra: set<seq<int>>,
                  d: seq<int>, d2: seq<int>)
    requires |cs| == 81 && InGrid(idxs) && |d| == |d2| == |idxs|
    requires FoundAll(cs, idxs, found, d) && LexLe(d, d2)
    requires forall b :: b in extra ==> Completion(cs, idxs, b) && LexLe(b, d2)
    requires forall b :: Completion(cs, idxs, b) && LexLe(b, d2) && !LexLe(b, d) ==> b in extra
    ensures FoundAll(cs, idxs, found + extra, d2)
  {
    forall b | b in found
      ensures LexLe(b, d2)
    {
      LexTrans(b, d, d2);
    }
  }

  /** Moving the cursor up past no completion keeps found exact. */
  lemma FoundStay(cs: seq<Cell>, idxs: seq<int>, found: set<seq<int>>, d: seq<int>, d2: seq<int>)
    requires |cs| == 81 && InGrid(idxs) && |d| == |d2| == |idxs|
    requires FoundAll(cs, idxs, found, d) && LexLe(d, d2)
    requires forall b :: Completion(cs, idxs, b) && LexLe(b, d2) ==> LexLe(b, d)
    ensures FoundAll(cs, idxs, found, d2)
  {
    forall b | b in found
      ensures LexLe(b, d2)
    {
      LexTrans(b, d, d2);
    }
  }

  /** Everything the loop of backtrack keeps: the digits, the prefix placed well,
      and found exact. */
  ghost predicate SearchState(cs: seq<Cell>, idxs: seq<int>, found: set<seq<int>>, a: seq<int>, curr: int)
    requires |cs| == 81 && InGrid(idxs)
  {
    |a| == |idxs| && Searching(a, curr) && Prefix(cs, idxs, a, curr)
    && FoundAll(cs, idxs, found, Cursor(a, curr))
  }

  /** The search starts below every completion. */
  lemma Start(cs: seq<Cell>, idxs: seq<int>, a: seq<int>)
    requires |cs| == 81 && InGrid(idxs) && |a| == |idxs| > 0
    requires forall k :: 0 <= k < |a| ==> a[k] == 0
    ensures SearchState(cs, idxs, {}, a, 0)
  {
    var d := Cursor(a, 0);
    assert d[0] == 0;
    forall b | Completion(cs, idxs, b) && |b| == |d|
      ensures !LexLe(b, d)
    {
      assert 1 <= b[0];
    }
  }

  /** Once the first cell has run through 9, every completion is at or below the cursor. */
  lemma Exhausted(cs: seq<Cell>, idxs: seq<int>, found: set<seq<int>>, a: seq<int>)
    requires |cs| == 81 && InGrid(idxs) && SearchState(cs, idxs, found, a, 0) && a[0] == 9
    ensures forall b :: Completion(cs, idxs, b) ==> b in found
  {
    var d := Cursor(a, 0);
    assert d == [9] + Tens(|a| - 1);
    forall b | Completion(cs, idxs, b)
      ensures LexLe(b, d)
    {
      if b[0] == 9 {
        TensAbove(b[1..]);
      }
    }
  }

  /** The rank of the search state: it falls at every step and stays positive. */
  function Rank(a: seq<int>, curr: int): int
    requires 0 <= curr < |a|
  {
    Pow11(|a|) - Num(Cursor(a, curr))
  }

  /** Writing the next digit keeps the digits searching. */
  lemma SearchingStay(a: seq<int>, curr: int)
    requires Searching(a, curr) && a[curr] < 9
    ensures Searching(a[curr := a[curr] + 1], curr)
  {
  }

  /** Moving on after a digit is accepted keeps the digits searching. */
  lemma SearchingAdvance(a: seq<int>, curr: int)
    requires Searching(a, curr) && a[curr] < 9 && curr < |a| - 1
    ensures Searching(a[curr := a[curr] + 1], curr + 1)
  {
  }

  /** Clearing the cell and stepping back keeps the digits searching. */
  lemma SearchingBack(a: seq<int>, curr: int)
    requires Searching(a, curr) && 0 < curr
    ensures Searching(a[curr := 0], curr - 1)
  {
  }

  /** Put together the parts of SearchState. */
  lemma Assemble(cs: seq<Cell>, idxs: seq<int>, found: set<seq<int>>, a: seq<int>, curr: int)
    requires |cs| == 81 && InGrid(idxs) && |a| == |idxs| && Searching(a, curr)
    requires Prefix(cs, idxs, a, curr) && FoundAll(cs, idxs, found, Cursor(a, curr))
    ensures SearchState(cs, idxs, found, a, curr)
  {
  }

  /** A rejected digit passes over no completion. */
  lemma RejectFound(cs: seq<Cell>, idxs: seq<int>, found: set<seq<int>>, a: seq<int>, curr: int)
    requires |cs| == 81 && InGrid(idxs) && SearchState(cs, idxs, found, a, curr) && a[curr] < 9
    requires !PlacedOk(cs, idxs, a[curr := a[curr] + 1], curr)
    ensures FoundAll(cs, idxs, found, Cursor(a[curr := a[curr] + 1], curr))
  {
    var a2 := a[curr := a[curr] + 1];
    var d, d2 := Cursor(a, curr), Cursor(a2, curr);
    StayRise(a, curr);
    forall b | Completion(cs, idxs, b) && LexLe(b, d2)
      ensures LexLe(b, d)
    {
      if !LexLe(b, d) {
        CompletionDigits(cs, idxs, b);
        StayShape(b, a, curr);
        CompletionPrefix(cs, idxs, b, a2, curr);
      }
    }
    FoundStay(cs, idxs, found, d, d2);
  }

  /** A digit the validity test rejects: no completion is passed over, and the cursor rises. */
  lemma Reject(cs: seq<Cell>, idxs: seq<int>, found: set<seq<int>>, a: seq<int>, curr: int)
    requires |cs| == 81 && InGrid(idxs) && SearchState(cs, idxs, found, a, curr) && a[curr] < 9
    requires !PlacedOk(cs, idxs, a[curr := a[curr] + 1], curr)
    ensures SearchState(cs, idxs, found, a[curr := a[curr] + 1], curr)
    ensures 0 <= Rank(a[curr := a[curr] + 1], curr) < Rank(a, curr)
  {
    StayRise(a, curr);
    RejectFound(cs, idxs, found, a, curr);
    PrefixUpdate(cs, idxs, a, curr, curr, a[curr] + 1);
    SearchingStay(a, curr);
    Assemble(cs, idxs, found, a[curr := a[curr] + 1], curr);
  }

  /** A digit accepted in the last empty cell completes a new completion, and
      it is the only one passed over. */
  lemma CountFound(cs: seq<Cell>, idxs: seq<int>, found: set<seq<int>>, a: seq<int>, curr: int)
    requires |cs| == 81 && InGrid(idxs) && SearchState(cs, idxs, found, a, curr) && a[curr] < 9
    requires curr == |a| - 1 && PlacedOk(cs, idxs, a[curr := a[curr] + 1], curr)
    ensures Completion(cs, idxs, a[curr := a[curr] + 1]) && a[curr := a[curr] + 1] !in found
    ensures FoundAll(cs, idxs, found + {a[curr := a[curr] + 1]}, Cursor(a[curr := a[curr] + 1], curr))
  {
    var a2 := a[curr := a[curr] + 1];
    var d, d2 := Cursor(a, curr), Cursor(a2, curr);
    StayRise(a, curr);
    PrefixUpdate(cs, idxs, a, curr, curr, a[curr] + 1);
    assert Completion(cs, idxs, a2);
    assert d2 == a2 by {
      assert Tens(0) == [];
      assert a2 == a2[..curr] + [a2[curr]];
    }
    LexRefl(a2);
    forall b | Completion(cs, idxs, b) && LexLe(b, d2) && !LexLe(b, d)
      ensures b in {a2}
    {
      CompletionDigits(cs, idxs, b);
      StayShape(b, a, curr);
      assert |b| == |a2| && forall m :: 0 <= m < |b| ==> b[m] == a2[m];
      assert b == a2;
    }
    FoundMove(cs, idxs, found, {a2}, d, d2);
    if a2 in found {
      CursorAt(a, curr);
      CursorAt(a2, curr);
      LexBumpAt(d, d2, curr);
    }
  }

  /** A digit the validity test accepts in the last empty cell: the digits are a new
      completion, and with it counted nothing is passed over. */
  lemma Count(cs: seq<Cell>, idxs: seq<int>, found: set<seq<int>>, a: seq<int>, curr: int)
    requires |cs| == 81 && InGrid(idxs) && SearchState(cs, idxs, found, a, curr) && a[curr] < 9
    requires curr == |a| - 1 && PlacedOk(cs, idxs, a[curr := a[curr] + 1], curr)
    ensures Completion(cs, idxs, a[curr := a[curr] + 1]) && a[curr := a[curr] + 1] !in found
    ensures SearchState(cs, idxs, found + {a[curr := a[curr] + 1]}, a[curr := a[curr] + 1], curr)
    ensures 0 <= Rank(a[curr := a[curr] + 1], curr) < Rank(a, curr)
  {
    StayRise(a, curr);
    CountFound(cs, idxs, found, a, curr);
    PrefixUpdate(cs, idxs, a, curr, curr, a[curr] + 1);
    SearchingStay(a, curr);
    Assemble(cs, idxs, found + {a[curr := a[curr] + 1]}, a[curr := a[curr] + 1], curr);
  }

  /** A digit the validity test accepts before the last empty cell: the cursor moves on,
      nothing is passed over, and it rises. */
  lemma Advance(cs: seq<Cell>, idxs: seq<int>, found: set<seq<int>>, a: seq<int>, curr: int)
    requires |cs| == 81 && InGrid(idxs) && SearchState(cs, idxs, found, a, curr) && a[curr] < 9
    requires curr < |a| - 1 && PlacedOk(cs, idxs, a[curr := a[curr] + 1], curr)
    ensures SearchState(cs, idxs, found, a[curr := a[curr] + 1], curr + 1)
    ensures 0 <= Rank(a[curr := a[curr] + 1], curr + 1) < Rank(a, curr)
  {
    AdvanceRise(a, curr);
    AdvanceFound(cs, idxs, found, a, curr);
    AdvancePrefix(cs, idxs, found, a, curr);
    SearchingAdvance(a, curr);
    Assemble(cs, idxs, found, a[curr := a[curr] + 1], curr + 1);
  }

  /** Moving on passes over no completion. */
  lemma AdvanceFound(cs: seq<Cell>, idxs: seq<int>, found: set<seq<int>>, a: seq<int>, curr: int)
    requires |cs| == 81 && InGrid(idxs) && SearchState(cs, idxs, found, a, curr) && a[curr] < 9
    requires curr < |a| - 1
    ensures FoundAll(cs, idxs, found, Cursor(a[curr := a[curr] + 1], curr + 1))
  {
    var a2 := a[curr := a[curr] + 1];
    var d, d2 := Cursor(a, curr), Cursor(a2, curr + 1);
    AdvanceRise(a, curr);
    forall b | Completion(cs, idxs, b) && LexLe(b, d2)
      ensures LexLe(b, d)
    {
      CompletionDigits(cs, idxs, b);
      AdvanceShape(b, a, curr);
    }
    FoundStay(cs, idxs, found, d, d2);
  }

  /** Moving on keeps the digits before the cursor placed well. */
  lemma AdvancePrefix(cs: seq<Cell>, idxs: seq<int>, found: set<seq<int>>, a: seq<int>, curr: int)
    requires |cs| == 81 && InGrid(idxs) && SearchState(cs, idxs, found, a, curr) && a[curr] < 9
    requires curr < |a| - 1 && PlacedOk(cs, idxs, a[curr := a[curr] + 1], curr)
    ensures Prefix(cs, idxs, a[curr := a[curr] + 1], curr + 1)
  {
    PrefixUpdate(cs, idxs, a, curr, curr, a[curr] + 1);
  }

  /** Stepping back passes over no completion. */
  lemma BackFound(cs: seq<Cell>, idxs: seq<int>, found: set<seq<int>>, a: seq<int>, curr: int)
    requires |cs| == 81 && InGrid(idxs) && SearchState(cs, idxs, found, a, curr) && a[curr] == 9
    requires 0 < curr
    ensures FoundAll(cs, idxs, found, Cursor(a[curr := 0], curr - 1))
  {
    var a2 := a[curr := 0];
    var d, d2 := Cursor(a, curr), Cursor(a2, curr - 1);
    BackRise(a, curr);
    forall b | Completion(cs, idxs, b) && LexLe(b, d2)
      ensures LexLe(b, d)
    {
      CompletionDigits(cs, idxs, b);
      BackShape(b, a, curr);
    }
    FoundStay(cs, idxs, found, d, d2);
  }

  /** A cell that has run through 9 is cleared and the cursor steps back:
      nothing is passed over, and the cursor rises. */
  lemma Back(cs: seq<Cell>, idxs: seq<int>, found: set<seq<int>>, a: seq<int>, curr: int)
    requires |cs| == 81 && InGrid(idxs) && SearchState(cs, idxs, found, a, curr) && a[curr] == 9
    requires 0 < curr
    ensures SearchState(cs, idxs, found, a[curr := 0], curr - 1)
    ensures 0 <= Rank(a[curr := 0], curr - 1) < Rank(a, curr)
  {
    BackRise(a, curr);
    BackFound(cs, idxs, found, a, curr);
    PrefixUpdate(cs, idxs, a, curr, curr, 0);
    SearchingBack(a, curr);
    Assemble(cs, idxs, found, a[curr := 0], curr - 1);
  }

  /** What the count of found completions says about all completions. */
  lemma Outcome(cs: seq<Cell>, idxs: seq<int>, found: set<seq<int>>, r: int)
    requires |cs| == 81 && InGrid(idxs) && |found| == r && 0 <= r <= 2
    requires forall b :: b in found ==> Completion(cs, idxs, b)
    requires r < 2 ==> forall b :: Completion(cs, idxs, b) ==> b in found
    ensures r == 0 <==> !exists b :: Completion(cs, idxs, b)
    ensures r == 1 ==> exists b :: (Completion(cs, idxs, b) && forall c :: Completion(cs, idxs, c) ==> c == b)
    ensures r == 2 ==> exists b, c :: (b != c && Completion(cs, idxs, b) && Completion(cs, idxs, c))
  {
    if r > 0 {
      var b :| b in found;
      if r == 1 {
        assert found == {b} by {
          assert |found - {b}| == 0;
        }
      } else {
        assert |found - {b}| == 1;
        var c :| c in found - {b};
      }
    }
  }

  /** When the search stops, the count of found completions is the count of
      all completions, capped at two. */
  lemma Finish(cs: seq<Cell>, idxs: seq<int>, found: set<seq<int>>, a: seq<int>, curr: int, r: int)
    requires |cs| == 81 && InGrid(idxs) && SearchState(cs, idxs, found, a, curr)
    requires |found| == r && 0 <= r <= 2 && (r < 2 ==> curr == 0 && a[0] == 9)
    ensures r == 0 <==> !exists b :: Completion(cs, idxs, b)
    ensures r == 1 ==> exists b :: (Completion(cs, idxs, b) && forall c :: Completion(cs, idxs, c) ==> c == b)
    ensures r == 2 ==> exists b, c :: (b != c && Completion(cs, idxs, b) && Completion(cs, idxs, c))
  {
    if r < 2 {
      Exhausted(cs, idxs, found, a);
    }
    Outcome(cs, idxs, found, r);
  }

  // -------------------------------------------------------------- backtrack

  /** The last loop of backtrack: clear every cell the search wrote to. */
  method ClearEmpties(g: Grid, idxs: seq<int>, ghost cs0: seq<Cell>, ghost a: seq<int>)
    requires g.cells.Length == 81 && |cs0| == 81 && idxs == Empties(cs0) && |a| == |idxs|
    requires Shows(g.cells[..], cs0, idxs, a)
    modifies g.cells
    ensures g.cells[..] == cs0
  {
    EmptiesFacts(cs0);
    ghost var z := a;
    for i := 0 to |idxs|
      invariant |z| == |idxs| && Shows(g.cells[..], cs0, idxs, z)
      invariant forall k :: 0 <= k < i ==> z[k] == 0
    {
      var idx := idxs[i];
      ghost var before := g.cells[..];
      g.cells[idx] := g.cells[idx].(value := 0);
      ShowsUpdate(before, cs0, idxs, z, i, 0);
      z := z[i := 0];
    }
    ShowsZero(g.cells[..], cs0, z);
  }

  /** The increment in the loop of backtrack: write the next digit into the
      cursor cell and ask is_placement_valid about it. */
  method TryNext(g: Grid, idxs: seq<int>, curr: int, ghost cs0: seq<Cell>, ghost a: seq<int>)
    returns (ok: bool)
    requires g.cells.Length == 81 && Cells81(cs0) && idxs == Empties(cs0) && |a| == |idxs|
    requires Searching(a, curr) && a[curr] < 9 && Shows(g.cells[..], cs0, idxs, a)
    modifies g.cells
    ensures Shows(g.cells[..], cs0, idxs, a[curr := a[curr] + 1])
    ensures ok == PlacedOk(cs0, idxs, a[curr := a[curr] + 1], curr)
  {
    EmptiesFacts(cs0);
    var idx := idxs[curr];
    var cell := g.cells[idx];
    assert cell == cs0[idx].(value := a[curr]);
    ghost var before := g.cells[..];
    g.cells[idx] := cell.(value := cell.value + 1);
    ShowsUpdate(before, cs0, idxs, a, curr, a[curr] + 1);
    assert CellAt(cs0[idx], idx);
    ok := IsPlacementValid(g, idx, cell.value + 1);
    GridCheck(g.cells[..], cs0, a[curr := a[curr] + 1], curr);
  }

  /** The reset in the loop of backtrack: clear the cursor cell. */
  method ClearAt(g: Grid, idxs: seq<int>, curr: int, ghost cs0: seq<Cell>, ghost a: seq<int>)
    requires g.cells.Length == 81 && |cs0| == 81 && idxs == Empties(cs0) && |a| == |idxs|
    requires 0 <= curr < |a| && Shows(g.cells[..], cs0, idxs, a)
    modifies g.cells
    ensures Shows(g.cells[..], cs0, idxs, a[curr := 0])
  {
    EmptiesFacts(cs0);
    var idx := idxs[curr];
    var cell := g.cells[idx];
    ghost var before := g.cells[..];
    g.cells[idx] := cell.(value := 0);
    ShowsUpdate(before, cs0, idxs, a, curr, 0);
  }

  /** The state the loop of backtrack keeps: the search state, the grid showing
      the digits written, and the count of solutions found so far. */
  ghost predicate Looping(cells: seq<Cell>, cs0: seq<Cell>, idxs: seq<int>, found: set<seq<int>>,
                          a: seq<int>, curr: int, solutions: int)
    requires |cs0| == 81 && InGrid(idxs)
  {
    SearchState(cs0, idxs, found, a, curr) && Shows(cells, cs0, idxs, a)
    && 0 <= solutions <= 2 && |found| == solutions
  }

  /** One pass of the loop of backtrack, unless the search is over: reset and
      step back, or write the next digit and reject it, count it or move on.
      stop says the loop breaks after a second solution. */
  method SearchStep(g: Grid, idxs: seq<int>, curr: int, solutions: int,
                    ghost cs0: seq<Cell>, ghost a: seq<int>, ghost found: set<seq<int>>)
    returns (stop: bool, curr2: int, solutions2: int, ghost a2: seq<int>, ghost found2: set<seq<int>>)
    requires g.cells.Length == 81 && Cells81(cs0) && idxs == Empties(cs0)
    requires Looping(g.cells[..], cs0, idxs, found, a, curr, solutions) && solutions <= 1
    requires a[curr] < 9 || 0 < curr
    modifies g.cells
    ensures Looping(g.cells[..], cs0, idxs, found2, a2, curr2, solutions2)
    ensures stop ==> solutions2 == 2
    ensures !stop ==> solutions2 <= 1 && 0 <= Rank(a2, curr2) < Rank(a, curr)
  {
    var idx := idxs[curr];
    ShowsAt(g.cells[..], cs0, idxs, a, curr);
    var value := g.cells[idx].value;
    if value < 9 {
      stop, curr2, solutions2, a2, found2 := NextDigit(g, idxs, curr, solutions, cs0, a, found);
    } else {
      a2 := StepBack(g, idxs, curr, solutions, cs0, a, found);
      stop, curr2, solutions2, found2 := false, curr - 1, solutions, found;
    }
  }

  /** The pass of the loop of backtrack that resets a cell which has run through
      9 and moves the cursor back. */
  method StepBack(g: Grid, idxs: seq<int>, curr: int, solutions: int,
                  ghost cs0: seq<Cell>, ghost a: seq<int>, ghost found: set<seq<int>>)
    returns (ghost a2: seq<int>)
    requires g.cells.Length == 81 && Cells81(cs0) && idxs == Empties(cs0)
    requires Looping(g.cells[..], cs0, idxs, found, a, curr, solutions)
    requires a[curr] == 9 && 0 < curr
    modifies g.cells
    ensures Looping(g.cells[..], cs0, idxs, found, a2, curr - 1, solutions)
    ensures 0 <= Rank(a2, curr - 1) < Rank(a, curr)
  {
    ClearAt(g, idxs, curr, cs0, a);
    Back(cs0, idxs, found, a, curr);
    a2 := a[curr := 0];
  }

  /** The pass of the loop of backtrack that writes the next digit into the cursor cell. */
  method NextDigit(g: Grid, idxs: seq<int>, curr: int, solutions: int,
                   ghost cs0: seq<Cell>, ghost a: seq<int>, ghost found: set<seq<int>>)
    returns (stop: bool, curr2: int, solutions2: int, ghost a2: seq<int>, ghost found2: set<seq<int>>)
    requires g.cells.Length == 81 && Cells81(cs0) && idxs == Empties(cs0)
    requires Looping(g.cells[..], cs0, idxs, found, a, curr, solutions) && solutions <= 1 && a[curr] < 9
    modifies g.cells
    ensures Looping(g.cells[..], cs0, idxs, found2, a2, curr2, solutions2)
    ensures stop ==> solutions2 == 2
    ensures !stop ==> solutions2 <= 1 && 0 <= Rank(a2, curr2) < Rank(a, curr)
  {
    var ok := TryNext(g, idxs, curr, cs0, a);
    stop, curr2, solutions2, a2, found2 := Decide(idxs, curr, solutions, ok, cs0, a, found);
  }

  /** What the loop of backtrack does once is_placement_valid has answered ok
      for the digit just written at the cursor: try the next digit, count a
      completion (stopping at the second), or move on to the next cell. */
  method Decide(idxs: seq<int>, curr: int, solutions: int, ok: bool,
                ghost cs0: seq<Cell>, ghost a: seq<int>, ghost found: set<seq<int>>)
    returns (stop: bool, curr2: int, solutions2: int, ghost a2: seq<int>, ghost found2: set<seq<int>>)
    requires |cs0| == 81 && InGrid(idxs) && SearchState(cs0, idxs, found, a, curr) && a[curr] < 9
    requires 0 <= solutions <= 1 && |found| == solutions
    requires ok == PlacedOk(cs0, idxs, a[curr := a[curr] + 1], curr)
    ensures a2 == a[curr := a[curr] + 1]
    ensures SearchState(cs0, idxs, found2, a2, curr2)
    ensures 0 <= solutions2 <= 2 && |found2| == solutions2
    ensures stop <==> solutions2 == 2
    ensures solutions2 == solutions + (if ok && curr == |idxs| - 1 then 1 else 0)
    ensures curr2 == if ok && curr < |idxs| - 1 then curr + 1 else curr
    ensures !stop ==> 0 <= Rank(a2, curr2) < Rank(a, curr)
  {
    stop, curr2, solutions2, a2, found2 := false, curr, solutions, a[curr := a[curr] + 1], found;
    if !ok {
      Reject(cs0, idxs, found, a, curr);
    } else if curr == |idxs| - 1 {
      Count(cs0, idxs, found, a, curr);
      found2 := found + {a2};
      solutions2 := solutions + 1;
      stop := solutions2 > 1;
    } else {
      Advance(cs0, idxs, found, a, curr);
      curr2 := curr + 1;
    }
  }

  /** The loop of backtrack: search until the first cell has run through 9 or a
      second completion is found. */
  method SearchLoop(g: Grid, idxs: seq<int>, ghost cs0: seq<Cell>)
    returns (solutions: int, ghost a: seq<int>)
    requires g.cells.Length == 81 && Cells81(cs0) && idxs == Empties(cs0) && |idxs| > 0
    requires g.cells[..] == cs0
    modifies g.cells
    ensures |a| == |idxs| && Shows(g.cells[..], cs0, idxs, a)
    ensures 0 <= solutions <= 2
    ensures solutions == 0 <==> !exists b :: Completion(cs0, idxs, b)
    ensures solutions == 1 ==> exists b :: (Completion(cs0, idxs, b) && forall c :: Completion(cs0, idxs, c) ==> c == b)
    ensures solutions == 2 ==> exists b, c :: (b != c && Completion(cs0, idxs, b) && Completion(cs0, idxs, c))
  {
    solutions := 0;
    var curr := 0;
    a := seq(|idxs|, k => 0);
    ghost var found: set<seq<int>> := {};
    Start(cs0, idxs, a);
    ShowsStart(cs0, a);
    while true
      invariant Looping(g.cells[..], cs0, idxs, found, a, curr, solutions) && solutions <= 1
      decreases Rank(a, curr)
    {
      var idx := idxs[curr];
      ShowsAt(g.cells[..], cs0, idxs, a, curr);
      if g.cells[idx].value == 9 && curr == 0 {
        Finish(cs0, idxs, found, a, curr, solutions);
        return;
      }
      var stop;
      stop, curr, solutions, a, found := SearchStep(g, idxs, curr, solutions, cs0, a, found);
      if stop {
        Finish(cs0, idxs, found, a, curr, solutions);
        return;
      }
    }
  }

  /** backtrack: the number of completions of the puzzle, counted up to two, with
      the grid left as it was. */
  method Run(g: Grid) returns (solutions: int)
    requires g.Valid()
    requires exists i :: 0 <= i < 81 && IsEmpty(g.cells[i])
    modifies g.cells
    ensures g.cells[..] == old(g.cells[..])
    ensures 0 <= solutions <= 2
    ensures solutions == 0 <==> !exists b :: Completion(old(g.cells[..]), Empties(old(g.cells[..])), b)
    ensures solutions == 1 ==> exists b :: (Completion(old(g.cells[..]), Empties(old(g.cells[..])), b)
      && forall c :: Completion(old(g.cells[..]), Empties(old(g.cells[..])), c) ==> c == b)
    ensures solutions == 2 ==> exists b, c :: (b != c
      && Completion(old(g.cells[..]), Empties(old(g.cells[..])), b)
      && Completion(old(g.cells[..]), Empties(old(g.cells[..])), c))
  {
    ghost var cs0 := g.cells[..];
    var idxs := CollectEmpty(g);
    EmptiesFacts(cs0);
    ghost var i0 :| 0 <= i0 < 81 && IsEmpty(g.cells[i0]);
    assert i0 in idxs;
    ghost var a;
    solutions, a := SearchLoop(g, idxs, cs0);
    ClearEmpties(g, idxs, cs0, a);
  }
}
