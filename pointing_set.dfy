// The pointing-set technique (src/techniques/pointing_set.c): a value that a
// unit is missing and that is a candidate in only two or three of its cells;
// those cells then lie together in a second unit, and the value can go from
// the cells they all see.  Rows, then columns, then boxes as trigger units;
// ascending unit index; ascending missing value.

module PointingSets {
  import opened CandSets
  import opened Cells
  import opened Grids
  import opened Search
  import opened CellLists
  import opened Steps
  import opened CellEdits

  // ------------------------------------------------------------- geometry

  /**
   * Two cells of one row (or column) and a cell outside that line that sees
   * both: all three share a box.
   */
  lemma LineBox(t: UnitType, a: int, b: int, j: int)
    requires t != Box && 0 <= a < 81 && 0 <= b < 81 && 0 <= j < 81 && a != b
    requires UnitOf(t, a) == UnitOf(t, b) && UnitOf(t, j) != UnitOf(t, a)
    requires Peers(a, j) && Peers(b, j)
    ensures BoxOf(a) == BoxOf(j) && BoxOf(b) == BoxOf(j)
  {
    var ra, ca, rb, cb, rj, cj := RowOf(a), ColOf(a), RowOf(b), ColOf(b), RowOf(j), ColOf(j);
    assert a == ra * 9 + ca && b == rb * 9 + cb && j == rj * 9 + cj;
    SameBox(ra, ca, rj, cj);
    SameBox(rb, cb, rj, cj);
    SameBox(ra, ca, rb, cb);
  }

  /**
   * Two cells of one box and a cell outside the box that sees both: if the
   * two share a row, the outside cell is in that row; otherwise all three
   * share a column.
   */
  lemma BoxLine(a: int, b: int, j: int)
    requires 0 <= a < 81 && 0 <= b < 81 && 0 <= j < 81 && a != b
    requires BoxOf(a) == BoxOf(b) && BoxOf(j) != BoxOf(a)
    requires Peers(a, j) && Peers(b, j)
    ensures RowOf(a) == RowOf(b) ==> RowOf(j) == RowOf(a)
    ensures RowOf(a) != RowOf(b) ==> ColOf(a) == ColOf(j) && ColOf(b) == ColOf(j)
  {
    var ra, ca, rb, cb, rj, cj := RowOf(a), ColOf(a), RowOf(b), ColOf(b), RowOf(j), ColOf(j);
    assert a == ra * 9 + ca && b == rb * 9 + cb && j == rj * 9 + cj;
    SameBox(ra, ca, rj, cj);
    SameBox(rb, cb, rj, cj);
    SameBox(ra, ca, rb, cb);
  }

  /**
   * A box cell that sees a cell outside the box lying in the row (column) of
   * another box cell is in that row (column) too.
   */
  lemma BoxThird(t: UnitType, a: int, c: int, j: int)
    requires t != Box && 0 <= a < 81 && 0 <= c < 81 && 0 <= j < 81
    requires BoxOf(c) == BoxOf(a) && BoxOf(j) != BoxOf(a) && UnitOf(t, j) == UnitOf(t, a)
    requires Peers(c, j)
    ensures UnitOf(t, c) == UnitOf(t, a)
  {
    var ra, ca, rc, cc, rj, cj := RowOf(a), ColOf(a), RowOf(c), ColOf(c), RowOf(j), ColOf(j);
    assert a == ra * 9 + ca && c == rc * 9 + cc && j == rj * 9 + cj;
    SameBox(ra, ca, rj, cj);
    SameBox(rc, cc, rj, cj);
    SameBox(ra, ca, rc, cc);
  }

  // ------------------------------------------------------------ the search

  /**
   * find_removal_unit: for a row or column trigger, the box of the first
   * trigger cell; for a box trigger, the row of the first cell when the
   * first two share it, and its column otherwise.
   */
  function RemovalUnit(cs: seq<Cell>, cells: seq<int>, trigger: UnitType): (UnitType, int)
    requires |cs| == 81 && |cells| >= 2 && InGrid(cells)
  {
    if trigger != Box then (Box, cs[cells[0]].box)
    else if cs[cells[0]].row == cs[cells[1]].row then (Row, cs[cells[0]].row)
    else (Col, cs[cells[0]].col)
  }

  /** The cells of unit u holding v; the removals are their common peers holding v. */
  function ValueAt(cs: seq<Cell>, t: UnitType, u: int, v: int): Option<Step>
    requires |cs| == 81 && 0 <= u < 9 && 1 <= v <= 9
  {
    UnitIdxsFacts(t, u);
    CellsWithCandFacts(cs, UnitIdxs(t, u), v);
    var possible := CellsWithCand(cs, UnitIdxs(t, u), v);
    if |possible| != 2 && |possible| != 3 then None
    else
      CommonPeersFacts(possible);
      var removals := CellsWithCand(cs, CommonPeers(possible), v);
      if |removals| == 0 then None
      else
        var (rt, ri) := RemovalUnit(cs, possible, t);
        Some(Step(TechPointingSet, PointingSetStep(|possible|, v, possible, removals, t, u, rt, ri)))
  }

  function ValueProbe(cs: seq<Cell>, t: UnitType, u: int, missing: seq<int>): int -> Option<Step>
    requires |cs| == 81 && 0 <= u < 9 && forall k :: 0 <= k < |missing| ==> 1 <= missing[k] <= 9
  {
    k => if 0 <= k < |missing| then ValueAt(cs, t, u, missing[k]) else None
  }

  /** The first missing value of unit u that points. */
  function UnitAt(cs: seq<Cell>, t: UnitType, u: int): Option<Step>
    requires Cells81(cs) && 0 <= u < 9
  {
    var missing := UnitMissing(cs, t, u);
    FirstSome(ValueProbe(cs, t, u, missing), 0, |missing|)
  }

  function UnitProbe(cs: seq<Cell>, t: UnitType): int -> Option<Step>
    requires Cells81(cs)
  {
    u => if 0 <= u < 9 then UnitAt(cs, t, u) else None
  }

  /** pointing_set_unit: the first trigger unit of type t, by index, with a pointing set. */
  function UnitsOf(cs: seq<Cell>, t: UnitType): Option<Step>
    requires Cells81(cs)
  {
    FirstSome(UnitProbe(cs, t), 0, 9)
  }

  /** pointing_set: rows, then columns, then boxes as trigger units. */
  function PointingSetOf(cs: seq<Cell>): Option<Step>
    requires Cells81(cs)
  {
    OrElse(UnitsOf(cs, Row), OrElse(UnitsOf(cs, Col), UnitsOf(cs, Box)))
  }

  // ------------------------------------------------------------- scanner

  /** The test pointing_set_unit makes of one missing value. */
  method ValueCheck(cs: seq<Cell>, t: UnitType, u: int, value: int) returns (r: Option<Step>)
    requires |cs| == 81 && 0 <= u < 9 && 1 <= value <= 9
    ensures r == ValueAt(cs, t, u, value)
  {
    UnitIdxsFacts(t, u);
    CellsWithCandFacts(cs, UnitIdxs(t, u), value);
    var possible := CellsWithCand(cs, UnitIdxs(t, u), value);
    if |possible| != 2 && |possible| != 3 {
      return None;
    }
    CommonPeersFacts(possible);
    var common := CommonPeers(possible);
    var removals := CellsWithCand(cs, common, value);
    if |removals| == 0 {
      return None;
    }
    var (rt, ri) := RemovalUnit(cs, possible, t);
    r := Some(Step(TechPointingSet, PointingSetStep(|possible|, value, possible, removals, t, u, rt, ri)));
  }

  /** pointing_set_unit: nested loops over the units and their missing values. */
  method PointingSetUnit(g: Grid, t: UnitType) returns (r: Option<Step>)
    requires g.Valid()
    ensures r == UnitsOf(g.cells[..], t)
  {
    var cs := g.cells[..];
    var u := 0;
    while u < 9
      invariant 0 <= u <= 9
      invariant FirstSome(UnitProbe(cs, t), u, 9) == UnitsOf(cs, t)
    {
      var missing := UnitMissing(cs, t, u);
      assert UnitProbe(cs, t)(u) == UnitAt(cs, t, u);
      var vi := 0;
      while vi < |missing|
        invariant 0 <= vi <= |missing|
        invariant FirstSome(ValueProbe(cs, t, u, missing), vi, |missing|) == UnitAt(cs, t, u)
      {
        assert ValueProbe(cs, t, u, missing)(vi) == ValueAt(cs, t, u, missing[vi]);
        r := ValueCheck(cs, t, u, missing[vi]);
        if r.Some? {
          return;
        }
        vi := vi + 1;
      }
      u := u + 1;
    }
    r := None;
  }

  /** pointing_set: tries the rows, then the columns, then the boxes. */
  method PointingSet(g: Grid) returns (r: Option<Step>)
    requires g.Valid()
    ensures r == PointingSetOf(g.cells[..])
  {
    r := PointingSetUnit(g, Row);
    if r.Some? {
      return;
    }
    r := PointingSetUnit(g, Col);
    if r.Some? {
      return;
    }
    r := PointingSetUnit(g, Box);
  }

  // ------------------------------------------------------------ properties

  /** Value v points from unit u: missing there, a candidate of two or three unit cells, and held by a cell they all see. */
  predicate Pointing(cs: seq<Cell>, t: UnitType, u: int, v: int)
    requires Cells81(cs) && 0 <= u < 9
  {
    UnitDigits(cs, t, u);
    1 <= v <= 9 && !Holds(UnitCells(cs, t, u), v) &&
    (UnitIdxsFacts(t, u);
     CellsWithCandFacts(cs, UnitIdxs(t, u), v);
     var possible := CellsWithCand(cs, UnitIdxs(t, u), v);
     (|possible| == 2 || |possible| == 3) &&
     (CommonPeersFacts(possible);
      |CellsWithCand(cs, CommonPeers(possible), v)| > 0))
  }

  /** Unit u of type t has no pointing value. */
  predicate UnitClear(cs: seq<Cell>, t: UnitType, u: int)
    requires Cells81(cs) && 0 <= u < 9
  {
    forall v :: 1 <= v <= 9 ==> !Pointing(cs, t, u, v)
  }

  /** No unit of type t has a pointing value. */
  predicate NoPointing(cs: seq<Cell>, t: UnitType)
    requires Cells81(cs)
  {
    forall u :: 0 <= u < 9 ==> UnitClear(cs, t, u)
  }

  /** v points from unit u and no smaller value does. */
  predicate FirstPointing(cs: seq<Cell>, t: UnitType, u: int, v: int)
    requires Cells81(cs) && 0 <= u < 9
  {
    Pointing(cs, t, u, v) && forall w :: 1 <= w < v ==> !Pointing(cs, t, u, w)
  }

  /** The trigger cells: two or three ascending cells, exactly the cells of unit u holding v. */
  predicate TriggerCells(cs: seq<Cell>, t: UnitType, u: int, v: int, idxs: seq<int>)
    requires |cs| == 81 && 1 <= v <= 9
  {
    (|idxs| == 2 || |idxs| == 3) && InGrid(idxs) && Ascending(idxs) &&
    (forall k :: 0 <= k < |idxs| ==> UnitOf(t, idxs[k]) == u && HasCand(cs[idxs[k]], v)) &&
    forall j :: 0 <= j < 81 && UnitOf(t, j) == u && HasCand(cs[j], v) ==> j in idxs
  }

  /** The removals: ascending, not empty, exactly the cells that see every trigger cell and hold v. */
  ghost predicate RemovalsAre(cs: seq<Cell>, idxs: seq<int>, v: int, rem: seq<int>)
    requires |cs| == 81 && 1 <= v <= 9
  {
    |rem| > 0 && InGrid(rem) && Ascending(rem) &&
    forall j :: j in rem <==> PeerOfAll(idxs, j) && HasCand(cs[j], v)
  }

  /** The facts a pointing-set step triggered by unit u records. */
  ghost predicate Records(cs: seq<Cell>, t: UnitType, u: int, s: Step)
    requires Cells81(cs) && 0 <= u < 9
  {
    s.tech == TechPointingSet && s.data.PointingSetStep? &&
    s.data.triggerUnitType == t && s.data.triggerUnitIdx == u &&
    1 <= s.data.value <= 9 && FirstPointing(cs, t, u, s.data.value) &&
    TriggerCells(cs, t, u, s.data.value, s.data.idxs) && s.data.size == |s.data.idxs| &&
    RemovalsAre(cs, s.data.idxs, s.data.value, s.data.removalIdxs) &&
    (s.data.removalUnitType, s.data.removalUnitIdx) == RemovalUnit(cs, s.data.idxs, t)
  }

  /** The probe for the k-th missing value succeeds exactly when that value points. */
  lemma ValueProbePointing(cs: seq<Cell>, t: UnitType, u: int, k: int)
    requires Cells81(cs) && 0 <= u < 9 && 0 <= k < |UnitMissing(cs, t, u)|
    ensures ValueProbe(cs, t, u, UnitMissing(cs, t, u))(k).Some? <==> Pointing(cs, t, u, UnitMissing(cs, t, u)[k])
  {
    var missing := UnitMissing(cs, t, u);
    UnitDigits(cs, t, u);
    assert missing[k] in missing;
  }

  /** A pointing value of unit u makes the unit's search succeed. */
  lemma PointingFound(cs: seq<Cell>, t: UnitType, u: int, v: int)
    requires Cells81(cs) && 0 <= u < 9 && Pointing(cs, t, u, v)
    ensures UnitAt(cs, t, u).Some?
  {
    var missing := UnitMissing(cs, t, u);
    var f := ValueProbe(cs, t, u, missing);
    UnitDigits(cs, t, u);
    assert v in missing;
    var k :| 0 <= k < |missing| && missing[k] == v;
    ValueProbePointing(cs, t, u, k);
    FirstSomeNone(f, 0, |missing|);
  }

  /** A successful search of unit u has found a pointing value. */
  lemma FoundPointing(cs: seq<Cell>, t: UnitType, u: int) returns (v: int)
    requires Cells81(cs) && 0 <= u < 9 && UnitAt(cs, t, u).Some?
    ensures Pointing(cs, t, u, v)
  {
    var missing := UnitMissing(cs, t, u);
    var f := ValueProbe(cs, t, u, missing);
    var k := FirstSomeSome(f, 0, |missing|);
    ValueProbePointing(cs, t, u, k);
    v := missing[k];
  }

  /** A unit yields nothing exactly when none of its values points. */
  lemma UnitAtNone(cs: seq<Cell>, t: UnitType, u: int)
    requires Cells81(cs) && 0 <= u < 9
    ensures UnitAt(cs, t, u).None? <==> UnitClear(cs, t, u)
  {
    if UnitAt(cs, t, u).Some? {
      var v := FoundPointing(cs, t, u);
    } else {
      forall v | 1 <= v <= 9
        ensures !Pointing(cs, t, u, v)
      {
        if Pointing(cs, t, u, v) {
          PointingFound(cs, t, u, v);
        }
      }
    }
  }

  /** The search of unit u stops at its smallest pointing value. */
  lemma UnitAtFirst(cs: seq<Cell>, t: UnitType, u: int, k: int)
    requires Cells81(cs) && 0 <= u < 9 && 0 <= k < |UnitMissing(cs, t, u)|
    requires ValueProbe(cs, t, u, UnitMissing(cs, t, u))(k).Some?
    requires forall m :: 0 <= m < k ==> ValueProbe(cs, t, u, UnitMissing(cs, t, u))(m).None?
    ensures FirstPointing(cs, t, u, UnitMissing(cs, t, u)[k])
  {
    var missing := UnitMissing(cs, t, u);
    UnitDigits(cs, t, u);
    var v := missing[k];
    ValueProbePointing(cs, t, u, k);
    forall w | 1 <= w < v
      ensures !Pointing(cs, t, u, w)
    {
      if Pointing(cs, t, u, w) {
        assert w in missing;
        var m :| 0 <= m < |missing| && missing[m] == w;
        assert m < k;
        ValueProbePointing(cs, t, u, m);
      }
    }
  }

  /** The cells of unit u holding v are its trigger cells when there are two or three. */
  lemma TriggerFacts(cs: seq<Cell>, t: UnitType, u: int, v: int)
    requires |cs| == 81 && 0 <= u < 9 && 1 <= v <= 9
    requires var n := |CellsWithCand(cs, UnitIdxs(t, u), v)|; n == 2 || n == 3
    ensures TriggerCells(cs, t, u, v, CellsWithCand(cs, UnitIdxs(t, u), v))
  {
    UnitIdxsFacts(t, u);
    FilterAscendingUnit(t, u);
    CellsWithCandFacts(cs, UnitIdxs(t, u), v);
    var possible := CellsWithCand(cs, UnitIdxs(t, u), v);
    forall k | 0 <= k < |possible|
      ensures UnitOf(t, possible[k]) == u
    {
      assert possible[k] in possible;
      var p :| 0 <= p < 9 && UnitIdxs(t, u)[p] == possible[k];
    }
  }

  /** The step of a pointing value records its trigger cells, removals and removal unit. */
  lemma ValueAtFound(cs: seq<Cell>, t: UnitType, u: int, v: int)
    requires Cells81(cs) && 0 <= u < 9 && 1 <= v <= 9 && ValueAt(cs, t, u, v).Some?
    ensures var d := ValueAt(cs, t, u, v).value.data;
      d.PointingSetStep? && d.value == v && d.triggerUnitType == t && d.triggerUnitIdx == u &&
      TriggerCells(cs, t, u, v, d.idxs) && d.size == |d.idxs| &&
      RemovalsAre(cs, d.idxs, v, d.removalIdxs) &&
      (d.removalUnitType, d.removalUnitIdx) == RemovalUnit(cs, d.idxs, t)
  {
    TriggerFacts(cs, t, u, v);
    var possible := CellsWithCand(cs, UnitIdxs(t, u), v);
    CommonPeersFacts(possible);
    CellsWithCandFacts(cs, CommonPeers(possible), v);
  }

  /** A step from unit u is for its smallest pointing value. */
  lemma UnitAtFound(cs: seq<Cell>, t: UnitType, u: int)
    requires Cells81(cs) && 0 <= u < 9 && UnitAt(cs, t, u).Some?
    ensures Records(cs, t, u, UnitAt(cs, t, u).value)
  {
    var missing := UnitMissing(cs, t, u);
    var f := ValueProbe(cs, t, u, missing);
    var k := FirstSomeSome(f, 0, |missing|);
    UnitAtFirst(cs, t, u, k);
    assert f(k) == ValueAt(cs, t, u, missing[k]);
    ValueAtFound(cs, t, u, missing[k]);
  }

  /** A unit type yields nothing exactly when none of its units has a pointing value. */
  lemma UnitsOfNone(cs: seq<Cell>, t: UnitType)
    requires Cells81(cs)
    ensures UnitsOf(cs, t).None? <==> NoPointing(cs, t)
  {
    var f := UnitProbe(cs, t);
    FirstSomeNone(f, 0, 9);
    forall u | 0 <= u < 9
      ensures f(u).None? <==> UnitClear(cs, t, u)
    {
      UnitAtNone(cs, t, u);
    }
  }

  /** A step from unit type t comes from its first unit having a pointing value. */
  lemma UnitsOfFound(cs: seq<Cell>, t: UnitType)
    requires Cells81(cs) && UnitsOf(cs, t).Some?
    ensures var s := UnitsOf(cs, t).value;
      s.data.PointingSetStep? && 0 <= s.data.triggerUnitIdx < 9 && Records(cs, t, s.data.triggerUnitIdx, s) &&
      forall u :: 0 <= u < s.data.triggerUnitIdx ==> UnitClear(cs, t, u)
  {
    var f := UnitProbe(cs, t);
    var u := FirstSomeSome(f, 0, 9);
    assert f(u) == UnitAt(cs, t, u);
    UnitAtFound(cs, t, u);
    forall u' | 0 <= u' < u
      ensures UnitClear(cs, t, u')
    {
      assert f(u') == UnitAt(cs, t, u');
      UnitAtNone(cs, t, u');
    }
  }

  /** pointing_set finds nothing exactly when no unit of any type has a pointing value. */
  lemma PointingSetNone(cs: seq<Cell>)
    requires Cells81(cs)
    ensures PointingSetOf(cs).None? <==> NoPointing(cs, Row) && NoPointing(cs, Col) && NoPointing(cs, Box)
  {
    UnitsOfNone(cs, Row);
    UnitsOfNone(cs, Col);
    UnitsOfNone(cs, Box);
  }

  /** No removal lies in the trigger unit, and each sees every trigger cell. */
  lemma RemovalsOutside(cs: seq<Cell>, t: UnitType, u: int, v: int, idxs: seq<int>, rem: seq<int>)
    requires |cs| == 81 && 0 <= u < 9 && 1 <= v <= 9
    requires TriggerCells(cs, t, u, v, idxs) && RemovalsAre(cs, idxs, v, rem)
    ensures forall k :: 0 <= k < |rem| ==> UnitOf(t, rem[k]) != u && PeerOfAll(idxs, rem[k])
  {
    forall k | 0 <= k < |rem|
      ensures UnitOf(t, rem[k]) != u && PeerOfAll(idxs, rem[k])
    {
      assert rem[k] in rem;
    }
  }

  /** For a row or column trigger, the trigger cells and the removals share the first cell's box. */
  lemma LinePattern(t: UnitType, idxs: seq<int>, rem: seq<int>)
    requires t != Box && (|idxs| == 2 || |idxs| == 3) && InGrid(idxs) && Ascending(idxs) && |rem| > 0 && InGrid(rem)
    requires forall k :: 0 <= k < |idxs| ==> UnitOf(t, idxs[k]) == UnitOf(t, idxs[0])
    requires forall k :: 0 <= k < |rem| ==> UnitOf(t, rem[k]) != UnitOf(t, idxs[0]) && PeerOfAll(idxs, rem[k])
    ensures forall k :: 0 <= k < |idxs| ==> BoxOf(idxs[k]) == BoxOf(idxs[0])
    ensures forall k :: 0 <= k < |rem| ==> BoxOf(rem[k]) == BoxOf(idxs[0])
  {
    var a, b, j := idxs[0], idxs[1], rem[0];
    forall k | 1 <= k < |idxs|
      ensures BoxOf(idxs[k]) == BoxOf(a)
    {
      LineBox(t, a, idxs[k], j);
    }
    forall k | 0 <= k < |rem|
      ensures BoxOf(rem[k]) == BoxOf(a)
    {
      LineBox(t, a, b, rem[k]);
    }
  }

  /**
   * For a box trigger, the trigger cells and the removals share the line
   * (row or column, chosen as find_removal_unit chooses it) of the first cell.
   */
  lemma BoxPattern(rt: UnitType, idxs: seq<int>, rem: seq<int>)
    requires (|idxs| == 2 || |idxs| == 3) && InGrid(idxs) && Ascending(idxs) && |rem| > 0 && InGrid(rem)
    requires rt == if RowOf(idxs[0]) == RowOf(idxs[1]) then Row else Col
    requires forall k :: 0 <= k < |idxs| ==> BoxOf(idxs[k]) == BoxOf(idxs[0])
    requires forall k :: 0 <= k < |rem| ==> BoxOf(rem[k]) != BoxOf(idxs[0]) && PeerOfAll(idxs, rem[k])
    ensures forall k :: 0 <= k < |idxs| ==> UnitOf(rt, idxs[k]) == UnitOf(rt, idxs[0])
    ensures forall k :: 0 <= k < |rem| ==> UnitOf(rt, rem[k]) == UnitOf(rt, idxs[0])
  {
    var a, b, j := idxs[0], idxs[1], rem[0];
    forall k | 0 <= k < |rem|
      ensures UnitOf(rt, rem[k]) == UnitOf(rt, a)
    {
      BoxLine(a, b, rem[k]);
    }
    BoxLine(a, b, j);
    forall k | 2 <= k < |idxs|
      ensures UnitOf(rt, idxs[k]) == UnitOf(rt, a)
    {
      BoxThird(rt, a, idxs[k], j);
    }
  }

  /**
   * The pointing pattern: the removal unit is another unit type, it holds
   * every trigger cell and every removal, and no removal is in the trigger
   * unit.
   */
  lemma PointingUnit(cs: seq<Cell>, t: UnitType, u: int, s: Step)
    requires Cells81(cs) && 0 <= u < 9 && Records(cs, t, u, s)
    ensures var d := s.data;
      d.removalUnitType != t &&
      (forall k :: 0 <= k < |d.idxs| ==> UnitOf(d.removalUnitType, d.idxs[k]) == d.removalUnitIdx) &&
      (forall k :: 0 <= k < |d.removalIdxs| ==>
        UnitOf(d.removalUnitType, d.removalIdxs[k]) == d.removalUnitIdx && UnitOf(t, d.removalIdxs[k]) != u)
  {
    var d := s.data;
    RemovalsOutside(cs, t, u, d.value, d.idxs, d.removalIdxs);
    assert CellAt(cs[d.idxs[0]], d.idxs[0]) && CellAt(cs[d.idxs[1]], d.idxs[1]);
    if t != Box {
      LinePattern(t, d.idxs, d.removalIdxs);
    } else {
      BoxPattern(d.removalUnitType, d.idxs, d.removalIdxs);
    }
  }

  /** A found step is the first pointing value in rows, then columns, then boxes, with its pattern. */
  lemma PointingSetFound(cs: seq<Cell>)
    requires Cells81(cs) && PointingSetOf(cs).Some?
    ensures var s := PointingSetOf(cs).value;
      var d := s.data;
      d.PointingSetStep? && 0 <= d.triggerUnitIdx < 9 &&
      Records(cs, d.triggerUnitType, d.triggerUnitIdx, s) &&
      (d.triggerUnitType != Row ==> NoPointing(cs, Row)) &&
      (d.triggerUnitType == Box ==> NoPointing(cs, Col)) &&
      d.removalUnitType != d.triggerUnitType &&
      (forall k :: 0 <= k < |d.idxs| ==> UnitOf(d.removalUnitType, d.idxs[k]) == d.removalUnitIdx) &&
      (forall k :: 0 <= k < |d.removalIdxs| ==>
        UnitOf(d.removalUnitType, d.removalIdxs[k]) == d.removalUnitIdx &&
        UnitOf(d.triggerUnitType, d.removalIdxs[k]) != d.triggerUnitIdx)
  {
    var s := PointingSetOf(cs).value;
    UnitsOfNone(cs, Row);
    UnitsOfNone(cs, Col);
    if UnitsOf(cs, Row).Some? {
      UnitsOfFound(cs, Row);
    } else if UnitsOf(cs, Col).Some? {
      UnitsOfFound(cs, Col);
    } else {
      UnitsOfFound(cs, Box);
    }
    PointingUnit(cs, s.data.triggerUnitType, s.data.triggerUnitIdx, s);
  }

  // ---------------------------------------------------------- apply, revert

  /** A pointing-set step whose fields are in range. */
  predicate WellFormed(s: Step)
  {
    s.data.PointingSetStep? && 1 <= s.data.value <= 9 && InGrid(s.data.removalIdxs)
  }

  /** pointing_set_apply: the value leaves every removal cell. */
  method PointingSetApply(g: Grid, s: Step)
    requires g.Valid() && WellFormed(s)
    modifies g.cells
    ensures g.Valid()
    ensures g.cells[..] == RemoveCandAll(old(g.cells[..]), s.data.removalIdxs, s.data.value, |s.data.removalIdxs|)
  {
    RemoveCandFrom(g, s.data.removalIdxs, s.data.value);
  }

  /** pointing_set_revert: the value goes back to every removal cell. */
  method PointingSetRevert(g: Grid, s: Step)
    requires g.Valid() && WellFormed(s)
    modifies g.cells
    ensures g.Valid()
    ensures g.cells[..] == AddCandAll(old(g.cells[..]), s.data.removalIdxs, s.data.value, |s.data.removalIdxs|)
  {
    AddCandTo(g, s.data.removalIdxs, s.data.value);
  }

  /** Reverting a pointing set after applying it gives back the grid it was scanned from. */
  lemma PointingSetRoundTrip(cs: seq<Cell>)
    requires Cells81(cs) && PointingSetOf(cs).Some?
    ensures WellFormed(PointingSetOf(cs).value)
    ensures var d := PointingSetOf(cs).value.data;
      AddCandAll(RemoveCandAll(cs, d.removalIdxs, d.value, |d.removalIdxs|), d.removalIdxs, d.value, |d.removalIdxs|) == cs
  {
    PointingSetFound(cs);
    var d := PointingSetOf(cs).value.data;
    forall k | 0 <= k < |d.removalIdxs|
      ensures HasCand(cs[d.removalIdxs[k]], d.value)
    {
      assert d.removalIdxs[k] in d.removalIdxs;
    }
    RemoveCandRevert(cs, d.removalIdxs, d.value);
  }
}
