// The hidden-single technique (src/techniques/hidden_single.c): a value that
// a unit is missing and for which exactly one cell of the unit still has it
// as a candidate.  Rows are tried first, then columns, then boxes; within a
// unit type, ascending unit index, then ascending missing value.

module HiddenSingles {
  import opened CandSets
  import opened Cells
  import opened Grids
  import opened Search
  import opened CellLists
  import opened Steps
  import opened Unfills

  /** Value v is a hidden single of unit u: missing there, and a candidate of exactly one unit cell. */
  predicate Hidden(cs: seq<Cell>, t: UnitType, u: int, v: int)
    requires Cells81(cs) && 0 <= u < 9
  {
    UnitDigits(cs, t, u);
    1 <= v <= 9 && !Holds(UnitCells(cs, t, u), v) && |CellsWithCand(cs, UnitIdxs(t, u), v)| == 1
  }

  /** Unit u of type t has no hidden single. */
  predicate UnitClear(cs: seq<Cell>, t: UnitType, u: int)
    requires Cells81(cs) && 0 <= u < 9
  {
    forall v :: 1 <= v <= 9 ==> !Hidden(cs, t, u, v)
  }

  /** No unit of type t has a hidden single. */
  predicate NoHidden(cs: seq<Cell>, t: UnitType)
    requires Cells81(cs)
  {
    forall u :: 0 <= u < 9 ==> UnitClear(cs, t, u)
  }

  /** What hidden_single_unit records for value v of unit u, if one unit cell has it. */
  function ValueAt(cs: seq<Cell>, t: UnitType, u: int, v: int): Option<Step>
    requires |cs| == 81 && 0 <= u < 9 && 1 <= v <= 9
  {
    UnitIdxsFacts(t, u);
    CellsWithCandFacts(cs, UnitIdxs(t, u), v);
    var possible := CellsWithCand(cs, UnitIdxs(t, u), v);
    if |possible| != 1 then None
    else
      var idx := possible[0];
      Some(Step(TechHiddenSingle, HiddenSingleStep(idx, v, t, u, PeerList(idx))))
  }

  function ValueProbe(cs: seq<Cell>, t: UnitType, u: int, missing: seq<int>): int -> Option<Step>
    requires |cs| == 81 && 0 <= u < 9 && forall k :: 0 <= k < |missing| ==> 1 <= missing[k] <= 9
  {
    k => if 0 <= k < |missing| then ValueAt(cs, t, u, missing[k]) else None
  }

  /** The first missing value of unit u that is a hidden single there. */
  function UnitAt(cs: seq<Cell>, t: UnitType, u: int): Option<Step>
    requires Cells81(cs) && 0 <= u < 9
  {
    var missing := UnitMissing(cs, t, u);
    FirstSome(ValueProbe(cs, t, u, missing), 0, |missing|)
  }

  function UnitProbe(cs: seq<Cell>, t: UnitType): int -> Option<Step>
    requires Cells81(cs)
  {
    u => if 0 <= u < 9 then UnitAt(cs, t, u) else None
  }

  /** hidden_single_unit: the first unit of type t, by index, with a hidden single. */
  function UnitsOf(cs: seq<Cell>, t: UnitType): Option<Step>
    requires Cells81(cs)
  {
    FirstSome(UnitProbe(cs, t), 0, 9)
  }

  /** hidden_single: rows, then columns, then boxes. */
  function HiddenSingleOf(cs: seq<Cell>): Option<Step>
    requires Cells81(cs)
  {
    OrElse(UnitsOf(cs, Row), OrElse(UnitsOf(cs, Col), UnitsOf(cs, Box)))
  }

  // ------------------------------------------------------------- scanner

  /** hidden_single_unit: nested loops over the units and their missing values. */
  method HiddenSingleUnit(g: Grid, t: UnitType) returns (r: Option<Step>)
    requires g.Valid()
    ensures r == UnitsOf(g.cells[..], t)
  {
    var cs := g.cells[..];
    var u := 0;
    while u < 9
      invariant 0 <= u <= 9
      invariant FirstSome(UnitProbe(cs, t), u, 9) == UnitsOf(cs, t)
    {
      var missing := UnitMissing(cs, t, u);
      assert UnitProbe(cs, t)(u) == UnitAt(cs, t, u);
      var vi := 0;
      while vi < |missing|
        invariant 0 <= vi <= |missing|
        invariant FirstSome(ValueProbe(cs, t, u, missing), vi, |missing|) == UnitAt(cs, t, u)
      {
        var value := missing[vi];
        var possible := CellsWithCand(cs, UnitIdxs(t, u), value);
        assert ValueProbe(cs, t, u, missing)(vi) == ValueAt(cs, t, u, value);
        if |possible| == 1 {
          UnitIdxsFacts(t, u);
          CellsWithCandFacts(cs, UnitIdxs(t, u), value);
          var idx := possible[0];
          var peerIdxs := g.PeerRow(idx);
          r := Some(Step(TechHiddenSingle, HiddenSingleStep(idx, value, t, u, peerIdxs)));
          return;
        }
        vi := vi + 1;
      }
      u := u + 1;
    }
    r := None;
  }

  /** hidden_single: tries the rows, then the columns, then the boxes. */
  method HiddenSingle(g: Grid) returns (r: Option<Step>)
    requires g.Valid()
    ensures r == HiddenSingleOf(g.cells[..])
  {
    r := HiddenSingleUnit(g, Row);
    if r.Some? {
      return;
    }
    r := HiddenSingleUnit(g, Col);
    if r.Some? {
      return;
    }
    r := HiddenSingleUnit(g, Box);
  }

  // ------------------------------------------------------------ properties

  /** The probe for the k-th missing value succeeds exactly when that value is hidden. */
  lemma ValueProbeHidden(cs: seq<Cell>, t: UnitType, u: int, k: int)
    requires Cells81(cs) && 0 <= u < 9 && 0 <= k < |UnitMissing(cs, t, u)|
    ensures ValueProbe(cs, t, u, UnitMissing(cs, t, u))(k).Some? <==> Hidden(cs, t, u, UnitMissing(cs, t, u)[k])
  {
    var missing := UnitMissing(cs, t, u);
    UnitDigits(cs, t, u);
    assert missing[k] in missing;
  }

  /** A hidden value of unit u makes the unit's search succeed. */
  lemma HiddenFound(cs: seq<Cell>, t: UnitType, u: int, v: int)
    requires Cells81(cs) && 0 <= u < 9 && Hidden(cs, t, u, v)
    ensures UnitAt(cs, t, u).Some?
  {
    var missing := UnitMissing(cs, t, u);
    var f := ValueProbe(cs, t, u, missing);
    UnitDigits(cs, t, u);
    assert v in missing;
    var k :| 0 <= k < |missing| && missing[k] == v;
    ValueProbeHidden(cs, t, u, k);
    FirstSomeNone(f, 0, |missing|);
  }

  /** A successful search of unit u has found a hidden value. */
  lemma FoundHidden(cs: seq<Cell>, t: UnitType, u: int) returns (v: int)
    requires Cells81(cs) && 0 <= u < 9 && UnitAt(cs, t, u).Some?
    ensures Hidden(cs, t, u, v)
  {
    var missing := UnitMissing(cs, t, u);
    var f := ValueProbe(cs, t, u, missing);
    var k := FirstSomeSome(f, 0, |missing|);
    ValueProbeHidden(cs, t, u, k);
    v := missing[k];
  }

  /** A unit yields nothing exactly when none of its values is hidden. */
  lemma UnitAtNone(cs: seq<Cell>, t: UnitType, u: int)
    requires Cells81(cs) && 0 <= u < 9
    ensures UnitAt(cs, t, u).None? <==> UnitClear(cs, t, u)
  {
    if UnitAt(cs, t, u).Some? {
      var v := FoundHidden(cs, t, u);
    } else {
      forall v | 1 <= v <= 9
        ensures !Hidden(cs, t, u, v)
      {
        if Hidden(cs, t, u, v) {
          HiddenFound(cs, t, u, v);
        }
      }
    }
  }

  /** No value below v is hidden in unit u. */
  predicate FirstHidden(cs: seq<Cell>, t: UnitType, u: int, v: int)
    requires Cells81(cs) && 0 <= u < 9
  {
    Hidden(cs, t, u, v) && forall w :: 1 <= w < v ==> !Hidden(cs, t, u, w)
  }

  /** Cell idx is the only cell of unit u with candidate v. */
  predicate OnlyHolder(cs: seq<Cell>, t: UnitType, u: int, idx: int, v: int)
    requires |cs| == 81 && 0 <= v <= 9
  {
    0 <= idx < 81 && UnitOf(t, idx) == u && HasCand(cs[idx], v) &&
    forall j :: 0 <= j < 81 && UnitOf(t, j) == u && j != idx ==> !HasCand(cs[j], v)
  }

  /** The facts a hidden-single step of unit u records. */
  predicate Records(cs: seq<Cell>, t: UnitType, u: int, s: Step)
    requires Cells81(cs) && 0 <= u < 9
  {
    s.tech == TechHiddenSingle && s.data.HiddenSingleStep? &&
    s.data.unitType == t && s.data.unitIdx == u &&
    1 <= s.data.value <= 9 && FirstHidden(cs, t, u, s.data.value) &&
    OnlyHolder(cs, t, u, s.data.idx, s.data.value) && s.data.peerIdxs == PeerList(s.data.idx)
  }

  /** The only cell of a hidden single's unit holding it is the one the filter keeps. */
  lemma HiddenHolder(cs: seq<Cell>, t: UnitType, u: int, v: int)
    requires |cs| == 81 && 0 <= u < 9 && 1 <= v <= 9 && |CellsWithCand(cs, UnitIdxs(t, u), v)| == 1
    ensures OnlyHolder(cs, t, u, CellsWithCand(cs, UnitIdxs(t, u), v)[0], v)
  {
    var possible := CellsWithCand(cs, UnitIdxs(t, u), v);
    var idx := possible[0];
    CellsWithCandFacts(cs, UnitIdxs(t, u), v);
    assert possible == [idx];
    UnitIdxsMember(t, u, idx);
    forall j | 0 <= j < 81 && UnitOf(t, j) == u && j != idx
      ensures !HasCand(cs[j], v)
    {
      UnitIdxsFacts(t, u);
      assert j in UnitIdxs(t, u);
      assert j !in possible;
    }
  }

  /** The search of unit u stops at its smallest hidden value. */
  lemma UnitAtFirst(cs: seq<Cell>, t: UnitType, u: int, k: int)
    requires Cells81(cs) && 0 <= u < 9 && 0 <= k < |UnitMissing(cs, t, u)|
    requires ValueProbe(cs, t, u, UnitMissing(cs, t, u))(k).Some?
    requires forall m :: 0 <= m < k ==> ValueProbe(cs, t, u, UnitMissing(cs, t, u))(m).None?
    ensures FirstHidden(cs, t, u, UnitMissing(cs, t, u)[k])
  {
    var missing := UnitMissing(cs, t, u);
    UnitDigits(cs, t, u);
    var v := missing[k];
    ValueProbeHidden(cs, t, u, k);
    forall w | 1 <= w < v
      ensures !Hidden(cs, t, u, w)
    {
      if Hidden(cs, t, u, w) {
        assert w in missing;
        var m :| 0 <= m < |missing| && missing[m] == w;
        assert m < k;
        ValueProbeHidden(cs, t, u, m);
      }
    }
  }

  /** A step from unit u is for its smallest hidden value, whose single cell it names. */
  lemma UnitAtFound(cs: seq<Cell>, t: UnitType, u: int)
    requires Cells81(cs) && 0 <= u < 9 && UnitAt(cs, t, u).Some?
    ensures Records(cs, t, u, UnitAt(cs, t, u).value)
  {
    var missing := UnitMissing(cs, t, u);
    var f := ValueProbe(cs, t, u, missing);
    var k := FirstSomeSome(f, 0, |missing|);
    UnitAtFirst(cs, t, u, k);
    HiddenHolder(cs, t, u, missing[k]);
  }

  /** A unit type yields nothing exactly when none of its units has a hidden single. */
  lemma UnitsOfNone(cs: seq<Cell>, t: UnitType)
    requires Cells81(cs)
    ensures UnitsOf(cs, t).None? <==> NoHidden(cs, t)
  {
    var f := UnitProbe(cs, t);
    FirstSomeNone(f, 0, 9);
    forall u | 0 <= u < 9
      ensures f(u).None? <==> UnitClear(cs, t, u)
    {
      assert f(u) == UnitAt(cs, t, u);
      UnitAtNone(cs, t, u);
    }
    assert (forall u :: 0 <= u < 9 ==> f(u).None?) <==> NoHidden(cs, t);
  }

  /** A step from unit type t comes from its first unit having a hidden single. */
  lemma UnitsOfFound(cs: seq<Cell>, t: UnitType)
    requires Cells81(cs) && UnitsOf(cs, t).Some?
    ensures var s := UnitsOf(cs, t).value;
      s.data.HiddenSingleStep? && 0 <= s.data.unitIdx < 9 && Records(cs, t, s.data.unitIdx, s) &&
      forall u :: 0 <= u < s.data.unitIdx ==> UnitClear(cs, t, u)
  {
    var f := UnitProbe(cs, t);
    var u := FirstSomeSome(f, 0, 9);
    assert f(u) == UnitAt(cs, t, u);
    UnitAtFound(cs, t, u);
    forall u' | 0 <= u' < u
      ensures UnitClear(cs, t, u')
    {
      assert f(u') == UnitAt(cs, t, u');
      UnitAtNone(cs, t, u');
    }
  }

  /** hidden_single finds nothing exactly when no unit of any type has a hidden single. */
  lemma HiddenSingleNone(cs: seq<Cell>)
    requires Cells81(cs)
    ensures HiddenSingleOf(cs).None? <==> NoHidden(cs, Row) && NoHidden(cs, Col) && NoHidden(cs, Box)
  {
    UnitsOfNone(cs, Row);
    UnitsOfNone(cs, Col);
    UnitsOfNone(cs, Box);
  }

  /** A found step is the first hidden single in rows, then columns, then boxes. */
  lemma HiddenSingleFound(cs: seq<Cell>)
    requires Cells81(cs) && HiddenSingleOf(cs).Some?
    ensures var s := HiddenSingleOf(cs).value;
      s.data.HiddenSingleStep? && 0 <= s.data.unitIdx < 9 &&
      Records(cs, s.data.unitType, s.data.unitIdx, s) &&
      (s.data.unitType != Row ==> NoHidden(cs, Row)) &&
      (s.data.unitType == Box ==> NoHidden(cs, Col))
  {
    var s := HiddenSingleOf(cs).value;
    UnitsOfNone(cs, Row);
    UnitsOfNone(cs, Col);
    if UnitsOf(cs, Row).Some? {
      UnitsOfFound(cs, Row);
    } else if UnitsOf(cs, Col).Some? {
      UnitsOfFound(cs, Col);
    } else {
      UnitsOfFound(cs, Box);
    }
  }

  // ---------------------------------------------------------- apply, revert

  /** A hidden-single step whose fields are in range. */
  predicate WellFormed(s: Step)
  {
    s.data.HiddenSingleStep? && 0 <= s.data.idx < 81 && 1 <= s.data.value <= 9 &&
    InGrid(s.data.peerIdxs)
  }

  /** hidden_single_apply: grid_fill_cell at the step's cell with its value. */
  method HiddenSingleApply(g: Grid, s: Step)
    requires g.Valid() && WellFormed(s)
    modifies g, g.cells
    ensures g.Valid() && g.cells == old(g.cells) && g.peers == old(g.peers)
    ensures g.cells[..] == FillSpec(old(g.cells[..]), s.data.idx, s.data.value)
    ensures g.emptyCells == old(g.emptyCells) - 1
  {
    g.FillCell(s.data.idx, s.data.value);
  }

  /** hidden_single_revert: empties the cell with {value} and gives value back to all its peers. */
  method HiddenSingleRevert(g: Grid, s: Step)
    requires g.Valid() && WellFormed(s)
    modifies g`emptyCells, g.cells
    ensures g.Valid()
    ensures g.cells[..] == UnfillSpec(old(g.cells[..]), s.data.idx, s.data.value, s.data.peerIdxs)
    ensures g.emptyCells == old(g.emptyCells) + 1
  {
    Unfill(g, s.data.idx, s.data.value, s.data.peerIdxs);
  }

  /**
   * Revert after apply restores every value and every cell outside the
   * step's cell and its peers; the peers end up with the value as a
   * candidate and the cell with {value}.
   */
  lemma HiddenSingleRevertApply(cs: seq<Cell>)
    requires Cells81(cs) && Coherent(cs) && HiddenSingleOf(cs).Some?
    ensures WellFormed(HiddenSingleOf(cs).value)
    ensures var s := HiddenSingleOf(cs).value;
      var i, v := s.data.idx, s.data.value;
      var r := UnfillSpec(FillSpec(cs, i, v), i, v, s.data.peerIdxs);
      (forall j :: 0 <= j < 81 ==> r[j].value == cs[j].value) &&
      (forall j :: 0 <= j < 81 && j != i && !Peers(i, j) ==> r[j] == cs[j]) &&
      (forall j :: 0 <= j < 81 && Peers(i, j) ==>
        SameButCands(r[j], cs[j]) && Elems(r[j].cands) == Elems(cs[j].cands) + {v}) &&
      SameButCands(r[i], cs[i]) && Elems(r[i].cands) == {v}
  {
    HiddenSingleFound(cs);
    var s := HiddenSingleOf(cs).value;
    var i, v, peers := s.data.idx, s.data.value, s.data.peerIdxs;
    PeerListFacts(i);
    assert InGrid(peers);
    var filled := FillSpec(cs, i, v);
    FillSpecFacts(cs, i, v);
    UnfillSpecFacts(filled, i, v, peers);
    assert v in Elems(cs[i].cands);
    ElemsCount(cs[i].cands);
    assert IsEmpty(cs[i]);
    forall j | 0 <= j < 81 && j != i && Peers(i, j)
      ensures j in peers
    {
    }
    forall j | 0 <= j < 81 && j in peers
      ensures Peers(i, j) && j != i
    {
      var n :| 0 <= n < NumPeers && peers[n] == j;
    }
  }
}
