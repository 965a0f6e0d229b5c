// The naked-single technique (src/techniques/naked_single.c): a cell with a
// single candidate takes that value.  The scanner reads the grid only; apply
// is grid_fill_cell and revert undoes it from what the step records.

module NakedSingles {
  import opened CandSets
  import opened Cells
  import opened Grids
  import opened Search
  import opened CellLists
  import opened Steps
  import opened Unfills

  /** What naked_single records for cell i, if it has exactly one candidate. */
  function NakedSingleAt(cs: seq<Cell>, i: int): Option<Step>
    requires Cells81(cs) && 0 <= i < 81
  {
    if cs[i].cands.len != 1 then None
    else
      var value := OnlyCand(cs[i]);
      Some(Step(TechNakedSingle, NakedSingleStep(i, value, CellsWithCand(cs, PeerList(i), value))))
  }

  function Probe(cs: seq<Cell>): int -> Option<Step>
    requires Cells81(cs)
  {
    i => if 0 <= i < 81 then NakedSingleAt(cs, i) else None
  }

  /** naked_single: the step for the first cell, by index, with exactly one candidate. */
  function NakedSingleOf(cs: seq<Cell>): Option<Step>
    requires Cells81(cs)
  {
    FirstSome(Probe(cs), 0, 81)
  }

  /** naked_single: scans the cells in index order and fills in the first step found. */
  method NakedSingle(g: Grid) returns (r: Option<Step>)
    requires g.Valid()
    ensures r == NakedSingleOf(g.cells[..])
  {
    var cs := g.cells[..];
    var i := 0;
    while i < 81
      invariant 0 <= i <= 81
      invariant FirstSome(Probe(cs), i, 81) == NakedSingleOf(cs)
    {
      var cell := g.cells[i];
      if cell.cands.len == 1 {
        var value := OnlyCand(cell);
        var removals := CellsWithCand(cs, g.PeerRow(i), value);
        r := Some(Step(TechNakedSingle, NakedSingleStep(i, value, removals)));
        return;
      }
      i := i + 1;
    }
    r := None;
  }

  /** The scanner finds nothing exactly when no cell has a single candidate. */
  lemma NakedSingleNone(cs: seq<Cell>)
    requires Cells81(cs)
    ensures NakedSingleOf(cs).None? <==> forall i :: 0 <= i < 81 ==> cs[i].cands.len != 1
  {
    FirstSomeNone(Probe(cs), 0, 81);
    forall i | 0 <= i < 81
      ensures Probe(cs)(i).None? <==> cs[i].cands.len != 1
    {
      assert Probe(cs)(i) == NakedSingleAt(cs, i);
    }
  }

  /**
   * A found step names the first cell with a single candidate, that candidate,
   * and as removals exactly the peers holding it, ascending (at most 20).
   */
  lemma NakedSingleFound(cs: seq<Cell>)
    requires Cells81(cs) && NakedSingleOf(cs).Some?
    ensures var s := NakedSingleOf(cs).value;
      s.tech == TechNakedSingle && s.data.NakedSingleStep? &&
      var i, v, rem := s.data.idx, s.data.value, s.data.removalIdxs;
      0 <= i < 81 && cs[i].cands.len == 1 && (forall k :: 0 <= k < i ==> cs[k].cands.len != 1) &&
      1 <= v <= 9 && Elems(cs[i].cands) == {v} &&
      (forall j :: j in rem <==> 0 <= j < 81 && Peers(i, j) && HasCand(cs[j], v)) &&
      Ascending(rem) && InGrid(rem) && |rem| <= NumPeers
  {
    var i := FirstSomeSome(Probe(cs), 0, 81);
    assert Probe(cs)(i) == NakedSingleAt(cs, i);
    forall k | 0 <= k < i
      ensures cs[k].cands.len != 1
    {
      assert Probe(cs)(k) == NakedSingleAt(cs, k);
    }
    var v := OnlyCand(cs[i]);
    PeerListFacts(i);
    assert Ascending(PeerList(i)) && InGrid(PeerList(i));
    CellsWithCandFacts(cs, PeerList(i), v);
  }

  // ---------------------------------------------------------- apply, revert

  /** A naked-single step whose fields are in range. */
  predicate WellFormed(s: Step)
  {
    s.data.NakedSingleStep? && 0 <= s.data.idx < 81 && 1 <= s.data.value <= 9 &&
    InGrid(s.data.removalIdxs)
  }

  /** naked_single_apply: grid_fill_cell at the step's cell with its value. */
  method NakedSingleApply(g: Grid, s: Step)
    requires g.Valid() && WellFormed(s)
    modifies g, g.cells
    ensures g.Valid() && g.cells == old(g.cells) && g.peers == old(g.peers)
    ensures g.cells[..] == FillSpec(old(g.cells[..]), s.data.idx, s.data.value)
    ensures g.emptyCells == old(g.emptyCells) - 1
  {
    g.FillCell(s.data.idx, s.data.value);
  }

  /** naked_single_revert: empties the cell with {value} and gives value back to each removal cell. */
  method NakedSingleRevert(g: Grid, s: Step)
    requires g.Valid() && WellFormed(s)
    modifies g`emptyCells, g.cells
    ensures g.Valid()
    ensures g.cells[..] == UnfillSpec(old(g.cells[..]), s.data.idx, s.data.value, s.data.removalIdxs)
    ensures g.emptyCells == old(g.emptyCells) + 1
  {
    Unfill(g, s.data.idx, s.data.value, s.data.removalIdxs);
  }

  /** One cell of the round trip, from what the scanner guarantees about the step. */
  lemma RoundTripCell(cs: seq<Cell>, i: int, v: int, rem: seq<int>, j: int)
    requires Cells81(cs) && 0 <= i < 81 && 1 <= v <= 9 && InGrid(rem) && 0 <= j < 81
    requires IsEmpty(cs[i]) && Elems(cs[i].cands) == {v}
    requires forall k :: k in rem <==> 0 <= k < 81 && Peers(i, k) && HasCand(cs[k], v)
    ensures UnfillSpec(FillSpec(cs, i, v), i, v, rem)[j] == cs[j]
  {
    var filled := FillSpec(cs, i, v);
    FillSpecFacts(cs, i, v);
    UnfillSpecFacts(filled, i, v, rem);
    var r := UnfillSpec(filled, i, v, rem);
    if j == i {
      forall u | 1 <= u <= 9
        ensures Has(r[i].cands, u) <==> Has(cs[i].cands, u)
      {
        assert Has(cs[i].cands, u) <==> u in Elems(cs[i].cands);
        assert Has(r[i].cands, u) <==> u in Elems(r[i].cands);
      }
      SameMembers(r[i].cands, cs[i].cands);
    } else if j in rem {
      assert filled[j] == RemoveCand(cs[j], v);
      AddRemoveCand(cs[j], v);
    }
  }

  /**
   * revert after apply gives back the grid the step was scanned from; the
   * cell counter goes down by one and up by one.
   */
  lemma NakedSingleRoundTrip(cs: seq<Cell>)
    requires Cells81(cs) && Coherent(cs) && NakedSingleOf(cs).Some?
    ensures WellFormed(NakedSingleOf(cs).value)
    ensures var s := NakedSingleOf(cs).value;
      UnfillSpec(FillSpec(cs, s.data.idx, s.data.value), s.data.idx, s.data.value, s.data.removalIdxs) == cs
  {
    NakedSingleFound(cs);
    var s := NakedSingleOf(cs).value;
    var i, v, rem := s.data.idx, s.data.value, s.data.removalIdxs;
    assert IsEmpty(cs[i]);
    forall j | 0 <= j < 81
      ensures UnfillSpec(FillSpec(cs, i, v), i, v, rem)[j] == cs[j]
    {
      RoundTripCell(cs, i, v, rem, j);
    }
  }
}
