// Undoing grid_fill_cell, as the single-value reverts do it: the filled cell
// is emptied with {value} as its candidates, the empty-cell counter goes up,
// and value is given back to the cells of a recorded list.

module Unfills {
  import opened CandSets
  import opened Cells
  import opened Grids
  import opened CellLists

  /** Cell j while the list is walked, once its first n cells have value back. */
  function UnfillUpTo(cs: seq<Cell>, idx: int, v: int, idxs: seq<int>, n: int, j: int): Cell
    requires Cells81(cs) && 0 <= idx < 81 && 1 <= v <= 9 && InGrid(idxs)
    requires 0 <= n <= |idxs| && 0 <= j < 81
  {
    if j == idx then cs[j].(value := 0, cands := FromValues([v]))
    else if j in idxs[..n] then AddCand(cs[j], v)
    else cs[j]
  }

  /** The grid once the whole list has been walked. */
  function UnfillSpec(cs: seq<Cell>, idx: int, v: int, idxs: seq<int>): (r: seq<Cell>)
    requires Cells81(cs) && 0 <= idx < 81 && 1 <= v <= 9 && InGrid(idxs)
    ensures |r| == 81
  {
    seq(81, j requires 0 <= j < 81 => UnfillUpTo(cs, idx, v, idxs, |idxs|, j))
  }

  /** The emptied cell holds {v}; a listed cell gains v; every other cell is as before. */
  lemma UnfillSpecFacts(cs: seq<Cell>, idx: int, v: int, idxs: seq<int>)
    requires Cells81(cs) && 0 <= idx < 81 && 1 <= v <= 9 && InGrid(idxs)
    ensures Cells81(UnfillSpec(cs, idx, v, idxs))
    ensures UnfillSpec(cs, idx, v, idxs)[idx].value == 0
    ensures SameButCands(UnfillSpec(cs, idx, v, idxs)[idx], cs[idx].(value := 0))
    ensures Elems(UnfillSpec(cs, idx, v, idxs)[idx].cands) == {v}
    ensures forall j :: 0 <= j < 81 && j != idx && j in idxs ==>
      UnfillSpec(cs, idx, v, idxs)[j] == AddCand(cs[j], v)
    ensures forall j :: 0 <= j < 81 && j != idx && j !in idxs ==> UnfillSpec(cs, idx, v, idxs)[j] == cs[j]
  {
    var r := UnfillSpec(cs, idx, v, idxs);
    assert idxs[..|idxs|] == idxs;
    forall j | 0 <= j < 81
      ensures CellAt(r[j], j)
    {
      if j == idx {
        assert cs[j].(value := 0, cands := FromValues([v])) == r[j];
      }
    }
    assert Elems(r[idx].cands) == {v} by {
      forall u | 1 <= u <= 9
        ensures Has(r[idx].cands, u) <==> u == v
      {
        assert Has(FromValues([v]), u) <==> u in [v];
      }
    }
  }

  /** Step n of the walk gives value back to list entry n only. */
  lemma UnfillStep(cs: seq<Cell>, idx: int, v: int, idxs: seq<int>, n: int)
    requires Cells81(cs) && 0 <= idx < 81 && 1 <= v <= 9 && InGrid(idxs) && 0 <= n < |idxs|
    ensures Valid(UnfillUpTo(cs, idx, v, idxs, n, idxs[n]).cands)
    ensures UnfillUpTo(cs, idx, v, idxs, n + 1, idxs[n]) == AddCand(UnfillUpTo(cs, idx, v, idxs, n, idxs[n]), v)
    ensures forall j :: 0 <= j < 81 && j != idxs[n] ==>
      UnfillUpTo(cs, idx, v, idxs, n + 1, j) == UnfillUpTo(cs, idx, v, idxs, n, j)
  {
    var j := idxs[n];
    assert idxs[..n + 1] == idxs[..n] + [j];
    if j == idx {
      assert HasCand(UnfillUpTo(cs, idx, v, idxs, n, j), v);
    } else if j in idxs[..n] {
      assert HasCand(AddCand(cs[j], v), v);
    }
  }

  /** Empties cell idx with {v} as its candidates and adds v back to every listed cell. */
  method Unfill(g: Grid, idx: int, v: int, idxs: seq<int>)
    requires g.Valid() && 0 <= idx < 81 && 1 <= v <= 9 && InGrid(idxs)
    modifies g`emptyCells, g.cells
    ensures g.Valid()
    ensures g.cells[..] == UnfillSpec(old(g.cells[..]), idx, v, idxs)
    ensures g.emptyCells == old(g.emptyCells) + 1
  {
    ghost var cs := g.cells[..];
    g.cells[idx] := g.cells[idx].(value := 0);
    g.cells[idx] := g.cells[idx].(cands := FromValues([v]));
    g.emptyCells := g.emptyCells + 1;
    var i := 0;
    while i < |idxs|
      invariant 0 <= i <= |idxs|
      invariant g.emptyCells == old(g.emptyCells) + 1
      invariant forall j :: 0 <= j < 81 ==> g.cells[j] == UnfillUpTo(cs, idx, v, idxs, i, j)
    {
      var j := idxs[i];
      UnfillStep(cs, idx, v, idxs, i);
      g.cells[j] := AddCand(g.cells[j], v);
      i := i + 1;
    }
    assert g.cells[..] == UnfillSpec(cs, idx, v, idxs);
    UnfillSpecFacts(cs, idx, v, idxs);
  }
}
