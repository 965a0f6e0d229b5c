// The candidate edits that apply and revert perform on a list of cells, one
// cell at a time in list order: each is a function giving the grid after the
// first n cells of the list, a lemma saying what it does to each cell, and
// the loop that performs it on a Grid.

module CellEdits {
  import opened CandSets
  import opened Cells
  import opened Grids
  import opened Search
  import opened CellLists

  /** Every set of the list is well formed. */
  predicate AllValid(sets: seq<CandSet>)
  {
    forall k :: 0 <= k < |sets| ==> Valid(sets[k])
  }

  // ----------------------------------------------- cell_remove_cands, a list

  /** The grid once set has been removed from the first n listed cells. */
  function RemoveCandsAll(cs: seq<Cell>, idxs: seq<int>, set_: CandSet, n: int): (r: seq<Cell>)
    requires Cells81(cs) && InGrid(idxs) && 0 <= n <= |idxs|
    ensures Cells81(r)
    decreases n
  {
    if n == 0 then cs
    else
      var prev := RemoveCandsAll(cs, idxs, set_, n - 1);
      var j := idxs[n - 1];
      var c := RemoveCands(prev[j], set_);
      assert CellAt(c, j);
      prev[j := c]
  }

  /** Removing the same set twice removes it once. */
  lemma RemoveCandsTwice(c: Cell, set_: CandSet)
    requires Valid(c.cands)
    ensures RemoveCands(RemoveCands(c, set_), set_) == RemoveCands(c, set_)
  {
    SameMembers(RemoveCands(RemoveCands(c, set_), set_).cands, RemoveCands(c, set_).cands);
  }

  /** A listed cell loses set; every other cell is unchanged. */
  lemma {:induction false} RemoveCandsAllAt(cs: seq<Cell>, idxs: seq<int>, set_: CandSet, n: int, j: int)
    requires Cells81(cs) && InGrid(idxs) && 0 <= n <= |idxs| && 0 <= j < 81
    ensures RemoveCandsAll(cs, idxs, set_, n)[j] ==
      if j in idxs[..n] then RemoveCands(cs[j], set_) else cs[j]
  {
    if n > 0 {
      RemoveCandsAllAt(cs, idxs, set_, n - 1, j);
      assert idxs[..n] == idxs[..n - 1] + [idxs[n - 1]];
      if j == idxs[n - 1] && j in idxs[..n - 1] {
        RemoveCandsTwice(cs[j], set_);
      }
    }
  }

  /** cell_remove_cands on each listed cell. */
  method RemoveCandsFrom(g: Grid, idxs: seq<int>, set_: CandSet)
    requires g.Valid() && InGrid(idxs)
    modifies g.cells
    ensures g.Valid()
    ensures g.cells[..] == RemoveCandsAll(old(g.cells[..]), idxs, set_, |idxs|)
  {
    ghost var cs := g.cells[..];
    for i := 0 to |idxs|
      invariant g.Valid()
      invariant g.cells[..] == RemoveCandsAll(cs, idxs, set_, i)
    {
      var j := idxs[i];
      g.cells[j] := RemoveCands(g.cells[j], set_);
    }
  }

  // ------------------------------------------------- cell_add_cands, a list

  /** The grid once sets[k] has been added back to listed cell k, for k < n. */
  function AddCandsEach(cs: seq<Cell>, idxs: seq<int>, sets: seq<CandSet>, n: int): (r: seq<Cell>)
    requires Cells81(cs) && InGrid(idxs) && |sets| == |idxs| && AllValid(sets) && 0 <= n <= |idxs|
    ensures Cells81(r)
    decreases n
  {
    if n == 0 then cs
    else
      var prev := AddCandsEach(cs, idxs, sets, n - 1);
      var j := idxs[n - 1];
      var c := AddCands(prev[j], sets[n - 1]);
      assert CellAt(c, j);
      prev[j := c]
  }

  /** With distinct list entries, listed cell k gains sets[k]; every other cell is unchanged. */
  lemma AddCandsEachAt(cs: seq<Cell>, idxs: seq<int>, sets: seq<CandSet>, n: int)
    requires Cells81(cs) && InGrid(idxs) && |sets| == |idxs| && AllValid(sets) && 0 <= n <= |idxs|
    requires Ascending(idxs)
    ensures forall k :: 0 <= k < n ==> AddCandsEach(cs, idxs, sets, n)[idxs[k]] == AddCands(cs[idxs[k]], sets[k])
    ensures forall j :: 0 <= j < 81 && j !in idxs[..n] ==> AddCandsEach(cs, idxs, sets, n)[j] == cs[j]
  {
    AddCandsEachListed(cs, idxs, sets, n);
    forall j | 0 <= j < 81 && j !in idxs[..n]
      ensures AddCandsEach(cs, idxs, sets, n)[j] == cs[j]
    {
      AddCandsEachOther(cs, idxs, sets, n, j);
    }
  }

  /** A cell outside the first n listed ones is left alone. */
  lemma {:induction false} AddCandsEachOther(cs: seq<Cell>, idxs: seq<int>, sets: seq<CandSet>, n: int, i: int)
    requires Cells81(cs) && InGrid(idxs) && |sets| == |idxs| && AllValid(sets) && 0 <= n <= |idxs|
    requires 0 <= i < 81 && i !in idxs[..n]
    ensures AddCandsEach(cs, idxs, sets, n)[i] == cs[i]
  {
    if n > 0 {
      assert idxs[..n] == idxs[..n - 1] + [idxs[n - 1]];
      AddCandsEachOther(cs, idxs, sets, n - 1, i);
    }
  }

  /** With ascending list entries, listed cell k gains sets[k]. */
  lemma {:induction false} AddCandsEachListed(cs: seq<Cell>, idxs: seq<int>, sets: seq<CandSet>, n: int)
    requires Cells81(cs) && InGrid(idxs) && |sets| == |idxs| && AllValid(sets) && 0 <= n <= |idxs|
    requires Ascending(idxs)
    ensures forall k :: 0 <= k < n ==> AddCandsEach(cs, idxs, sets, n)[idxs[k]] == AddCands(cs[idxs[k]], sets[k])
  {
    if n > 0 {
      AddCandsEachListed(cs, idxs, sets, n - 1);
      var prev := AddCandsEach(cs, idxs, sets, n - 1);
      var j := idxs[n - 1];
      assert AddCandsEach(cs, idxs, sets, n) == prev[j := AddCands(prev[j], sets[n - 1])];
      assert j !in idxs[..n - 1];
      AddCandsEachOther(cs, idxs, sets, n - 1, j);
      forall k | 0 <= k < n - 1
        ensures idxs[k] != j
      {
        assert idxs[k] < j;
      }
    }
  }

  /** cell_add_cands of sets[k] on listed cell k. */
  method AddCandsTo(g: Grid, idxs: seq<int>, sets: seq<CandSet>)
    requires g.Valid() && InGrid(idxs) && |sets| == |idxs| && AllValid(sets)
    modifies g.cells
    ensures g.Valid()
    ensures g.cells[..] == AddCandsEach(old(g.cells[..]), idxs, sets, |idxs|)
  {
    ghost var cs := g.cells[..];
    for i := 0 to |idxs|
      invariant g.Valid()
      invariant g.cells[..] == AddCandsEach(cs, idxs, sets, i)
    {
      var j := idxs[i];
      g.cells[j] := AddCands(g.cells[j], sets[i]);
    }
  }

  /**
   * Adding back what each removal cell shared with set undoes removing set
   * from a list whose cells meeting set are exactly the removals.
   */
  lemma RemoveCandsRevert(cs: seq<Cell>, idxs: seq<int>, rem: seq<int>, set_: CandSet, removed: seq<CandSet>)
    requires Cells81(cs) && InGrid(idxs) && InGrid(rem) && Ascending(rem)
    requires forall j :: j in rem <==> j in idxs && Meets(cs[j].cands, set_)
    requires |removed| == |rem| && forall k :: 0 <= k < |rem| ==> removed[k] == Intersect(cs[rem[k]].cands, set_)
    ensures AllValid(removed)
    ensures AddCandsEach(RemoveCandsAll(cs, idxs, set_, |idxs|), rem, removed, |rem|) == cs
  {
    var mid := RemoveCandsAll(cs, idxs, set_, |idxs|);
    AddCandsEachAt(mid, rem, removed, |rem|);
    var r := AddCandsEach(mid, rem, removed, |rem|);
    assert idxs[..|idxs|] == idxs && rem[..|rem|] == rem;
    forall j | 0 <= j < 81
      ensures r[j] == cs[j]
    {
      RemoveCandsAllAt(cs, idxs, set_, |idxs|, j);
      if j in rem {
        var k :| 0 <= k < |rem| && rem[k] == j;
        RemoveAddCands(cs[j], set_);
      } else if j in idxs {
        RemoveCandsNone(cs[j], set_);
      }
    }
  }

  // ---------------------------------------- cell_remove_cand / cell_add_cand

  /** The grid once v has been removed from the first n listed cells. */
  function RemoveCandAll(cs: seq<Cell>, idxs: seq<int>, v: int, n: int): (r: seq<Cell>)
    requires Cells81(cs) && InGrid(idxs) && 1 <= v <= 9 && 0 <= n <= |idxs|
    ensures Cells81(r)
    decreases n
  {
    if n == 0 then cs
    else
      var prev := RemoveCandAll(cs, idxs, v, n - 1);
      var j := idxs[n - 1];
      var c := RemoveCand(prev[j], v);
      assert CellAt(c, j);
      prev[j := c]
  }

  /** The grid once v has been added to the first n listed cells. */
  function AddCandAll(cs: seq<Cell>, idxs: seq<int>, v: int, n: int): (r: seq<Cell>)
    requires Cells81(cs) && InGrid(idxs) && 1 <= v <= 9 && 0 <= n <= |idxs|
    ensures Cells81(r)
    decreases n
  {
    if n == 0 then cs
    else
      var prev := AddCandAll(cs, idxs, v, n - 1);
      var j := idxs[n - 1];
      var c := AddCand(prev[j], v);
      assert CellAt(c, j);
      prev[j := c]
  }

  /** A listed cell loses v; every other cell is unchanged. */
  lemma {:induction false} RemoveCandAllAt(cs: seq<Cell>, idxs: seq<int>, v: int, n: int, j: int)
    requires Cells81(cs) && InGrid(idxs) && 1 <= v <= 9 && 0 <= n <= |idxs| && 0 <= j < 81
    ensures RemoveCandAll(cs, idxs, v, n)[j] == if j in idxs[..n] then RemoveCand(cs[j], v) else cs[j]
  {
    if n > 0 {
      RemoveCandAllAt(cs, idxs, v, n - 1, j);
      assert idxs[..n] == idxs[..n - 1] + [idxs[n - 1]];
      if j == idxs[n - 1] && j in idxs[..n - 1] {
        RemoveIdempotent(cs[j].cands, v);
      }
    }
  }

  /** A listed cell gains v; every other cell is unchanged. */
  lemma {:induction false} AddCandAllAt(cs: seq<Cell>, idxs: seq<int>, v: int, n: int, j: int)
    requires Cells81(cs) && InGrid(idxs) && 1 <= v <= 9 && 0 <= n <= |idxs| && 0 <= j < 81
    ensures AddCandAll(cs, idxs, v, n)[j] == if j in idxs[..n] then AddCand(cs[j], v) else cs[j]
  {
    if n > 0 {
      AddCandAllAt(cs, idxs, v, n - 1, j);
      assert idxs[..n] == idxs[..n - 1] + [idxs[n - 1]];
      if j == idxs[n - 1] && j in idxs[..n - 1] {
        assert HasCand(AddCand(cs[j], v), v);
      }
    }
  }

  /** cell_remove_cand of v on each listed cell. */
  method RemoveCandFrom(g: Grid, idxs: seq<int>, v: int)
    requires g.Valid() && InGrid(idxs) && 1 <= v <= 9
    modifies g.cells
    ensures g.Valid()
    ensures g.cells[..] == RemoveCandAll(old(g.cells[..]), idxs, v, |idxs|)
  {
    ghost var cs := g.cells[..];
    for i := 0 to |idxs|
      invariant g.Valid()
      invariant g.cells[..] == RemoveCandAll(cs, idxs, v, i)
    {
      var j := idxs[i];
      g.cells[j] := RemoveCand(g.cells[j], v);
    }
  }

  /** cell_add_cand of v on each listed cell. */
  method AddCandTo(g: Grid, idxs: seq<int>, v: int)
    requires g.Valid() && InGrid(idxs) && 1 <= v <= 9
    modifies g.cells
    ensures g.Valid()
    ensures g.cells[..] == AddCandAll(old(g.cells[..]), idxs, v, |idxs|)
  {
    ghost var cs := g.cells[..];
    for i := 0 to |idxs|
      invariant g.Valid()
      invariant g.cells[..] == AddCandAll(cs, idxs, v, i)
    {
      var j := idxs[i];
      g.cells[j] := AddCand(g.cells[j], v);
    }
  }

  /** Adding v back undoes removing it, when every listed cell held v. */
  lemma RemoveCandRevert(cs: seq<Cell>, idxs: seq<int>, v: int)
    requires Cells81(cs) && InGrid(idxs) && 1 <= v <= 9
    requires forall k :: 0 <= k < |idxs| ==> HasCand(cs[idxs[k]], v)
    ensures AddCandAll(RemoveCandAll(cs, idxs, v, |idxs|), idxs, v, |idxs|) == cs
  {
    var mid := RemoveCandAll(cs, idxs, v, |idxs|);
    var r := AddCandAll(mid, idxs, v, |idxs|);
    assert idxs[..|idxs|] == idxs;
    forall j | 0 <= j < 81
      ensures r[j] == cs[j]
    {
      RemoveCandAllAt(cs, idxs, v, |idxs|, j);
      AddCandAllAt(mid, idxs, v, |idxs|, j);
      if j in idxs {
        var k :| 0 <= k < |idxs| && idxs[k] == j;
        AddRemoveCand(cs[j], v);
      }
    }
  }

  // ------------------------------------------------ overwrite the candidates

  /** The grid once the first n listed cells have set as their candidates. */
  function SetCandsAll(cs: seq<Cell>, idxs: seq<int>, set_: CandSet, n: int): (r: seq<Cell>)
    requires Cells81(cs) && InGrid(idxs) && Valid(set_) && 0 <= n <= |idxs|
    ensures Cells81(r)
    decreases n
  {
    if n == 0 then cs
    else
      var prev := SetCandsAll(cs, idxs, set_, n - 1);
      var j := idxs[n - 1];
      var c := prev[j].(cands := set_);
      assert CellAt(c, j);
      prev[j := c]
  }

  /** A listed cell now has exactly set as candidates; every other cell is unchanged. */
  lemma {:induction false} SetCandsAllAt(cs: seq<Cell>, idxs: seq<int>, set_: CandSet, n: int, j: int)
    requires Cells81(cs) && InGrid(idxs) && Valid(set_) && 0 <= n <= |idxs| && 0 <= j < 81
    ensures SetCandsAll(cs, idxs, set_, n)[j] == if j in idxs[..n] then cs[j].(cands := set_) else cs[j]
  {
    if n > 0 {
      SetCandsAllAt(cs, idxs, set_, n - 1, j);
      assert idxs[..n] == idxs[..n - 1] + [idxs[n - 1]];
    }
  }

  /** Overwrites the candidates of each listed cell with set. */
  method SetCandsOf(g: Grid, idxs: seq<int>, set_: CandSet)
    requires g.Valid() && InGrid(idxs) && Valid(set_)
    modifies g.cells
    ensures g.Valid()
    ensures g.cells[..] == SetCandsAll(old(g.cells[..]), idxs, set_, |idxs|)
  {
    ghost var cs := g.cells[..];
    for i := 0 to |idxs|
      invariant g.Valid()
      invariant g.cells[..] == SetCandsAll(cs, idxs, set_, i)
    {
      var j := idxs[i];
      g.cells[j] := g.cells[j].(cands := set_);
    }
  }
}
