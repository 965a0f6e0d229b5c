// The undo/redo history (src/history.c): the steps taken so far and a
// cursor curr into them.  history_curr names the entry just below the
// cursor; undo moves the cursor down and then reverts the entry history_curr
// names; redo applies that entry and then moves the cursor up.  A missing
// entry (a NULL step in C) is taken to leave the grid alone.
//
// As written, undo therefore reverts the entry two below the old cursor and
// redo applies the entry below it: after one step is added, undo reverts
// nothing, and after two it reverts the first.  History.Undo and History.Redo
// model that; UndoLast and RedoNext are the evident intent, undoing the last
// step applied and redoing the next one.

module Histories {
  import opened Cells
  import opened Grids
  import opened Search
  import opened Steps
  import opened Solver
  import opened Unfills
  import opened CellLists
  import NakedSingles

  /** The grid after reverting a step, or the same grid for no step. */
  function Reverted(cs: seq<Cell>, target: Option<Step>): (r: seq<Cell>)
    requires Cells81(cs) && (target.Some? ==> Fits(target.value))
    ensures Cells81(r)
  {
    match target
    case None => cs
    case Some(s) => RevertSpec(cs, s)
  }

  /** The grid after applying a step, or the same grid for no step. */
  function Applied(cs: seq<Cell>, target: Option<Step>): (r: seq<Cell>)
    requires Cells81(cs) && (target.Some? ==> Fits(target.value))
    ensures Cells81(r)
  {
    match target
    case None => cs
    case Some(s) => ApplySpec(cs, s)
  }

  /** The empty cells a revert adds: one for a single, none otherwise. */
  function Refilled(target: Option<Step>): int
  {
    if target.Some? && IsSingle(target.value.tech) then 1 else 0
  }

  /** What history_undo reverts at cursor c as written: the entry below the lowered cursor. */
  function UndoTarget(steps: seq<Step>, c: int): (r: Option<Step>)
    requires 0 < c <= |steps|
    ensures r.None? <==> c == 1
    ensures r.Some? ==> r.value in steps[..c - 1]
  {
    if c - 1 == 0 then None else Some(steps[c - 2])
  }

  /** What history_redo applies at cursor c as written: the entry below the cursor. */
  function RedoTarget(steps: seq<Step>, c: int): (r: Option<Step>)
    requires 0 <= c < |steps|
    ensures r.None? <==> c == 0
    ensures r.Some? ==> r.value in steps[..c]
  {
    if c == 0 then None else Some(steps[c - 1])
  }

  class History {
    var steps: seq<Step>
    var curr: int

    /** The cursor lies within the entries, and every entry fits its tag. */
    ghost predicate Valid()
      reads this
    {
      0 <= curr <= |steps| && forall k :: 0 <= k < |steps| ==> Fits(steps[k])
    }

    /** A zero-initialised History: no entries, cursor at 0. */
    constructor ()
      ensures Valid() && steps == [] && curr == 0
    {
      steps := [];
      curr := 0;
    }

    /** history_curr: nothing at cursor 0, else the entry just below the cursor. */
    function Curr(): (r: Option<Step>)
      reads this
      requires Valid()
      ensures r.None? <==> curr == 0
      ensures r.Some? ==> r.value == steps[curr - 1] && Fits(r.value)
    {
      if curr == 0 then None else Some(steps[curr - 1])
    }

    /** history_can_undo: there is a current entry. */
    function CanUndo(): (r: bool)
      reads this
      requires Valid()
      ensures r <==> Curr().Some?
    {
      curr > 0
    }

    /** history_can_redo: some entry lies at or above the cursor. */
    function CanRedo(): (r: bool)
      reads this
      requires Valid()
      ensures r <==> steps[curr..] != []
    {
      curr < |steps|
    }

    /** history_add: appends the step, keeping every entry, and raises the cursor. */
    method Add(s: Step)
      requires Valid() && Fits(s)
      modifies this
      ensures Valid()
      ensures steps == old(steps) + [s] && curr == old(curr) + 1
      ensures old(curr) == old(|steps|) ==> Curr() == Some(s)
    {
      steps := steps + [s];
      curr := curr + 1;
    }

    /** history_undo: at cursor 0 nothing happens; else the cursor drops and history_curr is reverted. */
    method Undo(g: Grid) returns (ok: bool)
      requires Valid() && g.Valid()
      modifies this`curr, g`emptyCells, g.cells
      ensures Valid() && g.Valid() && steps == old(steps)
      ensures ok <==> old(curr) > 0
      ensures !ok ==> curr == old(curr) && g.cells[..] == old(g.cells[..]) && g.emptyCells == old(g.emptyCells)
      ensures ok ==> curr == old(curr) - 1 && Curr() == UndoTarget(steps, old(curr))
      ensures ok ==> g.cells[..] == Reverted(old(g.cells[..]), UndoTarget(steps, old(curr)))
      ensures ok ==> g.emptyCells == old(g.emptyCells) + Refilled(UndoTarget(steps, old(curr)))
    {
      if !CanUndo() {
        return false;
      }
      curr := curr - 1;
      var target := Curr();
      if target.Some? {
        RevertStep(g, target.value);
      }
      return true;
    }

    /** history_redo: at the last entry nothing happens; else history_curr is applied and the cursor rises. */
    method Redo(g: Grid) returns (ok: bool)
      requires Valid() && g.Valid()
      modifies this`curr, g, g.cells
      ensures Valid() && g.Valid() && steps == old(steps)
      ensures g.cells == old(g.cells) && g.peers == old(g.peers)
      ensures ok <==> old(curr) < |steps|
      ensures !ok ==> curr == old(curr) && g.cells[..] == old(g.cells[..]) && g.emptyCells == old(g.emptyCells)
      ensures ok ==> curr == old(curr) + 1
      ensures ok ==> g.cells[..] == Applied(old(g.cells[..]), RedoTarget(steps, old(curr)))
      ensures ok ==> g.emptyCells == old(g.emptyCells) - Refilled(RedoTarget(steps, old(curr)))
    {
      if !CanRedo() {
        return false;
      }
      var target := Curr();
      if target.Some? {
        ApplyStep(g, target.value);
      }
      curr := curr + 1;
      return true;
    }

    /** Undo as intended: the cursor drops and the entry it passes, the last one applied, is reverted. */
    method UndoLast(g: Grid) returns (ok: bool)
      requires Valid() && g.Valid()
      modifies this`curr, g`emptyCells, g.cells
      ensures Valid() && g.Valid() && steps == old(steps)
      ensures ok <==> old(curr) > 0
      ensures !ok ==> curr == old(curr) && g.cells[..] == old(g.cells[..]) && g.emptyCells == old(g.emptyCells)
      ensures ok ==> curr == old(curr) - 1
      ensures ok ==> g.cells[..] == RevertSpec(old(g.cells[..]), old(Curr()).value)
      ensures ok ==> g.emptyCells == old(g.emptyCells) + Refilled(old(Curr()))
    {
      if !CanUndo() {
        return false;
      }
      curr := curr - 1;
      RevertStep(g, steps[curr]);
      return true;
    }

    /** Redo as intended: the entry at the cursor is applied and becomes the current one. */
    method RedoNext(g: Grid) returns (ok: bool)
      requires Valid() && g.Valid()
      modifies this`curr, g, g.cells
      ensures Valid() && g.Valid() && steps == old(steps)
      ensures g.cells == old(g.cells) && g.peers == old(g.peers)
      ensures ok <==> old(curr) < |steps|
      ensures !ok ==> curr == old(curr) && g.cells[..] == old(g.cells[..]) && g.emptyCells == old(g.emptyCells)
      ensures ok ==> curr == old(curr) + 1 && Curr() == Some(steps[old(curr)])
      ensures ok ==> g.cells[..] == ApplySpec(old(g.cells[..]), steps[old(curr)])
      ensures ok ==> g.emptyCells == old(g.emptyCells) - Refilled(Some(steps[old(curr)]))
    {
      if !CanRedo() {
        return false;
      }
      ApplyStep(g, steps[curr]);
      curr := curr + 1;
      return true;
    }
  }

  // ------------------------------------------------------------ properties

  /**
   * As written, undo after adding a naked single found on a grid leaves the
   * single's cell filled: a history holding only that step reverts nothing.
   */
  lemma UndoAsWrittenKeeps(cs: seq<Cell>)
    requires Cells81(cs) && Coherent(cs) && NakedSingles.NakedSingleOf(cs).Some?
    ensures var s := NakedSingles.NakedSingleOf(cs).value;
      Fits(s) && UndoTarget([s], 1).None? &&
      Reverted(ApplySpec(cs, s), UndoTarget([s], 1)) != cs
  {
    var s := NakedSingles.NakedSingleOf(cs).value;
    ScanTagged(cs, TechNakedSingle);
    NakedSingles.NakedSingleFound(cs);
    ApplyFrame(cs, s);
    assert cs[s.data.idx].cands.len == 1;
    assert ApplySpec(cs, s)[s.data.idx].value != cs[s.data.idx].value;
  }

  /**
   * As written, undo after adding two naked singles in turn, the second
   * found on the grid the first one left, reverts the first of them: the
   * cursor drops from 2 to 1, where history_curr is the first entry.  The
   * first single's cell is emptied again while the second single's cell
   * stays filled, so the grid is not the one before the second step, which
   * undoing that step gives back.
   */
  lemma UndoAsWrittenSkips(cs: seq<Cell>)
    requires Cells81(cs) && Coherent(cs) && NakedSingles.NakedSingleOf(cs).Some?
    requires var s1 := NakedSingles.NakedSingleOf(cs).value;
      Fits(s1) && NakedSingles.NakedSingleOf(ApplySpec(cs, s1)).Some?
    ensures var s1 := NakedSingles.NakedSingleOf(cs).value;
      var cs1 := ApplySpec(cs, s1);
      var s2 := NakedSingles.NakedSingleOf(cs1).value;
      NakedSingles.WellFormed(s1) && NakedSingles.WellFormed(s2) &&
      Fits(s2) && UndoTarget([s1, s2], 2) == Some(s1) &&
      var cs2 := ApplySpec(cs1, s2);
      var back := Reverted(cs2, UndoTarget([s1, s2], 2));
      s1.data.idx != s2.data.idx &&
      back[s1.data.idx].value == 0 && cs1[s1.data.idx].value == s1.data.value != 0 &&
      back[s2.data.idx].value == s2.data.value != 0 && cs1[s2.data.idx].value == 0 &&
      back != cs1 && RevertSpec(cs2, s2) == cs1
  {
    var s1 := NakedSingles.NakedSingleOf(cs).value;
    NakedSingles.NakedSingleFound(cs);
    var i1, v1 := s1.data.idx, s1.data.value;
    var cs1 := ApplySpec(cs, s1);
    assert cs1 == FillSpec(cs, i1, v1);
    FillSpecFacts(cs, i1, v1);
    FillCoherent(cs, i1, v1);
    SecondSingle(cs1, i1, v1);
    var s2 := NakedSingles.NakedSingleOf(cs1).value;
    var i2, v2 := s2.data.idx, s2.data.value;
    var cs2 := ApplySpec(cs1, s2);
    assert cs2 == FillSpec(cs1, i2, v2);
    FillSpecFacts(cs1, i2, v2);
    assert Reverted(cs2, UndoTarget([s1, s2], 2)) == UnfillSpec(cs2, i1, v1, s1.data.removalIdxs);
    UnfillOther(cs2, i1, v1, s1.data.removalIdxs, i2);
    ApplyRevert(cs1, TechNakedSingle);
  }

  /** A naked single found after a first one was filled in lies in another, empty, cell. */
  lemma SecondSingle(cs: seq<Cell>, i: int, v: int)
    requires Cells81(cs) && Coherent(cs) && 0 <= i < 81 && cs[i].value == v && 1 <= v <= 9
    requires NakedSingles.NakedSingleOf(cs).Some?
    ensures var s := NakedSingles.NakedSingleOf(cs).value;
      Fits(s) && s.tech == TechNakedSingle && s.data.idx != i &&
      cs[s.data.idx].value == 0 && 1 <= s.data.value <= 9
  {
    NakedSingles.NakedSingleFound(cs);
    ScanTagged(cs, TechNakedSingle);
    var s := NakedSingles.NakedSingleOf(cs).value;
    assert cs[s.data.idx].cands.len == 1;
  }

  /** Unfilling cell i empties it and keeps the value of every other cell. */
  lemma UnfillOther(cs: seq<Cell>, i: int, v: int, idxs: seq<int>, j: int)
    requires Cells81(cs) && 0 <= i < 81 && 1 <= v <= 9 && InGrid(idxs) && 0 <= j < 81 && j != i
    ensures UnfillSpec(cs, i, v, idxs)[i].value == 0
    ensures UnfillSpec(cs, i, v, idxs)[j].value == cs[j].value
  {
    UnfillSpecFacts(cs, i, v, idxs);
  }

  /**
   * As intended, undo after adding a step found on a grid (any but a hidden
   * single) reverts that step, the entry just below the cursor, and gives
   * the grid back, whatever entries came before.
   */
  lemma UndoLastRestores(cs: seq<Cell>, t: Technique, earlier: seq<Step>)
    requires Cells81(cs) && Coherent(cs) && Scan(cs, t).Some?
    requires t != TechHiddenSingle
    ensures var s := Scan(cs, t).value;
      var steps := earlier + [s];
      Fits(s) && steps[|steps| - 1] == s &&
      RevertSpec(ApplySpec(cs, s), steps[|steps| - 1]) == cs
  {
    ApplyRevert(cs, t);
  }
}
