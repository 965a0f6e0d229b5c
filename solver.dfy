// The solver (src/solver.c): solver_next_step tries the techniques of a
// table in order and reports the first step found; solver_apply_step
// performs a step on the grid by a switch on its technique tag.  The table
// of scanner functions is modelled as a sequence of technique tags, each tag
// standing for the scanner of that name; solver_revert_step, which the undo
// of the history calls, is modelled as the revert of the step's family.

module Solver {
  import opened CandSets
  import opened Cells
  import opened Grids
  import opened Search
  import opened CellLists
  import opened Steps
  import opened CellEdits
  import opened Unfills
  import NakedSingles
  import HiddenSingles
  import NakedSets
  import HiddenSets
  import PointingSets
  import BasicFish

  /** SolveStatus. */
  datatype SolveStatus = Ongoing | Complete | Stuck

  /** The techniques array of techniques.h, the one solver.c is built with. */
  const HeaderTable: seq<Technique> := [
    TechNakedSingle, TechHiddenSingle, TechNakedPair,
    TechHiddenPair, TechNakedTriple, TechHiddenTriple,
    TechNakedQuad, TechHiddenQuad, TechPointingSet]

  /** The techniques array of registry.c. */
  const RegistryTable: seq<Technique> := [
    TechNakedSingle, TechHiddenSingle, TechNakedPair,
    TechHiddenPair, TechNakedTriple, TechHiddenTriple,
    TechNakedQuad, TechHiddenQuad, TechPointingSet,
    TechXWing, TechSwordfish, TechJellyfish]

  /** NUM_TECHNIQUES of step.h: the bound of the loop in solver_next_step. */
  const NumTechniques := 8

  /** The entries solver_next_step visits: the first NUM_TECHNIQUES of the header table. */
  const SolverTable: seq<Technique> := HeaderTable[..NumTechniques]

  // ------------------------------------------------------------ scanners

  /** The outcome of the scanner a tag stands for. */
  function Scan(cs: seq<Cell>, t: Technique): Option<Step>
    requires Cells81(cs)
  {
    match t
    case TechNakedSingle => NakedSingles.NakedSingleOf(cs)
    case TechHiddenSingle => HiddenSingles.HiddenSingleOf(cs)
    case TechNakedPair => NakedSets.SizedOf(cs, 2)
    case TechNakedTriple => NakedSets.SizedOf(cs, 3)
    case TechNakedQuad => NakedSets.SizedOf(cs, 4)
    case TechHiddenPair => HiddenSets.SizedOf(cs, 2)
    case TechHiddenTriple => HiddenSets.SizedOf(cs, 3)
    case TechHiddenQuad => HiddenSets.SizedOf(cs, 4)
    case TechPointingSet => PointingSets.PointingSetOf(cs)
    case TechXWing => BasicFish.FishOfSize(cs, 2)
    case TechSwordfish => BasicFish.FishOfSize(cs, 3)
    case TechJellyfish => BasicFish.FishOfSize(cs, 4)
  }

  /** The call techniques[i](grid, out_step), for the scanner entry i names. */
  method TryTechnique(g: Grid, t: Technique) returns (r: Option<Step>)
    requires g.Valid()
    ensures r == Scan(g.cells[..], t)
  {
    match t
    case TechNakedSingle => r := NakedSingles.NakedSingle(g);
    case TechHiddenSingle => r := HiddenSingles.HiddenSingle(g);
    case TechNakedPair => r := NakedSets.NakedNSet(g, 2);
    case TechNakedTriple => r := NakedSets.NakedNSet(g, 3);
    case TechNakedQuad => r := NakedSets.NakedNSet(g, 4);
    case TechHiddenPair => r := HiddenSets.HiddenNSet(g, 2);
    case TechHiddenTriple => r := HiddenSets.HiddenNSet(g, 3);
    case TechHiddenQuad => r := HiddenSets.HiddenNSet(g, 4);
    case TechPointingSet => r := PointingSets.PointingSet(g);
    case TechXWing => r := BasicFish.NFish(g, 2);
    case TechSwordfish => r := BasicFish.NFish(g, 3);
    case TechJellyfish => r := BasicFish.NFish(g, 4);
  }

  /** The record a step of tag t carries, with its fields in range. */
  predicate Fits(s: Step)
  {
    match s.tech
    case TechNakedSingle => NakedSingles.WellFormed(s)
    case TechHiddenSingle => HiddenSingles.WellFormed(s)
    case TechNakedPair | TechNakedTriple | TechNakedQuad => NakedSets.WellFormed(s)
    case TechHiddenPair | TechHiddenTriple | TechHiddenQuad => HiddenSets.WellFormed(s)
    case TechPointingSet => PointingSets.WellFormed(s)
    case TechXWing | TechSwordfish | TechJellyfish => BasicFish.WellFormed(s)
  }

  /**
   * Every step a scanner finds carries the scanner's own tag and a record
   * that fits it.  For the naked-set scanners this is the intended tag,
   * which they do not write; StaleNakedTag gives the tag as written.
   */
  lemma ScanTagged(cs: seq<Cell>, t: Technique)
    requires Cells81(cs) && Scan(cs, t).Some?
    ensures Scan(cs, t).value.tech == t && Fits(Scan(cs, t).value)
  {
    match t
    case TechNakedSingle => SinglesTagged(cs);
    case TechHiddenSingle => SinglesTagged(cs);
    case TechNakedPair => NakedSizedFits(cs, 2);
    case TechNakedTriple => NakedSizedFits(cs, 3);
    case TechNakedQuad => NakedSizedFits(cs, 4);
    case TechHiddenPair => HiddenSizedFits(cs, 2);
    case TechHiddenTriple => HiddenSizedFits(cs, 3);
    case TechHiddenQuad => HiddenSizedFits(cs, 4);
    case TechPointingSet => PointingTagged(cs);
    case TechXWing => FishHeld(cs, 2);
    case TechSwordfish => FishHeld(cs, 3);
    case TechJellyfish => FishHeld(cs, 4);
  }

  /** The steps of the two single scanners carry their tags and fit them. */
  lemma SinglesTagged(cs: seq<Cell>)
    requires Cells81(cs)
    ensures var r := NakedSingles.NakedSingleOf(cs);
      r.Some? ==> r.value.tech == TechNakedSingle && NakedSingles.WellFormed(r.value)
    ensures var r := HiddenSingles.HiddenSingleOf(cs);
      r.Some? ==> r.value.tech == TechHiddenSingle && HiddenSingles.WellFormed(r.value)
  {
    if NakedSingles.NakedSingleOf(cs).Some? {
      NakedSingles.NakedSingleFound(cs);
    }
    if HiddenSingles.HiddenSingleOf(cs).Some? {
      HiddenSingles.HiddenSingleFound(cs);
      var s := HiddenSingles.HiddenSingleOf(cs).value;
      PeerListFacts(s.data.idx);
    }
  }

  /** A pointing-set step carries its tag and fits it. */
  lemma PointingTagged(cs: seq<Cell>)
    requires Cells81(cs) && PointingSets.PointingSetOf(cs).Some?
    ensures var s := PointingSets.PointingSetOf(cs).value;
      s.tech == TechPointingSet && PointingSets.WellFormed(s)
  {
    PointingSets.PointingSetFound(cs);
  }

  /** The unit type whose search produced the step of a naked or hidden set scanner. */
  function FirstUnit<T>(row: Option<T>, col: Option<T>): UnitType
  {
    if row.Some? then Row else if col.Some? then Col else Box
  }

  /** A naked set of size n: tagged by its size (the intended tag), with removals that undo exactly. */
  lemma NakedSizedFits(cs: seq<Cell>, n: int)
    requires Cells81(cs) && 2 <= n <= 4 && NakedSets.SizedOf(cs, n).Some?
    ensures var s := NakedSets.SizedOf(cs, n).value;
      s.tech == NakedSetTech(n) && NakedSets.WellFormed(s) &&
      AddCandsEach(RemoveCandsAll(cs, s.data.removalIdxs, s.data.setCands, |s.data.removalIdxs|),
                   s.data.removalIdxs, s.data.removedCands, |s.data.removalIdxs|) == cs
  {
    var t := FirstUnit(NakedSets.UnitsOf(cs, n, Row), NakedSets.UnitsOf(cs, n, Col));
    assert NakedSets.SizedOf(cs, n) == NakedSets.UnitsOf(cs, n, t);
    NakedSets.UnitsOfFound(cs, n, t);
    var d := NakedSets.SizedOf(cs, n).value.data;
    RemoveCandsRevert(cs, d.removalIdxs, d.removalIdxs, d.setCands, d.removedCands);
  }

  /** A hidden set of size n: tagged by its size, with removals that undo the intended apply exactly. */
  lemma HiddenSizedFits(cs: seq<Cell>, n: int)
    requires Cells81(cs) && 2 <= n <= 4 && HiddenSets.SizedOf(cs, n).Some?
    ensures var s := HiddenSets.SizedOf(cs, n).value;
      s.tech == HiddenSetTech(n) && HiddenSets.WellFormed(s) &&
      AddCandsEach(RemoveCandsAll(cs, s.data.idxs, Difference(Full(), s.data.cands), |s.data.idxs|),
                   s.data.removalIdxs, s.data.removedCands, |s.data.removalIdxs|) == cs
  {
    var t := FirstUnit(HiddenSets.UnitsOf(cs, n, Row), HiddenSets.UnitsOf(cs, n, Col));
    assert HiddenSets.SizedOf(cs, n) == HiddenSets.UnitsOf(cs, n, t);
    HiddenSets.UnitsOfFound(cs, n, t);
    var d := HiddenSets.SizedOf(cs, n).value.data;
    var others := Difference(Full(), d.cands);
    forall k | 0 <= k < |d.removedCands|
      ensures Valid(d.removedCands[k])
    {
      assert d.removedCands[k] == Intersect(cs[d.removalIdxs[k]].cands, others);
    }
    RemoveCandsRevert(cs, d.idxs, d.removalIdxs, others, d.removedCands);
  }

  // ----------------------------------------------------- solver_next_step

  /** grid_is_solved, in terms of the cells: no cell is empty. */
  predicate Solved(cs: seq<Cell>)
    requires |cs| == 81
  {
    forall i :: 0 <= i < 81 ==> !IsEmpty(cs[i])
  }

  /** The scanner outcome of table entry k. */
  function TableProbe(cs: seq<Cell>, table: seq<Technique>): int -> Option<Step>
    requires Cells81(cs)
  {
    k => if 0 <= k < |table| then Scan(cs, table[k]) else None
  }

  /** What solver_next_step reports on a grid with the given cells, and the step it fills in. */
  function NextOf(cs: seq<Cell>, table: seq<Technique>): (SolveStatus, Option<Step>)
    requires Cells81(cs)
  {
    if |table| == 0 then (Stuck, None)
    else if Solved(cs) then (Complete, None)
    else
      match FirstSome(TableProbe(cs, table), 0, |table|)
      case None => (Stuck, None)
      case Some(s) => (Ongoing, Some(s))
  }

  /** solver_next_step: is the grid solved, else does the next technique in table order match. */
  method NextStep(g: Grid, table: seq<Technique>) returns (status: SolveStatus, step: Option<Step>)
    requires g.Valid() && g.Counted()
    ensures (status, step) == NextOf(g.cells[..], table)
  {
    ghost var cs := g.cells[..];
    ghost var f := TableProbe(cs, table);
    var i := 0;
    while i < |table|
      invariant 0 <= i <= |table|
      invariant FirstSome(f, i, |table|) == FirstSome(f, 0, |table|)
      invariant 0 < i ==> !Solved(cs)
      invariant g.cells[..] == cs
    {
      var solved := g.IsSolved();
      if solved {
        return Complete, None;
      }
      step := TryTechnique(g, table[i]);
      assert f(i) == step;
      if step.Some? {
        return Ongoing, step;
      }
      i := i + 1;
    }
    return Stuck, None;
  }

  /** COMPLETE exactly when the table has an entry and no cell is empty. */
  lemma NextComplete(cs: seq<Cell>, table: seq<Technique>)
    requires Cells81(cs)
    ensures NextOf(cs, table).0 == Complete <==> |table| > 0 && Solved(cs)
    ensures NextOf(cs, table).0 == Complete ==> NextOf(cs, table).1.None?
  {
  }

  /** STUCK exactly when the table is empty, or the grid is unsolved and no entry matches. */
  lemma NextStuck(cs: seq<Cell>, table: seq<Technique>)
    requires Cells81(cs)
    ensures NextOf(cs, table).0 == Stuck <==>
      |table| == 0 || (!Solved(cs) && forall k :: 0 <= k < |table| ==> Scan(cs, table[k]).None?)
  {
    var f := TableProbe(cs, table);
    FirstSomeNone(f, 0, |table|);
    assert forall k :: 0 <= k < |table| ==> f(k) == Scan(cs, table[k]);
  }

  /**
   * ONGOING: the step is what the first matching entry found, every
   * earlier entry found nothing, and the step carries that entry's tag
   * (for a naked-set entry the intended tag; see StaleNakedTag).
   */
  lemma NextOngoing(cs: seq<Cell>, table: seq<Technique>) returns (k: int)
    requires Cells81(cs) && NextOf(cs, table).0 == Ongoing
    ensures 0 <= k < |table| && !Solved(cs)
    ensures NextOf(cs, table).1 == Scan(cs, table[k]) && NextOf(cs, table).1.Some?
    ensures forall m :: 0 <= m < k ==> Scan(cs, table[m]).None?
    ensures NextOf(cs, table).1.value.tech == table[k] && Fits(NextOf(cs, table).1.value)
  {
    var f := TableProbe(cs, table);
    k := FirstSomeSome(f, 0, |table|);
    assert f(k) == Scan(cs, table[k]);
    forall m | 0 <= m < k
      ensures Scan(cs, table[m]).None?
    {
      assert f(m) == Scan(cs, table[m]);
    }
    ScanTagged(cs, table[k]);
  }

  /** An unsolved grid on which entry k matches first gives ONGOING with entry k's step. */
  lemma NextFirst(cs: seq<Cell>, table: seq<Technique>, k: int)
    requires Cells81(cs) && !Solved(cs) && 0 <= k < |table| && Scan(cs, table[k]).Some?
    requires forall m :: 0 <= m < k ==> Scan(cs, table[m]).None?
    ensures NextOf(cs, table) == (Ongoing, Scan(cs, table[k]))
  {
    var f := TableProbe(cs, table);
    assert f(k) == Scan(cs, table[k]);
    forall m | 0 <= m < k
      ensures f(m).None?
    {
      assert f(m) == Scan(cs, table[m]);
    }
    FirstSomeAt(f, 0, |table|, k);
  }

  /** The entries the loop visits: none is a pointing set or a fish. */
  lemma SolverTableTags()
    ensures |SolverTable| == NumTechniques
    ensures forall t :: t in SolverTable ==> t !in {TechPointingSet, TechXWing, TechSwordfish, TechJellyfish}
  {
    assert SolverTable == [TechNakedSingle, TechHiddenSingle, TechNakedPair, TechHiddenPair,
                           TechNakedTriple, TechHiddenTriple, TechNakedQuad, TechHiddenQuad];
  }

  /**
   * The loop bound NUM_TECHNIQUES stops short of the last header entry, so
   * the solver as built never reports a pointing set, X-Wing, Swordfish or
   * Jellyfish step.
   */
  lemma SolverTableSkips(cs: seq<Cell>)
    requires Cells81(cs) && NextOf(cs, SolverTable).0 == Ongoing
    ensures NextOf(cs, SolverTable).1.value.tech !in
      {TechPointingSet, TechXWing, TechSwordfish, TechJellyfish}
  {
    var table := SolverTable;
    var k := NextOngoing(cs, table);
    SolverTableTags();
    assert table[k] in table;
  }

  // ------------------------------------------ the tag out_step carries

  /** naked_pair, naked_triple and naked_quad: the scanners that write no tag. */
  predicate WritesNoTag(t: Technique)
  {
    t == TechNakedPair || t == TechNakedTriple || t == TechNakedQuad
  }

  /**
   * The tag out_step holds once entries 0..k of the table have run, as
   * written.  All entries share one out_step, and every scanner but the
   * three naked-set ones writes its own tag on entry, whether or not it
   * then finds a step.  None when no entry up to k writes a tag: the tag is
   * then whatever the caller's step held.
   */
  function TagAfter(table: seq<Technique>, k: int): (r: Option<Technique>)
    requires 0 <= k < |table|
    ensures !WritesNoTag(table[k]) ==> r == Some(table[k])
    ensures r.Some? ==> !WritesNoTag(r.value) && exists j :: 0 <= j <= k && table[j] == r.value
    ensures r.None? <==> forall j :: 0 <= j <= k ==> WritesNoTag(table[j])
    decreases k
  {
    if !WritesNoTag(table[k]) then Some(table[k])
    else if k == 0 then None
    else TagAfter(table, k - 1)
  }

  /**
   * As written, a naked pair, triple or quad that solver_next_step reports
   * carries the tag of the entry just before it, the hidden single, pair or
   * triple scanner, which ran and found nothing: never a naked-set tag, and
   * so not the tag of the record it holds.
   */
  lemma StaleNakedTag(cs: seq<Cell>, k: int)
    requires Cells81(cs) && !Solved(cs) && 0 <= k < |SolverTable| && WritesNoTag(SolverTable[k])
    requires Scan(cs, SolverTable[k]).Some?
    requires forall m :: 0 <= m < k ==> Scan(cs, SolverTable[m]).None?
    ensures NextOf(cs, SolverTable) == (Ongoing, Scan(cs, SolverTable[k]))
    ensures 0 < k && TagAfter(SolverTable, k) == Some(SolverTable[k - 1])
    ensures (SolverTable[k], SolverTable[k - 1]) in
      {(TechNakedPair, TechHiddenSingle), (TechNakedTriple, TechHiddenPair), (TechNakedQuad, TechHiddenTriple)}
    ensures TagAfter(SolverTable, k) != Some(Scan(cs, SolverTable[k]).value.tech)
  {
    NextFirst(cs, SolverTable, k);
    ScanTagged(cs, SolverTable[k]);
    StaleEntry(k);
  }

  /** In the solver's table each naked-set entry follows a hidden entry, whose tag it inherits. */
  lemma StaleEntry(k: int)
    requires 0 <= k < |SolverTable| && WritesNoTag(SolverTable[k])
    ensures 0 < k && TagAfter(SolverTable, k) == Some(SolverTable[k - 1])
    ensures (SolverTable[k], SolverTable[k - 1]) in
      {(TechNakedPair, TechHiddenSingle), (TechNakedTriple, TechHiddenPair), (TechNakedQuad, TechHiddenTriple)}
  {
    assert SolverTable == [TechNakedSingle, TechHiddenSingle, TechNakedPair, TechHiddenPair,
                           TechNakedTriple, TechHiddenTriple, TechNakedQuad, TechHiddenQuad];
  }

  // ---------------------------------------------------- solver_apply_step

  /** The tags of the single-value techniques, whose apply fills a cell. */
  predicate IsSingle(t: Technique)
  {
    t == TechNakedSingle || t == TechHiddenSingle
  }

  /**
   * The grid after solver_apply_step, by tag.  A hidden set's cells lose
   * their candidates outside the set, the intended apply; the overwrite the
   * source writes is HiddenSets.HiddenSetApplyAsWritten.
   */
  function ApplySpec(cs: seq<Cell>, s: Step): (r: seq<Cell>)
    requires Cells81(cs) && Fits(s)
    ensures Cells81(r)
  {
    match s.tech
    case TechNakedSingle | TechHiddenSingle =>
      FillSpecFacts(cs, s.data.idx, s.data.value);
      FillSpec(cs, s.data.idx, s.data.value)
    case TechNakedPair | TechNakedTriple | TechNakedQuad =>
      RemoveCandsAll(cs, s.data.removalIdxs, s.data.setCands, |s.data.removalIdxs|)
    case TechHiddenPair | TechHiddenTriple | TechHiddenQuad =>
      RemoveCandsAll(cs, s.data.idxs, Difference(Full(), s.data.cands), |s.data.idxs|)
    case _ => cs
  }

  /** solver_apply_step: fill the cell of a single, edit the candidates of a set, else nothing. */
  method ApplyStep(g: Grid, s: Step)
    requires g.Valid() && Fits(s)
    modifies g, g.cells
    ensures g.Valid() && g.cells == old(g.cells) && g.peers == old(g.peers)
    ensures g.cells[..] == ApplySpec(old(g.cells[..]), s)
    ensures g.emptyCells == old(g.emptyCells) - (if IsSingle(s.tech) then 1 else 0)
  {
    match s.tech
    case TechNakedSingle =>
      g.FillCell(s.data.idx, s.data.value);
    case TechHiddenSingle =>
      g.FillCell(s.data.idx, s.data.value);
    case TechNakedPair | TechNakedTriple | TechNakedQuad =>
      RemoveCandsFrom(g, s.data.removalIdxs, s.data.setCands);
    case TechHiddenPair | TechHiddenTriple | TechHiddenQuad =>
      HiddenSets.HiddenSetApply(g, s);
    case _ =>
  }

  /** The cells solver_apply_step may write for a step. */
  ghost predicate Touches(s: Step, j: int)
    requires Fits(s) && 0 <= j < 81
  {
    match s.tech
    case TechNakedSingle | TechHiddenSingle => j == s.data.idx || Peers(s.data.idx, j)
    case TechNakedPair | TechNakedTriple | TechNakedQuad => j in s.data.removalIdxs
    case TechHiddenPair | TechHiddenTriple | TechHiddenQuad => j in s.data.idxs
    case _ => false
  }

  /**
   * Applying a step changes no cell it does not touch, and changes no value
   * but that of a single's own cell, which takes the single's value.
   */
  lemma ApplyFrame(cs: seq<Cell>, s: Step)
    requires Cells81(cs) && Fits(s)
    ensures forall j :: 0 <= j < 81 && !Touches(s, j) ==> ApplySpec(cs, s)[j] == cs[j]
    ensures forall j :: 0 <= j < 81 && !(IsSingle(s.tech) && j == s.data.idx) ==>
      ApplySpec(cs, s)[j].value == cs[j].value
    ensures IsSingle(s.tech) ==> ApplySpec(cs, s)[s.data.idx].value == s.data.value
  {
    var r := ApplySpec(cs, s);
    forall j | 0 <= j < 81
      ensures !Touches(s, j) ==> r[j] == cs[j]
      ensures !(IsSingle(s.tech) && j == s.data.idx) ==> r[j].value == cs[j].value
    {
      match s.tech
      case TechNakedSingle | TechHiddenSingle =>
        FillSpecFacts(cs, s.data.idx, s.data.value);
      case TechNakedPair | TechNakedTriple | TechNakedQuad =>
        var rem := s.data.removalIdxs;
        RemoveCandsAllAt(cs, rem, s.data.setCands, |rem|, j);
        assert rem[..|rem|] == rem;
      case TechHiddenPair | TechHiddenTriple | TechHiddenQuad =>
        var idxs := s.data.idxs;
        RemoveCandsAllAt(cs, idxs, Difference(Full(), s.data.cands), |idxs|, j);
        assert idxs[..|idxs|] == idxs;
      case _ =>
    }
    if IsSingle(s.tech) {
      FillSpecFacts(cs, s.data.idx, s.data.value);
    }
  }

  // --------------------------------------------------- solver_revert_step

  /** The grid after the revert of the step's family. */
  function RevertSpec(cs: seq<Cell>, s: Step): (r: seq<Cell>)
    requires Cells81(cs) && Fits(s)
    ensures Cells81(r)
  {
    match s.tech
    case TechNakedSingle =>
      UnfillSpecFacts(cs, s.data.idx, s.data.value, s.data.removalIdxs);
      UnfillSpec(cs, s.data.idx, s.data.value, s.data.removalIdxs)
    case TechHiddenSingle =>
      UnfillSpecFacts(cs, s.data.idx, s.data.value, s.data.peerIdxs);
      UnfillSpec(cs, s.data.idx, s.data.value, s.data.peerIdxs)
    case TechNakedPair | TechNakedTriple | TechNakedQuad
       | TechHiddenPair | TechHiddenTriple | TechHiddenQuad =>
      AddCandsEach(cs, s.data.removalIdxs, s.data.removedCands, |s.data.removalIdxs|)
    case TechPointingSet | TechXWing | TechSwordfish | TechJellyfish =>
      AddCandAll(cs, s.data.removalIdxs, s.data.value, |s.data.removalIdxs|)
  }

  /** solver_revert_step: the revert of the step's family, as the technique_ops table pairs them. */
  method RevertStep(g: Grid, s: Step)
    requires g.Valid() && Fits(s)
    modifies g`emptyCells, g.cells
    ensures g.Valid()
    ensures g.cells[..] == RevertSpec(old(g.cells[..]), s)
    ensures g.emptyCells == old(g.emptyCells) + (if IsSingle(s.tech) then 1 else 0)
  {
    match s.tech
    case TechNakedSingle =>
      NakedSingles.NakedSingleRevert(g, s);
    case TechHiddenSingle =>
      HiddenSingles.HiddenSingleRevert(g, s);
    case TechNakedPair | TechNakedTriple | TechNakedQuad =>
      NakedSets.NakedSetRevert(g, s);
    case TechHiddenPair | TechHiddenTriple | TechHiddenQuad =>
      HiddenSets.HiddenSetRevert(g, s);
    case TechPointingSet =>
      PointingSets.PointingSetRevert(g, s);
    case TechXWing | TechSwordfish | TechJellyfish =>
      BasicFish.BasicFishRevert(g, s);
  }

  /** Adding v to cells that all hold it already changes nothing. */
  lemma AddCandAllHeld(cs: seq<Cell>, idxs: seq<int>, v: int)
    requires Cells81(cs) && InGrid(idxs) && 1 <= v <= 9
    requires forall k :: 0 <= k < |idxs| ==> HasCand(cs[idxs[k]], v)
    ensures AddCandAll(cs, idxs, v, |idxs|) == cs
  {
    var r := AddCandAll(cs, idxs, v, |idxs|);
    assert idxs[..|idxs|] == idxs;
    forall j | 0 <= j < 81
      ensures r[j] == cs[j]
    {
      AddCandAllAt(cs, idxs, v, |idxs|, j);
      if j in idxs {
        var k :| 0 <= k < |idxs| && idxs[k] == j;
        Extensionality(AddCand(cs[j], v).cands, cs[j].cands);
      }
    }
  }

  /**
   * Revert after apply gives back the grid a step was scanned from, for a
   * naked single, a naked set, a hidden set (with the intended apply), a
   * pointing set and a fish.  (The apply of the
   * last two is the default branch, and their revert re-adds a value every
   * removal cell still holds.)
   */
  lemma ApplyRevert(cs: seq<Cell>, t: Technique)
    requires Cells81(cs) && Coherent(cs) && Scan(cs, t).Some?
    requires t != TechHiddenSingle
    ensures Fits(Scan(cs, t).value)
    ensures RevertSpec(ApplySpec(cs, Scan(cs, t).value), Scan(cs, t).value) == cs
  {
    ScanTagged(cs, t);
    var s := Scan(cs, t).value;
    match t
    case TechNakedSingle =>
      NakedSingles.NakedSingleRoundTrip(cs);
    case TechNakedPair => NakedSizedFits(cs, 2);
    case TechNakedTriple => NakedSizedFits(cs, 3);
    case TechNakedQuad => NakedSizedFits(cs, 4);
    case TechHiddenPair => HiddenSizedFits(cs, 2);
    case TechHiddenTriple => HiddenSizedFits(cs, 3);
    case TechHiddenQuad => HiddenSizedFits(cs, 4);
    case TechPointingSet =>
      PointingSets.PointingSetFound(cs);
      forall k | 0 <= k < |s.data.removalIdxs|
        ensures HasCand(cs[s.data.removalIdxs[k]], s.data.value)
      {
        assert s.data.removalIdxs[k] in s.data.removalIdxs;
      }
      AddCandAllHeld(cs, s.data.removalIdxs, s.data.value);
    case TechXWing => FishHeld(cs, 2);
    case TechSwordfish => FishHeld(cs, 3);
    case TechJellyfish => FishHeld(cs, 4);
  }

  /** Re-adding a fish's value to its removal cells changes nothing. */
  lemma FishHeld(cs: seq<Cell>, n: int)
    requires Cells81(cs) && 2 <= n <= 4 && BasicFish.FishOfSize(cs, n).Some?
    ensures var s := BasicFish.FishOfSize(cs, n).value;
      s.tech == FishTech(n) && BasicFish.WellFormed(s)
    ensures var d := BasicFish.FishOfSize(cs, n).value.data;
      d.BasicFishStep? && 1 <= d.value <= 9 && InGrid(d.removalIdxs) &&
      AddCandAll(cs, d.removalIdxs, d.value, |d.removalIdxs|) == cs
  {
    BasicFish.FishOfSizeFound(cs, n);
    var d := BasicFish.FishOfSize(cs, n).value.data;
    forall k | 0 <= k < |d.removalIdxs|
      ensures HasCand(cs[d.removalIdxs[k]], d.value)
    {
      assert d.removalIdxs[k] in d.removalIdxs;
    }
    AddCandAllHeld(cs, d.removalIdxs, d.value);
  }
}
