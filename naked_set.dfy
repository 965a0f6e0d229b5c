// The naked-set technique (src/techniques/naked_set.c): n cells of one unit
// whose candidates number n in all; those candidates can go from every cell
// that is a peer of all n.  Pairs are tried before triples before quads;
// within a size, rows, then columns, then boxes; then ascending unit index;
// then combination order.

module NakedSets {
  import opened CandSets
  import opened Cells
  import opened Grids
  import opened Search
  import opened CellLists
  import opened Combinations
  import opened Steps
  import opened CellEdits

  /** The unit's cells that can belong to a naked set of size n: one to n candidates. */
  function Possible(cs: seq<Cell>, n: int, t: UnitType, u: int): (r: seq<int>)
    requires 0 <= u < 9
    ensures InGrid(r) && Ascending(r) && |r| <= 9
    ensures forall j :: j in r <==> j in UnitIdxs(t, u) && 0 <= j < |cs| && 1 <= cs[j].cands.len <= n
  {
    UnitIdxsFacts(t, u);
    CellsWithNCandsMaxFacts(cs, UnitIdxs(t, u), n);
    FilterAscendingUnit(t, u);
    CellsWithNCandsMax(cs, UnitIdxs(t, u), n)
  }

  /** Combination m of the possible cells (the m-th n-subset in lexicographic order). */
  function Comb(cs: seq<Cell>, n: int, t: UnitType, u: int, m: int): (r: seq<int>)
    requires 0 <= u < 9 && 2 <= n <= |Possible(cs, n, t, u)|
    requires 0 <= m < Binom(|Possible(cs, n, t, u)|, n)
    ensures |r| == n && InGrid(r) && Ascending(r)
  {
    var p := Possible(cs, n, t, u);
    PickFacts(p, n, m);
    Pick(p, Tuples(|p|, n)[m])
  }

  /** The step naked_n_set_unit records for a combination, if it is a naked set with removals. */
  function SetStep(cs: seq<Cell>, n: int, t: UnitType, u: int, comb: seq<int>): Option<Step>
    requires Cells81(cs) && 0 <= u < 9 && |comb| > 0 && InGrid(comb)
  {
    var combCands := CellsCandUnion(cs, comb);
    if combCands.len != n then None
    else
      CommonPeersFacts(comb);
      var removals := CellsWithRemovals(cs, CommonPeers(comb), combCands);
      if |removals.0| == 0 then None
      else Some(Step(NakedSetTech(n), NakedSetStep(n, comb, combCands, removals.0, removals.1, t, u)))
  }

  function CombProbe(cs: seq<Cell>, n: int, t: UnitType, u: int): int -> Option<Step>
    requires Cells81(cs) && 2 <= n <= 4 && 0 <= u < 9 && n <= |Possible(cs, n, t, u)|
  {
    m => if 0 <= m < Binom(|Possible(cs, n, t, u)|, n) then SetStep(cs, n, t, u, Comb(cs, n, t, u, m)) else None
  }

  /** The first combination of unit u, in combination order, that is a naked set with removals. */
  function UnitAt(cs: seq<Cell>, n: int, t: UnitType, u: int): Option<Step>
    requires Cells81(cs) && 2 <= n <= 4 && 0 <= u < 9
  {
    var p := Possible(cs, n, t, u);
    if |p| < n then None
    else FirstSome(CombProbe(cs, n, t, u), 0, Binom(|p|, n))
  }

  function UnitProbe(cs: seq<Cell>, n: int, t: UnitType): int -> Option<Step>
    requires Cells81(cs) && 2 <= n <= 4
  {
    u => if 0 <= u < 9 then UnitAt(cs, n, t, u) else None
  }

  /** naked_n_set_unit: the first unit of type t, by index, with a naked set of size n. */
  function UnitsOf(cs: seq<Cell>, n: int, t: UnitType): Option<Step>
    requires Cells81(cs) && 2 <= n <= 4
  {
    FirstSome(UnitProbe(cs, n, t), 0, 9)
  }

  /** naked_pair, naked_triple, naked_quad: rows, then columns, then boxes. */
  function SizedOf(cs: seq<Cell>, n: int): Option<Step>
    requires Cells81(cs) && 2 <= n <= 4
  {
    OrElse(UnitsOf(cs, n, Row), OrElse(UnitsOf(cs, n, Col), UnitsOf(cs, n, Box)))
  }

  /** naked_set: pairs, then triples, then quads. */
  function NakedSetOf(cs: seq<Cell>): Option<Step>
    requires Cells81(cs)
  {
    OrElse(SizedOf(cs, 2), OrElse(SizedOf(cs, 3), SizedOf(cs, 4)))
  }

  // ------------------------------------------------------------- scanner

  /** The body of naked_n_set_unit for one unit: the loop over its combinations. */
  method UnitCombs(cs: seq<Cell>, n: int, t: UnitType, u: int, possible: seq<int>) returns (r: Option<Step>)
    requires Cells81(cs) && 2 <= n <= 4 && 0 <= u < 9
    requires possible == Possible(cs, n, t, u) && n <= |possible|
    ensures r == UnitAt(cs, n, t, u)
  {
    var combs := GenerateCombinations(possible, n);
    var ci := 0;
    while ci < |combs|
      invariant 0 <= ci <= |combs|
      invariant FirstSome(CombProbe(cs, n, t, u), ci, |combs|) == UnitAt(cs, n, t, u)
    {
      var comb := combs[ci];
      assert comb == Comb(cs, n, t, u, ci);
      assert CombProbe(cs, n, t, u)(ci) == SetStep(cs, n, t, u, comb);
      var combCands := CellsCandUnion(cs, comb);
      if combCands.len == n {
        CommonPeersFacts(comb);
        var common := CommonPeers(comb);
        var removals := CellsWithRemovals(cs, common, combCands);
        if |removals.0| != 0 {
          r := Some(Step(NakedSetTech(n), NakedSetStep(n, comb, combCands, removals.0, removals.1, t, u)));
          return;
        }
      }
      ci := ci + 1;
    }
    r := None;
  }

  /** naked_n_set_unit: loops over the units and the combinations of their possible cells. */
  method NakedNSetUnit(g: Grid, n: int, t: UnitType) returns (r: Option<Step>)
    requires g.Valid() && 2 <= n <= 4
    ensures r == UnitsOf(g.cells[..], n, t)
  {
    var cs := g.cells[..];
    var u := 0;
    while u < 9
      invariant 0 <= u <= 9
      invariant FirstSome(UnitProbe(cs, n, t), u, 9) == UnitsOf(cs, n, t)
    {
      assert UnitProbe(cs, n, t)(u) == UnitAt(cs, n, t, u);
      var possible := CellsWithNCandsMax(cs, UnitIdxs(t, u), n);
      assert possible == Possible(cs, n, t, u);
      if |possible| >= n {
        r := UnitCombs(cs, n, t, u, possible);
        if r.Some? {
          return;
        }
      }
      u := u + 1;
    }
    r := None;
  }

  /** naked_pair, naked_triple and naked_quad: size n in rows, then columns, then boxes. */
  method NakedNSet(g: Grid, n: int) returns (r: Option<Step>)
    requires g.Valid() && 2 <= n <= 4
    ensures r == SizedOf(g.cells[..], n)
  {
    r := NakedNSetUnit(g, n, Row);
    if r.Some? {
      return;
    }
    r := NakedNSetUnit(g, n, Col);
    if r.Some? {
      return;
    }
    r := NakedNSetUnit(g, n, Box);
  }

  /** naked_set: pairs, then triples, then quads. */
  method NakedSet(g: Grid) returns (r: Option<Step>)
    requires g.Valid()
    ensures r == NakedSetOf(g.cells[..])
  {
    r := NakedNSet(g, 2);
    if r.Some? {
      return;
    }
    r := NakedNSet(g, 3);
    if r.Some? {
      return;
    }
    r := NakedNSet(g, 4);
  }

  // ------------------------------------------------------------ properties

  /** A combination is a naked set of size n with removals: n candidates in all, and some common peer holding one. */
  predicate IsNakedSet(cs: seq<Cell>, n: int, comb: seq<int>)
    requires |cs| == 81 && |comb| > 0 && InGrid(comb)
  {
    CellsCandUnion(cs, comb).len == n &&
    (CommonPeersFacts(comb);
     |CellsWithRemovals(cs, CommonPeers(comb), CellsCandUnion(cs, comb)).0| > 0)
  }

  /** The set cells of a step: n ascending cells of unit u, each with one to n candidates. */
  predicate SetCells(cs: seq<Cell>, n: int, t: UnitType, u: int, idxs: seq<int>)
    requires |cs| == 81
  {
    |idxs| == n && InGrid(idxs) && Ascending(idxs) &&
    forall k :: 0 <= k < |idxs| ==> UnitOf(t, idxs[k]) == u && 1 <= cs[idxs[k]].cands.len <= n
  }

  /** set is the union of the candidates of the listed cells. */
  ghost predicate UnionIs(cs: seq<Cell>, idxs: seq<int>, set_: CandSet)
    requires |cs| == 81 && InGrid(idxs)
  {
    Valid(set_) &&
    forall v :: 1 <= v <= 9 ==> (Has(set_, v) <==> exists k :: 0 <= k < |idxs| && HasCand(cs[idxs[k]], v))
  }

  /**
   * The removals: ascending, not empty, exactly the cells that are peers of
   * every set cell and share a candidate with set, each with what it shares.
   */
  ghost predicate RemovalsAre(cs: seq<Cell>, idxs: seq<int>, set_: CandSet, rem: seq<int>, removed: seq<CandSet>)
    requires |cs| == 81
  {
    |rem| > 0 && InGrid(rem) && Ascending(rem) &&
    (forall j :: j in rem <==> PeerOfAll(idxs, j) && Meets(cs[j].cands, set_)) &&
    (forall k :: 0 <= k < |idxs| ==> idxs[k] !in rem) &&
    |removed| == |rem| && forall k :: 0 <= k < |rem| ==> removed[k] == Intersect(cs[rem[k]].cands, set_)
  }

  /** Everything a naked-set step found in unit u of type t records. */
  ghost predicate Records(cs: seq<Cell>, n: int, t: UnitType, u: int, s: Step)
    requires |cs| == 81
  {
    s.tech == NakedSetTech(n) && s.data.NakedSetStep? &&
    s.data.setSize == n && s.data.unitType == t && s.data.unitIdx == u &&
    SetCells(cs, n, t, u, s.data.setIdxs) &&
    UnionIs(cs, s.data.setIdxs, s.data.setCands) && s.data.setCands.len == n &&
    RemovalsAre(cs, s.data.setIdxs, s.data.setCands, s.data.removalIdxs, s.data.removedCands)
  }

  /** A combination yields a step exactly when it is a naked set with removals. */
  lemma SetStepSome(cs: seq<Cell>, n: int, t: UnitType, u: int, comb: seq<int>)
    requires Cells81(cs) && 0 <= u < 9 && |comb| > 0 && InGrid(comb)
    ensures SetStep(cs, n, t, u, comb).Some? <==> IsNakedSet(cs, n, comb)
  {
  }

  /** The step of a naked set records its union and its removals. */
  lemma SetStepFound(cs: seq<Cell>, n: int, t: UnitType, u: int, comb: seq<int>)
    requires Cells81(cs) && 0 <= u < 9 && |comb| > 0 && InGrid(comb)
    requires SetStep(cs, n, t, u, comb).Some?
    ensures var d := SetStep(cs, n, t, u, comb).value.data;
      d.NakedSetStep? && d.setIdxs == comb &&
      UnionIs(cs, comb, d.setCands) && d.setCands.len == n &&
      RemovalsAre(cs, comb, d.setCands, d.removalIdxs, d.removedCands)
  {
    var S := CellsCandUnion(cs, comb);
    CellsCandUnionValid(cs, comb);
    CommonPeersFacts(comb);
    var common := CommonPeers(comb);
    CellsWithCandsSomeFacts(cs, common, S);
  }

  /** Combination m of unit u consists of possible cells of that unit. */
  lemma CombCells(cs: seq<Cell>, n: int, t: UnitType, u: int, m: int)
    requires |cs| == 81 && 0 <= u < 9 && 2 <= n <= |Possible(cs, n, t, u)|
    requires 0 <= m < Binom(|Possible(cs, n, t, u)|, n)
    ensures SetCells(cs, n, t, u, Comb(cs, n, t, u, m))
  {
    var p := Possible(cs, n, t, u);
    var c := Comb(cs, n, t, u, m);
    PickFacts(p, n, m);
    UnitIdxsFacts(t, u);
    forall k | 0 <= k < |c|
      ensures UnitOf(t, c[k]) == u && 1 <= cs[c[k]].cands.len <= n
    {
      assert c[k] in c;
      assert c[k] in UnitIdxs(t, u);
      var q :| 0 <= q < 9 && UnitIdxs(t, u)[q] == c[k];
    }
  }

  /** A step from unit u records a naked set of that unit. */
  lemma UnitAtFound(cs: seq<Cell>, n: int, t: UnitType, u: int)
    requires Cells81(cs) && 2 <= n <= 4 && 0 <= u < 9 && UnitAt(cs, n, t, u).Some?
    ensures Records(cs, n, t, u, UnitAt(cs, n, t, u).value)
  {
    var p := Possible(cs, n, t, u);
    var f := CombProbe(cs, n, t, u);
    var m := FirstSomeSome(f, 0, Binom(|p|, n));
    var comb := Comb(cs, n, t, u, m);
    assert f(m) == SetStep(cs, n, t, u, comb);
    CombCells(cs, n, t, u, m);
    SetStepFound(cs, n, t, u, comb);
  }

  /** A unit yields nothing exactly when no n-subset of its possible cells is a naked set with removals. */
  lemma UnitAtNone(cs: seq<Cell>, n: int, t: UnitType, u: int)
    requires Cells81(cs) && 2 <= n <= 4 && 0 <= u < 9
    ensures var p := Possible(cs, n, t, u);
      UnitAt(cs, n, t, u).None? <==>
      |p| < n || forall tup :: IsComb(tup, |p|, n, 0) ==> !IsNakedSet(cs, n, Pick(p, tup))
  {
    var p := Possible(cs, n, t, u);
    if |p| >= n {
      var f := CombProbe(cs, n, t, u);
      var L := Tuples(|p|, n);
      FirstSomeNone(f, 0, |L|);
      forall tup | IsComb(tup, |p|, n, 0)
        ensures UnitAt(cs, n, t, u).None? ==> !IsNakedSet(cs, n, Pick(p, tup))
      {
        TuplesComplete(|p|, n, tup);
        var m :| 0 <= m < |L| && L[m] == tup;
        assert f(m) == SetStep(cs, n, t, u, Comb(cs, n, t, u, m));
        PickFacts(p, n, m);
        SetStepSome(cs, n, t, u, Comb(cs, n, t, u, m));
      }
      if UnitAt(cs, n, t, u).Some? {
        var m := FirstSomeSome(f, 0, |L|);
        assert f(m) == SetStep(cs, n, t, u, Comb(cs, n, t, u, m));
        TuplesComplete(|p|, n, L[m]);
        PickFacts(p, n, m);
        SetStepSome(cs, n, t, u, Comb(cs, n, t, u, m));
      }
    }
  }

  /** A step from unit type t records a naked set of the first unit having one. */
  lemma UnitsOfFound(cs: seq<Cell>, n: int, t: UnitType)
    requires Cells81(cs) && 2 <= n <= 4 && UnitsOf(cs, n, t).Some?
    ensures var s := UnitsOf(cs, n, t).value;
      s.data.NakedSetStep? && 0 <= s.data.unitIdx < 9 && Records(cs, n, t, s.data.unitIdx, s) &&
      forall u :: 0 <= u < s.data.unitIdx ==> UnitAt(cs, n, t, u).None?
  {
    var f := UnitProbe(cs, n, t);
    var u := FirstSomeSome(f, 0, 9);
    assert f(u) == UnitAt(cs, n, t, u);
    UnitAtFound(cs, n, t, u);
    forall u' | 0 <= u' < u
      ensures UnitAt(cs, n, t, u').None?
    {
      assert f(u') == UnitAt(cs, n, t, u');
    }
  }

  /** A step from naked_set records a naked set of size 2, 3 or 4, the smallest size having one. */
  lemma NakedSetFound(cs: seq<Cell>)
    requires Cells81(cs) && NakedSetOf(cs).Some?
    ensures var s := NakedSetOf(cs).value;
      s.data.NakedSetStep? && 2 <= s.data.setSize <= 4 && 0 <= s.data.unitIdx < 9 &&
      Records(cs, s.data.setSize, s.data.unitType, s.data.unitIdx, s) &&
      (s.data.setSize > 2 ==> SizedOf(cs, 2).None?) && (s.data.setSize > 3 ==> SizedOf(cs, 3).None?)
  {
    var n := if SizedOf(cs, 2).Some? then 2 else if SizedOf(cs, 3).Some? then 3 else 4;
    if UnitsOf(cs, n, Row).Some? {
      UnitsOfFound(cs, n, Row);
    } else if UnitsOf(cs, n, Col).Some? {
      UnitsOfFound(cs, n, Col);
    } else {
      UnitsOfFound(cs, n, Box);
    }
  }

  // ---------------------------------------------------------- apply, revert

  /** A naked-set step whose lists are cell indices with one removed set per removal. */
  predicate WellFormed(s: Step)
  {
    s.data.NakedSetStep? && InGrid(s.data.removalIdxs) &&
    |s.data.removedCands| == |s.data.removalIdxs| && AllValid(s.data.removedCands)
  }

  /** Applying a naked set (solver_apply_step): the set candidates leave each removal cell. */
  method NakedSetApply(g: Grid, s: Step)
    requires g.Valid() && WellFormed(s)
    modifies g.cells
    ensures g.Valid()
    ensures g.cells[..] == RemoveCandsAll(old(g.cells[..]), s.data.removalIdxs, s.data.setCands, |s.data.removalIdxs|)
  {
    RemoveCandsFrom(g, s.data.removalIdxs, s.data.setCands);
  }

  /** naked_set_revert: each removal cell gets its removed candidates back. */
  method NakedSetRevert(g: Grid, s: Step)
    requires g.Valid() && WellFormed(s)
    modifies g.cells
    ensures g.Valid()
    ensures g.cells[..] == AddCandsEach(old(g.cells[..]), s.data.removalIdxs, s.data.removedCands, |s.data.removalIdxs|)
  {
    AddCandsTo(g, s.data.removalIdxs, s.data.removedCands);
  }

  /** Reverting a naked set after applying it gives back the grid it was scanned from. */
  lemma NakedSetRoundTrip(cs: seq<Cell>)
    requires Cells81(cs) && NakedSetOf(cs).Some?
    ensures WellFormed(NakedSetOf(cs).value)
    ensures var d := NakedSetOf(cs).value.data;
      AddCandsEach(RemoveCandsAll(cs, d.removalIdxs, d.setCands, |d.removalIdxs|),
                   d.removalIdxs, d.removedCands, |d.removalIdxs|) == cs
  {
    NakedSetFound(cs);
    var d := NakedSetOf(cs).value.data;
    RemoveCandsRevert(cs, d.removalIdxs, d.removalIdxs, d.setCands, d.removedCands);
  }
}
