// The hidden-set technique (src/techniques/hidden_set.c): n values missing
// from a unit whose candidates, together, appear in exactly n cells of the
// unit; every other candidate can go from those n cells.  Pairs, then
// triples, then quads; rows, then columns, then boxes; ascending unit index;
// then the combination order of the unit's missing values.

module HiddenSets {
  import opened CandSets
  import opened Cells
  import opened Grids
  import opened Search
  import opened CellLists
  import opened Combinations
  import opened Steps
  import opened CellEdits

  /** Combination m of the unit's missing values: n of them, ascending. */
  function Group(cs: seq<Cell>, n: int, t: UnitType, u: int, m: int): (r: seq<int>)
    requires Cells81(cs) && 0 <= u < 9 && 2 <= n <= |UnitMissing(cs, t, u)|
    requires 0 <= m < Binom(|UnitMissing(cs, t, u)|, n)
    ensures |r| == n && forall k :: 0 <= k < |r| ==> 1 <= r[k] <= 9
  {
    var missing := UnitMissing(cs, t, u);
    PickFacts(missing, n, m);
    var r := Pick(missing, Tuples(|missing|, n)[m]);
    assert forall k :: 0 <= k < |r| ==> r[k] in r;
    r
  }

  /** The step hidden_n_set_unit records for a group of values, if it is a hidden set with removals. */
  function GroupStep(cs: seq<Cell>, n: int, t: UnitType, u: int, group: seq<int>): Option<Step>
    requires Cells81(cs) && 0 <= u < 9 && forall k :: 0 <= k < |group| ==> 1 <= group[k] <= 9
  {
    var combSet := FromValues(group);
    UnitIdxsFacts(t, u);
    CellsWithCandsSomeFacts(cs, UnitIdxs(t, u), combSet);
    var possible := CellsWithCandsSome(cs, UnitIdxs(t, u), combSet);
    if |possible| != n then None
    else
      var removals := CellsWithRemovals(cs, possible, Difference(Full(), combSet));
      if |removals.0| == 0 then None
      else Some(Step(HiddenSetTech(n), HiddenSetStep(n, possible, combSet, removals.0, removals.1, t, u)))
  }

  function GroupProbe(cs: seq<Cell>, n: int, t: UnitType, u: int): int -> Option<Step>
    requires Cells81(cs) && 2 <= n <= 4 && 0 <= u < 9 && n <= |UnitMissing(cs, t, u)|
  {
    m => if 0 <= m < Binom(|UnitMissing(cs, t, u)|, n) then GroupStep(cs, n, t, u, Group(cs, n, t, u, m)) else None
  }

  /** The first group of unit u, in combination order, that is a hidden set with removals. */
  function UnitAt(cs: seq<Cell>, n: int, t: UnitType, u: int): Option<Step>
    requires Cells81(cs) && 2 <= n <= 4 && 0 <= u < 9
  {
    var missing := UnitMissing(cs, t, u);
    if |missing| < n then None
    else FirstSome(GroupProbe(cs, n, t, u), 0, Binom(|missing|, n))
  }

  function UnitProbe(cs: seq<Cell>, n: int, t: UnitType): int -> Option<Step>
    requires Cells81(cs) && 2 <= n <= 4
  {
    u => if 0 <= u < 9 then UnitAt(cs, n, t, u) else None
  }

  /** hidden_n_set_unit: the first unit of type t, by index, with a hidden set of size n. */
  function UnitsOf(cs: seq<Cell>, n: int, t: UnitType): Option<Step>
    requires Cells81(cs) && 2 <= n <= 4
  {
    FirstSome(UnitProbe(cs, n, t), 0, 9)
  }

  /** hidden_pair, hidden_triple, hidden_quad: rows, then columns, then boxes. */
  function SizedOf(cs: seq<Cell>, n: int): Option<Step>
    requires Cells81(cs) && 2 <= n <= 4
  {
    OrElse(UnitsOf(cs, n, Row), OrElse(UnitsOf(cs, n, Col), UnitsOf(cs, n, Box)))
  }

  /** hidden_set: pairs, then triples, then quads. */
  function HiddenSetOf(cs: seq<Cell>): Option<Step>
    requires Cells81(cs)
  {
    OrElse(SizedOf(cs, 2), OrElse(SizedOf(cs, 3), SizedOf(cs, 4)))
  }

  // ------------------------------------------------------------- scanner

  /** The test hidden_n_set_unit makes of one group of missing values. */
  method GroupCheck(cs: seq<Cell>, n: int, t: UnitType, u: int, group: seq<int>) returns (r: Option<Step>)
    requires Cells81(cs) && 0 <= u < 9 && forall k :: 0 <= k < |group| ==> 1 <= group[k] <= 9
    ensures r == GroupStep(cs, n, t, u, group)
  {
    var combSet := FromValues(group);
    UnitIdxsFacts(t, u);
    CellsWithCandsSomeFacts(cs, UnitIdxs(t, u), combSet);
    var possible := CellsWithCandsSome(cs, UnitIdxs(t, u), combSet);
    if |possible| != n {
      return None;
    }
    var removals := CellsWithRemovals(cs, possible, Difference(Full(), combSet));
    if |removals.0| == 0 {
      return None;
    }
    r := Some(Step(HiddenSetTech(n), HiddenSetStep(n, possible, combSet, removals.0, removals.1, t, u)));
  }

  /** Entry ci of the generated groups is the group the ci-th probe tests. */
  lemma ProbeAt(cs: seq<Cell>, n: int, t: UnitType, u: int, combs: seq<seq<int>>, ci: int)
    requires Cells81(cs) && 2 <= n <= 4 && 0 <= u < 9 && n <= |UnitMissing(cs, t, u)|
    requires |combs| == Binom(|UnitMissing(cs, t, u)|, n) && 0 <= ci < |combs|
    requires combs[ci] == Pick(UnitMissing(cs, t, u), Tuples(|UnitMissing(cs, t, u)|, n)[ci])
    ensures forall k :: 0 <= k < |combs[ci]| ==> 1 <= combs[ci][k] <= 9
    ensures GroupProbe(cs, n, t, u)(ci) == GroupStep(cs, n, t, u, combs[ci])
  {
    assert combs[ci] == Group(cs, n, t, u, ci);
  }

  /** The body of hidden_n_set_unit for one unit: the loop over the groups of its missing values. */
  method UnitGroups(cs: seq<Cell>, n: int, t: UnitType, u: int, missing: seq<int>) returns (r: Option<Step>)
    requires Cells81(cs) && 2 <= n <= 4 && 0 <= u < 9
    requires missing == UnitMissing(cs, t, u) && n <= |missing|
    ensures r == UnitAt(cs, n, t, u)
  {
    var combs := GenerateCombinations(missing, n);
    var ci := 0;
    while ci < |combs|
      invariant 0 <= ci <= |combs|
      invariant FirstSome(GroupProbe(cs, n, t, u), ci, |combs|) == UnitAt(cs, n, t, u)
    {
      var group := combs[ci];
      ProbeAt(cs, n, t, u, combs, ci);
      r := GroupCheck(cs, n, t, u, group);
      if r.Some? {
        return;
      }
      ci := ci + 1;
    }
    r := None;
  }

  /** hidden_n_set_unit: loops over the units and the groups of their missing values. */
  method HiddenNSetUnit(g: Grid, n: int, t: UnitType) returns (r: Option<Step>)
    requires g.Valid() && 2 <= n <= 4
    ensures r == UnitsOf(g.cells[..], n, t)
  {
    var cs := g.cells[..];
    var u := 0;
    while u < 9
      invariant 0 <= u <= 9
      invariant FirstSome(UnitProbe(cs, n, t), u, 9) == UnitsOf(cs, n, t)
    {
      assert UnitProbe(cs, n, t)(u) == UnitAt(cs, n, t, u);
      var missing := UnitMissing(cs, t, u);
      if |missing| >= n {
        r := UnitGroups(cs, n, t, u, missing);
        if r.Some? {
          return;
        }
      }
      u := u + 1;
    }
    r := None;
  }

  /** hidden_pair, hidden_triple and hidden_quad: size n in rows, then columns, then boxes. */
  method HiddenNSet(g: Grid, n: int) returns (r: Option<Step>)
    requires g.Valid() && 2 <= n <= 4
    ensures r == SizedOf(g.cells[..], n)
  {
    r := HiddenNSetUnit(g, n, Row);
    if r.Some? {
      return;
    }
    r := HiddenNSetUnit(g, n, Col);
    if r.Some? {
      return;
    }
    r := HiddenNSetUnit(g, n, Box);
  }

  /** hidden_set: pairs, then triples, then quads. */
  method HiddenSet(g: Grid) returns (r: Option<Step>)
    requires g.Valid()
    ensures r == HiddenSetOf(g.cells[..])
  {
    r := HiddenNSet(g, 2);
    if r.Some? {
      return;
    }
    r := HiddenNSet(g, 3);
    if r.Some? {
      return;
    }
    r := HiddenNSet(g, 4);
  }

  // ------------------------------------------------------------ properties

  /** Distinct entries, counted as a set, number as many as the list. */
  lemma {:induction false} AscendingCard(s: seq<int>)
    requires Ascending(s)
    ensures |(set x | x in s)| == |s|
  {
    if s != [] {
      var init := s[..|s| - 1];
      var last := s[|s| - 1];
      AscendingCard(init);
      assert (set x | x in s) == (set x | x in init) + {last};
      assert last !in init by {
        forall k | 0 <= k < |init|
          ensures init[k] != last
        {
          assert s[k] < s[|s| - 1];
        }
      }
    }
  }

  /** A group is ascending and made of values missing from the unit. */
  lemma GroupFacts(cs: seq<Cell>, n: int, t: UnitType, u: int, m: int)
    requires Cells81(cs) && 0 <= u < 9 && 2 <= n <= |UnitMissing(cs, t, u)|
    requires 0 <= m < Binom(|UnitMissing(cs, t, u)|, n)
    ensures Ascending(Group(cs, n, t, u, m))
    ensures forall v :: v in Group(cs, n, t, u, m) ==> 1 <= v <= 9 && !Holds(UnitCells(cs, t, u), v)
  {
    PickFacts(UnitMissing(cs, t, u), n, m);
    UnitDigits(cs, t, u);
  }

  /** The set of an ascending list of n values 1..9 holds n candidates. */
  lemma FromValuesLen(group: seq<int>)
    requires Ascending(group) && forall k :: 0 <= k < |group| ==> 1 <= group[k] <= 9
    ensures FromValues(group).len == |group|
  {
    var S := FromValues(group);
    assert Elems(S) == (set x | x in group);
    AscendingCard(group);
    ElemsCount(S);
  }

  /** A group of values is a hidden set of size n with removals: n cells of the unit hold them, and those cells hold more. */
  predicate IsHiddenSet(cs: seq<Cell>, n: int, t: UnitType, u: int, group: seq<int>)
    requires Cells81(cs) && 0 <= u < 9
  {
    (forall k :: 0 <= k < |group| ==> 1 <= group[k] <= 9) &&
    (UnitIdxsFacts(t, u);
     CellsWithCandsSomeFacts(cs, UnitIdxs(t, u), FromValues(group));
     var possible := CellsWithCandsSome(cs, UnitIdxs(t, u), FromValues(group));
     |possible| == n && |CellsWithRemovals(cs, possible, Difference(Full(), FromValues(group))).0| > 0)
  }

  /**
   * The set cells of a step: n ascending cells, exactly the cells of unit u
   * holding a candidate of the set.
   */
  ghost predicate SetCells(cs: seq<Cell>, n: int, t: UnitType, u: int, idxs: seq<int>, set_: CandSet)
    requires |cs| == 81 && 0 <= u < 9
  {
    |idxs| == n && InGrid(idxs) && Ascending(idxs) &&
    forall j :: j in idxs <==> j in UnitIdxs(t, u) && Meets(cs[j].cands, set_)
  }

  /** The set: n candidates, each a value unit u is missing. */
  ghost predicate SetValues(cs: seq<Cell>, n: int, t: UnitType, u: int, set_: CandSet)
    requires Cells81(cs) && 0 <= u < 9
  {
    Valid(set_) && set_.len == n &&
    forall v :: 1 <= v <= 9 && Has(set_, v) ==> !Holds(UnitCells(cs, t, u), v)
  }

  /**
   * The removals: ascending, not empty, exactly the set cells holding a
   * candidate outside the set, each with those candidates.
   */
  ghost predicate RemovalsAre(cs: seq<Cell>, idxs: seq<int>, set_: CandSet, rem: seq<int>, removed: seq<CandSet>)
    requires |cs| == 81 && InGrid(idxs)
  {
    var others := Difference(Full(), set_);
    |rem| > 0 && InGrid(rem) && Ascending(rem) &&
    (forall j :: j in rem <==> j in idxs && Meets(cs[j].cands, others)) &&
    |removed| == |rem| && forall k :: 0 <= k < |rem| ==> removed[k] == Intersect(cs[rem[k]].cands, others)
  }

  /** Everything a hidden-set step found in unit u of type t records. */
  ghost predicate Records(cs: seq<Cell>, n: int, t: UnitType, u: int, s: Step)
    requires Cells81(cs) && 0 <= u < 9
  {
    s.tech == HiddenSetTech(n) && s.data.HiddenSetStep? &&
    s.data.size == n && s.data.unitType == t && s.data.unitIdx == u &&
    SetCells(cs, n, t, u, s.data.idxs, s.data.cands) &&
    SetValues(cs, n, t, u, s.data.cands) &&
    RemovalsAre(cs, s.data.idxs, s.data.cands, s.data.removalIdxs, s.data.removedCands)
  }

  /** A group yields a step exactly when it is a hidden set with removals. */
  lemma GroupStepSome(cs: seq<Cell>, n: int, t: UnitType, u: int, group: seq<int>)
    requires Cells81(cs) && 0 <= u < 9 && forall k :: 0 <= k < |group| ==> 1 <= group[k] <= 9
    ensures GroupStep(cs, n, t, u, group).Some? <==> IsHiddenSet(cs, n, t, u, group)
  {
  }

  /** The step of a hidden set records its cells, its set and its removals. */
  lemma GroupStepFound(cs: seq<Cell>, n: int, t: UnitType, u: int, group: seq<int>)
    requires Cells81(cs) && 0 <= u < 9 && forall k :: 0 <= k < |group| ==> 1 <= group[k] <= 9
    requires GroupStep(cs, n, t, u, group).Some?
    ensures var d := GroupStep(cs, n, t, u, group).value.data;
      d.HiddenSetStep? && d.cands == FromValues(group) &&
      SetCells(cs, n, t, u, d.idxs, d.cands) &&
      RemovalsAre(cs, d.idxs, d.cands, d.removalIdxs, d.removedCands)
  {
    var S := FromValues(group);
    var possible := CellsWithCandsSome(cs, UnitIdxs(t, u), S);
    PossibleCells(cs, n, t, u, S);
    PossibleRemovals(cs, possible, S);
  }

  /** The unit's cells sharing a candidate with the set, when there are n of them, are its set cells. */
  lemma PossibleCells(cs: seq<Cell>, n: int, t: UnitType, u: int, S: CandSet)
    requires |cs| == 81 && 0 <= u < 9 && |CellsWithCandsSome(cs, UnitIdxs(t, u), S)| == n
    ensures SetCells(cs, n, t, u, CellsWithCandsSome(cs, UnitIdxs(t, u), S), S)
  {
    UnitIdxsFacts(t, u);
    FilterAscendingUnit(t, u);
    CellsWithCandsSomeFacts(cs, UnitIdxs(t, u), S);
  }

  /** cells_with_removals over the set cells, for the values outside the set, gives the removals. */
  lemma PossibleRemovals(cs: seq<Cell>, idxs: seq<int>, S: CandSet)
    requires |cs| == 81 && InGrid(idxs) && Ascending(idxs)
    requires |CellsWithRemovals(cs, idxs, Difference(Full(), S)).0| > 0
    ensures var rem := CellsWithRemovals(cs, idxs, Difference(Full(), S));
      RemovalsAre(cs, idxs, S, rem.0, rem.1)
  {
    CellsWithCandsSomeFacts(cs, idxs, Difference(Full(), S));
  }

  /** A step from unit u records a hidden set of that unit. */
  lemma UnitAtFound(cs: seq<Cell>, n: int, t: UnitType, u: int)
    requires Cells81(cs) && 2 <= n <= 4 && 0 <= u < 9 && UnitAt(cs, n, t, u).Some?
    ensures Records(cs, n, t, u, UnitAt(cs, n, t, u).value)
  {
    var missing := UnitMissing(cs, t, u);
    var f := GroupProbe(cs, n, t, u);
    var m := FirstSomeSome(f, 0, Binom(|missing|, n));
    assert f(m) == GroupStep(cs, n, t, u, Group(cs, n, t, u, m));
    GroupRecords(cs, n, t, u, m);
  }

  /** The step a probe finds records its group as a hidden set. */
  lemma GroupRecords(cs: seq<Cell>, n: int, t: UnitType, u: int, m: int)
    requires Cells81(cs) && 0 <= u < 9 && 2 <= n <= |UnitMissing(cs, t, u)|
    requires 0 <= m < Binom(|UnitMissing(cs, t, u)|, n)
    requires GroupStep(cs, n, t, u, Group(cs, n, t, u, m)).Some?
    ensures Records(cs, n, t, u, GroupStep(cs, n, t, u, Group(cs, n, t, u, m)).value)
  {
    GroupStepFound(cs, n, t, u, Group(cs, n, t, u, m));
    GroupValues(cs, n, t, u, m);
  }

  /** The set of a probed group has n members, none of them held in the unit. */
  lemma GroupValues(cs: seq<Cell>, n: int, t: UnitType, u: int, m: int)
    requires Cells81(cs) && 0 <= u < 9 && 2 <= n <= |UnitMissing(cs, t, u)|
    requires 0 <= m < Binom(|UnitMissing(cs, t, u)|, n)
    ensures SetValues(cs, n, t, u, FromValues(Group(cs, n, t, u, m)))
  {
    var group := Group(cs, n, t, u, m);
    GroupFacts(cs, n, t, u, m);
    FromValuesLen(group);
    var S := FromValues(group);
    forall v | 1 <= v <= 9 && Has(S, v)
      ensures !Holds(UnitCells(cs, t, u), v)
    {
      assert v in group;
    }
  }

  /** Each combination of the missing values is the group some probe tests. */
  lemma CombProbed(cs: seq<Cell>, n: int, t: UnitType, u: int, tup: seq<int>) returns (m: int)
    requires Cells81(cs) && 2 <= n <= 4 && 0 <= u < 9 && n <= |UnitMissing(cs, t, u)|
    requires IsComb(tup, |UnitMissing(cs, t, u)|, n, 0)
    ensures 0 <= m < Binom(|UnitMissing(cs, t, u)|, n)
    ensures GroupProbe(cs, n, t, u)(m).Some? <==> IsHiddenSet(cs, n, t, u, Pick(UnitMissing(cs, t, u), tup))
  {
    var missing := UnitMissing(cs, t, u);
    var L := Tuples(|missing|, n);
    TuplesComplete(|missing|, n, tup);
    m :| 0 <= m < |L| && L[m] == tup;
    var group := Group(cs, n, t, u, m);
    assert group == Pick(missing, tup);
    assert GroupProbe(cs, n, t, u)(m) == GroupStep(cs, n, t, u, group);
    GroupStepSome(cs, n, t, u, group);
  }

  /** Each probe tests the group of some combination of the missing values. */
  lemma ProbeComb(cs: seq<Cell>, n: int, t: UnitType, u: int, m: int) returns (tup: seq<int>)
    requires Cells81(cs) && 2 <= n <= 4 && 0 <= u < 9 && n <= |UnitMissing(cs, t, u)|
    requires 0 <= m < Binom(|UnitMissing(cs, t, u)|, n)
    ensures IsComb(tup, |UnitMissing(cs, t, u)|, n, 0)
    ensures GroupProbe(cs, n, t, u)(m).Some? <==> IsHiddenSet(cs, n, t, u, Pick(UnitMissing(cs, t, u), tup))
  {
    var missing := UnitMissing(cs, t, u);
    tup := Tuples(|missing|, n)[m];
    TuplesComplete(|missing|, n, tup);
    var group := Group(cs, n, t, u, m);
    assert GroupProbe(cs, n, t, u)(m) == GroupStep(cs, n, t, u, group);
    GroupStepSome(cs, n, t, u, group);
  }

  /** A unit yields nothing exactly when no n of its missing values form a hidden set with removals. */
  lemma UnitAtNone(cs: seq<Cell>, n: int, t: UnitType, u: int)
    requires Cells81(cs) && 2 <= n <= 4 && 0 <= u < 9
    ensures var missing := UnitMissing(cs, t, u);
      UnitAt(cs, n, t, u).None? <==>
      |missing| < n || forall tup :: IsComb(tup, |missing|, n, 0) ==> !IsHiddenSet(cs, n, t, u, Pick(missing, tup))
  {
    var missing := UnitMissing(cs, t, u);
    if |missing| >= n {
      var f := GroupProbe(cs, n, t, u);
      var hi := Binom(|missing|, n);
      FirstSomeNone(f, 0, hi);
      if UnitAt(cs, n, t, u).None? {
        forall tup | IsComb(tup, |missing|, n, 0)
          ensures !IsHiddenSet(cs, n, t, u, Pick(missing, tup))
        {
          var m := CombProbed(cs, n, t, u, tup);
        }
      } else {
        var m := FirstSomeSome(f, 0, hi);
        var tup := ProbeComb(cs, n, t, u, m);
      }
    }
  }

  /** A step from unit type t records a hidden set of the first unit having one. */
  lemma UnitsOfFound(cs: seq<Cell>, n: int, t: UnitType)
    requires Cells81(cs) && 2 <= n <= 4 && UnitsOf(cs, n, t).Some?
    ensures var s := UnitsOf(cs, n, t).value;
      s.data.HiddenSetStep? && 0 <= s.data.unitIdx < 9 && Records(cs, n, t, s.data.unitIdx, s) &&
      forall u :: 0 <= u < s.data.unitIdx ==> UnitAt(cs, n, t, u).None?
  {
    var f := UnitProbe(cs, n, t);
    var u := FirstSomeSome(f, 0, 9);
    assert f(u) == UnitAt(cs, n, t, u);
    UnitAtFound(cs, n, t, u);
    forall u' | 0 <= u' < u
      ensures UnitAt(cs, n, t, u').None?
    {
      assert f(u') == UnitAt(cs, n, t, u');
    }
  }

  /** A step from hidden_set records a hidden set of size 2, 3 or 4, the smallest size having one. */
  lemma HiddenSetFound(cs: seq<Cell>)
    requires Cells81(cs) && HiddenSetOf(cs).Some?
    ensures var s := HiddenSetOf(cs).value;
      s.data.HiddenSetStep? && 2 <= s.data.size <= 4 && 0 <= s.data.unitIdx < 9 &&
      Records(cs, s.data.size, s.data.unitType, s.data.unitIdx, s) &&
      (s.data.size > 2 ==> SizedOf(cs, 2).None?) && (s.data.size > 3 ==> SizedOf(cs, 3).None?)
  {
    var n := if SizedOf(cs, 2).Some? then 2 else if SizedOf(cs, 3).Some? then 3 else 4;
    if UnitsOf(cs, n, Row).Some? {
      UnitsOfFound(cs, n, Row);
    } else if UnitsOf(cs, n, Col).Some? {
      UnitsOfFound(cs, n, Col);
    } else {
      UnitsOfFound(cs, n, Box);
    }
  }

  // ---------------------------------------------------------- apply, revert

  /** A hidden-set step whose lists are cell indices, with one removed set per removal. */
  predicate WellFormed(s: Step)
  {
    s.data.HiddenSetStep? && Valid(s.data.cands) &&
    InGrid(s.data.idxs) && InGrid(s.data.removalIdxs) &&
    |s.data.removedCands| == |s.data.removalIdxs| && AllValid(s.data.removedCands)
  }

  /** hidden_set_apply as written: every set cell's candidates become the set itself. */
  method HiddenSetApplyAsWritten(g: Grid, s: Step)
    requires g.Valid() && WellFormed(s)
    modifies g.cells
    ensures g.Valid()
    ensures g.cells[..] == SetCandsAll(old(g.cells[..]), s.data.idxs, s.data.cands, |s.data.idxs|)
  {
    SetCandsOf(g, s.data.idxs, s.data.cands);
  }

  /** hidden_set_apply as intended: every set cell loses its candidates outside the set. */
  method HiddenSetApply(g: Grid, s: Step)
    requires g.Valid() && WellFormed(s)
    modifies g.cells
    ensures g.Valid()
    ensures g.cells[..] == RemoveCandsAll(old(g.cells[..]), s.data.idxs, Difference(Full(), s.data.cands), |s.data.idxs|)
  {
    RemoveCandsFrom(g, s.data.idxs, Difference(Full(), s.data.cands));
  }

  /** hidden_set_revert: each removal cell gets its removed candidates back. */
  method HiddenSetRevert(g: Grid, s: Step)
    requires g.Valid() && WellFormed(s)
    modifies g.cells
    ensures g.Valid()
    ensures g.cells[..] == AddCandsEach(old(g.cells[..]), s.data.removalIdxs, s.data.removedCands, |s.data.removalIdxs|)
  {
    AddCandsTo(g, s.data.removalIdxs, s.data.removedCands);
  }

  /** After the intended apply, a set cell keeps exactly its candidates inside the set. */
  lemma HiddenSetApplyKeeps(c: Cell, set_: CandSet)
    requires Valid(c.cands)
    ensures forall v :: 1 <= v <= 9 ==>
      (HasCand(RemoveCands(c, Difference(Full(), set_)), v) <==> HasCand(c, v) && Has(set_, v))
  {
    var others := Difference(Full(), set_);
    assert forall v :: 1 <= v <= 9 ==> (Has(others, v) <==> v in Elems(others));
  }

  /** Reverting a hidden set after the intended apply gives back the grid it was scanned from. */
  lemma HiddenSetRoundTrip(cs: seq<Cell>)
    requires Cells81(cs) && HiddenSetOf(cs).Some?
    ensures WellFormed(HiddenSetOf(cs).value)
    ensures var d := HiddenSetOf(cs).value.data;
      AddCandsEach(RemoveCandsAll(cs, d.idxs, Difference(Full(), d.cands), |d.idxs|),
                   d.removalIdxs, d.removedCands, |d.removalIdxs|) == cs
  {
    HiddenSetFound(cs);
    var d := HiddenSetOf(cs).value.data;
    RemoveCandsRevert(cs, d.idxs, d.removalIdxs, Difference(Full(), d.cands), d.removedCands);
  }

  /**
   * Setting the candidates of listed cells to set, then adding removed sets
   * back, cannot restore a listed cell that lacked a value of set.
   */
  lemma SetCandsBreaks(cs: seq<Cell>, idxs: seq<int>, set_: CandSet, rem: seq<int>, removed: seq<CandSet>, k: int, v: int)
    requires Cells81(cs) && InGrid(idxs) && Valid(set_) && InGrid(rem) && Ascending(rem)
    requires |removed| == |rem| && AllValid(removed)
    requires 0 <= k < |idxs| && 1 <= v <= 9 && Has(set_, v) && !HasCand(cs[idxs[k]], v)
    ensures AddCandsEach(SetCandsAll(cs, idxs, set_, |idxs|), rem, removed, |rem|) != cs
  {
    var j := idxs[k];
    var mid := SetCandsAll(cs, idxs, set_, |idxs|);
    SetCandsAllAt(cs, idxs, set_, |idxs|, j);
    assert idxs[..|idxs|] == idxs;
    assert HasCand(mid[j], v);
    AddCandsEachAt(mid, rem, removed, |rem|);
    var r := AddCandsEach(mid, rem, removed, |rem|);
    assert rem[..|rem|] == rem;
    if j in rem {
      var q :| 0 <= q < |rem| && rem[q] == j;
      assert HasCand(r[j], v);
    } else {
      assert r[j] == mid[j];
    }
  }

  /**
   * The apply as written does not round-trip: once a set cell of a found
   * step lacks one of the set's values, the revert leaves that value in the cell.
   */
  lemma HiddenSetAsWrittenBreaks(cs: seq<Cell>, k: int, v: int)
    requires Cells81(cs) && HiddenSetOf(cs).Some?
    requires var d := HiddenSetOf(cs).value.data;
      d.HiddenSetStep? && InGrid(d.idxs) && 0 <= k < |d.idxs| && 1 <= v <= 9 &&
      Has(d.cands, v) && !HasCand(cs[d.idxs[k]], v)
    ensures WellFormed(HiddenSetOf(cs).value)
    ensures var d := HiddenSetOf(cs).value.data;
      AddCandsEach(SetCandsAll(cs, d.idxs, d.cands, |d.idxs|),
                   d.removalIdxs, d.removedCands, |d.removalIdxs|) != cs
  {
    HiddenSetFound(cs);
    var d := HiddenSetOf(cs).value.data;
    RemoveCandsRevert(cs, d.idxs, d.removalIdxs, Difference(Full(), d.cands), d.removedCands);
    SetCandsBreaks(cs, d.idxs, d.cands, d.removalIdxs, d.removedCands, k, v);
  }

  /**
   * A cell with candidates {1, 3} in a hidden pair {1, 2}: the apply as
   * written gives it {1, 2}, the revert adds back the removed {3}, and the
   * cell ends with a 2 it never had.
   */
  lemma HiddenSetAsWrittenCell(c: Cell)
    requires c.cands == Add(Singleton(1), 3)
    ensures var set_ := Add(Singleton(1), 2);
      AddCands(c.(cands := set_), Intersect(c.cands, Difference(Full(), set_))) != c
  {
    var set_ := Add(Singleton(1), 2);
    assert Has(set_, 2) by {
      assert 2 in Elems(set_);
    }
    assert !Has(c.cands, 2) by {
      assert Elems(c.cands) == {1, 3};
      assert 2 !in Elems(c.cands);
    }
  }
}
