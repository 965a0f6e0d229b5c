// The basic-fish techniques (src/techniques/basic_fish.c): X-Wing,
// Swordfish and Jellyfish.  For a value, n base lines (rows, or columns)
// whose cells holding the value all lie in n cover lines of the other kind;
// the value can then go from the rest of the cover lines.  Rows as base
// lines first, then columns; ascending value; then combination order of the
// eligible base lines.

module BasicFish {
  import opened CandSets
  import opened Cells
  import opened Grids
  import opened Search
  import opened CellLists
  import opened Combinations
  import opened Steps
  import opened CellEdits

  /** A base line: its unit index and the positions along it of the cells holding the value. */
  datatype BaseSet = BaseSet(unitIdx: int, cellIdxs: seq<int>)

  /** The line type the cover lines have: columns for row bases, rows for column bases. */
  function CoverType(t: UnitType): UnitType
  {
    if t == Row then Col else Row
  }

  // ------------------------------------------------------------ base sets

  /** The positions below n of the cells of unit u holding v, ascending. */
  function Positions(cs: seq<Cell>, t: UnitType, u: int, v: int, n: int): seq<int>
    requires |cs| == 81 && 0 <= u < 9 && 1 <= v <= 9 && 0 <= n <= 9
  {
    if n == 0 then []
    else Positions(cs, t, u, v, n - 1) + (if HasCand(cs[UnitIdx(t, u, n - 1)], v) then [n - 1] else [])
  }

  /** The positions are ascending and below n. */
  lemma {:induction false} PositionsOrder(cs: seq<Cell>, t: UnitType, u: int, v: int, n: int)
    requires |cs| == 81 && 0 <= u < 9 && 1 <= v <= 9 && 0 <= n <= 9
    ensures Ascending(Positions(cs, t, u, v, n)) && |Positions(cs, t, u, v, n)| <= n
    ensures forall k :: 0 <= k < |Positions(cs, t, u, v, n)| ==> 0 <= Positions(cs, t, u, v, n)[k] < n
  {
    if n > 0 {
      PositionsOrder(cs, t, u, v, n - 1);
      var prev := Positions(cs, t, u, v, n - 1);
      if HasCand(cs[UnitIdx(t, u, n - 1)], v) {
        AppendAscending(prev, n - 1);
      }
    }
  }

  /** An ascending list stays ascending with a larger entry at its end. */
  lemma AppendAscending(s: seq<int>, x: int)
    requires Ascending(s) && forall k :: 0 <= k < |s| ==> s[k] < x
    ensures Ascending(s + [x])
  {
  }

  /** The positions are exactly those below n of the cells holding v. */
  lemma {:induction false} PositionsMember(cs: seq<Cell>, t: UnitType, u: int, v: int, n: int)
    requires |cs| == 81 && 0 <= u < 9 && 1 <= v <= 9 && 0 <= n <= 9
    ensures forall p :: p in Positions(cs, t, u, v, n) <==> 0 <= p < n && HasCand(cs[UnitIdx(t, u, p)], v)
  {
    if n > 0 {
      PositionsMember(cs, t, u, v, n - 1);
    }
  }

  /** More positions scanned never means fewer found. */
  lemma {:induction false} PositionsGrow(cs: seq<Cell>, t: UnitType, u: int, v: int, m: int, n: int)
    requires |cs| == 81 && 0 <= u < 9 && 1 <= v <= 9 && 0 <= m <= n <= 9
    ensures |Positions(cs, t, u, v, m)| <= |Positions(cs, t, u, v, n)|
    decreases n - m
  {
    if m < n {
      PositionsGrow(cs, t, u, v, m, n - 1);
    }
  }

  /** The base set of unit u, if v is a candidate in one to size of its cells. */
  function BaseAt(cs: seq<Cell>, t: UnitType, size: int, v: int, u: int): seq<BaseSet>
    requires |cs| == 81 && 1 <= v <= 9 && 0 <= u < 9
  {
    var P := Positions(cs, t, u, v, 9);
    if 1 <= |P| <= size then [BaseSet(u, P)] else []
  }

  /** The base sets of the units below n. */
  function BasesUpTo(cs: seq<Cell>, t: UnitType, size: int, v: int, n: int): seq<BaseSet>
    requires |cs| == 81 && 1 <= v <= 9 && 0 <= n <= 9
  {
    if n == 0 then [] else BasesUpTo(cs, t, size, v, n - 1) + BaseAt(cs, t, size, v, n - 1)
  }

  /** find_base_sets: every unit of type t where v is a candidate in one to size cells, ascending. */
  function BaseSets(cs: seq<Cell>, t: UnitType, size: int, v: int): seq<BaseSet>
    requires |cs| == 81 && 1 <= v <= 9
  {
    BasesUpTo(cs, t, size, v, 9)
  }

  /** A base set of a unit below n with one to size holders of v, recording all of their positions. */
  predicate SoundBase(cs: seq<Cell>, t: UnitType, size: int, v: int, b: BaseSet, n: int)
    requires |cs| == 81 && 1 <= v <= 9 && 0 <= n <= 9
  {
    0 <= b.unitIdx < n && b.cellIdxs == Positions(cs, t, b.unitIdx, v, 9) && 1 <= |b.cellIdxs| <= size
  }

  /** Every base set is sound. */
  predicate BasesSound(cs: seq<Cell>, t: UnitType, size: int, v: int, bases: seq<BaseSet>, n: int)
    requires |cs| == 81 && 1 <= v <= 9 && 0 <= n <= 9
  {
    forall k :: 0 <= k < |bases| ==> SoundBase(cs, t, size, v, bases[k], n)
  }

  /** The base sets are in ascending unit order. */
  predicate BasesSorted(bases: seq<BaseSet>)
  {
    forall k, l :: 0 <= k < l < |bases| ==> bases[k].unitIdx < bases[l].unitIdx
  }

  /** Unit u has a base set. */
  ghost predicate HasBase(bases: seq<BaseSet>, u: int)
  {
    exists k :: 0 <= k < |bases| && bases[k].unitIdx == u
  }

  /** Every unit below n with one to size holders of v has a base set. */
  ghost predicate BasesComplete(cs: seq<Cell>, t: UnitType, size: int, v: int, bases: seq<BaseSet>, n: int)
    requires |cs| == 81 && 1 <= v <= 9 && 0 <= n <= 9
  {
    forall u :: 0 <= u < n && 1 <= |Positions(cs, t, u, v, 9)| <= size ==> HasBase(bases, u)
  }

  /** The base sets below n are sound and sorted. */
  lemma {:induction false} BasesUpToSound(cs: seq<Cell>, t: UnitType, size: int, v: int, n: int)
    requires |cs| == 81 && 1 <= v <= 9 && 0 <= n <= 9
    ensures BasesSound(cs, t, size, v, BasesUpTo(cs, t, size, v, n), n)
    ensures BasesSorted(BasesUpTo(cs, t, size, v, n))
    ensures |BasesUpTo(cs, t, size, v, n)| <= n
  {
    if n > 0 {
      BasesUpToSound(cs, t, size, v, n - 1);
      var prev := BasesUpTo(cs, t, size, v, n - 1);
      var last := BaseAt(cs, t, size, v, n - 1);
      var b := prev + last;
      assert b == BasesUpTo(cs, t, size, v, n);
      forall k | 0 <= k < |b|
        ensures SoundBase(cs, t, size, v, b[k], n)
      {
        if k < |prev| {
          assert b[k] == prev[k] && SoundBase(cs, t, size, v, prev[k], n - 1);
        } else {
          assert b[k] == last[0];
        }
      }
      forall k, l | 0 <= k < l < |b|
        ensures b[k].unitIdx < b[l].unitIdx
      {
        if l < |prev| {
          assert b[k] == prev[k] && b[l] == prev[l];
        } else {
          assert b[k] == prev[k] && SoundBase(cs, t, size, v, prev[k], n - 1);
          assert b[l] == last[0];
        }
      }
    }
  }

  /** The base sets below n miss no eligible unit. */
  lemma {:induction false} BasesUpToComplete(cs: seq<Cell>, t: UnitType, size: int, v: int, n: int)
    requires |cs| == 81 && 1 <= v <= 9 && 0 <= n <= 9
    ensures BasesComplete(cs, t, size, v, BasesUpTo(cs, t, size, v, n), n)
  {
    if n > 0 {
      BasesUpToComplete(cs, t, size, v, n - 1);
      var prev := BasesUpTo(cs, t, size, v, n - 1);
      var b := BasesUpTo(cs, t, size, v, n);
      var last := BaseAt(cs, t, size, v, n - 1);
      assert b == prev + last;
      forall u | 0 <= u < n && 1 <= |Positions(cs, t, u, v, 9)| <= size
        ensures HasBase(b, u)
      {
        if u < n - 1 {
          HasBaseAppend(prev, last, u);
        } else {
          HasBaseLast(prev, BaseSet(u, Positions(cs, t, u, v, 9)), u);
        }
      }
    }
  }

  /** Appending keeps every base already there. */
  lemma HasBaseAppend(prev: seq<BaseSet>, extra: seq<BaseSet>, u: int)
    requires HasBase(prev, u)
    ensures HasBase(prev + extra, u)
  {
    var k :| 0 <= k < |prev| && prev[k].unitIdx == u;
    assert (prev + extra)[k] == prev[k];
  }

  /** Appending a base for u gives u a base. */
  lemma HasBaseLast(prev: seq<BaseSet>, b: BaseSet, u: int)
    requires b.unitIdx == u
    ensures HasBase(prev + [b], u)
  {
    assert (prev + [b])[|prev|] == b;
  }

  /**
   * The body of find_base_sets for one unit: the scan of its cells, which
   * stops at the (size + 1)-th holder of v, and the test of the count.
   */
  method ScanUnit(cs: seq<Cell>, t: UnitType, u: int, size: int, v: int) returns (found: seq<BaseSet>)
    requires |cs| == 81 && 0 <= u < 9 && 1 <= size <= 4 && 1 <= v <= 9
    ensures found == BaseAt(cs, t, size, v, u)
  {
    var cells := [];
    var numCells := 0;
    var ci := 0;
    while ci < 9
      invariant 0 <= ci <= 9
      invariant cells == Positions(cs, t, u, v, ci) && numCells == |cells| <= size
    {
      var hasValue := HasCand(cs[UnitIdx(t, u, ci)], v);
      if hasValue && numCells < size {
        cells := cells + [ci];
        numCells := numCells + 1;
      } else if hasValue {
        numCells := numCells + 1;
        PositionsGrow(cs, t, u, v, ci + 1, 9);
        break;
      }
      ci := ci + 1;
    }
    if numCells > 0 && numCells <= size {
      found := [BaseSet(u, cells)];
    } else {
      found := [];
    }
  }

  /** find_base_sets: the unit loop, keeping the units with one to size holders of v. */
  method FindBaseSets(cs: seq<Cell>, t: UnitType, size: int, v: int) returns (out: seq<BaseSet>)
    requires |cs| == 81 && 1 <= size <= 4 && 1 <= v <= 9
    ensures out == BaseSets(cs, t, size, v)
  {
    out := [];
    for u := 0 to 9
      invariant out == BasesUpTo(cs, t, size, v, u)
    {
      var found := ScanUnit(cs, t, u, size, v);
      out := out + found;
    }
  }

  // ------------------------------------------------------------- covers

  /** Every entry is a line index 0..8. */
  predicate Lines(s: seq<int>)
  {
    forall k :: 0 <= k < |s| ==> 0 <= s[k] < 9
  }

  /** A base set as find_base_sets leaves it: at most size positions, each 0..8. */
  predicate BaseOk(b: BaseSet, size: int)
  {
    |b.cellIdxs| <= size && Lines(b.cellIdxs)
  }

  /** A combination of size base sets. */
  predicate CombOk(comb: seq<BaseSet>, size: int)
  {
    |comb| == size && forall i :: 0 <= i < |comb| ==> BaseOk(comb[i], size)
  }

  /** Every entry of s moved by d. */
  function Shifted(s: seq<int>, d: int): (r: seq<int>)
    ensures |r| == |s| && forall k :: 0 <= k < |s| ==> r[k] == s[k] + d
  {
    seq(|s|, k requires 0 <= k < |s| => s[k] + d)
  }

  /** x + d is an entry of the moved list exactly when x is an entry of s. */
  lemma ShiftedMember(s: seq<int>, d: int, x: int)
    ensures x + d in Shifted(s, d) <==> x in s
  {
    var r := Shifted(s, d);
    if x in s {
      var k :| 0 <= k < |s| && s[k] == x;
      assert r[k] == x + d;
    }
    if x + d in r {
      var k :| 0 <= k < |r| && r[k] == x + d;
      assert s[k] == x;
    }
  }

  /** Moving a list with one more entry moves that entry too. */
  lemma ShiftedAppend(s: seq<int>, x: int, d: int)
    ensures Shifted(s + [x], d) == Shifted(s, d) + [x + d]
  {
  }

  /** The positions of a base set as candidates 1..9 (each position plus one). */
  function PositionSet(b: BaseSet): (r: CandSet)
    requires Lines(b.cellIdxs)
    ensures Valid(r) && forall p :: 0 <= p < 9 ==> (Has(r, p + 1) <==> p in b.cellIdxs)
  {
    var vals := Shifted(b.cellIdxs, 1);
    assert forall p :: 0 <= p < 9 ==> (p + 1 in vals <==> p in b.cellIdxs) by {
      forall p | 0 <= p < 9 {
        ShiftedMember(b.cellIdxs, 1, p);
      }
    }
    FromValues(vals)
  }

  /** The position sets of the bases of a combination. */
  function PositionSets(comb: seq<BaseSet>, size: int): (r: seq<CandSet>)
    requires CombOk(comb, size)
    ensures |r| == |comb| && forall i :: 0 <= i < |r| ==> r[i] == PositionSet(comb[i])
  {
    seq(|comb|, i requires 0 <= i < |comb| => PositionSet(comb[i]))
  }

  /**
   * is_valid_fish: the cover lines of a combination of base sets are the
   * union of their positions, and the combination is a fish when that
   * union has exactly size members; the covers are then those members,
   * ascending, as line indices.
   */
  function FishOf(comb: seq<BaseSet>, size: int): (r: Option<seq<int>>)
    requires CombOk(comb, size)
    ensures r.Some? ==> |r.value| == size && Lines(r.value) && Ascending(r.value)
  {
    var sets := PositionSets(comb, size);
    assert AllBounded(sets);
    var covers := UnionOf(sets);
    if covers.len != size then None
    else
      var vals := ToValues(covers);
      assert forall k :: 0 <= k < |vals| ==> vals[k] in vals;
      Some(Shifted(vals, -1))
  }

  /** Some base of the combination holds the value at position p. */
  predicate Covered(comb: seq<BaseSet>, p: int)
  {
    exists i :: 0 <= i < |comb| && p in comb[i].cellIdxs
  }

  /** The covered positions below n, ascending (an independent reading of the cover lines). */
  function CoveredUpTo(comb: seq<BaseSet>, n: int): seq<int>
    requires 0 <= n <= 9
  {
    if n == 0 then []
    else CoveredUpTo(comb, n - 1) + (if Covered(comb, n - 1) then [n - 1] else [])
  }

  /** The covered positions below n are ascending and exactly those below n some base holds. */
  lemma {:induction false} CoveredUpToFacts(comb: seq<BaseSet>, n: int)
    requires 0 <= n <= 9
    ensures Ascending(CoveredUpTo(comb, n)) && Lines(CoveredUpTo(comb, n))
    ensures forall p :: p in CoveredUpTo(comb, n) <==> 0 <= p < n && Covered(comb, p)
    ensures forall k :: 0 <= k < |CoveredUpTo(comb, n)| ==> CoveredUpTo(comb, n)[k] < n
  {
    if n > 0 {
      CoveredUpToFacts(comb, n - 1);
    }
  }

  /** Value p + 1 is in the union of the position sets exactly when position p is covered. */
  lemma UnionCovered(comb: seq<BaseSet>, size: int, p: int)
    requires CombOk(comb, size) && 0 <= p < 9
    ensures Has(UnionOf(PositionSets(comb, size)), p + 1) <==> Covered(comb, p)
  {
    var sets := PositionSets(comb, size);
    if Covered(comb, p) {
      var i :| 0 <= i < |comb| && p in comb[i].cellIdxs;
      assert Has(sets[i], p + 1);
    }
  }

  /** A set holding p + 1 exactly at the covered positions p: its members below value, less one, are the covered positions below value - 1. */
  lemma {:induction false} CoverValues(comb: seq<BaseSet>, U: CandSet, value: int)
    requires 1 <= value <= 10
    requires forall p :: 0 <= p < 9 ==> (Has(U, p + 1) <==> Covered(comb, p))
    ensures Shifted(ValuesBelow(U, value), -1) == CoveredUpTo(comb, value - 1)
  {
    if value > 1 {
      CoverValues(comb, U, value - 1);
      var prev := ValuesBelow(U, value - 1);
      if Has(U, value - 1) {
        ShiftedAppend(prev, value - 1, -1);
      }
    }
  }

  /**
   * A combination is a fish exactly when its bases cover size positions in
   * all, and its covers are then those positions, ascending.
   */
  lemma FishOfCovered(comb: seq<BaseSet>, size: int)
    requires CombOk(comb, size)
    ensures FishOf(comb, size).Some? <==> |CoveredUpTo(comb, 9)| == size
    ensures FishOf(comb, size).Some? ==> FishOf(comb, size).value == CoveredUpTo(comb, 9)
  {
    var covers := UnionOf(PositionSets(comb, size));
    forall p | 0 <= p < 9
      ensures Has(covers, p + 1) <==> Covered(comb, p)
    {
      UnionCovered(comb, size, p);
    }
    CoverValues(comb, covers, 10);
    assert |ToValues(covers)| == covers.len;
  }

  /** The inner loop of is_valid_fish: a base's positions plus one, made a candidate set. */
  method PositionSetOf(b: BaseSet) returns (r: CandSet)
    requires |b.cellIdxs| <= 4 && Lines(b.cellIdxs)
    ensures r == PositionSet(b)
  {
    var adjusted := new int[4];
    var numCells := |b.cellIdxs|;
    for j := 0 to numCells
      invariant forall k :: 0 <= k < j ==> adjusted[k] == b.cellIdxs[k] + 1
    {
      adjusted[j] := b.cellIdxs[j] + 1;
    }
    ghost var vals := adjusted[..numCells];
    ghost var want := Shifted(b.cellIdxs, 1);
    assert |vals| == |want| && forall k :: 0 <= k < |vals| ==> vals[k] == want[k];
    assert vals == want;
    r := FromArr(adjusted, numCells);
  }

  /** The closing loop of is_valid_fish: each cover value made a line index. */
  method LowerAll(out: array<int>, n: int)
    requires 0 <= n <= out.Length
    modifies out
    ensures out[..n] == Shifted(old(out[..n]), -1)
  {
    ghost var vals := out[..n];
    for i := 0 to n
      invariant forall k :: 0 <= k < i ==> out[k] == vals[k] - 1
      invariant forall k :: i <= k < n ==> out[k] == vals[k]
    {
      out[i] := out[i] - 1;
    }
  }

  /** is_valid_fish, with each position set built from the base's own positions. */
  method IsValidFish(comb: seq<BaseSet>, size: int) returns (ok: bool, covers: seq<int>)
    requires 1 <= size <= 4 && CombOk(comb, size)
    ensures ok <==> FishOf(comb, size).Some?
    ensures ok ==> covers == FishOf(comb, size).value
  {
    ghost var want := PositionSets(comb, size);
    var sets := new CandSet[size];
    for i := 0 to size
      invariant sets[..i] == want[..i]
    {
      var ps := PositionSetOf(comb[i]);
      sets[i] := ps;
      assert sets[..i + 1] == want[..i] + [ps];
    }
    var union := UnionFromArr(sets, size);
    assert sets[..size] == want;
    FishOfUnion(comb, size);
    if union.len != size {
      return false, [];
    }
    var out := new int[9];
    var count := ToArr(union, out);
    ghost var vals := ToValues(union);
    assert count == size && out[..size] == vals;
    LowerAll(out, size);
    assert out[..size] == Shifted(vals, -1);
    ok, covers := true, out[..size];
  }

  /** The fish of a combination, in terms of the union of its position sets. */
  lemma FishOfUnion(comb: seq<BaseSet>, size: int)
    requires 1 <= size <= 4 && CombOk(comb, size)
    ensures var union := UnionOf(PositionSets(comb, size));
      (FishOf(comb, size).Some? <==> union.len == size) &&
      (union.len == size ==>
        |ToValues(union)| == size && FishOf(comb, size).value == Shifted(ToValues(union), -1))
  {
    var sets := PositionSets(comb, size);
    assert AllBounded(sets);
  }

  // ------------------------------------------------------------ removals

  /** The cells at position p of the cover lines covers[..k] that hold v, in cover order. */
  function CoverHits(cs: seq<Cell>, t: UnitType, covers: seq<int>, v: int, p: int, k: int): seq<int>
    requires |cs| == 81 && Lines(covers) && 1 <= v <= 9 && 0 <= p < 9 && 0 <= k <= |covers|
  {
    if k == 0 then []
    else
      var j := UnitIdx(CoverType(t), covers[k - 1], p);
      CoverHits(cs, t, covers, v, p, k - 1) + (if HasCand(cs[j], v) then [j] else [])
  }

  /**
   * find_removals: for each position p below n along the cover lines that is
   * not a base line, the cells of the cover lines at p still holding v.
   */
  function RemovalsUpTo(cs: seq<Cell>, t: UnitType, baseIdxs: seq<int>, covers: seq<int>, v: int, n: int): seq<int>
    requires |cs| == 81 && Lines(covers) && 1 <= v <= 9 && 0 <= n <= 9
  {
    if n == 0 then []
    else
      RemovalsUpTo(cs, t, baseIdxs, covers, v, n - 1) +
      (if n - 1 in baseIdxs then [] else CoverHits(cs, t, covers, v, n - 1, |covers|))
  }

  /** The removals of a fish: all positions along its cover lines. */
  function Removals(cs: seq<Cell>, t: UnitType, baseIdxs: seq<int>, covers: seq<int>, v: int): seq<int>
    requires |cs| == 81 && Lines(covers) && 1 <= v <= 9
  {
    RemovalsUpTo(cs, t, baseIdxs, covers, v, 9)
  }

  /** Cell j is entry p of one of the cover lines covers[..k]. */
  ghost predicate OnCover(t: UnitType, covers: seq<int>, k: int, p: int, j: int)
    requires Lines(covers) && 0 <= p < 9 && 0 <= k <= |covers|
  {
    exists q :: 0 <= q < k && j == UnitIdx(CoverType(t), covers[q], p)
  }

  /** The cover hits at p are the cells holding v that are entry p of a cover line among the first k. */
  lemma {:induction false} CoverHitsOn(cs: seq<Cell>, t: UnitType, covers: seq<int>, v: int, p: int, k: int)
    requires |cs| == 81 && Lines(covers) && 1 <= v <= 9 && 0 <= p < 9 && 0 <= k <= |covers|
    ensures forall j :: j in CoverHits(cs, t, covers, v, p, k) <==>
      0 <= j < 81 && HasCand(cs[j], v) && OnCover(t, covers, k, p, j)
  {
    if k > 0 {
      CoverHitsOn(cs, t, covers, v, p, k - 1);
      var last := UnitIdx(CoverType(t), covers[k - 1], p);
      forall j | OnCover(t, covers, k, p, j)
        ensures j == last || OnCover(t, covers, k - 1, p, j)
      {
        var q :| 0 <= q < k && j == UnitIdx(CoverType(t), covers[q], p);
        if q < k - 1 {
          assert OnCover(t, covers, k - 1, p, j);
        }
      }
      assert OnCover(t, covers, k, p, last);
    }
  }

  /** Entry p of cover line c is the cell whose cover line is c and whose position along it is p. */
  lemma AtCover(t: UnitType, c: int, p: int, j: int)
    requires 0 <= c < 9 && 0 <= p < 9 && 0 <= j < 81
    ensures j == UnitIdx(CoverType(t), c, p) <==> UnitOf(CoverType(t), j) == c && PosOf(CoverType(t), j) == p
  {
    UnitRoundTrip(CoverType(t), j, c, p);
  }

  /** A cell is entry p of a cover line among the first k exactly when its cover line is one of them and its position is p. */
  lemma OnCoverAt(t: UnitType, covers: seq<int>, k: int, p: int, j: int)
    requires Lines(covers) && 0 <= p < 9 && 0 <= k <= |covers| && 0 <= j < 81
    ensures OnCover(t, covers, k, p, j) <==> PosOf(CoverType(t), j) == p && UnitOf(CoverType(t), j) in covers[..k]
  {
    if OnCover(t, covers, k, p, j) {
      var q :| 0 <= q < k && j == UnitIdx(CoverType(t), covers[q], p);
      AtCover(t, covers[q], p, j);
      assert covers[..k][q] == covers[q];
    }
    if PosOf(CoverType(t), j) == p && UnitOf(CoverType(t), j) in covers[..k] {
      var q :| 0 <= q < k && covers[..k][q] == UnitOf(CoverType(t), j);
      AtCover(t, covers[q], p, j);
    }
  }

  /** A cover hit at p is a cell holding v of a cover line among the first k, at position p. */
  lemma CoverHitsMember(cs: seq<Cell>, t: UnitType, covers: seq<int>, v: int, p: int, k: int)
    requires |cs| == 81 && Lines(covers) && 1 <= v <= 9 && 0 <= p < 9 && 0 <= k <= |covers|
    ensures forall j :: j in CoverHits(cs, t, covers, v, p, k) <==>
      0 <= j < 81 && HasCand(cs[j], v) && PosOf(CoverType(t), j) == p && UnitOf(CoverType(t), j) in covers[..k]
  {
    CoverHitsOn(cs, t, covers, v, p, k);
    forall j | 0 <= j < 81 {
      OnCoverAt(t, covers, k, p, j);
    }
  }

  /** A removal below n is a cell holding v on a cover line, at a position below n that is no base line. */
  lemma {:induction false} RemovalsUpToMember(cs: seq<Cell>, t: UnitType, baseIdxs: seq<int>, covers: seq<int>, v: int, n: int)
    requires |cs| == 81 && Lines(covers) && 1 <= v <= 9 && 0 <= n <= 9
    ensures forall j :: j in RemovalsUpTo(cs, t, baseIdxs, covers, v, n) <==>
      0 <= j < 81 && HasCand(cs[j], v) && UnitOf(CoverType(t), j) in covers &&
      PosOf(CoverType(t), j) < n && PosOf(CoverType(t), j) !in baseIdxs
  {
    if n > 0 {
      RemovalsUpToMember(cs, t, baseIdxs, covers, v, n - 1);
      CoverHitsMember(cs, t, covers, v, n - 1, |covers|);
      assert covers[..|covers|] == covers;
    }
  }

  /** Every removal is a cell index. */
  lemma RemovalsInGrid(cs: seq<Cell>, t: UnitType, baseIdxs: seq<int>, covers: seq<int>, v: int)
    requires |cs| == 81 && Lines(covers) && 1 <= v <= 9
    ensures InGrid(Removals(cs, t, baseIdxs, covers, v))
  {
    var r := Removals(cs, t, baseIdxs, covers, v);
    RemovalsUpToMember(cs, t, baseIdxs, covers, v, 9);
    assert forall k :: 0 <= k < |r| ==> r[k] in r;
  }

  /** The along-the-line position in a cover line is the base-line index. */
  lemma CoverPos(t: UnitType, j: int)
    requires t != Box && 0 <= j < 81
    ensures PosOf(CoverType(t), j) == UnitOf(t, j)
  {
  }

  /** Past the first baseI base lines, all below ci, and short of the next, position ci is no base line. */
  lemma NotBase(baseIdxs: seq<int>, baseI: int, ci: int)
    requires Ascending(baseIdxs) && 0 <= baseI <= |baseIdxs|
    requires forall k :: 0 <= k < baseI ==> baseIdxs[k] < ci
    requires baseI < |baseIdxs| ==> baseIdxs[baseI] > ci
    ensures ci !in baseIdxs
  {
    forall k | 0 <= k < |baseIdxs|
      ensures baseIdxs[k] != ci
    {
      if baseI < k {
        assert baseIdxs[baseI] < baseIdxs[k];
      }
    }
  }

  /** One more position of the walk adds that position's cover hits, unless it is a base line. */
  lemma RemovalsUpToNext(cs: seq<Cell>, t: UnitType, baseIdxs: seq<int>, covers: seq<int>, v: int, ci: int)
    requires |cs| == 81 && Lines(covers) && 1 <= v <= 9 && 0 <= ci < 9
    ensures ci in baseIdxs ==> RemovalsUpTo(cs, t, baseIdxs, covers, v, ci + 1) == RemovalsUpTo(cs, t, baseIdxs, covers, v, ci)
    ensures ci !in baseIdxs ==>
      RemovalsUpTo(cs, t, baseIdxs, covers, v, ci + 1) ==
      RemovalsUpTo(cs, t, baseIdxs, covers, v, ci) + CoverHits(cs, t, covers, v, ci, |covers|)
  {
  }

  /** Passing base line baseI at position ci keeps the walk's bounds for ci + 1. */
  lemma BaseNext(baseIdxs: seq<int>, baseI: int, ci: int)
    requires Ascending(baseIdxs) && 0 <= baseI < |baseIdxs| && baseIdxs[baseI] == ci
    requires forall k :: 0 <= k < baseI ==> baseIdxs[k] < ci
    ensures ci in baseIdxs
    ensures forall k :: 0 <= k < baseI + 1 ==> baseIdxs[k] < ci + 1
    ensures baseI + 1 < |baseIdxs| ==> baseIdxs[baseI + 1] >= ci + 1
  {
  }

  /** The cover loop of find_removals at one position. */
  method CoverCells(cs: seq<Cell>, t: UnitType, covers: seq<int>, v: int, p: int) returns (hits: seq<int>)
    requires |cs| == 81 && Lines(covers) && 1 <= v <= 9 && 0 <= p < 9
    ensures hits == CoverHits(cs, t, covers, v, p, |covers|)
  {
    hits := [];
    for coverI := 0 to |covers|
      invariant hits == CoverHits(cs, t, covers, v, p, coverI)
    {
      var j := UnitIdx(CoverType(t), covers[coverI], p);
      if HasCand(cs[j], v) {
        hits := hits + [j];
      }
    }
  }

  /**
   * find_removals, with the walk along the ascending base lines stopping
   * once all of them have been passed.
   */
  method FindRemovals(cs: seq<Cell>, t: UnitType, baseIdxs: seq<int>, covers: seq<int>, size: int, v: int)
    returns (out: seq<int>)
    requires |cs| == 81 && Lines(covers) && 1 <= v <= 9
    requires |baseIdxs| == size && Lines(baseIdxs) && Ascending(baseIdxs)
    ensures out == Removals(cs, t, baseIdxs, covers, v)
  {
    out := [];
    var baseI := 0;
    for ci := 0 to 9
      invariant 0 <= baseI <= size
      invariant forall k :: 0 <= k < baseI ==> baseIdxs[k] < ci
      invariant baseI < size ==> baseIdxs[baseI] >= ci
      invariant out == RemovalsUpTo(cs, t, baseIdxs, covers, v, ci)
    {
      if baseI < size && ci == baseIdxs[baseI] {
        BaseNext(baseIdxs, baseI, ci);
        RemovalsUpToNext(cs, t, baseIdxs, covers, v, ci);
        baseI := baseI + 1;
      } else {
        NotBase(baseIdxs, baseI, ci);
        RemovalsUpToNext(cs, t, baseIdxs, covers, v, ci);
        var hits := CoverCells(cs, t, covers, v, ci);
        out := out + hits;
      }
    }
  }

  // ------------------------------------------------------------- search

  /** The base sets of v recorded in them are sound: positions 0..8, one to size of them. */
  lemma BaseSetsOk(cs: seq<Cell>, t: UnitType, size: int, v: int)
    requires |cs| == 81 && 1 <= v <= 9
    ensures forall k :: 0 <= k < |BaseSets(cs, t, size, v)| ==> BaseOk(BaseSets(cs, t, size, v)[k], size)
  {
    var bases := BaseSets(cs, t, size, v);
    BasesUpToSound(cs, t, size, v, 9);
    forall k | 0 <= k < |bases|
      ensures BaseOk(bases[k], size)
    {
      PositionsOrder(cs, t, bases[k].unitIdx, v, 9);
    }
  }

  /** The unit indices of the bases of a combination. */
  function BaseIdxs(comb: seq<BaseSet>): (r: seq<int>)
    ensures |r| == |comb| && forall i :: 0 <= i < |r| ==> r[i] == comb[i].unitIdx
  {
    seq(|comb|, i requires 0 <= i < |comb| => comb[i].unitIdx)
  }

  /** Combination m of the base sets of v: n of them, in base order. */
  function Comb(cs: seq<Cell>, t: UnitType, n: int, v: int, m: int): (r: seq<BaseSet>)
    requires |cs| == 81 && 1 <= v <= 9 && 1 <= n <= |BaseSets(cs, t, n, v)|
    requires 0 <= m < Binom(|BaseSets(cs, t, n, v)|, n)
    ensures CombOk(r, n)
  {
    var bases := BaseSets(cs, t, n, v);
    BaseSetsOk(cs, t, n, v);
    Pick(bases, Tuples(|bases|, n)[m])
  }

  /** The step n_fish_unit records for a combination of base sets, if it is a fish with removals. */
  function CombStep(cs: seq<Cell>, t: UnitType, n: int, v: int, comb: seq<BaseSet>): Option<Step>
    requires |cs| == 81 && 1 <= v <= 9 && CombOk(comb, n)
  {
    var fish := FishOf(comb, n);
    if fish.None? then None
    else
      var removals := Removals(cs, t, BaseIdxs(comb), fish.value, v);
      if |removals| == 0 then None
      else Some(Step(FishTech(n), BasicFishStep(n, v, t, BaseIdxs(comb), fish.value, removals)))
  }

  function CombProbe(cs: seq<Cell>, t: UnitType, n: int, v: int): int -> Option<Step>
    requires |cs| == 81 && 1 <= v <= 9 && 1 <= n <= |BaseSets(cs, t, n, v)|
  {
    m => if 0 <= m < Binom(|BaseSets(cs, t, n, v)|, n) then CombStep(cs, t, n, v, Comb(cs, t, n, v, m)) else None
  }

  /** The first combination of the base sets of v, in combination order, that is a fish with removals. */
  function ValueAt(cs: seq<Cell>, t: UnitType, n: int, v: int): Option<Step>
    requires |cs| == 81 && 1 <= n <= 4 && 1 <= v <= 9
  {
    var bases := BaseSets(cs, t, n, v);
    if |bases| < n then None
    else FirstSome(CombProbe(cs, t, n, v), 0, Binom(|bases|, n))
  }

  function ValueProbe(cs: seq<Cell>, t: UnitType, n: int): int -> Option<Step>
    requires |cs| == 81 && 1 <= n <= 4
  {
    v => if 1 <= v <= 9 then ValueAt(cs, t, n, v) else None
  }

  /** n_fish_unit: the first value, ascending, with a fish of size n on base lines of type t. */
  function UnitsOf(cs: seq<Cell>, t: UnitType, n: int): Option<Step>
    requires |cs| == 81 && 1 <= n <= 4
  {
    FirstSome(ValueProbe(cs, t, n), 1, 10)
  }

  /** x_wing, swordfish, jellyfish: row bases first, then column bases. */
  function FishOfSize(cs: seq<Cell>, n: int): Option<Step>
    requires |cs| == 81 && 1 <= n <= 4
  {
    OrElse(UnitsOf(cs, Row, n), UnitsOf(cs, Col, n))
  }

  // ------------------------------------------------------------- scanner

  /** Combination m keeps the base order, so its unit indices are ascending line indices. */
  lemma CombIdxs(cs: seq<Cell>, t: UnitType, n: int, v: int, m: int)
    requires |cs| == 81 && 1 <= v <= 9 && 1 <= n <= |BaseSets(cs, t, n, v)|
    requires 0 <= m < Binom(|BaseSets(cs, t, n, v)|, n)
    ensures Lines(BaseIdxs(Comb(cs, t, n, v, m))) && Ascending(BaseIdxs(Comb(cs, t, n, v, m)))
  {
    var bases := BaseSets(cs, t, n, v);
    var tup := Tuples(|bases|, n)[m];
    TuplesComplete(|bases|, n, tup);
    BasesUpToSound(cs, t, n, v, 9);
    var idxs := BaseIdxs(Comb(cs, t, n, v, m));
    forall i, j | 0 <= i < j < |idxs|
      ensures idxs[i] < idxs[j]
    {
      assert tup[i] < tup[j];
    }
  }

  /** The copy of the combination's unit indices into the step. */
  method CopyBaseIdxs(comb: seq<BaseSet>) returns (baseIdxs: seq<int>)
    ensures baseIdxs == BaseIdxs(comb)
  {
    baseIdxs := [];
    for i := 0 to |comb|
      invariant |baseIdxs| == i && forall k :: 0 <= k < i ==> baseIdxs[k] == comb[k].unitIdx
    {
      baseIdxs := baseIdxs + [comb[i].unitIdx];
    }
  }

  /** The test n_fish_unit makes of one combination of base sets. */
  method CombCheck(cs: seq<Cell>, t: UnitType, n: int, v: int, comb: seq<BaseSet>) returns (r: Option<Step>)
    requires |cs| == 81 && 1 <= n <= 4 && 1 <= v <= 9 && CombOk(comb, n)
    requires Lines(BaseIdxs(comb)) && Ascending(BaseIdxs(comb))
    ensures r == CombStep(cs, t, n, v, comb)
  {
    var ok, covers := IsValidFish(comb, n);
    if !ok {
      return None;
    }
    var baseIdxs := CopyBaseIdxs(comb);
    var removals := FindRemovals(cs, t, baseIdxs, covers, n, v);
    if |removals| == 0 {
      return None;
    }
    r := Some(Step(FishTech(n), BasicFishStep(n, v, t, baseIdxs, covers, removals)));
  }

  /** The body of n_fish_unit for one value: the loop over the combinations of its base sets. */
  method ValueCombs(cs: seq<Cell>, t: UnitType, n: int, v: int, bases: seq<BaseSet>) returns (r: Option<Step>)
    requires |cs| == 81 && 1 <= n <= 4 && 1 <= v <= 9
    requires bases == BaseSets(cs, t, n, v) && n <= |bases|
    ensures r == ValueAt(cs, t, n, v)
  {
    var combs := GenerateCombinations(bases, n);
    var ci := 0;
    while ci < |combs|
      invariant 0 <= ci <= |combs|
      invariant FirstSome(CombProbe(cs, t, n, v), ci, |combs|) == ValueAt(cs, t, n, v)
    {
      var comb := combs[ci];
      assert comb == Comb(cs, t, n, v, ci);
      assert CombProbe(cs, t, n, v)(ci) == CombStep(cs, t, n, v, comb);
      CombIdxs(cs, t, n, v, ci);
      r := CombCheck(cs, t, n, v, comb);
      if r.Some? {
        return;
      }
      ci := ci + 1;
    }
    r := None;
  }

  /** n_fish_unit: loops over the values and the combinations of their base sets. */
  method NFishUnit(g: Grid, n: int, t: UnitType) returns (r: Option<Step>)
    requires g.Valid() && 1 <= n <= 4
    ensures r == UnitsOf(g.cells[..], t, n)
  {
    var cs := g.cells[..];
    var v := 1;
    while v <= 9
      invariant 1 <= v <= 10
      invariant FirstSome(ValueProbe(cs, t, n), v, 10) == UnitsOf(cs, t, n)
    {
      assert ValueProbe(cs, t, n)(v) == ValueAt(cs, t, n, v);
      var bases := FindBaseSets(cs, t, n, v);
      if |bases| >= n {
        r := ValueCombs(cs, t, n, v, bases);
        if r.Some? {
          return;
        }
      }
      v := v + 1;
    }
    r := None;
  }

  /** x_wing (n = 2), swordfish (n = 3) and jellyfish (n = 4): row bases, then column bases. */
  method NFish(g: Grid, n: int) returns (r: Option<Step>)
    requires g.Valid() && 2 <= n <= 4
    ensures r == FishOfSize(g.cells[..], n)
  {
    r := NFishUnit(g, n, Row);
    if r.Some? {
      return;
    }
    r := NFishUnit(g, n, Col);
  }

  // ------------------------------------------------------------ properties

  /** A combination drawn from the base sets of v: ascending lines, each with its positions of v, one to n of them. */
  predicate FromBases(cs: seq<Cell>, t: UnitType, n: int, v: int, comb: seq<BaseSet>)
    requires |cs| == 81 && 1 <= v <= 9
  {
    CombOk(comb, n) && Lines(BaseIdxs(comb)) && Ascending(BaseIdxs(comb)) &&
    forall i :: 0 <= i < |comb| ==>
      0 <= comb[i].unitIdx < 9 && comb[i].cellIdxs == Positions(cs, t, comb[i].unitIdx, v, 9) &&
      1 <= |comb[i].cellIdxs| <= n
  }

  /** The base lines of a fish: n ascending lines, each holding v in one to n cells. */
  predicate BaseLines(cs: seq<Cell>, t: UnitType, n: int, v: int, baseIdxs: seq<int>)
    requires |cs| == 81 && 1 <= v <= 9
  {
    |baseIdxs| == n && Lines(baseIdxs) && Ascending(baseIdxs) &&
    forall k :: 0 <= k < |baseIdxs| ==> 1 <= |Positions(cs, t, baseIdxs[k], v, 9)| <= n
  }

  /** Some base line holds v at position p. */
  ghost predicate BaseHolds(cs: seq<Cell>, t: UnitType, v: int, baseIdxs: seq<int>, p: int)
    requires |cs| == 81 && 1 <= v <= 9 && Lines(baseIdxs) && 0 <= p < 9
  {
    exists k :: 0 <= k < |baseIdxs| && HasCand(cs[UnitIdx(t, baseIdxs[k], p)], v)
  }

  /** The cover lines: ascending, exactly the positions at which some base line holds v. */
  ghost predicate CoverLines(cs: seq<Cell>, t: UnitType, v: int, baseIdxs: seq<int>, covers: seq<int>)
    requires |cs| == 81 && 1 <= v <= 9 && Lines(baseIdxs)
  {
    Lines(covers) && Ascending(covers) &&
    forall p :: 0 <= p < 9 ==> (p in covers <==> BaseHolds(cs, t, v, baseIdxs, p))
  }

  /**
   * The removals: not empty, and exactly the cells holding v that lie on a
   * cover line but on no base line.
   */
  ghost predicate RemovalsAre(cs: seq<Cell>, t: UnitType, v: int, baseIdxs: seq<int>, covers: seq<int>, rem: seq<int>)
    requires |cs| == 81 && 1 <= v <= 9
  {
    |rem| > 0 && InGrid(rem) &&
    forall j :: j in rem <==>
      0 <= j < 81 && HasCand(cs[j], v) && UnitOf(CoverType(t), j) in covers && UnitOf(t, j) !in baseIdxs
  }

  /** Everything a fish step of size n on base lines of type t records. */
  ghost predicate Records(cs: seq<Cell>, n: int, t: UnitType, s: Step)
    requires |cs| == 81
  {
    s.tech == FishTech(n) && s.data.BasicFishStep? &&
    s.data.size == n && s.data.unitType == t && 1 <= s.data.value <= 9 &&
    BaseLines(cs, t, n, s.data.value, s.data.baseIdxs) && |s.data.coverIdxs| == n &&
    CoverLines(cs, t, s.data.value, s.data.baseIdxs, s.data.coverIdxs) &&
    RemovalsAre(cs, t, s.data.value, s.data.baseIdxs, s.data.coverIdxs, s.data.removalIdxs)
  }

  /** A combination of base sets is a fish with removals: its bases cover n positions, and value v is left to remove elsewhere on them. */
  predicate IsFish(cs: seq<Cell>, t: UnitType, n: int, v: int, comb: seq<BaseSet>)
    requires |cs| == 81 && 1 <= v <= 9
  {
    |CoveredUpTo(comb, 9)| == n &&
    (CoveredUpToFacts(comb, 9);
     |Removals(cs, t, BaseIdxs(comb), CoveredUpTo(comb, 9), v)| > 0)
  }

  /** A combination yields a step exactly when it is a fish with removals. */
  lemma CombStepSome(cs: seq<Cell>, t: UnitType, n: int, v: int, comb: seq<BaseSet>)
    requires |cs| == 81 && 1 <= v <= 9 && CombOk(comb, n)
    ensures CombStep(cs, t, n, v, comb).Some? <==> IsFish(cs, t, n, v, comb)
  {
    FishOfCovered(comb, n);
  }

  /** Position p is covered by a combination of base sets exactly when one of its base lines holds v there. */
  lemma CoveredHolds(cs: seq<Cell>, t: UnitType, n: int, v: int, comb: seq<BaseSet>, p: int)
    requires |cs| == 81 && 1 <= v <= 9 && FromBases(cs, t, n, v, comb) && 0 <= p < 9
    ensures Covered(comb, p) <==> BaseHolds(cs, t, v, BaseIdxs(comb), p)
  {
    var idxs := BaseIdxs(comb);
    if Covered(comb, p) {
      var i :| 0 <= i < |comb| && p in comb[i].cellIdxs;
      PositionsMember(cs, t, comb[i].unitIdx, v, 9);
      assert HasCand(cs[UnitIdx(t, idxs[i], p)], v);
    }
    if BaseHolds(cs, t, v, idxs, p) {
      var k :| 0 <= k < |idxs| && HasCand(cs[UnitIdx(t, idxs[k], p)], v);
      PositionsMember(cs, t, comb[k].unitIdx, v, 9);
      assert p in comb[k].cellIdxs;
    }
  }

  /** The step of a fish records its base lines, its cover lines and its removals. */
  lemma CombStepFound(cs: seq<Cell>, t: UnitType, n: int, v: int, comb: seq<BaseSet>)
    requires |cs| == 81 && t != Box && 1 <= v <= 9 && FromBases(cs, t, n, v, comb)
    requires CombStep(cs, t, n, v, comb).Some?
    ensures Records(cs, n, t, CombStep(cs, t, n, v, comb).value)
    ensures CombStep(cs, t, n, v, comb).value.data.value == v
  {
    var d := CombStep(cs, t, n, v, comb).value.data;
    var idxs := BaseIdxs(comb);
    FishOfCovered(comb, n);
    CoveredUpToFacts(comb, 9);
    forall p | 0 <= p < 9
      ensures p in d.coverIdxs <==> BaseHolds(cs, t, v, idxs, p)
    {
      CoveredHolds(cs, t, n, v, comb, p);
    }
    assert BaseLines(cs, t, n, v, idxs);
    RemovalsUpToMember(cs, t, idxs, d.coverIdxs, v, 9);
    RemovalsInGrid(cs, t, idxs, d.coverIdxs, v);
    forall j | 0 <= j < 81 {
      CoverPos(t, j);
    }
  }

  /** Combination m is drawn from the base sets of v. */
  lemma CombFromBases(cs: seq<Cell>, t: UnitType, n: int, v: int, m: int)
    requires |cs| == 81 && 1 <= v <= 9 && 1 <= n <= |BaseSets(cs, t, n, v)|
    requires 0 <= m < Binom(|BaseSets(cs, t, n, v)|, n)
    ensures FromBases(cs, t, n, v, Comb(cs, t, n, v, m))
  {
    CombIdxs(cs, t, n, v, m);
    BasesUpToSound(cs, t, n, v, 9);
  }

  /** Each combination of the base sets is the one some probe tests. */
  lemma CombProbed(cs: seq<Cell>, t: UnitType, n: int, v: int, tup: seq<int>) returns (m: int)
    requires |cs| == 81 && 1 <= v <= 9 && 1 <= n <= |BaseSets(cs, t, n, v)|
    requires IsComb(tup, |BaseSets(cs, t, n, v)|, n, 0)
    ensures 0 <= m < Binom(|BaseSets(cs, t, n, v)|, n) && Comb(cs, t, n, v, m) == Pick(BaseSets(cs, t, n, v), tup)
    ensures CombProbe(cs, t, n, v)(m).Some? <==> IsFish(cs, t, n, v, Pick(BaseSets(cs, t, n, v), tup))
  {
    var bases := BaseSets(cs, t, n, v);
    var L := Tuples(|bases|, n);
    TuplesComplete(|bases|, n, tup);
    m :| 0 <= m < |L| && L[m] == tup;
    var comb := Comb(cs, t, n, v, m);
    assert CombProbe(cs, t, n, v)(m) == CombStep(cs, t, n, v, comb);
    CombStepSome(cs, t, n, v, comb);
  }

  /** Each probe tests a combination of the base sets. */
  lemma ProbeComb(cs: seq<Cell>, t: UnitType, n: int, v: int, m: int) returns (tup: seq<int>)
    requires |cs| == 81 && 1 <= v <= 9 && 1 <= n <= |BaseSets(cs, t, n, v)|
    requires 0 <= m < Binom(|BaseSets(cs, t, n, v)|, n)
    ensures IsComb(tup, |BaseSets(cs, t, n, v)|, n, 0) && Comb(cs, t, n, v, m) == Pick(BaseSets(cs, t, n, v), tup)
    ensures CombProbe(cs, t, n, v)(m).Some? <==> IsFish(cs, t, n, v, Pick(BaseSets(cs, t, n, v), tup))
  {
    var bases := BaseSets(cs, t, n, v);
    tup := Tuples(|bases|, n)[m];
    TuplesComplete(|bases|, n, tup);
    var comb := Comb(cs, t, n, v, m);
    assert CombProbe(cs, t, n, v)(m) == CombStep(cs, t, n, v, comb);
    CombStepSome(cs, t, n, v, comb);
  }

  /** A value yields nothing exactly when no n of its base sets form a fish with removals. */
  lemma ValueAtNone(cs: seq<Cell>, t: UnitType, n: int, v: int)
    requires |cs| == 81 && 1 <= n <= 4 && 1 <= v <= 9
    ensures var bases := BaseSets(cs, t, n, v);
      ValueAt(cs, t, n, v).None? <==>
      |bases| < n || forall tup :: IsComb(tup, |bases|, n, 0) ==> !IsFish(cs, t, n, v, Pick(bases, tup))
  {
    var bases := BaseSets(cs, t, n, v);
    if |bases| >= n {
      var f := CombProbe(cs, t, n, v);
      var hi := Binom(|bases|, n);
      FirstSomeNone(f, 0, hi);
      if ValueAt(cs, t, n, v).None? {
        forall tup | IsComb(tup, |bases|, n, 0)
          ensures !IsFish(cs, t, n, v, Pick(bases, tup))
        {
          var m := CombProbed(cs, t, n, v, tup);
        }
      } else {
        var m := FirstSomeSome(f, 0, hi);
        var tup := ProbeComb(cs, t, n, v, m);
      }
    }
  }

  /** A step for value v records a fish of v. */
  lemma ValueAtFound(cs: seq<Cell>, t: UnitType, n: int, v: int)
    requires |cs| == 81 && t != Box && 1 <= n <= 4 && 1 <= v <= 9 && ValueAt(cs, t, n, v).Some?
    ensures Records(cs, n, t, ValueAt(cs, t, n, v).value) && ValueAt(cs, t, n, v).value.data.value == v
  {
    var bases := BaseSets(cs, t, n, v);
    var f := CombProbe(cs, t, n, v);
    var m := FirstSomeSome(f, 0, Binom(|bases|, n));
    var comb := Comb(cs, t, n, v, m);
    assert f(m) == CombStep(cs, t, n, v, comb);
    CombFromBases(cs, t, n, v, m);
    CombStepFound(cs, t, n, v, comb);
  }

  /** A step on base lines of type t records a fish of the smallest value having one. */
  lemma UnitsOfFound(cs: seq<Cell>, t: UnitType, n: int)
    requires |cs| == 81 && t != Box && 1 <= n <= 4 && UnitsOf(cs, t, n).Some?
    ensures var s := UnitsOf(cs, t, n).value;
      Records(cs, n, t, s) && forall v :: 1 <= v < s.data.value ==> ValueAt(cs, t, n, v).None?
  {
    var f := ValueProbe(cs, t, n);
    var v := FirstSomeSome(f, 1, 10);
    assert f(v) == ValueAt(cs, t, n, v);
    ValueAtFound(cs, t, n, v);
    forall v' | 1 <= v' < v
      ensures ValueAt(cs, t, n, v').None?
    {
      assert f(v') == ValueAt(cs, t, n, v');
    }
  }

  /** Base lines of type t yield nothing exactly when no value has a fish of size n on them. */
  lemma UnitsOfNone(cs: seq<Cell>, t: UnitType, n: int)
    requires |cs| == 81 && 1 <= n <= 4
    ensures UnitsOf(cs, t, n).None? <==> forall v :: 1 <= v <= 9 ==> ValueAt(cs, t, n, v).None?
  {
    var f := ValueProbe(cs, t, n);
    FirstSomeNone(f, 1, 10);
    assert forall v :: 1 <= v <= 9 ==> f(v) == ValueAt(cs, t, n, v);
  }

  /** A fish step of size n is found on row bases, or on column bases when the rows have none. */
  lemma FishOfSizeFound(cs: seq<Cell>, n: int)
    requires |cs| == 81 && 2 <= n <= 4 && FishOfSize(cs, n).Some?
    ensures var s := FishOfSize(cs, n).value;
      s.data.BasicFishStep? && Records(cs, n, s.data.unitType, s) &&
      (s.data.unitType == Col ==> UnitsOf(cs, Row, n).None?) && s.data.unitType != Box
  {
    if UnitsOf(cs, Row, n).Some? {
      UnitsOfFound(cs, Row, n);
    } else {
      UnitsOfFound(cs, Col, n);
    }
  }

  // ---------------------------------------------------------- apply, revert

  /** A fish step whose value is a candidate and whose removals are cell indices. */
  predicate WellFormed(s: Step)
  {
    s.data.BasicFishStep? && 1 <= s.data.value <= 9 && InGrid(s.data.removalIdxs)
  }

  /** basic_fish_apply: the value leaves every removal cell. */
  method BasicFishApply(g: Grid, s: Step)
    requires g.Valid() && WellFormed(s)
    modifies g.cells
    ensures g.Valid()
    ensures g.cells[..] == RemoveCandAll(old(g.cells[..]), s.data.removalIdxs, s.data.value, |s.data.removalIdxs|)
  {
    RemoveCandFrom(g, s.data.removalIdxs, s.data.value);
  }

  /** basic_fish_revert: the value goes back to every removal cell. */
  method BasicFishRevert(g: Grid, s: Step)
    requires g.Valid() && WellFormed(s)
    modifies g.cells
    ensures g.Valid()
    ensures g.cells[..] == AddCandAll(old(g.cells[..]), s.data.removalIdxs, s.data.value, |s.data.removalIdxs|)
  {
    AddCandTo(g, s.data.removalIdxs, s.data.value);
  }

  /** Reverting a fish after applying it gives back the grid it was scanned from. */
  lemma BasicFishRoundTrip(cs: seq<Cell>, n: int)
    requires Cells81(cs) && 2 <= n <= 4 && FishOfSize(cs, n).Some?
    ensures WellFormed(FishOfSize(cs, n).value)
    ensures var d := FishOfSize(cs, n).value.data;
      AddCandAll(RemoveCandAll(cs, d.removalIdxs, d.value, |d.removalIdxs|), d.removalIdxs, d.value, |d.removalIdxs|) == cs
  {
    FishOfSizeFound(cs, n);
    var d := FishOfSize(cs, n).value.data;
    forall k | 0 <= k < |d.removalIdxs|
      ensures HasCand(cs[d.removalIdxs[k]], d.value)
    {
      assert d.removalIdxs[k] in d.removalIdxs;
    }
    RemoveCandRevert(cs, d.removalIdxs, d.value);
  }
}
