// The cell-list helpers the technique files call: cells_with_cand,
// cells_with_n_cands_max, cells_with_cands_some, cells_cand_union,
// grid_common_peers, cells_with_removals, cells_missing_values_to_arr,
// cell_add_cands and cell_remove_cands.  Their definitions are not among the
// modelled files; each is given the plain meaning its name and its callers
// imply.  A list of cells is a list of cell indices into the 81 cells (what
// cells_idxs turns a list of cell references into), so every helper returns indices.

module CellLists {
  import opened CandSets
  import opened Cells
  import opened Grids
  import opened Search
  import opened Combinations

  /** rows[u], cols[u] or boxes[u], as the indices of its nine cells in view order. */
  function UnitIdxs(t: UnitType, u: int): (r: seq<int>)
    requires 0 <= u < 9
    ensures |r| == 9 && forall p :: 0 <= p < 9 ==> r[p] == UnitIdx(t, u, p)
  {
    seq(9, p requires 0 <= p < 9 => UnitIdx(t, u, p))
  }

  /** The cells of a unit are its indices, each once, and exactly those of that unit. */
  lemma UnitIdxsFacts(t: UnitType, u: int)
    requires 0 <= u < 9
    ensures forall p :: 0 <= p < 9 ==> 0 <= UnitIdxs(t, u)[p] < 81 && UnitOf(t, UnitIdxs(t, u)[p]) == u
    ensures forall j :: 0 <= j < 81 && UnitOf(t, j) == u ==> j in UnitIdxs(t, u)
    ensures forall p, q :: 0 <= p < q < 9 ==> UnitIdxs(t, u)[p] != UnitIdxs(t, u)[q]
  {
    forall p | 0 <= p < 9
      ensures UnitOf(t, UnitIdxs(t, u)[p]) == u
    {
      UnitEntryUnit(t, u, p);
    }
    forall j | 0 <= j < 81 && UnitOf(t, j) == u
      ensures j in UnitIdxs(t, u)
    {
      UnitBack(t, j);
      assert UnitIdxs(t, u)[PosOf(t, j)] == j;
    }
    forall p, q | 0 <= p < q < 9
      ensures UnitIdxs(t, u)[p] != UnitIdxs(t, u)[q]
    {
      UnitPeers(t, u, p, q);
    }
  }

  /** A member of a unit's index list is a cell of that unit. */
  lemma UnitIdxsMember(t: UnitType, u: int, j: int)
    requires 0 <= u < 9 && j in UnitIdxs(t, u)
    ensures 0 <= j < 81 && UnitOf(t, j) == u
  {
    var p :| 0 <= p < 9 && UnitIdxs(t, u)[p] == j;
    UnitEntryUnit(t, u, p);
  }

  /** Within a box, the offset of position p from the box's first cell grows with p. */
  lemma BoxOffsetMono(p: int, q: int)
    requires 0 <= p < q < 9
    ensures 9 * (p / 3) + p % 3 < 9 * (q / 3) + q % 3
  {
    assert p / 3 <= q / 3;
    if p / 3 == q / 3 {
      assert p % 3 < q % 3;
    }
  }

  /** Later positions of a unit view hold later cells. */
  lemma UnitAscending(t: UnitType, u: int, p: int, q: int)
    requires 0 <= u < 9 && 0 <= p < q < 9
    ensures UnitIdx(t, u, p) < UnitIdx(t, u, q)
  {
    if t == Box {
      BoxOffsetMono(p, q);
    }
  }

  /** A unit's cells, in view order, have ascending indices. */
  lemma FilterAscendingUnit(t: UnitType, u: int)
    requires 0 <= u < 9
    ensures Ascending(UnitIdxs(t, u))
  {
    forall p, q | 0 <= p < q < 9
      ensures UnitIdxs(t, u)[p] < UnitIdxs(t, u)[q]
    {
      UnitAscending(t, u, p, q);
    }
  }

  /** Every entry is a cell index. */
  predicate InGrid(idxs: seq<int>)
  {
    forall k :: 0 <= k < |idxs| ==> 0 <= idxs[k] < 81
  }

  /** The cells of the list, in list order. */
  function CellsOf(cs: seq<Cell>, idxs: seq<int>): (r: seq<Cell>)
    requires |cs| == 81 && InGrid(idxs)
    ensures |r| == |idxs|
  {
    seq(|idxs|, k requires 0 <= k < |idxs| => cs[idxs[k]])
  }

  // --------------------------------------------------------------- filters

  /** cells_with_cand: the cells of the list holding cand, in list order. */
  function CellsWithCand(cs: seq<Cell>, idxs: seq<int>, cand: int): seq<int>
    requires 0 <= cand <= 9
  {
    Filter(idxs, j => 0 <= j < |cs| && HasCand(cs[j], cand))
  }

  /** Filtering a list of cell indices leaves cell indices. */
  lemma FilterInGrid(idxs: seq<int>, p: int -> bool)
    requires InGrid(idxs)
    ensures InGrid(Filter(idxs, p))
  {
    FilterEntries(idxs, p);
  }

  /** cells_with_cand keeps exactly the listed cells holding cand, in list order. */
  lemma CellsWithCandFacts(cs: seq<Cell>, idxs: seq<int>, cand: int)
    requires 0 <= cand <= 9
    ensures forall j :: j in CellsWithCand(cs, idxs, cand) <==> j in idxs && 0 <= j < |cs| && HasCand(cs[j], cand)
    ensures Ascending(idxs) ==> Ascending(CellsWithCand(cs, idxs, cand))
    ensures InGrid(idxs) ==> InGrid(CellsWithCand(cs, idxs, cand))
    ensures forall k :: 0 <= k < |CellsWithCand(cs, idxs, cand)| ==>
      0 <= CellsWithCand(cs, idxs, cand)[k] < |cs| && HasCand(cs[CellsWithCand(cs, idxs, cand)[k]], cand)
  {
    var p := j => 0 <= j < |cs| && HasCand(cs[j], cand);
    FilterMember(idxs, p);
    FilterEntries(idxs, p);
    if Ascending(idxs) {
      FilterAscending(idxs, p);
    }
  }

  /** cells_with_n_cands_max: the cells of the list with one to n candidates, in list order. */
  function CellsWithNCandsMax(cs: seq<Cell>, idxs: seq<int>, n: int): seq<int>
  {
    Filter(idxs, j => 0 <= j < |cs| && 1 <= cs[j].cands.len <= n)
  }

  /** cells_with_n_cands_max keeps exactly the listed cells with one to n candidates, in list order. */
  lemma CellsWithNCandsMaxFacts(cs: seq<Cell>, idxs: seq<int>, n: int)
    ensures forall j :: j in CellsWithNCandsMax(cs, idxs, n) <==>
      j in idxs && 0 <= j < |cs| && 1 <= cs[j].cands.len <= n
    ensures Ascending(idxs) ==> Ascending(CellsWithNCandsMax(cs, idxs, n))
    ensures InGrid(idxs) ==> InGrid(CellsWithNCandsMax(cs, idxs, n))
  {
    var p := j => 0 <= j < |cs| && 1 <= cs[j].cands.len <= n;
    FilterMember(idxs, p);
    FilterEntries(idxs, p);
    if Ascending(idxs) {
      FilterAscending(idxs, p);
    }
  }

  /** Combination m of a list: k of its entries, in list order. */
  lemma PickFacts(arr: seq<int>, k: int, m: int)
    requires 1 <= k <= |arr| && 0 <= m < Binom(|arr|, k)
    ensures |Pick(arr, Tuples(|arr|, k)[m])| == k
    ensures forall x :: x in Pick(arr, Tuples(|arr|, k)[m]) ==> x in arr
    ensures Ascending(arr) ==> Ascending(Pick(arr, Tuples(|arr|, k)[m]))
    ensures InGrid(arr) ==> InGrid(Pick(arr, Tuples(|arr|, k)[m]))
  {
    var t := Tuples(|arr|, k)[m];
    TuplesComplete(|arr|, k, t);
    assert IsComb(t, |arr|, k, 0);
    var c := Pick(arr, t);
    forall x | x in c
      ensures x in arr
    {
      var j :| 0 <= j < |c| && c[j] == x;
      assert arr[t[j]] == x;
    }
  }

  /** The two sets share a candidate (their masks meet). */
  predicate Meets(a: CandSet, b: CandSet)
  {
    a.cands & b.cands != NoCands
  }

  lemma MeetsHas(a: CandSet, b: CandSet)
    requires a.cands <= AllCands
    ensures Meets(a, b) <==> exists v :: 1 <= v <= 9 && Has(a, v) && Has(b, v)
  {
    if exists v :: 1 <= v <= 9 && Has(a, v) && Has(b, v) {
      var v :| 1 <= v <= 9 && Has(a, v) && Has(b, v);
      MeetsSome(a, b, v);
    } else {
      MeetsNone(a, b);
    }
  }

  lemma MeetsSome(a: CandSet, b: CandSet, v: int)
    requires 1 <= v <= 9 && Has(a, v) && Has(b, v)
    ensures Meets(a, b)
  {
    MaskHasAnd(a.cands, b.cands, v);
    MeetsAt(a.cands & b.cands, v);
  }

  lemma MeetsNone(a: CandSet, b: CandSet)
    requires a.cands <= AllCands
    requires forall v :: 1 <= v <= 9 ==> !(Has(a, v) && Has(b, v))
    ensures !Meets(a, b)
  {
    forall v | 1 <= v <= 9
      ensures !(MaskHas(a.cands, v) && MaskHas(b.cands, v))
    {
      assert !(Has(a, v) && Has(b, v));
    }
    MaskAndNone(a.cands, b.cands);
  }

  /** Two masks, the first within 0x1ff, sharing no value have an empty intersection. */
  lemma MaskAndNone(x: bv32, y: bv32)
    requires x <= AllCands
    requires forall v :: 1 <= v <= 9 ==> !(MaskHas(x, v) && MaskHas(y, v))
    ensures x & y == NoCands
  {
    AndNotBound(x, y);
    MaskAndEach(x, y, x & y);
    MaskNone(x & y);
  }

  /** The values of x & y are those of both. */
  lemma MaskAndEach(x: bv32, y: bv32, z: bv32)
    requires z == x & y
    requires forall v :: 1 <= v <= 9 ==> !(MaskHas(x, v) && MaskHas(y, v))
    ensures forall v :: 1 <= v <= 9 ==> !MaskHas(z, v)
  {
    forall v | 1 <= v <= 9
      ensures !MaskHas(z, v)
    {
      MaskHasAnd(x, y, v);
    }
  }

  /** A mask within 0x1ff holding no value is the empty mask. */
  lemma MaskNone(x: bv32)
    requires x <= AllCands && forall v :: 1 <= v <= 9 ==> !MaskHas(x, v)
    ensures x == NoCands
  {
    forall v | 1 <= v <= 9
      ensures MaskHas(x, v) <==> MaskHas(NoCands, v)
    {
      NoCandsHasNone(v);
    }
    MaskExtValues(x, NoCands);
  }

  lemma NoCandsHasNone(v: int)
    requires 1 <= v <= 9
    ensures !MaskHas(NoCands, v)
  {
  }

  lemma MeetsAt(x: bv32, v: int)
    requires 1 <= v <= 9 && MaskHas(x, v)
    ensures x != NoCands
  {
  }

  /** cells_with_cands_some: the cells of the list holding some candidate of set, in list order. */
  function CellsWithCandsSome(cs: seq<Cell>, idxs: seq<int>, set_: CandSet): seq<int>
  {
    Filter(idxs, j => 0 <= j < |cs| && Meets(cs[j].cands, set_))
  }

  /** cells_cand_union: the union of the candidates of the cells of the list. */
  function CellsCandUnion(cs: seq<Cell>, idxs: seq<int>): (r: CandSet)
    requires |cs| == 81 && InGrid(idxs)
    ensures forall v :: 1 <= v <= 9 ==>
      (Has(r, v) <==> exists k :: 0 <= k < |idxs| && HasCand(cs[idxs[k]], v))
  {
    var sets := seq(|idxs|, k requires 0 <= k < |idxs| => cs[idxs[k]].cands);
    assert forall v :: 1 <= v <= 9 ==> (SomeHas(sets, v) <==> exists k :: 0 <= k < |idxs| && HasCand(cs[idxs[k]], v)) by {
      forall v | 1 <= v <= 9
        ensures SomeHas(sets, v) <==> exists k :: 0 <= k < |idxs| && HasCand(cs[idxs[k]], v)
      {
        if exists k :: 0 <= k < |idxs| && HasCand(cs[idxs[k]], v) {
          var k :| 0 <= k < |idxs| && HasCand(cs[idxs[k]], v);
          assert Has(sets[k], v);
        }
      }
    }
    UnionOf(sets)
  }

  lemma CellsCandUnionValid(cs: seq<Cell>, idxs: seq<int>)
    requires Cells81(cs) && InGrid(idxs)
    ensures Valid(CellsCandUnion(cs, idxs))
  {
    var sets := seq(|idxs|, k requires 0 <= k < |idxs| => cs[idxs[k]].cands);
    assert AllBounded(sets);
  }

  /** The cell j is a peer of every cell of the list. */
  predicate PeerOfAll(idxs: seq<int>, j: int)
  {
    0 <= j < 81 && forall k :: 0 <= k < |idxs| ==> 0 <= idxs[k] < 81 && Peers(idxs[k], j)
  }

  /** grid_common_peers: the peers shared by every cell of the list, in peer-table order of its first cell. */
  function CommonPeers(idxs: seq<int>): seq<int>
    requires |idxs| > 0 && 0 <= idxs[0] < 81
  {
    Filter(PeerList(idxs[0]), j => PeerOfAll(idxs, j))
  }

  /** The common peers are exactly the cells that are peers of all, ascending, none in the list. */
  lemma CommonPeersFacts(idxs: seq<int>)
    requires |idxs| > 0 && InGrid(idxs)
    ensures forall j :: j in CommonPeers(idxs) <==> PeerOfAll(idxs, j)
    ensures Ascending(CommonPeers(idxs)) && InGrid(CommonPeers(idxs))
    ensures forall k :: 0 <= k < |idxs| ==> idxs[k] !in CommonPeers(idxs)
    ensures |CommonPeers(idxs)| <= NumPeers
  {
    var P := PeerList(idxs[0]);
    var p := j => PeerOfAll(idxs, j);
    PeerListFacts(idxs[0]);
    FilterMember(P, p);
    FilterAscending(P, p);
    forall j | PeerOfAll(idxs, j)
      ensures j in P
    {
      assert Peers(idxs[0], j);
      PeersSymmetric(idxs[0], j);
    }
    forall k | 0 <= k < |idxs|
      ensures idxs[k] !in CommonPeers(idxs)
    {
      PeersSymmetric(idxs[k], idxs[k]);
    }
    forall n | 0 <= n < |CommonPeers(idxs)|
      ensures 0 <= CommonPeers(idxs)[n] < 81
    {
      assert CommonPeers(idxs)[n] in CommonPeers(idxs);
    }
  }

  /** cells_with_removals, the removed candidates: what each listed cell shares with set. */
  function RemovedCands(cs: seq<Cell>, idxs: seq<int>, set_: CandSet): (r: seq<CandSet>)
    requires |cs| == 81 && InGrid(idxs)
    ensures |r| == |idxs|
  {
    seq(|idxs|, k requires 0 <= k < |idxs| => Intersect(cs[idxs[k]].cands, set_))
  }

  /** cells_with_removals: the listed cells sharing a candidate with set, and what each shares. */
  function CellsWithRemovals(cs: seq<Cell>, idxs: seq<int>, set_: CandSet): (r: (seq<int>, seq<CandSet>))
    requires |cs| == 81 && InGrid(idxs)
    ensures |r.1| == |r.0|
  {
    CellsWithCandsSomeFacts(cs, idxs, set_);
    var cells := CellsWithCandsSome(cs, idxs, set_);
    (cells, RemovedCands(cs, cells, set_))
  }

  /** cells_with_cands_some keeps exactly the listed cells sharing a candidate with set, in list order. */
  lemma CellsWithCandsSomeFacts(cs: seq<Cell>, idxs: seq<int>, set_: CandSet)
    ensures forall j :: j in CellsWithCandsSome(cs, idxs, set_) <==>
      j in idxs && 0 <= j < |cs| && Meets(cs[j].cands, set_)
    ensures Ascending(idxs) ==> Ascending(CellsWithCandsSome(cs, idxs, set_))
    ensures InGrid(idxs) ==> InGrid(CellsWithCandsSome(cs, idxs, set_))
    ensures |CellsWithCandsSome(cs, idxs, set_)| <= |idxs|
  {
    var p := j => 0 <= j < |cs| && Meets(cs[j].cands, set_);
    FilterMember(idxs, p);
    FilterEntries(idxs, p);
    if Ascending(idxs) {
      FilterAscending(idxs, p);
    }
  }

  /** The values unit u of type t is missing, ascending. */
  function UnitMissing(cs: seq<Cell>, t: UnitType, u: int): (r: seq<int>)
    requires Cells81(cs) && 0 <= u < 9
    ensures forall k :: 0 <= k < |r| ==> 1 <= r[k] <= 9
  {
    UnitDigits(cs, t, u);
    var r := MissingValuesToArr(UnitCells(cs, t, u));
    assert forall k :: 0 <= k < |r| ==> r[k] in r;
    r
  }

  /** The nine cells of any unit of a well-formed grid hold digits. */
  lemma UnitDigits(cs: seq<Cell>, t: UnitType, u: int)
    requires Cells81(cs) && 0 <= u < 9
    ensures Digits(UnitCells(cs, t, u))
  {
    assert forall i :: 0 <= i < 81 ==> CellAt(cs[i], i);
    DigitsUnit(cs, t, u);
  }

  /** cells_missing_values_to_arr: the values no cell of the list holds, ascending. */
  function MissingValuesToArr(cells: seq<Cell>): (r: seq<int>)
    requires Digits(cells)
    ensures |r| <= 9 && Ascending(r)
    ensures forall v :: v in r <==> 1 <= v <= 9 && !Holds(cells, v)
  {
    forall v | 1 <= v <= 9
      ensures Has(MissingOf(cells), v) <==> !Holds(cells, v)
    {
      MissingOfHas(cells, v);
    }
    ToValues(MissingOf(cells))
  }

  // ------------------------------------------------------------ set algebra

  /** The common candidates of two sets. */
  function Intersect(a: CandSet, b: CandSet): (r: CandSet)
    ensures Valid(r) && forall v :: 1 <= v <= 9 ==> (Has(r, v) <==> Has(a, v) && Has(b, v))
  {
    assert forall v :: 1 <= v <= 9 ==> (AllHave([a, b], v) <==> Has(a, v) && Has(b, v)) by {
      forall v | 1 <= v <= 9
        ensures AllHave([a, b], v) <==> Has(a, v) && Has(b, v)
      {
        assert [a, b][0] == a && [a, b][1] == b;
      }
    }
    IntersectionOf([a, b])
  }

  /** The candidates of either set. */
  function Unite(a: CandSet, b: CandSet): (r: CandSet)
    ensures a.cands <= AllCands && b.cands <= AllCands ==> Valid(r)
    ensures forall v :: 1 <= v <= 9 ==> (Has(r, v) <==> Has(a, v) || Has(b, v))
  {
    assert AllBounded([a, b]) <== a.cands <= AllCands && b.cands <= AllCands;
    assert forall v :: 1 <= v <= 9 ==> (SomeHas([a, b], v) <==> Has(a, v) || Has(b, v)) by {
      forall v | 1 <= v <= 9
        ensures SomeHas([a, b], v) <==> Has(a, v) || Has(b, v)
      {
        assert [a, b][0] == a && [a, b][1] == b;
      }
    }
    UnionOf([a, b])
  }

  /** Two well-formed sets with the same members 1..9 are equal. */
  lemma SameMembers(a: CandSet, b: CandSet)
    requires Valid(a) && Valid(b)
    requires forall v :: 1 <= v <= 9 ==> (Has(a, v) <==> Has(b, v))
    ensures a == b
  {
    assert Elems(a) == Elems(b);
    Extensionality(a, b);
  }

  /** cell_remove_cands: the cell loses every candidate of set. */
  function RemoveCands(c: Cell, set_: CandSet): (r: Cell)
    requires Valid(c.cands)
    ensures SameButCands(r, c) && Valid(r.cands)
    ensures forall v :: 1 <= v <= 9 ==> (HasCand(r, v) <==> HasCand(c, v) && !Has(set_, v))
  {
    c.(cands := Difference(c.cands, set_))
  }

  /** cell_add_cands: the cell gains every candidate of set. */
  function AddCands(c: Cell, set_: CandSet): (r: Cell)
    requires Valid(c.cands) && Valid(set_)
    ensures SameButCands(r, c) && Valid(r.cands)
    ensures forall v :: 1 <= v <= 9 ==> (HasCand(r, v) <==> HasCand(c, v) || Has(set_, v))
  {
    c.(cands := Unite(c.cands, set_))
  }

  /** Adding back what c shared with set, after removing set, restores c. */
  lemma RemoveAddCands(c: Cell, set_: CandSet)
    requires Valid(c.cands)
    ensures AddCands(RemoveCands(c, set_), Intersect(c.cands, set_)) == c
  {
    var r := AddCands(RemoveCands(c, set_), Intersect(c.cands, set_));
    SameMembers(r.cands, c.cands);
  }

  /** Removing candidates the cell does not hold leaves it as it is. */
  lemma RemoveCandsNone(c: Cell, set_: CandSet)
    requires Valid(c.cands) && !Meets(c.cands, set_)
    ensures RemoveCands(c, set_) == c
  {
    MeetsHas(c.cands, set_);
    SameMembers(RemoveCands(c, set_).cands, c.cands);
  }
}
