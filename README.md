# holmes: a verified model of the solver core

holmes is an explainable Sudoku solver written in C. This project models its
logical core in Dafny and proves properties of that model:

- the candidate set, a 9-bit mask with a cached popcount (`src/bits.c`,
  `src/cand_set.c`; modules `Bits`, `CandSets`)
- cell index arithmetic and the neighbour ("peer") relation (`include/cell.h`,
  `src/cell.c`; module `Cells`)
- the grid (`src/grid.c`; class `Grids.Grid`): it is built from an 81-digit
  string in two passes, has row, column and box views, a 20-entry neighbour
  table and the `empty_cells` counter, and `grid_fill_cell` fills a cell
- the k-combination generator and `ncr` (`src/techniques/combinations.c`;
  module `Combinations`)
- the six technique families, each with its scanner, apply and revert:
  - naked single (`NakedSingles`)
  - hidden single (`HiddenSingles`)
  - naked pair, triple and quad (`NakedSets`)
  - hidden pair, triple and quad (`HiddenSets`)
  - pointing set (`PointingSets`)
  - X-Wing, Swordfish and Jellyfish (`BasicFish`)
- the backtracking count of completions (`src/techniques/backtrack.c`; module
  `Backtrack`)
- solver dispatch (`src/solver.c`; module `Solver`)
- the undo/redo history (`src/history.c`; class `Histories.History`)

Supporting modules hold shared pieces:

- `Steps` holds the step record: one variant per technique family, with the
  fields the technique files write.
- `CellLists` models the list helpers the scanners call.
- `CellEdits` and `Unfills` model the loops by which apply and revert edit
  candidates.
- `Search` holds the "first match" searches used by the scanners and the
  solver.

## How the model is built

- Code that changes state in place is imperative Dafny:
  - The grid is a class. Its `cells` array holds `Cell` values and `peers` is
    an `array2` table.
  - The scanners are methods with loops. Each is proved equal to a
    specification function of the grid's cells, for example
    `NakedSingles.NakedSingle` equals `NakedSingleOf(g.cells[..])`.
  - Apply and revert are methods that modify the grid. Each is proved to
    produce a specification function of the old cells.
  - The backtracking search, the combination generator and `ncr` are loops
    with invariants.
  - The history is a class with `steps` and `curr` fields.
- What the C code promises is proved as lemmas about those functions:
  - the search order and first-match results of every scanner
  - "finds nothing exactly when ..." characterisations of every scanner
  - revert after apply restores the grid a step was scanned from
  - `backtrack` returns 0, 1 or 2 exactly as the puzzle has no, one, or
    several completions, and leaves the grid as it found it. A completion is
    a filling of the empty cells in which no written digit clashes with a
    clue or with another written digit. Clues that clash with each other are
    checked by neither the source nor the model, so for such a puzzle a
    completion is not a solution.
  - the generator emits every k-subset once, in lexicographic order, and
    `ncr` is the binomial coefficient
- The candidate set is a value: `CandSet(cands: bv32, len: int)`. It is well
  formed when the mask lies within `0x1ff` and `len` is its popcount.
- The technique tables of `include/techniques/techniques.h` (9 entries) and
  `src/techniques/registry.c` (12 entries) become sequences of technique
  tags. `solver_next_step` takes such a table. It loops to `NUM_TECHNIQUES`
  = 8 (`include/step.h`), so `Solver.SolverTable` is the first eight header
  entries.

## Model

| member | source | states |
|---|---|---|
| Bits.BitIsShift | include/bits.h:4 | the table of candidate bits agrees with `1u << n` for n in 0..8 |
| Bits.BitsDisjoint | include/bits.h:4-7 | two candidate bits share a set bit exactly when they are the same bit |
| Bits.MaskExt | include/bits.h:7 | a mask within 0x1ff is determined by which of its nine candidate bits are set |
| Bits.PopcountZero | src/bits.c:5 | the loop guard: only the zero word has no set bit |
| Bits.ClearLowest | src/bits.c:7 | `x &= x - 1` on a nonzero word removes exactly one set bit |
| Bits.CountOnes | src/bits.c:3-10 | count_ones returns the number of set bits; 0 for 0, at most 9 for a mask within 0x1ff |
| Bits.PopcountNine | src/bits.c:3-10 | within 0x1ff the number of set bits is the number of set candidate bits |
| Bits.FindFirstSetBit | include/bits.h:10 | find_first_set of candidate bit n is n + 1 |
| CandSets.ElemsCount | src/cand_set.c:19-24 | for a mask within 0x1ff the cached len (its popcount) is the number of member values, at most 9 |
| CandSets.Extensionality | src/cand_set.c:59-62 | two well-formed sets with the same members are equal as values |
| CandSets.Empty | src/cand_set.c:11-13 | cand_set_empty is well formed, has no members and len 0 |
| CandSets.Full | src/cand_set.c:15-17 | cand_set_full is well formed, holds exactly 1..9 and has len 9 |
| CandSets.FullFacts | src/cand_set.c:9 | ALL_CANDS has nine set bits, which are the values 1..9 |
| CandSets.FromMask | src/cand_set.c:19-24 | cand_set_from_mask keeps the mask; for a mask within 0x1ff the result is well formed and len counts its members |
| CandSets.Singleton | src/cand_set.c:26-39 | cand_set_from_values(1, v) as intended: well formed, exactly {v}, len 1 |
| CandSets.Add | src/cand_set.c:64-68 | cand_set_add changes nothing for 0 or a member; otherwise the members gain cand and the set stays well formed |
| CandSets.AddFacts | src/cand_set.c:66-67 | setting the bit of a non-member and incrementing len adds exactly that member |
| CandSets.Remove | src/cand_set.c:70-74 | cand_set_remove changes nothing for a non-member; otherwise the members lose cand and the set stays well formed |
| CandSets.RemoveFacts | src/cand_set.c:72-73 | clearing the bit of a member and decrementing len removes exactly that member |
| CandSets.RemoveIdempotent | src/cand_set.c:70-74 | removing a value twice is the same as removing it once |
| CandSets.AddRemove | src/cand_set.c:64-74 | adding back a removed member restores the set exactly |
| CandSets.RemoveAdd | src/cand_set.c:64-74 | removing a value just added to a set without it restores the set exactly |
| CandSets.Clear | src/cand_set.c:76-79 | cand_set_clear leaves a well-formed empty set with len 0 |
| CandSets.Only | src/cand_set.c:81-83 | cand_set_only is 0 for the empty mask and, for a one-member set, that member |
| CandSets.OnlySingle | src/cand_set.c:81-83 | for a one-member set find_first_set names its member |
| CandSets.Difference | src/cand_set.c:85-90 | cand_set_difference is well formed and holds exactly the members of a not in b |
| CandSets.DifferenceFacts | src/cand_set.c:87-88 | `a & ~b` with its popcount as len is the set difference |
| CandSets.IntersectionOf | src/cand_set.c:109-119 | the intersection holds v exactly when every given set holds v, and is well formed |
| CandSets.UnionOf | src/cand_set.c:138-148 | the union holds v exactly when some given set holds v, and is well formed for sets within 0x1ff |
| CandSets.IntersectionFromArr | src/cand_set.c:92-119 | the AND loop from ALL_CANDS computes the intersection of the first num_sets sets |
| CandSets.UnionFromArr | src/cand_set.c:121-148 | the OR loop from NO_CANDS computes the union of the first num_sets sets |
| CandSets.FromValues | src/cand_set.c:41-47 | the set built from a list of digits is well formed and holds v exactly when v is in the list |
| CandSets.FromArr | src/cand_set.c:41-47 | cand_set_from_arr's loop builds FromValues of the first arr_len entries |
| CandSets.ToValues | src/cand_set.c:49-57 | the members, strictly ascending, exactly the v in 1..9 the set has, as many as len |
| CandSets.ToArr | src/cand_set.c:49-57 | cand_set_to_arr writes ToValues into out[0..count) and touches nothing beyond |
| Cells.RowOf | include/cell.h:8 | ROW_FROM_IDX maps a cell index to a row 0..8 |
| Cells.ColOf | include/cell.h:9 | COL_FROM_IDX maps a cell index to a column 0..8 |
| Cells.BoxOf | include/cell.h:10 | BOX_FROM_IDX maps a cell index to a box 0..8 |
| Cells.BoxPos | include/cell.h:11-12 | BOX_POSITION_FROM_IDX maps a cell index to a position 0..8 inside its box |
| Cells.IdxOf | include/cell.h:14 | IDX_FROM_ROW_COL maps a row and a column to a cell index 0..80 |
| Cells.IdxRoundTrip | include/cell.h:8-14 | IDX_FROM_ROW_COL(ROW_FROM_IDX(i), COL_FROM_IDX(i)) == i |
| Cells.BoxOfCell | include/cell.h:10-12 | the cell at position p of box b lies in box b at position p |
| Cells.BoxCellOf | include/cell.h:10-12 | every index is the cell at its own box and box position |
| Cells.BoxBijection | include/cell.h:10-12 | (box, position) identifies a cell, and box b holds exactly nine distinct cells |
| Cells.PeersSymmetric | src/cell.c:36-39 | the neighbour relation is irreflexive and symmetric |
| Cells.TwentyPeers | src/cell.c:36-39 | every cell has exactly 20 neighbours (NUM_PEERS) |
| Cells.Create | src/cell.c:8-18 | cell_create caches the index's row, column and box, keeps the value and has no candidates |
| Cells.CellIdxAt | src/cell.c:24-26 | cell_idx of a cell created at i is i |
| Cells.NeighbourPeers | src/cell.c:32-39 | cell_is_neighbour holds exactly for distinct cells sharing a row, column or box; symmetric, never for a cell with itself |
| Cells.AddCand | src/cell.c:45-47 | cell_add_cand changes only the candidates, which gain cand |
| Cells.RemoveCand | src/cell.c:49-51 | cell_remove_cand changes only the candidates, which lose cand |
| Cells.ClearCands | src/cell.c:53-55 | cell_clear_cands changes only the candidates, which become empty |
| Cells.OnlyCand | src/cell.c:57-59 | cell_only_cand of a cell with exactly one candidate is that candidate |
| Cells.AddRemoveCand | src/cell.c:45-51 | putting back a removed candidate restores the cell |
| Cells.MissingOfHas | src/cell.c:61-67 | the missing values are exactly the digits 1..9 no listed cell holds; value 0 is ignored |
| Cells.MissingValues | src/cell.c:61-67 | cells_missing_values computes MissingOf of the cells |
| Grids.UnitIdx | src/grid.c:21-23 | the entry at position p of row, column or box u of the views is a cell index 0..80 |
| Grids.UnitOf | src/grid.c:21-23 | every cell belongs to a row, a column and a box 0..8 |
| Grids.UnitRoundTrip | src/grid.c:21-23 | rows[r][c], cols[c][r] and boxes[b][pos] store each cell exactly once: (unit, position) and index determine each other |
| Grids.UnitPeers | src/grid.c:21-23 | two different entries of one unit are neighbours |
| Grids.PeerInUnit | src/cell.c:36-39 | a neighbour shares a row, a column or a box |
| Grids.CountEmptyZero | src/grid.c:49-51 | empty_cells == 0 exactly when no cell is empty, when the counter is exact |
| Grids.CountEmptyUpdate | src/grid.c:56 | replacing one cell changes the number of empty cells only by that cell's emptiness |
| Grids.ScanStep | src/grid.c:78-81 | one step of the inner scan appends j to the row of the table exactly when j is a neighbour of i |
| Grids.PeersBelowFacts | src/grid.c:76-83 | after scanning 0..k-1 the row lists exactly the neighbours of i below k, ascending |
| Grids.PeerListFacts | src/grid.c:75-84 | a full row of the neighbour table lists exactly the 20 neighbours of i, ascending, never i |
| Grids.InitialCandsPeers | src/grid.c:63-73 | an empty cell's initial candidates are exactly the values none of its neighbours holds |
| Grids.InitialCoherent | src/grid.c:12-40 | the grid grid_create builds gives no filled cell a candidate |
| Grids.FillStep | src/grid.c:58-60 | step n of the loop of grid_fill_cell removes value from the n-th listed neighbour only |
| Grids.FillSpecFacts | src/grid.c:53-61 | grid_fill_cell: the cell holds value and no candidates, each neighbour loses value and nothing else, every other cell is unchanged |
| Grids.FillCoherent | src/grid.c:53-61 | grid_fill_cell keeps every filled cell without candidates |
| Grids.FillCount | src/grid.c:56 | filling an empty cell lowers the number of empty cells by exactly one |
| Grids.InitialFacts | src/grid.c:12-40 | grid_create: values are the digits, clues have no candidates, an empty cell has exactly the values no neighbour holds, empty_cells counts the '0's |
| Grids.Grid.constructor | src/grid.c:12-40 | grid_create builds Initial(s) with a complete neighbour table and an exact empty_cells |
| Grids.Grid.CandidatesPass | src/grid.c:30-35 | the second pass gives each empty cell its initial candidates and leaves clues alone |
| Grids.Grid.CellInitialCands | src/grid.c:63-73 | grid_cell_initial_cands returns the intersection of the values missing from row, column and box |
| Grids.Grid.PeerRow | src/grid.c:58-59 | row i of the neighbour table of a valid grid is the ascending list of i's neighbours |
| Grids.Grid.IsSolved | src/grid.c:49-51 | grid_is_solved holds exactly when no cell is empty, when the counter is exact |
| Grids.Grid.FillCell | src/grid.c:53-61 | grid_fill_cell produces FillSpec, lowers empty_cells by one and keeps the counter exact when the cell was empty |
| Grids.Grid.GenerateNeighbours | src/grid.c:75-84 | every row i of the table lists the neighbours of i in ascending order |
| Grids.Grid.NeighbourRow | src/grid.c:77-82 | the inner loop fills row i of the table and leaves the other rows alone |
| CellLists.UnitIdxs | src/grid.c:21-23 | unit u of a type is the nine cells at positions 0..8 of rows[u], cols[u] or boxes[u] |
| CellLists.UnitIdxsFacts | src/grid.c:21-23 | the cells of a unit are nine distinct cell indices, exactly the cells of that unit |
| CellLists.CellsWithCandFacts | src/techniques/naked_single.c:21-23 | cells_with_cand keeps exactly the listed cells holding the candidate, in list order |
| CellLists.CellsWithNCandsMaxFacts | src/techniques/naked_set.c:84-86 | cells_with_n_cands_max keeps exactly the listed cells with one to n candidates, in list order |
| CellLists.PickFacts | src/techniques/naked_set.c:90-96 | a combination of a list holds k of its entries, in list order |
| CellLists.CellsCandUnion | src/techniques/naked_set.c:98 | cells_cand_union holds a value exactly when some listed cell has it as a candidate |
| CellLists.CellsCandUnionValid | src/techniques/naked_set.c:98 | the union keeps len equal to its number of members |
| CellLists.CommonPeersFacts | src/techniques/naked_set.c:101-103 | grid_common_peers lists, ascending, exactly the cells that are peers of every listed cell; none of the listed cells; at most 20 |
| CellLists.CellsWithCandsSomeFacts | src/techniques/hidden_set.c:124-126 | cells_with_cands_some keeps exactly the listed cells sharing a candidate with the set, in list order |
| CellLists.MissingValuesToArr | src/techniques/hidden_single.c:35-37 | cells_missing_values_to_arr lists, ascending, exactly the values 1..9 no listed cell holds |
| CellLists.Intersect | src/cand_set.c:109-119 | the candidates two sets share: a value is a member exactly when it is in both |
| CellLists.Unite | src/cand_set.c:138-148 | the union of two sets: a value is a member exactly when it is in either |
| CellLists.RemoveCands | src/solver.c:37-38 | cell_remove_cands: the cell loses exactly the set's candidates; value and position unchanged |
| CellLists.AddCands | src/techniques/hidden_set.c:66 | cell_add_cands: the cell gains exactly the set's candidates; value and position unchanged |
| CellLists.RemoveAddCands | src/techniques/naked_set.c:105-108 | adding back what a cell shared with a set, after removing the set, restores the cell |
| CellLists.RemoveCandsNone | src/solver.c:37-38 | removing candidates the cell does not hold leaves it as it was |
| CellEdits.RemoveCandsAll | src/solver.c:36-39 | the grid once the set has been removed from the first n listed cells stays a grid of 81 well-formed cells |
| CellEdits.RemoveCandsAllAt | src/solver.c:36-39 | after the removal loop a listed cell has lost the set's candidates and every other cell is unchanged |
| CellEdits.RemoveCandsTwice | src/solver.c:37-38 | removing the same set twice is the same as removing it once |
| CellEdits.RemoveCandsFrom | src/solver.c:36-39 | the loop of cell_remove_cands over the removal cells leaves the grid the removal loop describes |
| CellEdits.AddCandsEach | src/techniques/hidden_set.c:65-67 | the grid once sets[k] has been added back to listed cell k stays a grid of 81 well-formed cells |
| CellEdits.AddCandsEachAt | src/techniques/hidden_set.c:65-67 | with distinct listed cells, listed cell k gains sets[k] and every other cell is unchanged |
| CellEdits.AddCandsTo | src/techniques/hidden_set.c:65-67 | the loop of cell_add_cands leaves the grid the add-back loop describes |
| CellEdits.RemoveCandsRevert | src/techniques/naked_set.c:101-108 | adding back to each removal cell what it shared with the set undoes removing the set from a list whose cells meeting the set are the removal cells |
| CellEdits.RemoveCandAll | src/techniques/basic_fish.c:57-59 | the grid once the value has been removed from the first n listed cells stays a grid of 81 well-formed cells |
| CellEdits.RemoveCandAllAt | src/techniques/basic_fish.c:57-59 | a listed cell loses the value and every other cell is unchanged |
| CellEdits.RemoveCandFrom | src/techniques/basic_fish.c:57-59 | the loop of cell_remove_cand over the removal cells leaves that grid |
| CellEdits.AddCandAll | src/techniques/basic_fish.c:65-67 | the grid once the value has been added to the first n listed cells stays a grid of 81 well-formed cells |
| CellEdits.AddCandAllAt | src/techniques/basic_fish.c:65-67 | a listed cell gains the value and every other cell is unchanged |
| CellEdits.AddCandTo | src/techniques/basic_fish.c:65-67 | the loop of cell_add_cand over the removal cells leaves that grid |
| CellEdits.RemoveCandRevert | src/techniques/basic_fish.c:54-68 | adding the value back undoes removing it, when every listed cell held it |
| CellEdits.SetCandsAll | src/solver.c:46-48 | the grid once the first n listed cells have the set as their candidates stays a grid of 81 well-formed cells |
| CellEdits.SetCandsAllAt | src/techniques/hidden_set.c:57-59 | a listed cell has exactly the set as its candidates, value and position unchanged; every other cell is unchanged |
| CellEdits.SetCandsOf | src/techniques/hidden_set.c:57-59 | the overwrite loop leaves the grid that SetCandsAll describes |
| Unfills.UnfillSpec | src/techniques/naked_single.c:43-53 | the grid after a single's revert has 81 cells |
| Unfills.UnfillSpecFacts | src/techniques/naked_single.c:43-53 | the emptied cell has value 0 and exactly {value} as candidates; a listed cell gains the value; every other cell is as before |
| Unfills.UnfillStep | src/techniques/naked_single.c:50-52 | step n of the add-back loop changes listed cell n only, by adding the value |
| Unfills.Unfill | src/techniques/naked_single.c:43-53 | the revert of a single: cell emptied with {value}, value given back to every listed cell, empty_cells one higher |
| Combinations.Absorb | src/techniques/combinations.c:52-64 | absorption identity of the binomial coefficient, used for the exactness of ncr's division |
| Combinations.Symmetry | src/techniques/combinations.c:53-55 | C(n, r) = C(n, n - r), so ncr may work with the smaller of r and n - r |
| Combinations.RatioStep | src/techniques/combinations.c:59-62 | after step i of the loop the product is C(n, i) times i, so dividing by i is exact |
| Combinations.Ncr | src/techniques/combinations.c:52-64 | ncr(n, r) returns the binomial coefficient C(n, r) for 0 <= r <= n (1 outside that range, as the loop then never runs) |
| Combinations.CombsLength | src/techniques/combinations.c:10-11 | the sorted list of k-subsets of a..n-1 has C(n - a, k) entries |
| Combinations.CombsMember | src/techniques/combinations.c:24-39 | the listed tuples are exactly the strictly increasing k-tuples over a..n-1 |
| Combinations.CombsSorted | src/techniques/combinations.c:24-39 | the listed tuples are in strictly increasing lexicographic order |
| Combinations.SortedDistinct | src/techniques/combinations.c:24-39 | a strictly sorted list has no repeated entry, so each k-subset appears once |
| Combinations.CombsFirst | src/techniques/combinations.c:19-22 | the first tuple is [a, ..., a + k - 1] |
| Combinations.CombsNext | src/techniques/combinations.c:30-38 | the successor step (pivot from the right, increment, refill) moves each tuple to the next one in the list |
| Combinations.IterCombs | src/techniques/combinations.c:19-39 | after i successor steps from [0..k-1] the index array holds the i-th k-subset in lexicographic order |
| Combinations.TuplesComplete | src/techniques/combinations.c:10 | every strictly increasing k-tuple over 0..n-1 is among the emitted tuples, and nothing else is |
| Combinations.TuplesSorted | src/techniques/combinations.c:24-39 | emitted tuples are in strictly increasing lexicographic order, so no two are equal |
| Combinations.Advance | src/techniques/combinations.c:30-38 | the in-place update of the index array is one successor step |
| Combinations.CopyCombination | src/techniques/combinations.c:25-28 | slot j of an output combination is arr[idxs[j]] |
| Combinations.FirstIndices | src/techniques/combinations.c:19-22 | the index array starts as [0, ..., k - 1] |
| Combinations.GenerateCombinations | src/techniques/combinations.c:6-44 | C(n, k) combinations are returned, combination i being the elements of arr at the i-th k-subset of indices in lexicographic order |
| NakedSingles.NakedSingle | src/techniques/naked_single.c:11-35 | the scanner loop reads the grid only and returns the step of the lowest-index cell with one candidate, or none |
| NakedSingles.NakedSingleNone | src/techniques/naked_single.c:14-34 | the scanner finds nothing exactly when no cell has exactly one candidate |
| NakedSingles.NakedSingleFound | src/techniques/naked_single.c:14-31 | a found step names the first cell with one candidate, that sole candidate, and as removals exactly the peers holding it, ascending, at most 20 |
| NakedSingles.NakedSingleApply | src/techniques/naked_single.c:37-41 | apply is grid_fill_cell at the step's cell with its value; empty_cells drops by one |
| NakedSingles.NakedSingleRevert | src/techniques/naked_single.c:43-53 | revert empties the cell with {value}, adds the value back to each removal cell and raises empty_cells by one |
| NakedSingles.NakedSingleRoundTrip | src/techniques/naked_single.c:37-53 | for a step scanned from a coherent grid, revert after apply gives back that grid |
| HiddenSingles.HiddenSingleUnit | src/techniques/hidden_single.c:27-60 | the unit/value loops return the first hidden single of the unit type, or none |
| HiddenSingles.HiddenSingle | src/techniques/hidden_single.c:12-25 | the scanner tries rows, then columns, then boxes and returns the first step found |
| HiddenSingles.UnitAtNone | src/techniques/hidden_single.c:32-46 | a unit yields nothing exactly when none of its missing values has exactly one holder in the unit |
| HiddenSingles.UnitAtFirst | src/techniques/hidden_single.c:39-46 | the search of a unit stops at its smallest missing value with one holder |
| HiddenSingles.HiddenHolder | src/techniques/hidden_single.c:42-48 | the recorded cell is the only cell of the unit holding the value |
| HiddenSingles.UnitsOfNone | src/techniques/hidden_single.c:32-59 | a unit type yields nothing exactly when none of its units has a hidden single |
| HiddenSingles.UnitsOfFound | src/techniques/hidden_single.c:32-55 | a step of a unit type comes from its first unit having a hidden single |
| HiddenSingles.HiddenSingleNone | src/techniques/hidden_single.c:12-25 | the scanner finds nothing exactly when no row, column or box has a hidden single |
| HiddenSingles.HiddenSingleFound | src/techniques/hidden_single.c:12-25 | a found step records cell, value, unit type and index and the 20 peers, and every unit type tried before it had no hidden single |
| HiddenSingles.HiddenSingleApply | src/solver.c:25-30 | apply is grid_fill_cell at the step's cell with its value |
| HiddenSingles.HiddenSingleRevert | src/techniques/hidden_single.c:48-53 | revert empties the cell with {value} and gives the value back to all 20 recorded peers |
| HiddenSingles.HiddenSingleRevertApply | src/techniques/hidden_single.c:48-53 | revert after apply restores every value and every cell off the peer list; a peer ends with its old candidates plus the value |
| NakedSets.Possible | src/techniques/naked_set.c:84-88 | the cells a set may use are exactly the unit's cells with one to n candidates, ascending |
| NakedSets.UnitCombs | src/techniques/naked_set.c:90-124 | the combination loop of one unit returns the first accepted combination's step, or none |
| NakedSets.NakedNSetUnit | src/techniques/naked_set.c:77-128 | the unit loop returns the first naked set with removals of the unit type, or none |
| NakedSets.NakedNSet | src/techniques/naked_set.c:29-75 | naked_pair, naked_triple and naked_quad try rows, then columns, then boxes |
| NakedSets.NakedSet | src/techniques/naked_set.c:14-27 | naked_set tries pairs, then triples, then quads |
| NakedSets.SetStepSome | src/techniques/naked_set.c:98-110 | a combination yields a step exactly when its union has n values and some common peer holds one of them |
| NakedSets.SetStepFound | src/techniques/naked_set.c:101-117 | the step records the union, the common peers that meet it and what each of them loses |
| NakedSets.UnitAtNone | src/techniques/naked_set.c:81-125 | a unit yields nothing exactly when no n-subset of its possible cells is a naked set with removals |
| NakedSets.UnitsOfFound | src/techniques/naked_set.c:81-122 | a step of a unit type records a naked set of the first unit having one |
| NakedSets.NakedSetFound | src/techniques/naked_set.c:14-27 | a found step records a naked set of size 2, 3 or 4, the smallest size having one |
| NakedSets.NakedSetApply | src/solver.c:31-40 | apply removes the set candidates from each removal cell |
| NakedSets.NakedSetRevert | src/techniques/naked_set.c:105-108 | revert gives each removal cell back the candidates recorded as removed from it |
| NakedSets.NakedSetRoundTrip | src/techniques/naked_set.c:101-116 | for a step scanned from a grid, revert after apply gives back that grid |
| HiddenSets.Group | src/techniques/hidden_set.c:117-122 | group m is the m-th n-combination of the unit's missing values, ascending |
| HiddenSets.GroupCheck | src/techniques/hidden_set.c:122-142 | the test of one group returns its step exactly as the scanner would record it |
| HiddenSets.UnitGroups | src/techniques/hidden_set.c:117-149 | the group loop of one unit returns the first accepted group's step, or none |
| HiddenSets.HiddenNSetUnit | src/techniques/hidden_set.c:103-153 | the unit loop returns the first hidden set with removals of the unit type, or none |
| HiddenSets.HiddenNSet | src/techniques/hidden_set.c:24-52 | hidden_pair, hidden_triple and hidden_quad try rows, then columns, then boxes |
| HiddenSets.HiddenSet | src/techniques/hidden_set.c:17-22 | hidden_set tries pairs, then triples, then quads |
| HiddenSets.GroupFacts | src/techniques/hidden_set.c:111-119 | a group is ascending and made of values missing from the unit |
| HiddenSets.FromValuesLen | src/techniques/hidden_set.c:122 | the set built from a group of n distinct values has n candidates |
| HiddenSets.GroupStepSome | src/techniques/hidden_set.c:124-136 | a group yields a step exactly when n cells of the unit hold some of its values and one of them holds another value |
| HiddenSets.GroupStepFound | src/techniques/hidden_set.c:130-142 | the step records the cells, the group set, the cells with other candidates and exactly those extras |
| HiddenSets.UnitAtNone | src/techniques/hidden_set.c:108-150 | a unit yields nothing exactly when no n of its missing values form a hidden set with removals |
| HiddenSets.UnitsOfFound | src/techniques/hidden_set.c:108-147 | a step of a unit type records a hidden set of the first unit having one |
| HiddenSets.HiddenSetFound | src/techniques/hidden_set.c:17-22 | a found step records a hidden set of size 2, 3 or 4, the smallest size having one, its removal cells among its set cells |
| HiddenSets.HiddenSetApplyAsWritten | src/techniques/hidden_set.c:54-60 | apply as written overwrites each set cell's candidates with the group set |
| HiddenSets.HiddenSetApply | src/techniques/hidden_set.c:54-60 | apply as intended removes from each set cell its candidates outside the group |
| HiddenSets.HiddenSetApplyKeeps | src/techniques/hidden_set.c:54-60 | after the intended apply a set cell holds exactly its old candidates inside the group |
| HiddenSets.HiddenSetRevert | src/techniques/hidden_set.c:62-68 | revert adds each recorded removed set back to its removal cell, over all removals |
| HiddenSets.HiddenSetRoundTrip | src/techniques/hidden_set.c:54-68 | with the intended apply, revert after apply gives back the grid the step was scanned from |
| HiddenSets.HiddenSetAsWrittenBreaks | src/techniques/hidden_set.c:54-68 | with the apply as written, revert does not restore a grid in which a set cell lacked one of the group's values |
| HiddenSets.HiddenSetAsWrittenCell | src/techniques/hidden_set.c:58 | a cell {1, 3} in a hidden pair {1, 2} ends with a 2 it never had after apply and revert as written |
| PointingSets.ValueCheck | src/techniques/pointing_set.c:42-67 | the test of one missing value returns its step exactly as the scanner records it |
| PointingSets.PointingSetUnit | src/techniques/pointing_set.c:29-74 | the unit/value loops return the first pointing value of the unit type, or none |
| PointingSets.PointingSet | src/techniques/pointing_set.c:14-27 | the scanner tries rows, then columns, then boxes |
| PointingSets.UnitAtNone | src/techniques/pointing_set.c:41-58 | a unit yields nothing exactly when none of its missing values has two or three holders whose common peers hold it |
| PointingSets.UnitAtFirst | src/techniques/pointing_set.c:41-69 | the search of a unit stops at its smallest pointing value |
| PointingSets.TriggerFacts | src/techniques/pointing_set.c:44-48 | the trigger cells are exactly the unit's two or three cells holding the value |
| PointingSets.PointingSetNone | src/techniques/pointing_set.c:14-27 | the scanner finds nothing exactly when no row, column or box has a pointing value |
| PointingSets.RemovalsOutside | src/techniques/pointing_set.c:50-56 | no removal lies in the trigger unit and each sees every trigger cell |
| PointingSets.PointingUnit | src/techniques/pointing_set.c:76-88 | the removal unit is of another type than the trigger unit and holds every trigger cell and every removal |
| PointingSets.PointingSetFound | src/techniques/pointing_set.c:14-67 | a found step is the first pointing value in rows, then columns, then boxes, with its trigger cells, removals and removal unit |
| PointingSets.PointingSetApply | src/techniques/pointing_set.c:54-64 | apply removes the value from each removal cell |
| PointingSets.PointingSetRevert | src/techniques/pointing_set.c:54-64 | revert adds the value back to each removal cell |
| PointingSets.PointingSetRoundTrip | src/techniques/pointing_set.c:54-64 | for a step scanned from a grid, revert after apply gives back that grid |
| BasicFish.ScanUnit | src/techniques/basic_fish.c:165-181 | the cell scan of one line records the positions of the first size holders and stops at holder size + 1 |
| BasicFish.FindBaseSets | src/techniques/basic_fish.c:160-185 | find_base_sets returns the lines holding the value in one to size cells, with their positions |
| BasicFish.BasesUpToSound | src/techniques/basic_fish.c:160-185 | every recorded base has one to size ascending positions, each a holder of the value; bases are in line order |
| BasicFish.BasesUpToComplete | src/techniques/basic_fish.c:160-185 | no line holding the value in one to size cells is missed |
| BasicFish.PositionSetOf | src/techniques/basic_fish.c:193-198 | a base's positions plus one, made a candidate set |
| BasicFish.LowerAll | src/techniques/basic_fish.c:206-208 | each cover value is lowered by one |
| BasicFish.IsValidFish | src/techniques/basic_fish.c:189-211 | accepts exactly when the bases cover size positions in all, and returns those positions ascending |
| BasicFish.FishOfCovered | src/techniques/basic_fish.c:201-205 | a combination is a fish exactly when the union of its positions has size members, and the covers are that union |
| BasicFish.CoverCells | src/techniques/basic_fish.c:224-230 | the cover loop at one position lists the cover-line cells there holding the value |
| BasicFish.FindRemovals | src/techniques/basic_fish.c:213-234 | returns the cells on the cover lines, at positions that are no base line, holding the value |
| BasicFish.RemovalsUpToMember | src/techniques/basic_fish.c:218-230 | a removal is exactly a cell holding the value on a cover line at a position that is no base line |
| BasicFish.CopyBaseIdxs | src/techniques/basic_fish.c:139-141 | the step's base indices are the unit indices of the combination's bases |
| BasicFish.CombCheck | src/techniques/basic_fish.c:137-151 | the test of one combination returns its step exactly as the scanner records it |
| BasicFish.ValueCombs | src/techniques/basic_fish.c:130-154 | the combination loop of one value returns the first fish with removals, or none |
| BasicFish.NFishUnit | src/techniques/basic_fish.c:119-158 | the value loop returns the fish of the smallest value having one, or none |
| BasicFish.NFish | src/techniques/basic_fish.c:30-52 | x_wing, swordfish and jellyfish try row bases, then column bases |
| BasicFish.CombStepSome | src/techniques/basic_fish.c:137-148 | a combination yields a step exactly when it is a fish with removals |
| BasicFish.CombStepFound | src/techniques/basic_fish.c:139-146 | the step records the fish's base lines, cover lines, value and removals |
| BasicFish.ValueAtNone | src/techniques/basic_fish.c:124-155 | a value yields nothing exactly when it has fewer than size bases or no size of them form a fish with removals |
| BasicFish.UnitsOfNone | src/techniques/basic_fish.c:124-157 | a base line type yields nothing exactly when no value yields a fish |
| BasicFish.FishOfSizeFound | src/techniques/basic_fish.c:30-52 | a found fish lies on row bases, or on column bases when the rows have none |
| BasicFish.BasicFishApply | src/techniques/basic_fish.c:54-60 | apply removes the value from each removal cell |
| BasicFish.BasicFishRevert | src/techniques/basic_fish.c:62-68 | revert adds the value back to each removal cell |
| BasicFish.BasicFishRoundTrip | src/techniques/basic_fish.c:54-68 | for a step scanned from a grid, revert after apply gives back that grid |
| Backtrack.EmptyBelowFacts | src/techniques/backtrack.c:15-19 | the indices collected below n are exactly the empty cells below n, ascending, each once |
| Backtrack.EmptiesFacts | src/techniques/backtrack.c:12-19 | empty_idxs[0..num_empty) lists exactly the empty cells, ascending |
| Backtrack.CollectEmpty | src/techniques/backtrack.c:12-19 | the first loop collects the indices of the empty cells in ascending order |
| Backtrack.CellsWithValue | src/techniques/backtrack.c:55-63 | cells_with_value counts the cells of the unit holding the value |
| Backtrack.ValueCountAtMostOne | src/techniques/backtrack.c:55-63 | the count is at most one exactly when no two cells of the unit hold the value |
| Backtrack.IsPlacementValid | src/techniques/backtrack.c:65-72 | is_placement_valid holds exactly when the value occurs at most once in the cell's row, column and box, the cell itself counted |
| Backtrack.PlacementValidPeers | src/techniques/backtrack.c:65-72 | with the value written in the cell, the placement is valid exactly when no neighbour holds it |
| Backtrack.CompletionSymmetric | src/techniques/backtrack.c:24-46 | a completion is a digit 1..9 per empty cell clashing with no clue neighbour and no other written neighbour |
| Backtrack.RankOf | src/techniques/backtrack.c:24-46 | the base-11 rank of the trial vector grows with its lexicographic order and stays below 11^n, so the loop terminates |
| Backtrack.Start | src/techniques/backtrack.c:21-23 | the search starts below every completion with nothing found |
| Backtrack.Exhausted | src/techniques/backtrack.c:28-29 | once the first empty cell has run through 9, every completion has been found |
| Backtrack.Reject | src/techniques/backtrack.c:36-37 | a digit is_placement_valid rejects passes over no completion and raises the search state |
| Backtrack.Count | src/techniques/backtrack.c:39-42 | a digit accepted in the last empty cell is a new completion, counted once |
| Backtrack.Advance | src/techniques/backtrack.c:45 | a digit accepted before the last empty cell moves the cursor on and passes over no completion |
| Backtrack.Back | src/techniques/backtrack.c:28-33 | a cell that has run through 9 is reset to 0 and the cursor steps back, passing over no completion |
| Backtrack.Outcome | src/techniques/backtrack.c:39-42 | 0 found means no completion, 1 means exactly one, 2 means at least two distinct completions |
| Backtrack.Finish | src/techniques/backtrack.c:24-46 | when the loop stops, the count of found completions says 0, 1 or at least 2 completions |
| Backtrack.ClearEmpties | src/techniques/backtrack.c:48-50 | the restore loop writes 0 back into every originally empty cell, giving back the puzzle |
| Backtrack.TryNext | src/techniques/backtrack.c:36-37 | the cursor cell's value goes up by one and is checked |
| Backtrack.ClearAt | src/techniques/backtrack.c:31-32 | the cursor cell is reset to 0 |
| Backtrack.SearchStep | src/techniques/backtrack.c:25-45 | one pass of the loop keeps the search state and lowers its rank unless a second completion stops it |
| Backtrack.StepBack | src/techniques/backtrack.c:28-33 | the reset-and-step-back pass keeps the search state and lowers its rank |
| Backtrack.NextDigit | src/techniques/backtrack.c:36-45 | the write-and-check pass keeps the search state, and stops only at a second completion |
| Backtrack.Decide | src/techniques/backtrack.c:39-45 | after an accepted digit: count it at the last empty cell, else move the cursor on |
| Backtrack.SearchLoop | src/techniques/backtrack.c:21-46 | the loop returns 0, 1 or 2: no completion, a unique completion, or two distinct completions |
| Backtrack.Run | src/techniques/backtrack.c:11-53 | backtrack returns 0, 1 or 2 as the puzzle has no, one or several completions (clash-free fillings of the empty cells; clashes among the clues themselves are not checked), and leaves the grid as it found it |
| Solver.TryTechnique | src/solver.c:11 | the call techniques[i](grid, out_step) runs the scanner the tag names and reads the grid only |
| Solver.ScanTagged | src/solver.c:11 | every step a scanner finds carries a record of that family and, with the intended tagging of naked sets (see "Left out"), the scanner's own tag |
| Solver.NakedSizedFits | src/techniques/naked_set.c:29-75 | a naked set of size n carries the intended tag of that size, which the source never writes (see "Findings"), and its removals undo exactly |
| Solver.HiddenSizedFits | src/techniques/hidden_set.c:24-52 | a hidden set of size n carries the tag of that size, and its removals undo the intended apply exactly |
| Solver.NextStep | src/solver.c:8-15 | solver_next_step's loop returns what NextOf describes: solved, the first matching entry's step, or stuck |
| Solver.NextComplete | src/solver.c:9-10 | COMPLETE exactly when the table has an entry and no cell is empty; no step is returned then |
| Solver.NextStuck | src/solver.c:14 | STUCK exactly when the table is empty, or the grid is unsolved and no entry matches |
| Solver.NextOngoing | src/solver.c:9-11 | ONGOING: the grid is unsolved, the step is what the first matching entry found, earlier entries found nothing, and the step carries that entry's tag under the intended tagging of naked sets (see "Left out") |
| Solver.NextFirst | src/solver.c:9-11 | on an unsolved grid where entry k matches first, the result is ONGOING with entry k's step |
| Solver.SolverTableTags | include/step.h:7-18 | the entries below NUM_TECHNIQUES are eight and none is a pointing set or a fish |
| Solver.TagAfter | src/solver.c:9-11 | the tag the shared out_step holds after entries 0..k ran: the entry's own unless it is a naked-set entry, else the last one written before it |
| Solver.StaleNakedTag | src/techniques/naked_set.c:29-75 | when a naked pair, triple or quad is the first match, the step as written carries the hidden single, pair or triple tag of the entry before it, never its own |
| Solver.StaleEntry | include/techniques/techniques.h:17-19 | in the solver's table each naked-set entry comes right after a hidden-single or hidden-set entry |
| Solver.SolverTableSkips | src/solver.c:9 | the solver as built never reports a pointing set or a fish, as NUM_TECHNIQUES stops short of them |
| Solver.ApplyStep | src/solver.c:17-52 | solver_apply_step fills a single's cell (one empty cell fewer), removes a naked set's candidates from its removal cells, strips a hidden set's cells down to the set (the intended apply), and changes nothing otherwise |
| Solver.ApplyFrame | src/solver.c:17-52 | apply changes no cell the step does not touch and no value but that of a single's cell, which gets the step's value |
| Solver.RevertStep | src/history.c:19 | solver_revert_step, which undo calls: the revert of the step's family (unfill a single, add back the removed sets, or add back the removed value), one more empty cell for a single |
| Solver.AddCandAllHeld | src/techniques/basic_fish.c:62-68 | adding the value back to cells that all hold it changes nothing |
| Solver.ApplyRevert | src/solver.c:17-52 | for every step but a hidden single, scanned from a coherent grid, revert after apply gives back that grid, with the intended hidden-set apply (the source's overwrite breaks this, see "Findings") |
| Solver.FishHeld | src/solver.c:50 | a fish's value is held by all its removal cells, so its revert after the no-op apply changes nothing |
| Histories.UndoTarget | src/history.c:18-19 | undo as written reverts nothing at cursor 1, and otherwise the entry two below the old cursor |
| Histories.RedoTarget | src/history.c:25 | redo as written applies nothing at cursor 0, and otherwise the entry below the cursor |
| Histories.History.constructor | include/history.h:9-12 | a new history has no entries and cursor 0 |
| Histories.History.Curr | src/history.c:30-33 | history_curr is none exactly at cursor 0, else the entry just below the cursor |
| Histories.History.CanUndo | src/history.c:8-10 | history_can_undo holds exactly when there is a current entry (curr > 0) |
| Histories.History.CanRedo | src/history.c:12-14 | history_can_redo holds exactly when some entry lies at or above the cursor (curr < len) |
| Histories.History.Add | src/history.c:35-38 | history_add appends the step, keeps every entry, raises the cursor and keeps 0 <= curr <= len |
| Histories.History.Undo | src/history.c:16-21 | at cursor 0 nothing changes and false is returned; else the cursor drops by one and UndoTarget is reverted |
| Histories.History.Redo | src/history.c:23-28 | at the last entry nothing changes and false is returned; else RedoTarget is applied and the cursor rises by one |
| Histories.History.UndoLast | src/history.c:16-21 | undo as intended: the cursor drops by one and the entry it passes is reverted |
| Histories.History.RedoNext | src/history.c:23-28 | redo as intended: the entry at the cursor is applied and becomes the current one |
| Histories.UndoAsWrittenKeeps | src/history.c:18-19 | after adding one naked single, undo as written lowers the cursor to 0, where history_curr is NULL; read as no step (see "Left out"), it leaves the cell filled |
| Histories.UndoAsWrittenSkips | src/history.c:18-19 | after two naked singles found and applied in turn, undo as written at cursor 2 reverts the first: its cell is emptied and the second single's cell stays filled, unlike undoing the second |
| Histories.UndoLastRestores | src/history.c:16-21 | undo as intended reverts the last entry added, and after adding a step found on a grid (not a hidden single) gives back that grid whatever entries came before |

## Left out

- Rendering and the driver are not modelled: `src/ui.c`, `src/main.c`, the
  `*_explain`/`*_colorise` functions, `src/techniques/explain.c` and the
  string buffers of `src/dynstr.c`. They are terminal I/O and text
  formatting.
- Memory management is not modelled: `malloc`/`free`, `grid_destroy`,
  `free_combinations`, `history_free`. Storage is Dafny arrays and sequences.
  `generate_combinations` is modelled as the sequence of its combinations,
  not as the byte copies into one block.
- The tables of scanner functions in `techniques.h` and `registry.c` are
  sequences of technique tags. Each tag stands for its scanner.
- Helpers that are called but not part of this model's sources are given
  functional definitions from their names and uses: `cells_with_cand`,
  `cells_with_removals`, `grid_common_peers`, `cells_idxs`,
  `cells_with_n_cands_max`, `cells_cand_union`, `cells_with_cands_some`,
  `cells_missing_values_to_arr`, `cell_add_cands`, `cell_remove_cands`,
  `find_first_set` (taken as ffs), `solver_revert_step` (the revert of the
  step's family), `pointing_set_apply`/`_revert` and
  `hidden_single_apply`/`_revert`.
- `naked_set.c`, `pointing_set.c` and `hidden_single.c` define only their
  scanners. Their apply and revert are modelled as follows:
  - The naked-set apply follows the naked-set branch of `solver_apply_step`.
    The naked-set revert adds back the recorded removed candidates.
  - The pointing-set apply and revert remove and add back the value, as the
    fish do.
  - The hidden-single apply fills the cell, as `solver_apply_step` does. The
    hidden-single revert mirrors `naked_single_revert`, over
    all 20 peers of the cell.
- Solver.ApplyStep: pointing sets and fish go to the `default` branch of
  `solver_apply_step` and change nothing, as in the source. The family
  applies exist as `PointingSets.PointingSetApply` and
  `BasicFish.BasicFishApply`. The hidden-set branch is the intended apply,
  which removes the candidates outside the set from each set cell. The
  source (`src/solver.c:46-48`) overwrites each set cell's candidates with
  the set instead. That overwrite is modelled as
  `HiddenSets.HiddenSetApplyAsWritten` (first row of "Findings").
- Solver.ApplyRevert: the hidden-set round trip is proved for the intended
  apply only. With the overwrite of `src/solver.c:46-48`, revert after apply
  can add candidates the cell never had, as
  `HiddenSets.HiddenSetAsWrittenBreaks` shows.
- Histories.History.Undo and Histories.History.Redo: a missing step, which is
  a NULL `history_curr` in C, leaves the grid unchanged. The C code would
  pass NULL to `solver_revert_step` or `solver_apply_step`, whose behaviour
  for NULL is not part of this model.
- The `Step` record is built from the fields the technique files write. For
  example, `removal_idxs` of a naked single and `peer_idxs` of a hidden
  single are missing from `include/step.h`. `naked_set` writes the tag
  `TECH_NAKED_SET` and the field `set_size`, and `include/step.h` declares
  neither. The model tags a naked set by its size (pair, triple or quad).
- Solver.ScanTagged: the model gives a naked pair, triple or quad step the
  tag of its size. `naked_pair`, `naked_triple` and `naked_quad`
  (`src/techniques/naked_set.c:29-75`) write no tag. In `solver_next_step`
  the step then keeps the tag of the scanner before it in the table, which
  ran and found nothing: `TECH_HIDDEN_SINGLE` for a pair, `TECH_HIDDEN_PAIR`
  for a triple, `TECH_HIDDEN_TRIPLE` for a quad. `Solver.StaleNakedTag`
  states this tag (third row of "Findings"). What `solver_apply_step` then
  does, reading the naked-set record through another member of the union,
  is not modelled.
- Solver.NakedSizedFits: the size tag it proves is the intended tag, not
  what the source writes. See the Solver.ScanTagged line above.
- Solver.NextOngoing: "the step carries that entry's tag" holds for the
  intended tagging only. For a naked-set entry the source's step carries
  the previous entry's tag. See the Solver.ScanTagged line above.
- CandSets.Singleton: `cand_set_from_values` starts from an uninitialised
  set. The model uses the intended singleton `{v}`. It is also used by the
  single reverts.
- CandSets.Add: values are required to be in 1..9. `cand_set_add` has no
  upper bound check.
- Grids.Grid.constructor: the input is required to be 81 characters in
  `'0'..'9'`. `grid_create` does no validation, and `'.'` would become -2.
- BasicFish.IsValidFish: each position set is built from the base's own
  `num_cells` positions. The source passes `size` to `cand_set_from_arr`
  (`basic_fish.c:197`) and so reads uninitialised slots.
- BasicFish.FindRemovals: the walk along the base lines stops comparing once
  all `size` bases have been passed. The source can read the stale
  `base_idxs[size]` (`basic_fish.c:219`).
- HiddenSets.HiddenSetRevert: the add-back loop runs over all `num_removals`
  removal cells. The source loops to `size` (`hidden_set.c:65`). The two
  agree when `num_removals == size`. With fewer removals the source reads
  stale entries.
- Backtrack.Run: at least one empty cell is required, because `backtrack`
  reads `empty_idxs[0]` even when there is none.
- HiddenSingles.HiddenSingleRevertApply: this is weaker than a full round
  trip. The hidden-single revert gives the value back to all 20 peers, not
  only to those that held it, so it restores the grid only up to the peers'
  candidates. The lemma states exactly what is restored.
- Integer widths are not modelled: C `int` overflow is not reachable at the
  sizes involved (at most 81 cells, `ncr(9, 4)`). Values are unbounded
  integers, and masks are `bv32`.

## Findings

| source | as written | input that shows it | evidently intended | confidence | as-written member | corrected member |
|---|---|---|---|---|---|---|
| src/techniques/hidden_set.c:57-59 | apply overwrites each set cell's candidates with the whole group set (so does `src/solver.c:46-48`); revert only adds back the removed extras | a hidden pair {1, 2} whose cell has candidates {1, 3}: apply gives {1, 2}, revert gives {1, 2, 3}, so the cell gains a 2 it never had | each set cell keeps only its own candidates inside the group, so revert after apply is the identity | not executed | HiddenSets.HiddenSetAsWrittenBreaks | HiddenSets.HiddenSetRoundTrip |
| src/history.c:18-19 | undo lowers the cursor first and then reverts `history_curr`, the entry below the new cursor; redo applies the entry below the cursor before raising it | add a naked single found on a grid, apply it, add the naked single found next and apply it, then undo: the cursor drops from 2 to 1 and undo reverts the first single, so the first cell is emptied and the second stays filled | undo reverts the step it moves the cursor past (the last one applied), redo applies the step at the cursor | not executed | Histories.UndoAsWrittenSkips | Histories.UndoLastRestores |
| src/techniques/naked_set.c:29-75 | `naked_pair`, `naked_triple` and `naked_quad` never write `tech`, so the step `solver_next_step` reports keeps the tag of the previous table entry, which wrote it and found nothing | a grid with no naked single, no hidden single and a naked pair with removals in some row: the step holds the pair's record under `TECH_HIDDEN_SINGLE`, and `solver_apply_step` takes the hidden-single branch | each naked scanner tags its step `TECH_NAKED_PAIR`, `TECH_NAKED_TRIPLE` or `TECH_NAKED_QUAD` | not executed | Solver.StaleNakedTag | Solver.NakedSizedFits |
