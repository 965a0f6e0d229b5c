// The Step every scanner fills in and apply/revert consume: the technique
// tag and, per family, the fields the technique files read and write.  The
// numbers the C code keeps beside its fixed arrays (num_removals, the
// lengths of idxs) are the lengths of the sequences here.

module Steps {
  import opened CandSets
  import opened Grids

  /** TechniqueType: the tags of the technique_ops table, in its order. */
  datatype Technique =
    | TechNakedSingle | TechHiddenSingle
    | TechNakedPair | TechNakedTriple | TechNakedQuad
    | TechHiddenPair | TechHiddenTriple | TechHiddenQuad
    | TechPointingSet | TechXWing | TechSwordfish | TechJellyfish

  /** The union of step records, one variant per technique family. */
  datatype StepData =
    | NakedSingleStep(idx: int, value: int, removalIdxs: seq<int>)
    | HiddenSingleStep(idx: int, value: int, unitType: UnitType, unitIdx: int, peerIdxs: seq<int>)
    | NakedSetStep(setSize: int, setIdxs: seq<int>, setCands: CandSet,
                   removalIdxs: seq<int>, removedCands: seq<CandSet>,
                   unitType: UnitType, unitIdx: int)
    | HiddenSetStep(size: int, idxs: seq<int>, cands: CandSet,
                    removalIdxs: seq<int>, removedCands: seq<CandSet>,
                    unitType: UnitType, unitIdx: int)
    | PointingSetStep(size: int, value: int, idxs: seq<int>, removalIdxs: seq<int>,
                      triggerUnitType: UnitType, triggerUnitIdx: int,
                      removalUnitType: UnitType, removalUnitIdx: int)
    | BasicFishStep(size: int, value: int, unitType: UnitType,
                    baseIdxs: seq<int>, coverIdxs: seq<int>, removalIdxs: seq<int>)

  /** Step: the tag and the record. */
  datatype Step = Step(tech: Technique, data: StepData)

  /** The naked-set tag for a set of the given size. */
  function NakedSetTech(size: int): Technique
  {
    if size == 2 then TechNakedPair else if size == 3 then TechNakedTriple else TechNakedQuad
  }

  /** The hidden-set tag for a set of the given size. */
  function HiddenSetTech(size: int): Technique
  {
    if size == 2 then TechHiddenPair else if size == 3 then TechHiddenTriple else TechHiddenQuad
  }

  /** The fish tag for a fish of the given size. */
  function FishTech(size: int): Technique
  {
    if size == 2 then TechXWing else if size == 3 then TechSwordfish else TechJellyfish
  }
}
