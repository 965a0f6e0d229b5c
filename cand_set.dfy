// The candidate set of holmes (src/cand_set.c): a 9-bit mask over the
// values 1..9 together with a cached count `len`.  CandSet is a C value
// struct, so the operations that take `CandSet *` (add, remove, clear) are
// functions returning the updated value.

module CandSets {
  import opened Bits

  /** typedef struct { unsigned int cands; int len; } CandSet */
  datatype CandSet = CandSet(cands: bv32, len: int)

  const NoCands: bv32 := 0x0
  const AllCands: bv32 := 0x1ff

  /** The representation invariant: only the nine value bits, and len caches popcount. */
  predicate Valid(s: CandSet)
  {
    s.cands <= AllCands && s.len == Popcount(s.cands)
  }

  /** IS_BIT_SET(mask, cand - 1) for a candidate 1..9; candidate 0 is never set. */
  predicate MaskHas(mask: bv32, cand: int)
    requires 0 <= cand <= 9
  {
    cand != 0 && HasBit(mask, Bit(cand - 1))
  }

  /** cand_set_has: value 0 is never a member; value v is bit v - 1. */
  predicate Has(s: CandSet, cand: int)
    requires 0 <= cand <= 9
  {
    MaskHas(s.cands, cand)
  }

  /** The values a set holds. */
  ghost function Elems(s: CandSet): set<int>
  {
    set v | 1 <= v <= 9 && Has(s, v)
  }

  /** The nine values 1..9. */
  ghost function AllValues(): set<int>
  {
    {1, 2, 3, 4, 5, 6, 7, 8, 9}
  }

  // ------------------------------------------------------------ cardinality

  /** The members of E among 1..k, counted one value at a time. */
  ghost function Members(e: set<int>, k: nat): nat
  {
    if k == 0 then 0 else Members(e, k - 1) + (if k in e then 1 else 0)
  }

  ghost function UpTo(e: set<int>, k: nat): set<int>
  {
    set v | v in e && v <= k
  }

  lemma {:induction false} UpToCount(e: set<int>, k: nat)
    requires forall v :: v in e ==> 1 <= v
    ensures |UpTo(e, k)| == Members(e, k)
  {
    if k == 0 {
      assert UpTo(e, 0) == {};
    } else {
      UpToCount(e, k - 1);
      if k in e {
        assert UpTo(e, k) == UpTo(e, k - 1) + {k};
      } else {
        assert UpTo(e, k) == UpTo(e, k - 1);
      }
    }
  }

  lemma {:induction false} MembersBits(s: CandSet, k: nat)
    requires k <= 9
    ensures Members(Elems(s), k) == CountBits(s.cands, k)
  {
    if k > 0 {
      MembersBits(s, k - 1);
      assert k in Elems(s) <==> HasBit(s.cands, Bit(k - 1));
    }
  }

  /** len counts the members: for a mask within 0x1ff, popcount == |Elems|. */
  lemma ElemsCount(s: CandSet)
    requires s.cands <= AllCands
    ensures Popcount(s.cands) == |Elems(s)|
    ensures |Elems(s)| <= 9
  {
    assert Elems(s) == UpTo(Elems(s), 9);
    UpToCount(Elems(s), 9);
    MembersBits(s, 9);
    PopcountNine(s.cands);
    CountBitsBound(s.cands, 9);
  }

  /** Two valid sets with the same members are the same value. */
  lemma Extensionality(a: CandSet, b: CandSet)
    requires Valid(a) && Valid(b) && Elems(a) == Elems(b)
    ensures a == b
  {
    forall v | 1 <= v <= 9
      ensures MaskHas(a.cands, v) <==> MaskHas(b.cands, v)
    {
      assert Has(a, v) <==> v in Elems(a);
      assert Has(b, v) <==> v in Elems(b);
    }
    MaskExtValues(a.cands, b.cands);
  }

  lemma MaskExtValues(x: bv32, y: bv32)
    requires x <= AllCands && y <= AllCands
    requires forall v :: 1 <= v <= 9 ==> (MaskHas(x, v) <==> MaskHas(y, v))
    ensures x == y
  {
    forall n | 0 <= n < 9
      ensures HasBit(x, Bit(n)) <==> HasBit(y, Bit(n))
    {
      assert MaskHas(x, n + 1) <==> MaskHas(y, n + 1);
    }
    MaskExt(x, y);
  }

  lemma MaskHasOr(x: bv32, y: bv32, v: int)
    requires 0 <= v <= 9
    ensures MaskHas(x | y, v) <==> MaskHas(x, v) || MaskHas(y, v)
  {
    if v != 0 {
      BitOr(x, y, Bit(v - 1));
    }
  }

  lemma MaskHasAnd(x: bv32, y: bv32, v: int)
    requires 0 <= v <= 9
    ensures MaskHas(x & y, v) <==> MaskHas(x, v) && MaskHas(y, v)
  {
    if v != 0 {
      BitIsCandBit(v - 1);
      BitAnd(x, y, Bit(v - 1));
    }
  }

  lemma MaskHasAndNot(x: bv32, y: bv32, v: int)
    requires 0 <= v <= 9
    ensures MaskHas(x & !y, v) <==> MaskHas(x, v) && !MaskHas(y, v)
  {
    if v != 0 {
      BitIsCandBit(v - 1);
      BitAndNot(x, y, Bit(v - 1));
    }
  }

  lemma MaskHasBit(c: int, v: int)
    requires 1 <= c <= 9 && 0 <= v <= 9
    ensures MaskHas(Bit(c - 1), v) <==> v == c
  {
    if v != 0 {
      BitsDisjoint(c - 1, v - 1);
    }
  }

  // ----------------------------------------------------------- constructors

  /** cand_set_empty */
  function Empty(): (r: CandSet)
    ensures Valid(r) && Elems(r) == {} && r.len == 0
  {
    assert Popcount(NoCands) == 0;
    CandSet(NoCands, 0)
  }

  /** cand_set_full */
  function Full(): (r: CandSet)
    ensures Valid(r) && Elems(r) == AllValues() && r.len == 9
  {
    FullFacts();
    CandSet(AllCands, 9)
  }

  lemma FullFacts()
    ensures Popcount(AllCands) == 9
    ensures Elems(CandSet(AllCands, 9)) == AllValues()
  {
    PopcountNine(AllCands);
    CountBitsNine(AllCands);
    forall v | 1 <= v <= 9
      ensures Has(CandSet(AllCands, 9), v)
    {
      BitIsCandBit(v - 1);
    }
  }

  /** cand_set_from_mask: the mask is kept and len is its popcount. */
  function FromMask(mask: bv32): (r: CandSet)
    ensures r.cands == mask
    ensures mask <= AllCands ==> Valid(r) && r.len == |Elems(r)|
  {
    FromMaskFacts(mask);
    CandSet(mask, Popcount(mask))
  }

  lemma FromMaskFacts(mask: bv32)
    ensures mask <= AllCands ==> Popcount(mask) == |Elems(CandSet(mask, Popcount(mask)))|
  {
    if mask <= AllCands {
      ElemsCount(CandSet(mask, Popcount(mask)));
    }
  }

  /** The intended cand_set_from_values(1, value): the singleton {value}. */
  function Singleton(value: int): (r: CandSet)
    requires 1 <= value <= 9
    ensures Valid(r) && Elems(r) == {value} && r.len == 1
  {
    Add(Empty(), value)
  }

  // ---------------------------------------------------------------- updates

  /** cand_set_add: no-op for 0 or a member; otherwise set the bit, len + 1. */
  function Add(s: CandSet, cand: int): (r: CandSet)
    requires 0 <= cand <= 9
    ensures cand == 0 || Has(s, cand) ==> r == s
    ensures Valid(s) ==> Valid(r) && Elems(r) == Elems(s) + (if cand == 0 then {} else {cand})
  {
    if Has(s, cand) || cand == 0 then s
    else
      var r := CandSet(s.cands | Bit(cand - 1), s.len + 1);
      AddFacts(s, cand, r);
      r
  }

  lemma AddFacts(s: CandSet, cand: int, r: CandSet)
    requires 1 <= cand <= 9 && !Has(s, cand)
    requires r == CandSet(s.cands | Bit(cand - 1), s.len + 1)
    ensures Valid(s) ==> Valid(r) && Elems(r) == Elems(s) + {cand}
  {
    if Valid(s) {
      AddMembers(s, cand, r);
      AddBound(s.cands, cand);
      ElemsCount(s);
      ElemsCount(r);
    }
  }

  lemma AddMembers(s: CandSet, cand: int, r: CandSet)
    requires 1 <= cand <= 9
    requires r.cands == s.cands | Bit(cand - 1)
    ensures Elems(r) == Elems(s) + {cand}
  {
    forall v | 1 <= v <= 9
      ensures Has(r, v) <==> Has(s, v) || v == cand
    {
      MaskHasOr(s.cands, Bit(cand - 1), v);
      MaskHasBit(cand, v);
    }
  }

  lemma AddBound(x: bv32, cand: int)
    requires 1 <= cand <= 9 && x <= AllCands
    ensures x | Bit(cand - 1) <= AllCands
  {
    BitIsCandBit(cand - 1);
    OrBound(x, Bit(cand - 1));
  }

  lemma OrBound(x: bv32, y: bv32)
    requires x <= 0x1ff && y <= 0x1ff
    ensures x | y <= 0x1ff
  {
  }

  lemma AndNotBound(x: bv32, y: bv32)
    requires x <= 0x1ff
    ensures x & !y <= 0x1ff && x & y <= 0x1ff
  {
  }

  /** cand_set_remove: no-op for a non-member; otherwise clear the bit, len - 1. */
  function Remove(s: CandSet, cand: int): (r: CandSet)
    requires 0 <= cand <= 9
    ensures !Has(s, cand) ==> r == s
    ensures Valid(s) ==> Valid(r) && Elems(r) == Elems(s) - {cand}
  {
    if !Has(s, cand) then s
    else
      var r := CandSet(s.cands & !Bit(cand - 1), s.len - 1);
      RemoveFacts(s, cand, r);
      r
  }

  lemma RemoveFacts(s: CandSet, cand: int, r: CandSet)
    requires 1 <= cand <= 9 && Has(s, cand)
    requires r == CandSet(s.cands & !Bit(cand - 1), s.len - 1)
    ensures Valid(s) ==> Valid(r) && Elems(r) == Elems(s) - {cand}
  {
    if Valid(s) {
      forall v | 1 <= v <= 9
        ensures Has(r, v) <==> Has(s, v) && v != cand
      {
        MaskHasAndNot(s.cands, Bit(cand - 1), v);
        MaskHasBit(cand, v);
      }
      AndNotBound(s.cands, Bit(cand - 1));
      ElemsCount(s);
      ElemsCount(r);
      assert Elems(r) == Elems(s) - {cand};
    }
  }

  /** Removing a value twice is removing it once. */
  lemma RemoveIdempotent(s: CandSet, cand: int)
    requires 0 <= cand <= 9 && Valid(s)
    ensures Remove(Remove(s, cand), cand) == Remove(s, cand)
  {
    var r := Remove(s, cand);
    assert cand !in Elems(r);
    if cand != 0 {
      assert !Has(r, cand);
    }
  }

  /** Adding back a removed member restores the set. */
  lemma AddRemove(s: CandSet, cand: int)
    requires 1 <= cand <= 9 && Valid(s) && Has(s, cand)
    ensures Add(Remove(s, cand), cand) == s
  {
    var r := Add(Remove(s, cand), cand);
    assert cand in Elems(s);
    assert Elems(r) == Elems(s);
    Extensionality(r, s);
  }

  /** Removing a value that was added to a set without it restores the set. */
  lemma RemoveAdd(s: CandSet, cand: int)
    requires 1 <= cand <= 9 && Valid(s) && !Has(s, cand)
    ensures Remove(Add(s, cand), cand) == s
  {
    var r := Remove(Add(s, cand), cand);
    assert cand !in Elems(s);
    assert Elems(r) == Elems(s);
    Extensionality(r, s);
  }

  /** cand_set_clear */
  function Clear(s: CandSet): (r: CandSet)
    ensures Valid(r) && Elems(r) == {} && r.len == 0
  {
    Empty()
  }

  /** cand_set_only: the lowest member (find_first_set), the sole one when len == 1. */
  function Only(s: CandSet): (r: nat)
    ensures s.cands == NoCands ==> r == 0
    ensures Valid(s) && s.len == 1 ==> 1 <= r <= 9 && Elems(s) == {r}
  {
    OnlyFacts(s);
    FindFirstSet(s.cands)
  }

  lemma OnlyFacts(s: CandSet)
    ensures Valid(s) && s.len == 1 ==>
      1 <= FindFirstSet(s.cands) <= 9 && Elems(s) == {FindFirstSet(s.cands)}
  {
    if Valid(s) && s.len == 1 {
      OnlySingle(s);
    }
  }

  lemma OnlySingle(s: CandSet)
    requires Valid(s) && s.len == 1
    ensures 1 <= FindFirstSet(s.cands) <= 9 && Elems(s) == {FindFirstSet(s.cands)}
  {
    PopcountNine(s.cands);
    var n := CountBitsOne(s.cands, 9);
    OneBitIs(s.cands, n);
    FindFirstSetBit(n);
    BitElems(s, n);
  }

  /** A mask within 0x1ff whose only set candidate bit is bit n is Bit(n). */
  lemma OneBitIs(x: bv32, n: nat)
    requires x <= 0x1ff && n < 9 && HasBit(x, Bit(n))
    requires forall m :: 0 <= m < 9 && m != n ==> !HasBit(x, Bit(m))
    ensures x == Bit(n)
  {
    forall m | 0 <= m < 9
      ensures HasBit(x, Bit(m)) <==> HasBit(Bit(n), Bit(m))
    {
      BitsDisjoint(n, m);
    }
    BitIsCandBit(n);
    MaskExt(x, Bit(n));
  }

  /** The set whose mask is Bit(n) holds n + 1 alone. */
  lemma BitElems(s: CandSet, n: nat)
    requires n < 9 && s.cands == Bit(n)
    ensures Elems(s) == {n + 1}
  {
    forall v | 1 <= v <= 9
      ensures Has(s, v) <==> v == n + 1
    {
      BitsDisjoint(n, v - 1);
    }
  }

  /** A mask with exactly one set bit among 0..k-1 names that bit. */
  lemma {:induction false} CountBitsOne(x: bv32, k: nat) returns (n: nat)
    requires k <= 9 && CountBits(x, k) == 1
    ensures n < k && HasBit(x, Bit(n))
    ensures forall m :: 0 <= m < k && m != n ==> !HasBit(x, Bit(m))
  {
    var top := HasBit(x, Bit(k - 1));
    assert BitCount(x, k - 1) == if top then 1 else 0;
    if top {
      CountBitsNone(x, k - 1);
      n := k - 1;
    } else {
      n := CountBitsOne(x, k - 1);
      forall m | 0 <= m < k && m != n
        ensures !HasBit(x, Bit(m))
      {
        if m == k - 1 {
          assert !top;
        }
      }
    }
  }

  lemma {:induction false} CountBitsNone(x: bv32, k: nat)
    requires k <= 9 && CountBits(x, k) == 0
    ensures forall m :: 0 <= m < k ==> !HasBit(x, Bit(m))
  {
    if k > 0 {
      CountBitsNone(x, k - 1);
    }
  }

  // ------------------------------------------------------------ combinators

  /** cand_set_difference: a & ~b, with len recomputed. */
  function Difference(a: CandSet, b: CandSet): (r: CandSet)
    ensures a.cands <= AllCands ==> Valid(r) && Elems(r) == Elems(a) - Elems(b)
  {
    var m := a.cands & !b.cands;
    DifferenceFacts(a, b, CandSet(m, Popcount(m)));
    CandSet(m, Popcount(m))
  }

  lemma DifferenceFacts(a: CandSet, b: CandSet, r: CandSet)
    requires r == CandSet(a.cands & !b.cands, Popcount(a.cands & !b.cands))
    ensures a.cands <= AllCands ==> Valid(r) && Elems(r) == Elems(a) - Elems(b)
  {
    if a.cands <= AllCands {
      AndNotBound(a.cands, b.cands);
      forall v | 1 <= v <= 9
        ensures Has(r, v) <==> Has(a, v) && !Has(b, v)
      {
        MaskHasAndNot(a.cands, b.cands, v);
      }
    }
  }

  /** Every set of the sequence holds v. */
  predicate AllHave(sets: seq<CandSet>, v: int)
    requires 1 <= v <= 9
  {
    forall i :: 0 <= i < |sets| ==> Has(sets[i], v)
  }

  /** Some set of the sequence holds v. */
  predicate SomeHas(sets: seq<CandSet>, v: int)
    requires 1 <= v <= 9
  {
    exists i :: 0 <= i < |sets| && Has(sets[i], v)
  }

  lemma SplitLast(sets: seq<CandSet>, v: int)
    requires sets != [] && 1 <= v <= 9
    ensures AllHave(sets, v) <==> AllHave(sets[..|sets| - 1], v) && Has(sets[|sets| - 1], v)
    ensures SomeHas(sets, v) <==> SomeHas(sets[..|sets| - 1], v) || Has(sets[|sets| - 1], v)
  {
    var init := sets[..|sets| - 1];
    assert forall i :: 0 <= i < |init| ==> init[i] == sets[i];
    if SomeHas(sets, v) {
      var i :| 0 <= i < |sets| && Has(sets[i], v);
      if i < |init| {
        assert Has(init[i], v);
      }
    }
  }

  /** The running AND of the intersection loop, started from ALL_CANDS. */
  function AndMasks(sets: seq<CandSet>): (m: bv32)
    ensures m <= AllCands
    ensures forall v :: 1 <= v <= 9 ==> (MaskHas(m, v) <==> AllHave(sets, v))
  {
    if sets == [] then
      FullFacts();
      AllCands
    else
      var prev := AndMasks(sets[..|sets| - 1]);
      AndStep(sets, prev, prev & sets[|sets| - 1].cands);
      prev & sets[|sets| - 1].cands
  }

  lemma AndStep(sets: seq<CandSet>, prev: bv32, m: bv32)
    requires sets != [] && prev <= AllCands && m == prev & sets[|sets| - 1].cands
    requires forall v :: 1 <= v <= 9 ==> (MaskHas(prev, v) <==> AllHave(sets[..|sets| - 1], v))
    ensures m <= AllCands
    ensures forall v :: 1 <= v <= 9 ==> (MaskHas(m, v) <==> AllHave(sets, v))
  {
    AndNotBound(prev, sets[|sets| - 1].cands);
    forall v | 1 <= v <= 9
      ensures MaskHas(m, v) <==> AllHave(sets, v)
    {
      AndStepAt(sets, prev, m, v);
    }
  }

  lemma AndStepAt(sets: seq<CandSet>, prev: bv32, m: bv32, v: int)
    requires sets != [] && 1 <= v <= 9 && m == prev & sets[|sets| - 1].cands
    requires MaskHas(prev, v) <==> AllHave(sets[..|sets| - 1], v)
    ensures MaskHas(m, v) <==> AllHave(sets, v)
  {
    SplitLast(sets, v);
    AndAt(prev, sets[|sets| - 1], m, v);
  }

  lemma AndAt(prev: bv32, last: CandSet, m: bv32, v: int)
    requires 1 <= v <= 9 && m == prev & last.cands
    ensures MaskHas(m, v) <==> MaskHas(prev, v) && Has(last, v)
  {
    MaskHasAnd(prev, last.cands, v);
  }

  /** Every set of the sequence keeps to the nine value bits. */
  predicate AllBounded(sets: seq<CandSet>)
  {
    forall i :: 0 <= i < |sets| ==> sets[i].cands <= AllCands
  }

  /** The running OR of the union loop, started from NO_CANDS. */
  function OrMasks(sets: seq<CandSet>): (m: bv32)
    ensures AllBounded(sets) ==> m <= AllCands
    ensures forall v :: 1 <= v <= 9 ==> (MaskHas(m, v) <==> SomeHas(sets, v))
  {
    if sets == [] then
      NoCands
    else
      var prev := OrMasks(sets[..|sets| - 1]);
      OrStep(sets, prev, prev | sets[|sets| - 1].cands);
      prev | sets[|sets| - 1].cands
  }

  lemma OrStep(sets: seq<CandSet>, prev: bv32, m: bv32)
    requires sets != [] && m == prev | sets[|sets| - 1].cands
    requires AllBounded(sets[..|sets| - 1]) ==> prev <= AllCands
    requires forall v :: 1 <= v <= 9 ==> (MaskHas(prev, v) <==> SomeHas(sets[..|sets| - 1], v))
    ensures AllBounded(sets) ==> m <= AllCands
    ensures forall v :: 1 <= v <= 9 ==> (MaskHas(m, v) <==> SomeHas(sets, v))
  {
    if AllBounded(sets) {
      assert AllBounded(sets[..|sets| - 1]);
      OrBound(prev, sets[|sets| - 1].cands);
    }
    forall v | 1 <= v <= 9
      ensures MaskHas(m, v) <==> SomeHas(sets, v)
    {
      SplitLast(sets, v);
      OrAt(prev, sets[|sets| - 1], m, v);
    }
  }

  lemma OrAt(prev: bv32, last: CandSet, m: bv32, v: int)
    requires 1 <= v <= 9 && m == prev | last.cands
    ensures MaskHas(m, v) <==> MaskHas(prev, v) || Has(last, v)
  {
    MaskHasOr(prev, last.cands, v);
  }

  /** The value of cand_set_intersection_* over the given sets. */
  function IntersectionOf(sets: seq<CandSet>): (r: CandSet)
    ensures Valid(r)
    ensures forall v :: 1 <= v <= 9 ==> (Has(r, v) <==> AllHave(sets, v))
  {
    CandSet(AndMasks(sets), Popcount(AndMasks(sets)))
  }

  /** The value of cand_set_union_* over the given sets. */
  function UnionOf(sets: seq<CandSet>): (r: CandSet)
    ensures AllBounded(sets) ==> Valid(r)
    ensures forall v :: 1 <= v <= 9 ==> (Has(r, v) <==> SomeHas(sets, v))
  {
    CandSet(OrMasks(sets), Popcount(OrMasks(sets)))
  }

  /** cand_set_intersection_from_arr (and the same loop over a va_list). */
  method IntersectionFromArr(sets: array<CandSet>, numSets: int) returns (r: CandSet)
    requires 0 <= numSets <= sets.Length
    ensures r == IntersectionOf(sets[..numSets])
  {
    r := Full();
    var i := 0;
    while i < numSets
      invariant 0 <= i <= numSets
      invariant r.cands == AndMasks(sets[..i])
    {
      assert sets[..i + 1][..i] == sets[..i];
      r := r.(cands := r.cands & sets[i].cands);
      i := i + 1;
    }
    assert sets[..numSets] == sets[..i];
    var len := CountOnes(r.cands);
    r := r.(len := len);
  }

  /** cand_set_union_from_arr (and the same loop over a va_list). */
  method UnionFromArr(sets: array<CandSet>, numSets: int) returns (r: CandSet)
    requires 0 <= numSets <= sets.Length
    ensures r == UnionOf(sets[..numSets])
  {
    r := Empty();
    var i := 0;
    while i < numSets
      invariant 0 <= i <= numSets
      invariant r.cands == OrMasks(sets[..i])
    {
      assert sets[..i + 1][..i] == sets[..i];
      r := r.(cands := r.cands | sets[i].cands);
      i := i + 1;
    }
    assert sets[..numSets] == sets[..i];
    var len := CountOnes(r.cands);
    r := r.(len := len);
  }

  // ------------------------------------------------------ arrays of values

  /** The set the from_arr loop builds: the values added one by one to the empty set. */
  function FromValues(vals: seq<int>): (r: CandSet)
    requires forall i :: 0 <= i < |vals| ==> 0 <= vals[i] <= 9
    ensures Valid(r)
    ensures forall v :: 1 <= v <= 9 ==> (Has(r, v) <==> v in vals)
  {
    if vals == [] then Empty()
    else
      var s := FromValues(vals[..|vals| - 1]);
      FromValuesStep(vals, s);
      Add(s, vals[|vals| - 1])
  }

  lemma FromValuesStep(vals: seq<int>, s: CandSet)
    requires vals != [] && 0 <= vals[|vals| - 1] <= 9 && Valid(s)
    requires forall v :: 1 <= v <= 9 ==> (Has(s, v) <==> v in vals[..|vals| - 1])
    ensures forall v :: 1 <= v <= 9 ==> (Has(Add(s, vals[|vals| - 1]), v) <==> v in vals)
  {
    var last := vals[|vals| - 1];
    assert vals == vals[..|vals| - 1] + [last];
    var r := Add(s, last);
    forall v | 1 <= v <= 9
      ensures Has(r, v) <==> v in vals
    {
      assert Has(r, v) <==> v in Elems(r);
      assert Has(s, v) <==> v in Elems(s);
    }
  }

  /** cand_set_from_arr */
  method FromArr(arr: array<int>, arrLen: int) returns (r: CandSet)
    requires 0 <= arrLen <= arr.Length
    requires forall i :: 0 <= i < arrLen ==> 0 <= arr[i] <= 9
    ensures r == FromValues(arr[..arrLen])
  {
    r := Empty();
    var i := 0;
    while i < arrLen
      invariant 0 <= i <= arrLen
      invariant r == FromValues(arr[..i])
    {
      assert arr[..i + 1][..i] == arr[..i];
      r := Add(r, arr[i]);
      i := i + 1;
    }
    assert arr[..arrLen] == arr[..i];
  }

  /** The members of s below value, ascending: what the to_arr loop has written so far. */
  function ValuesBelow(s: CandSet, value: int): (r: seq<int>)
    requires 1 <= value <= 10
    ensures |r| <= value - 1
  {
    if value == 1 then []
    else ValuesBelow(s, value - 1) + (if Has(s, value - 1) then [value - 1] else [])
  }

  lemma {:induction false} ValuesBelowRange(s: CandSet, value: int)
    requires 1 <= value <= 10
    ensures forall j :: 0 <= j < |ValuesBelow(s, value)| ==> 1 <= ValuesBelow(s, value)[j] < value
  {
    if value > 1 {
      ValuesBelowRange(s, value - 1);
    }
  }

  lemma {:induction false} ValuesBelowSorted(s: CandSet, value: int)
    requires 1 <= value <= 10
    ensures forall j, k :: 0 <= j < k < |ValuesBelow(s, value)| ==>
      ValuesBelow(s, value)[j] < ValuesBelow(s, value)[k]
  {
    if value > 1 {
      ValuesBelowSorted(s, value - 1);
      ValuesBelowRange(s, value - 1);
    }
  }

  lemma {:induction false} ValuesBelowHas(s: CandSet, value: int)
    requires 1 <= value <= 10
    ensures forall v :: v in ValuesBelow(s, value) <==> 1 <= v < value && Has(s, v)
  {
    if value > 1 {
      ValuesBelowHas(s, value - 1);
    }
  }

  lemma {:induction false} ValuesBelowLen(s: CandSet, value: int)
    requires 1 <= value <= 10
    ensures |ValuesBelow(s, value)| == Members(Elems(s), value - 1)
  {
    if value > 1 {
      ValuesBelowLen(s, value - 1);
      assert value - 1 in Elems(s) <==> Has(s, value - 1);
    }
  }

  /** What cand_set_to_arr writes: the members 1..9 in ascending order. */
  function ToValues(s: CandSet): (r: seq<int>)
    ensures forall j, k :: 0 <= j < k < |r| ==> r[j] < r[k]
    ensures forall v :: v in r <==> 1 <= v <= 9 && Has(s, v)
    ensures Valid(s) ==> |r| == s.len
  {
    ValuesBelowSorted(s, 10);
    ValuesBelowHas(s, 10);
    ValuesBelowLen(s, 10);
    ToValuesCount(s);
    ValuesBelow(s, 10)
  }

  lemma ToValuesCount(s: CandSet)
    ensures Valid(s) ==> Members(Elems(s), 9) == s.len
  {
    if Valid(s) {
      ElemsCount(s);
      assert Elems(s) == UpTo(Elems(s), 9);
      UpToCount(Elems(s), 9);
    }
  }

  /** cand_set_to_arr: writes the members into out and returns how many. */
  method ToArr(s: CandSet, out: array<int>) returns (count: int)
    requires out.Length >= 9
    modifies out
    ensures 0 <= count <= 9 && out[..count] == ToValues(s)
    ensures forall j :: count <= j < out.Length ==> out[j] == old(out[j])
  {
    count := 0;
    var value := 1;
    while value <= 9
      invariant 1 <= value <= 10
      invariant 0 <= count <= value - 1
      invariant out[..count] == ValuesBelow(s, value)
      invariant forall j :: count <= j < out.Length ==> out[j] == old(out[j])
    {
      if Has(s, value) {
        out[count] := value;
        count := count + 1;
      }
      value := value + 1;
    }
  }
}
