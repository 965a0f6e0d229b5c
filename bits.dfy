// Bit helpers of holmes: the `count_ones` popcount (src/bits.c) and the
// single-bit masks of include/bits.h, restricted to the nine candidate bits.

module Bits {

  /** BIT(n) of include/bits.h for the candidate bits n = 0..8 (value n + 1). */
  function Bit(n: nat): bv32
    requires n < 9
  {
    match n
    case 0 => 0x001 case 1 => 0x002 case 2 => 0x004
    case 3 => 0x008 case 4 => 0x010 case 5 => 0x020
    case 6 => 0x040 case 7 => 0x080 case _ => 0x100
  }

  /** The table agrees with the shift of the macro. */
  lemma BitIsShift(n: nat)
    requires n < 9
    ensures Bit(n) == (1 as bv32) << n
  {
    if n == 0 {} else if n == 1 {} else if n == 2 {} else if n == 3 {} else if n == 4 {}
    else if n == 5 {} else if n == 6 {} else if n == 7 {} else {}
  }

  /** IS_BIT_SET(x, .) for a mask b: x and b share a set bit. */
  predicate HasBit(x: bv32, b: bv32)
  {
    x & b != 0
  }

  /** The nine single-bit masks, spelled out so that bit-vector facts stay literal. */
  predicate IsCandBit(b: bv32)
  {
    b == 0x001 || b == 0x002 || b == 0x004 || b == 0x008 || b == 0x010 ||
    b == 0x020 || b == 0x040 || b == 0x080 || b == 0x100
  }

  lemma BitIsCandBit(n: nat)
    requires n < 9
    ensures IsCandBit(Bit(n)) && Bit(n) <= 0x1ff
  {
  }

  /** Two candidate bits overlap exactly when they are the same bit. */
  lemma BitsDisjoint(n: nat, m: nat)
    requires n < 9 && m < 9
    ensures HasBit(Bit(n), Bit(m)) <==> n == m
  {
    if n == 0 {} else if n == 1 {} else if n == 2 {} else if n == 3 {} else if n == 4 {}
    else if n == 5 {} else if n == 6 {} else if n == 7 {} else {}
  }

  lemma BitOr(x: bv32, y: bv32, b: bv32)
    ensures HasBit(x | y, b) <==> HasBit(x, b) || HasBit(y, b)
  {
    OrWord(x, y, b);
  }

  lemma BitAnd(x: bv32, y: bv32, b: bv32)
    requires IsCandBit(b)
    ensures HasBit(x & y, b) <==> HasBit(x, b) && HasBit(y, b)
  {
    AndWord(x, y, b);
  }

  lemma BitAndNot(x: bv32, y: bv32, b: bv32)
    requires IsCandBit(b)
    ensures HasBit(x & !y, b) <==> HasBit(x, b) && !HasBit(y, b)
  {
    AndNotWord(x, y, b);
  }

  // The same three facts on raw words: kept apart from HasBit, which keeps
  // each proof obligation small for the solver.

  lemma OrWord(x: bv32, y: bv32, b: bv32)
    ensures (x | y) & b != 0 <==> (x & b != 0 || y & b != 0)
  {
  }

  lemma AndWord(x: bv32, y: bv32, b: bv32)
    requires IsCandBit(b)
    ensures (x & y) & b != 0 <==> (x & b != 0 && y & b != 0)
  {
  }

  lemma AndNotWord(x: bv32, y: bv32, b: bv32)
    requires IsCandBit(b)
    ensures (x & !y) & b != 0 <==> (x & b != 0 && y & b == 0)
  {
  }

  /** A mask within 0x1ff is determined by its nine candidate bits. */
  lemma MaskExt(x: bv32, y: bv32)
    requires x <= 0x1ff && y <= 0x1ff
    requires forall n :: 0 <= n < 9 ==> (HasBit(x, Bit(n)) <==> HasBit(y, Bit(n)))
    ensures x == y
  {
    assert HasBit(x, Bit(0)) <==> HasBit(y, Bit(0));
    assert HasBit(x, Bit(1)) <==> HasBit(y, Bit(1));
    assert HasBit(x, Bit(2)) <==> HasBit(y, Bit(2));
    assert HasBit(x, Bit(3)) <==> HasBit(y, Bit(3));
    assert HasBit(x, Bit(4)) <==> HasBit(y, Bit(4));
    assert HasBit(x, Bit(5)) <==> HasBit(y, Bit(5));
    assert HasBit(x, Bit(6)) <==> HasBit(y, Bit(6));
    assert HasBit(x, Bit(7)) <==> HasBit(y, Bit(7));
    assert HasBit(x, Bit(8)) <==> HasBit(y, Bit(8));
    MaskExtLiteral(x, y);
  }

  lemma MaskExtLiteral(x: bv32, y: bv32)
    requires x <= 0x1ff && y <= 0x1ff
    requires x & 0x001 != 0 <==> y & 0x001 != 0
    requires x & 0x002 != 0 <==> y & 0x002 != 0
    requires x & 0x004 != 0 <==> y & 0x004 != 0
    requires x & 0x008 != 0 <==> y & 0x008 != 0
    requires x & 0x010 != 0 <==> y & 0x010 != 0
    requires x & 0x020 != 0 <==> y & 0x020 != 0
    requires x & 0x040 != 0 <==> y & 0x040 != 0
    requires x & 0x080 != 0 <==> y & 0x080 != 0
    requires x & 0x100 != 0 <==> y & 0x100 != 0
    ensures x == y
  {
  }

  // ---------------------------------------------------------------- popcount

  /** The lowest bit of x, as a number. */
  function Low(x: bv32): nat
  {
    if x & 1 == 1 then 1 else 0
  }

  /** Number of set bits of x. */
  function Popcount(x: bv32): nat
    decreases x
  {
    if x == 0 then 0 else Low(x) + Popcount(x >> 1)
  }

  lemma PopcountUnfold(x: bv32, h: bv32)
    requires h == x >> 1
    ensures Popcount(x) == Low(x) + Popcount(h)
  {
  }

  lemma HalfSmaller(x: bv32, h: bv32)
    requires x != 0 && x & 1 == 0 && h == x >> 1
    ensures h != 0 && h < x
  {
  }

  /** Only the zero word has no set bit. */
  lemma {:induction false} PopcountZero(x: bv32)
    ensures Popcount(x) == 0 <==> x == 0
    decreases x
  {
    if x != 0 && x & 1 == 0 {
      var h := x >> 1;
      HalfSmaller(x, h);
      PopcountZero(h);
      PopcountUnfold(x, h);
    }
  }

  lemma OddStep(x: bv32, y: bv32, h: bv32)
    requires x & 1 == 1 && y == x & (x - 1) && h == x >> 1
    ensures Low(x) == 1 && Low(y) == 0 && y >> 1 == h
  {
  }

  lemma EvenStep(x: bv32, y: bv32, h: bv32)
    requires x != 0 && x & 1 == 0 && y == x & (x - 1) && h == x >> 1
    ensures Low(x) == 0 && Low(y) == 0 && y >> 1 == h & (h - 1)
  {
  }

  /** `x &= x - 1` clears exactly one set bit of a nonzero word. */
  lemma {:induction false} ClearLowest(x: bv32)
    requires x != 0
    ensures Popcount(x & (x - 1)) + 1 == Popcount(x)
    decreases x
  {
    var y := x & (x - 1);
    var h := x >> 1;
    PopcountUnfold(x, h);
    if x & 1 == 1 {
      OddStep(x, y, h);
      PopcountUnfold(y, h);
    } else {
      EvenStep(x, y, h);
      HalfSmaller(x, h);
      ClearLowest(h);
      PopcountUnfold(y, h & (h - 1));
    }
  }

  /** count_ones: Kernighan's loop, one iteration per set bit. */
  method CountOnes(x0: bv32) returns (count: int)
    ensures count == Popcount(x0)
    ensures x0 == 0 ==> count == 0
    ensures x0 <= 0x1ff ==> count <= 9
  {
    count := 0;
    var x := x0;
    while x != 0
      invariant count + Popcount(x) == Popcount(x0)
      decreases Popcount(x)
    {
      ClearLowest(x);
      count := count + 1;
      x := x & (x - 1);
    }
    if x0 <= 0x1ff {
      PopcountNine(x0);
      CountBitsBound(x0, 9);
    }
  }

  // ----------------------------------------------- popcount of a 9-bit mask

  /** 1 when candidate bit n of x is set. */
  function BitCount(x: bv32, n: nat): nat
    requires n < 9
  {
    if HasBit(x, Bit(n)) then 1 else 0
  }

  /** Number of set bits among the candidate bits 0..k-1. */
  function CountBits(x: bv32, k: nat): nat
    requires k <= 9
  {
    if k == 0 then 0 else CountBits(x, k - 1) + BitCount(x, k - 1)
  }

  lemma {:induction false} CountBitsBound(x: bv32, k: nat)
    requires k <= 9
    ensures CountBits(x, k) <= k
  {
    if k > 0 {
      CountBitsBound(x, k - 1);
    }
  }

  /** Shifting right by one moves candidate bit n + 1 down to bit n. */
  lemma ShiftBit(x: bv32, y: bv32, n: nat)
    requires n < 8 && y == x >> 1
    ensures BitCount(y, n) == BitCount(x, n + 1)
  {
    assert Bit(n + 1) == Bit(n) << 1;
    assert (y & Bit(n) != 0) == (x & (Bit(n) << 1) != 0);
  }

  /** The lowest bit of x is candidate bit 0. */
  lemma LowBit(x: bv32)
    ensures Low(x) == BitCount(x, 0)
  {
  }

  /** Nine shifts of a mask within 0x1ff leave nothing. */
  lemma ShiftNine(x: bv32, x1: bv32, x2: bv32, x3: bv32, x4: bv32, x5: bv32,
                  x6: bv32, x7: bv32, x8: bv32, x9: bv32)
    requires x <= 0x1ff
    requires x1 == x >> 1 && x2 == x1 >> 1 && x3 == x2 >> 1 && x4 == x3 >> 1 && x5 == x4 >> 1
    requires x6 == x5 >> 1 && x7 == x6 >> 1 && x8 == x7 >> 1 && x9 == x8 >> 1
    ensures x9 == 0
  {
    assert x1 <= 0xff;
    assert x3 <= 0x3f;
    assert x5 <= 0xf;
    assert x7 <= 0x3;
  }

  lemma ShiftChain(x: bv32, x1: bv32, x2: bv32, x3: bv32, x4: bv32, x5: bv32,
                   x6: bv32, x7: bv32, x8: bv32, x9: bv32)
    requires x <= 0x1ff
    requires x1 == x >> 1 && x2 == x1 >> 1 && x3 == x2 >> 1 && x4 == x3 >> 1 && x5 == x4 >> 1
    requires x6 == x5 >> 1 && x7 == x6 >> 1 && x8 == x7 >> 1 && x9 == x8 >> 1
    ensures x9 == 0
    ensures Low(x) == BitCount(x, 0) && Low(x1) == BitCount(x, 1) && Low(x2) == BitCount(x, 2)
    ensures Low(x3) == BitCount(x, 3) && Low(x4) == BitCount(x, 4) && Low(x5) == BitCount(x, 5)
    ensures Low(x6) == BitCount(x, 6) && Low(x7) == BitCount(x, 7) && Low(x8) == BitCount(x, 8)
  {
    ShiftNine(x, x1, x2, x3, x4, x5, x6, x7, x8, x9);
    LowBit(x);
    LowBit(x1); ShiftBit(x, x1, 0);
    LowBit(x2); ShiftBit(x1, x2, 0); ShiftBit(x, x1, 1);
    LowBit(x3); ShiftBit(x2, x3, 0); ShiftBit(x1, x2, 1); ShiftBit(x, x1, 2);
    LowBit(x4); ShiftBit(x3, x4, 0); ShiftBit(x2, x3, 1); ShiftBit(x1, x2, 2); ShiftBit(x, x1, 3);
    LowBit(x5); ShiftBit(x4, x5, 0); ShiftBit(x3, x4, 1); ShiftBit(x2, x3, 2); ShiftBit(x1, x2, 3);
    ShiftBit(x, x1, 4);
    LowBit(x6); ShiftBit(x5, x6, 0); ShiftBit(x4, x5, 1); ShiftBit(x3, x4, 2); ShiftBit(x2, x3, 3);
    ShiftBit(x1, x2, 4); ShiftBit(x, x1, 5);
    LowBit(x7); ShiftBit(x6, x7, 0); ShiftBit(x5, x6, 1); ShiftBit(x4, x5, 2); ShiftBit(x3, x4, 3);
    ShiftBit(x2, x3, 4); ShiftBit(x1, x2, 5); ShiftBit(x, x1, 6);
    LowBit(x8); ShiftBit(x7, x8, 0); ShiftBit(x6, x7, 1); ShiftBit(x5, x6, 2); ShiftBit(x4, x5, 3);
    ShiftBit(x3, x4, 4); ShiftBit(x2, x3, 5); ShiftBit(x1, x2, 6); ShiftBit(x, x1, 7);
  }

  /** Within 0x1ff the popcount is the number of set candidate bits. */
  lemma PopcountNine(x: bv32)
    requires x <= 0x1ff
    ensures Popcount(x) == CountBits(x, 9)
  {
    var x1 := x >> 1;
    var x2 := x1 >> 1;
    var x3 := x2 >> 1;
    var x4 := x3 >> 1;
    var x5 := x4 >> 1;
    var x6 := x5 >> 1;
    var x7 := x6 >> 1;
    var x8 := x7 >> 1;
    var x9 := x8 >> 1;
    ShiftChain(x, x1, x2, x3, x4, x5, x6, x7, x8, x9);
    PopcountUnfold(x, x1);
    PopcountUnfold(x1, x2);
    PopcountUnfold(x2, x3);
    PopcountUnfold(x3, x4);
    PopcountUnfold(x4, x5);
    PopcountUnfold(x5, x6);
    PopcountUnfold(x6, x7);
    PopcountUnfold(x7, x8);
    PopcountUnfold(x8, x9);
    PopcountZero(x9);
    CountBitsNine(x);
  }

  lemma CountBitsNine(x: bv32)
    ensures CountBits(x, 9) == BitCount(x, 0) + BitCount(x, 1) + BitCount(x, 2) + BitCount(x, 3)
      + BitCount(x, 4) + BitCount(x, 5) + BitCount(x, 6) + BitCount(x, 7) + BitCount(x, 8)
  {
    assert CountBits(x, 1) == BitCount(x, 0);
    assert CountBits(x, 2) == CountBits(x, 1) + BitCount(x, 1);
    assert CountBits(x, 3) == CountBits(x, 2) + BitCount(x, 2);
    assert CountBits(x, 4) == CountBits(x, 3) + BitCount(x, 3);
    assert CountBits(x, 5) == CountBits(x, 4) + BitCount(x, 4);
    assert CountBits(x, 6) == CountBits(x, 5) + BitCount(x, 5);
    assert CountBits(x, 7) == CountBits(x, 6) + BitCount(x, 6);
    assert CountBits(x, 8) == CountBits(x, 7) + BitCount(x, 7);
  }

  // ----------------------------------------------------------- find first set

  /** find_first_set: 1 + the position of the lowest set bit, or 0 for the zero word. */
  function FindFirstSet(x: bv32): nat
    decreases x
  {
    if x == 0 then 0 else if x & 1 == 1 then 1 else 1 + FindFirstSet(x >> 1)
  }

  lemma BitShift(n: nat)
    requires 1 <= n < 9
    ensures Bit(n) != 0 && Bit(n) & 1 == 0 && Bit(n) >> 1 == Bit(n - 1)
  {
    if n == 1 {} else if n == 2 {} else if n == 3 {} else if n == 4 {}
    else if n == 5 {} else if n == 6 {} else if n == 7 {} else {}
  }

  lemma {:induction false} FindFirstSetBit(n: nat)
    requires n < 9
    ensures FindFirstSet(Bit(n)) == n + 1
    decreases n
  {
    if n > 0 {
      BitShift(n);
      FindFirstSetBit(n - 1);
    }
  }
}
