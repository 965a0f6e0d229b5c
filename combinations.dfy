// The combination generator of holmes (src/techniques/combinations.c): the
// k-element index tuples over 0..n-1 in lexicographic order, advanced in
// place in an index array, and the binomial coefficient ncr that sizes the
// output.  The output buffer of the source is one block of copies of the
// chosen elements; here it is a sequence of sequences.

module Combinations {

  // ------------------------------------------------------------ binomials

  /** The binomial coefficient C(n, k), by Pascal's rule; 0 outside 0..n. */
  function Binom(n: int, k: int): nat
    decreases n
  {
    if k < 0 || n < k then 0
    else if k == 0 then 1
    else Binom(n - 1, k - 1) + Binom(n - 1, k)
  }

  /** C(n, n) = 1 */
  lemma {:induction false} BinomAll(n: int)
    requires 0 <= n
    ensures Binom(n, n) == 1
    decreases n
  {
    if n > 0 {
      BinomAll(n - 1);
    }
  }

  /** Absorption: k * C(n, k) = n * C(n - 1, k - 1). */
  lemma {:induction false} Absorb(n: int, k: int)
    requires 1 <= k <= n
    ensures k * Binom(n, k) == n * Binom(n - 1, k - 1)
    decreases n
  {
    if k == n {
      BinomAll(n);
      BinomAll(n - 1);
    } else if k == 1 {
      AbsorbOne(n);
    } else {
      Absorb(n - 1, k - 1);
      Absorb(n - 1, k);
      AbsorbAlgebra(n, k, Binom(n - 1, k - 1), Binom(n - 1, k), Binom(n - 2, k - 2), Binom(n - 2, k - 1));
    }
  }

  /** The arithmetic of the absorption step. */
  lemma AbsorbAlgebra(n: int, k: int, a: int, b: int, c: int, d: int)
    requires a == c + d && (k - 1) * a == (n - 1) * c && k * b == (n - 1) * d
    ensures k * (a + b) == n * a
  {
    calc {
      k * (a + b);
      k * a + k * b;
      a + (k - 1) * a + k * b;
      a + (n - 1) * c + (n - 1) * d;
      a + (n - 1) * (c + d);
      n * a;
    }
  }

  /** C(n, 1) = n */
  lemma {:induction false} AbsorbOne(n: int)
    requires 1 <= n
    ensures Binom(n, 1) == n
    decreases n
  {
    if n > 1 {
      AbsorbOne(n - 1);
    }
  }

  /** Symmetry: C(n, k) = C(n, n - k). */
  lemma {:induction false} Symmetry(n: int, k: int)
    requires 0 <= k <= n
    ensures Binom(n, k) == Binom(n, n - k)
    decreases n
  {
    if k == 0 {
      BinomAll(n);
    } else if k == n {
      BinomAll(n);
    } else {
      Symmetry(n - 1, k - 1);
      Symmetry(n - 1, k);
    }
  }

  /**
   * The step of ncr: C(n, i) = C(n, i - 1) * (n - i + 1) / i, the division
   * being exact.
   */
  lemma RatioStep(n: int, i: int)
    requires 1 <= i <= n
    ensures i * Binom(n, i) == (n - i + 1) * Binom(n, i - 1)
  {
    Absorb(n, i);
    // (n - (i - 1)) * C(n, i - 1) = n * C(n - 1, i - 1), by symmetry and absorption
    Symmetry(n, i - 1);
    Absorb(n, n - i + 1);
    Symmetry(n - 1, i - 1);
  }

  /** (i * x) / i == x for positive i. */
  lemma ExactDivision(x: int, i: int)
    requires 0 < i
    ensures (i * x) / i == x
  {
    var q, r := (i * x) / i, (i * x) % i;
    assert i * x == i * q + r && 0 <= r < i;
    assert i * (x - q) == r;
    if x - q >= 1 {
      MulAtLeast(i, x - q);
    } else if x - q <= -1 {
      MulAtLeast(i, q - x);
    }
  }

  /** i * d >= i for positive i and d. */
  lemma {:induction false} MulAtLeast(i: int, d: int)
    requires 0 < i && 1 <= d
    ensures i * d >= i
    decreases d
  {
    if d > 1 {
      MulAtLeast(i, d - 1);
      assert i * d == i * (d - 1) + i;
    }
  }

  /**
   * ncr(n, r): C(n, r) for 0 <= r <= n, computed from the smaller of r and
   * n - r with one multiplication and one exact division per step.  Outside
   * 0..n the loop does not run and the result is 1.
   */
  method Ncr(n: int, r0: int) returns (result: int)
    requires 0 <= n
    ensures 0 <= r0 <= n ==> result == Binom(n, r0)
    ensures (r0 < 0 || n < r0) ==> result == 1
  {
    var r := r0;
    if n - r < r {
      r := n - r;
    }
    if 0 <= r0 <= n {
      Symmetry(n, r0);
    }
    result := 1;
    var i := 1;
    while i <= r
      invariant 1 <= i && (i <= r + 1 || i == 1)
      invariant result == Binom(n, i - 1)
    {
      RatioStep(n, i);
      result := result * (n - i + 1);
      ExactDivision(Binom(n, i), i);
      result := result / i;
      i := i + 1;
    }
  }

  // ------------------------------------------------------- index tuples

  /** [a, a + 1, ..., a + m - 1] */
  function Run(a: int, m: nat): (t: seq<int>)
    ensures |t| == m
  {
    seq(m, x => a + x)
  }

  /** The largest tuple of length k over 0..n-1: [n - k, ..., n - 1]. */
  function Max(n: int, k: nat): (t: seq<int>)
    ensures |t| == k
  {
    Run(n - k, k)
  }

  /**
   * A k-subset of lo..n-1 written as a tuple: k entries, all in lo..n-1,
   * strictly increasing.
   */
  predicate IsComb(t: seq<int>, n: int, k: int, lo: int)
  {
    |t| == k &&
    (forall j :: 0 <= j < |t| ==> lo <= t[j] < n) &&
    (forall j, l :: 0 <= j < l < |t| ==> t[j] < t[l])
  }

  /** Strict lexicographic order on tuples of equal length. */
  predicate LexLess(u: seq<int>, v: seq<int>)
    decreases |u|
  {
    |u| == |v| && |u| > 0 &&
    (u[0] < v[0] || (u[0] == v[0] && LexLess(u[1..], v[1..])))
  }

  lemma {:induction false} LexLessIrreflexive(u: seq<int>)
    ensures !LexLess(u, u)
    decreases |u|
  {
    if |u| > 0 {
      LexLessIrreflexive(u[1..]);
    }
  }

  /**
   * The pivot of the successor step: from position j down, the first
   * position that has not reached its maximum n - k + j, stopping at 0.
   */
  function Pivot(t: seq<int>, n: int, j: int): (p: int)
    requires 0 <= j < |t|
    ensures 0 <= p <= j
    decreases j
  {
    if j > 0 && t[j] == n - |t| + j then Pivot(t, n, j - 1) else j
  }

  /**
   * One successor step of the generator: the pivot entry goes up by one and
   * every entry after it is one more than the entry before it.
   */
  function Next(t: seq<int>, n: int): (r: seq<int>)
    requires |t| >= 1
    ensures |r| == |t|
  {
    var p := Pivot(t, n, |t| - 1);
    t[..p] + Run(t[p] + 1, |t| - p)
  }

  /** The tuple held by the index array after i successor steps. */
  function Iter(n: int, k: int, i: nat): (t: seq<int>)
    requires 1 <= k
    ensures |t| == k
  {
    if i == 0 then Run(0, k) else Next(Iter(n, k, i - 1), n)
  }

  /** The tuples [a] + s for s in L. */
  function Prefix(a: int, L: seq<seq<int>>): (r: seq<seq<int>>)
    ensures |r| == |L|
    ensures forall m :: 0 <= m < |L| ==> r[m] == [a] + L[m]
  {
    seq(|L|, m requires 0 <= m < |L| => [a] + L[m])
  }

  /**
   * Every k-subset of a..n-1 as a tuple, in lexicographic order: the tuples
   * starting with a, then those whose entries are all at least a + 1.
   */
  function Combs(n: int, k: nat, a: int): (r: seq<seq<int>>)
    ensures forall m :: 0 <= m < |r| ==> |r[m]| == k
    decreases k, n - a
  {
    if k == 0 then [[]]
    else if a > n - k then []
    else Prefix(a, Combs(n, k - 1, a + 1)) + Combs(n, k, a + 1)
  }

  /** There are C(n - a, k) of them. */
  lemma {:induction false} CombsLength(n: int, k: nat, a: int)
    requires a <= n
    ensures |Combs(n, k, a)| == Binom(n - a, k)
    decreases k, n - a
  {
    if k > 0 && a <= n - k {
      CombsLength(n, k - 1, a + 1);
      CombsLength(n, k, a + 1);
    }
  }

  /** The list is empty exactly when there is no room for k entries. */
  lemma {:induction false} CombsNonEmpty(n: int, k: nat, a: int)
    ensures |Combs(n, k, a)| > 0 <==> k == 0 || a <= n - k
    decreases k, n - a
  {
    if k > 0 && a <= n - k {
      CombsNonEmpty(n, k - 1, a + 1);
    }
  }

  /** The first tuple is [a, ..., a + k - 1]. */
  lemma {:induction false} CombsFirst(n: int, k: nat, a: int)
    requires a <= n - k
    ensures |Combs(n, k, a)| > 0 && Combs(n, k, a)[0] == Run(a, k)
    decreases k
  {
    if k > 0 {
      CombsFirst(n, k - 1, a + 1);
      assert [a] + Run(a + 1, k - 1) == Run(a, k);
    }
  }

  /** The last tuple is the largest one, [n - k, ..., n - 1]. */
  lemma {:induction false} CombsLast(n: int, k: nat, a: int)
    requires a <= n - k
    ensures |Combs(n, k, a)| > 0
    ensures Combs(n, k, a)[|Combs(n, k, a)| - 1] == Max(n, k)
    decreases k, n - a
  {
    if k > 0 {
      var L, B := Combs(n, k - 1, a + 1), Combs(n, k, a + 1);
      assert Combs(n, k, a) == Prefix(a, L) + B;
      if a == n - k {
        CombsLast(n, k - 1, a + 1);
        assert B == [];
        assert Prefix(a, L)[|L| - 1] == [a] + Max(n, k - 1);
        assert [a] + Max(n, k - 1) == Max(n, k);
      } else {
        CombsLast(n, k, a + 1);
        assert (Prefix(a, L) + B)[|Prefix(a, L) + B| - 1] == B[|B| - 1];
      }
    }
  }

  /** Membership in Prefix(a, L). */
  lemma PrefixMember(a: int, L: seq<seq<int>>, t: seq<int>)
    ensures t in Prefix(a, L) <==> |t| > 0 && t[0] == a && t[1..] in L
  {
    if t in Prefix(a, L) {
      var m :| 0 <= m < |L| && Prefix(a, L)[m] == t;
      assert t[1..] == L[m];
    }
    if |t| > 0 && t[0] == a && t[1..] in L {
      var m :| 0 <= m < |L| && L[m] == t[1..];
      assert Prefix(a, L)[m] == t;
    }
  }

  /** [a] + s is a subset of a..n-1 when s is a subset of a+1..n-1. */
  lemma ConsComb(a: int, s: seq<int>, n: int, k: int)
    requires 1 <= k && a < n
    ensures IsComb([a] + s, n, k, a) <==> IsComb(s, n, k - 1, a + 1)
  {
    var t := [a] + s;
    if IsComb(s, n, k - 1, a + 1) {
      forall j, l | 0 <= j < l < |t|
        ensures t[j] < t[l]
      {
        if j > 0 {
          assert t[j] == s[j - 1] && t[l] == s[l - 1];
        } else {
          assert t[l] == s[l - 1];
        }
      }
    }
    if IsComb(t, n, k, a) {
      forall j | 0 <= j < |s|
        ensures a + 1 <= s[j] < n
      {
        assert s[j] == t[j + 1];
        assert t[0] < t[j + 1];
      }
      forall j, l | 0 <= j < l < |s|
        ensures s[j] < s[l]
      {
        assert s[j] == t[j + 1] && s[l] == t[l + 1];
      }
    }
  }

  /**
   * Completeness and soundness: the tuples listed are exactly the k-subsets
   * of a..n-1.
   */
  lemma {:induction false} CombsMember(n: int, k: nat, a: int, t: seq<int>)
    ensures t in Combs(n, k, a) <==> IsComb(t, n, k, a)
    decreases k, n - a
  {
    if k == 0 {
      assert IsComb(t, n, k, a) <==> t == [];
    } else if a > n - k {
      if IsComb(t, n, k, a) {
        // the k entries would rise from t[0] >= a to below n
        HeadBound(t, n, k, a);
      }
    } else {
      CombsMember(n, k, a + 1, t);
      if |t| > 0 {
        CombsMember(n, k - 1, a + 1, t[1..]);
      }
      CombsMemberStep(n, k, a, t);
    }
  }

  /** The tail of a k-subset of a..n-1, k >= 1, is a (k-1)-subset above its head. */
  lemma TailComb(t: seq<int>, n: int, k: int, a: int)
    requires 1 <= k && IsComb(t, n, k, a)
    ensures a <= t[0] < n && IsComb(t[1..], n, k - 1, t[0] + 1)
  {
    forall j | 0 <= j < |t| - 1
      ensures t[0] + 1 <= t[1..][j]
    {
      assert t[0] < t[j + 1];
    }
  }

  /** The head of a k-subset of a..n-1 leaves room for the k - 1 larger entries. */
  lemma {:induction false} HeadBound(t: seq<int>, n: int, k: nat, a: int)
    requires 1 <= k && IsComb(t, n, k, a)
    ensures a <= t[0] <= n - k
    decreases k
  {
    TailComb(t, n, k, a);
    if k > 1 {
      HeadBound(t[1..], n, k - 1, t[0] + 1);
      assert t[0] < t[1];
    }
  }

  /** One level of the listing: membership follows from membership in the two sublists. */
  lemma CombsMemberStep(n: int, k: nat, a: int, t: seq<int>)
    requires 1 <= k && a <= n - k
    requires t in Combs(n, k, a + 1) <==> IsComb(t, n, k, a + 1)
    requires |t| > 0 ==> (t[1..] in Combs(n, k - 1, a + 1) <==> IsComb(t[1..], n, k - 1, a + 1))
    ensures t in Combs(n, k, a) <==> IsComb(t, n, k, a)
  {
    var L := Combs(n, k - 1, a + 1);
    var B := Combs(n, k, a + 1);
    assert Combs(n, k, a) == Prefix(a, L) + B;
    PrefixMember(a, L, t);
    if |t| > 0 {
      assert t == [t[0]] + t[1..];
      ConsComb(a, t[1..], n, k);
    }
    if IsComb(t, n, k, a) && t[0] != a {
      assert IsComb(t, n, k, a + 1);
    }
  }

  /** The tuples are listed in strictly increasing lexicographic order. */
  predicate Sorted(L: seq<seq<int>>)
  {
    forall i, j :: 0 <= i < j < |L| ==> LexLess(L[i], L[j])
  }

  lemma {:induction false} CombsSorted(n: int, k: nat, a: int)
    ensures Sorted(Combs(n, k, a))
    decreases k, n - a
  {
    if k > 0 && a <= n - k {
      var L := Combs(n, k - 1, a + 1);
      var B := Combs(n, k, a + 1);
      var A := Prefix(a, L);
      var C := A + B;
      CombsSorted(n, k - 1, a + 1);
      CombsSorted(n, k, a + 1);
      forall i, j | 0 <= i < j < |C|
        ensures LexLess(C[i], C[j])
      {
        if j < |A| {
          assert C[i][1..] == L[i] && C[j][1..] == L[j];
        } else if i < |A| {
          CombsMember(n, k, a + 1, B[j - |A|]);
          assert C[i] == [a] + L[i] && C[j] == B[j - |A|];
        } else {
          assert C[i] == B[i - |A|] && C[j] == B[j - |A|];
        }
      }
    }
  }

  /** Sorted lists have no duplicates: every k-subset appears exactly once. */
  lemma SortedDistinct(L: seq<seq<int>>, i: int, j: int)
    requires Sorted(L) && 0 <= i < j < |L|
    ensures L[i] != L[j]
  {
    LexLessIrreflexive(L[i]);
  }

  // ------------------------------------------------ the successor step

  /** Pivot below position j equal to 0 means every entry 1..j is maximal. */
  lemma {:induction false} PivotZero(t: seq<int>, n: int, j: int)
    requires 0 <= j < |t| && Pivot(t, n, j) == 0
    ensures forall m :: 1 <= m <= j ==> t[m] == n - |t| + m
    decreases j
  {
    if j > 0 {
      PivotZero(t, n, j - 1);
    }
  }

  /** On the largest tuple the pivot is 0. */
  lemma {:induction false} PivotOfMax(n: int, k: nat, j: int)
    requires 0 <= j < k
    ensures Pivot(Max(n, k), n, j) == 0
    decreases j
  {
    if j > 0 {
      PivotOfMax(n, k, j - 1);
    }
  }

  /** The pivot of [a] + s is one past the pivot of s, unless s is maximal. */
  lemma {:induction false} PivotCons(a: int, s: seq<int>, n: int, j: int)
    requires 1 <= j <= |s|
    ensures Pivot([a] + s, n, j) ==
      if Pivot(s, n, j - 1) == 0 && s[0] == n - |s| then 0 else Pivot(s, n, j - 1) + 1
    decreases j
  {
    var t := [a] + s;
    assert t[j] == s[j - 1];
    if j > 1 {
      PivotCons(a, s, n, j - 1);
    }
  }

  /** Below a non-maximal suffix, the successor leaves the head alone. */
  lemma NextCons(a: int, s: seq<int>, n: int)
    requires |s| >= 1 && s != Max(n, |s|)
    ensures Next([a] + s, n) == [a] + Next(s, n)
  {
    var t := [a] + s;
    var ps := Pivot(s, n, |s| - 1);
    PivotCons(a, s, n, |s|);
    if ps == 0 && s[0] == n - |s| {
      PivotZero(s, n, |s| - 1);
      assert false;
    }
    assert Pivot(t, n, |t| - 1) == ps + 1;
    assert t[..ps + 1] == [a] + s[..ps];
    assert t[ps + 1] == s[ps];
  }

  /** Above a maximal suffix, the successor moves the head up by one. */
  lemma NextConsMax(a: int, n: int, k: nat)
    requires 1 <= k
    ensures Next([a] + Max(n, k - 1), n) == Run(a + 1, k)
  {
    var m := k - 1;
    var s := Max(n, m);
    if m > 0 {
      PivotCons(a, s, n, m);
      PivotOfMax(n, m, m - 1);
    }
  }

  /** A non-empty list of k-subsets, k >= 1, is as long as the block starting with a and the rest together. */
  lemma CombsSizes(n: int, k: nat, a: int)
    requires 1 <= k && |Combs(n, k, a)| > 0
    ensures a <= n - k
    ensures |Combs(n, k, a)| == |Combs(n, k - 1, a + 1)| + |Combs(n, k, a + 1)|
    ensures k == 1 ==> |Combs(n, k - 1, a + 1)| == 1
  {
  }

  /** Entry i of a list of k-subsets, k >= 1: from the block starting with a, or from the rest. */
  lemma CombsAt(n: int, k: nat, a: int, i: int)
    requires 1 <= k && a <= n - k && 0 <= i < |Combs(n, k, a)|
    ensures i < |Combs(n, k - 1, a + 1)| ==> Combs(n, k, a)[i] == [a] + Combs(n, k - 1, a + 1)[i]
    ensures i >= |Combs(n, k - 1, a + 1)| ==>
      Combs(n, k, a)[i] == Combs(n, k, a + 1)[i - |Combs(n, k - 1, a + 1)|]
  {
    var A, B := Prefix(a, Combs(n, k - 1, a + 1)), Combs(n, k, a + 1);
    assert Combs(n, k, a) == A + B;
  }

  /** Each successor step moves to the next tuple of the list. */
  lemma {:induction false} CombsNext(n: int, k: nat, a: int, i: int)
    requires 1 <= k && 0 <= i < |Combs(n, k, a)| - 1
    ensures Next(Combs(n, k, a)[i], n) == Combs(n, k, a)[i + 1]
    decreases k, n - a
  {
    var nl := |Combs(n, k - 1, a + 1)|;
    CombsSizes(n, k, a);
    if i + 1 < nl {
      CombsNext(n, k - 1, a + 1, i);
      NextInBlock(n, k, a, i);
    } else if i + 1 == nl {
      NextAcrossBlocks(n, k, a);
    } else {
      CombsNext(n, k, a + 1, i - nl);
      NextInRest(n, k, a, i);
    }
  }

  /** Past the block starting with a, the list continues with the k-subsets of a+1..n-1. */
  lemma NextInRest(n: int, k: nat, a: int, i: int)
    requires 1 <= k && a <= n - k
    requires |Combs(n, k - 1, a + 1)| <= i && i + 1 - |Combs(n, k - 1, a + 1)| < |Combs(n, k, a + 1)|
    requires var j := i - |Combs(n, k - 1, a + 1)|;
      Next(Combs(n, k, a + 1)[j], n) == Combs(n, k, a + 1)[j + 1]
    ensures i + 1 < |Combs(n, k, a)| && Next(Combs(n, k, a)[i], n) == Combs(n, k, a)[i + 1]
  {
    CombsSizes(n, k, a);
    CombsAt(n, k, a, i);
    CombsAt(n, k, a, i + 1);
  }

  /** Inside the block of tuples starting with a, the head stays. */
  lemma NextInBlock(n: int, k: nat, a: int, i: int)
    requires 2 <= k && a <= n - k
    requires 0 <= i < |Combs(n, k - 1, a + 1)| - 1
    requires Next(Combs(n, k - 1, a + 1)[i], n) == Combs(n, k - 1, a + 1)[i + 1]
    ensures i + 1 < |Combs(n, k, a)| && Next(Combs(n, k, a)[i], n) == Combs(n, k, a)[i + 1]
  {
    var L := Combs(n, k - 1, a + 1);
    BeforeLast(n, k - 1, a + 1, i);
    NextCons(a, L[i], n);
    CombsSizes(n, k, a);
    CombsAt(n, k, a, i);
    CombsAt(n, k, a, i + 1);
  }

  /** A tuple before the last one of the list is not the largest tuple. */
  lemma BeforeLast(n: int, k: nat, a: int, i: int)
    requires 1 <= k && a <= n - k && 0 <= i < |Combs(n, k, a)| - 1
    ensures |Combs(n, k, a)[i]| == k && Combs(n, k, a)[i] != Max(n, k)
  {
    var L := Combs(n, k, a);
    CombsSorted(n, k, a);
    CombsLast(n, k, a);
    SortedDistinct(L, i, |L| - 1);
  }

  /** The last tuple starting with a and the first one after it. */
  lemma CombsAcross(n: int, k: nat, a: int)
    requires 1 <= k && a <= n - k && |Combs(n, k, a + 1)| > 0
    ensures var i := |Combs(n, k - 1, a + 1)| - 1;
      0 <= i && i + 1 < |Combs(n, k, a)| &&
      Combs(n, k, a)[i] == [a] + Max(n, k - 1) && Combs(n, k, a)[i + 1] == Run(a + 1, k)
  {
    var nl := |Combs(n, k - 1, a + 1)|;
    CombsLast(n, k - 1, a + 1);
    CombsSizes(n, k, a);
    CombsAt(n, k, a, nl - 1);
    CombsAt(n, k, a, nl);
    CombsFirst(n, k, a + 1);
  }

  /** From the last tuple starting with a to the first starting with a + 1. */
  lemma NextAcrossBlocks(n: int, k: nat, a: int)
    requires 1 <= k && a <= n - k && |Combs(n, k, a + 1)| > 0
    ensures var i := |Combs(n, k - 1, a + 1)| - 1;
      0 <= i && i + 1 < |Combs(n, k, a)| && Next(Combs(n, k, a)[i], n) == Combs(n, k, a)[i + 1]
  {
    CombsAcross(n, k, a);
    NextConsMax(a, n, k);
  }

  /**
   * The generator's index array walks the sorted list of k-subsets: after i
   * steps it holds the i-th of them, for every i below C(n, k).
   */
  lemma {:induction false} IterCombs(n: int, k: int, i: nat)
    requires 1 <= k && i < |Combs(n, k, 0)|
    ensures Iter(n, k, i) == Combs(n, k, 0)[i]
  {
    if i == 0 {
      CombsNonEmpty(n, k, 0);
      CombsFirst(n, k, 0);
    } else {
      IterCombs(n, k, i - 1);
      CombsNext(n, k, 0, i - 1);
      NextOfEqual(Iter(n, k, i - 1), Combs(n, k, 0)[i - 1], Combs(n, k, 0)[i], n);
    }
  }

  /** Equal tuples have equal successors. */
  lemma NextOfEqual(s: seq<int>, t: seq<int>, u: seq<int>, n: int)
    requires |s| >= 1 && s == t && Next(t, n) == u
    ensures Next(s, n) == u
  {
  }

  /** Every entry of t is an index below n. */
  predicate Bounded(t: seq<int>, n: int)
  {
    forall j :: 0 <= j < |t| ==> 0 <= t[j] < n
  }

  lemma IterTuples(n: int, k: int, i: nat)
    requires 1 <= k <= n && i < Binom(n, k)
    ensures Iter(n, k, i) == Tuples(n, k)[i]
  {
    CombsLength(n, k, 0);
    IterCombs(n, k, i);
  }

  /** The elements of arr at the positions of t. */
  function Pick<T>(arr: seq<T>, t: seq<int>): (r: seq<T>)
    requires Bounded(t, |arr|)
    ensures |r| == |t|
  {
    seq(|t|, j requires 0 <= j < |t| => arr[t[j]])
  }

  /** The k-subsets of 0..n-1 in the order the generator emits them. */
  function Tuples(n: int, k: int): (L: seq<seq<int>>)
    requires 1 <= k <= n
    ensures |L| == Binom(n, k)
    ensures forall m :: 0 <= m < |L| ==> Bounded(L[m], n)
  {
    CombsLength(n, k, 0);
    assert forall m :: 0 <= m < |Combs(n, k, 0)| ==> Bounded(Combs(n, k, 0)[m], n) by {
      forall m | 0 <= m < |Combs(n, k, 0)| {
        CombsMember(n, k, 0, Combs(n, k, 0)[m]);
      }
    }
    Combs(n, k, 0)
  }

  /** Every k-subset of 0..n-1 is among the tuples. */
  lemma TuplesComplete(n: int, k: int, t: seq<int>)
    requires 1 <= k <= n
    ensures t in Tuples(n, k) <==> IsComb(t, n, k, 0)
  {
    CombsMember(n, k, 0, t);
  }

  /**
   * The tuples are in strictly increasing lexicographic order, so no two are
   * equal and every k-subset appears exactly once.
   */
  lemma TuplesSorted(n: int, k: int, i: int, j: int)
    requires 1 <= k <= n && 0 <= i < j < Binom(n, k)
    ensures LexLess(Tuples(n, k)[i], Tuples(n, k)[j])
    ensures Tuples(n, k)[i] != Tuples(n, k)[j]
  {
    CombsSorted(n, k, 0);
    SortedDistinct(Tuples(n, k), i, j);
  }

  /**
   * The successor step on the index array: the pivot search from the right,
   * the increment and the refill.
   */
  method Advance(idxs: array<int>, n: int)
    requires idxs.Length >= 1
    modifies idxs
    ensures idxs[..] == Next(old(idxs[..]), n)
  {
    ghost var t := idxs[..];
    var k := idxs.Length;
    var j := k - 1;
    while j > 0 && idxs[j] == n - k + j
      invariant 0 <= j < k
      invariant Pivot(t, n, k - 1) == Pivot(t, n, j)
    {
      j := j - 1;
    }
    ghost var p := j;
    idxs[j] := idxs[j] + 1;
    j := j + 1;
    while j < k
      invariant p < j <= k
      invariant idxs[..p] == t[..p]
      invariant forall m :: p <= m < j ==> idxs[m] == t[p] + 1 + (m - p)
    {
      idxs[j] := idxs[j - 1] + 1;
      j := j + 1;
    }
    assert idxs[..] == t[..p] + Run(t[p] + 1, k - p);
  }

  /** The first i output combinations, for the tuples of L. */
  function Picks<T>(arr: seq<T>, L: seq<seq<int>>, i: nat): (r: seq<seq<T>>)
    requires i <= |L| && forall m :: 0 <= m < |L| ==> Bounded(L[m], |arr|)
    ensures |r| == i
  {
    if i == 0 then [] else Picks(arr, L, i - 1) + [Pick(arr, L[i - 1])]
  }

  lemma {:induction false} PicksAt<T>(arr: seq<T>, L: seq<seq<int>>, i: nat, m: int)
    requires i <= |L| && forall m :: 0 <= m < |L| ==> Bounded(L[m], |arr|)
    requires 0 <= m < i
    ensures Picks(arr, L, i)[m] == Pick(arr, L[m])
  {
    if m < i - 1 {
      PicksAt(arr, L, i - 1, m);
    }
  }

  /** One output combination: the elements of arr at the current indices. */
  method CopyCombination<T>(arr: seq<T>, idxs: array<int>) returns (comb: seq<T>)
    requires Bounded(idxs[..], |arr|)
    ensures comb == Pick(arr, idxs[..])
  {
    comb := [];
    var j := 0;
    while j < idxs.Length
      invariant 0 <= j <= idxs.Length
      invariant comb == Pick(arr, idxs[..j])
    {
      assert idxs[..j + 1] == idxs[..j] + [idxs[j]];
      comb := comb + [arr[idxs[j]]];
      j := j + 1;
    }
    assert idxs[..j] == idxs[..];
  }

  /** The index array starts at the first tuple [0, ..., k - 1]. */
  method FirstIndices(n: int, k: int) returns (idxs: array<int>)
    requires 1 <= k
    ensures fresh(idxs) && idxs[..] == Iter(n, k, 0)
  {
    idxs := new int[k];
    var i := 0;
    while i < k
      invariant 0 <= i <= k
      invariant forall j :: 0 <= j < i ==> idxs[j] == j
    {
      idxs[i] := i;
      i := i + 1;
    }
  }

  /** The i-th position tuple produced is in range, and picking it extends the list of picks by one. */
  lemma PicksNext<T>(arr: seq<T>, k: int, i: nat, t: seq<int>)
    requires 1 <= k <= |arr| && i < Binom(|arr|, k) && t == Iter(|arr|, k, i)
    ensures Bounded(t, |arr|)
    ensures Picks(arr, Tuples(|arr|, k), i) + [Pick(arr, t)] == Picks(arr, Tuples(|arr|, k), i + 1)
  {
    IterTuples(|arr|, k, i);
  }

  /**
   * generate_combinations(arr, n, k) over the n elements of arr: C(n, k)
   * combinations, combination i being the elements of arr at the i-th
   * k-subset of 0..n-1 in lexicographic order.
   */
  method GenerateCombinations<T>(arr: seq<T>, k: int) returns (combs: seq<seq<T>>)
    requires 1 <= k <= |arr|
    ensures |combs| == Binom(|arr|, k)
    ensures forall i :: 0 <= i < |combs| ==> combs[i] == Pick(arr, Tuples(|arr|, k)[i])
  {
    var n := |arr|;
    ghost var L := Tuples(n, k);
    var numCombs := Ncr(n, k);
    var idxs := FirstIndices(n, k);
    combs := [];
    var i := 0;
    while i < numCombs
      invariant 0 <= i <= numCombs == |L|
      invariant idxs.Length == k
      invariant idxs[..] == Iter(n, k, i)
      invariant |combs| == i
      invariant combs == Picks(arr, L, i)
    {
      PicksNext(arr, k, i, idxs[..]);
      var comb := CopyCombination(arr, idxs);
      combs := combs + [comb];
      Advance(idxs, n);
      i := i + 1;
    }
    forall m | 0 <= m < |combs|
      ensures combs[m] == Pick(arr, L[m])
    {
      PicksAt(arr, L, i, m);
    }
  }
}
