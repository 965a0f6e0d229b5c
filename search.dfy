// The two shapes of search the technique scanners share: "the first index
// whose probe succeeds" (every scanner returns on its first match, in a fixed
// order) and "the entries of a cell list that pass a test, in list order"
// (cells_with_cand and the other cell-list filters).

module Search {
  /** A scanner's result: no step found, or the step it fills in. */
  datatype Option<T> = None | Some(value: T)

  /** The first outcome among f(lo), ..., f(hi - 1) that is not None. */
  function FirstSome<T>(f: int -> Option<T>, lo: int, hi: int): Option<T>
    decreases hi - lo
  {
    if hi <= lo then None
    else if f(lo).Some? then f(lo)
    else FirstSome(f, lo + 1, hi)
  }

  /** The search finds nothing exactly when every probe fails. */
  lemma {:induction false} FirstSomeNone<T>(f: int -> Option<T>, lo: int, hi: int)
    ensures FirstSome(f, lo, hi).None? <==> forall k :: lo <= k < hi ==> f(k).None?
    decreases hi - lo
  {
    if lo < hi {
      FirstSomeNone(f, lo + 1, hi);
    }
  }

  /** A found outcome is the probe at some k, and every earlier probe failed. */
  lemma {:induction false} FirstSomeSome<T>(f: int -> Option<T>, lo: int, hi: int) returns (k: int)
    requires FirstSome(f, lo, hi).Some?
    ensures lo <= k < hi && f(k) == FirstSome(f, lo, hi)
    ensures forall m :: lo <= m < k ==> f(m).None?
    decreases hi - lo
  {
    if f(lo).Some? {
      k := lo;
    } else {
      k := FirstSomeSome(f, lo + 1, hi);
    }
  }

  /** A probe that succeeds at k, after failures at every earlier index, is the outcome. */
  lemma {:induction false} FirstSomeAt<T>(f: int -> Option<T>, lo: int, hi: int, k: int)
    requires lo <= k < hi && f(k).Some?
    requires forall m :: lo <= m < k ==> f(m).None?
    ensures FirstSome(f, lo, hi) == f(k)
    decreases hi - lo
  {
    if lo < k {
      FirstSomeAt(f, lo + 1, hi, k);
    }
  }

  /** The first of two searches tried in order (a scanner trying rows, then columns, ...). */
  function OrElse<T>(a: Option<T>, b: Option<T>): (r: Option<T>)
    ensures r.Some? <==> a.Some? || b.Some?
    ensures a.Some? ==> r == a
  {
    if a.Some? then a else b
  }

  // ------------------------------------------------------------- filters

  /** The entries of s passing p, in the order of s. */
  function Filter(s: seq<int>, p: int -> bool): (r: seq<int>)
    ensures |r| <= |s|
  {
    if s == [] then []
    else Filter(s[..|s| - 1], p) + (if p(s[|s| - 1]) then [s[|s| - 1]] else [])
  }

  /** Strictly increasing entries. */
  predicate Ascending(s: seq<int>)
  {
    forall i, j :: 0 <= i < j < |s| ==> s[i] < s[j]
  }

  /** An entry of the filter is an entry of s that passes p, and conversely. */
  lemma {:induction false} FilterMember(s: seq<int>, p: int -> bool)
    ensures forall x :: x in Filter(s, p) <==> x in s && p(x)
  {
    if s != [] {
      var init := s[..|s| - 1];
      FilterMember(init, p);
      assert s == init + [s[|s| - 1]];
    }
  }

  /** Every entry of the filter passes p and comes from s. */
  lemma FilterEntries(s: seq<int>, p: int -> bool)
    ensures forall k :: 0 <= k < |Filter(s, p)| ==> p(Filter(s, p)[k]) && Filter(s, p)[k] in s
  {
    FilterMember(s, p);
    forall k | 0 <= k < |Filter(s, p)|
      ensures p(Filter(s, p)[k]) && Filter(s, p)[k] in s
    {
      assert Filter(s, p)[k] in Filter(s, p);
    }
  }

  /** Filtering an ascending list keeps it ascending, so its entries stay distinct. */
  lemma {:induction false} FilterAscending(s: seq<int>, p: int -> bool)
    requires Ascending(s)
    ensures Ascending(Filter(s, p))
  {
    if s != [] {
      var init := s[..|s| - 1];
      var last := s[|s| - 1];
      FilterAscending(init, p);
      FilterMember(init, p);
      if p(last) {
        var F := Filter(init, p);
        forall i | 0 <= i < |F|
          ensures F[i] < last
        {
          assert F[i] in F;
        }
      }
    }
  }

  /** Filters that agree on every entry of s give the same list. */
  lemma {:induction false} FilterSame(s: seq<int>, p: int -> bool, q: int -> bool)
    requires forall k :: 0 <= k < |s| ==> (p(s[k]) <==> q(s[k]))
    ensures Filter(s, p) == Filter(s, q)
  {
    if s != [] {
      FilterSame(s[..|s| - 1], p, q);
    }
  }
}
