/** Strict weak orders, sortedness, rearrangements of a range and counting: the vocabulary in which
    the sorting routines of contrib/pdqsort/pdqsort.h are specified. */
module Order {

  /** `less` is transitive at x, y, z. Naming the instance keeps the quantifier below from firing on its own. */
  ghost predicate TransAt<T>(less: (T, T) -> bool, x: T, y: T, z: T) {
    less(x, y) && less(y, z) ==> less(x, z)
  }

  /** "Not less" is transitive at x, y, z. */
  ghost predicate NegTransAt<T>(less: (T, T) -> bool, x: T, y: T, z: T) {
    !less(x, y) && !less(y, z) ==> !less(x, z)
  }

  /** What the C++ standard demands of a comparison passed to a sort. */
  ghost predicate StrictWeakOrder<T(!new)>(less: (T, T) -> bool) {
    && (forall x :: !less(x, x))
    && (forall x, y, z :: TransAt(less, x, y, z))
    && (forall x, y, z :: NegTransAt(less, x, y, z))
  }

  /** x < y rules out y < x. */
  lemma Asymmetric<T(!new)>(less: (T, T) -> bool, x: T, y: T)
    requires StrictWeakOrder(less) && less(x, y)
    ensures !less(y, x)
  {
    assert TransAt(less, x, y, x);
  }

  /** No element of s[lo..hi] is less than an earlier one. */
  ghost predicate Sorted<T>(s: seq<T>, less: (T, T) -> bool, lo: int, hi: int)
    requires 0 <= lo <= hi <= |s|
  {
    forall i, j :: lo <= i < j < hi ==> !less(s[j], s[i])
  }

  /** s[lo..mid] is in its final place within s[lo..hi]: sorted, and not above anything to its right. */
  ghost predicate Settled<T>(s: seq<T>, less: (T, T) -> bool, lo: int, mid: int, hi: int)
    requires 0 <= lo <= mid <= hi <= |s|
  {
    forall i, j :: lo <= i < mid && i < j < hi ==> !less(s[j], s[i])
  }

  /** t is s with the elements of [lo, hi) rearranged and everything else untouched. */
  ghost predicate Rearranged<T>(s: seq<T>, t: seq<T>, lo: int, hi: int) {
    && 0 <= lo <= hi <= |s| == |t|
    && (forall k :: 0 <= k < lo || hi <= k < |s| ==> t[k] == s[k])
    && multiset(t[lo..hi]) == multiset(s[lo..hi])
  }

  lemma RearrangedRefl<T>(s: seq<T>, lo: int, hi: int)
    requires 0 <= lo <= hi <= |s|
    ensures Rearranged(s, s, lo, hi)
  {
  }

  lemma RearrangedOutside<T>(s: seq<T>, t: seq<T>, lo: int, hi: int, k: int)
    requires Rearranged(s, t, lo, hi)
    requires 0 <= k < lo || hi <= k < |s|
    ensures |t| == |s| && t[k] == s[k]
  {
  }

  lemma RearrangedTrans<T>(s: seq<T>, t: seq<T>, u: seq<T>, lo: int, hi: int)
    requires Rearranged(s, t, lo, hi) && Rearranged(t, u, lo, hi)
    ensures Rearranged(s, u, lo, hi)
  {
  }

  /** A rearrangement of a range is one of any wider range. */
  lemma RearrangedWiden<T>(s: seq<T>, t: seq<T>, lo: int, hi: int, lo': int, hi': int)
    requires Rearranged(s, t, lo, hi)
    requires 0 <= lo' <= lo <= hi <= hi' <= |s|
    ensures Rearranged(s, t, lo', hi')
  {
    assert s[lo'..hi'] == s[lo'..lo] + s[lo..hi] + s[hi..hi'];
    assert t[lo'..hi'] == t[lo'..lo] + t[lo..hi] + t[hi..hi'];
    assert s[lo'..lo] == t[lo'..lo];
    assert s[hi..hi'] == t[hi..hi'];
  }

  /** A rearrangement of part of the range after a rearrangement of the range. */
  lemma RearrangedThen<T>(s: seq<T>, t: seq<T>, u: seq<T>, lo: int, hi: int, lo': int, hi': int)
    requires Rearranged(s, t, lo', hi') && Rearranged(t, u, lo, hi)
    requires lo' <= lo <= hi <= hi'
    ensures Rearranged(s, u, lo', hi')
  {
    RearrangedWiden(t, u, lo, hi, lo', hi');
  }

  /** s with the elements at i and j exchanged. */
  function Swapped<T>(s: seq<T>, i: int, j: int): (t: seq<T>)
    requires 0 <= i < |s| && 0 <= j < |s|
    ensures |t| == |s|
  {
    s[i := s[j]][j := s[i]]
  }

  lemma SwapRearranges<T>(s: seq<T>, i: int, j: int, lo: int, hi: int)
    requires 0 <= lo <= hi <= |s|
    requires lo <= i < hi && lo <= j < hi
    ensures Rearranged(s, Swapped(s, i, j), lo, hi)
  {
    var t := Swapped(s, i, j);
    assert t[lo..hi] == s[lo..hi][i - lo := s[lo..hi][j - lo]][j - lo := s[lo..hi][i - lo]];
  }

  lemma SwapKeepsRearranged<T>(s: seq<T>, t: seq<T>, i: int, j: int, lo: int, hi: int)
    requires Rearranged(s, t, lo, hi)
    requires lo <= i < hi && lo <= j < hi
    ensures Rearranged(s, Swapped(t, i, j), lo, hi)
  {
    SwapRearranges(t, i, j, lo, hi);
    RearrangedTrans(s, t, Swapped(t, i, j), lo, hi);
  }

  /** Moving s[from] down to position p and the elements between up by one. */
  function Rotated<T>(s: seq<T>, p: int, from: int): (t: seq<T>)
    requires 0 <= p <= from < |s|
    ensures |t| == |s|
  {
    s[..p] + [s[from]] + s[p..from] + s[from + 1..]
  }

  lemma RotationRearranges<T>(s: seq<T>, p: int, from: int, lo: int)
    requires 0 <= lo <= p <= from < |s|
    ensures Rearranged(s, Rotated(s, p, from), lo, from + 1)
  {
    var t := Rotated(s, p, from);
    assert s[lo..from + 1] == s[lo..p] + s[p..from] + [s[from]];
    assert t[lo..from + 1] == s[lo..p] + [s[from]] + s[p..from];
  }

  /** Every element of a rearranged range was in the range before. */
  lemma RearrangedOrigin<T>(s: seq<T>, t: seq<T>, lo: int, hi: int, k: int) returns (j: int)
    requires Rearranged(s, t, lo, hi)
    requires lo <= k < hi
    ensures lo <= j < hi && t[k] == s[j]
  {
    assert t[k] == t[lo..hi][k - lo];
    assert t[k] in multiset(t[lo..hi]);
    assert t[k] in s[lo..hi];
    var m :| 0 <= m < |s[lo..hi]| && s[lo..hi][m] == t[k];
    j := lo + m;
  }

  /** Rearranging the part right of a settled prefix keeps the prefix settled. */
  lemma SettledKept<T>(s: seq<T>, t: seq<T>, less: (T, T) -> bool, lo: int, mid: int, hi: int)
    requires Rearranged(s, t, mid, hi)
    requires 0 <= lo <= mid && Settled(s, less, lo, mid, hi)
    ensures Settled(t, less, lo, mid, hi)
  {
    forall i, j | lo <= i < mid && i < j < hi ensures !less(t[j], t[i]) {
      if j >= mid {
        var k := RearrangedOrigin(s, t, mid, hi, j);
      }
    }
  }

  // ----- Counting elements on one side of a bound -----

  /** Is y above (or below) x? */
  predicate Beyond<T>(less: (T, T) -> bool, x: T, above: bool, y: T) {
    if above then less(x, y) else less(y, x)
  }

  /** How many elements of s lie above (or below) x. */
  function Count<T>(s: seq<T>, less: (T, T) -> bool, x: T, above: bool): nat {
    if s == [] then 0
    else Count(s[..|s| - 1], less, x, above) + (if Beyond(less, x, above, s[|s| - 1]) then 1 else 0)
  }

  lemma {:induction false} CountConcat<T>(s: seq<T>, t: seq<T>, less: (T, T) -> bool, x: T, above: bool)
    ensures Count(s + t, less, x, above) == Count(s, less, x, above) + Count(t, less, x, above)
  {
    if t == [] {
      assert s + t == s;
    } else {
      assert (s + t)[..|s + t| - 1] == s + t[..|t| - 1];
      CountConcat(s, t[..|t| - 1], less, x, above);
    }
  }

  lemma WithoutOne<T>(s: seq<T>, j: nat)
    requires j < |s|
    ensures multiset(s[..j] + s[j + 1..]) == multiset(s) - multiset{s[j]}
  {
    assert s == s[..j] + [s[j]] + s[j + 1..];
  }

  lemma CountWithoutOne<T>(s: seq<T>, j: nat, less: (T, T) -> bool, x: T, above: bool)
    requires j < |s|
    ensures Count(s, less, x, above)
         == Count(s[..j] + s[j + 1..], less, x, above) + if Beyond(less, x, above, s[j]) then 1 else 0
  {
    var one, front, back := [s[j]], s[..j], s[j + 1..];
    assert one[..0] == [];
    assert Count(one, less, x, above) == if Beyond(less, x, above, s[j]) then 1 else 0;
    hide Count, Beyond;
    assert s == front + (one + back);
    CountConcat(front, one + back, less, x, above);
    CountConcat(one, back, less, x, above);
    CountConcat(front, back, less, x, above);
  }

  /** The count depends only on the multiset of elements. */
  lemma {:induction false} CountPermuted<T>(s: seq<T>, t: seq<T>, less: (T, T) -> bool, x: T, above: bool)
    requires multiset(s) == multiset(t)
    ensures Count(s, less, x, above) == Count(t, less, x, above)
    decreases |s|
  {
    hide Count, Beyond;
    if s == [] {
      assert |multiset(t)| == 0;
    } else {
      assert s[0] in multiset(t);
      var j: nat :| j < |t| && t[j] == s[0];
      WithoutOne(s, 0);
      WithoutOne(t, j);
      CountPermuted(s[..0] + s[1..], t[..j] + t[j + 1..], less, x, above);
      CountWithoutOne(s, 0, less, x, above);
      CountWithoutOne(t, j, less, x, above);
    }
  }

  lemma CountRearranged<T>(s: seq<T>, t: seq<T>, lo: int, hi: int, less: (T, T) -> bool, x: T, above: bool)
    requires Rearranged(s, t, lo, hi)
    ensures |t| == |s| && Count(t[lo..hi], less, x, above) == Count(s[lo..hi], less, x, above)
  {
    CountPermuted(s[lo..hi], t[lo..hi], less, x, above);
  }

  /** When exactly the first m elements lie beyond x, the count is m. */
  lemma {:induction false} CountSplit<T>(s: seq<T>, m: nat, less: (T, T) -> bool, x: T, above: bool)
    requires m <= |s|
    requires forall k :: 0 <= k < m ==> Beyond(less, x, above, s[k])
    requires forall k :: m <= k < |s| ==> !Beyond(less, x, above, s[k])
    ensures Count(s, less, x, above) == m
    decreases |s|
  {
    if s != [] {
      CountSplit(s[..|s| - 1], if m == |s| then m - 1 else m, less, x, above);
    }
  }

  /** The mirror image: exactly the elements from m on lie beyond x. */
  lemma {:induction false} CountSplitRight<T>(s: seq<T>, m: nat, less: (T, T) -> bool, x: T, above: bool)
    requires m <= |s|
    requires forall k :: 0 <= k < m ==> !Beyond(less, x, above, s[k])
    requires forall k :: m <= k < |s| ==> Beyond(less, x, above, s[k])
    ensures Count(s, less, x, above) == |s| - m
    decreases |s|
  {
    if s != [] {
      CountSplitRight(s[..|s| - 1], if m == |s| then m - 1 else m, less, x, above);
    }
  }

  /** The number of pairs of s that are out of order. */
  function Inversions<T>(s: seq<T>, less: (T, T) -> bool): nat {
    if s == [] then 0
    else Inversions(s[..|s| - 1], less) + Count(s[..|s| - 1], less, s[|s| - 1], true)
  }

  /** A sorted sequence has no inversions. */
  lemma {:induction false} NoInversions<T>(s: seq<T>, less: (T, T) -> bool)
    requires forall i, j :: 0 <= i < j < |s| ==> !less(s[j], s[i])
    ensures Inversions(s, less) == 0
    decreases |s|
  {
    if s != [] {
      var n := |s| - 1;
      NoInversions(s[..n], less);
      CountSplit(s[..n], 0, less, s[n], true);
    }
  }

  lemma SortedNoInversions<T>(s: seq<T>, less: (T, T) -> bool, lo: int, hi: int)
    requires 0 <= lo <= hi <= |s| && Sorted(s, less, lo, hi)
    ensures Inversions(s[lo..hi], less) == 0
  {
    NoInversions(s[lo..hi], less);
  }

  lemma RearrangedEmpty<T>(s: seq<T>, t: seq<T>, k: int)
    requires Rearranged(s, t, k, k)
    ensures s == t
  {
  }

  lemma {:induction false} InversionsMonotone<T>(s: seq<T>, m: nat, less: (T, T) -> bool)
    requires m <= |s|
    ensures Inversions(s[..m], less) <= Inversions(s, less)
    decreases |s|
  {
    if m < |s| {
      InversionsMonotone(s[..|s| - 1], m, less);
      assert s[..|s| - 1][..m] == s[..m];
    } else {
      assert s[..m] == s;
    }
  }
}
