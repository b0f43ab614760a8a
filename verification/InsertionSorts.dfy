/** The three insertion sorts of contrib/pdqsort/pdqsort.h: guarded, unguarded and partial. */
module InsertionSorts {
  import opened Modular
  import opened Order

  const PARTIAL_INSERTION_SORT_LIMIT := 8

  /** s[begin - 1] exists and is not above any element of s[begin..end]: the sentinel of the unguarded sort. */
  ghost predicate Floored<T>(s: seq<T>, less: (T, T) -> bool, begin: int, end: int) {
    && 0 < begin <= end <= |s|
    && forall k :: begin <= k < end ==> !less(s[k], s[begin - 1])
  }

  /** Where sifting s[cur] down the sorted run s[begin..cur] must stop. */
  ghost predicate SiftStop<T>(s: seq<T>, less: (T, T) -> bool, begin: int, cur: int, p: int) {
    && 0 <= begin <= p <= cur < |s|
    && (forall k :: p <= k < cur ==> less(s[cur], s[k]))
    && (p > begin ==> !less(s[cur], s[p - 1]))
  }

  /** Stopping there extends the sorted run by one element. */
  lemma SiftSorts<T(!new)>(s: seq<T>, less: (T, T) -> bool, begin: int, cur: int, p: int)
    requires StrictWeakOrder(less)
    requires SiftStop(s, less, begin, cur, p) && Sorted(s, less, begin, cur)
    ensures Sorted(Rotated(s, p, cur), less, begin, cur + 1)
    ensures Rearranged(s, Rotated(s, p, cur), begin, cur + 1)
  {
    hide Rearranged;
    RotationRearranges(s, p, cur, begin);
    var t := Rotated(s, p, cur);
    forall i, j | begin <= i < j < cur + 1 ensures !less(t[j], t[i]) {
      if i == p {
        Asymmetric(less, s[cur], s[j - 1]);
      } else if j == p {
        assert NegTransAt(less, s[cur], s[p - 1], s[i]);
      }
    }
  }

  /** The distance sifted is the number of earlier elements above the sifted one. */
  lemma SiftDistance<T(!new)>(s: seq<T>, less: (T, T) -> bool, begin: int, cur: int, p: int)
    requires StrictWeakOrder(less)
    requires SiftStop(s, less, begin, cur, p) && Sorted(s, less, begin, cur)
    ensures Count(s[begin..cur], less, s[cur], true) == cur - p
  {
    forall k | begin <= k < p ensures !less(s[cur], s[k]) {
      assert NegTransAt(less, s[cur], s[p - 1], s[k]);
    }
    CountSplitRight(s[begin..cur], p - begin, less, s[cur], true);
  }

  /** The inner loop of insertion_sort and partial_insertion_sort. */
  method Sift<T(!new)>(a: array<T>, less: (T, T) -> bool, begin: nat, cur: nat)
    returns (sift: nat, ghost comparisons: nat)
    requires begin < cur < a.Length
    requires less(a[cur], a[cur - 1])
    modifies a
    ensures SiftStop(old(a[..]), less, begin, cur, sift) && comparisons <= cur - sift
    ensures a[..] == Rotated(old(a[..]), sift, cur)
  {
    hide Rotated;
    ghost var s := a[..];
    var tmp := a[cur];
    a[cur] := a[cur - 1];
    sift, comparisons := cur - 1, 0;
    while sift != begin && less(tmp, a[sift - 1])
      invariant begin <= sift < cur && comparisons == cur - 1 - sift
      invariant forall k :: 0 <= k <= sift || cur < k < a.Length ==> a[k] == s[k]
      invariant forall k :: sift < k <= cur ==> a[k] == s[k - 1]
      invariant forall k :: sift <= k < cur ==> less(tmp, s[k])
    {
      a[sift] := a[sift - 1];
      sift, comparisons := sift - 1, comparisons + 1;
    }
    comparisons := comparisons + (if sift != begin then 1 else 0);
    a[sift] := tmp;
    IsRotated(s, a[..], sift, cur);
  }

  lemma IsRotated<T>(s: seq<T>, t: seq<T>, p: int, cur: int)
    requires 0 <= p <= cur < |s| == |t| && t[p] == s[cur]
    requires forall k :: 0 <= k < p || cur < k < |s| ==> t[k] == s[k]
    requires forall k :: p < k <= cur ==> t[k] == s[k - 1]
    ensures t == Rotated(s, p, cur)
  {
  }

  /** The inner loop of unguarded_insertion_sort: no lower bound is tested; the floor element stops it. */
  method SiftUnguarded<T(!new)>(a: array<T>, less: (T, T) -> bool, ghost begin: nat, cur: nat)
    returns (sift: nat, ghost comparisons: nat)
    requires begin < cur < a.Length
    requires less(a[cur], a[cur - 1])
    requires Floored(a[..], less, begin, cur + 1)
    modifies a
    ensures SiftStop(old(a[..]), less, begin, cur, sift) && comparisons <= cur - sift
    ensures a[..] == Rotated(old(a[..]), sift, cur)
  {
    hide Rotated;
    ghost var s := a[..];
    var tmp := a[cur];
    a[cur] := a[cur - 1];
    sift, comparisons := cur - 1, 1;
    while less(tmp, a[sift - 1])
      invariant begin <= sift < cur && comparisons == cur - sift
      invariant forall k :: 0 <= k <= sift || cur < k < a.Length ==> a[k] == s[k]
      invariant forall k :: sift < k <= cur ==> a[k] == s[k - 1]
      invariant forall k :: sift <= k < cur ==> less(tmp, s[k])
      decreases sift
    {
      assert s[sift - 1] == a[sift - 1];
      a[sift] := a[sift - 1];
      sift, comparisons := sift - 1, comparisons + 1;
    }
    a[sift] := tmp;
    IsRotated(s, a[..], sift, cur);
  }

  /** One round of the guarded outer loop; the distance moved is the number of larger elements before. */
  method InsertNext<T(!new)>(a: array<T>, less: (T, T) -> bool, begin: nat, cur: nat)
    returns (moved: nat, ghost comparisons: nat)
    requires StrictWeakOrder(less)
    requires begin < cur < a.Length && Sorted(a[..], less, begin, cur)
    modifies a
    ensures Rearranged(old(a[..]), a[..], begin, cur + 1)
    ensures Sorted(a[..], less, begin, cur + 1)
    ensures moved == Count(old(a[..])[begin..cur], less, old(a[cur]), true)
    ensures moved <= cur - begin && comparisons <= moved + 1
  {
    hide Rearranged, Sorted, Count, Rotated, StrictWeakOrder;
    ghost var s := a[..];
    moved, comparisons := 0, 1;
    if less(a[cur], a[cur - 1]) {
      var sift;
      ghost var more;
      sift, more := Sift(a, less, begin, cur);
      comparisons := comparisons + more;
      SiftSorts(s, less, begin, cur, sift);
      SiftDistance(s, less, begin, cur, sift);
      moved := cur - sift;
    } else {
      OneMore(s, less, begin, cur);
      RearrangedRefl(s, begin, cur + 1);
      SiftDistance(s, less, begin, cur, cur);
    }
  }

  /** 1 + ... + k. */
  function Triangle(k: nat): nat {
    if k == 0 then 0 else Triangle(k - 1) + k
  }

  lemma {:induction false} TriangleValue(k: nat)
    ensures 2 * Triangle(k) == k * (k + 1)
  {
    if k > 0 {
      TriangleValue(k - 1);
      assert k * (k + 1) == (k - 1) * k + 2 * k;
    }
  }

  /** A short range takes at most twelve comparisons per element. */
  lemma ShortSort(k: nat)
    requires k < 24
    ensures Triangle(k) <= 12 * k
  {
    TriangleValue(k);
    MulLe(k + 1, 24, k);
  }

  lemma TriangleStep(k: nat)
    ensures Triangle(k + 1) == Triangle(k) + (k + 1)
  {
  }

  method InsertionSort<T(!new)>(a: array<T>, less: (T, T) -> bool, begin: nat, end: nat)
    returns (ghost comparisons: nat)
    requires StrictWeakOrder(less)
    requires begin <= end <= a.Length
    modifies a
    ensures Rearranged(old(a[..]), a[..], begin, end)
    ensures Sorted(a[..], less, begin, end)
    ensures comparisons <= Triangle(end - begin)
  {
    hide Rearranged, Sorted, StrictWeakOrder, Triangle, Count;
    comparisons := 0;
    ghost var s0 := a[..];
    SortedShort(s0, less, begin);
    RearrangedRefl(s0, begin, end);
    if begin == end { return; }
    var cur := begin + 1;
    while cur != end
      invariant begin < cur <= end
      invariant Rearranged(s0, a[..], begin, end)
      invariant Sorted(a[..], less, begin, cur) && comparisons <= Triangle(cur - begin)
    {
      ghost var s, more := a[..], 0;
      var moved;
      moved, more := InsertNext(a, less, begin, cur);
      comparisons := comparisons + more;
      TriangleStep(cur - begin);
      RearrangedThen(s0, s, a[..], begin, cur + 1, begin, end);
      cur := cur + 1;
    }
  }

  lemma SortedShort<T>(s: seq<T>, less: (T, T) -> bool, begin: int)
    requires 0 <= begin <= |s|
    ensures Sorted(s, less, begin, begin)
    ensures begin < |s| ==> Sorted(s, less, begin, begin + 1)
  {
  }

  lemma OneMore<T(!new)>(s: seq<T>, less: (T, T) -> bool, begin: int, cur: int)
    requires StrictWeakOrder(less)
    requires 0 <= begin < cur < |s| && Sorted(s, less, begin, cur) && !less(s[cur], s[cur - 1])
    ensures Sorted(s, less, begin, cur + 1)
  {
    forall i | begin <= i < cur ensures !less(s[cur], s[i]) {
      assert NegTransAt(less, s[cur], s[cur - 1], s[i]);
    }
  }

  /** One round of the unguarded outer loop. */
  method InsertNextUnguarded<T(!new)>(a: array<T>, less: (T, T) -> bool, ghost begin: nat, cur: nat)
    returns (ghost comparisons: nat)
    requires StrictWeakOrder(less)
    requires begin < cur < a.Length && Sorted(a[..], less, begin, cur) && Floored(a[..], less, begin, cur + 1)
    modifies a
    ensures Rearranged(old(a[..]), a[..], begin, cur + 1)
    ensures Sorted(a[..], less, begin, cur + 1)
    ensures comparisons <= cur - begin + 1
  {
    hide Rearranged, Sorted, StrictWeakOrder, SiftStop, Rotated, Floored;
    ghost var s := a[..];
    comparisons := 1;
    if less(a[cur], a[cur - 1]) {
      var sift;
      ghost var more;
      sift, more := SiftUnguarded(a, less, begin, cur);
      SiftBound(s, less, begin, cur, sift);
      SiftSorts(s, less, begin, cur, sift);
      comparisons := comparisons + more;
    } else {
      OneMore(s, less, begin, cur);
      RearrangedRefl(s, begin, cur + 1);
    }
  }

  method UnguardedInsertionSort<T(!new)>(a: array<T>, less: (T, T) -> bool, begin: nat, end: nat)
    returns (ghost comparisons: nat)
    requires StrictWeakOrder(less)
    requires Floored(a[..], less, begin, end)
    modifies a
    ensures Rearranged(old(a[..]), a[..], begin, end)
    ensures Sorted(a[..], less, begin, end)
    ensures comparisons <= Triangle(end - begin)
  {
    hide Rearranged, Sorted, StrictWeakOrder;
    ghost var s0 := a[..];
    assert 0 < begin <= end <= a.Length;
    hide Floored;
    comparisons := 0;
    SortedShort(s0, less, begin);
    RearrangedRefl(s0, begin, end);
    if begin == end { return; }
    var cur := begin + 1;
    while cur != end
      invariant begin < cur <= end
      invariant Rearranged(s0, a[..], begin, end)
      invariant Floored(a[..], less, begin, end)
      invariant Sorted(a[..], less, begin, cur) && comparisons <= Triangle(cur - begin)
    {
      ghost var s := a[..];
      FlooredPrefix(s, less, begin, cur + 1, end);
      ghost var more := InsertNextUnguarded(a, less, begin, cur);
      FlooredKept(s, a[..], less, begin, cur + 1, begin, end);
      RearrangedThen(s0, s, a[..], begin, cur + 1, begin, end);
      comparisons := comparisons + more;
      cur := cur + 1;
    }
  }

  lemma SiftBound<T>(s: seq<T>, less: (T, T) -> bool, begin: int, cur: int, p: int)
    requires SiftStop(s, less, begin, cur, p)
    ensures begin <= p <= cur
  {
  }

  lemma FlooredPrefix<T>(s: seq<T>, less: (T, T) -> bool, begin: int, mid: int, end: int)
    requires Floored(s, less, begin, end) && begin <= mid <= end
    ensures Floored(s, less, begin, mid)
  {
  }

  /** Rearranging inside a floored range keeps it floored. */
  lemma FlooredKept<T>(s: seq<T>, t: seq<T>, less: (T, T) -> bool, lo: int, hi: int, begin: int, end: int)
    requires Rearranged(s, t, lo, hi) && Floored(s, less, begin, end)
    requires begin <= lo <= hi <= end
    ensures Floored(t, less, begin, end)
  {
    forall k | begin <= k < end ensures !less(t[k], t[begin - 1]) {
      if lo <= k < hi {
        var j := RearrangedOrigin(s, t, lo, hi, k);
      }
    }
  }

  /** Gives up exactly when the range has more than eight inversions; otherwise sorts it. */
  method PartialInsertionSort<T(!new)>(a: array<T>, less: (T, T) -> bool, begin: nat, end: nat)
    returns (ok: bool, ghost comparisons: nat)
    requires StrictWeakOrder(less)
    requires begin <= end <= a.Length
    modifies a
    ensures Rearranged(old(a[..]), a[..], begin, end)
    ensures ok ==> Sorted(a[..], less, begin, end)
    ensures ok <==> Inversions(old(a[..])[begin..end], less) <= PARTIAL_INSERTION_SORT_LIMIT
    ensures comparisons <= 2 * (end - begin) + PARTIAL_INSERTION_SORT_LIMIT
  {
    hide Rearranged, Count, Inversions, Sorted, StrictWeakOrder;
    comparisons := 0;
    ghost var s0 := a[..];
    RearrangedRefl(s0, begin, end);
    FirstPrefix(s0, less, begin);
    SortedShort(s0, less, begin);
    if begin == end { return true, 0; }
    var limit := 0;
    var cur := begin + 1;
    RearrangedRefl(s0, begin, cur);
    while cur != end
      invariant begin < cur <= end
      invariant Rearranged(s0, a[..], begin, cur)
      invariant Sorted(a[..], less, begin, cur)
      invariant limit == Inversions(s0[begin..cur], less) <= PARTIAL_INSERTION_SORT_LIMIT
      invariant comparisons <= limit + cur - begin
    {
      ghost var s, more := a[..], 0;
      var moved;
      moved, more := InsertNext(a, less, begin, cur);
      comparisons := comparisons + more;
      OneInserted(s0, s, a[..], less, begin, cur, moved);
      limit := limit + moved;
      cur := cur + 1;
      if limit > PARTIAL_INSERTION_SORT_LIMIT {
        TooManyInversions(s0, less, begin, cur, end);
        RearrangedWiden(s0, a[..], begin, cur, begin, end);
        return false, comparisons;
      }
    }
    return true, comparisons;
  }

  lemma OneInserted<T>(s0: seq<T>, s: seq<T>, t: seq<T>, less: (T, T) -> bool, begin: int, cur: int, moved: int)
    requires 0 <= begin <= cur < |s0| == |s| && Rearranged(s0, s, begin, cur) && Rearranged(s, t, begin, cur + 1)
    requires moved == Count(s[begin..cur], less, s[cur], true)
    ensures Rearranged(s0, t, begin, cur + 1)
    ensures Inversions(s0[begin..cur + 1], less) == Inversions(s0[begin..cur], less) + moved
  {
    hide Rearranged, Count, Inversions;
    InversionsStep(s0, s, less, begin, cur);
    RearrangedWiden(s0, s, begin, cur, begin, cur + 1);
    RearrangedTrans(s0, s, t, begin, cur + 1);
  }

  lemma FirstPrefix<T>(s: seq<T>, less: (T, T) -> bool, begin: int)
    requires 0 <= begin <= |s|
    ensures Inversions(s[begin..begin], less) == 0
    ensures begin < |s| ==> Inversions(s[begin..begin + 1], less) == 0
  {
    if begin < |s| {
      assert s[begin..begin + 1][..0] == [];
    }
  }

  lemma TooManyInversions<T>(s: seq<T>, less: (T, T) -> bool, begin: int, cur: int, end: int)
    requires 0 <= begin <= cur <= end <= |s|
    ensures Inversions(s[begin..cur], less) <= Inversions(s[begin..end], less)
  {
    InversionsMonotone(s[begin..end], cur - begin, less);
    assert s[begin..end][..cur - begin] == s[begin..cur];
  }

  /** The next element's inversions may be counted in the partly sorted range instead of the original. */
  lemma InversionsStep<T>(s0: seq<T>, s: seq<T>, less: (T, T) -> bool, begin: int, cur: int)
    requires 0 <= begin <= cur < |s0| && Rearranged(s0, s, begin, cur)
    ensures Inversions(s0[begin..cur + 1], less)
         == Inversions(s0[begin..cur], less) + Count(s[begin..cur], less, s[cur], true)
  {
    assert s0[begin..cur + 1][..cur - begin] == s0[begin..cur];
    CountPermuted(s0[begin..cur], s[begin..cur], less, s[cur], true);
  }
}
