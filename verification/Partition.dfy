/** partition_right and partition_left of contrib/pdqsort/pdqsort.h, and the contract shared by
    both right partitions. */
module Partition {
  import opened Order

  /** s is already split around p: no element below p follows one that is not. */
  ghost predicate AlreadySplit<T>(s: seq<T>, less: (T, T) -> bool, p: T) {
    forall i, j :: 0 <= i < j < |s| && less(s[j], p) ==> less(s[i], p)
  }

  /** t is s[begin..end] split around the pivot s[begin]: smaller elements, the pivot at pos, the rest.
      Position and flag are functions of s alone. */
  ghost predicate PartitionedRight<T>(s: seq<T>, t: seq<T>, less: (T, T) -> bool, begin: int, end: int, pos: int,
                                      already: bool) {
    && begin <= pos < end
    && Rearranged(s, t, begin, end)
    && t[pos] == s[begin]
    && (forall k :: begin <= k < pos ==> less(t[k], s[begin]))
    && (forall k :: pos < k < end ==> !less(t[k], s[begin]))
    && pos == begin + Count(s[begin + 1..end], less, s[begin], false)
    && (already <==> AlreadySplit(s[begin + 1..end], less, s[begin]))
  }

  /** t is s[begin..end] split around the pivot s[begin] with equal elements on the left. */
  ghost predicate PartitionedLeft<T>(s: seq<T>, t: seq<T>, less: (T, T) -> bool, begin: int, end: int, pos: int) {
    && begin <= pos < end
    && Rearranged(s, t, begin, end)
    && t[pos] == s[begin]
    && (forall k :: begin <= k < pos ==> !less(s[begin], t[k]))
    && (forall k :: pos < k < end ==> less(s[begin], t[k]))
    && pos == end - 1 - Count(s[begin + 1..end], less, s[begin], true)
  }

  /** The median-of-three precondition: something right of the pivot is not below it. */
  ghost predicate HasUpper<T>(s: seq<T>, less: (T, T) -> bool, begin: int, end: int) {
    && 0 <= begin < end <= |s|
    && exists k :: begin < k < end && !less(s[k], s[begin])
  }

  method Swap<T>(a: array<T>, i: nat, j: nat, ghost lo: nat, ghost hi: nat)
    requires lo <= i < hi <= a.Length && lo <= j < hi
    modifies a
    ensures a[..] == Swapped(old(a[..]), i, j)
    ensures Rearranged(old(a[..]), a[..], lo, hi)
  {
    SwapRearranges(a[..], i, j, lo, hi);
    a[i], a[j] := a[j], a[i];
    assert a[..] == Swapped(old(a[..]), i, j);
  }

  /** Both scans at the start of the right partitions: `first` is the first element not below the pivot;
      `last` is the last one below it, unless the scans have met. */
  ghost predicate FirstPair<T>(s: seq<T>, less: (T, T) -> bool, begin: int, end: int, first: int, last: int) {
    && 0 <= begin < first < end <= |s|
    && first - 1 <= last < end
    && (forall k :: begin < k < first ==> less(s[k], s[begin]))
    && !less(s[first], s[begin])
    && (forall k :: last < k < end ==> !less(s[k], s[begin]))
    && (first < last ==> less(s[last], s[begin]))
  }

  /** `while (comp(*first, pivot)) ++first`: runs over elements whose side of the pivot is `side`;
      the element at `guard` stops it. */
  method ScanUp<T>(a: array<T>, less: (T, T) -> bool, pivot: T, above: bool, side: bool, from: nat, ghost guard: nat)
    returns (r: nat, ghost comparisons: nat)
    requires from <= guard < a.Length && Beyond(less, pivot, above, a[guard]) != side
    ensures from <= r <= guard && Beyond(less, pivot, above, a[r]) != side && comparisons == r + 1 - from
    ensures forall k :: from <= k < r ==> Beyond(less, pivot, above, a[k]) == side
  {
    r, comparisons := from, 1;
    while Beyond(less, pivot, above, a[r]) == side
      invariant from <= r <= guard && comparisons == r + 1 - from
      invariant forall k :: from <= k < r ==> Beyond(less, pivot, above, a[k]) == side
      decreases guard - r
    {
      r, comparisons := r + 1, comparisons + 1;
    }
  }

  /** The same scan downwards. */
  method ScanDown<T>(a: array<T>, less: (T, T) -> bool, pivot: T, above: bool, side: bool, from: nat, ghost guard: nat)
    returns (r: nat, ghost comparisons: nat)
    requires guard <= from < a.Length && Beyond(less, pivot, above, a[guard]) != side
    ensures guard <= r <= from && Beyond(less, pivot, above, a[r]) != side && comparisons == from + 1 - r
    ensures forall k :: r < k <= from ==> Beyond(less, pivot, above, a[k]) == side
  {
    r, comparisons := from, 1;
    while Beyond(less, pivot, above, a[r]) == side
      invariant guard <= r <= from && comparisons == from + 1 - r
      invariant forall k :: r < k <= from ==> Beyond(less, pivot, above, a[k]) == side
      decreases r
    {
      r, comparisons := r - 1, comparisons + 1;
    }
  }

  method FindFirstPair<T>(a: array<T>, less: (T, T) -> bool, begin: nat, end: nat)
    returns (first: nat, last: nat, ghost comparisons: nat)
    requires end <= a.Length && HasUpper(a[..], less, begin, end)
    ensures FirstPair(a[..], less, begin, end, first, last) && comparisons == first - begin + end - last
  {
    var pivot := a[begin];
    ghost var upper: int :| begin < upper < end && !less(a[..][upper], pivot);
    first, comparisons := ScanUp(a, less, pivot, false, true, begin + 1, upper);
    if first - 1 == begin {
      last := end;
      var below := false;
      while first < last && !below
        invariant first <= last <= end && comparisons == first - begin + end - last
        invariant below ==> first < last < end && less(a[last], pivot)
        invariant forall k :: (if below then last < k else last <= k) && k < end ==> !less(a[k], pivot)
        decreases last - first, !below
      {
        last := last - 1;
        below := less(a[last], pivot);
        comparisons := comparisons + 1;
      }
    } else {
      ghost var more;
      last, more := ScanDown(a, less, pivot, false, false, end - 1, first - 1);
      comparisons := comparisons + more;
    }
  }

  /** The scans have met exactly when the range was already split. */
  lemma FirstPairFlag<T>(s: seq<T>, less: (T, T) -> bool, begin: int, end: int, first: int, last: int)
    requires FirstPair(s, less, begin, end, first, last)
    ensures first >= last <==> AlreadySplit(s[begin + 1..end], less, s[begin])
  {
    var u := s[begin + 1..end];
    if first < last {
      assert u[last - begin - 1] == s[last] && u[first - begin - 1] == s[first];
    } else {
      forall i, j | 0 <= i < j < |u| && less(u[j], s[begin]) ensures less(u[i], s[begin]) {
        assert u[j] == s[begin + 1 + j] && u[i] == s[begin + 1 + i];
      }
    }
  }

  /** Once [begin + 1, end) is split at `first`, moving the pivot to first - 1 completes the partition. */
  lemma PlacePivot<T>(s: seq<T>, t: seq<T>, u: seq<T>, less: (T, T) -> bool, begin: int, end: int, first: int,
                      already: bool)
    requires 0 <= begin < first <= end <= |s| == |t| && Rearranged(s, t, begin + 1, end)
    requires forall k :: begin < k < first ==> less(t[k], s[begin])
    requires forall k :: first <= k < end ==> !less(t[k], s[begin])
    requires u == Swapped(t, begin, first - 1)
    requires already <==> AlreadySplit(s[begin + 1..end], less, s[begin])
    ensures PartitionedRight(s, u, less, begin, end, first - 1, already)
  {
    hide Rearranged;
    RearrangedOutside(s, t, begin + 1, end, begin);
    CountSplit(t[begin + 1..end], first - 1 - begin, less, s[begin], false);
    CountRearranged(s, t, begin + 1, end, less, s[begin], false);
    RearrangedWiden(s, t, begin + 1, end, begin, end);
    SwapKeepsRearranged(s, t, begin, first - 1, begin, end);
  }

  /** One round of the swapping loop: the swapped pair guards the two scans that follow. */
  method NextPair<T>(a: array<T>, less: (T, T) -> bool, begin: nat, end: nat, first: nat, last: nat)
    returns (first': nat, last': nat, ghost comparisons: nat)
    requires end <= a.Length && FirstPair(a[..], less, begin, end, first, last) && first < last
    modifies a
    ensures FirstPair(a[..], less, begin, end, first', last')
    ensures Rearranged(old(a[..]), a[..], begin + 1, end)
    ensures last' - first' < last - first && comparisons == first' - first + last - last'
  {
    hide Rearranged;
    var pivot := a[begin];
    ghost var s := a[..];
    Swap(a, first, last, begin + 1, end);
    assert forall k :: 0 <= k < a.Length && k != first && k != last ==> a[k] == s[k];
    ghost var more;
    first', comparisons := ScanUp(a, less, pivot, false, true, first + 1, last);
    last', more := ScanDown(a, less, pivot, false, false, last - 1, first);
    comparisons := comparisons + more;
    assert first' - 1 == first || Beyond(less, pivot, false, a[first' - 1]);
  }

  /** The pivot, kept in a local, goes to its position and the element there to the front. */
  method MovePivot<T>(a: array<T>, begin: nat, pos: nat, pivot: T)
    requires begin < a.Length && pos < a.Length && a[begin] == pivot
    modifies a
    ensures a[..] == Swapped(old(a[..]), begin, pos)
  {
    a[begin] := a[pos];
    a[pos] := pivot;
    assert a[..] == Swapped(old(a[..]), begin, pos);
  }

  method PartitionRight<T>(a: array<T>, less: (T, T) -> bool, begin: nat, end: nat)
    returns (pos: nat, already: bool, ghost comparisons: nat)
    requires end <= a.Length && HasUpper(a[..], less, begin, end)
    modifies a
    ensures PartitionedRight(old(a[..]), a[..], less, begin, end, pos, already)
    ensures already ==> a[..] == Swapped(old(a[..]), begin, pos)
    ensures comparisons <= end - begin + 1
  {
    hide Rearranged;
    ghost var s := a[..];
    RearrangedRefl(s, begin + 1, end);
    var pivot := a[begin];
    var first, last;
    first, last, comparisons := FindFirstPair(a, less, begin, end);
    FirstPairFlag(s, less, begin, end, first, last);
    already := first >= last;
    while first < last
      invariant FirstPair(a[..], less, begin, end, first, last) && comparisons == first - begin + end - last
      invariant Rearranged(s, a[..], begin + 1, end) && (already ==> first >= last && a[..] == s)
      decreases last + 1 - first
    {
      ghost var t, more := a[..], 0;
      first, last, more := NextPair(a, less, begin, end, first, last);
      comparisons := comparisons + more;
      RearrangedTrans(s, t, a[..], begin + 1, end);
    }
    pos := first - 1;
    ghost var t := a[..];
    RearrangedOutside(s, t, begin + 1, end, begin);
    MovePivot(a, begin, pos, pivot);
    PlacePivot(s, t, a[..], less, begin, end, first, already);
  }

  /** The loop state of partition_left. */
  ghost predicate LastPair<T>(s: seq<T>, less: (T, T) -> bool, begin: int, end: int, first: int, last: int) {
    && 0 <= begin <= last < end <= |s| && begin <= first <= last + 1
    && (forall k :: last < k < end ==> less(s[begin], s[k]))
    && !less(s[begin], s[last])
    && (forall k :: begin <= k < first ==> !less(s[begin], s[k]))
    && (first < last ==> begin < first && less(s[begin], s[first]))
  }

  method FindLastPair<T>(a: array<T>, less: (T, T) -> bool, begin: nat, end: nat)
    returns (first: nat, last: nat, ghost comparisons: nat)
    requires begin < end <= a.Length
    requires !less(a[begin], a[begin])
    ensures LastPair(a[..], less, begin, end, first, last) && comparisons == first - begin + end - last
  {
    var pivot := a[begin];
    last, comparisons := ScanDown(a, less, pivot, true, true, end - 1, begin);
    first := begin;
    if last + 1 == end {
      var above := false;
      while first < last && !above
        invariant begin <= first <= last && comparisons == first - begin + end - last
        invariant above ==> begin < first && less(pivot, a[first])
        invariant forall k :: begin <= k && (if above then k < first else k <= first) ==> !less(pivot, a[k])
        decreases last - first, !above
      {
        first := first + 1;
        above := less(pivot, a[first]);
        comparisons := comparisons + 1;
      }
    } else {
      ghost var more;
      first, more := ScanUp(a, less, pivot, true, false, first + 1, last + 1);
      comparisons := comparisons + more;
    }
  }

  method PreviousPair<T>(a: array<T>, less: (T, T) -> bool, begin: nat, end: nat, first: nat, last: nat)
    returns (first': nat, last': nat, ghost comparisons: nat)
    requires end <= a.Length && LastPair(a[..], less, begin, end, first, last) && first < last
    modifies a
    ensures LastPair(a[..], less, begin, end, first', last')
    ensures Rearranged(old(a[..]), a[..], begin + 1, end)
    ensures last' - first' < last - first && comparisons == first' - first + last - last'
  {
    hide Rearranged;
    var pivot := a[begin];
    ghost var s := a[..];
    Swap(a, first, last, begin + 1, end);
    assert forall k :: 0 <= k < a.Length && k != first && k != last ==> a[k] == s[k];
    ghost var more;
    last', comparisons := ScanDown(a, less, pivot, true, true, last - 1, first);
    first', more := ScanUp(a, less, pivot, true, false, first + 1, last);
    comparisons := comparisons + more;
    assert first' - 1 == first || !Beyond(less, pivot, true, a[first' - 1]);
  }

  method PartitionLeft<T>(a: array<T>, less: (T, T) -> bool, begin: nat, end: nat)
    returns (pos: nat, ghost comparisons: nat)
    requires begin < end <= a.Length
    requires !less(a[begin], a[begin])
    modifies a
    ensures PartitionedLeft(old(a[..]), a[..], less, begin, end, pos)
    ensures comparisons <= end - begin + 1
  {
    hide Rearranged;
    ghost var s := a[..];
    RearrangedRefl(s, begin + 1, end);
    var pivot := a[begin];
    var first, last;
    first, last, comparisons := FindLastPair(a, less, begin, end);
    while first < last
      invariant LastPair(a[..], less, begin, end, first, last) && comparisons == first - begin + end - last
      invariant Rearranged(s, a[..], begin + 1, end)
      decreases last + 1 - first
    {
      ghost var t, more := a[..], 0;
      first, last, more := PreviousPair(a, less, begin, end, first, last);
      comparisons := comparisons + more;
      RearrangedTrans(s, t, a[..], begin + 1, end);
    }
    pos := last;
    ghost var t := a[..];
    RearrangedOutside(s, t, begin + 1, end, begin);
    MovePivot(a, begin, pos, pivot);
    PlacePivotLeft(s, t, a[..], less, begin, end, pos);
  }

  lemma PlacePivotLeft<T>(s: seq<T>, t: seq<T>, u: seq<T>, less: (T, T) -> bool, begin: int, end: int, pos: int)
    requires 0 <= begin <= pos < end <= |s| == |t| && Rearranged(s, t, begin + 1, end)
    requires forall k :: begin <= k <= pos ==> !less(s[begin], t[k])
    requires forall k :: pos < k < end ==> less(s[begin], t[k])
    requires u == Swapped(t, begin, pos)
    ensures PartitionedLeft(s, u, less, begin, end, pos)
  {
    hide Rearranged;
    RearrangedOutside(s, t, begin + 1, end, begin);
    CountSplitRight(t[begin + 1..end], pos - begin, less, s[begin], true);
    CountRearranged(s, t, begin + 1, end, less, s[begin], true);
    RearrangedWiden(s, t, begin + 1, end, begin, end);
    SwapKeepsRearranged(s, t, begin, pos, begin, end);
  }
}
