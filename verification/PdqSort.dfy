/** pdqsort_loop and pdqsort of contrib/pdqsort/pdqsort.h: a sorted permutation for every array and order,
    within the budget of bad partitions, with logarithmic recursion depth and O(n log n) comparisons apart from those of
    heap sort, and O(n) comparisons for ascending and for equivalent elements. */
module PdqSort {
  import opened Order
  import opened InsertionSorts
  import opened Partition
  import opened BlockPartition
  import opened PdqCost

  const NINTHER_THRESHOLD := 128

  // ----- Choosing the pivot -----

  ghost predicate Amid<T>(less: (T, T) -> bool, lo: T, m: T, hi: T) {
    !less(m, lo) && !less(hi, m)
  }

  /** m is one of x, y and z, and lies between the other two. */
  ghost predicate Median<T>(less: (T, T) -> bool, x: T, y: T, z: T, m: T) {
    || (m == x && (Amid(less, y, x, z) || Amid(less, z, x, y)))
    || (m == y && (Amid(less, x, y, z) || Amid(less, z, y, x)))
    || (m == z && (Amid(less, x, z, y) || Amid(less, y, z, x)))
  }

  /** m is the median of the medians of three triples at the front, in the middle and at the back. */
  ghost predicate Ninther<T(!new)>(s: seq<T>, less: (T, T) -> bool, begin: int, mid: int, end: int, m: T)
    requires 0 <= begin && begin + 3 < mid < end - 4 && end <= |s|
  {
    exists x, y, z ::
      && Median(less, s[begin], s[mid], s[end - 1], x)
      && Median(less, s[begin + 1], s[mid - 1], s[end - 2], y)
      && Median(less, s[begin + 2], s[mid + 1], s[end - 3], z)
      && Median(less, y, x, z, m)
  }

  method SortTwo<T(!new)>(a: array<T>, less: (T, T) -> bool, i: nat, j: nat, ghost lo: nat, ghost hi: nat)
    returns (ghost comparisons: nat)
    requires StrictWeakOrder(less)
    requires lo <= i < hi <= a.Length && lo <= j < hi && i != j
    modifies a
    ensures Rearranged(old(a[..]), a[..], lo, hi)
    ensures !less(a[j], a[i]) && comparisons == 1
    ensures a[..] == if less(old(a[j]), old(a[i])) then Swapped(old(a[..]), i, j) else old(a[..])
    ensures if less(old(a[j]), old(a[i])) then a[i] == old(a[j]) && a[j] == old(a[i])
      else a[i] == old(a[i]) && a[j] == old(a[j])
    ensures forall k :: 0 <= k < a.Length && k != i && k != j ==> a[k] == old(a[k])
  {
    comparisons := 1;
    if less(a[j], a[i]) {
      Asymmetric(less, a[j], a[i]);
      Swap(a, i, j, lo, hi);
    }
  }

  method SortThree<T(!new)>(a: array<T>, less: (T, T) -> bool, i: nat, j: nat, k: nat, ghost lo: nat, ghost hi: nat)
    returns (ghost comparisons: nat)
    requires StrictWeakOrder(less)
    requires lo <= i < hi <= a.Length && lo <= j < hi && lo <= k < hi && i != j && j != k && i != k
    modifies a
    ensures Rearranged(old(a[..]), a[..], lo, hi)
    ensures !less(a[j], a[i]) && !less(a[k], a[j]) && comparisons == 3
    ensures less(old(a[i]), old(a[j])) && less(old(a[j]), old(a[k])) ==> a[..] == old(a[..])
    ensures less(old(a[j]), old(a[i])) && less(old(a[i]), old(a[k])) ==> a[..] == Swapped(old(a[..]), i, j)
    ensures Median(less, old(a[i]), old(a[j]), old(a[k]), a[j])
    ensures forall m :: 0 <= m < a.Length && m != i && m != j && m != k ==> a[m] == old(a[m])
  {
    hide Rearranged, StrictWeakOrder, Swapped;
    ghost var s := a[..];
    OrderOfThree(less, s[i], s[j], s[k]);
    comparisons := SortTwo(a, less, i, j, lo, hi);
    ghost var t, x, y := a[..], a[i], a[j];
    ghost var second := SortTwo(a, less, j, k, lo, hi);
    RearrangedTrans(s, t, a[..], lo, hi);
    assert !less(a[k], y) by { KeepsUpper(less, y, a[k]); }
    NotLessTrans(less, a[k], y, x);
    t := a[..];
    ghost var third := SortTwo(a, less, i, j, lo, hi);
    RearrangedTrans(s, t, a[..], lo, hi);
    comparisons := comparisons + second + third;
  }

  /** Of two orders of three elements, what the comparisons see. */
  lemma OrderOfThree<T(!new)>(less: (T, T) -> bool, x: T, y: T, z: T)
    requires StrictWeakOrder(less)
    ensures less(x, y) ==> !less(y, x)
    ensures less(y, z) ==> !less(z, y)
    ensures less(x, z) ==> !less(z, x)
    ensures less(y, x) ==> !less(x, y)
  {
    assert TransAt(less, x, y, x) && TransAt(less, y, z, y) && TransAt(less, x, z, x);
  }

  lemma KeepsUpper<T(!new)>(less: (T, T) -> bool, y: T, z: T)
    requires StrictWeakOrder(less) && (z == y || !less(z, y))
    ensures !less(z, y)
  {
  }

  lemma NotLessTrans<T(!new)>(less: (T, T) -> bool, x: T, y: T, z: T)
    requires StrictWeakOrder(less) && !less(x, y) && !less(y, z)
    ensures !less(x, z)
  {
    assert NegTransAt(less, x, y, z);
  }

  /** Every element is below all later ones. */
  ghost predicate Ascending<T>(s: seq<T>, less: (T, T) -> bool, begin: int, end: int) {
    0 <= begin <= end <= |s| && forall i, j :: begin <= i < j < end ==> less(s[i], s[j])
  }

  /** No element is below another one. */
  ghost predicate AllEquivalent<T>(s: seq<T>, less: (T, T) -> bool, begin: int, end: int) {
    0 <= begin <= end <= |s| && forall i, j :: begin <= i < end && begin <= j < end ==> !less(s[i], s[j])
  }

  lemma AllEquivalentKept<T>(s: seq<T>, t: seq<T>, less: (T, T) -> bool, begin: int, end: int, lo: int, hi: int)
    requires AllEquivalent(s, less, begin, end) && begin <= lo <= hi <= end && Rearranged(s, t, lo, hi)
    ensures AllEquivalent(t, less, begin, end)
  {
    RearrangedWiden(s, t, lo, hi, begin, end);
    forall i, j | begin <= i < end && begin <= j < end ensures !less(t[i], t[j]) {
      var i' := RearrangedOrigin(s, t, begin, end, i);
      var j' := RearrangedOrigin(s, t, begin, end, j);
    }
  }

  function Middle(begin: int, end: int): int {
    begin + (end - begin) / 2
  }

  lemma AscendingThree<T>(s: seq<T>, less: (T, T) -> bool, begin: int, end: int, i: int, j: int, k: int)
    requires Ascending(s, less, begin, end) && begin <= i < j < k < end
    ensures less(s[i], s[j]) && less(s[j], s[k])
  {
  }

  lemma SwappedAt<T>(s: seq<T>, i: int, j: int, k: int)
    requires 0 <= i < |s| && 0 <= j < |s| && 0 <= k < |s| && k != i && k != j
    ensures Swapped(s, i, j)[i] == s[j] && Swapped(s, i, j)[k] == s[k]
  {
  }

  lemma SwappedBack<T>(s: seq<T>, i: int, j: int)
    requires 0 <= i < |s| && 0 <= j < |s|
    ensures Swapped(s, i, j) == Swapped(s, j, i)
  {
  }

  /** Median of three, or pseudomedian of nine for large ranges: afterwards something in the range bounds the pivot. */
  method ChoosePivot<T(!new)>(a: array<T>, less: (T, T) -> bool, begin: nat, end: nat) returns (ghost comparisons: nat)
    requires StrictWeakOrder(less)
    requires begin + INSERTION_SORT_THRESHOLD <= end <= a.Length
    modifies a
    ensures Rearranged(old(a[..]), a[..], begin, end)
    ensures HasUpper(a[..], less, begin, end) && comparisons <= 12
    ensures var s, mid := old(a[..]), begin + (end - begin) / 2;
      if end - begin > NINTHER_THRESHOLD then Ninther(s, less, begin, mid, end, a[begin])
      else Median(less, s[begin], s[mid], s[end - 1], a[begin])
    ensures Ascending(old(a[..]), less, begin, end) ==> a[..] == Swapped(old(a[..]), begin, Middle(begin, end))
  {
    hide Rearranged, StrictWeakOrder, HasUpper, Ascending, Swapped, Median;
    var size := end - begin;
    var s2 := size / 2;
    ghost var s := a[..];
    if size > NINTHER_THRESHOLD {
      comparisons := ThreeMedians(a, less, begin, end, s2);
      ghost var t, more := a[..], 0;
      more := MedianToFront(a, less, begin, end, s2);
      comparisons := comparisons + more;
      RearrangedTrans(s, t, a[..], begin, end);
    } else {
      if Ascending(s, less, begin, end) {
        AscendingThree(s, less, begin, end, begin, begin + s2, end - 1);
        SwappedBack(s, begin, begin + s2);
      }
      comparisons := SortThree(a, less, begin + s2, begin, end - 1, begin, end);
      MedianSwapped(less, s[begin + s2], s[begin], s[end - 1], a[begin]);
      UpperWitness(a[..], less, begin, end, end - 1);
    }
  }

  /** The medians of three triples, in the middle of the range. */
  method ThreeMedians<T(!new)>(a: array<T>, less: (T, T) -> bool, begin: nat, end: nat, s2: nat)
    returns (ghost comparisons: nat)
    requires StrictWeakOrder(less)
    requires begin + NINTHER_THRESHOLD < end <= a.Length && s2 == (end - begin) / 2
    modifies a
    ensures Rearranged(old(a[..]), a[..], begin, end) && comparisons == 9
    ensures var s, mid := old(a[..]), begin + s2;
      && Median(less, s[begin], s[mid], s[end - 1], a[mid])
      && Median(less, s[begin + 1], s[mid - 1], s[end - 2], a[mid - 1])
      && Median(less, s[begin + 2], s[mid + 1], s[end - 3], a[mid + 1])
    ensures Ascending(old(a[..]), less, begin, end) ==> a[..] == old(a[..])
  {
    hide Rearranged, StrictWeakOrder, Ascending, Median;
    ghost var s := a[..];
    RearrangedRefl(s, begin, end);
    comparisons := MedianOf(a, less, begin, begin + s2, end - 1, begin, end, s);
    ghost var second := MedianOf(a, less, begin + 1, begin + (s2 - 1), end - 2, begin, end, s);
    ghost var third := MedianOf(a, less, begin + 2, begin + (s2 + 1), end - 3, begin, end, s);
    comparisons := comparisons + second + third;
  }

  /** One of these triples; an ascending range stays as it is. */
  method MedianOf<T(!new)>(a: array<T>, less: (T, T) -> bool, i: nat, j: nat, k: nat, ghost begin: nat,
                           ghost end: nat, ghost s: seq<T>) returns (ghost comparisons: nat)
    requires StrictWeakOrder(less)
    requires begin <= i < j < k < end <= a.Length && Rearranged(s, a[..], begin, end)
    modifies a
    ensures Rearranged(s, a[..], begin, end) && comparisons == 3
    ensures Ascending(s, less, begin, end) && old(a[..]) == s ==> a[..] == s
    ensures Median(less, old(a[i]), old(a[j]), old(a[k]), a[j])
    ensures forall m :: 0 <= m < a.Length && m != i && m != j && m != k ==> a[m] == old(a[m])
  {
    hide Rearranged, StrictWeakOrder, Ascending, Swapped, Median;
    ghost var t := a[..];
    if Ascending(s, less, begin, end) {
      AscendingThree(s, less, begin, end, i, j, k);
    }
    comparisons := SortThree(a, less, i, j, k, begin, end);
    RearrangedTrans(s, t, a[..], begin, end);
  }

  /** The median of the three medians, swapped to the front. */
  method MedianToFront<T(!new)>(a: array<T>, less: (T, T) -> bool, begin: nat, end: nat, s2: nat)
    returns (ghost comparisons: nat)
    requires StrictWeakOrder(less)
    requires begin + NINTHER_THRESHOLD < end <= a.Length && s2 == (end - begin) / 2
    modifies a
    ensures Rearranged(old(a[..]), a[..], begin, end) && HasUpper(a[..], less, begin, end) && comparisons == 3
    ensures Ascending(old(a[..]), less, begin, end) ==> a[..] == Swapped(old(a[..]), begin, begin + s2)
    ensures Median(less, old(a[begin + s2 - 1]), old(a[begin + s2]), old(a[begin + s2 + 1]), a[begin])
  {
    hide Rearranged, StrictWeakOrder, HasUpper, Ascending, Swapped, Median;
    var mid := begin + s2;
    assert begin < mid - 1 && mid + 1 < end;
    ghost var s := a[..];
    if Ascending(s, less, begin, end) {
      AscendingThree(s, less, begin, end, mid - 1, mid, mid + 1);
    }
    comparisons := SortThree(a, less, mid - 1, mid, mid + 1, begin, end);
    ghost var t := a[..];
    Swap(a, begin, mid, begin, end);
    SwappedAt(t, begin, mid, mid + 1);
    RearrangedTrans(s, t, a[..], begin, end);
    UpperWitness(a[..], less, begin, end, mid + 1);
  }

  lemma MedianSwapped<T>(less: (T, T) -> bool, x: T, y: T, z: T, m: T)
    requires Median(less, x, y, z, m)
    ensures Median(less, y, x, z, m)
  {
  }

  lemma UpperWitness<T>(s: seq<T>, less: (T, T) -> bool, begin: int, end: int, k: int)
    requires 0 <= begin < k < end <= |s| && !less(s[k], s[begin])
    ensures HasUpper(s, less, begin, end)
  {
  }

  // ----- Breaking patterns, heap sort -----

  /** The swaps on the left of an unbalanced partition at pos. */
  function ShuffledLeft<T>(s: seq<T>, begin: int, pos: int): (t: seq<T>)
    requires 0 <= begin <= pos <= |s|
    ensures |t| == |s|
  {
    var size, quarter := pos - begin, (pos - begin) / 4;
    if size < INSERTION_SORT_THRESHOLD then s
    else
      var t := Swapped(Swapped(s, begin, begin + quarter), pos - 1, pos - quarter);
      if size <= NINTHER_THRESHOLD then t
      else
        var u := Swapped(Swapped(t, begin + 1, begin + (quarter + 1)), begin + 2, begin + (quarter + 2));
        Swapped(Swapped(u, pos - 2, pos - (quarter + 1)), pos - 3, pos - (quarter + 2))
  }

  /** The swaps on its right. */
  function ShuffledRight<T>(s: seq<T>, pos: int, end: int): (t: seq<T>)
    requires 0 <= pos < end <= |s|
    ensures |t| == |s|
  {
    var size, quarter := end - (pos + 1), (end - (pos + 1)) / 4;
    if size < INSERTION_SORT_THRESHOLD then s
    else
      var t := Swapped(Swapped(s, pos + 1, pos + (1 + quarter)), end - 1, end - quarter);
      if size <= NINTHER_THRESHOLD then t
      else
        var u := Swapped(Swapped(t, pos + 2, pos + (2 + quarter)), pos + 3, pos + (3 + quarter));
        Swapped(Swapped(u, end - 2, end - (1 + quarter)), end - 3, end - (2 + quarter))
  }

  method ShuffleLeft<T>(a: array<T>, begin: nat, pos: nat)
    requires begin <= pos <= a.Length
    modifies a
    ensures Rearranged(old(a[..]), a[..], begin, pos) && a[..] == ShuffledLeft(old(a[..]), begin, pos)
  {
    hide Rearranged, Swapped;
    var size := pos - begin;
    ghost var s := a[..];
    RearrangedRefl(s, begin, pos);
    if size >= INSERTION_SORT_THRESHOLD {
      var quarter := size / 4;
      assert 6 <= quarter && 4 * quarter <= size;
      SwapWithin(a, begin, begin + quarter, begin, pos, s);
      SwapWithin(a, pos - 1, pos - quarter, begin, pos, s);
      if size > NINTHER_THRESHOLD {
        SwapWithin(a, begin + 1, begin + (quarter + 1), begin, pos, s);
        SwapWithin(a, begin + 2, begin + (quarter + 2), begin, pos, s);
        SwapWithin(a, pos - 2, pos - (quarter + 1), begin, pos, s);
        SwapWithin(a, pos - 3, pos - (quarter + 2), begin, pos, s);
      }
    }
  }

  method ShuffleRight<T>(a: array<T>, pos: nat, end: nat)
    requires pos < end <= a.Length
    modifies a
    ensures Rearranged(old(a[..]), a[..], pos + 1, end) && a[..] == ShuffledRight(old(a[..]), pos, end)
  {
    hide Rearranged, Swapped;
    var size := end - (pos + 1);
    ghost var s := a[..];
    RearrangedRefl(s, pos + 1, end);
    if size >= INSERTION_SORT_THRESHOLD {
      var quarter := size / 4;
      assert 6 <= quarter && 4 * quarter <= size;
      SwapWithin(a, pos + 1, pos + (1 + quarter), pos + 1, end, s);
      SwapWithin(a, end - 1, end - quarter, pos + 1, end, s);
      if size > NINTHER_THRESHOLD {
        SwapWithin(a, pos + 2, pos + (2 + quarter), pos + 1, end, s);
        SwapWithin(a, pos + 3, pos + (3 + quarter), pos + 1, end, s);
        SwapWithin(a, end - 2, end - (1 + quarter), pos + 1, end, s);
        SwapWithin(a, end - 3, end - (2 + quarter), pos + 1, end, s);
      }
    }
  }

  method SwapWithin<T>(a: array<T>, i: nat, j: nat, ghost lo: nat, ghost hi: nat, ghost s: seq<T>)
    requires lo <= i < hi <= a.Length && lo <= j < hi && Rearranged(s, a[..], lo, hi)
    modifies a
    ensures Rearranged(s, a[..], lo, hi) && a[..] == Swapped(old(a[..]), i, j)
  {
    hide Rearranged, Swapped;
    ghost var t := a[..];
    Swap(a, i, j, lo, hi);
    RearrangedTrans(s, t, a[..], lo, hi);
  }

  /** Stands for std::make_heap followed by std::sort_heap, of which only the contract is used. */
  method HeapSort<T(!new)>(a: array<T>, less: (T, T) -> bool, begin: nat, end: nat)
    requires StrictWeakOrder(less)
    requires begin <= end <= a.Length
    modifies a
    ensures Rearranged(old(a[..]), a[..], begin, end)
    ensures Sorted(a[..], less, begin, end)
  {
    ghost var _ := InsertionSort(a, less, begin, end);
  }

  /** Either instantiation of the right partition. */
  method PartitionAny<T>(a: array<T>, less: (T, T) -> bool, begin: nat, end: nat, branchless: bool)
    returns (pos: nat, already: bool, ghost comparisons: nat)
    requires begin < end <= a.Length && HasUpper(a[..], less, begin, end)
    modifies a
    ensures PartitionedRight(old(a[..]), a[..], less, begin, end, pos, already)
    ensures already ==> a[..] == Swapped(old(a[..]), begin, pos)
    ensures comparisons <= end - begin + 1
  {
    if branchless {
      pos, already, comparisons := PartitionRightBranchless(a, less, begin, end);
    } else {
      pos, already, comparisons := PartitionRight(a, less, begin, end);
    }
  }

  // ----- Facts about split ranges -----

  /** [begin, end) is split at pos around the element there. */
  ghost predicate SplitAt<T>(s: seq<T>, less: (T, T) -> bool, begin: int, end: int, pos: int) {
    && 0 <= begin <= pos < end <= |s|
    && (forall k :: begin <= k < pos ==> less(s[k], s[pos]))
    && (forall k :: pos < k < end ==> !less(s[k], s[pos]))
  }

  lemma SplitKept<T>(s: seq<T>, t: seq<T>, less: (T, T) -> bool, begin: int, end: int, pos: int, lo: int, hi: int)
    requires SplitAt(s, less, begin, end, pos) && Rearranged(s, t, lo, hi)
    requires (lo == begin && hi == pos) || (lo == pos + 1 && hi == end)
    ensures SplitAt(t, less, begin, end, pos)
  {
    forall k | begin <= k < end && k != pos
      ensures k < pos ==> less(t[k], t[pos])
      ensures pos < k ==> !less(t[k], t[pos])
    {
      if lo <= k < hi {
        var j := RearrangedOrigin(s, t, lo, hi, k);
      }
    }
  }

  /** With the left part sorted, everything up to the pivot is settled. */
  lemma SplitSettles<T(!new)>(s: seq<T>, less: (T, T) -> bool, begin: int, end: int, pos: int)
    requires StrictWeakOrder(less)
    requires SplitAt(s, less, begin, end, pos) && Sorted(s, less, begin, pos)
    ensures Settled(s, less, begin, pos + 1, end)
    ensures Floored(s, less, pos + 1, end)
    ensures Sorted(s, less, pos + 1, end) ==> Sorted(s, less, begin, end)
  {
    forall i, j | begin <= i < pos + 1 && i < j < end ensures !less(s[j], s[i]) {
      if i < pos && pos <= j {
        Asymmetric(less, s[i], s[pos]);
        if pos < j {
          assert NegTransAt(less, s[j], s[pos], s[i]);
        }
      }
    }
  }

  /** After a left partition around a pivot equal to the floor, the left part is settled as it stands. */
  lemma LeftPartSettled<T(!new)>(s: seq<T>, t: seq<T>, less: (T, T) -> bool, begin: int, end: int, pos: int)
    requires StrictWeakOrder(less)
    requires begin < end && Floored(s, less, begin, end) && !less(s[begin - 1], s[begin])
    requires PartitionedLeft(s, t, less, begin, end, pos)
    ensures Settled(t, less, begin, pos + 1, end)
    ensures Floored(t, less, pos + 1, end)
    ensures forall k :: pos < k < end ==> less(t[pos], t[k])
  {
    FlooredKept(s, t, less, begin, end, begin, end);
    var pivot := s[begin];
    forall i, j | begin <= i < pos + 1 && i < j < end ensures !less(t[j], t[i]) {
      if j <= pos {
        assert NegTransAt(less, t[j], t[begin - 1], pivot);
        assert NegTransAt(less, t[j], pivot, t[i]);
      } else {
        Asymmetric(less, pivot, t[j]);
        assert NegTransAt(less, t[j], pivot, t[i]);
      }
    }
    forall k | pos < k < end ensures !less(t[k], t[pos]) {
      Asymmetric(less, pivot, t[k]);
    }
  }

  lemma SettledJoin<T>(s: seq<T>, less: (T, T) -> bool, lo: int, mid: int, mid': int, hi: int)
    requires 0 <= lo <= mid <= mid' <= hi <= |s|
    requires Settled(s, less, lo, mid, hi) && Settled(s, less, mid, mid', hi)
    ensures Settled(s, less, lo, mid', hi)
  {
  }

  // ----- The loop -----

  /** A partition leaves less than an eighth of the range on one side. */
  predicate Unbalanced(begin: int, end: int, pos: int) {
    pos - begin < (end - begin) / 8 || end - (pos + 1) < (end - begin) / 8
  }

  ghost predicate BothSorted<T>(s: seq<T>, less: (T, T) -> bool, begin: int, end: int, pos: int) {
    0 <= begin <= pos < end <= |s| && Sorted(s, less, begin, pos) && Sorted(s, less, pos + 1, end)
  }

  /** Few enough elements are out of order on both sides for the optimistic insertion sort. */
  ghost predicate Tidy<T>(s: seq<T>, less: (T, T) -> bool, begin: int, end: int, pos: int) {
    && 0 <= begin <= pos < end <= |s|
    && Inversions(s[begin..pos], less) <= PARTIAL_INSERTION_SORT_LIMIT
    && Inversions(s[pos + 1..end], less) <= PARTIAL_INSERTION_SORT_LIMIT
  }

  lemma SortedIsTidy<T>(s: seq<T>, less: (T, T) -> bool, begin: int, end: int, pos: int)
    requires BothSorted(s, less, begin, end, pos)
    ensures Tidy(s, less, begin, end, pos)
  {
    SortedNoInversions(s, less, begin, pos);
    SortedNoInversions(s, less, pos + 1, end);
  }

  /** What follows a right partition: heap sort when the budget is used up, shuffling when the partition was bad,
      an optimistic insertion sort when the range looked sorted. */
  method Rebalance<T(!new)>(a: array<T>, less: (T, T) -> bool, begin: nat, end: nat, pos: nat, already: bool,
                            badAllowed: nat)
    returns (done: bool, badLeft: nat, ghost comparisons: nat)
    requires StrictWeakOrder(less)
    requires end <= a.Length && SplitAt(a[..], less, begin, end, pos) && badAllowed >= 1
    modifies a
    ensures Unbalanced(begin, end, pos) ==> done == (badAllowed == 1)
    ensures Unbalanced(begin, end, pos) && !done ==>
      a[..] == ShuffledRight(ShuffledLeft(old(a[..]), begin, pos), pos, end)
    ensures !Unbalanced(begin, end, pos) && !already ==> !done && a[..] == old(a[..])
    ensures Rearranged(old(a[..]), a[..], begin, end)
    ensures badLeft == if Unbalanced(begin, end, pos) then badAllowed - 1 else badAllowed
    ensures done ==> Sorted(a[..], less, begin, end)
    ensures !done ==> badLeft >= 1 && SplitAt(a[..], less, begin, end, pos)
    ensures !Unbalanced(begin, end, pos) && already ==> done == Tidy(old(a[..]), less, begin, end, pos)
    ensures comparisons <= if Unbalanced(begin, end, pos) || !already then 0 else 2 * (end - begin) + 16
  {
    hide Rearranged, StrictWeakOrder, Sorted, Unbalanced, SplitAt, ShuffledLeft, ShuffledRight, Tidy;
    SplitBounds(a[..], less, begin, end, pos);
    badLeft, comparisons := badAllowed, 0;
    done := false;
    if Unbalanced(begin, end, pos) {
      badLeft := badLeft - 1;
      if badLeft == 0 {
        HeapSort(a, less, begin, end);
        return true, badLeft, comparisons;
      }
      Shuffle(a, less, begin, end, pos);
    } else if already {
      done, comparisons := TryInsertion(a, less, begin, end, pos);
    } else {
      RearrangedRefl(a[..], begin, end);
    }
  }

  lemma SplitBounds<T>(s: seq<T>, less: (T, T) -> bool, begin: int, end: int, pos: int)
    requires SplitAt(s, less, begin, end, pos)
    ensures 0 <= begin <= pos < end <= |s|
  {
  }

  method Shuffle<T>(a: array<T>, ghost less: (T, T) -> bool, begin: nat, end: nat, pos: nat)
    requires begin <= pos < end <= a.Length && SplitAt(a[..], less, begin, end, pos)
    modifies a
    ensures Rearranged(old(a[..]), a[..], begin, end) && SplitAt(a[..], less, begin, end, pos)
    ensures a[..] == ShuffledRight(ShuffledLeft(old(a[..]), begin, pos), pos, end)
  {
    hide Rearranged, SplitAt, ShuffledLeft, ShuffledRight;
    ghost var s := a[..];
    ShuffleLeft(a, begin, pos);
    SplitKept(s, a[..], less, begin, end, pos, begin, pos);
    RearrangedWiden(s, a[..], begin, pos, begin, end);
    ghost var t := a[..];
    ShuffleRight(a, pos, end);
    SplitKept(t, a[..], less, begin, end, pos, pos + 1, end);
    RearrangedThen(s, t, a[..], pos + 1, end, begin, end);
  }

  method TryInsertion<T(!new)>(a: array<T>, less: (T, T) -> bool, begin: nat, end: nat, pos: nat)
    returns (done: bool, ghost comparisons: nat)
    requires StrictWeakOrder(less)
    requires begin <= pos < end <= a.Length && SplitAt(a[..], less, begin, end, pos)
    modifies a
    ensures comparisons <= 2 * (end - begin) + 16
    ensures Rearranged(old(a[..]), a[..], begin, end) && SplitAt(a[..], less, begin, end, pos)
    ensures done ==> Sorted(a[..], less, begin, end)
    ensures done <==> Tidy(old(a[..]), less, begin, end, pos)
  {
    hide Rearranged, SplitAt, StrictWeakOrder, Sorted, Inversions;
    ghost var s := a[..];
    done, comparisons := PartialInsertionSort(a, less, begin, pos);
    SliceKept(s, a[..], begin, pos, pos + 1, end);
    SplitKept(s, a[..], less, begin, end, pos, begin, pos);
    RearrangedWiden(s, a[..], begin, pos, begin, end);
    if done {
      ghost var t, more := a[..], 0;
      done, more := PartialInsertionSort(a, less, pos + 1, end);
      comparisons := comparisons + more;
      SplitKept(t, a[..], less, begin, end, pos, pos + 1, end);
      RearrangedThen(s, t, a[..], pos + 1, end, begin, end);
      SortedKept(t, a[..], less, begin, pos, pos + 1, end);
      SplitSettles(a[..], less, begin, end, pos);
    }
  }

  lemma SliceKept<T>(s: seq<T>, t: seq<T>, begin: int, pos: int, lo: int, hi: int)
    requires Rearranged(s, t, begin, pos) && pos <= lo <= hi <= |s|
    ensures s[lo..hi] == t[lo..hi]
  {
  }

  lemma SortedKept<T>(s: seq<T>, t: seq<T>, less: (T, T) -> bool, begin: int, pos: int, lo: int, hi: int)
    requires 0 <= begin <= pos <= lo && Rearranged(s, t, lo, hi) && Sorted(s, less, begin, pos)
    ensures Sorted(t, less, begin, pos)
  {
  }

  /** No element of the range equals the one before it, so that the next partition is a right one. */
  ghost predicate StrictlyFloored<T>(s: seq<T>, less: (T, T) -> bool, begin: int, end: int, leftmost: bool) {
    leftmost || (0 < begin <= end <= |s| && forall k :: begin <= k < end ==> less(s[begin - 1], s[k]))
  }

  lemma StrictlyFlooredKept<T>(s: seq<T>, t: seq<T>, less: (T, T) -> bool, begin: int, end: int, end': int,
                               leftmost: bool)
    requires Rearranged(s, t, begin, end) && begin <= end' <= end
    requires StrictlyFloored(s, less, begin, end, leftmost)
    ensures StrictlyFloored(t, less, begin, end', leftmost)
  {
    forall k | begin <= k < end' && !leftmost ensures less(t[begin - 1], t[k]) {
      var j := RearrangedOrigin(s, t, begin, end, k);
    }
  }

  lemma FromPartition<T>(s: seq<T>, t: seq<T>, less: (T, T) -> bool, begin: int, end: int, pos: int, already: bool)
    requires PartitionedRight(s, t, less, begin, end, pos, already)
    ensures Rearranged(s, t, begin, end) && SplitAt(t, less, begin, end, pos)
  {
  }

  /** The state between rounds: [lo, begin) is settled within [lo, end) and the rest is bounded by what precedes it. */
  ghost predicate Between<T>(s: seq<T>, less: (T, T) -> bool, lo: int, begin: int, end: int, leftmost: bool) {
    && 0 <= lo <= begin <= end <= |s|
    && Settled(s, less, lo, begin, end)
    && (!leftmost ==> Floored(s, less, begin, end))
  }

  /** The branch for a pivot equal to the element before the range. */
  method LeftRound<T(!new)>(a: array<T>, less: (T, T) -> bool, begin: nat, end: nat)
    returns (next: nat, ghost comparisons: nat)
    requires StrictWeakOrder(less)
    requires begin < end <= a.Length && Floored(a[..], less, begin, end) && !less(a[begin - 1], a[begin])
    modifies a
    ensures Rearranged(old(a[..]), a[..], begin, end)
    ensures begin < next <= end && Between(a[..], less, begin, next, end, false)
    ensures StrictlyFloored(a[..], less, next, end, false) && comparisons <= end - begin + 1
    ensures AllEquivalent(old(a[..]), less, begin, end) ==> next == end
  {
    hide Rearranged, Count;
    ghost var s := a[..];
    if AllEquivalent(s, less, begin, end) {
      CountSplit(s[begin + 1..end], 0, less, s[begin], true);
    }
    var pos;
    pos, comparisons := PartitionLeft(a, less, begin, end);
    LeftPartSettled(s, a[..], less, begin, end, pos);
    next := pos + 1;
  }

  /** What a round may cost: its own partition, the left part, and what it leaves to the next rounds. settled is the
      number of elements that are in place afterwards, and extra the comparisons the caller adds. */
  ghost predicate Affordable(cost: Cost, size: nat, badAllowed: nat, badLeft: nat, settled: nat, extra: nat) {
    && cost.depth <= badAllowed + Shrinks(size)
    && badAllowed - badLeft <= cost.bad <= badAllowed
    && cost.comparisons + extra <= 5 * cost.work + 12 * settled
  }

  lemma RightPays(begin: nat, end: nat, pos: nat, bad: nat, bad': nat, strict: bool)
    requires begin + INSERTION_SORT_THRESHOLD <= end && begin <= pos < end && 1 <= bad
    requires bad' == if Unbalanced(begin, end, pos) then bad - 1 else bad
    ensures bad' + Shrinks(pos - begin) + 1 <= bad + Shrinks(end - begin)
    ensures end - begin + Allowance(pos - begin, bad', strict) + Allowance(end - (pos + 1), bad', false)
         <= Allowance(end - begin, bad, strict)
  {
    hide Shrinks, Allowance;
    SplitLevels(end - begin, bad, pos - begin, end - (pos + 1), bad');
    SplitPays(end - begin, bad, pos - begin, end - (pos + 1), bad', strict);
  }

  /** A right partition of the whole range with its rebalancing, and then the left part. */
  lemma RightAffordable(size: nat, badAllowed: nat, badLeft: nat, comparisons: nat, part: nat, left: Cost)
    requires INSERTION_SORT_THRESHOLD <= size && badLeft <= badAllowed && comparisons <= 3 * size + 17
    requires left.depth <= badLeft + Shrinks(part) && badLeft + Shrinks(part) + 1 <= badAllowed + Shrinks(size)
    requires left.bad <= badLeft && left.comparisons <= 5 * left.work + 12 * part
    ensures Affordable(
      Cost(left.depth + 1, size + left.work, badAllowed - badLeft + left.bad, comparisons + left.comparisons),
      size, badAllowed, badLeft, part + 1, 13)
  {
    hide Shrinks;
  }

  lemma DoneAffordable(size: nat, badAllowed: nat, badLeft: nat, comparisons: nat)
    requires INSERTION_SORT_THRESHOLD <= size && badLeft <= badAllowed && comparisons <= 3 * size + 17
    ensures Affordable(Cost(0, 2 * size, badAllowed - badLeft, comparisons), size, badAllowed, badLeft, size, 13)
  {
    hide Shrinks;
  }

  /** An ascending range with its pivot moved from the middle to the front. */
  ghost predicate PivotMoved<T>(s: seq<T>, less: (T, T) -> bool, begin: int, end: int) {
    0 <= begin < end <= |s| && Ascending(Swapped(s, begin, Middle(begin, end)), less, begin, end)
  }

  lemma PivotIsMoved<T>(s: seq<T>, less: (T, T) -> bool, begin: int, end: int)
    requires begin < end && Ascending(s, less, begin, end)
    ensures PivotMoved(Swapped(s, begin, Middle(begin, end)), less, begin, end)
  {
    var mid := Middle(begin, end);
    assert Swapped(Swapped(s, begin, mid), begin, mid) == s;
  }

  /** The partition finds such a range already split and moves the pivot back. */
  lemma PivotReturns<T(!new)>(s: seq<T>, t: seq<T>, less: (T, T) -> bool, begin: int, end: int, pos: int, already: bool)
    requires StrictWeakOrder(less) && PivotMoved(s, less, begin, end)
    requires PartitionedRight(s, t, less, begin, end, pos, already) && (already ==> t == Swapped(s, begin, pos))
    ensures already && pos == Middle(begin, end) && BothSorted(t, less, begin, end, pos)
  {
    hide Rearranged, Count, StrictWeakOrder;
    var mid, p := Middle(begin, end), s[begin];
    var u, asc := s[begin + 1..end], Swapped(s, begin, mid);
    forall k | 0 <= k < |u| ensures less(u[k], p) == (k < mid - begin) {
      var j := begin + 1 + k;
      assert s[j] == asc[if j == mid then begin else j] && p == asc[mid];
      if j > mid {
        Asymmetric(less, asc[mid], asc[j]);
      }
    }
    CountSplit(u, mid - begin, less, p, false);
    SortedParts(asc, less, begin, end, mid);
  }

  lemma SortedParts<T(!new)>(s: seq<T>, less: (T, T) -> bool, begin: int, end: int, pos: int)
    requires StrictWeakOrder(less) && Ascending(s, less, begin, end) && begin <= pos < end
    ensures BothSorted(s, less, begin, end, pos)
  {
    hide StrictWeakOrder;
    forall i, j | begin <= i < j < end ensures !less(s[j], s[i]) {
      Asymmetric(less, s[i], s[j]);
    }
  }

  lemma MiddleBalanced(begin: int, end: int)
    requires begin + INSERTION_SORT_THRESHOLD <= end
    ensures !Unbalanced(begin, end, Middle(begin, end))
  {
  }

  /** Among equivalent elements the pivot stays in front, which is an unbalanced partition. */
  lemma NoneSmaller<T>(s: seq<T>, t: seq<T>, less: (T, T) -> bool, begin: int, end: int, pos: int, already: bool)
    requires AllEquivalent(s, less, begin, end) && begin + INSERTION_SORT_THRESHOLD <= end
    requires PartitionedRight(s, t, less, begin, end, pos, already)
    ensures pos == begin && Unbalanced(begin, end, pos)
  {
    hide Rearranged, Count;
    CountSplit(s[begin + 1..end], 0, less, s[begin], false);
  }

  /** What an ascending range costs. */
  ghost predicate Cheap(cost: Cost, size: nat, extra: nat) {
    cost.depth == 0 && cost.bad == 0 && cost.comparisons + extra <= 3 * size + 30
  }

  /** One round of the loop on a range that is too long for insertion sort. */
  method Round<T(!new)>(a: array<T>, less: (T, T) -> bool, begin: nat, end: nat, badAllowed: nat, leftmost: bool,
                        branchless: bool)
    returns (done: bool, next: nat, badLeft: nat, ghost cost: Cost)
    requires StrictWeakOrder(less)
    requires begin + INSERTION_SORT_THRESHOLD <= end <= a.Length && badAllowed >= 1
    requires !leftmost ==> Floored(a[..], less, begin, end)
    modifies a
    ensures Rearranged(old(a[..]), a[..], begin, end)
    ensures done ==> Sorted(a[..], less, begin, end)
    ensures !done ==> begin < next <= end && 1 <= badLeft <= badAllowed && Between(a[..], less, begin, next, end, false)
    ensures Affordable(cost, end - begin, badAllowed, badLeft, if done then end - begin else next - begin, 0)
    ensures cost.work
          + (if done then 0 else Allowance(end - next, badLeft, StrictlyFloored(a[..], less, next, end, false)))
         <= Allowance(end - begin, badAllowed, StrictlyFloored(old(a[..]), less, begin, end, leftmost))
    ensures leftmost && Ascending(old(a[..]), less, begin, end) ==> done && Cheap(cost, end - begin, 0)
    ensures leftmost && AllEquivalent(old(a[..]), less, begin, end) && badAllowed >= 2 ==>
      !done && next == begin + 1 && cost.comparisons <= end - begin + 14
    ensures !leftmost && AllEquivalent(old(a[..]), less, begin - 1, end) ==>
      !done && next == end && cost.comparisons <= end - begin + 14
    decreases end - begin, 0
  {
    hide Rearranged, StrictWeakOrder, Sorted, Allowance, Shrinks, HasUpper, Between, Floored, Ascending, Swapped;
    hide PivotMoved, AllEquivalent, Median, Ninther;
    ghost var s := a[..];
    ghost var strict := StrictlyFloored(s, less, begin, end, leftmost);
    ghost var comparisons := ChoosePivot(a, less, begin, end);
    comparisons := comparisons + (if leftmost then 0 else 1);
    ghost var t := a[..];
    PivotKeeps(s, t, less, begin, end, leftmost);
    if Ascending(s, less, begin, end) {
      PivotIsMoved(s, less, begin, end);
    }
    PivotStaysEquivalent(s, t, less, begin, end, leftmost);
    if !leftmost && !less(a[begin - 1], a[begin]) {
      ghost var more;
      next, more := LeftRound(a, less, begin, end);
      RearrangedTrans(s, t, a[..], begin, end);
      LeftPartitionPays(end - begin, badAllowed, end - next);
      done, badLeft, cost := false, badAllowed, Cost(0, end - begin, 0, comparisons + more);
    } else {
      done, next, badLeft, cost := RightRound(a, less, begin, end, badAllowed, leftmost, branchless);
      RearrangedTrans(s, t, a[..], begin, end);
      cost := cost.(comparisons := cost.comparisons + comparisons);
    }
  }

  lemma PivotStaysEquivalent<T>(s: seq<T>, t: seq<T>, less: (T, T) -> bool, begin: int, end: int, leftmost: bool)
    requires Rearranged(s, t, begin, end) && begin < end
    ensures leftmost && AllEquivalent(s, less, begin, end) ==> AllEquivalent(t, less, begin, end)
    ensures !leftmost && AllEquivalent(s, less, begin - 1, end) ==>
      AllEquivalent(t, less, begin, end) && !less(t[begin - 1], t[begin])
  {
    hide Rearranged;
    if leftmost && AllEquivalent(s, less, begin, end) {
      AllEquivalentKept(s, t, less, begin, end, begin, end);
    } else if !leftmost && AllEquivalent(s, less, begin - 1, end) {
      AllEquivalentKept(s, t, less, begin - 1, end, begin, end);
    }
  }

  lemma PivotKeeps<T>(s: seq<T>, t: seq<T>, less: (T, T) -> bool, begin: int, end: int, leftmost: bool)
    requires Rearranged(s, t, begin, end)
    requires !leftmost ==> Floored(s, less, begin, end)
    ensures !leftmost ==> Floored(t, less, begin, end)
    ensures !leftmost ==> begin > 0
    ensures StrictlyFloored(s, less, begin, end, leftmost) == StrictlyFloored(t, less, begin, end, leftmost)
  {
    if !leftmost {
      FlooredKept(s, t, less, begin, end, begin, end);
    }
    if StrictlyFloored(s, less, begin, end, leftmost) {
      StrictlyFlooredKept(s, t, less, begin, end, end, leftmost);
    }
    if StrictlyFloored(t, less, begin, end, leftmost) {
      StrictlyFlooredKept(t, s, less, begin, end, end, leftmost);
    }
  }

  /** A right partition and what follows it. */
  method SplitRange<T(!new)>(a: array<T>, less: (T, T) -> bool, begin: nat, end: nat, badAllowed: nat, branchless: bool)
    returns (done: bool, pos: nat, badLeft: nat, ghost comparisons: nat)
    requires StrictWeakOrder(less)
    requires begin + INSERTION_SORT_THRESHOLD <= end <= a.Length && badAllowed >= 1
    requires HasUpper(a[..], less, begin, end)
    modifies a
    ensures Rearranged(old(a[..]), a[..], begin, end)
    ensures done ==> Sorted(a[..], less, begin, end)
    ensures !done ==> badLeft >= 1 && SplitAt(a[..], less, begin, end, pos)
    ensures badLeft == if Unbalanced(begin, end, pos) then badAllowed - 1 else badAllowed
    ensures PivotMoved(old(a[..]), less, begin, end) ==> done && badLeft == badAllowed
    ensures AllEquivalent(old(a[..]), less, begin, end) && badAllowed >= 2 ==>
      !done && pos == begin && comparisons <= end - begin + 1
    ensures comparisons <= 3 * (end - begin) + 17
  {
    hide Rearranged, StrictWeakOrder, Sorted, Unbalanced, HasUpper, PartitionedRight, SplitAt, ShuffledLeft;
    hide ShuffledRight, PivotMoved, BothSorted, Swapped, AllEquivalent, Tidy;
    ghost var s := a[..];
    var already;
    pos, already, comparisons := PartitionAny(a, less, begin, end, branchless);
    FromPartition(s, a[..], less, begin, end, pos, already);
    if PivotMoved(s, less, begin, end) {
      PivotReturns(s, a[..], less, begin, end, pos, already);
      SortedIsTidy(a[..], less, begin, end, pos);
      MiddleBalanced(begin, end);
    }
    if AllEquivalent(s, less, begin, end) {
      NoneSmaller(s, a[..], less, begin, end, pos, already);
    }
    ghost var t, more := a[..], 0;
    done, badLeft, more := Rebalance(a, less, begin, end, pos, already, badAllowed);
    RearrangedTrans(s, t, a[..], begin, end);
    comparisons := comparisons + more;
  }

  /** The branch that partitions to the right and sorts the left part by recursion. */
  method RightRound<T(!new)>(a: array<T>, less: (T, T) -> bool, begin: nat, end: nat, badAllowed: nat, leftmost: bool,
                             branchless: bool)
    returns (done: bool, next: nat, badLeft: nat, ghost cost: Cost)
    requires StrictWeakOrder(less)
    requires begin + INSERTION_SORT_THRESHOLD <= end <= a.Length && badAllowed >= 1
    requires !leftmost ==> Floored(a[..], less, begin, end)
    requires HasUpper(a[..], less, begin, end)
    modifies a
    ensures Rearranged(old(a[..]), a[..], begin, end)
    ensures done ==> Sorted(a[..], less, begin, end)
    ensures !done ==> begin < next <= end && 1 <= badLeft <= badAllowed && Between(a[..], less, begin, next, end, false)
    ensures Affordable(cost, end - begin, badAllowed, badLeft, if done then end - begin else next - begin, 13)
    ensures cost.work
          + (if done then 0 else Allowance(end - next, badLeft, StrictlyFloored(a[..], less, next, end, false)))
         <= Allowance(end - begin, badAllowed, StrictlyFloored(old(a[..]), less, begin, end, leftmost))
    ensures PivotMoved(old(a[..]), less, begin, end) ==> done && Cheap(cost, end - begin, 13)
    ensures AllEquivalent(old(a[..]), less, begin, end) && badAllowed >= 2 ==>
      !done && next == begin + 1 && cost.comparisons <= end - begin + 1
    decreases end - begin, 0, 0
  {
    hide Rearranged, StrictWeakOrder, Sorted, Allowance, Shrinks, Affordable, Unbalanced;
    hide HasUpper, SplitAt, Between, Floored, StrictlyFloored, PivotMoved, AllEquivalent;
    ghost var s := a[..];
    ghost var strict := StrictlyFloored(s, less, begin, end, leftmost);
    var pos;
    ghost var comparisons;
    done, pos, badLeft, comparisons := SplitRange(a, less, begin, end, badAllowed, branchless);
    next := begin;
    if done {
      // At worst the range was partitioned and then heap sorted.
      cost := Cost(0, 2 * (end - begin), badAllowed - badLeft, comparisons);
      DoneAffordable(end - begin, badAllowed, badLeft, comparisons);
      HeapSortPays(end - begin, badAllowed, strict);
    } else {
      ghost var t := a[..];
      SplitBounds(t, less, begin, end, pos);
      LeftReady(s, t, less, begin, end, pos, leftmost, badLeft);
      RightPays(begin, end, pos, badAllowed, badLeft, strict);
      ghost var left := PdqSortLoop(a, less, begin, pos, badLeft, leftmost, branchless);
      NoAllowance(badLeft);
      LeftSorted(s, t, a[..], less, begin, end, pos);
      RightAffordable(end - begin, badAllowed, badLeft, comparisons, pos - begin, left);
      cost := Cost(left.depth + 1, end - begin + left.work, badAllowed - badLeft + left.bad,
                   comparisons + left.comparisons);
      next := pos + 1;
      AllowanceWeaken(end - next, badLeft, StrictlyFloored(a[..], less, next, end, false));
      assert cost.work + Allowance(end - next, badLeft, false) <= Allowance(end - begin, badAllowed, strict);
    }
  }

  lemma NoAllowance(bad: nat)
    ensures Allowance(0, bad, true) == Allowance(0, bad, false) == 0
  {
  }

  lemma AllowanceWeaken(n: nat, bad: nat, strict: bool)
    ensures Allowance(n, bad, strict) <= Allowance(n, bad, false)
  {
  }

  /** The left part inherits the bound of the whole range. */
  lemma LeftReady<T>(s: seq<T>, t: seq<T>, less: (T, T) -> bool, begin: int, end: int, pos: int, leftmost: bool,
                     bad: nat)
    requires Rearranged(s, t, begin, end) && begin <= pos < end
    requires !leftmost ==> Floored(s, less, begin, end)
    ensures !leftmost ==> Floored(t, less, begin, pos)
    ensures StrictlyFloored(s, less, begin, end, leftmost) ==> StrictlyFloored(t, less, begin, pos, leftmost)
    ensures Allowance(pos - begin, bad, StrictlyFloored(t, less, begin, pos, leftmost))
         <= Allowance(pos - begin, bad, StrictlyFloored(s, less, begin, end, leftmost))
  {
    if !leftmost {
      FlooredKept(s, t, less, begin, end, begin, end);
      FlooredPrefix(t, less, begin, pos, end);
    }
    if StrictlyFloored(s, less, begin, end, leftmost) {
      StrictlyFlooredKept(s, t, less, begin, end, pos, leftmost);
    }
  }

  lemma LeftSorted<T(!new)>(s: seq<T>, t: seq<T>, u: seq<T>, less: (T, T) -> bool, begin: int, end: int, pos: int)
    requires StrictWeakOrder(less)
    requires Rearranged(s, t, begin, end) && SplitAt(t, less, begin, end, pos)
    requires Rearranged(t, u, begin, pos) && Sorted(u, less, begin, pos)
    ensures Rearranged(s, u, begin, end) && Between(u, less, begin, pos + 1, end, false)
  {
    RearrangedThen(s, t, u, begin, pos, begin, end);
    SplitKept(t, u, less, begin, end, pos, begin, pos);
    SplitSettles(u, less, begin, end, pos);
  }

  /** At most twelve comparisons for each element, no recursion and no unbalanced partition. */
  ghost predicate Linear(cost: Cost, size: nat) {
    cost.depth == 0 && cost.bad == 0 && cost.comparisons <= 12 * size
  }

  /** One unbalanced partition does not lead to heap sort. */
  predicate Spare(badAllowed: nat, size: nat) {
    badAllowed >= 2 || size < INSERTION_SORT_THRESHOLD
  }

  /** Between the rounds on equivalent elements: none, one or all of them are in place. */
  ghost predicate Equal(settled: int, size: nat, cost: Cost, leftmost: bool) {
    || (settled == 0 && leftmost && cost.comparisons == 0)
    || (settled == 1 && size >= INSERTION_SORT_THRESHOLD && !leftmost && cost.comparisons <= size + 14)
    || (settled == size >= INSERTION_SORT_THRESHOLD && cost.comparisons <= 2 * size + 28)
  }

  /** Sorts [begin0, end) within the budget: no element goes through more unbalanced partitions than are allowed, and
      there are at most five comparisons for every element of a partitioned range and twelve for every element in the
      end. */
  method PdqSortLoop<T(!new)>(a: array<T>, less: (T, T) -> bool, begin0: nat, end: nat, badAllowed0: nat,
                              leftmost0: bool, branchless: bool) returns (ghost cost: Cost)
    requires StrictWeakOrder(less)
    requires begin0 <= end <= a.Length
    requires !leftmost0 ==> Floored(a[..], less, begin0, end)
    requires badAllowed0 >= 1 || end - begin0 < INSERTION_SORT_THRESHOLD
    modifies a
    ensures Rearranged(old(a[..]), a[..], begin0, end)
    ensures Sorted(a[..], less, begin0, end)
    ensures cost.depth <= badAllowed0 + Shrinks(end - begin0)
    ensures cost.bad <= badAllowed0
    ensures cost.work <= Allowance(end - begin0, badAllowed0, StrictlyFloored(old(a[..]), less, begin0, end, leftmost0))
    ensures cost.comparisons <= 5 * cost.work + 12 * (end - begin0)
    ensures leftmost0 && Ascending(old(a[..]), less, begin0, end) ==> Linear(cost, end - begin0)
    ensures leftmost0 && AllEquivalent(old(a[..]), less, begin0, end) && Spare(badAllowed0, end - begin0) ==>
      cost.comparisons <= 14 * (end - begin0)
    decreases end - begin0, 1
  {
    hide Rearranged, StrictWeakOrder, Sorted, Settled, Allowance, Shrinks, Floored, StrictlyFloored, Ascending;
    hide AllEquivalent;
    ghost var same := leftmost0 && AllEquivalent(a[..], less, begin0, end) && Spare(badAllowed0, end - begin0);
    ghost var easy := leftmost0 && Ascending(a[..], less, begin0, end);
    var begin, badAllowed, leftmost := begin0, badAllowed0, leftmost0;
    ghost var s := a[..];
    ghost var allowance := Allowance(end - begin0, badAllowed0, StrictlyFloored(s, less, begin0, end, leftmost0));
    cost := Cost(0, 0, 0, 0);
    LoopStart(s, less, begin0, end);
    while end - begin >= INSERTION_SORT_THRESHOLD
      invariant begin0 <= begin <= end
      invariant 0 <= badAllowed <= badAllowed0 && (badAllowed >= 1 || end - begin < INSERTION_SORT_THRESHOLD)
      invariant Rearranged(s, a[..], begin0, end)
      invariant Between(a[..], less, begin0, begin, end, leftmost)
      invariant cost.depth <= badAllowed0 + Shrinks(end - begin0)
      invariant badAllowed0 - badAllowed <= cost.bad <= badAllowed0
      invariant cost.work + Allowance(end - begin, badAllowed,
                                      StrictlyFloored(a[..], less, begin, end, leftmost)) <= allowance
      invariant cost.comparisons <= 5 * cost.work + 12 * (begin - begin0)
      invariant easy ==> begin == begin0 && leftmost && a[..] == s && cost == Cost(0, 0, 0, 0)
      invariant same ==> AllEquivalent(a[..], less, begin0, end) && Equal(begin - begin0, end - begin0, cost, leftmost)
      invariant begin == begin0 ==> badAllowed == badAllowed0
      decreases end - begin
    {
      ghost var t := a[..];
      var done, next, badLeft;
      ghost var round;
      done, next, badLeft, round := Round(a, less, begin, end, badAllowed, leftmost, branchless);
      ShrinksMonotone(end - begin, end - begin0);
      cost := Cost(Larger(cost.depth, round.depth), cost.work + round.work,
                   Larger(cost.bad, badAllowed0 - badAllowed + round.bad), cost.comparisons + round.comparisons);
      RearrangedThen(s, t, a[..], begin, end, begin0, end);
      if same {
        AllEquivalentKept(t, a[..], less, begin0, end, begin, end);
      }
      if done {
        BetweenSorted(t, a[..], less, begin0, begin, end, leftmost);
        return;
      }
      BetweenNext(t, a[..], less, begin0, begin, next, end, leftmost);
      begin, badAllowed, leftmost := next, badLeft, false;
    }
    ghost var t, more := a[..], 0;
    if leftmost {
      more := InsertionSort(a, less, begin, end);
    } else {
      more := UnguardedInsertionSort(a, less, begin, end);
    }
    ShortSort(end - begin);
    cost := cost.(comparisons := cost.comparisons + more);
    RearrangedThen(s, t, a[..], begin, end, begin0, end);
    BetweenSorted(t, a[..], less, begin0, begin, end, leftmost);
  }

  function Larger(x: nat, y: nat): nat {
    if x < y then y else x
  }

  lemma LoopStart<T>(s: seq<T>, less: (T, T) -> bool, begin: int, end: int)
    requires 0 <= begin <= end <= |s|
    ensures Rearranged(s, s, begin, end) && Settled(s, less, begin, begin, end)
  {
  }

  /** Sorting the rest of a settled range sorts it all. */
  lemma BetweenSorted<T>(s: seq<T>, t: seq<T>, less: (T, T) -> bool, lo: int, begin: int, end: int, leftmost: bool)
    requires Between(s, less, lo, begin, end, leftmost)
    requires Rearranged(s, t, begin, end) && Sorted(t, less, begin, end)
    ensures Sorted(t, less, lo, end)
  {
    SettledKept(s, t, less, lo, begin, end);
  }

  lemma BetweenNext<T>(s: seq<T>, t: seq<T>, less: (T, T) -> bool, lo: int, begin: int, next: int, end: int,
                       leftmost: bool)
    requires Between(s, less, lo, begin, end, leftmost)
    requires Rearranged(s, t, begin, end) && Between(t, less, begin, next, end, false)
    ensures Between(t, less, lo, next, end, false)
  {
    SettledKept(s, t, less, lo, begin, end);
    SettledJoin(t, less, lo, begin, next, end);
  }

  /** pdqsort and pdqsort_branchless: any array, any strict weak order. */
  method Pdqsort<T(!new)>(a: array<T>, less: (T, T) -> bool, begin: nat, end: nat, branchless: bool)
    returns (ghost cost: Cost)
    requires StrictWeakOrder(less)
    requires begin <= end <= a.Length
    modifies a
    ensures Rearranged(old(a[..]), a[..], begin, end)
    ensures Sorted(a[..], less, begin, end)
    ensures Ascending(old(a[..]), less, begin, end) ==> Linear(cost, end - begin)
    ensures AllEquivalent(old(a[..]), less, begin, end) ==> cost.comparisons <= 14 * (end - begin)
    ensures begin < end ==> cost.depth <= 7 * FloorLog2(end - begin) && cost.bad <= FloorLog2(end - begin)
    ensures begin < end ==> cost.work <= 14 * Times(end - begin, FloorLog2(end - begin))
    ensures begin < end ==> cost.comparisons <= 70 * Times(end - begin, FloorLog2(end - begin)) + 12 * (end - begin)
  {
    hide Rearranged, Sorted, StrictWeakOrder, Ascending, AllEquivalent, Allowance, Shrinks, Times, FloorLog2;
    cost := Cost(0, 0, 0, 0);
    RearrangedRefl(a[..], begin, end);
    SortedShort(a[..], less, begin);
    if begin == end { return; }
    var log := Log2(end - begin);
    EnoughBudget(end - begin);
    TopAllowance(end - begin);
    cost := PdqSortLoop(a, less, begin, end, log, true, branchless);
  }

  lemma EnoughBudget(n: nat)
    requires n > 0
    ensures FloorLog2(n) >= 2 || n < INSERTION_SORT_THRESHOLD
  {
  }
}
