/** pdqsort_try_sort of contrib/pdqsort/pdqsort.h: a sort that may stop early, but never lies about it and
    never stops once it has committed itself. */
module PdqTrySort {
  import opened Order
  import opened InsertionSorts
  import opened Partition
  import opened PdqCost
  import opened PdqSort

  const TRY_SORT_ITERATIONS := 3
  const NUM_TO_TRY := 16

  /** size_t arithmetic wraps. */
  const SIZE_T := 0x1_0000_0000_0000_0000

  datatype Progress = GaveUp | Complete | Continue(next: nat, badLeft: nat)

  // ----- Why it stops -----

  /** A partition made while giving up is still allowed: its pivot, and whether the insertion sorts finished the
      range. */
  datatype Attempt<T> = Attempt(pivot: T, finished: bool)

  /** The first of the attempts on a range of the given size, and how it went on. The range holds the elements of s
      below the pivot before, so that all counts are counts in s. */
  ghost predicate Tried<T(!new)>(s: seq<T>, less: (T, T) -> bool, size: nat, iterations: nat, attempts: seq<Attempt<T>>,
                                 ok: bool)
    requires attempts != [] && iterations > 0
    decreases |attempts|, 0
  {
    var below := Count(s, less, attempts[0].pivot, false);
    && attempts[0].pivot in s && below < size
    && if below < size / 8 || size - 1 - below < size / 8 then |attempts| == 1 && !ok
       else if attempts[0].finished then |attempts| == 1 && ok
       else Explains(s, less, below, iterations - 1, attempts[1..], ok)
  }

  /** The attempts on a range of the given size and the result they lead to. */
  ghost predicate Explains<T(!new)>(s: seq<T>, less: (T, T) -> bool, size: nat, iterations: nat,
                                    attempts: seq<Attempt<T>>, ok: bool)
    decreases |attempts|, 1
  {
    if iterations == 0 then attempts == [] && !ok
    else if size < INSERTION_SORT_THRESHOLD then attempts == [] && ok
    else attempts != [] && Tried(s, less, size, iterations, attempts, ok)
  }

  /** The size of the range of attempt k. */
  ghost function SizeOf<T(!new)>(s: seq<T>, less: (T, T) -> bool, size: nat, attempts: seq<Attempt<T>>, k: nat): nat
    requires k <= |attempts|
  {
    if k == 0 then size else Count(s, less, attempts[k - 1].pivot, false)
  }

  /** Attempt k leaves less than an eighth of its range on one side of its pivot. */
  ghost predicate Lopsided<T(!new)>(s: seq<T>, less: (T, T) -> bool, size: nat, attempts: seq<Attempt<T>>, k: nat)
    requires k < |attempts|
  {
    var n, below := SizeOf(s, less, size, attempts, k), Count(s, less, attempts[k].pivot, false);
    below < n / 8 || n - 1 - below < n / 8
  }

  /** Giving up has one of two reasons: the last attempt was lopsided, or the attempts are used up. All attempts before
      the last one were neither lopsided nor enough. */
  lemma {:induction false} Reasons<T(!new)>(s: seq<T>, less: (T, T) -> bool, size: nat, iterations: nat,
                                            attempts: seq<Attempt<T>>, ok: bool)
    requires Explains(s, less, size, iterations, attempts, ok)
    ensures var last := |attempts| - 1;
      && |attempts| <= iterations
      && (forall k :: 0 <= k < last ==> !Lopsided(s, less, size, attempts, k) && !attempts[k].finished)
      && (!ok <==> || (last >= 0 && Lopsided(s, less, size, attempts, last))
                   || (|attempts| == iterations && (last >= 0 ==> !attempts[last].finished)))
    decreases |attempts|
  {
    hide Count;
    if attempts != [] {
      var rest, below := attempts[1..], Count(s, less, attempts[0].pivot, false);
      if !Lopsided(s, less, size, attempts, 0) && !attempts[0].finished {
        Reasons(s, less, below, iterations - 1, rest, ok);
        forall k | 1 <= k < |attempts|
          ensures Lopsided(s, less, size, attempts, k) == Lopsided(s, less, below, rest, k - 1)
        {
          assert attempts[k] == rest[k - 1] && (k > 1 ==> attempts[k - 1] == rest[k - 2]);
        }
        forall k | 1 <= k < |attempts| - 1 ensures !Lopsided(s, less, size, attempts, k) && !attempts[k].finished {
          assert attempts[k] == rest[k - 1];
        }
        if rest != [] {
          assert attempts[|attempts| - 1] == rest[|rest| - 1];
        }
      }
    }
  }

  /** Attempts on part of the elements are attempts on all of them, if the others do not change the counts. */
  lemma {:induction false} ExplainsMore<T(!new)>(t: seq<T>, s: seq<T>, less: (T, T) -> bool, size: nat, iterations: nat,
                                                 attempts: seq<Attempt<T>>, ok: bool)
    requires forall x | x in t :: x in s && Count(t, less, x, false) == Count(s, less, x, false)
    requires Explains(t, less, size, iterations, attempts, ok)
    ensures Explains(s, less, size, iterations, attempts, ok)
    decreases |attempts|
  {
    hide Count;
    if attempts != [] {
      var below := Count(t, less, attempts[0].pivot, false);
      if below < size && Explains(t, less, below, iterations - 1, attempts[1..], ok) {
        ExplainsMore(t, s, less, below, iterations - 1, attempts[1..], ok);
      }
    }
  }

  lemma TriedMore<T(!new)>(s: seq<T>, t: seq<T>, less: (T, T) -> bool, begin: int, end: int, iterations: nat,
                           attempts: seq<Attempt<T>>, ok: bool)
    requires Rearranged(s, t, begin, end) && iterations > 0 && attempts != []
    requires begin + INSERTION_SORT_THRESHOLD <= end
    requires Tried(t[begin..end], less, end - begin, iterations, attempts, ok)
    ensures Tried(s[begin..end], less, end - begin, iterations, attempts, ok)
  {
    hide Count;
    var s', t' := s[begin..end], t[begin..end];
    forall x | x in t' ensures x in s' && Count(t', less, x, false) == Count(s', less, x, false) {
      CountRearranged(s, t, begin, end, less, x, false);
      assert x in multiset(t') && x in multiset(s');
    }
    ExplainsMore(t', s', less, end - begin, iterations, attempts, ok);
  }

  /** The elements below the pivot are counted by its position. */
  lemma PivotCount<T(!new)>(s: seq<T>, t: seq<T>, less: (T, T) -> bool, begin: int, end: int, pos: int, already: bool)
    requires StrictWeakOrder(less) && 0 <= begin < end <= |s|
    requires PartitionedRight(s, t, less, begin, end, pos, already)
    ensures Count(s[begin..end], less, s[begin], false) == pos - begin && s[begin] in s[begin..end]
  {
    hide Count, Rearranged;
    var p, rest := s[begin], s[begin + 1..end];
    assert s[begin..end] == [p] + rest;
    CountConcat([p], rest, less, p, false);
    CountSplit([p], 0, less, p, false);
  }

  /** For an element of the left part, counting there is counting in the whole range. */
  lemma LeftCount<T(!new)>(s: seq<T>, t: seq<T>, less: (T, T) -> bool, begin: int, end: int, pos: int, x: T)
    requires StrictWeakOrder(less)
    requires Rearranged(s, t, begin, end) && SplitAt(t, less, begin, end, pos) && x in t[begin..pos]
    ensures x in s[begin..end] && Count(t[begin..pos], less, x, false) == Count(s[begin..end], less, x, false)
  {
    hide Count, Rearranged, StrictWeakOrder;
    CountRearranged(s, t, begin, end, less, x, false);
    var i: nat :| i < pos - begin && t[begin..pos][i] == x;
    assert t[begin + i] == x;
    var j := RearrangedOrigin(s, t, begin, end, begin + i);
    assert s[begin..end][j - begin] == x;
    var right := t[pos..end];
    assert t[begin..end] == t[begin..pos] + right;
    CountConcat(t[begin..pos], right, less, x, false);
    forall k | 0 <= k < |right| ensures !less(right[k], x) {
      RightNotBelow(t, less, begin, end, pos, begin + i, pos + k);
    }
    CountSplit(right, 0, less, x, false);
  }

  lemma RightNotBelow<T(!new)>(t: seq<T>, less: (T, T) -> bool, begin: int, end: int, pos: int, i: int, k: int)
    requires StrictWeakOrder(less)
    requires SplitAt(t, less, begin, end, pos) && begin <= i < pos <= k < end
    ensures !less(t[k], t[i])
  {
    assert TransAt(less, t[k], t[i], t[pos]);
  }

  /** The left part's attempts, after the first one. */
  lemma OneMoreAttempt<T(!new)>(s: seq<T>, t: seq<T>, less: (T, T) -> bool, begin: int, end: int, pos: int,
                                iterations: nat, attempts: seq<Attempt<T>>, ok: bool)
    requires StrictWeakOrder(less) && iterations > 0 && 0 <= begin < end <= |s|
    requires Rearranged(s, t, begin, end) && SplitAt(t, less, begin, end, pos) && !Unbalanced(begin, end, pos)
    requires s[begin] in s[begin..end] && Count(s[begin..end], less, s[begin], false) == pos - begin
    requires Explains(t[begin..pos], less, pos - begin, iterations - 1, attempts, ok)
    ensures Tried(s[begin..end], less, end - begin, iterations, [Attempt(s[begin], false)] + attempts, ok)
  {
    hide Count, Rearranged, StrictWeakOrder, SplitAt, Explains;
    SplitBounds(t, less, begin, end, pos);
    var s', t', all := s[begin..end], t[begin..pos], [Attempt(s[begin], false)] + attempts;
    forall x | x in t' ensures x in s' && Count(t', less, x, false) == Count(s', less, x, false) {
      LeftCount(s, t, less, begin, end, pos, x);
    }
    ExplainsMore(t', s', less, pos - begin, iterations - 1, attempts, ok);
    assert all[0] == Attempt(s[begin], false) && all[1..] == attempts;
  }

  // ----- The loop -----

  /** One round of the loop on a range that is too long for insertion sort. */
  method TryRound<T(!new)>(a: array<T>, less: (T, T) -> bool, begin: nat, end: nat, badAllowed: nat,
                           iterations: nat, force: bool, leftmost: bool, branchless: bool)
    returns (r: Progress, left: bool, ghost attempts: seq<Attempt<T>>)
    requires StrictWeakOrder(less)
    requires begin + INSERTION_SORT_THRESHOLD <= end <= a.Length && badAllowed >= 1 && iterations < SIZE_T
    requires !leftmost ==> Floored(a[..], less, begin, end)
    modifies a
    ensures Rearranged(old(a[..]), a[..], begin, end)
    ensures r.GaveUp? ==> !force
    ensures r.Complete? ==> Sorted(a[..], less, begin, end)
    ensures r.Continue? ==> begin < r.next <= end && r.badLeft >= 1 && Between(a[..], less, begin, r.next, end, false)
    ensures leftmost ==> !left
    ensures leftmost && !force && iterations > 0 ==>
      attempts != [] && Tried(old(a[begin..end]), less, end - begin, iterations, attempts, !r.GaveUp?)
    ensures leftmost && Ascending(old(a[..]), less, begin, end) ==> r.Complete?
    decreases end - begin, 0
  {
    hide Rearranged, StrictWeakOrder, Sorted, HasUpper, Between, Floored, Ascending, Swapped, PivotMoved, Tried;
    hide Unbalanced, Tidy, AlreadySplit, Count, Median, Ninther;
    ghost var s := a[..];
    ghost var _ := ChoosePivot(a, less, begin, end);
    ghost var t := a[..];
    PivotKeeps(s, t, less, begin, end, leftmost);
    if Ascending(s, less, begin, end) {
      PivotIsMoved(s, less, begin, end);
    }
    left := !leftmost && !less(a[begin - 1], a[begin]);
    if left {
      var next;
      ghost var comparisons;
      next, comparisons := LeftRound(a, less, begin, end);
      r, attempts := Continue(next, badAllowed), [];
    } else {
      r, attempts := TryRightRound(a, less, begin, end, badAllowed, iterations, force, leftmost, branchless);
      if leftmost && !force && iterations > 0 {
        TriedMore(s, t, less, begin, end, iterations, attempts, !r.GaveUp?);
      }
    }
    RearrangedTrans(s, t, a[..], begin, end);
  }

  method TryRightRound<T(!new)>(a: array<T>, less: (T, T) -> bool, begin: nat, end: nat, badAllowed: nat,
                                iterations: nat, force: bool, leftmost: bool, branchless: bool)
    returns (r: Progress, ghost attempts: seq<Attempt<T>>)
    requires StrictWeakOrder(less)
    requires begin + INSERTION_SORT_THRESHOLD <= end <= a.Length && badAllowed >= 1 && iterations < SIZE_T
    requires !leftmost ==> Floored(a[..], less, begin, end)
    requires HasUpper(a[..], less, begin, end)
    modifies a
    ensures Rearranged(old(a[..]), a[..], begin, end)
    ensures r.GaveUp? ==> !force
    ensures r.Complete? ==> Sorted(a[..], less, begin, end)
    ensures r.Continue? ==> begin < r.next <= end && r.badLeft >= 1 && Between(a[..], less, begin, r.next, end, false)
    ensures var s := old(a[..]);
      var pos := begin + Count(s[begin + 1..end], less, s[begin], false);
      && (Unbalanced(begin, end, pos) && !force ==> r.GaveUp?)
      && (r.Complete? <==> pos < end && if Unbalanced(begin, end, pos) then force && badAllowed == 1
          else AlreadySplit(s[begin + 1..end], less, s[begin]) && Tidy(Swapped(s, begin, pos), less, begin, end, pos))
    ensures leftmost && !force && iterations > 0 ==>
      attempts != [] && Tried(old(a[begin..end]), less, end - begin, iterations, attempts, !r.GaveUp?)
    ensures PivotMoved(old(a[..]), less, begin, end) ==> r.Complete?
    decreases end - begin, 0, 0
  {
    hide Rearranged, StrictWeakOrder, Sorted, HasUpper, PartitionedRight, SplitAt, Between, Floored, Unbalanced;
    hide BothSorted, ShuffledLeft, ShuffledRight, Swapped, Allowance, StrictlyFloored, Tidy, AlreadySplit, PivotMoved;
    hide Count, Tried, Explains;
    ghost var s := a[..];
    var pos, already;
    ghost var comparisons;
    pos, already, comparisons := PartitionAny(a, less, begin, end, branchless);
    FromPartition(s, a[..], less, begin, end, pos, already);
    FlagAndPlace(s, a[..], less, begin, end, pos, already);
    PivotCount(s, a[..], less, begin, end, pos, already);
    if PivotMoved(s, less, begin, end) {
      PivotReturns(s, a[..], less, begin, end, pos, already);
      SortedIsTidy(a[..], less, begin, end, pos);
      MiddleBalanced(begin, end);
    }
    attempts := [Attempt(s[begin], true)];
    if Unbalanced(begin, end, pos) && !force {
      OnlyAttempt(s, less, begin, end, pos, iterations);
      return GaveUp, attempts;
    }
    ghost var t := a[..];
    var done, badLeft;
    done, badLeft, comparisons := Rebalance(a, less, begin, end, pos, already, badAllowed);
    RearrangedTrans(s, t, a[..], begin, end);
    if done {
      OnlyAttempt(s, less, begin, end, pos, iterations);
      return Complete, attempts;
    }
    t := a[..];
    SplitBounds(t, less, begin, end, pos);
    LeftReady(s, t, less, begin, end, pos, leftmost, badLeft);
    var ok;
    ghost var more;
    ok, more := TrySortLoop(a, less, begin, pos, badLeft, (iterations - 1) % SIZE_T, force, leftmost, branchless);
    attempts := [Attempt(s[begin], false)] + more;
    if leftmost && !force && iterations > 0 {
      OneMoreAttempt(s, t, less, begin, end, pos, iterations, more, ok);
    }
    if ok {
      LeftSorted(s, t, a[..], less, begin, end, pos);
      r := Continue(pos + 1, badLeft);
    } else {
      RearrangedThen(s, t, a[..], begin, pos, begin, end);
      r := GaveUp;
    }
  }

  lemma FlagAndPlace<T>(s: seq<T>, t: seq<T>, less: (T, T) -> bool, begin: int, end: int, pos: int, already: bool)
    requires 0 <= begin < end <= |s| && PartitionedRight(s, t, less, begin, end, pos, already)
    ensures pos == begin + Count(s[begin + 1..end], less, s[begin], false) && begin <= pos < end
    ensures already <==> AlreadySplit(s[begin + 1..end], less, s[begin])
  {
  }

  /** An attempt after which nothing follows: a lopsided one, or one that finished the range. */
  lemma OnlyAttempt<T(!new)>(s: seq<T>, less: (T, T) -> bool, begin: int, end: int, pos: int, iterations: nat)
    requires 0 <= begin <= pos < end <= |s|
    requires s[begin] in s[begin..end] && Count(s[begin..end], less, s[begin], false) == pos - begin
    ensures iterations > 0 ==> Tried(s[begin..end], less, end - begin, iterations, [Attempt(s[begin], true)],
                                     !Unbalanced(begin, end, pos))
  {
    hide Count, Explains;
  }

  /** Always leaves a permutation; true means sorted; a forced call never returns false, however often
      the iteration counter wraps. */
  method TrySortLoop<T(!new)>(a: array<T>, less: (T, T) -> bool, begin0: nat, end: nat, badAllowed0: nat,
                              iterations0: nat, force0: bool, leftmost0: bool, branchless: bool)
    returns (ok: bool, ghost attempts: seq<Attempt<T>>)
    requires StrictWeakOrder(less)
    requires begin0 <= end <= a.Length && iterations0 < SIZE_T
    requires !leftmost0 ==> Floored(a[..], less, begin0, end)
    requires badAllowed0 >= 1 || end - begin0 < INSERTION_SORT_THRESHOLD
    modifies a
    ensures Rearranged(old(a[..]), a[..], begin0, end)
    ensures ok ==> Sorted(a[..], less, begin0, end)
    ensures force0 ==> ok
    ensures iterations0 != 0 && end - begin0 < INSERTION_SORT_THRESHOLD ==> ok
    ensures leftmost0 && !force0 ==> Explains(old(a[begin0..end]), less, end - begin0, iterations0, attempts, ok)
    ensures leftmost0 && iterations0 != 0 && Ascending(old(a[..]), less, begin0, end) ==> ok
    decreases end - begin0, 1
  {
    hide Rearranged, StrictWeakOrder, Sorted, Settled, Floored, Ascending, Tried, Explains;
    var begin, badAllowed, iterations, force, leftmost := begin0, badAllowed0, iterations0, force0, leftmost0;
    ghost var s := a[..];
    LoopStart(s, less, begin0, end);
    attempts := [];
    ghost var whole, size := a[begin0..end], end - begin0;
    ghost var first := leftmost0 && !force0;
    while (force || iterations != 0) && end - begin >= INSERTION_SORT_THRESHOLD
      invariant begin0 <= begin <= end && 0 <= iterations < SIZE_T
      invariant badAllowed >= 1 || end - begin < INSERTION_SORT_THRESHOLD
      invariant Rearranged(s, a[..], begin0, end)
      invariant Between(a[..], less, begin0, begin, end, leftmost)
      invariant force0 ==> force
      invariant end - begin0 < INSERTION_SORT_THRESHOLD ==> iterations == iterations0
      invariant first && !force ==>
        begin == begin0 && leftmost && iterations == iterations0 && a[..] == s && attempts == []
      invariant first && force ==> Succeeded(whole, less, size, iterations0, attempts)
      decreases end - begin
    {
      ghost var t := a[..];
      var r, left;
      ghost var more;
      r, left, more := TryRound(a, less, begin, end, badAllowed, iterations, force, leftmost, branchless);
      if first && !force {
        attempts := more;
      }
      RearrangedThen(s, t, a[..], begin, end, begin0, end);
      match r {
        case GaveUp =>
          Concludes(whole, less, size, iterations0, attempts, false);
          return false, attempts;
        case Complete =>
          BetweenSorted(t, a[..], less, begin0, begin, end, leftmost);
          Concludes(whole, less, size, iterations0, attempts, true);
          return true, attempts;
        case Continue(next, badLeft) =>
          BetweenNext(t, a[..], less, begin0, begin, next, end, leftmost);
          if !left {
            force, iterations := true, (iterations - 1) % SIZE_T;
          }
          begin, badAllowed, leftmost := next, badLeft, false;
      }
    }
    if !force && iterations == 0 {
      Concludes(whole, less, size, iterations0, attempts, false);
      return false, attempts;
    }
    ghost var t := a[..];
    if leftmost {
      ghost var _ := InsertionSort(a, less, begin, end);
    } else {
      ghost var _ := UnguardedInsertionSort(a, less, begin, end);
    }
    RearrangedThen(s, t, a[..], begin, end, begin0, end);
    BetweenSorted(t, a[..], less, begin0, begin, end, leftmost);
    Concludes(whole, less, size, iterations0, attempts, true);
    return true, attempts;
  }

  lemma Concludes<T(!new)>(s: seq<T>, less: (T, T) -> bool, size: nat, iterations: nat, attempts: seq<Attempt<T>>,
                           ok: bool)
    ensures attempts == [] && iterations == 0 && !ok ==> Explains(s, less, size, iterations, attempts, ok)
    ensures attempts == [] && iterations > 0 && size < INSERTION_SORT_THRESHOLD && ok ==>
      Explains(s, less, size, iterations, attempts, ok)
    ensures attempts != [] && iterations > 0 && Tried(s, less, size, iterations, attempts, ok) ==>
      size < INSERTION_SORT_THRESHOLD || Explains(s, less, size, iterations, attempts, ok)
  {
    hide Count;
  }

  /** The attempts of a call that has gone on to the part right of its first pivot. */
  ghost predicate Succeeded<T(!new)>(s: seq<T>, less: (T, T) -> bool, size: nat, iterations: nat,
                                     attempts: seq<Attempt<T>>) {
    && size >= INSERTION_SORT_THRESHOLD && iterations > 0 && attempts != []
    && Tried(s, less, size, iterations, attempts, true)
  }

  /** Sample point i of s, at multiples of offset, fits neither a rising nor a falling run. */
  predicate Misfit<T>(s: seq<T>, less: (T, T) -> bool, offset: nat, i: nat)
    requires 1 <= i < NUM_TO_TRY && 1 <= offset && NUM_TO_TRY * offset <= |s|
  {
    SampleInRange(|s|, offset, i);
    less(s[offset * (i - 1)], s[offset * i]) != less(s[offset * i], s[offset * (i + 1) - 1])
  }

  lemma SampleInRange(size: nat, offset: nat, i: nat)
    requires NUM_TO_TRY * offset <= size && 1 <= offset && 1 <= i < NUM_TO_TRY
    ensures 0 <= offset * (i - 1) < offset * i <= offset * (i + 1) - 1 < size
  {
    assert offset * i == offset * (i - 1) + offset;
    assert offset * (i + 1) == offset * i + offset;
    assert offset * (i + 1) <= offset * NUM_TO_TRY;
  }

  /** The number of misfits among the first n sample points. */
  function Misfits<T>(s: seq<T>, less: (T, T) -> bool, offset: nat, n: nat): nat
    requires n < NUM_TO_TRY && 1 <= offset && NUM_TO_TRY * offset <= |s|
  {
    if n == 0 then 0 else Misfits(s, less, offset, n - 1) + (if Misfit(s, less, offset, n) then 1 else 0)
  }

  lemma {:induction false} MisfitsMonotone<T>(s: seq<T>, less: (T, T) -> bool, offset: nat, m: nat, n: nat)
    requires m <= n < NUM_TO_TRY && 1 <= offset && NUM_TO_TRY * offset <= |s|
    ensures Misfits(s, less, offset, m) <= Misfits(s, less, offset, n)
    decreases n
  {
    if m < n {
      MisfitsMonotone(s, less, offset, m, n - 1);
    }
  }

  /** The sample points among the first n that do not fit. */
  ghost function MisfitSet<T>(s: seq<T>, less: (T, T) -> bool, offset: nat, n: nat): set<nat>
    requires n < NUM_TO_TRY && 1 <= offset && NUM_TO_TRY * offset <= |s|
  {
    set i: nat | 1 <= i <= n && Misfit(s, less, offset, i)
  }

  lemma {:induction false} MisfitsCardinality<T>(s: seq<T>, less: (T, T) -> bool, offset: nat, n: nat)
    requires n < NUM_TO_TRY && 1 <= offset && NUM_TO_TRY * offset <= |s|
    ensures Misfits(s, less, offset, n) == |MisfitSet(s, less, offset, n)|
    decreases n
  {
    hide Misfit;
    var all := MisfitSet(s, less, offset, n);
    if n == 0 {
      assert all == {};
    } else {
      MisfitsCardinality(s, less, offset, n - 1);
      var fewer := MisfitSet(s, less, offset, n - 1);
      assert all == if Misfit(s, less, offset, n) then fewer + {n} else fewer;
    }
  }

  /** In an ascending range every sample point fits. */
  lemma AscendingFits<T>(s: seq<T>, less: (T, T) -> bool, begin: int, end: int, offset: nat, i: nat)
    requires Ascending(s, less, begin, end) && 2 <= offset && NUM_TO_TRY * offset <= end - begin && 1 <= i < NUM_TO_TRY
    ensures !Misfit(s[begin..end], less, offset, i)
  {
    SampleInRange(end - begin, offset, i);
    assert offset * (i + 1) == offset * i + offset;
  }

  lemma {:induction false} AscendingHasNone<T>(s: seq<T>, less: (T, T) -> bool, begin: int, end: int, offset: nat,
                                               n: nat)
    requires Ascending(s, less, begin, end) && 2 <= offset && NUM_TO_TRY * offset <= end - begin && n < NUM_TO_TRY
    ensures Misfits(s[begin..end], less, offset, n) == 0
    decreases n
  {
    hide Misfit, Ascending;
    if n > 0 {
      AscendingHasNone(s, less, begin, end, offset, n - 1);
      AscendingFits(s, less, begin, end, offset, n);
    }
  }

  /** A long range in which more than three of fifteen sample points fit neither a rising nor a falling run. */
  ghost predicate Hopeless<T>(s: seq<T>, less: (T, T) -> bool) {
    |s| > 160 && |MisfitSet(s, less, |s| / 16, 15)| > 3
  }

  lemma AscendingHasHope<T>(s: seq<T>, less: (T, T) -> bool, begin: int, end: int)
    requires 0 <= begin <= end <= |s| && Ascending(s, less, begin, end)
    ensures !Hopeless(s[begin..end], less)
  {
    hide Misfit, Misfits, MisfitSet, Ascending;
    if end - begin > 160 {
      AscendingHasNone(s, less, begin, end, (end - begin) / 16, 15);
      MisfitsCardinality(s[begin..end], less, (end - begin) / 16, 15);
    }
  }

  method SampleMisfit<T>(a: array<T>, less: (T, T) -> bool, begin: nat, end: nat, offset: nat, i: nat)
    returns (misfit: bool)
    requires begin <= end <= a.Length && 1 <= offset && NUM_TO_TRY * offset <= end - begin && 1 <= i < NUM_TO_TRY
    ensures misfit == Misfit(a[begin..end], less, offset, i)
    ensures 0 <= offset * (i - 1) < offset * i <= offset * (i + 1) - 1 < end - begin
    ensures misfit == (less(a[begin + offset * (i - 1)], a[begin + offset * i])
                       != less(a[begin + offset * i], a[begin + (offset * (i + 1) - 1)]))
  {
    SampleInRange(end - begin, offset, i);
    var prev, curr, next := offset * (i - 1), offset * i, offset * (i + 1) - 1;
    var prevLess := less(a[begin + prev], a[begin + curr]);
    var currLess := less(a[begin + curr], a[begin + next]);
    misfit := prevLess != currLess;
  }

  /** The test of pdqsort_try_sort_impl: hopeless means a long range with more than three misfits among fifteen
      sample points. Every sampled position lies in the range. */
  method LooksHopeless<T>(a: array<T>, less: (T, T) -> bool, begin: nat, end: nat) returns (hopeless: bool)
    requires begin <= end <= a.Length
    ensures hopeless <==> Hopeless(a[begin..end], less)
  {
    hide Misfit, MisfitSet;
    var size := end - begin;
    if size > NUM_TO_TRY * 10 {
      MisfitsCardinality(a[begin..end], less, size / NUM_TO_TRY, NUM_TO_TRY - 1);
      var outOfOrder := 0;
      ghost var s := a[begin..end];
      var i := 1;
      while i < NUM_TO_TRY
        invariant 1 <= i <= NUM_TO_TRY
        invariant outOfOrder == Misfits(s, less, size / NUM_TO_TRY, i - 1) <= TRY_SORT_ITERATIONS
      {
        var offset := size / NUM_TO_TRY;
        var misfit := SampleMisfit(a, less, begin, end, offset, i);
        if misfit {
          outOfOrder := outOfOrder + 1;
          if outOfOrder > TRY_SORT_ITERATIONS {
            MisfitsMonotone(s, less, offset, i, NUM_TO_TRY - 1);
            return true;
          }
        }
        i := i + 1;
      }
    }
    return false;
  }

  lemma ShortHasHope<T>(s: seq<T>, less: (T, T) -> bool)
    ensures |s| <= 160 ==> !Hopeless(s, less)
  {
  }

  /** pdqsort_try_sort and pdqsort_try_sort_branchless. It stops early exactly for a hopeless range, or when the
      attempts on the elements below each pivot lead to a lopsided one or are used up; never for an ascending range. */
  method TrySort<T(!new)>(a: array<T>, less: (T, T) -> bool, begin: nat, end: nat, branchless: bool)
    returns (ok: bool, ghost attempts: seq<Attempt<T>>)
    requires StrictWeakOrder(less)
    requires begin <= end <= a.Length
    modifies a
    ensures Rearranged(old(a[..]), a[..], begin, end)
    ensures ok ==> Sorted(a[..], less, begin, end)
    ensures end - begin < INSERTION_SORT_THRESHOLD ==> ok
    ensures var s := old(a[begin..end]);
      if Hopeless(s, less) then !ok else Explains(s, less, |s|, 3, attempts, ok)
    ensures var s := old(a[begin..end]);
      !ok <==> || Hopeless(s, less)
               || (attempts != [] && Lopsided(s, less, |s|, attempts, |attempts| - 1))
               || (|attempts| == 3 && !attempts[2].finished)
    ensures Ascending(old(a[..]), less, begin, end) ==> ok
  {
    hide Rearranged, StrictWeakOrder, Sorted, Hopeless, Ascending, Tried, Lopsided;
    ghost var s := a[begin..end];
    RearrangedRefl(a[..], begin, end);
    attempts := [];
    if Ascending(a[..], less, begin, end) {
      AscendingHasHope(a[..], less, begin, end);
    }
    ShortHasHope(a[begin..end], less);
    if begin == end {
      SortedShort(a[..], less, begin);
      return true, attempts;
    }
    var log := Log2(end - begin);
    EnoughBudget(end - begin);
    var hopeless := LooksHopeless(a, less, begin, end);
    if hopeless {
      return false, attempts;
    }
    ok, attempts := TrySortLoop(a, less, begin, end, log, TRY_SORT_ITERATIONS, false, true, branchless);
    Reasons(s, less, |s|, 3, attempts, ok);
  }
}
