/** partition_right_branchless of contrib/pdqsort/pdqsort.h: the block partition with offset buffers
    and the cyclic move, proved to meet the contract of the simple right partition. */
module BlockPartition {
  import opened Order
  import opened Partition

  const BLOCK_SIZE := 64

  // ----- The offset buffers -----

  ghost predicate Increasing(offs: seq<int>) {
    forall i, j :: 0 <= i < j < |offs| ==> offs[i] < offs[j]
  }

  /** Position k is listed in offs as an offset from `first`, or holds an element below p. */
  ghost predicate LeftAt<T>(s: seq<T>, less: (T, T) -> bool, p: T, first: int, offs: seq<int>, k: int)
    requires 0 <= k < |s|
  {
    k - first in offs || less(s[k], p)
  }

  /** Position k is listed in offs as a distance back from `last`, or holds an element not below p. */
  ghost predicate RightAt<T>(s: seq<T>, less: (T, T) -> bool, p: T, last: int, offs: seq<int>, k: int)
    requires 0 <= k < |s|
  {
    last - k in offs || !less(s[k], p)
  }

  /** offs lists, in order, exactly the offsets of the elements of s[first..first + size] not below p. */
  ghost predicate LeftBlock<T>(s: seq<T>, less: (T, T) -> bool, p: T, first: int, size: int, offs: seq<int>) {
    && 0 <= first <= first + size <= |s|
    && Increasing(offs)
    && (forall i :: 0 <= i < |offs| ==> 0 <= offs[i] < size && !less(s[first + offs[i]], p))
    && (forall k :: first <= k < first + size ==> LeftAt(s, less, p, first, offs, k))
  }

  /** offs lists, in order, exactly the distances of the elements of s[last - size..last] below p. */
  ghost predicate RightBlock<T>(s: seq<T>, less: (T, T) -> bool, p: T, last: int, size: int, offs: seq<int>) {
    && 0 <= last - size <= last <= |s|
    && Increasing(offs)
    && (forall i :: 0 <= i < |offs| ==> 1 <= offs[i] <= size && less(s[last - offs[i]], p))
    && (forall k :: last - size <= k < last ==> RightAt(s, less, p, last, offs, k))
  }

  lemma NoLeftBlock<T>(s: seq<T>, less: (T, T) -> bool, p: T, first: int)
    ensures 0 <= first <= |s| ==> LeftBlock(s, less, p, first, 0, [])
  {
  }

  lemma NoRightBlock<T>(s: seq<T>, less: (T, T) -> bool, p: T, last: int)
    ensures 0 <= last <= |s| ==> RightBlock(s, less, p, last, 0, [])
  {
  }

  /** Looking at one more element extends the block. */
  lemma LeftBlockGrows<T>(s: seq<T>, less: (T, T) -> bool, p: T, first: int, size: int, offs: seq<int>)
    requires LeftBlock(s, less, p, first, size, offs) && first + size < |s|
    ensures less(s[first + size], p) ==> LeftBlock(s, less, p, first, size + 1, offs)
    ensures !less(s[first + size], p) ==> LeftBlock(s, less, p, first, size + 1, offs + [size])
  {
    forall k | first <= k < first + size + 1 && less(s[first + size], p) ensures LeftAt(s, less, p, first, offs, k) {
      assert k == first + size ==> less(s[k], p);
    }
    var offs' := offs + [size];
    assert Increasing(offs');
    forall k | first <= k < first + size + 1 ensures LeftAt(s, less, p, first, offs', k) {
      if k == first + size {
        assert offs'[|offs|] == k - first;
      } else {
        assert LeftAt(s, less, p, first, offs, k);
      }
    }
  }

  lemma RightBlockGrows<T>(s: seq<T>, less: (T, T) -> bool, p: T, last: int, size: int, offs: seq<int>)
    requires RightBlock(s, less, p, last, size, offs) && 0 < last - size
    ensures !less(s[last - size - 1], p) ==> RightBlock(s, less, p, last, size + 1, offs)
    ensures less(s[last - size - 1], p) ==> RightBlock(s, less, p, last, size + 1, offs + [size + 1])
  {
    forall k | last - size - 1 <= k < last && !less(s[last - size - 1], p) ensures RightAt(s, less, p, last, offs, k) {
      assert k == last - size - 1 ==> !less(s[k], p);
    }
    var offs' := offs + [size + 1];
    assert Increasing(offs');
    forall k | last - size - 1 <= k < last ensures RightAt(s, less, p, last, offs', k) {
      if k == last - size - 1 {
        assert offs'[|offs|] == last - k;
      } else {
        assert RightAt(s, less, p, last, offs, k);
      }
    }
  }

  /** Filling loop of the left buffer: every write is at an index below the block size. */
  method FillLeft<T>(a: array<T>, less: (T, T) -> bool, pivot: T, first: nat, size: int, buffer: seq<int>)
    returns (offsets: seq<int>, num: nat, ghost comparisons: nat)
    requires size <= BLOCK_SIZE == |buffer|
    requires first + size <= a.Length
    ensures comparisons == if 0 <= size then size else 0
    ensures num <= |offsets| == BLOCK_SIZE
    ensures 0 <= size ==> LeftBlock(a[..], less, pivot, first, size, offsets[..num])
    ensures size <= 0 ==> num == 0
  {
    hide LeftBlock;
    offsets, num, comparisons := buffer, 0, 0;
    var i := 0;
    ghost var listed := [];
    NoLeftBlock(a[..], less, pivot, first);
    while i < size
      invariant comparisons == i && |offsets| == BLOCK_SIZE && num <= i <= BLOCK_SIZE && listed == offsets[..num]
      invariant if 0 <= size then i <= size && LeftBlock(a[..], less, pivot, first, i, listed) else i == 0
    {
      LeftBlockGrows(a[..], less, pivot, first, i, listed);
      assert a[..][first + i] == a[first + i];
      offsets := offsets[num := i];
      comparisons := comparisons + 1;
      if !less(a[first + i], pivot) {
        num := num + 1;
        listed := listed + [i];
      }
      i := i + 1;
    }
  }

  /** Filling loop of the right buffer. */
  method FillRight<T>(a: array<T>, less: (T, T) -> bool, pivot: T, last: nat, size: int, buffer: seq<int>)
    returns (offsets: seq<int>, num: nat, ghost comparisons: nat)
    requires size <= BLOCK_SIZE == |buffer|
    requires size <= last <= a.Length
    ensures comparisons == if 0 <= size then size else 0
    ensures num <= |offsets| == BLOCK_SIZE
    ensures 0 <= size ==> RightBlock(a[..], less, pivot, last, size, offsets[..num])
    ensures size <= 0 ==> num == 0
  {
    hide RightBlock;
    offsets, num, comparisons := buffer, 0, 0;
    var i := 0;
    ghost var listed := [];
    NoRightBlock(a[..], less, pivot, last);
    while i < size
      invariant comparisons == i && |offsets| == BLOCK_SIZE && num <= i <= BLOCK_SIZE && listed == offsets[..num]
      invariant if 0 <= size then i <= size && RightBlock(a[..], less, pivot, last, i, listed) else i == 0
    {
      RightBlockGrows(a[..], less, pivot, last, i, listed);
      assert a[..][last - i - 1] == a[last - i - 1];
      i := i + 1;
      offsets := offsets[num := i];
      comparisons := comparisons + 1;
      if less(a[last - i], pivot) {
        num := num + 1;
        listed := listed + [i];
      }
    }
  }

  // ----- swap_offsets -----

  /** Places to the left and to the right of `mid`, all different. */
  ghost predicate Places(n: int, first: int, mid: int, last: int, l: seq<int>, r: seq<int>) {
    && 0 <= first <= mid <= last <= n && |l| == |r|
    && (forall i :: 0 <= i < |l| ==> first <= l[i] < mid)
    && (forall i :: 0 <= i < |r| ==> mid <= r[i] < last)
    && (forall i, j :: 0 <= i < j < |l| ==> l[i] < l[j])
    && (forall i, j :: 0 <= i < j < |r| ==> r[j] < r[i])
  }

  /** The first n pairs of places swapped. */
  ghost function PairsSwapped<T>(s: seq<T>, l: seq<int>, r: seq<int>, n: nat): (t: seq<T>)
    requires n <= |l| == |r|
    requires forall i :: 0 <= i < |l| ==> 0 <= l[i] < |s| && 0 <= r[i] < |s|
    ensures |t| == |s|
  {
    if n == 0 then s else Swapped(PairsSwapped(s, l, r, n - 1), l[n - 1], r[n - 1])
  }

  /** The first n pairs of places moved round a cycle l[0] <- r[0] <- l[1] <- r[1] ... <- l[0]. */
  ghost function Cycled<T>(s: seq<T>, l: seq<int>, r: seq<int>, n: nat): (t: seq<T>)
    requires 1 <= n <= |l| == |r|
    requires forall i :: 0 <= i < |l| ==> 0 <= l[i] < |s| && 0 <= r[i] < |s|
    ensures |t| == |s|
  {
    if n == 1 then Swapped(s, l[0], r[0]) else Passed(Cycled(s, l, r, n - 1), l[n - 1], r[n - 2], r[n - 1])
  }

  /** The element at l goes to r, the one at r' to l, and the one at r on to r'. */
  function Passed<T>(t: seq<T>, l: int, r: int, r': int): (u: seq<T>)
    requires 0 <= l < |t| && 0 <= r < |t| && 0 <= r' < |t|
    ensures |u| == |t|
  {
    t[r := t[l]][l := t[r']][r' := t[r]]
  }

  /** swap_offsets as a function of the whole array. */
  ghost function OffsetsSwapped<T>(s: seq<T>, l: seq<int>, r: seq<int>, useSwaps: bool): (t: seq<T>)
    requires |l| == |r|
    requires forall i :: 0 <= i < |l| ==> 0 <= l[i] < |s| && 0 <= r[i] < |s|
    ensures |t| == |s|
  {
    if useSwaps then PairsSwapped(s, l, r, |l|) else if |l| == 0 then s else Cycled(s, l, r, |l|)
  }

  lemma {:induction false} PairsSwappedAt<T>(s: seq<T>, first: int, mid: int, last: int, l: seq<int>, r: seq<int>,
                                             n: nat, j: nat)
    requires Places(|s|, first, mid, last, l, r) && n <= |l| && j < |l|
    ensures var t := PairsSwapped(s, l, r, n);
      if j < n then t[l[j]] == s[r[j]] && t[r[j]] == s[l[j]] else t[l[j]] == s[l[j]] && t[r[j]] == s[r[j]]
  {
    if n > 0 {
      PairsSwappedAt(s, first, mid, last, l, r, n - 1, j);
      PairsSwappedAt(s, first, mid, last, l, r, n - 1, n - 1);
    }
  }

  lemma {:induction false} CycledAt<T>(s: seq<T>, first: int, mid: int, last: int, l: seq<int>, r: seq<int>, n: nat,
                                       j: nat)
    requires Places(|s|, first, mid, last, l, r) && 1 <= n <= |l| && j < |l|
    ensures var t := Cycled(s, l, r, n);
      if j < n then t[l[j]] == s[r[j]] && t[r[j]] == s[l[if j + 1 < n then j + 1 else 0]]
      else t[l[j]] == s[l[j]] && t[r[j]] == s[r[j]]
  {
    if n > 1 {
      CycledAt(s, first, mid, last, l, r, n - 1, j);
      CycledAt(s, first, mid, last, l, r, n - 1, n - 1);
      CycledAt(s, first, mid, last, l, r, n - 1, n - 2);
    }
  }

  /** Only listed places change. */
  lemma {:induction false} PairsSwappedElsewhere<T>(s: seq<T>, l: seq<int>, r: seq<int>, n: nat, k: nat)
    requires n <= |l| == |r| && k < |s| && k !in l && k !in r
    requires forall i :: 0 <= i < |l| ==> 0 <= l[i] < |s| && 0 <= r[i] < |s|
    ensures PairsSwapped(s, l, r, n)[k] == s[k]
  {
    if n > 0 {
      PairsSwappedElsewhere(s, l, r, n - 1, k);
    }
  }

  lemma {:induction false} CycledElsewhere<T>(s: seq<T>, l: seq<int>, r: seq<int>, n: nat, k: nat)
    requires 1 <= n <= |l| == |r| && k < |s| && k !in l && k !in r
    requires forall i :: 0 <= i < |l| ==> 0 <= l[i] < |s| && 0 <= r[i] < |s|
    ensures Cycled(s, l, r, n)[k] == s[k]
  {
    if n > 1 {
      CycledElsewhere(s, l, r, n - 1, k);
    }
  }

  lemma {:induction false} PairsSwappedRearranges<T>(s: seq<T>, first: int, mid: int, last: int, l: seq<int>,
                                                     r: seq<int>, n: nat)
    requires Places(|s|, first, mid, last, l, r) && n <= |l|
    ensures Rearranged(s, PairsSwapped(s, l, r, n), first, last)
  {
    hide Rearranged;
    RearrangedRefl(s, first, last);
    if n > 0 {
      var x, y := l[n - 1], r[n - 1];
      assert first <= x < mid <= y < last;
      PairsSwappedRearranges(s, first, mid, last, l, r, n - 1);
      SwapKeepsRearranged(s, PairsSwapped(s, l, r, n - 1), x, y, first, last);
    }
  }

  lemma {:induction false} CycledRearranges<T>(s: seq<T>, first: int, mid: int, last: int, l: seq<int>, r: seq<int>,
                                               n: nat)
    requires Places(|s|, first, mid, last, l, r) && 1 <= n <= |l|
    ensures Rearranged(s, Cycled(s, l, r, n), first, last)
  {
    hide Rearranged;
    if n == 1 {
      SwapRearranges(s, l[0], r[0], first, last);
    } else {
      var x, y, z := l[n - 1], r[n - 2], r[n - 1];
      assert first <= x < mid <= z < y < last;
      CycledRearranges(s, first, mid, last, l, r, n - 1);
      PassedRearranges(s, Cycled(s, l, r, n - 1), x, y, z, first, last);
    }
  }

  /** Passing on round the cycle is two swaps. */
  lemma PassedRearranges<T>(s: seq<T>, t: seq<T>, l: int, r: int, r': int, lo: int, hi: int)
    requires Rearranged(s, t, lo, hi)
    requires lo <= l < hi && lo <= r < hi && lo <= r' < hi && l != r && l != r' && r != r'
    ensures Rearranged(s, Passed(t, l, r, r'), lo, hi)
  {
    hide Rearranged;
    SwapKeepsRearranged(s, t, l, r, lo, hi);
    SwapKeepsRearranged(s, Swapped(t, l, r), l, r', lo, hi);
    assert Passed(t, l, r, r') == Swapped(Swapped(t, l, r), l, r');
  }

  function LeftPlaces(first: int, ol: seq<int>): (l: seq<int>)
    ensures |l| == |ol| && forall i :: 0 <= i < |ol| ==> l[i] == first + ol[i]
  {
    seq(|ol|, i requires 0 <= i < |ol| => first + ol[i])
  }

  function RightPlaces(last: int, or: seq<int>): (r: seq<int>)
    ensures |r| == |or| && forall i :: 0 <= i < |or| ==> r[i] == last - or[i]
  {
    seq(|or|, i requires 0 <= i < |or| => last - or[i])
  }

  method SwapOffsets<T>(a: array<T>, first: nat, last: nat, ol: seq<int>, or: seq<int>, useSwaps: bool, ghost mid: nat)
    requires |ol| == |or| &&
      (|ol| > 0 ==> Places(a.Length, first, mid, last, LeftPlaces(first, ol), RightPlaces(last, or)))
    modifies a
    ensures a[..] == OffsetsSwapped(old(a[..]), LeftPlaces(first, ol), RightPlaces(last, or), useSwaps)
  {
    hide LeftPlaces, RightPlaces;
    ghost var s, l, r := a[..], LeftPlaces(first, ol), RightPlaces(last, or);
    if useSwaps {
      var i := 0;
      while i < |ol|
        invariant 0 <= i <= |ol|
        invariant a[..] == PairsSwapped(s, l, r, i)
      {
        Swap(a, first + ol[i], last - or[i], 0, a.Length);
        i := i + 1;
      }
    } else if |ol| > 0 {
      MoveCycle(a, first, last, ol, or, mid);
    }
  }

  method MoveCycle<T>(a: array<T>, first: nat, last: nat, ol: seq<int>, or: seq<int>, ghost mid: nat)
    requires |ol| > 0 && Places(a.Length, first, mid, last, LeftPlaces(first, ol), RightPlaces(last, or))
    modifies a
    ensures a[..] == Cycled(old(a[..]), LeftPlaces(first, ol), RightPlaces(last, or), |ol|)
  {
    hide LeftPlaces, RightPlaces, Cycled, Passed;
    ghost var s, l, r := a[..], LeftPlaces(first, ol), RightPlaces(last, or);
    CycledFirst(s, l, r);
    var left, right := first + ol[0], last - or[0];
    var tmp := a[left];
    a[left] := a[right];
    assert a[..][right := tmp] == Swapped(s, left, right);
    hide Swapped;
    var i := 1;
    while i < |ol|
      invariant 1 <= i <= |ol| && right == r[i - 1]
      invariant a[..][right := tmp] == Cycled(s, l, r, i)  // the hole at `right` filled in
    {
      assert r[i] < r[i - 1];
      CycledNext(s, l, r, i);
      left := first + ol[i];
      PassOn(a, left, right, last - or[i], tmp);
      right := last - or[i];
      i := i + 1;
    }
    ghost var filled := a[..][right := tmp];
    a[right] := tmp;
    assert a[..] == filled;
  }

  lemma CycledFirst<T>(s: seq<T>, l: seq<int>, r: seq<int>)
    requires 1 <= |l| == |r|
    requires forall i :: 0 <= i < |l| ==> 0 <= l[i] < |s| && 0 <= r[i] < |s|
    ensures Cycled(s, l, r, 1) == Swapped(s, l[0], r[0])
  {
  }

  lemma CycledNext<T>(s: seq<T>, l: seq<int>, r: seq<int>, n: nat)
    requires 1 <= n < |l| == |r|
    requires forall i :: 0 <= i < |l| ==> 0 <= l[i] < |s| && 0 <= r[i] < |s|
    ensures Cycled(s, l, r, n + 1) == Passed(Cycled(s, l, r, n), l[n], r[n - 1], r[n])
  {
  }

  /** One round of the cycle: the element at l fills the hole at r, and the one at r' fills l. */
  method PassOn<T>(a: array<T>, l: nat, r: nat, r': nat, ghost tmp: T)
    requires l < a.Length && r < a.Length && r' < a.Length && l != r && l != r' && r != r'
    modifies a
    ensures a[..][r' := tmp] == Passed(old(a[..])[r := tmp], l, r, r')
  {
    a[r] := a[l];
    a[l] := a[r'];
  }

  // ----- What an exchange does to the two blocks -----

  /** Two disjoint blocks and the first num offsets of each. */
  ghost predicate Blocks<T>(s: seq<T>, less: (T, T) -> bool, p: T, first: int, last: int, ls: int, rs: int,
                            ol: seq<int>, or: seq<int>, num: int) {
    && LeftBlock(s, less, p, first, ls, ol) && RightBlock(s, less, p, last, rs, or)
    && first + ls <= last - rs && 0 <= num <= |ol| && num <= |or|
  }

  lemma BlockPlaces<T>(s: seq<T>, less: (T, T) -> bool, p: T, first: int, last: int, ls: int, rs: int,
                       ol: seq<int>, or: seq<int>, num: int)
    requires Blocks(s, less, p, first, last, ls, rs, ol, or, num)
    ensures Places(|s|, first, first + ls, last, LeftPlaces(first, ol[..num]), RightPlaces(last, or[..num]))
  {
  }

  /** The array after exchanging the first num offsets. */
  ghost function Exchange<T>(s: seq<T>, less: (T, T) -> bool, p: T, first: int, last: int, ls: int, rs: int,
                             ol: seq<int>, or: seq<int>, num: int, useSwaps: bool): (t: seq<T>)
    requires Blocks(s, less, p, first, last, ls, rs, ol, or, num)
    ensures |t| == |s|
  {
    BlockPlaces(s, less, p, first, last, ls, rs, ol, or, num);
    OffsetsSwapped(s, LeftPlaces(first, ol[..num]), RightPlaces(last, or[..num]), useSwaps)
  }

  lemma ExchangeRearranges<T>(s: seq<T>, less: (T, T) -> bool, p: T, first: int, last: int, ls: int, rs: int,
                              ol: seq<int>, or: seq<int>, num: int, useSwaps: bool)
    requires Blocks(s, less, p, first, last, ls, rs, ol, or, num)
    ensures Rearranged(s, Exchange(s, less, p, first, last, ls, rs, ol, or, num, useSwaps), first, last)
  {
    hide Rearranged, LeftPlaces, RightPlaces, Places;
    BlockPlaces(s, less, p, first, last, ls, rs, ol, or, num);
    var l, r := LeftPlaces(first, ol[..num]), RightPlaces(last, or[..num]);
    if useSwaps {
      PairsSwappedRearranges(s, first, first + ls, last, l, r, |l|);
    } else if |l| > 0 {
      CycledRearranges(s, first, first + ls, last, l, r, |l|);
    } else {
      RearrangedRefl(s, first, last);
    }
  }

  /** The j-th listed places hold elements of the right kind afterwards. */
  lemma SidesSwapped<T>(s: seq<T>, less: (T, T) -> bool, p: T, first: int, mid: int, last: int, l: seq<int>,
                        r: seq<int>, useSwaps: bool, j: nat)
    requires Places(|s|, first, mid, last, l, r) && j < |l|
    requires forall i :: 0 <= i < |l| ==> !less(s[l[i]], p)
    requires forall i :: 0 <= i < |r| ==> less(s[r[i]], p)
    ensures var t := OffsetsSwapped(s, l, r, useSwaps); less(t[l[j]], p) && !less(t[r[j]], p)
  {
    if useSwaps {
      PairsSwappedAt(s, first, mid, last, l, r, |l|, j);
    } else {
      CycledAt(s, first, mid, last, l, r, |l|, j);
    }
  }

  lemma ExchangeAt<T>(s: seq<T>, less: (T, T) -> bool, p: T, first: int, last: int, ls: int, rs: int,
                      ol: seq<int>, or: seq<int>, num: int, useSwaps: bool, j: nat)
    requires Blocks(s, less, p, first, last, ls, rs, ol, or, num) && j < num
    ensures var t := Exchange(s, less, p, first, last, ls, rs, ol, or, num, useSwaps);
      less(t[first + ol[j]], p) && !less(t[last - or[j]], p)
  {
    hide OffsetsSwapped, LeftPlaces, RightPlaces;
    BlockPlaces(s, less, p, first, last, ls, rs, ol, or, num);
    SidesSwapped(s, less, p, first, first + ls, last, LeftPlaces(first, ol[..num]), RightPlaces(last, or[..num]),
                 useSwaps, j);
  }

  lemma ExchangeElsewhere<T>(s: seq<T>, less: (T, T) -> bool, p: T, first: int, last: int, ls: int, rs: int,
                             ol: seq<int>, or: seq<int>, num: int, useSwaps: bool, k: nat)
    requires Blocks(s, less, p, first, last, ls, rs, ol, or, num) && k < |s|
    requires k - first !in ol[..num] && last - k !in or[..num]
    ensures Exchange(s, less, p, first, last, ls, rs, ol, or, num, useSwaps)[k] == s[k]
  {
    BlockPlaces(s, less, p, first, last, ls, rs, ol, or, num);
    var l, r := LeftPlaces(first, ol[..num]), RightPlaces(last, or[..num]);
    assert k !in l && k !in r;
    if useSwaps {
      PairsSwappedElsewhere(s, l, r, |l|, k);
    } else if |l| > 0 {
      CycledElsewhere(s, l, r, |l|, k);
    }
  }

  lemma LaterOffset(offs: seq<int>, num: int, i: int)
    requires Increasing(offs) && 0 <= num <= i < |offs|
    ensures offs[i] !in offs[..num]
  {
  }

  /** A position of the left block is still listed, or now holds an element below p. */
  lemma ExchangeLeftAt<T>(s: seq<T>, less: (T, T) -> bool, p: T, first: int, last: int, ls: int, rs: int,
                        ol: seq<int>, or: seq<int>, num: int, useSwaps: bool, k: int)
    requires Blocks(s, less, p, first, last, ls, rs, ol, or, num) && first <= k < first + ls
    ensures LeftAt(Exchange(s, less, p, first, last, ls, rs, ol, or, num, useSwaps), less, p, first, ol[num..], k)
  {
    assert LeftAt(s, less, p, first, ol, k);
    hide Exchange, Increasing;
    if k - first in ol {
      var i :| 0 <= i < |ol| && ol[i] == k - first;
      if i < num {
        ExchangeAt(s, less, p, first, last, ls, rs, ol, or, num, useSwaps, i);
      } else {
        assert ol[num..][i - num] == k - first;
      }
    } else {
      ExchangeElsewhere(s, less, p, first, last, ls, rs, ol, or, num, useSwaps, k);
    }
  }

  /** The rest of the list is what is still misplaced. */
  lemma ExchangeLeft<T>(s: seq<T>, less: (T, T) -> bool, p: T, first: int, last: int, ls: int, rs: int,
                        ol: seq<int>, or: seq<int>, num: int, useSwaps: bool)
    requires Blocks(s, less, p, first, last, ls, rs, ol, or, num)
    ensures LeftBlock(Exchange(s, less, p, first, last, ls, rs, ol, or, num, useSwaps), less, p, first, ls, ol[num..])
  {
    var t := Exchange(s, less, p, first, last, ls, rs, ol, or, num, useSwaps);
    forall k | first <= k < first + ls ensures LeftAt(t, less, p, first, ol[num..], k) {
      ExchangeLeftAt(s, less, p, first, last, ls, rs, ol, or, num, useSwaps, k);
    }
    forall i | num <= i < |ol| ensures 0 <= ol[i] < ls && !less(t[first + ol[i]], p) {
      ExchangeLeftRest(s, less, p, first, last, ls, rs, ol, or, num, useSwaps, i);
    }
    hide Exchange, LeftAt, Increasing;
    LaterLeft(t, less, p, first, ls, ol, num);
  }

  lemma LaterLeft<T>(t: seq<T>, less: (T, T) -> bool, p: T, first: int, size: int, offs: seq<int>, num: int)
    requires 0 <= num <= |offs| && Increasing(offs) && 0 <= first <= first + size <= |t|
    requires forall i :: num <= i < |offs| ==> 0 <= offs[i] < size && !less(t[first + offs[i]], p)
    requires forall k :: first <= k < first + size ==> LeftAt(t, less, p, first, offs[num..], k)
    ensures LeftBlock(t, less, p, first, size, offs[num..])
  {
    hide LeftAt;
  }

  /** A later offset is not touched. */
  lemma ExchangeLeftRest<T>(s: seq<T>, less: (T, T) -> bool, p: T, first: int, last: int, ls: int, rs: int,
                        ol: seq<int>, or: seq<int>, num: int, useSwaps: bool, i: int)
    requires Blocks(s, less, p, first, last, ls, rs, ol, or, num) && num <= i < |ol|
    ensures 0 <= ol[i] < ls
    ensures !less(Exchange(s, less, p, first, last, ls, rs, ol, or, num, useSwaps)[first + ol[i]], p)
  {
    LaterOffset(ol, num, i);
    hide Exchange, LeftAt, RightAt, Increasing;
    ExchangeElsewhere(s, less, p, first, last, ls, rs, ol, or, num, useSwaps, first + ol[i]);
  }

  lemma ExchangeRightAt<T>(s: seq<T>, less: (T, T) -> bool, p: T, first: int, last: int, ls: int, rs: int,
                        ol: seq<int>, or: seq<int>, num: int, useSwaps: bool, k: int)
    requires Blocks(s, less, p, first, last, ls, rs, ol, or, num) && last - rs <= k < last
    ensures RightAt(Exchange(s, less, p, first, last, ls, rs, ol, or, num, useSwaps), less, p, last, or[num..], k)
  {
    assert RightAt(s, less, p, last, or, k);
    hide Exchange, Increasing;
    if last - k in or {
      var i :| 0 <= i < |or| && or[i] == last - k;
      if i < num {
        ExchangeAt(s, less, p, first, last, ls, rs, ol, or, num, useSwaps, i);
      } else {
        assert or[num..][i - num] == last - k;
      }
    } else {
      ExchangeElsewhere(s, less, p, first, last, ls, rs, ol, or, num, useSwaps, k);
    }
  }

  lemma ExchangeRight<T>(s: seq<T>, less: (T, T) -> bool, p: T, first: int, last: int, ls: int, rs: int,
                        ol: seq<int>, or: seq<int>, num: int, useSwaps: bool)
    requires Blocks(s, less, p, first, last, ls, rs, ol, or, num)
    ensures RightBlock(Exchange(s, less, p, first, last, ls, rs, ol, or, num, useSwaps), less, p, last, rs, or[num..])
  {
    var t := Exchange(s, less, p, first, last, ls, rs, ol, or, num, useSwaps);
    forall k | last - rs <= k < last ensures RightAt(t, less, p, last, or[num..], k) {
      ExchangeRightAt(s, less, p, first, last, ls, rs, ol, or, num, useSwaps, k);
    }
    forall i | num <= i < |or| ensures 1 <= or[i] <= rs && less(t[last - or[i]], p) {
      ExchangeRightRest(s, less, p, first, last, ls, rs, ol, or, num, useSwaps, i);
    }
    hide Exchange, RightAt, Increasing;
    LaterRight(t, less, p, last, rs, or, num);
  }

  lemma LaterRight<T>(t: seq<T>, less: (T, T) -> bool, p: T, last: int, size: int, offs: seq<int>, num: int)
    requires 0 <= num <= |offs| && Increasing(offs) && 0 <= last - size <= last <= |t|
    requires forall i :: num <= i < |offs| ==> 1 <= offs[i] <= size && less(t[last - offs[i]], p)
    requires forall k :: last - size <= k < last ==> RightAt(t, less, p, last, offs[num..], k)
    ensures RightBlock(t, less, p, last, size, offs[num..])
  {
    hide RightAt;
  }

  /** A later offset is not touched. */
  lemma ExchangeRightRest<T>(s: seq<T>, less: (T, T) -> bool, p: T, first: int, last: int, ls: int, rs: int,
                        ol: seq<int>, or: seq<int>, num: int, useSwaps: bool, i: int)
    requires Blocks(s, less, p, first, last, ls, rs, ol, or, num) && num <= i < |or|
    ensures 1 <= or[i] <= rs
    ensures less(Exchange(s, less, p, first, last, ls, rs, ol, or, num, useSwaps)[last - or[i]], p)
  {
    LaterOffset(or, num, i);
    hide Exchange, LeftAt, RightAt, Increasing;
    ExchangeElsewhere(s, less, p, first, last, ls, rs, ol, or, num, useSwaps, last - or[i]);
  }

  // ----- The partition -----

  /** An offset buffer with its `start` and `num` counters. */
  datatype Buffer = Buffer(offsets: seq<int>, start: nat, num: nat) {
    ghost predicate Valid() {
      |offsets| == BLOCK_SIZE && start + num <= BLOCK_SIZE
    }

    function Listed(): (l: seq<int>)
      requires start + num <= |offsets|
      ensures |l| == num
    {
      offsets[start..start + num]
    }
  }

  /** Everything before `first` is below p, everything from `last` on (and not before `first`) is not. */
  ghost predicate Narrowed<T>(s: seq<T>, less: (T, T) -> bool, p: T, begin: int, end: int, first: int, last: int) {
    && 0 <= begin < first <= end <= |s| && first - 1 <= last <= end
    && (forall k :: begin < k < first ==> less(s[k], p))
    && (forall k :: last <= k < end && first <= k ==> !less(s[k], p))
  }

  /** The state at the head of the block loop: at most one block is half used. */
  ghost predicate BlockState<T>(s: seq<T>, less: (T, T) -> bool, p: T, begin: int, end: int, first: int, last: int,
                                bl: Buffer, br: Buffer) {
    && Narrowed(s, less, p, begin, end, first, last)
    && bl.Valid() && br.Valid()
    && (bl.num == 0 || br.num == 0)
    && (bl.num > 0 || br.num > 0 ==> last - first > BLOCK_SIZE)
    && (bl.num > 0 ==> LeftBlock(s, less, p, first, BLOCK_SIZE, bl.Listed()))
    && (br.num > 0 ==> RightBlock(s, less, p, last, BLOCK_SIZE, br.Listed()))
  }

  /** Two blocks ready for an exchange: apart from each other and listed, or, when the scans have crossed, both lists
      empty with one element counted twice. */
  ghost predicate Ready<T>(s: seq<T>, less: (T, T) -> bool, p: T, first: int, last: int, ls: int, rs: int, bl: Buffer,
                           br: Buffer) {
    && bl.Valid() && br.Valid()
    && if first <= last then
         && 0 <= ls && 0 <= rs && first + ls <= last - rs
         && LeftBlock(s, less, p, first, ls, bl.Listed()) && RightBlock(s, less, p, last, rs, br.Listed())
       else bl.num == 0 && br.num == 0 && ls == 0 && rs == last - first == -1
  }

  /** Exchange as many misplaced elements as both blocks offer, then step over a block that is used up. */
  method ExchangeBlocks<T>(a: array<T>, less: (T, T) -> bool, ghost p: T, ghost begin: nat, ghost end: nat,
                           first: nat, last: nat, ls: int, rs: int, bl: Buffer, br: Buffer)
    returns (first': nat, last': nat, bl': Buffer, br': Buffer)
    requires end <= a.Length && Narrowed(a[..], less, p, begin, end, first, last)
    requires Ready(a[..], less, p, first, last, ls, rs, bl, br)
    modifies a
    ensures if first <= last then Rearranged(old(a[..]), a[..], first, last) else a[..] == old(a[..])
    ensures Narrowed(a[..], less, p, begin, end, first', last')
    ensures bl'.Valid() && br'.Valid() && (bl'.num == 0 || br'.num == 0) && first' <= last'
    ensures first' == (if bl'.num == 0 then first + ls else first)
    ensures last' == (if br'.num == 0 then last - rs else last)
    ensures bl'.num > 0 ==> LeftBlock(a[..], less, p, first, ls, bl'.Listed())
    ensures br'.num > 0 ==> RightBlock(a[..], less, p, last, rs, br'.Listed())
  {
    hide Rearranged, Narrowed, LeftBlock, RightBlock, Exchange, OffsetsSwapped, Places;
    ghost var s := a[..];
    var ol, or := bl.Listed(), br.Listed();
    var num := if bl.num < br.num then bl.num else br.num;
    if first <= last {
      assert Blocks(s, less, p, first, last, ls, rs, ol, or, num);
      BlockPlaces(s, less, p, first, last, ls, rs, ol, or, num);
    }
    hide Blocks;
    SwapOffsets(a, first, last, ol[..num], or[..num], bl.num == br.num, first + ls);
    if first <= last {
      ExchangeEffects(s, a[..], less, p, begin, end, first, last, ls, rs, ol, or, num, bl.num == br.num);
    } else {
      NothingExchanged(s, first, last, ol, or, bl.num == br.num);
      CrossedNarrowed(s, less, p, begin, end, first, last);
    }
    bl' := bl.(start := bl.start + num, num := bl.num - num);
    br' := br.(start := br.start + num, num := br.num - num);
    assert bl'.Listed() == ol[num..] && br'.Listed() == or[num..];
    first', last' := first, last;
    if bl'.num == 0 {
      first' := first + ls;
    }
    if br'.num == 0 {
      last' := last - rs;
    }
  }

  lemma NothingExchanged<T>(s: seq<T>, first: int, last: int, ol: seq<int>, or: seq<int>, useSwaps: bool)
    requires |ol| == |or| == 0
    ensures OffsetsSwapped(s, LeftPlaces(first, ol[..0]), RightPlaces(last, or[..0]), useSwaps) == s
  {
  }

  /** When the scans have crossed, moving last back to first loses nothing. */
  lemma CrossedNarrowed<T>(s: seq<T>, less: (T, T) -> bool, p: T, begin: int, end: int, first: int, last: int)
    requires Narrowed(s, less, p, begin, end, first, last) && last == first - 1
    ensures Narrowed(s, less, p, begin, end, first, first)
  {
  }

  /** What the exchange leaves behind, with either list, both or neither used up. */
  lemma ExchangeEffects<T>(s: seq<T>, t: seq<T>, less: (T, T) -> bool, p: T, begin: int, end: int, first: int,
                           last: int, ls: int, rs: int, ol: seq<int>, or: seq<int>, num: int, useSwaps: bool)
    requires Narrowed(s, less, p, begin, end, first, last) && 0 <= ls && 0 <= rs
    requires Blocks(s, less, p, first, last, ls, rs, ol, or, num)
    requires Places(|s|, first, first + ls, last, LeftPlaces(first, ol[..num]), RightPlaces(last, or[..num]))
    requires t == OffsetsSwapped(s, LeftPlaces(first, ol[..num]), RightPlaces(last, or[..num]), useSwaps)
    ensures Rearranged(s, t, first, last)
    ensures LeftBlock(t, less, p, first, ls, ol[num..]) && RightBlock(t, less, p, last, rs, or[num..])
    ensures Narrowed(t, less, p, begin, end,
                     if ol[num..] == [] then first + ls else first, if or[num..] == [] then last - rs else last)
  {
    hide Rearranged, LeftBlock, RightBlock;
    assert t == Exchange(s, less, p, first, last, ls, rs, ol, or, num, useSwaps);
    ExchangeRearranges(s, less, p, first, last, ls, rs, ol, or, num, useSwaps);
    ExchangeLeft(s, less, p, first, last, ls, rs, ol, or, num, useSwaps);
    ExchangeRight(s, less, p, first, last, ls, rs, ol, or, num, useSwaps);
    NarrowedKept(s, t, less, p, begin, end, first, last);
    if ol[num..] == [] {
      LeftBlockDone(t, less, p, first, ls);
    }
    if or[num..] == [] {
      RightBlockDone(t, less, p, last, rs);
    }
  }

  lemma NarrowedKept<T>(s: seq<T>, t: seq<T>, less: (T, T) -> bool, p: T, begin: int, end: int, first: int, last: int)
    requires Narrowed(s, less, p, begin, end, first, last) && first <= last && Rearranged(s, t, first, last)
    ensures Narrowed(t, less, p, begin, end, first, last)
  {
  }

  lemma LeftBlockDone<T>(s: seq<T>, less: (T, T) -> bool, p: T, first: int, size: int)
    requires LeftBlock(s, less, p, first, size, [])
    ensures forall k :: first <= k < first + size ==> less(s[k], p)
  {
    forall k | first <= k < first + size ensures less(s[k], p) {
      assert LeftAt(s, less, p, first, [], k);
    }
  }

  lemma RightBlockDone<T>(s: seq<T>, less: (T, T) -> bool, p: T, last: int, size: int)
    requires RightBlock(s, less, p, last, size, [])
    ensures forall k :: last - size <= k < last ==> !less(s[k], p)
  {
    forall k | last - size <= k < last ensures !less(s[k], p) {
      assert RightAt(s, less, p, last, [], k);
    }
  }

  /** How many elements between the bounds have not been compared with the pivot yet. */
  function Unknown(first: int, last: int, bl: Buffer, br: Buffer): int {
    last - first - (if bl.num > 0 then BLOCK_SIZE else 0) - (if br.num > 0 then BLOCK_SIZE else 0)
  }

  /** The main loop: blocks of 64 from both ends until at most 128 elements are left between them. */
  method BlockLoop<T>(a: array<T>, less: (T, T) -> bool, pivot: T, ghost begin: nat, ghost end: nat, first0: nat,
                      last0: nat)
    returns (first: nat, last: nat, bl: Buffer, br: Buffer, ghost comparisons: nat)
    requires end <= a.Length && Narrowed(a[..], less, pivot, begin, end, first0, last0)
    modifies a
    ensures Rearranged(old(a[..]), a[..], begin + 1, end)
    ensures BlockState(a[..], less, pivot, begin, end, first, last, bl, br) && last - first <= 2 * BLOCK_SIZE
    ensures comparisons + Unknown(first, last, bl, br) == last0 - first0
    ensures last0 - first0 <= 2 * BLOCK_SIZE ==> first == first0 && last == last0 && a[..] == old(a[..])
  {
    hide Rearranged, LeftBlock, RightBlock;
    first, last := first0, last0;
    var zeros := seq(BLOCK_SIZE, i => 0);
    bl, br, comparisons := Buffer(zeros, 0, 0), Buffer(zeros, 0, 0), 0;
    RearrangedRefl(a[..], begin + 1, end);
    while last - first > 2 * BLOCK_SIZE
      invariant comparisons + Unknown(first, last, bl, br) == last0 - first0
      invariant BlockState(a[..], less, pivot, begin, end, first, last, bl, br)
      invariant Rearranged(old(a[..]), a[..], begin + 1, end)
      invariant last0 - first0 <= 2 * BLOCK_SIZE ==> first == first0 && last == last0 && a[..] == old(a[..])
      decreases last + 1 - first
    {
      ghost var lefts, rights;
      bl, lefts := RefillLeft(a, less, pivot, first, BLOCK_SIZE, bl);
      br, rights := RefillRight(a, less, pivot, last, BLOCK_SIZE, br);
      comparisons := comparisons + lefts + rights;
      ghost var s, lo, hi := a[..], first, last;
      first, last, bl, br := ExchangeBlocks(a, less, pivot, begin, end, first, last, BLOCK_SIZE, BLOCK_SIZE, bl, br);
      RearrangedThen(old(a[..]), s, a[..], lo, hi, begin + 1, end);
    }
  }

  /** Fill the left buffer when nothing is left in it. */
  method RefillLeft<T>(a: array<T>, less: (T, T) -> bool, pivot: T, first: nat, size: int, b: Buffer)
    returns (b': Buffer, ghost comparisons: nat)
    requires size <= BLOCK_SIZE && first + size <= a.Length && b.Valid()
    requires b.num > 0 ==> 0 <= size && LeftBlock(a[..], less, pivot, first, size, b.Listed())
    ensures comparisons == if b.num == 0 && 0 <= size then size else 0
    ensures b'.Valid() && (size <= 0 && b.num == 0 ==> b'.num == 0)
    ensures 0 <= size ==> LeftBlock(a[..], less, pivot, first, size, b'.Listed())
  {
    b', comparisons := b, 0;
    if b.num == 0 {
      var offsets, num;
      offsets, num, comparisons := FillLeft(a, less, pivot, first, size, b.offsets);
      b' := Buffer(offsets, 0, num);
      assert b'.Listed() == offsets[..num];
    }
  }

  /** Fill the right buffer when nothing is left in it. */
  method RefillRight<T>(a: array<T>, less: (T, T) -> bool, pivot: T, last: nat, size: int, b: Buffer)
    returns (b': Buffer, ghost comparisons: nat)
    requires size <= BLOCK_SIZE && size <= last <= a.Length && b.Valid()
    requires b.num > 0 ==> 0 <= size && RightBlock(a[..], less, pivot, last, size, b.Listed())
    ensures comparisons == if b.num == 0 && 0 <= size then size else 0
    ensures b'.Valid() && (size <= 0 && b.num == 0 ==> b'.num == 0)
    ensures 0 <= size ==> RightBlock(a[..], less, pivot, last, size, b'.Listed())
  {
    b', comparisons := b, 0;
    if b.num == 0 {
      var offsets, num;
      offsets, num, comparisons := FillRight(a, less, pivot, last, size, b.offsets);
      b' := Buffer(offsets, 0, num);
      assert b'.Listed() == offsets[..num];
    }
  }

  /** C++ division by two, which truncates toward zero: the number of unknown elements can be -1. */
  function Half(x: int): int {
    if x >= 0 then x / 2 else -(-x / 2)
  }

  /** How the unknown elements are shared: a half used block keeps its size, and otherwise they are split. When the
      scans have crossed there is one element less than none. */
  method UnknownSizes(first: nat, last: nat, numL: nat, numR: nat) returns (unknownLeft: int, ls: int, rs: int)
    ensures unknownLeft == last - first - (if numL != 0 || numR != 0 then BLOCK_SIZE else 0)
    ensures if numR != 0 then ls == unknownLeft && rs == BLOCK_SIZE
      else if numL != 0 then ls == BLOCK_SIZE && rs == unknownLeft
      else ls + rs == unknownLeft && (unknownLeft >= 0 ==> 0 <= ls <= rs <= ls + 1) && (unknownLeft == -1 ==> ls == 0)
  {
    unknownLeft := last - first - (if numR != 0 || numL != 0 then BLOCK_SIZE else 0);
    if numR != 0 {
      ls, rs := unknownLeft, BLOCK_SIZE;
    } else if numL != 0 {
      ls, rs := BLOCK_SIZE, unknownLeft;
    } else {
      ls := Half(unknownLeft);
      rs := unknownLeft - ls;
    }
  }

  /** The unknown elements shared between the blocks, and the buffers filled where nothing is left in them. */
  method FillRest<T>(a: array<T>, less: (T, T) -> bool, pivot: T, ghost begin: nat, ghost end: nat,
                     first: nat, last: nat, bl0: Buffer, br0: Buffer)
    returns (ls: int, rs: int, bl: Buffer, br: Buffer, ghost comparisons: nat)
    requires end <= a.Length && BlockState(a[..], less, pivot, begin, end, first, last, bl0, br0)
    requires last - first <= 2 * BLOCK_SIZE
    ensures Ready(a[..], less, pivot, first, last, ls, rs, bl, br) && first + ls == last - rs
    ensures var unknown := Unknown(first, last, bl0, br0); comparisons == if 0 <= unknown then unknown else 0
  {
    hide LeftBlock, RightBlock;
    bl, br, comparisons := bl0, br0, 0;
    var unknownLeft;
    unknownLeft, ls, rs := UnknownSizes(first, last, bl.num, br.num);
    if first <= last {
      EmptyBlocks(a[..], less, pivot, first, last);
    }
    if unknownLeft != 0 {
      ghost var lefts, rights;
      bl, lefts := RefillLeft(a, less, pivot, first, ls, bl);
      br, rights := RefillRight(a, less, pivot, last, rs, br);
      comparisons := lefts + rights;
    }
  }

  /** The tail: split the unknown elements between the blocks, exchange, and move a leftover list to its end. */
  method FinishBlocks<T>(a: array<T>, less: (T, T) -> bool, pivot: T, ghost begin: nat, ghost end: nat,
                         first0: nat, last0: nat, bl0: Buffer, br0: Buffer) returns (first: nat, ghost comparisons: nat)
    requires end <= a.Length && BlockState(a[..], less, pivot, begin, end, first0, last0, bl0, br0)
    requires last0 - first0 <= 2 * BLOCK_SIZE
    modifies a
    ensures Rearranged(old(a[..]), a[..], begin + 1, end)
    ensures Narrowed(a[..], less, pivot, begin, end, first, first)
    ensures first0 >= last0 ==> a[..] == old(a[..])
    ensures var unknown := Unknown(first0, last0, bl0, br0); comparisons == if 0 <= unknown then unknown else 0
  {
    hide Rearranged, LeftBlock, RightBlock, Narrowed, BlockState;
    ghost var s0 := a[..];
    var last, bl, br;
    first, last, bl, br, comparisons := ExchangeRest(a, less, pivot, begin, end, first0, last0, bl0, br0);
    ghost var s1, lo, hi := a[..], first, last;
    first := FinishLists(a, less, pivot, begin, end, first, last, bl, br);
    RearrangedThen(s0, s1, a[..], lo, hi, begin + 1, end);
    if lo == hi {
      RearrangedEmpty(s1, a[..], lo);
    }
  }

  /** The last fills and the last exchange: one of the lists is used up, and the other one belongs to all that is
      left. */
  method ExchangeRest<T>(a: array<T>, less: (T, T) -> bool, pivot: T, ghost begin: nat, ghost end: nat,
                         first0: nat, last0: nat, bl0: Buffer, br0: Buffer)
    returns (first: nat, last: nat, bl: Buffer, br: Buffer, ghost comparisons: nat)
    requires end <= a.Length && BlockState(a[..], less, pivot, begin, end, first0, last0, bl0, br0)
    requires last0 - first0 <= 2 * BLOCK_SIZE
    modifies a
    ensures Rearranged(old(a[..]), a[..], begin + 1, end)
    ensures begin < first <= last <= end && Narrowed(a[..], less, pivot, begin, end, first, last)
    ensures bl.Valid() && br.Valid() && (bl.num == 0 || br.num == 0) && (bl.num == 0 && br.num == 0 ==> first == last)
    ensures bl.num > 0 ==> LeftBlock(a[..], less, pivot, first, last - first, bl.Listed())
    ensures br.num > 0 ==> RightBlock(a[..], less, pivot, last, last - first, br.Listed())
    ensures first0 >= last0 ==> first == last && a[..] == old(a[..])
    ensures var unknown := Unknown(first0, last0, bl0, br0); comparisons == if 0 <= unknown then unknown else 0
  {
    hide Rearranged, LeftBlock, RightBlock, Ready, Narrowed, BlockState, Unknown;
    ghost var s0 := a[..];
    StateNarrowed(s0, less, pivot, begin, end, first0, last0, bl0, br0);
    NarrowedBounds(s0, less, pivot, begin, end, first0, last0);
    var ls, rs;
    ls, rs, bl, br, comparisons := FillRest(a, less, pivot, begin, end, first0, last0, bl0, br0);
    ReadySizes(s0, less, pivot, first0, last0, ls, rs, bl, br);
    first, last, bl, br := ExchangeBlocks(a, less, pivot, begin, end, first0, last0, ls, rs, bl, br);
    NarrowedBounds(a[..], less, pivot, begin, end, first, last);
    RearrangedRefl(s0, begin + 1, end);
    if first0 <= last0 {
      RearrangedWiden(s0, a[..], first0, last0, begin + 1, end);
      if first0 == last0 {
        RearrangedEmpty(s0, a[..], first0);
      }
    }
  }

  lemma StateNarrowed<T>(s: seq<T>, less: (T, T) -> bool, p: T, begin: int, end: int, first: int, last: int, bl: Buffer,
                         br: Buffer)
    requires BlockState(s, less, p, begin, end, first, last, bl, br)
    ensures Narrowed(s, less, p, begin, end, first, last)
  {
  }

  lemma ReadySizes<T>(s: seq<T>, less: (T, T) -> bool, p: T, first: int, last: int, ls: int, rs: int, bl: Buffer,
                      br: Buffer)
    requires Ready(s, less, p, first, last, ls, rs, bl, br)
    ensures first >= last ==> ls == 0 && rs == last - first
  {
  }

  lemma NarrowedBounds<T>(s: seq<T>, less: (T, T) -> bool, p: T, begin: int, end: int, first: int, last: int)
    requires Narrowed(s, less, p, begin, end, first, last)
    ensures 0 <= begin < first <= end <= |s| && first - 1 <= last <= end
  {
  }

  /** A list that is not used up is moved to its end of the block. */
  method FinishLists<T>(a: array<T>, less: (T, T) -> bool, ghost p: T, ghost begin: nat, ghost end: nat,
                        first0: nat, last0: nat, bl: Buffer, br: Buffer) returns (first: nat)
    requires first0 <= last0 <= end <= a.Length && Narrowed(a[..], less, p, begin, end, first0, last0)
    requires bl.Valid() && br.Valid() && (bl.num == 0 || br.num == 0) &&
      (bl.num == 0 && br.num == 0 ==> first0 == last0)
    requires bl.num > 0 ==> LeftBlock(a[..], less, p, first0, last0 - first0, bl.Listed())
    requires br.num > 0 ==> RightBlock(a[..], less, p, last0, last0 - first0, br.Listed())
    modifies a
    ensures Rearranged(old(a[..]), a[..], first0, last0)
    ensures Narrowed(a[..], less, p, begin, end, first, first)
  {
    hide Rearranged, LeftBlock, RightBlock, Narrowed;
    first := first0;
    RearrangedRefl(a[..], first0, last0);
    if bl.num != 0 {
      first := FinishLeft(a, less, p, begin, end, first, last0, bl.Listed());
    }
    if br.num != 0 {
      first := FinishRight(a, less, p, begin, end, first, last0, br.Listed());
    }
  }

  lemma EmptyBlocks<T>(s: seq<T>, less: (T, T) -> bool, p: T, first: int, last: int)
    requires 0 <= first <= last <= |s|
    ensures LeftBlock(s, less, p, first, 0, []) && RightBlock(s, less, p, last, 0, [])
  {
    NoLeftBlock(s, less, p, first);
    NoRightBlock(s, less, p, last);
  }

  /** Moving the last listed element to the end of the block shortens both the list and the block. */
  lemma FinishLeftStep<T>(s: seq<T>, less: (T, T) -> bool, p: T, begin: int, end: int, first: int, last: int,
                          offs: seq<int>)
    requires Narrowed(s, less, p, begin, end, first, last)
    requires LeftBlock(s, less, p, first, last - first, offs) && |offs| > 0
    ensures var m := |offs| - 1; var x := first + offs[m];
      && first <= x < last
      && Narrowed(Swapped(s, x, last - 1), less, p, begin, end, first, last - 1)
      && LeftBlock(Swapped(s, x, last - 1), less, p, first, last - 1 - first, offs[..m])
  {
    var m := |offs| - 1;
    var rest := offs[..m];
    var t := Swapped(s, first + offs[m], last - 1);
    assert LeftAt(s, less, p, first, offs, last - 1);
    forall k | first <= k < last - 1 ensures LeftAt(t, less, p, first, rest, k) {
      assert LeftAt(s, less, p, first, offs, k);
      if k - first in offs && k != first + offs[m] {
        var i :| 0 <= i < |offs| && offs[i] == k - first;
        assert rest[i] == k - first;
      }
    }
  }

  lemma FinishRightStep<T>(s: seq<T>, less: (T, T) -> bool, p: T, begin: int, end: int, first: int, last: int,
                           offs: seq<int>)
    requires Narrowed(s, less, p, begin, end, first, last)
    requires RightBlock(s, less, p, last, last - first, offs) && |offs| > 0
    ensures var m := |offs| - 1; var x := last - offs[m];
      && first <= x < last
      && Narrowed(Swapped(s, x, first), less, p, begin, end, first + 1, last)
      && RightBlock(Swapped(s, x, first), less, p, last, last - first - 1, offs[..m])
  {
    var m := |offs| - 1;
    var rest := offs[..m];
    var t := Swapped(s, last - offs[m], first);
    assert RightAt(s, less, p, last, offs, first);
    forall k | first + 1 <= k < last ensures RightAt(t, less, p, last, rest, k) {
      assert RightAt(s, less, p, last, offs, k);
      if last - k in offs && k != last - offs[m] {
        var i :| 0 <= i < |offs| && offs[i] == last - k;
        assert rest[i] == last - k;
      }
    }
  }

  lemma FinishLeftDone<T>(s: seq<T>, less: (T, T) -> bool, p: T, begin: int, end: int, first: int, last: int)
    requires first <= last && Narrowed(s, less, p, begin, end, first, last)
    requires LeftBlock(s, less, p, first, last - first, [])
    ensures Narrowed(s, less, p, begin, end, last, last)
  {
    LeftBlockDone(s, less, p, first, last - first);
  }

  lemma FinishRightDone<T>(s: seq<T>, less: (T, T) -> bool, p: T, begin: int, end: int, first: int, last: int)
    requires first <= last && Narrowed(s, less, p, begin, end, first, last)
    requires RightBlock(s, less, p, last, last - first, [])
    ensures Narrowed(s, less, p, begin, end, first, first)
  {
    RightBlockDone(s, less, p, last, last - first);
  }

  method FinishLeft<T>(a: array<T>, less: (T, T) -> bool, ghost p: T, ghost begin: nat, ghost end: nat, first0: nat,
                       last0: nat, offs: seq<int>)
    returns (first: nat)
    requires last0 <= end <= a.Length && first0 <= last0 && Narrowed(a[..], less, p, begin, end, first0, last0)
    requires LeftBlock(a[..], less, p, first0, last0 - first0, offs)
    modifies a
    ensures Rearranged(old(a[..]), a[..], first0, last0)
    ensures Narrowed(a[..], less, p, begin, end, first, first)
  {
    hide Rearranged, LeftBlock, Narrowed, Swapped;
    var rest, last := offs, last0;
    RearrangedRefl(a[..], first0, last0);
    while |rest| > 0
      invariant first0 <= last <= last0
      invariant Narrowed(a[..], less, p, begin, end, first0, last)
      invariant LeftBlock(a[..], less, p, first0, last - first0, rest)
      invariant Rearranged(old(a[..]), a[..], first0, last0)
      decreases |rest|
    {
      ghost var s := a[..];
      FinishLeftStep(s, less, p, begin, end, first0, last, rest);
      last := last - 1;
      Swap(a, first0 + rest[|rest| - 1], last, first0, last0);
      SwapKeepsRearranged(old(a[..]), s, first0 + rest[|rest| - 1], last, first0, last0);
      rest := rest[..|rest| - 1];
    }
    FinishLeftDone(a[..], less, p, begin, end, first0, last);
    first := last;
  }

  method FinishRight<T>(a: array<T>, less: (T, T) -> bool, ghost p: T, ghost begin: nat, ghost end: nat, first0: nat,
                        last0: nat, offs: seq<int>)
    returns (first: nat)
    requires last0 <= end <= a.Length && first0 <= last0 && Narrowed(a[..], less, p, begin, end, first0, last0)
    requires RightBlock(a[..], less, p, last0, last0 - first0, offs)
    modifies a
    ensures Rearranged(old(a[..]), a[..], first0, last0)
    ensures Narrowed(a[..], less, p, begin, end, first, first)
  {
    hide Rearranged, RightBlock, Narrowed, Swapped;
    var rest := offs;
    first := first0;
    RearrangedRefl(a[..], first0, last0);
    while |rest| > 0
      invariant first0 <= first <= last0
      invariant Narrowed(a[..], less, p, begin, end, first, last0)
      invariant RightBlock(a[..], less, p, last0, last0 - first, rest)
      invariant Rearranged(old(a[..]), a[..], first0, last0)
      decreases |rest|
    {
      ghost var s := a[..];
      FinishRightStep(s, less, p, begin, end, first, last0, rest);
      Swap(a, last0 - rest[|rest| - 1], first, first0, last0);
      SwapKeepsRearranged(old(a[..]), s, last0 - rest[|rest| - 1], first, first0, last0);
      first := first + 1;
      rest := rest[..|rest| - 1];
    }
    FinishRightDone(a[..], less, p, begin, end, first, last0);
  }

  /** The first swap, if any, leaves the scanned range narrowed. */
  lemma StartNarrowed<T>(s: seq<T>, less: (T, T) -> bool, begin: int, end: int, first: int, last: int)
    requires FirstPair(s, less, begin, end, first, last)
    ensures first < last ==> Narrowed(Swapped(s, first, last), less, s[begin], begin, end, first + 1, last)
    ensures first >= last ==> Narrowed(s, less, s[begin], begin, end, first, last)
  {
  }

  lemma PlaceNarrowed<T>(s: seq<T>, t: seq<T>, less: (T, T) -> bool, begin: int, end: int, first: int, already: bool)
    requires 0 <= begin < end <= |s| == |t| && Rearranged(s, t, begin + 1, end)
    requires Narrowed(t, less, s[begin], begin, end, first, first)
    requires already <==> AlreadySplit(s[begin + 1..end], less, s[begin])
    ensures t[begin] == s[begin] && begin < first <= end
    ensures PartitionedRight(s, Swapped(t, begin, first - 1), less, begin, end, first - 1, already)
  {
    RearrangedOutside(s, t, begin + 1, end, begin);
    PlacePivot(s, t, Swapped(t, begin, first - 1), less, begin, end, first, already);
  }

  /** The scans before the block loop, and the exchange of their pair. */
  method OpenBlocks<T>(a: array<T>, less: (T, T) -> bool, begin: nat, end: nat)
    returns (first: nat, last: nat, already: bool, ghost comparisons: nat)
    requires begin < end <= a.Length && HasUpper(a[..], less, begin, end)
    modifies a
    ensures comparisons <= first - begin + end - last
    ensures Rearranged(old(a[..]), a[..], begin + 1, end)
    ensures Narrowed(a[..], less, old(a[begin]), begin, end, first, last)
    ensures already <==> AlreadySplit(old(a[..])[begin + 1..end], less, old(a[begin]))
    ensures already ==> first >= last && a[..] == old(a[..])
  {
    hide Rearranged, Narrowed, HasUpper, AlreadySplit, Swapped;
    ghost var s := a[..];
    first, last, comparisons := FindFirstPair(a, less, begin, end);
    FirstPairFlag(s, less, begin, end, first, last);
    StartNarrowed(s, less, begin, end, first, last);
    already := first >= last;
    RearrangedRefl(s, begin + 1, end);
    if !already {
      Swap(a, first, last, begin + 1, end);
      first := first + 1;
    }
  }

  lemma UnknownBound<T>(s: seq<T>, less: (T, T) -> bool, p: T, begin: int, end: int, first: int, last: int, bl: Buffer,
                        br: Buffer)
    requires BlockState(s, less, p, begin, end, first, last, bl, br)
    ensures Unknown(first, last, bl, br) >= -1
  {
  }

  method PartitionRightBranchless<T>(a: array<T>, less: (T, T) -> bool, begin: nat, end: nat)
    returns (pos: nat, already: bool, ghost comparisons: nat)
    requires begin < end <= a.Length && HasUpper(a[..], less, begin, end)
    modifies a
    ensures PartitionedRight(old(a[..]), a[..], less, begin, end, pos, already)
    ensures already ==> a[..] == Swapped(old(a[..]), begin, pos)
    ensures comparisons <= end - begin + 1
  {
    hide Rearranged, BlockState, Narrowed, PartitionedRight, HasUpper, AlreadySplit, Swapped;
    ghost var s := a[..];
    var pivot := a[begin];
    var first, last;
    first, last, already, comparisons := OpenBlocks(a, less, begin, end);
    ghost var t, more := a[..], 0;
    var bl, br;
    first, last, bl, br, more := BlockLoop(a, less, pivot, begin, end, first, last);
    comparisons := comparisons + more;
    RearrangedTrans(s, t, a[..], begin + 1, end);
    t := a[..];
    UnknownBound(t, less, pivot, begin, end, first, last, bl, br);
    first, more := FinishBlocks(a, less, pivot, begin, end, first, last, bl, br);
    comparisons := comparisons + more;
    RearrangedTrans(s, t, a[..], begin + 1, end);
    t := a[..];
    PlaceNarrowed(s, t, less, begin, end, first, already);
    pos := first - 1;
    MovePivot(a, begin, pos, pivot);
  }
}
