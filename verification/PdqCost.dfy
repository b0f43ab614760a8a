/** The accounting behind the O(n log n) guarantee of contrib/pdqsort/pdqsort.h: recursion depth and total work. */
module PdqCost {
  import opened Modular
  import opened Bits

  const INSERTION_SORT_THRESHOLD := 24

  /** What a sort costs: the depth of left recursion, the length of all ranges partitioned or heap sorted, the largest
      number of unbalanced partitions that one element goes through, and the comparisons made outside heap sort. */
  datatype Cost = Cost(depth: nat, work: nat, bad: nat, comparisons: nat)

  /** floor(log2(n)) by the shifting loop of the source. */
  method Log2(n: nat) returns (log: nat)
    requires n > 0
    ensures log == FloorLog2(n)
  {
    log := 0;
    var m := n;
    while m / 2 != 0
      invariant m > 0 && FloorLog2(n) == log + FloorLog2(m)
      decreases m
    {
      m := m / 2;
      log := log + 1;
    }
  }

  function FloorLog2(n: nat): nat
    requires n > 0
  {
    if n == 1 then 0 else 1 + FloorLog2(n / 2)
  }

  /** FloorLog2 is the exponent of the largest power of two not above n. */
  lemma {:induction false} FloorLog2IsFloor(n: nat)
    requires n > 0
    ensures Pow2(FloorLog2(n)) <= n < 2 * Pow2(FloorLog2(n))
  {
    if n > 1 {
      FloorLog2IsFloor(n / 2);
    }
  }

  /** How often a range can shrink by the factor a balanced partition guarantees before insertion sort takes over. */
  function Shrinks(n: nat): nat {
    if n < INSERTION_SORT_THRESHOLD then 0 else 1 + Shrinks(n - 1 - n / 8)
  }

  lemma {:induction false} ShrinksMonotone(m: nat, n: nat)
    requires m <= n
    ensures Shrinks(m) <= Shrinks(n)
    decreases n
  {
    if m >= INSERTION_SORT_THRESHOLD {
      assert m - 1 - m / 8 <= n - 1 - n / 8;
      ShrinksMonotone(m - 1 - m / 8, n - 1 - n / 8);
    }
  }

  function Shrunk(n: nat): nat {
    if n == 0 then 0 else n - 1 - n / 8
  }

  /** Six shrinkings at least halve a range. */
  lemma SixShrinksHalve(n: nat)
    ensures Shrunk(Shrunk(Shrunk(Shrunk(Shrunk(Shrunk(n)))))) <= n / 2
  {
    ShrunkBound(n);
    ShrunkBound(Shrunk(n));
    ShrunkBound(Shrunk(Shrunk(n)));
    ShrunkBound(Shrunk(Shrunk(Shrunk(n))));
    ShrunkBound(Shrunk(Shrunk(Shrunk(Shrunk(n)))));
    ShrunkBound(Shrunk(Shrunk(Shrunk(Shrunk(Shrunk(n))))));
  }

  lemma ShrunkBound(n: nat)
    ensures 8 * Shrunk(n) <= 7 * n
  {
  }

  lemma ShrinksStep(n: nat)
    ensures Shrinks(n) <= 1 + Shrinks(Shrunk(n))
  {
  }

  /** The number of shrinkings is logarithmic. */
  lemma {:induction false} ShrinksLogarithmic(n: nat)
    requires n > 0
    ensures Shrinks(n) <= 6 * FloorLog2(n)
    decreases n
  {
    if n > 1 {
      var n1 := Shrunk(n);
      var n2 := Shrunk(n1);
      var n3 := Shrunk(n2);
      var n4 := Shrunk(n3);
      var n5 := Shrunk(n4);
      ShrinksStep(n);
      ShrinksStep(n1);
      ShrinksStep(n2);
      ShrinksStep(n3);
      ShrinksStep(n4);
      ShrinksStep(n5);
      SixShrinksHalve(n);
      ShrinksMonotone(Shrunk(n5), n / 2);
      ShrinksLogarithmic(n / 2);
    }
  }

  /** What may still be spent on a range of n elements with the given budget of bad partitions. `strict` says that
      the element before the range is strictly below it, so that the next partition is not a left one. */
  function Allowance(n: nat, bad: nat, strict: bool): nat {
    2 * Times(n, bad + Shrinks(n)) + (if strict then 0 else n)
  }

  /** Multiplication under a name, so that proofs can treat products as atoms. */
  function Times(x: nat, y: nat): nat {
    x * y
  }

  lemma SplitArithmetic(n: nat, l: nat, r: nat, k: nat, kl: nat, kr: nat)
    requires n == l + 1 + r && kl + 1 <= k && kr + 1 <= k
    ensures n + 2 * Times(l, kl) + 2 * Times(r, kr) + r <= 2 * Times(n, k)
  {
    MulLe(kl + 1, k, l);
    MulLe(kr + 1, k, r);
    assert l * (kl + 1) == l * kl + l;
    assert r * (kr + 1) == r * kr + r;
    assert n * k == l * k + k + r * k;
  }

  /** Either the budget or the number of possible shrinkings goes down by one on both sides. */
  lemma SplitLevels(n: nat, bad: nat, l: nat, r: nat, bad': nat)
    requires n >= INSERTION_SORT_THRESHOLD && l + 1 + r == n && 1 <= bad
    requires if l < n / 8 || r < n / 8 then bad' == bad - 1 else bad' == bad
    ensures bad' + Shrinks(l) + 1 <= bad + Shrinks(n)
    ensures bad' + Shrinks(r) + 1 <= bad + Shrinks(n)
  {
    var m := n - 1 - n / 8;
    assert Shrinks(n) == 1 + Shrinks(m);
    hide Shrinks;
    if l < n / 8 || r < n / 8 {
      ShrinksMonotone(l, n);
      ShrinksMonotone(r, n);
    } else {
      ShrinksMonotone(l, m);
      ShrinksMonotone(r, m);
    }
  }

  /** A right partition into l and r elements, with the budget it leaves, pays for itself. */
  lemma SplitPays(n: nat, bad: nat, l: nat, r: nat, bad': nat, strict: bool)
    requires n >= INSERTION_SORT_THRESHOLD && l + 1 + r == n && 1 <= bad
    requires if l < n / 8 || r < n / 8 then bad' == bad - 1 else bad' == bad
    ensures n + Allowance(l, bad', strict) + Allowance(r, bad', false) <= Allowance(n, bad, strict)
  {
    hide Shrinks, Times;
    SplitLevels(n, bad, l, r, bad');
    SplitArithmetic(n, l, r, bad + Shrinks(n), bad' + Shrinks(l), bad' + Shrinks(r));
  }

  /** A left partition, paid for by the non-strict part of the allowance. */
  lemma LeftPartitionPays(n: nat, bad: nat, r: nat)
    requires r < n
    ensures n + Allowance(r, bad, true) <= Allowance(n, bad, false)
  {
    hide Shrinks, Times;
    ShrinksMonotone(r, n);
    LeftArithmetic(r, n, bad + Shrinks(r), bad + Shrinks(n));
  }

  lemma LeftArithmetic(r: nat, n: nat, x: nat, y: nat)
    requires r <= n && x <= y
    ensures Times(r, x) <= Times(n, y)
  {
    MulLe(x, y, r);
    MulLe(r, n, y);
  }

  /** Falling back to heap sort after a partition is paid for by the last unit of budget. */
  lemma HeapSortPays(n: nat, bad: nat, strict: bool)
    requires 1 <= bad
    ensures 2 * n <= Allowance(n, bad, strict)
  {
    hide Shrinks;
    MulLe(1, bad + Shrinks(n), n);
    assert n * 1 == n;
  }

  /** The whole allowance of a top-level call is linear-logarithmic. */
  lemma TopAllowance(n: nat)
    requires n > 0
    ensures Allowance(n, FloorLog2(n), true) <= 14 * Times(n, FloorLog2(n))
    ensures FloorLog2(n) + Shrinks(n) <= 7 * FloorLog2(n)
  {
    ShrinksLogarithmic(n);
    var log, shrinks := FloorLog2(n), Shrinks(n);
    hide Shrinks, FloorLog2, Times;
    TopArithmetic(n, log, shrinks);
  }

  lemma TopArithmetic(n: nat, log: nat, shrinks: nat)
    requires shrinks <= 6 * log
    ensures 2 * Times(n, log + shrinks) <= 14 * Times(n, log)
  {
    MulLe(log + shrinks, 7 * log, n);
    assert n * (7 * log) == 7 * (n * log);
  }
}
