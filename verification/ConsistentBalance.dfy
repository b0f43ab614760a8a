/** Counting the keys of every bucket of the consistent hash. For a power of two all buckets get the same number and the
    promised share of keys moves; no function can do so exactly for other numbers of buckets. */
module ConsistentBalance {
  import opened Wrappers
  import opened Modular
  import opened Bits
  import opened ConsistentHash

  // ----- Counting residues -----

  /** How many of 0, ..., n - 1 have their residue modulo p in [lo, hi). */
  ghost function Residues(n: nat, p: nat, lo: nat, hi: nat): nat
    requires p > 0
  {
    if n == 0 then 0 else Residues(n - 1, p, lo, hi) + (if lo <= (n - 1) % p < hi then 1 else 0)
  }

  lemma ResiduesStep(n: nat, p: nat, lo: nat, hi: nat)
    requires p > 0
    ensures Residues(n + 1, p, lo, hi) == Residues(n, p, lo, hi) + if lo <= n % p < hi then 1 else 0
  {
  }

  lemma {:induction false} PartOfPeriod(start: nat, m: nat, j: nat, p: nat, lo: nat, hi: nat)
    requires p > 0 && j <= p && lo <= hi <= p && start == p * m
    ensures Residues(start + j, p, lo, hi)
         == Residues(start, p, lo, hi) + (if j <= lo then 0 else if j <= hi then j - lo else hi - lo)
    decreases j
  {
    if j > 0 {
      hide Residues;
      PartOfPeriod(start, m, j - 1, p, lo, hi);
      ResiduesStep(start + (j - 1), p, lo, hi);
      DivModUnique(start + (j - 1), p, m, j - 1);
    }
  }

  /** Every period contributes hi - lo. */
  lemma {:induction false} WholePeriods(m: nat, p: nat, lo: nat, hi: nat)
    requires p > 0 && lo <= hi <= p
    ensures Residues(m * p, p, lo, hi) == m * (hi - lo)
  {
    if m == 0 {
      assert m * p == 0 && m * (hi - lo) == 0;
    } else {
      hide Residues;
      var start, d := (m - 1) * p, hi - lo;
      WholePeriods(m - 1, p, lo, hi);
      assert start == p * (m - 1);
      PartOfPeriod(start, m - 1, p, p, lo, hi);
      OneMoreTimes(p, m - 1);
      OneMoreTimes(d, m - 1);
    }
  }

  lemma ResiduesOfWord(w: nat, k: nat, lo: nat, hi: nat)
    requires k <= w && lo <= hi <= Pow2(k)
    ensures Residues(Pow2(w), Pow2(k), lo, hi) == Pow2(w - k) * (hi - lo)
  {
    Pow2Add(w - k, k);
    WholePeriods(Pow2(w - k), Pow2(k), lo, hi);
  }

  // ----- Counting keys -----

  /** The key goes to one of the buckets lo, ..., hi - 1 of n. */
  predicate Hit(a: nat, b: nat, c: nat, d: nat, n: nat, lo: nat, hi: nat, w: nat)
    requires Supported(n, w)
  {
    HashBelow(Key(a, b, c, d), n, w);
    lo <= Hash(Key(a, b, c, d), n, w).value < hi
  }

  predicate Supported(n: nat, w: nat) {
    w >= 2 && 1 <= n <= Pow2(w - 1)
  }

  function One(p: bool): nat {
    if p then 1 else 0
  }

  /** How many b below m send the key (a, b, c, d) to a bucket in [lo, hi). */
  ghost function CountB(m: nat, a: nat, c: nat, d: nat, n: nat, lo: nat, hi: nat, w: nat): nat
    requires Supported(n, w)
  {
    if m == 0 then 0 else CountB(m - 1, a, c, d, n, lo, hi, w) + One(Hit(a, m - 1, c, d, n, lo, hi, w))
  }

  /** How many pairs (a, b), with a below m and b any word. */
  ghost function CountAB(m: nat, c: nat, d: nat, n: nat, lo: nat, hi: nat, w: nat): nat
    requires Supported(n, w)
  {
    if m == 0 then 0 else CountAB(m - 1, c, d, n, lo, hi, w) + CountB(Pow2(w), m - 1, c, d, n, lo, hi, w)
  }

  /** How many triples, with c below m. */
  ghost function CountABC(m: nat, d: nat, n: nat, lo: nat, hi: nat, w: nat): nat
    requires Supported(n, w)
  {
    if m == 0 then 0 else CountABC(m - 1, d, n, lo, hi, w) + CountAB(Pow2(w), m - 1, d, n, lo, hi, w)
  }

  /** How many keys, with d below m. */
  ghost function CountABCD(m: nat, n: nat, lo: nat, hi: nat, w: nat): nat
    requires Supported(n, w)
  {
    if m == 0 then 0 else CountABCD(m - 1, n, lo, hi, w) + CountABC(Pow2(w), m - 1, n, lo, hi, w)
  }

  /** How many of the 2^(4w) keys the hash sends to bucket v of n. */
  ghost function Keys(n: nat, v: nat, w: nat): nat
    requires Supported(n, w)
  {
    CountABCD(Pow2(w), n, v, v + 1, w)
  }

  // ----- Powers of two -----

  /** For a power of two the hash is the power-of-two scheme. */
  lemma HashAtPower(key: Key, k: nat, w: nat)
    requires w >= 2 && k < w && Pow2(k) <= Pow2(w - 1)
    ensures Hash(key, Pow2(k), w) == Ok(ForPowerOf2(key, Pow2(k), w))
  {
    if k == 0 {
      HashBelow(key, 1, w);
      ForPowerOf2Bound(key, 0, w);
      hide Hash, ForPowerOf2;
      assert Pow2(0) == 1;
    } else {
      hide Hash, ForPowerOf2, Second;
      Pow2Step(k - 1);
      var _, _, _ := HashIs(key, Pow2(k), w, k);
    }
  }

  /** When a block of c decides for the bits below its highest bit y, the bucket is v exactly when v has the same
      highest bit and the word chosen ends in the other bits of v. */
  lemma HitBlock(a: nat, b: nat, c: nat, d: nat, k: nat, v: nat, w: nat, y: nat)
    requires w >= 2 && k < w && Supported(Pow2(k), w) && 1 <= y < k && Pow2(y) <= c % Pow2(k) < Pow2(y + 1)
    ensures Hit(a, b, c, d, Pow2(k), v, v + 1, w) <==>
      Pow2(y) <= v < Pow2(y + 1) && SelectBlock(a, b, c % Pow2(k)) % Pow2(y) == v - Pow2(y)
  {
    HashAtPower(Key(a, b, c, d), k, w);
    ForPowerOf2Is(Key(a, b, c, d), k, w);
    BitCountUnique(c % Pow2(k), y);
    hide Hash, ForPowerOf2, SelectBlock;
    Pow2Step(y);
    Pow2Step(y - 1);
  }

  lemma HitSmall(a: nat, b: nat, c: nat, d: nat, k: nat, v: nat, w: nat)
    requires w >= 2 && k < w && Supported(Pow2(k), w) && c % Pow2(k) < 2
    ensures Hit(a, b, c, d, Pow2(k), v, v + 1, w) <==> c % Pow2(k) == v
  {
    HashAtPower(Key(a, b, c, d), k, w);
    ForPowerOf2Is(Key(a, b, c, d), k, w);
    hide Hash, ForPowerOf2;
  }

  lemma {:induction false} CountBSmall(n: nat, a: nat, c: nat, d: nat, k: nat, v: nat, w: nat)
    requires w >= 2 && k < w && Supported(Pow2(k), w) && c % Pow2(k) < 2
    ensures CountB(n, a, c, d, Pow2(k), v, v + 1, w) == if c % Pow2(k) == v then n else 0
  {
    hide Hit;
    if n > 0 {
      CountBSmall(n - 1, a, c, d, k, v, w);
      HitSmall(a, n - 1, c, d, k, v, w);
    }
  }

  lemma {:induction false} CountABSmall(n: nat, c: nat, d: nat, k: nat, v: nat, w: nat)
    requires w >= 2 && k < w && Supported(Pow2(k), w) && c % Pow2(k) < 2
    ensures CountAB(n, c, d, Pow2(k), v, v + 1, w) == if c % Pow2(k) == v then n * Pow2(w) else 0
  {
    hide CountB, Pow2;
    if n > 0 {
      CountABSmall(n - 1, c, d, k, v, w);
      CountBSmall(Pow2(w), n - 1, c, d, k, v, w);
      assert (n - 1) * Pow2(w) + Pow2(w) == n * Pow2(w);
    }
  }

  predicate UsesA(c: nat, k: nat) {
    PopCount(c % Pow2(k)) % 2 == 0
  }

  lemma {:induction false} CountBBlock(n: nat, a: nat, c: nat, d: nat, k: nat, v: nat, w: nat, y: nat)
    requires w >= 2 && k < w && Supported(Pow2(k), w) && 1 <= y < k && Pow2(y) <= c % Pow2(k) < Pow2(y + 1)
    ensures CountB(n, a, c, d, Pow2(k), v, v + 1, w) ==
      if !(Pow2(y) <= v < Pow2(y + 1)) then 0
      else if UsesA(c, k) then (if a % Pow2(y) == v - Pow2(y) then n else 0)
      else Residues(n, Pow2(y), v - Pow2(y), v - Pow2(y) + 1)
  {
    hide Hit, Pow2, PopCount;
    if n > 0 {
      CountBBlock(n - 1, a, c, d, k, v, w, y);
      HitBlock(a, n - 1, c, d, k, v, w, y);
    }
  }

  lemma {:induction false} CountABBlock(n: nat, c: nat, d: nat, k: nat, v: nat, w: nat, y: nat)
    requires w >= 2 && k < w && Supported(Pow2(k), w) && 1 <= y < k && Pow2(y) <= c % Pow2(k) < Pow2(y + 1)
    ensures CountAB(n, c, d, Pow2(k), v, v + 1, w) ==
      if !(Pow2(y) <= v < Pow2(y + 1)) then 0
      else if UsesA(c, k) then Pow2(w) * Residues(n, Pow2(y), v - Pow2(y), v - Pow2(y) + 1)
      else n * Residues(Pow2(w), Pow2(y), v - Pow2(y), v - Pow2(y) + 1)
  {
    hide CountB, Pow2, UsesA, Residues;
    if n == 0 {
      NoResidues(Pow2(y), v, Pow2(w));
    } else {
      CountABBlock(n - 1, c, d, k, v, w, y);
      CountBBlock(Pow2(w), n - 1, c, d, k, v, w, y);
      if Pow2(y) <= v < Pow2(y + 1) {
        var t := v - Pow2(y);
        ResiduesStep(n - 1, Pow2(y), t, t + 1);
        OneMoreTimes(Pow2(w), Residues(n - 1, Pow2(y), t, t + 1));
        OneMoreTimes(Residues(Pow2(w), Pow2(y), t, t + 1), n - 1);
      }
    }
  }

  lemma OneMoreTimes(x: nat, r: nat)
    ensures x * (r + 1) == x * r + x && (r + 1) * x == r * x + x
  {
  }

  lemma NoResidues(p: nat, v: nat, words: nat)
    requires p > 0
    ensures v >= p ==> Residues(0, p, v - p, v - p + 1) == 0
    ensures words * 0 == 0
  {
  }

  /** Whichever word is chosen, the pairs (a, b) are the same number. */
  lemma PairsPerBlock(c: nat, d: nat, k: nat, v: nat, w: nat, y: nat)
    requires w >= 2 && k < w && Supported(Pow2(k), w) && 1 <= y < k && Pow2(y) <= c % Pow2(k) < Pow2(y + 1)
    ensures CountAB(Pow2(w), c, d, Pow2(k), v, v + 1, w)
         == if Pow2(y) <= v < Pow2(y + 1) then Pow2(w) * Pow2(w - y) else 0
  {
    CountABBlock(Pow2(w), c, d, k, v, w, y);
    hide CountAB, UsesA, Residues;
    if Pow2(y) <= v < Pow2(y + 1) {
      assert Pow2(y + 1) == 2 * Pow2(y);
      hide Pow2;
      ResiduesOfWord(w, y, v - Pow2(y), v - Pow2(y) + 1);
    }
  }

  /** The keys with a given c: all or none for the two smallest blocks, otherwise those whose highest bit matches. */
  lemma PairsPerC(c: nat, d: nat, k: nat, v: nat, w: nat, y: nat)
    requires w >= 2 && k < w && Supported(Pow2(k), w) && v < Pow2(k) &&
      (v < 2 || (1 <= y < k && Pow2(y) <= v < Pow2(y + 1)))
    ensures CountAB(Pow2(w), c, d, Pow2(k), v, v + 1, w) ==
      if v < 2 then (if c % Pow2(k) == v then Pow2(w) * Pow2(w) else 0)
      else if Pow2(y) <= c % Pow2(k) < Pow2(y + 1) then Pow2(w) * Pow2(w - y) else 0
  {
    var block := c % Pow2(k);
    if block < 2 {
      CountABSmall(Pow2(w), c, d, k, v, w);
      if v >= 2 {
        assert Pow2(y) == 2 * Pow2(y - 1);
      }
    } else {
      BitCountBounds(block);
      var z := BitCount(block) - 1;
      BlockTop(block, z, k);
      PairsPerBlock(c, d, k, v, w, z);
      hide CountAB;
      if v < 2 {
        assert Pow2(z) == 2 * Pow2(z - 1);
      } else if z != y {
        OneOctave(v, y, z);
        OneOctave(block, z, y);
      }
    }
  }

  lemma BlockTop(block: nat, z: nat, k: nat)
    requires 2 <= block < Pow2(k) && Pow2(z) <= block < Pow2(z + 1)
    ensures 1 <= z < k
  {
    if z >= k {
      Pow2Monotone(k, z);
    }
  }

  lemma OneOctave(v: nat, y: nat, z: nat)
    requires Pow2(y) <= v < Pow2(y + 1) && y != z
    ensures !(Pow2(z) <= v < Pow2(z + 1))
  {
    if y < z {
      Pow2Monotone(y + 1, z);
    } else {
      Pow2Monotone(z + 1, y);
    }
  }

  lemma {:induction false} CountSmall(n: nat, d: nat, k: nat, v: nat, w: nat)
    requires w >= 2 && k < w && Supported(Pow2(k), w) && v < Pow2(k) && v < 2
    ensures CountABC(n, d, Pow2(k), v, v + 1, w) == Pow2(w) * Pow2(w) * Residues(n, Pow2(k), v, v + 1)
  {
    hide CountAB, Pow2;
    if n > 0 {
      CountSmall(n - 1, d, k, v, w);
      PairsPerC(n - 1, d, k, v, w, 0);
      OneMoreTimes(Pow2(w) * Pow2(w), Residues(n - 1, Pow2(k), v, v + 1));
    }
  }

  lemma {:induction false} CountLarge(n: nat, d: nat, k: nat, v: nat, w: nat, y: nat)
    requires w >= 2 && k < w && Supported(Pow2(k), w) && 2 <= v < Pow2(k) && 1 <= y < k && Pow2(y) <= v < Pow2(y + 1)
    ensures CountABC(n, d, Pow2(k), v, v + 1, w) == Pow2(w) * Pow2(w - y) * Residues(n, Pow2(k), Pow2(y), Pow2(y + 1))
  {
    hide CountAB, Pow2;
    if n > 0 {
      CountLarge(n - 1, d, k, v, w, y);
      PairsPerC(n - 1, d, k, v, w, y);
      OneMoreTimes(Pow2(w) * Pow2(w - y), Residues(n - 1, Pow2(k), Pow2(y), Pow2(y + 1)));
    }
  }

  /** Of the 2^(3w) keys with a given d, exactly 2^(3w - k) go to each of the 2^k buckets. */
  lemma BalancedTriples(k: nat, v: nat, w: nat, d: nat)
    requires w >= 2 && k < w && Supported(Pow2(k), w) && v < Pow2(k)
    ensures CountABC(Pow2(w), d, Pow2(k), v, v + 1, w) == Pow2(w) * Pow2(w) * Pow2(w - k)
  {
    hide CountABC, Residues, Pow2;
    if v < 2 {
      CountSmall(Pow2(w), d, k, v, w);
      ResiduesOfWord(w, k, v, v + 1);
    } else {
      BitCountBounds(v);
      LargeTriples(k, v, w, d, BitCount(v) - 1);
    }
  }

  lemma LargeTriples(k: nat, v: nat, w: nat, d: nat, y: nat)
    requires w >= 2 && k < w && Supported(Pow2(k), w) && 2 <= v < Pow2(k) && Pow2(y) <= v < Pow2(y + 1)
    ensures CountABC(Pow2(w), d, Pow2(k), v, v + 1, w) == Pow2(w) * Pow2(w) * Pow2(w - k)
  {
    hide CountABC, Residues, Pow2, Supported;
    BlockTop(v, y, k);
    CountLarge(Pow2(w), d, k, v, w, y);
    Pow2Monotone(y + 1, k);
    Pow2Step(y);
    ResiduesOfWord(w, k, Pow2(y), Pow2(y + 1));
    Pow2Add(w - y, y);
    Product(Pow2(w), Pow2(w - y), Pow2(w - k), Pow2(y));
  }

  lemma Product(n: nat, a: nat, b: nat, c: nat)
    requires a * c == n
    ensures n * a * (b * c) == n * n * b
  {
    assert n * a * (b * c) == n * (a * c) * b;
  }

  lemma {:induction false} BalancedKeys(m: nat, k: nat, v: nat, w: nat)
    requires w >= 2 && k < w && Supported(Pow2(k), w) && v < Pow2(k)
    ensures CountABCD(m, Pow2(k), v, v + 1, w) == m * (Pow2(w) * Pow2(w) * Pow2(w - k))
  {
    hide CountABC, Pow2;
    if m > 0 {
      BalancedKeys(m - 1, k, v, w);
      BalancedTriples(k, v, w, m - 1);
      OneMoreTimes(Pow2(w) * Pow2(w) * Pow2(w - k), m - 1);
    }
  }

  // ----- All numbers of buckets -----

  /** Neighbouring ranges of buckets add up. */
  lemma {:induction false} SplitB(m: nat, a: nat, c: nat, d: nat, n: nat, lo: nat, mid: nat, hi: nat, w: nat)
    requires Supported(n, w) && lo <= mid <= hi
    ensures CountB(m, a, c, d, n, lo, hi, w) == CountB(m, a, c, d, n, lo, mid, w) + CountB(m, a, c, d, n, mid, hi, w)
  {
    if m > 0 {
      SplitB(m - 1, a, c, d, n, lo, mid, hi, w);
      hide Hash, Pow2;
    }
  }

  lemma {:induction false} SplitAB(m: nat, c: nat, d: nat, n: nat, lo: nat, mid: nat, hi: nat, w: nat)
    requires Supported(n, w) && lo <= mid <= hi
    ensures CountAB(m, c, d, n, lo, hi, w) == CountAB(m, c, d, n, lo, mid, w) + CountAB(m, c, d, n, mid, hi, w)
  {
    hide CountB, Pow2;
    if m > 0 {
      SplitAB(m - 1, c, d, n, lo, mid, hi, w);
      SplitB(Pow2(w), m - 1, c, d, n, lo, mid, hi, w);
    }
  }

  lemma {:induction false} SplitABC(m: nat, d: nat, n: nat, lo: nat, mid: nat, hi: nat, w: nat)
    requires Supported(n, w) && lo <= mid <= hi
    ensures CountABC(m, d, n, lo, hi, w) == CountABC(m, d, n, lo, mid, w) + CountABC(m, d, n, mid, hi, w)
  {
    hide CountAB, Pow2;
    if m > 0 {
      SplitABC(m - 1, d, n, lo, mid, hi, w);
      SplitAB(Pow2(w), m - 1, d, n, lo, mid, hi, w);
    }
  }

  lemma {:induction false} SplitABCD(m: nat, n: nat, lo: nat, mid: nat, hi: nat, w: nat)
    requires Supported(n, w) && lo <= mid <= hi
    ensures CountABCD(m, n, lo, hi, w) == CountABCD(m, n, lo, mid, w) + CountABCD(m, n, mid, hi, w)
  {
    hide CountABC, Pow2;
    if m > 0 {
      SplitABCD(m - 1, n, lo, mid, hi, w);
      SplitABC(Pow2(w), m - 1, n, lo, mid, hi, w);
    }
  }

  lemma AlwaysHit(a: nat, b: nat, c: nat, d: nat, n: nat, w: nat)
    requires Supported(n, w)
    ensures Hit(a, b, c, d, n, 0, n, w)
  {
    hide Hash;
    HashBelow(Key(a, b, c, d), n, w);
  }

  /** Every key has a bucket. */
  lemma {:induction false} AllB(m: nat, a: nat, c: nat, d: nat, n: nat, w: nat)
    requires Supported(n, w)
    ensures CountB(m, a, c, d, n, 0, n, w) == m
  {
    hide Hit, Hash, Pow2, Supported;
    if m > 0 {
      AllB(m - 1, a, c, d, n, w);
      AlwaysHit(a, m - 1, c, d, n, w);
    }
  }

  lemma {:induction false} AllAB(m: nat, c: nat, d: nat, n: nat, w: nat)
    requires Supported(n, w)
    ensures CountAB(m, c, d, n, 0, n, w) == m * Pow2(w)
  {
    hide CountB, Pow2;
    if m > 0 {
      AllAB(m - 1, c, d, n, w);
      AllB(Pow2(w), m - 1, c, d, n, w);
      OneMoreTimes(Pow2(w), m - 1);
    }
  }

  lemma {:induction false} AllABC(m: nat, d: nat, n: nat, w: nat)
    requires Supported(n, w)
    ensures CountABC(m, d, n, 0, n, w) == m * (Pow2(w) * Pow2(w))
  {
    hide CountAB, Pow2;
    if m > 0 {
      AllABC(m - 1, d, n, w);
      AllAB(Pow2(w), m - 1, d, n, w);
      OneMoreTimes(Pow2(w) * Pow2(w), m - 1);
    }
  }

  lemma {:induction false} AllABCD(m: nat, n: nat, w: nat)
    requires Supported(n, w)
    ensures CountABCD(m, n, 0, n, w) == m * (Pow2(w) * (Pow2(w) * Pow2(w)))
  {
    hide CountABC, Pow2;
    if m > 0 {
      AllABCD(m - 1, n, w);
      AllABC(Pow2(w), m - 1, n, w);
      OneMoreTimes(Pow2(w) * (Pow2(w) * Pow2(w)), m - 1);
    }
  }

  /** All n buckets get the same number of keys. */
  ghost predicate Even(n: nat, w: nat)
    requires Supported(n, w)
  {
    forall v :: 0 <= v < n ==> Keys(n, v, w) == Keys(n, 0, w)
  }

  ghost predicate IsPower(n: nat) {
    exists k: nat :: n == Pow2(k)
  }

  lemma {:induction false} EvenSum(n: nat, hi: nat, w: nat)
    requires Supported(n, w) && Even(n, w) && hi <= n
    ensures CountABCD(Pow2(w), n, 0, hi, w) == hi * Keys(n, 0, w)
    decreases hi
  {
    hide CountABCD, Pow2;
    if hi == 0 {
      SplitABCD(Pow2(w), n, 0, 0, 0, w);
    } else {
      EvenSum(n, hi - 1, w);
      SplitABCD(Pow2(w), n, 0, hi - 1, hi, w);
      assert Keys(n, hi - 1, w) == Keys(n, 0, w);
      OneMoreTimes(Keys(n, 0, w), hi - 1);
    }
  }

  lemma FourWords(w: nat)
    ensures Pow2(w) * (Pow2(w) * (Pow2(w) * Pow2(w))) == Pow2(4 * w)
  {
    hide Pow2;
    Pow2Add(w, w);
    Pow2Add(w, 2 * w);
    Pow2Add(w, 3 * w);
  }

  /** Only powers of two divide a power of two. */
  lemma {:induction false} DivisorOfPower(n: nat, c: nat, m: nat)
    requires n * c == Pow2(m) && n > 0
    ensures IsPower(n)
    decreases m
  {
    if n == 1 {
      assert Pow2(0) == n;
    } else if m == 0 {
      FactorsOfOne(n, c);
    } else if n % 2 == 0 {
      HalfFactor(n, c, Pow2(m - 1));
      DivisorOfPower(n / 2, c, m - 1);
      var k: nat :| n / 2 == Pow2(k);
      assert n == Pow2(k + 1);
    } else {
      OddFactor(n, c, Pow2(m - 1));
      HalfFactor(c, n, Pow2(m - 1));
      assert n * (c / 2) == c / 2 * n;
      DivisorOfPower(n, c / 2, m - 1);
    }
  }

  lemma FactorsOfOne(n: nat, c: nat)
    requires n * c == 1
    ensures n == 1
  {
    assert c * n == n * c;
    if n > 1 {
      MulLe(2, n, c);
    }
  }

  lemma HalfFactor(n: nat, c: nat, p: nat)
    requires n % 2 == 0 && n * c == 2 * p
    ensures n / 2 * c == p
  {
    var h := n / 2;
    assert n == 2 * h;
    MulAssoc(2, h, c);
  }

  lemma OddFactor(n: nat, c: nat, p: nat)
    requires n % 2 == 1 && n * c == 2 * p
    ensures c % 2 == 0 && c * n == 2 * p
  {
    var h := n / 2;
    assert n == 2 * h + 1;
    assert (2 * h + 1) * c == 2 * (h * c) + c;
  }

  /** The buckets are exactly equally likely if and only if their number is a power of two. */
  lemma EvenIffPower(n: nat, w: nat)
    requires Supported(n, w)
    ensures Even(n, w) <==> IsPower(n)
  {
    if IsPower(n) {
      var k: nat :| n == Pow2(k);
      ExponentBound(k, w);
      forall v | 0 <= v < n ensures Keys(n, v, w) == Keys(n, 0, w) {
        BalancedKeys(Pow2(w), k, v, w);
        BalancedKeys(Pow2(w), k, 0, w);
      }
    }
    if Even(n, w) {
      EvenSum(n, n, w);
      AllABCD(Pow2(w), n, w);
      FourWords(w);
      DivisorOfPower(n, Keys(n, 0, w), 4 * w);
    }
  }

  lemma ExponentBound(k: nat, w: nat)
    requires w >= 2 && Pow2(k) <= Pow2(w - 1)
    ensures k < w
  {
    Pow2Step(w - 1);
    if k >= w {
      Pow2Monotone(w, k);
    }
  }

  // ----- Movement -----

  /** A key has another bucket among n2 than among n1 exactly when its bucket among n2 is one of the new ones. */
  lemma MovedIff(key: Key, n1: nat, n2: nat, w: nat)
    requires Supported(n1, w) && Supported(n2, w) && n1 <= n2
    ensures Hit(key.a, key.b, key.c, key.d, n2, n1, n2, w) <==> Hash(key, n1, w) != Hash(key, n2, w)
  {
    hide Hash, Pow2;
    HashBelow(key, n1, w);
    HashBelow(key, n2, w);
    Growth(key, n1, n2, w);
  }

  /** How many keys change their bucket when n1 buckets grow to n2. */
  ghost function Moved(n1: nat, n2: nat, w: nat): nat
    requires Supported(n2, w)
  {
    CountABCD(Pow2(w), n2, n1, n2, w)
  }

  /** From any smaller number of buckets to n exactly the share (n - n1) / n of the keys moves. */
  ghost predicate MovesLeast(n: nat, w: nat)
    requires Supported(n, w)
  {
    forall n1 :: 1 <= n1 < n ==> n * Moved(n1, n, w) == (n - n1) * Pow2(4 * w)
  }

  lemma AllKeys(n: nat, w: nat)
    requires Supported(n, w)
    ensures CountABCD(Pow2(w), n, 0, n, w) == Pow2(4 * w)
  {
    hide CountABCD, Pow2;
    AllABCD(Pow2(w), n, w);
    FourWords(w);
  }

  /** That least possible share moves for every smaller number of buckets if and only if n is a power of two. */
  lemma MovesLeastIffPower(n: nat, w: nat)
    requires Supported(n, w)
    ensures MovesLeast(n, w) <==> IsPower(n)
  {
    hide CountABCD, Pow2;
    AllKeys(n, w);
    EvenIffPower(n, w);
    var all, share := Pow2(4 * w), Keys(n, 0, w);
    if IsPower(n) {
      EvenSum(n, n, w);
      forall n1 | 1 <= n1 < n ensures n * Moved(n1, n, w) == (n - n1) * all {
        EvenSum(n, n1, w);
        SplitABCD(Pow2(w), n, 0, n1, n, w);
        ShareAlgebra(n, n1, share);
      }
    }
    if MovesLeast(n, w) && n > 1 {
      assert n * Moved(1, n, w) == (n - 1) * all;
      SplitABCD(Pow2(w), n, 0, 1, n, w);
      RestAlgebra(n, Moved(1, n, w), share);
      DivisorOfPower(n, share, 4 * w);
    } else if MovesLeast(n, w) {
      OneIsPower();
    }
  }

  lemma ShareAlgebra(n: nat, n1: nat, share: nat)
    requires n1 <= n
    ensures n * (n * share - n1 * share) == (n - n1) * (n * share)
  {
    assert n * share - n1 * share == (n - n1) * share;
    assert n * ((n - n1) * share) == (n - n1) * (n * share);
  }

  lemma RestAlgebra(n: nat, moved: nat, share: nat)
    requires n * moved == (n - 1) * (share + moved)
    ensures n * share == share + moved
  {
    var all := share + moved;
    assert n * all == n * share + n * moved;
    assert (n - 1) * all == n * all - all;
  }

  lemma OneIsPower()
    ensures IsPower(1)
  {
    assert Pow2(0) == 1;
  }
}
