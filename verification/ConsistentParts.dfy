/** The parts of the consistent hash, each pinned down by itself: the words of a key, the bits of the power-of-two
    scheme and the smooth move between two powers of two. */
module ConsistentParts {
  import opened Wrappers
  import opened Modular
  import opened Bits
  import opened ConsistentHash

  // ----- Keys -----

  lemma KeySum(x: nat)
    requires x < 0x1_0000_0000_0000_0000
    ensures var k := KeyOf(x); x == k.a + 0x1_0000 * k.b + 0x1_0000_0000 * k.c + 0x1_0000_0000_0000 * k.d
  {
  }

  /** The four 32-bit words of a 128-bit key, given as two halves. */
  function WideKeyOf(lo: nat, hi: nat): Key {
    Key(lo % 0x1_0000_0000, lo / 0x1_0000_0000, hi % 0x1_0000_0000, hi / 0x1_0000_0000)
  }

  lemma WideKeySum(lo: nat, hi: nat)
    requires lo < 0x1_0000_0000_0000_0000 && hi < 0x1_0000_0000_0000_0000
    ensures var k := WideKeyOf(lo, hi);
      lo == k.a + 0x1_0000_0000 * k.b && hi == k.c + 0x1_0000_0000 * k.d && Words(k, 32)
  {
    Pow2At32();
  }

  /** ConsistentHashing(lo, hi, n) for up to 2^31 buckets. */
  lemma WideConsistent(lo: nat, hi: nat, n1: nat, n2: nat)
    requires lo < 0x1_0000_0000_0000_0000 && hi < 0x1_0000_0000_0000_0000 && n1 <= n2 <= Pow2(31)
    ensures Hash(WideKeyOf(lo, hi), n1, 32).Ok? <==> n1 > 0
    ensures n1 > 0 ==> var h1, h2 := Hash(WideKeyOf(lo, hi), n1, 32), Hash(WideKeyOf(lo, hi), n2, 32);
      h1.value < n1 && h2.Ok? && (h2 == h1 || n1 <= h2.value < n2)
  {
    hide Pow2;
    if n1 > 0 {
      HashBelow(WideKeyOf(lo, hi), n1, 32);
      Growth(WideKeyOf(lo, hi), n1, n2, 32);
    }
  }

  // ----- The power-of-two scheme -----

  /** The places of the set bits of v, below w. */
  ghost function SetBits(v: nat, w: nat): set<nat> {
    set i: nat | i < w && Bit(v, i)
  }

  lemma {:induction false} PopCountIsCardinality(v: nat, w: nat)
    requires v < Pow2(w)
    ensures PopCount(v) == |SetBits(v, w)|
    decreases w
  {
    if w == 0 {
      assert SetBits(v, w) == {};
    } else {
      PopCountIsCardinality(v / 2, w - 1);
      ShiftedSet(v, w);
    }
  }

  /** The set bits of v are those of v / 2, moved up by one, and bit 0. */
  lemma ShiftedSet(v: nat, w: nat)
    requires w > 0
    ensures |SetBits(v, w)| == |SetBits(v / 2, w - 1)| + v % 2
  {
    var low: set<nat>, rest := if v % 2 == 1 then {0} else {}, SetBits(v / 2, w - 1);
    var up := set i | i in rest :: i + 1;
    SameSize(rest, up);
    assert SetBits(v, w) == up + low by {
      forall i: nat ensures i in SetBits(v, w) <==> i in up + low {
        if i > 0 {
          assert Bit(v, i) == Bit(v / 2, i - 1);
          assert i - 1 in rest <==> i in up;
        }
      }
    }
    assert up !! low;
  }

  lemma {:induction false} SameSize(s: set<nat>, up: set<nat>)
    requires up == set i | i in s :: i + 1
    ensures |up| == |s|
    decreases |s|
  {
    if s != {} {
      var x :| x in s;
      var s', up' := s - {x}, up - {x + 1};
      assert up' == set i | i in s' :: i + 1 by {
        forall i ensures i in up' <==> exists j | j in s' :: i == j + 1 {
          if i in up' {
            var j :| j in s && i == j + 1;
            assert j in s';
          }
        }
      }
      SameSize(s', up');
    }
  }

  /** At 2^k buckets, with y the place of the highest set bit of the block: the bucket has bit y, no higher one, and
      below it the bits of a or of b, depending on whether the number of set bits is even. */
  lemma PowerBits(key: Key, k: nat, w: nat, y: nat, i: nat)
    requires k < w && 1 <= y && Pow2(y) <= key.c % Pow2(k) < Pow2(y + 1)
    ensures var even := |SetBits(key.c % Pow2(k), k)| % 2 == 0;
      Bit(ForPowerOf2(key, Pow2(k), w), i) ==
      if i < y then Bit(if even then key.a else key.b, i) else i == y
  {
    hide Pow2, Bit, ForPowerOf2, PopCount, BitCount;
    var block := key.c % Pow2(k);
    ForPowerOf2Is(key, k, w);
    BitCountUnique(block, y);
    PopCountIsCardinality(block, k);
    Pow2Step(y - 1);
    Pow2Monotone(1, y);
    Pow2Step(0);
    TwoAtMost(block, y);
    TopAndRest(SelectBlock(key.a, key.b, block), y, i);
  }

  /** A block of 0 or 1 is the bucket itself. */
  lemma PowerSmall(key: Key, k: nat, w: nat)
    requires k < w && key.c % Pow2(k) < 2
    ensures ForPowerOf2(key, Pow2(k), w) == key.c % Pow2(k)
  {
    ForPowerOf2Is(key, k, w);
  }

  lemma TwoAtMost(block: nat, y: nat)
    requires 1 <= y && Pow2(y) <= block
    ensures block >= 2
  {
    Pow2Monotone(1, y);
  }

  lemma TopAndRest(x: nat, y: nat, i: nat)
    ensures Bit(Pow2(y) + x % Pow2(y), i) == if i < y then Bit(x, i) else i == y
  {
    hide Pow2, Bit, Or;
    var low := x % Pow2(y);
    OrAdds(1, low, y);
    assert 1 * Pow2(y) == Pow2(y);
    BitOr(Pow2(y), low, i);
    BitMod(x, y, i);
    PowerBit(y, i);
  }

  lemma PowerBit(y: nat, i: nat)
    ensures Bit(Pow2(y), i) == (i == y)
  {
    hide Pow2, Bit;
    BitTimes(1, y, i);
    assert 1 * Pow2(y) == Pow2(y);
    OneBit(if i >= y then i - y else 0);
  }

  lemma OneBit(i: nat)
    ensures Bit(1, i) == (i == 0)
  {
    if i > 0 {
      BitZero(i - 1);
    }
  }

  // ----- The unused bits -----

  /** Shifting left by s drops the bits that would leave the word; the low s bits are then filled in. */
  lemma AppendCut(x: nat, y: nat, s: nat, w: nat)
    requires y < Pow2(s) && s <= w
    ensures Or(Shl(x, s, w), y) == x % Pow2(w - s) * Pow2(s) + y < Pow2(w)
  {
    hide Pow2, Or;
    var p, q := Pow2(s), Pow2(w - s);
    Pow2Add(w - s, s);
    var h, l := x / q, x % q;
    assert x == q * h + l;
    BelowProduct(l, q, p);
    Regroup(q, h, l, p);
    DivModUnique(x * p, q * p, h, l * p);
    OrAdds(l, y, s);
  }

  lemma Regroup(q: int, h: int, l: int, p: int)
    ensures (q * h + l) * p == h * (q * p) + l * p
  {
  }

  /** With 32-bit words: of d only the low k bits are kept, and of the first 65 - k bits gathered only the low 31 +
      k. */
  lemma AsteriskBitsWide(key: Key, k: nat)
    requires Words(key, 32) && 1 <= k <= 32
    ensures AsteriskBits(key, k, 32) ==
      var r := (key.d % Pow2(k) * Pow2(32 - k) + Shr(key.c, k)) * Pow2(33 - k) + Shr(key.b, k - 1);
      r % Pow2(31 + k) * Pow2(33 - k) + Shr(key.a, k - 1)
  {
    hide Pow2, Or, Shl, Shr;
    ShrBound(key.c, k, 32);
    ShrBound(key.b, k - 1, 32);
    ShrBound(key.a, k - 1, 32);
    var s := 32 - k;
    AppendCut(key.d, Shr(key.c, k), s, 32);
    var r0 := key.d % Pow2(k) * Pow2(s) + Shr(key.c, k);
    Append(r0, Shr(key.b, k - 1), 32, s + 1, 64);
    AppendCut(r0 * Pow2(s + 1) + Shr(key.b, k - 1), Shr(key.a, k - 1), s + 1, 64);
  }

  // ----- The smooth move, from low = 2^(k-1) to high = 2^k buckets -----

  /** The candidate as a number: the gathered bits modulo L (L + 1), cut into steps of 2^k. */
  lemma SmoothIs(q: nat, j: nat, i: nat, large: nat, low: nat, high: nat)
    requires large > 0 && i < high && j * high + i < large * (large + 1)
    ensures q * (large * (large + 1)) + (j * high + i) >= 0
    ensures SmoothValue(q * (large * (large + 1)) + (j * high + i), large, high, low) == low + j
  {
    var m, s := large * (large + 1), j * high + i;
    var bits := q * m + s;
    DivModUnique(bits, m, q, s);
    DivModUnique(s, high, j, i);
  }

  /** The gathered bits lead to one of the buckets low, ..., n - 1. */
  ghost predicate Leads(bits: nat, large: nat, low: nat, high: nat, n: nat)
    requires large > 0 && high > 0
  {
    SmoothValue(bits, large, high, low) < n
  }

  /** How many of the values base, ..., base + count - 1 lead there. */
  ghost function Leading(base: nat, count: nat, large: nat, low: nat, high: nat, n: nat): nat
    requires large > 0 && high > 0
  {
    if count == 0 then 0
    else Leading(base, count - 1, large, low, high, n) + if Leads(base + count - 1, large, low, high, n) then 1 else 0
  }

  lemma LeadsIff(bits: nat, large: nat, low: nat, high: nat, n: nat)
    requires large > 0 && high > 0 && n >= low
    ensures large * (large + 1) > 0
    ensures Leads(bits, large, low, high, n) <==> bits % (large * (large + 1)) < (n - low) * high
  {
    MulPositive(large, large + 1);
    var s, d := bits % (large * (large + 1)), n - low;
    var h := s / high;
    assert s == high * h + s % high;
    if h < d {
      MulLe(h + 1, d, high);
      assert high * (h + 1) == high * h + high && high * d == d * high;
    } else {
      MulLe(d, h, high);
      assert high * d == d * high;
    }
  }

  /** Below the modulus, it is the first values that lead there. */
  lemma {:induction false} FirstLead(count: nat, large: nat, low: nat, high: nat, n: nat)
    requires large > 0 && high > 0 && n >= low && count <= large * (large + 1)
    ensures var t := (n - low) * high; Leading(0, count, large, low, high, n) == if count <= t then count else t
    decreases count
  {
    hide Leads;
    if count == 0 {
      assert (n - low) * high >= 0;
    } else {
      FirstLead(count - 1, large, low, high, n);
      LeadsIff(count - 1, large, low, high, n);
      ModSmall(count - 1, large * (large + 1));
    }
  }

  lemma {:induction false} LeadingSplit(base: nat, count: nat, large: nat, low: nat, high: nat, n: nat)
    requires large > 0 && high > 0 && count > 0
    ensures Leading(base, count, large, low, high, n)
         == (if Leads(base, large, low, high, n) then 1 else 0) + Leading(base + 1, count - 1, large, low, high, n)
    decreases count
  {
    hide Leads;
    if count == 1 {
      assert Leading(base, 0, large, low, high, n) == 0;
    } else {
      LeadingSplit(base, count - 1, large, low, high, n);
    }
  }

  lemma LeadingLast(base: nat, count: nat, large: nat, low: nat, high: nat, n: nat)
    requires large > 0 && high > 0 && count > 0
    ensures Leading(base, count, large, low, high, n) == Leading(base, count - 1, large, low, high, n)
         + if Leads(base + count - 1, large, low, high, n) then 1 else 0
  {
  }

  /** Moving a whole period changes nothing. */
  lemma {:induction false} PeriodLeads(base: nat, large: nat, low: nat, high: nat, n: nat)
    requires large > 0 && high > 0 && n >= low
    ensures Leading(base, large * (large + 1), large, low, high, n)
         == Leading(0, large * (large + 1), large, low, high, n)
    decreases base
  {
    hide Leads, Leading;
    var m := large * (large + 1);
    if base > 0 {
      PeriodLeads(base - 1, large, low, high, n);
      LeadsIff(base - 1, large, low, high, n);
      LeadsIff(base - 1 + m, large, low, high, n);
      ModEqual(base - 1 + m, base - 1, m, 1);
      LeadingSplit(base - 1, m, large, low, high, n);
      LeadingLast(base, m, large, low, high, n);
    }
  }

  lemma {:induction false} LeadingIsCardinality(base: nat, count: nat, large: nat, low: nat, high: nat, n: nat)
    requires large > 0 && high > 0
    ensures |set bits: nat | base <= bits < base + count && Leads(bits, large, low, high, n)|
         == Leading(base, count, large, low, high, n)
    decreases count
  {
    hide Leads;
    var all := set bits: nat | base <= bits < base + count && Leads(bits, large, low, high, n);
    if count == 0 {
      assert all == {};
    } else {
      LeadingIsCardinality(base, count - 1, large, low, high, n);
      var fewer := set bits: nat | base <= bits < base + (count - 1) && Leads(bits, large, low, high, n);
      var last := base + count - 1;
      assert all == if Leads(last, large, low, high, n) then fewer + {last} else fewer;
    }
  }

  lemma StepsFit(n: nat, large: nat, low: nat)
    requires low <= n <= large
    ensures (n - low) * (2 * low) <= large * (large + 1)
  {
    var d := large - low;
    MulLe(n - low, d, 2 * low);
    assert 2 * low * (n - low) == (n - low) * (2 * low);
    assert (low + d) * (low + d + 1) == low * low + 2 * (low * d) + d * d + (low + d);
    assert 2 * low * d == 2 * (low * d);
    assert low * low >= 0 && d * d >= 0;
  }

  /** Of any L (L + 1) consecutive values of the gathered bits, L being the first candidate, exactly (n - 2^(k-1))
      2^k lead to one of the buckets 2^(k-1), ..., n - 1, and so exactly 2^k to each of them. */
  lemma SmoothShare(base: nat, large: nat, low: nat, high: nat, n: nat)
    requires 0 < low < n <= large && high == 2 * low
    ensures |set bits: nat | base <= bits < base + large * (large + 1) && SmoothValue(bits, large, high, low) < n|
         == (n - low) * high
  {
    hide SmoothValue, Leading;
    var m := large * (large + 1);
    LeadingIsCardinality(base, m, large, low, high, n);
    PeriodLeads(base, large, low, high, n);
    FirstLead(m, large, low, high, n);
    StepsFit(n, large, low);
    assert (set bits: nat | base <= bits < base + m && Leads(bits, large, low, high, n))
        == set bits: nat | base <= bits < base + m && SmoothValue(bits, large, high, low) < n;
  }
}
