/** The consistent hash on its highest levels, 2^13 to 2^15 buckets with 16-bit words and 2^24 to 2^31 with 32-bit
    words: the unused bits of a key are too few there for the smooth move, and a few buckets take all keys that have to
    move. */
module ConsistentCrowd {
  import opened Wrappers
  import opened Modular
  import opened Bits
  import opened ConsistentHash
  import opened ConsistentBalance

  /** The levels on which the gathered bits are always below the modulus. */
  predicate Crowded(k: nat, w: nat) {
    (w == 16 && 14 <= k <= 15) || (w == 32 && 25 <= k <= 31)
  }

  /** How many low bits of d reach the gathered bits. */
  function Kept(k: nat, w: nat): nat {
    if w == 16 then 16 else k
  }

  /** How many of these the division by 2^k drops. */
  function Dropped(k: nat, w: nat): nat
    requires Crowded(k, w)
  {
    4 * k - 3 * w - 2
  }

  /** The number of buckets that can be reached by a move. */
  function Width(k: nat, w: nat): nat
    requires Crowded(k, w)
  {
    Pow2(Kept(k, w) - Dropped(k, w))
  }

  /** The bucket a key moves to; it depends on d only. */
  function Slot(d: nat, k: nat, w: nat): nat
    requires Crowded(k, w)
  {
    DivNonneg(d % Pow2(Kept(k, w)), Pow2(Dropped(k, w)));
    Pow2(k - 1) + d % Pow2(Kept(k, w)) / Pow2(Dropped(k, w))
  }

  // ----- The gathered bits -----

  lemma DivDiv(x: nat, p: nat, q: nat)
    requires p > 0 && q > 0
    ensures p * q > 0 && x / (p * q) == x / p / q
  {
    var a, b := x / p, x / p / q;
    var r, t := x % p, a % q;
    assert x == p * a + r && a == q * b + t;
    assert p * a == p * q * b + p * t by {
      assert p * (q * b + t) == p * (q * b) + p * t;
      assert p * (q * b) == p * q * b;
    }
    MulLe(t + 1, q, p);
    assert p * (t + 1) == p * t + p;
    MulLe(0, t, p);
    DivModUnique(x, p * q, b, p * t + r);
  }

  /** d shifted and filled up with the bits of c. */
  lemma FirstWord(key: Key, k: nat, w: nat)
    requires Words(key, w) && Crowded(k, w)
    ensures var m, s := Kept(k, w), w - k;
      && Or(Shl(key.d, s, 32), Shr(key.c, k)) == Appended(key.d % Pow2(m), Pow2(s), Shr(key.c, k)) < Pow2(m + s)
      && Shr(key.c, k) < Pow2(s)
  {
    hide Pow2, Or, Shr;
    var m, s := Kept(k, w), w - k;
    ShrBound(key.c, k, w);
    if w == 16 {
      ModSmall(key.d, Pow2(16));
    } else {
      assert Shl(key.d, s, 32) == Shl(key.d % Pow2(m), s, 32) by {
        ShiftedOut(key.d, k, s);
      }
    }
    hide Shl, Appended;
    AppendWord(key.d % Pow2(m), Shr(key.c, k), m, s, 32);
  }

  /** Bits shifted out of the word do not matter. */
  lemma ShiftedOut(x: nat, k: nat, s: nat)
    ensures x * Pow2(s) % Pow2(k + s) == x % Pow2(k) * Pow2(s) % Pow2(k + s)
  {
    hide Pow2;
    Pow2Add(k, s);
    var p, q := Pow2(k), Pow2(s);
    var h := x / p;
    assert x == p * h + x % p;
    assert x * q == x % p * q + p * q * h by {
      assert (p * h + x % p) * q == p * h * q + x % p * q;
      assert p * h * q == p * q * h;
    }
    ModEqual(x * q, x % p * q, p * q, h);
  }

  /** The gathered bits are few, and their top is d. */
  lemma Gathered(key: Key, k: nat, w: nat)
    requires Words(key, w) && Crowded(k, w)
    ensures var bits := AsteriskBits(key, k, w);
      bits < Pow2(2 * k - 2) && bits / Pow2(k) == key.d % Pow2(Kept(k, w)) / Pow2(Dropped(k, w))
  {
    hide Pow2, Crowded, Kept, Dropped, Appended, AsteriskBits, Words;
    CrowdedSizes(k, w);
    var d, c, b, a := GatheredDigits(key, k, w);
    TopDigits(d, c, b, a, w - k, Dropped(k, w), k);
  }

  /** The gathered bits are four digits, the first one d. */
  lemma GatheredDigits(key: Key, k: nat, w: nat) returns (d: nat, c: nat, b: nat, a: nat)
    requires Words(key, w) && Crowded(k, w)
    ensures var p, q := Pow2(w - k), Pow2(w - k + 1);
      && d == key.d % Pow2(Kept(k, w)) && c < p && b < q && a < q
      && AsteriskBits(key, k, w) == Appended(Appended(Appended(d, p, c), q, b), q, a) < Pow2(2 * k - 2)
  {
    hide Pow2, Or, Shl, Shr, Crowded, Kept, Dropped, Appended;
    CrowdedSizes(k, w);
    var m, s := Kept(k, w), w - k;
    FirstWord(key, k, w);
    ShrBound(key.b, k - 1, w);
    ShrBound(key.a, k - 1, w);
    d, c, b, a := key.d % Pow2(m), Shr(key.c, k), Shr(key.b, k - 1), Shr(key.a, k - 1);
    var x := Appended(d, Pow2(s), c);
    AppendWord(x, b, m + s, s + 1, 64);
    AppendWord(Appended(x, Pow2(s + 1), b), a, m + 2 * s + 1, s + 1, 64);
    Pow2Monotone(m + 3 * s + 2, 2 * k - 2);
  }

  lemma AppendWord(x: nat, y: nat, m: nat, s: nat, w: nat)
    requires x < Pow2(m) && y < Pow2(s) && m + s <= w
    ensures Or(Shl(x, s, w), y) == Appended(x, Pow2(s), y) < Pow2(m + s)
  {
    hide Pow2, Or, Shl;
    Append(x, y, m, s, w);
  }

  lemma CrowdedSizes(k: nat, w: nat)
    requires Crowded(k, w)
    ensures var m, s, t := Kept(k, w), w - k, Dropped(k, w);
      && 1 <= k < w && t <= m && k == 3 * s + 2 + t && m + 3 * s + 2 <= 64 && m + 3 * s + 2 <= 2 * k - 2
  {
  }

  lemma TopDigits(d: nat, c: nat, b: nat, a: nat, s: nat, t: nat, k: nat)
    requires c < Pow2(s) && b < Pow2(s + 1) && a < Pow2(s + 1) && k == 3 * s + 2 + t
    ensures Appended(Appended(Appended(d, Pow2(s), c), Pow2(s + 1), b), Pow2(s + 1), a) / Pow2(k) == d / Pow2(t)
  {
    hide Pow2, Appended;
    var p, q, r := Pow2(s), Pow2(s + 1), Pow2(t);
    Pow2Add(s + 1, s + 1);
    Pow2Add(2 * s + 2, s);
    Pow2Add(3 * s + 2, t);
    var x := Appended(d, p, c);
    var y := Appended(x, q, b);
    AppendedDiv(d, p, c);
    AppendedDiv(x, q, b);
    AppendedDiv(y, q, a);
    FourDivisions(Appended(y, q, a), q, p, r, Pow2(2 * s + 2), Pow2(3 * s + 2), Pow2(k));
  }

  function Appended(x: nat, q: nat, a: nat): nat {
    x * q + a
  }

  lemma AppendedDiv(x: nat, q: nat, a: nat)
    requires a < q
    ensures Appended(x, q, a) / q == x
  {
    DivModUnique(x * q + a, q, x, a);
  }

  lemma FourDivisions(z: nat, q: nat, p: nat, r: nat, q2: nat, q3: nat, q4: nat)
    requires q > 0 && p > 0 && r > 0 && q2 == q * q && q3 == q2 * p && q4 == q3 * r
    ensures q4 > 0 && z / q4 == z / q / q / p / r
  {
    DivDiv(z, q, q);
    DivDiv(z, q2, p);
    DivDiv(z, q3, r);
  }

  /** On these levels the second candidate is the slot. */
  lemma SecondIsSlot(key: Key, k: nat, w: nat, large: nat)
    requires Words(key, w) && Crowded(k, w) && large >= Pow2(k - 1)
    ensures Second(key, k, w, large) == Slot(key.d, k, w)
  {
    hide Pow2, AsteriskBits;
    Gathered(key, k, w);
    Pow2Add(k - 1, k - 1);
    var h, bits := Pow2(k - 1), AsteriskBits(key, k, w);
    MulLe(h, large, h);
    MulLe(h, large + 1, large);
    assert h * large == large * h;
    ModSmall(bits, large * (large + 1));
  }

  /** The slots are the first buckets of the upper half. */
  lemma SlotBound(d: nat, k: nat, w: nat)
    requires Crowded(k, w)
    ensures Pow2(k - 1) <= Slot(d, k, w) < Pow2(k - 1) + Width(k, w)
  {
    hide Pow2;
    var m, t := Kept(k, w), Dropped(k, w);
    Pow2Add(m - t, t);
    QuotientBound(d % Pow2(m), Pow2(t), Pow2(m - t));
  }

  /** The whole function on these levels. */
  lemma CrowdedHash(key: Key, n: nat, k: nat, w: nat)
    requires Words(key, w) && Crowded(k, w) && Pow2(k - 1) < n <= Pow2(k) <= Pow2(w - 1)
    ensures ForPowerOf2(key, Pow2(k), w) < n ==> Hash(key, n, w) == Ok(ForPowerOf2(key, Pow2(k), w))
    ensures ForPowerOf2(key, Pow2(k), w) >= n && Slot(key.d, k, w) < n ==> Hash(key, n, w) == Ok(Slot(key.d, k, w))
    ensures ForPowerOf2(key, Pow2(k), w) >= n && Slot(key.d, k, w) >= n ==>
      Hash(key, n, w) == Ok(ForPowerOf2(key, Pow2(k - 1), w)) && ForPowerOf2(key, Pow2(k - 1), w) < Pow2(k - 1)
  {
    hide Hash, ForPowerOf2, Second, Slot, Pow2;
    var large, second, small := HashIs(key, n, w, k);
    if large >= n {
      SecondIsSlot(key, k, w, large);
    }
  }

  // ----- Counting -----

  /** How many slots lie below x. */
  function SlotsBelow(x: nat, k: nat, w: nat): (j: nat)
    requires Crowded(k, w)
    ensures j <= Width(k, w)
  {
    if x <= Pow2(k - 1) then 0
    else if x >= Pow2(k - 1) + Width(k, w) then Width(k, w)
    else x - Pow2(k - 1)
  }

  predicate Moves(d: nat, k: nat, lo: nat, hi: nat, w: nat)
    requires Crowded(k, w)
  {
    lo <= Slot(d, k, w) < hi
  }

  lemma DivAtLeast(x: nat, p: nat, j: nat)
    requires p > 0
    ensures x / p >= j <==> x >= j * p
  {
    var q := x / p;
    assert x == p * q + x % p;
    if q >= j {
      MulLe(j, q, p);
      assert p * j == j * p;
    } else {
      MulLe(q + 1, j, p);
      assert p * (q + 1) == p * q + p && p * j == j * p;
    }
  }

  lemma SlotsBelowIs(d: nat, k: nat, x: nat, w: nat)
    requires Crowded(k, w)
    ensures Slot(d, k, w) < x <==> d % Pow2(Kept(k, w)) < SlotsBelow(x, k, w) * Pow2(Dropped(k, w))
  {
    var m, t := Kept(k, w), Dropped(k, w);
    SlotBound(d, k, w);
    Pow2Add(m - t, t);
    DivAtLeast(d % Pow2(m), Pow2(t), SlotsBelow(x, k, w));
    hide Pow2;
  }

  ghost predicate Range(n: nat, k: nat, lo: nat, hi: nat, w: nat) {
    && Crowded(k, w) && Supported(Pow2(k), w) && Pow2(k - 1) < n <= Pow2(k) && lo <= hi <= n
    && (Pow2(k - 1) <= lo || Pow2(k - 1) + Width(k, w) <= n)
  }

  /** A key is in a range of buckets when the power-of-two scheme sends it there, or sends it to a missing bucket and
      its slot is there. */
  lemma CrowdedHit(a: nat, b: nat, c: nat, d: nat, n: nat, k: nat, lo: nat, hi: nat, w: nat)
    requires Range(n, k, lo, hi, w) && Words(Key(a, b, c, d), w)
    ensures Supported(n, w)
    ensures One(Hit(a, b, c, d, n, lo, hi, w)) == One(Hit(a, b, c, d, Pow2(k), lo, hi, w))
         + if Moves(d, k, lo, hi, w) then One(Hit(a, b, c, d, Pow2(k), n, Pow2(k), w)) else 0
  {
    hide Hash, ForPowerOf2, Slot, Pow2, Width, Words;
    var key := Key(a, b, c, d);
    HashAtPower(key, k, w);
    ForPowerOf2Bound(key, k, w);
    CrowdedHash(key, n, k, w);
    SlotBound(d, k, w);
  }

  lemma RangeSupported(n: nat, k: nat, lo: nat, hi: nat, w: nat)
    requires Range(n, k, lo, hi, w)
    ensures Crowded(k, w) && Supported(Pow2(k), w) && Supported(n, w) && n <= Pow2(k) && lo <= hi <= n && k < w
  {
  }

  lemma {:induction false} CrowdedB(m: nat, a: nat, c: nat, d: nat, n: nat, k: nat, lo: nat, hi: nat, w: nat)
    requires Range(n, k, lo, hi, w) && m <= Pow2(w) && a < Pow2(w) && c < Pow2(w) && d < Pow2(w)
    ensures Supported(n, w)
    ensures CountB(m, a, c, d, n, lo, hi, w) == CountB(m, a, c, d, Pow2(k), lo, hi, w)
         + if Moves(d, k, lo, hi, w) then CountB(m, a, c, d, Pow2(k), n, Pow2(k), w) else 0
  {
    hide Hit, Pow2, Moves, Range, Supported, Crowded;
    RangeSupported(n, k, lo, hi, w);
    if m > 0 {
      CrowdedB(m - 1, a, c, d, n, k, lo, hi, w);
      CrowdedHit(a, m - 1, c, d, n, k, lo, hi, w);
    }
  }

  lemma {:induction false} CrowdedAB(m: nat, c: nat, d: nat, n: nat, k: nat, lo: nat, hi: nat, w: nat)
    requires Range(n, k, lo, hi, w) && m <= Pow2(w) && c < Pow2(w) && d < Pow2(w)
    ensures Supported(n, w)
    ensures CountAB(m, c, d, n, lo, hi, w) == CountAB(m, c, d, Pow2(k), lo, hi, w)
         + if Moves(d, k, lo, hi, w) then CountAB(m, c, d, Pow2(k), n, Pow2(k), w) else 0
  {
    hide CountB, Pow2, Moves, Range, Supported, Crowded;
    RangeSupported(n, k, lo, hi, w);
    if m > 0 {
      CrowdedAB(m - 1, c, d, n, k, lo, hi, w);
      CrowdedB(Pow2(w), m - 1, c, d, n, k, lo, hi, w);
    }
  }

  lemma {:induction false} CrowdedABC(m: nat, d: nat, n: nat, k: nat, lo: nat, hi: nat, w: nat)
    requires Range(n, k, lo, hi, w) && m <= Pow2(w) && d < Pow2(w)
    ensures Supported(n, w)
    ensures CountABC(m, d, n, lo, hi, w) == CountABC(m, d, Pow2(k), lo, hi, w)
         + if Moves(d, k, lo, hi, w) then CountABC(m, d, Pow2(k), n, Pow2(k), w) else 0
  {
    hide CountAB, Pow2, Moves, Range, Supported, Crowded;
    RangeSupported(n, k, lo, hi, w);
    if m > 0 {
      CrowdedABC(m - 1, d, n, k, lo, hi, w);
      CrowdedAB(Pow2(w), m - 1, d, n, k, lo, hi, w);
    }
  }

  /** A range of buckets in the power-of-two scheme, for a given d. */
  lemma {:induction false} TriplesInRange(d: nat, k: nat, lo: nat, hi: nat, w: nat)
    requires w >= 2 && k < w && Supported(Pow2(k), w) && lo <= hi <= Pow2(k)
    ensures CountABC(Pow2(w), d, Pow2(k), lo, hi, w) == (hi - lo) * (Pow2(w) * Pow2(w) * Pow2(w - k))
    decreases hi
  {
    hide CountABC, Pow2;
    if lo == hi {
      SplitABC(Pow2(w), d, Pow2(k), lo, lo, lo, w);
    } else {
      TriplesInRange(d, k, lo, hi - 1, w);
      SplitABC(Pow2(w), d, Pow2(k), lo, hi - 1, hi, w);
      BalancedTriples(k, hi - 1, w, d);
      OneMoreTimes(Pow2(w) * Pow2(w) * Pow2(w - k), hi - 1 - lo);
    }
  }

  function Scaled(x: nat, p: nat): nat {
    x * p
  }

  /** How many d below m have their slot in the range. */
  ghost function Movers(m: nat, k: nat, lo: nat, hi: nat, w: nat): nat
    requires Crowded(k, w)
  {
    var t := Pow2(Dropped(k, w));
    Residues(m, Pow2(Kept(k, w)), Scaled(SlotsBelow(lo, k, w), t), Scaled(SlotsBelow(hi, k, w), t))
  }

  lemma MoversStep(m: nat, k: nat, lo: nat, hi: nat, w: nat)
    requires Crowded(k, w)
    ensures Movers(0, k, lo, hi, w) == 0
    ensures Movers(m + 1, k, lo, hi, w) == Movers(m, k, lo, hi, w) + One(Moves(m, k, lo, hi, w))
  {
    hide Slot, SlotsBelow, Pow2, Crowded;
    SlotsBelowIs(m, k, lo, w);
    SlotsBelowIs(m, k, hi, w);
  }

  lemma {:induction false} CrowdedABCD(m: nat, n: nat, k: nat, lo: nat, hi: nat, w: nat)
    requires Range(n, k, lo, hi, w) && m <= Pow2(w)
    ensures Supported(n, w)
    ensures CountABCD(m, n, lo, hi, w) == CountABCD(m, Pow2(k), lo, hi, w)
         + Movers(m, k, lo, hi, w) * ((Pow2(k) - n) * (Pow2(w) * Pow2(w) * Pow2(w - k)))
  {
    hide CountABC, Pow2, Moves, Movers, Range, Supported, Crowded;
    RangeSupported(n, k, lo, hi, w);
    MoversStep(if m == 0 then 0 else m - 1, k, lo, hi, w);
    if m > 0 {
      CrowdedABCD(m - 1, n, k, lo, hi, w);
      CrowdedABC(Pow2(w), m - 1, n, k, lo, hi, w);
      TriplesInRange(m - 1, k, n, Pow2(k), w);
      OneMoreTimes((Pow2(k) - n) * (Pow2(w) * Pow2(w) * Pow2(w - k)), Movers(m - 1, k, lo, hi, w));
    }
  }

  lemma ShareOfKeys(k: nat, w: nat)
    requires k <= w
    ensures Pow2(w) * Pow2(w) * Pow2(w - k) == Pow2(3 * w - k)
    ensures Pow2(w) * Pow2(3 * w - k) == Pow2(4 * w - k)
  {
    hide Pow2;
    Pow2Add(w, w);
    Pow2Add(2 * w, w - k);
    Pow2Add(w, 3 * w - k);
  }

  /** A range of buckets in the power-of-two scheme. */
  lemma {:induction false} KeysInRange(k: nat, lo: nat, hi: nat, w: nat)
    requires w >= 2 && k < w && Supported(Pow2(k), w) && lo <= hi <= Pow2(k)
    ensures CountABCD(Pow2(w), Pow2(k), lo, hi, w) == (hi - lo) * Pow2(4 * w - k)
    decreases hi
  {
    hide CountABCD, Pow2;
    if lo == hi {
      SplitABCD(Pow2(w), Pow2(k), lo, lo, lo, w);
    } else {
      KeysInRange(k, lo, hi - 1, w);
      SplitABCD(Pow2(w), Pow2(k), lo, hi - 1, hi, w);
      BalancedKeys(Pow2(w), k, hi - 1, w);
      ShareOfKeys(k, w);
      OneMoreTimes(Pow2(4 * w - k), hi - 1 - lo);
    }
  }

  lemma MoversOfAll(k: nat, lo: nat, hi: nat, w: nat)
    requires Crowded(k, w) && lo <= hi
    ensures SlotsBelow(lo, k, w) <= SlotsBelow(hi, k, w)
    ensures Movers(Pow2(w), k, lo, hi, w)
         == (SlotsBelow(hi, k, w) - SlotsBelow(lo, k, w)) * Pow2(w - Kept(k, w) + Dropped(k, w))
  {
    hide Pow2, Residues, Scaled, SlotsBelow, Crowded, Kept, Dropped;
    CrowdedSizes(k, w);
    WordBits(k, w);
    SlotsBelowMonotone(lo, hi, k, w);
    var m, t := Kept(k, w), Dropped(k, w);
    var l, h := SlotsBelow(lo, k, w), SlotsBelow(hi, k, w);
    Pow2Add(m - t, t);
    Pow2Add(w - m, t);
    ScaledUpTo(l, h, Pow2(m - t), Pow2(t));
    ResiduesOfWord(w, m, Scaled(l, Pow2(t)), Scaled(h, Pow2(t)));
    Blocks(Pow2(w - m), l, h, Pow2(t));
  }

  lemma SlotsBelowMonotone(lo: nat, hi: nat, k: nat, w: nat)
    requires Crowded(k, w) && lo <= hi
    ensures SlotsBelow(lo, k, w) <= SlotsBelow(hi, k, w) <= Width(k, w)
  {
    hide Pow2;
  }

  lemma WordBits(k: nat, w: nat)
    requires Crowded(k, w)
    ensures Kept(k, w) <= w
  {
  }

  lemma ScaledUpTo(l: nat, h: nat, top: nat, p: nat)
    requires l <= h <= top
    ensures Scaled(l, p) <= Scaled(h, p) <= top * p
  {
    MulLe(l, h, p);
    MulLe(h, top, p);
    assert p * l == l * p && p * h == h * p && p * top == top * p;
  }

  lemma Blocks(a: nat, l: nat, h: nat, p: nat)
    ensures a * (Scaled(h, p) - Scaled(l, p)) == (h - l) * (a * p)
  {
    assert h * p - l * p == p * (h - l);
    assert a * (p * (h - l)) == (h - l) * (a * p);
  }

  /** How many keys go to a range of buckets: 2^(4w - k) for each bucket, and for each slot among them a share of the
      keys of every missing bucket. */
  lemma CrowdedCount(n: nat, k: nat, lo: nat, hi: nat, w: nat)
    requires Range(n, k, lo, hi, w)
    ensures Supported(n, w)
    ensures CountABCD(Pow2(w), n, lo, hi, w) == (hi - lo) * Pow2(4 * w - k)
         + (SlotsBelow(hi, k, w) - SlotsBelow(lo, k, w)) * ((Pow2(k) - n) * SlotShare(k, w))
  {
    hide CountABCD, Movers, Pow2, SlotsBelow, Range, Supported, Crowded;
    RangeSupported(n, k, lo, hi, w);
    CrowdedABCD(Pow2(w), n, k, lo, hi, w);
    KeysInRange(k, lo, hi, w);
    MoversOfAll(k, lo, hi, w);
    ShareOfKeys(k, w);
    SlotShareIs(k, w);
    MovedAlgebra(SlotsBelow(hi, k, w) - SlotsBelow(lo, k, w), Pow2(w - Kept(k, w) + Dropped(k, w)), Pow2(k) - n,
                 Pow2(3 * w - k));
  }

  /** What one slot gets of the keys of one missing bucket. */
  function SlotShare(k: nat, w: nat): nat
    requires Crowded(k, w)
  {
    Pow2(4 * w - k - (Kept(k, w) - Dropped(k, w)))
  }

  lemma SlotShareIs(k: nat, w: nat)
    requires Crowded(k, w)
    ensures SlotShare(k, w) == Pow2(w - Kept(k, w) + Dropped(k, w)) * Pow2(3 * w - k)
    ensures Width(k, w) * SlotShare(k, w) == Pow2(4 * w - k)
  {
    hide Pow2;
    var m, t := Kept(k, w), Dropped(k, w);
    Pow2Add(w - m + t, 3 * w - k);
    Pow2Add(m - t, 4 * w - k - (m - t));
  }

  lemma MovedAlgebra(x: int, e: int, y: int, s: int)
    ensures x * e * (y * s) == x * (y * (e * s))
  {
    assert e * (y * s) == y * (e * s);
    assert x * e * (y * s) == x * (e * (y * s));
  }

  lemma AboveSlots(n: nat, k: nat, lo: nat, hi: nat, w: nat)
    requires Crowded(k, w) && Supported(Pow2(k), w) && Pow2(k - 1) + Width(k, w) <= n <= Pow2(k) && lo <= hi <= n
    ensures Range(n, k, lo, hi, w) && k < w
  {
    hide Pow2;
  }

  lemma SlotsBelowEnds(x: nat, k: nat, w: nat)
    requires Crowded(k, w)
    ensures x == Pow2(k - 1) ==> SlotsBelow(x, k, w) == 0
    ensures x >= Pow2(k - 1) + Width(k, w) ==> SlotsBelow(x, k, w) == Width(k, w)
  {
    hide Pow2;
  }

  lemma SlotsBelowNext(v: nat, k: nat, w: nat)
    requires Crowded(k, w)
    ensures SlotsBelow(v + 1, k, w) - SlotsBelow(v, k, w) == One(Pow2(k - 1) <= v < Pow2(k - 1) + Width(k, w))
  {
    hide Pow2;
  }

  /** One bucket: a slot gets far more than the others. */
  lemma CrowdedBucket(n: nat, k: nat, v: nat, w: nat)
    requires Range(n, k, v, v + 1, w)
    ensures Supported(n, w)
    ensures Keys(n, v, w) == Pow2(4 * w - k)
         + if Pow2(k - 1) <= v < Pow2(k - 1) + Width(k, w) then (Pow2(k) - n) * SlotShare(k, w) else 0
  {
    hide CountABCD, Pow2, SlotShare, Supported, Width, SlotsBelow, Range, Crowded;
    RangeSupported(n, k, v, v + 1, w);
    CrowdedCount(n, k, v, v + 1, w);
    SlotsBelowNext(v, k, w);
  }

  /** All slots together take every key of every missing bucket. */
  lemma CrowdedSlots(n: nat, k: nat, w: nat)
    requires Crowded(k, w) && Supported(Pow2(k), w) && Pow2(k - 1) + Width(k, w) <= n <= Pow2(k)
    ensures Supported(n, w)
    ensures CountABCD(Pow2(w), n, Pow2(k - 1), Pow2(k - 1) + Width(k, w), w)
         == (Width(k, w) + (Pow2(k) - n)) * Pow2(4 * w - k)
  {
    hide CountABCD, Pow2, SlotShare, Supported, Width, SlotsBelow, Crowded, Range, Kept, Dropped;
    CrowdedSizes(k, w);
    var lo, hi := Pow2(k - 1), Pow2(k - 1) + Width(k, w);
    AboveSlots(n, k, lo, hi, w);
    CrowdedCount(n, k, lo, hi, w);
    SlotShareIs(k, w);
    SlotsBelowEnds(lo, k, w);
    SlotsBelowEnds(hi, k, w);
    SlotsAlgebra(CountABCD(Pow2(w), n, lo, hi, w), hi - lo, SlotsBelow(hi, k, w) - SlotsBelow(lo, k, w), Width(k, w),
                 Pow2(k) - n, SlotShare(k, w), Pow2(4 * w - k));
  }

  lemma SlotsAlgebra(count: int, buckets: int, slots: int, x: int, y: int, e: int, s: int)
    requires count == buckets * s + slots * (y * e) && buckets == x && slots == x && x * e == s
    ensures count == (x + y) * s
  {
    assert x * (y * e) == y * (x * e);
  }

  /** Between two numbers of buckets above the slots fewer keys move than the header promises, unless the larger one is
      the power of two. */
  lemma CrowdedMovement(n1: nat, n2: nat, k: nat, w: nat)
    requires Crowded(k, w) && Supported(Pow2(k), w) && Pow2(k - 1) + Width(k, w) <= n1 < n2 <= Pow2(k)
    ensures Supported(n2, w)
    ensures Moved(n1, n2, w) == (n2 - n1) * Pow2(4 * w - k)
    ensures n2 * Moved(n1, n2, w) <= (n2 - n1) * Pow2(4 * w)
    ensures n2 * Moved(n1, n2, w) == (n2 - n1) * Pow2(4 * w) <==> n2 == Pow2(k)
  {
    hide CountABCD, Pow2, SlotShare, Supported, Width, SlotsBelow, Crowded;
    AboveSlots(n2, k, n1, n2, w);
    CrowdedCount(n2, k, n1, n2, w);
    SlotsBelowEnds(n1, k, w);
    SlotsBelowEnds(n2, k, w);
    Pow2Add(k, 4 * w - k);
    MovementAlgebra(n2, n2 - n1, Pow2(k), Pow2(4 * w - k));
  }

  lemma MovementAlgebra(n: nat, x: nat, p: nat, s: nat)
    requires n <= p && x > 0 && s > 0
    ensures n * (x * s) <= x * (p * s)
    ensures n * (x * s) == x * (p * s) <==> n == p
  {
    var y := x * s;
    MulLe(1, x, s);
    assert s * x == y;
    assert n * y == y * n && x * (p * s) == y * p;
    MulLe(n, p, y);
    if n < p {
      MulLe(n + 1, p, y);
      assert y * (n + 1) == y * n + y;
    }
  }

  /** Of 20000 buckets, 64 get more than 39 percent of all 64-bit keys. */
  lemma TwentyThousand()
    ensures Supported(20000, 16)
    ensures CountABCD(Pow2(16), 20000, 16384, 16448, 16) == 12832 * Pow2(49)
    ensures 100 * CountABCD(Pow2(16), 20000, 16384, 16448, 16) > 39 * Pow2(64)
  {
    hide Pow2, CountABCD, Supported;
    SmallPowers();
    CrowdedSlots(20000, 15, 16);
    Pow2Add(15, 49);
  }

  lemma SmallPowers()
    ensures Pow2(6) == 64 && Pow2(14) == 16384 && Pow2(15) == 32768 && Supported(Pow2(15), 16)
  {
    assert Pow2(4) == 16;
    assert Pow2(8) == 256;
    assert Pow2(12) == 4096;
  }
}
