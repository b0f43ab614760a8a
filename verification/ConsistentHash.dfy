/** contrib/consistent-hashing/consistent_hashing.cpp: a key is four words a, b, c, d of w bits, and its bucket among n
    moves as little as possible when n grows. */
module ConsistentHash {
  import opened Wrappers
  import opened Modular
  import opened Bits

  datatype Key = Key(a: nat, b: nat, c: nat, d: nat)

  /** The number of bits up to the highest set one. */
  function BitCount(value: nat): nat
    requires value > 0
  {
    if value == 1 then 1 else 1 + BitCount(value / 2)
  }

  function PopCount(value: nat): nat {
    if value == 0 then 0 else value % 2 + PopCount(value / 2)
  }

  function SelectBlock(a: nat, b: nat, cBlock: nat): nat {
    if PopCount(cBlock) % 2 == 0 then a else b
  }

  /** The bucket for n = k2, a power of two. */
  function ForPowerOf2(key: Key, k2: nat, w: nat): nat
    requires k2 > 0
  {
    var cBlock := And(key.c, k2 - 1);
    if cBlock < 2 then cBlock
    else
      var y2 := Shl(1, BitCount(cBlock) - 1, w);
      var abBlock := And(SelectBlock(key.a, key.b, cBlock), if y2 == 0 then 0 else y2 - 1);
      y2 + abBlock
  }

  /** The bits of the key that the power-of-two scheme leaves unused, gathered in a 64-bit word. */
  function AsteriskBits(key: Key, k: nat, w: nat): nat
    requires 1 <= k <= w
  {
    var shift := w - k;
    var res := Or(Shl(key.d, shift, 32), Shr(key.c, k));
    var res' := Or(Shl(res, shift + 1, 64), Shr(key.b, k - 1));
    Or(Shl(res', shift + 1, 64), Shr(key.a, k - 1))
  }

  /** The candidate for moving smoothly from one power of two to the next. */
  function SmoothValue(bits: nat, large: nat, k2: nat, k21: nat): (v: nat)
    requires large > 0 && k2 > 0
    ensures v >= k21
  {
    MulPositive(large, large + 1);
    var s := bits % (large * (large + 1));
    DivNonneg(s, k2);
    s / k2 + k21
  }

  /** ConsistentHashingImpl, for n up to 2^(w-1) as the header demands. */
  function Hash(key: Key, n: nat, w: nat): Result<nat>
    requires w >= 2 && n <= Pow2(w - 1)
  {
    if n == 0 then Err("Can't map consistently to a zero values.")
    else if n == 1 then Ok(0)
    else
      LevelBounds(n, w);
      var k := BitCount(n - 1);
      var k2 := Shl(1, k, w);
      var large := ForPowerOf2(key, k2, w);
      if large < n then Ok(large)
      else
        var k21 := Shl(1, k - 1, w);
        var large2 := SmoothValue(AsteriskBits(key, k, w), large, k2, k21);
        if large2 < n then Ok(large2) else Ok(ForPowerOf2(key, k21, w))
  }

  lemma MulPositive(x: nat, y: nat)
    requires x > 0 && y > 0
    ensures x * y > 0
  {
  }

  // ----- Levels -----

  lemma {:induction false} BitCountBounds(v: nat)
    requires v > 0
    ensures BitCount(v) >= 1 && Pow2(BitCount(v) - 1) <= v < Pow2(BitCount(v))
  {
    if v > 1 {
      BitCountBounds(v / 2);
    }
  }

  lemma BitCountUnique(v: nat, y: nat)
    requires Pow2(y) <= v < Pow2(y + 1)
    ensures BitCount(v) == y + 1
  {
    BitCountBounds(v);
    if BitCount(v) < y + 1 {
      Pow2Monotone(BitCount(v), y);
    } else if BitCount(v) > y + 1 {
      Pow2Monotone(y + 1, BitCount(v) - 1);
    }
  }

  lemma PowerExact(k: nat, w: nat)
    requires k < w
    ensures Shl(1, k, w) == Pow2(k)
  {
    Pow2Monotone(k + 1, w);
    ModSmall(1 * Pow2(k), Pow2(w));
  }

  lemma LevelBounds(n: nat, w: nat)
    requires w >= 2 && 2 <= n <= Pow2(w - 1)
    ensures var k := BitCount(n - 1);
      1 <= k < w && Pow2(k - 1) < n <= Pow2(k) && Shl(1, k, w) == Pow2(k) && Shl(1, k - 1, w) == Pow2(k - 1)
  {
    var k := BitCount(n - 1);
    BitCountBounds(n - 1);
    if k >= w {
      Pow2Monotone(w - 1, k - 1);
      assert false;
    }
    PowerExact(k, w);
    PowerExact(k - 1, w);
  }

  // ----- The power-of-two scheme -----

  /** The value at 2^k: the block itself below two, otherwise its highest bit y followed by y bits of a or b. */
  lemma ForPowerOf2Is(key: Key, k: nat, w: nat)
    requires k < w
    ensures var cBlock := key.c % Pow2(k);
      ForPowerOf2(key, Pow2(k), w) ==
      if cBlock < 2 then cBlock
      else var y2 := Pow2(BitCount(cBlock) - 1); y2 + SelectBlock(key.a, key.b, cBlock) % y2
  {
    AndMask(key.c, k);
    var cBlock := key.c % Pow2(k);
    if cBlock >= 2 {
      BitCountBounds(cBlock);
      var y := BitCount(cBlock) - 1;
      if y >= k {
        Pow2Monotone(k, y);
        assert false;
      }
      PowerExact(y, w);
      AndMask(SelectBlock(key.a, key.b, cBlock), y);
    }
  }

  lemma ForPowerOf2Bound(key: Key, k: nat, w: nat)
    requires k < w
    ensures ForPowerOf2(key, Pow2(k), w) < Pow2(k)
  {
    hide ForPowerOf2, BitCount, SelectBlock, Pow2;
    ForPowerOf2Is(key, k, w);
    var cBlock := key.c % Pow2(k);
    if cBlock >= 2 {
      BitCountBounds(cBlock);
      var y := BitCount(cBlock) - 1;
      if y >= k {
        Pow2Monotone(k, y);
        assert false;
      }
      Pow2Monotone(y + 1, k);
      Pow2Step(y);
    }
  }

  /** Doubling the number of buckets: a key stays, or moves to the new half. */
  lemma Doubling(key: Key, k: nat, w: nat)
    requires k + 1 < w
    ensures ForPowerOf2(key, Pow2(k + 1), w) == ForPowerOf2(key, Pow2(k), w)
         || ForPowerOf2(key, Pow2(k + 1), w) >= Pow2(k)
  {
    ForPowerOf2Is(key, k, w);
    ForPowerOf2Is(key, k + 1, w);
    LowBits(key.c, k);
    hide ForPowerOf2;
    var cBlock := key.c % Pow2(k + 1);
    if Bit(key.c, k) {
      assert Pow2(k) <= cBlock < Pow2(k + 1);
      BitCountUnique(cBlock, k);
    }
  }

  // ----- The unused bits -----

  /** All four words have w bits. */
  ghost predicate Words(key: Key, w: nat) {
    key.a < Pow2(w) && key.b < Pow2(w) && key.c < Pow2(w) && key.d < Pow2(w)
  }

  /** Shifting a word of m bits by s and filling in the low bits appends them. */
  lemma Append(x: nat, y: nat, m: nat, s: nat, w: nat)
    requires x < Pow2(m) && y < Pow2(s) && m + s <= w
    ensures Or(Shl(x, s, w), y) == x * Pow2(s) + y < Pow2(m + s)
  {
    hide Pow2, Or;
    Pow2Add(m, s);
    Pow2Monotone(m + s, w);
    BelowProduct(x, Pow2(m), Pow2(s));
    ModSmall(x * Pow2(s), Pow2(w));
    OrAdds(x, y, s);
  }

  lemma BelowProduct(x: nat, p: nat, q: nat)
    requires x < p
    ensures x * q + q <= p * q
  {
    MulLe(x + 1, p, q);
    assert q * (x + 1) == x * q + q && q * p == p * q;
  }

  /** With 16-bit words the gathering loses nothing: the result is the concatenation of d, the bits of c from k on, and
      the bits of b and of a from k - 1 on. */
  lemma AsteriskBitsExact(key: Key, k: nat)
    requires Words(key, 16) && 1 <= k <= 16
    ensures AsteriskBits(key, k, 16) ==
      ((key.d * Pow2(16 - k) + Shr(key.c, k)) * Pow2(17 - k) + Shr(key.b, k - 1)) * Pow2(17 - k) + Shr(key.a, k - 1)
  {
    hide Pow2, Or, Shl, Shr;
    ShrBound(key.c, k, 16);
    ShrBound(key.b, k - 1, 16);
    ShrBound(key.a, k - 1, 16);
    var s := 16 - k;
    Append(key.d, Shr(key.c, k), 16, s, 32);
    Append(key.d * Pow2(s) + Shr(key.c, k), Shr(key.b, k - 1), 16 + s, s + 1, 64);
    Append((key.d * Pow2(s) + Shr(key.c, k)) * Pow2(s + 1) + Shr(key.b, k - 1), Shr(key.a, k - 1),
           17 + 2 * s, s + 1, 64);
  }

  // ----- The whole function -----

  /** The second candidate on level k, tried when the first, large, is not below n. */
  ghost function Second(key: Key, k: nat, w: nat, large: nat): (v: nat)
    requires 1 <= k <= w
    ensures v >= Pow2(k - 1)
  {
    if large == 0 then Pow2(k - 1) else SmoothValue(AsteriskBits(key, k, w), large, Pow2(k), Pow2(k - 1))
  }

  function Pick(large: nat, second: nat, small: nat, n: nat): nat {
    if large < n then large else if second < n then second else small
  }

  /** On a level, the bucket is the first candidate below n; the candidates do not depend on n. */
  lemma HashIs(key: Key, n: nat, w: nat, k: nat) returns (large: nat, second: nat, small: nat)
    requires w >= 2 && 2 <= n <= Pow2(w - 1) && 1 <= k < w && Pow2(k - 1) < n <= Pow2(k)
    ensures large == ForPowerOf2(key, Pow2(k), w) < Pow2(k)
    ensures small == ForPowerOf2(key, Pow2(k - 1), w) < Pow2(k - 1)
    ensures second == Second(key, k, w, large)
    ensures large > 0 ==> second == SmoothValue(AsteriskBits(key, k, w), large, Pow2(k), Pow2(k - 1))
    ensures Hash(key, n, w) == Ok(Pick(large, second, small, n))
    ensures Hash(key, n, w) == Ok(if large < n then large else if second < n then second else small)
  {
    hide ForPowerOf2, AsteriskBits, SmoothValue, Shl, BitCount, Pow2;
    BitCountUnique(n - 1, k - 1);
    LevelBounds(n, w);
    ForPowerOf2Bound(key, k, w);
    ForPowerOf2Bound(key, k - 1, w);
    large, small := ForPowerOf2(key, Pow2(k), w), ForPowerOf2(key, Pow2(k - 1), w);
    second := Second(key, k, w, large);
  }

  /** The level of n. */
  lemma LevelOf(n: nat, w: nat) returns (k: nat)
    requires w >= 2 && 2 <= n <= Pow2(w - 1)
    ensures 1 <= k < w && Pow2(k - 1) < n <= Pow2(k)
  {
    LevelBounds(n, w);
    k := BitCount(n - 1);
  }

  lemma HashBelow(key: Key, n: nat, w: nat)
    requires w >= 2 && 1 <= n <= Pow2(w - 1)
    ensures Hash(key, n, w).Ok? && Hash(key, n, w).value < n
  {
    if n > 1 {
      hide Hash, ForPowerOf2, Second;
      var k := LevelOf(n, w);
      var _, _, _ := HashIs(key, n, w, k);
    }
  }

  /** n and n + 1 on the same level: the same candidates are tried. */
  lemma SameLevel(key: Key, n: nat, w: nat, k: nat)
    requires w >= 2 && 1 <= k < w && Pow2(k - 1) < n < Pow2(k) && 2 <= n && n + 1 <= Pow2(w - 1)
    ensures Hash(key, n + 1, w) == Hash(key, n, w) || Hash(key, n + 1, w) == Ok(n)
  {
    hide Hash, ForPowerOf2, Second;
    var _, _, _ := HashIs(key, n, w, k);
    var _, _, _ := HashIs(key, n + 1, w, k);
  }

  /** n a power of two: the level changes. */
  lemma NextLevel(key: Key, k: nat, w: nat)
    requires w >= 2 && 1 <= k && k + 1 < w && Pow2(k) + 1 <= Pow2(w - 1)
    ensures Hash(key, Pow2(k) + 1, w) == Hash(key, Pow2(k), w) || Hash(key, Pow2(k) + 1, w) == Ok(Pow2(k))
  {
    hide Hash, ForPowerOf2, Second, Pow2;
    Pow2Step(k - 1);
    Pow2Step(k);
    var _, _, _ := HashIs(key, Pow2(k), w, k);
    var _, _, _ := HashIs(key, Pow2(k) + 1, w, k + 1);
    Doubling(key, k, w);
  }

  /** With one more bucket, a key stays where it is or moves to the new bucket. */
  lemma MinimalMovement(key: Key, n: nat, w: nat)
    requires w >= 2 && 1 <= n && n + 1 <= Pow2(w - 1)
    ensures Hash(key, n + 1, w) == Hash(key, n, w) || Hash(key, n + 1, w) == Ok(n)
  {
    hide Hash, Pow2;
    if n == 1 {
      HashBelow(key, 1, w);
      HashBelow(key, 2, w);
    } else {
      var k := LevelOf(n, w);
      if n < Pow2(k) {
        SameLevel(key, n, w, k);
      } else {
        if k + 1 >= w {
          Pow2Monotone(w - 1, k);
          assert false;
        }
        NextLevel(key, k, w);
      }
    }
  }

  /** With more buckets, a key stays where it is or moves to one of the new buckets. */
  lemma {:induction false} Growth(key: Key, n1: nat, n2: nat, w: nat)
    requires w >= 2 && 1 <= n1 <= n2 <= Pow2(w - 1)
    ensures Hash(key, n2, w).Ok?
    ensures Hash(key, n2, w) == Hash(key, n1, w) || n1 <= Hash(key, n2, w).value < n2
    decreases n2
  {
    hide Hash, Pow2;
    HashBelow(key, n2, w);
    if n1 < n2 {
      Growth(key, n1, n2 - 1, w);
      MinimalMovement(key, n2 - 1, w);
    }
  }

  // ----- 64-bit keys -----

  /** The four 16-bit words of a 64-bit key. */
  function KeyOf(x: nat): Key {
    var lo, hi := x % 0x1_0000_0000, x / 0x1_0000_0000;
    Key(lo % 0x1_0000, lo / 0x1_0000, hi % 0x1_0000, hi / 0x1_0000)
  }

  lemma KeyWords(x: nat)
    requires x < 0x1_0000_0000_0000_0000
    ensures Words(KeyOf(x), 16)
  {
    Pow2At16();
  }

  /** ConsistentHashing(x, n) for up to 2^15 buckets: an error exactly for no buckets, otherwise a bucket below n, and
      with more buckets the same one or a new one. */
  lemma Consistent(x: nat, n1: nat, n2: nat)
    requires x < 0x1_0000_0000_0000_0000 && n1 <= n2 <= Pow2(15)
    ensures Hash(KeyOf(x), n1, 16).Ok? <==> n1 > 0
    ensures n1 > 0 ==>
      && Hash(KeyOf(x), n1, 16).value < n1 && Hash(KeyOf(x), n2, 16).Ok?
      && (Hash(KeyOf(x), n2, 16) == Hash(KeyOf(x), n1, 16) || n1 <= Hash(KeyOf(x), n2, 16).value < n2)
  {
    if n1 > 0 {
      hide Hash;
      HashBelow(KeyOf(x), n1, 16);
      Growth(KeyOf(x), n1, n2, 16);
    }
  }
}
