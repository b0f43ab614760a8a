/** shift_left and shift_right of base/base/wide_integer_impl.h, for any number of limbs and any shift below the
    width. */
module WideShift {
  import opened Modular
  import opened Bits
  import opened Limbs

  /** A limb shifted by k and cut at 64 bits: what stays and what falls out at the top. */
  lemma LimbShift(x: Limb, k: nat)
    requires k <= 64
    ensures Pow2(k) * Pow2(64 - k) == B
    ensures x * Pow2(k) % B == (x % Pow2(64 - k)) * Pow2(k)
    ensures x * Pow2(k) / B == x / Pow2(64 - k)
    ensures 0 <= x / Pow2(64 - k) < Pow2(k)
    ensures 0 <= x * Pow2(k) % B < B
  {
    Pow2Add(k, 64 - k);
    Pow2At64();
    hide Pow2;
    ShiftAlgebra(x, Pow2(k), Pow2(64 - k));
  }

  lemma ShiftAlgebra(x: nat, p: nat, q: nat)
    requires p > 0 && q > 0 && x < p * q
    ensures p * q > 0
    ensures x * p % (p * q) == (x % q) * p
    ensures x * p / (p * q) == x / q
    ensures 0 <= x / q < p
  {
    var h, l := x / q, x % q;
    assert x == q * h + l;
    DivNonneg(x, q);
    if h >= p {
      MulLe(p, h, q);
    }
    assert x * p == (p * q) * h + l * p by {
      assert (q * h + l) * p == q * h * p + l * p;
      assert q * h * p == (p * q) * h;
    }
    MulLe(l + 1, q, p);
    assert p * (l + 1) == l * p + p;
    assert l * p < p * q;
    DivModUnique(x * p, p * q, h, l * p);
  }

  /** Joining the parts of two neighbouring limbs with | is addition. */
  lemma JoinParts(x: Limb, y: Limb, k: nat)
    requires k <= 64
    ensures Or(x * Pow2(k) % B, Shr(y, 64 - k)) == x * Pow2(k) % B + Shr(y, 64 - k) < B
  {
    LimbShift(x, k);
    LimbShift(y, k);
    OrAdds(x % Pow2(64 - k), y / Pow2(64 - k), k);
    JoinBound(x % Pow2(64 - k), y / Pow2(64 - k), Pow2(k), Pow2(64 - k));
  }

  lemma JoinBound(l: nat, h: nat, p: nat, q: nat)
    requires l < q && h < p
    ensures l * p + h < p * q
  {
    MulLe(l + 1, q, p);
    assert p * (l + 1) == l * p + p;
  }

  // ----- Shifting left -----

  /** Limb t of s shifted left by k < 64 bits, with what falls out of the limb below. */
  function ShlLimb(s: seq<Limb>, t: nat, k: nat): int
    requires t < |s|
  {
    s[t] * Pow2(k) % B + Spill(s, t, k)
  }

  function Spill(s: seq<Limb>, t: nat, k: nat): int
    requires t <= |s|
  {
    if t == 0 then 0 else s[t - 1] * Pow2(k) / B
  }

  method ShiftLeft(rhs: seq<Limb>, n: nat) returns (res: seq<Limb>)
    requires |rhs| >= 1 && n < 64 * |rhs|
    ensures |res| == |rhs|
    ensures Val(res) == Val(rhs) * Pow2(n) % Base(|rhs|)
  {
    hide Pow2;
    var count := |rhs|;
    var items, bits := n / 64, n % 64;
    if bits != 0 {
      res := ShiftLeftBits(rhs, items, bits);
    } else {
      res := rhs;
      var i := 0;
      while i < count - items
        invariant 0 <= i <= count - items && |res| == count
        invariant forall j :: count - i <= j < count ==> res[j] == rhs[j - items]
      {
        res := res[count - 1 - i := rhs[count - 1 - (items + i)]];
        i := i + 1;
      }
      WholeLimbs(rhs, res, items);
    }
    ghost var shifted := res;
    var i := 0;
    while i < items
      invariant 0 <= i <= items && |res| == count
      invariant forall j :: 0 <= j < i ==> res[j] == 0
      invariant forall j :: items <= j < count ==> res[j] == shifted[j]
    {
      res := res[i := 0];
      i := i + 1;
    }
    ShiftLeftValue(rhs, res, items, bits);
  }

  /** The loop for shifts that are not whole limbs, from the top limb down. */
  method ShiftLeftBits(rhs: seq<Limb>, items: nat, bits: nat) returns (res: seq<Limb>)
    requires items < |rhs| && 0 < bits < 64
    ensures |res| == |rhs|
    ensures forall j :: items <= j < |rhs| ==> res[j] == ShlLimb(rhs, j - items, bits)
  {
    hide Pow2, Or;
    var count := |rhs|;
    LimbShift(rhs[count - 1 - items], bits);
    res := rhs[count - 1 := rhs[count - 1 - items] * Pow2(bits) % B];
    var i := 1;
    while i < count - items
      invariant 1 <= i <= count - items && |res| == count
      invariant res[count - i] == rhs[count - i - items] * Pow2(bits) % B
      invariant forall j :: count - i < j < count ==> res[j] == ShlLimb(rhs, j - items, bits)
    {
      var below := rhs[count - 1 - (items + i)];
      LimbShift(below, bits);
      JoinParts(rhs[count - i - items], below, bits);
      res := res[count - i := Or(res[count - i], Shr(below, 64 - bits))];
      res := res[count - 1 - i := below * Pow2(bits) % B];
      i := i + 1;
    }
  }

  lemma WholeLimbs(rhs: seq<Limb>, res: seq<Limb>, items: nat)
    requires items < |rhs| == |res| && forall j :: items <= j < |rhs| ==> res[j] == rhs[j - items]
    ensures forall j :: items <= j < |rhs| ==> res[j] == ShlLimb(rhs, j - items, 0)
  {
  }

  lemma ShiftLeftValue(s: seq<Limb>, t: seq<Limb>, items: nat, bits: nat)
    requires items < |s| == |t| && bits < 64
    requires forall j :: 0 <= j < items ==> t[j] == 0
    requires forall j :: items <= j < |s| ==> t[j] == ShlLimb(s, j - items, bits)
    ensures Val(t) == Val(s) * Pow2(64 * items + bits) % Base(|s|)
  {
    var count := |s|;
    ValueZero(t, items);
    ShiftedPrefix(s, t, items, bits, count - items);
    ValueBound(t, count);
    var high := ValueLow(s, count - items, count);
    BaseAdd(items, count - items);
    BaseIsPow2(items);
    Pow2Add(64 * items, bits);
    hide Value, Base, Pow2;
    ShiftWrap(Value(t, count), Spill(s, count - items, bits), Value(s, count), Value(s, count - items), high,
              Pow2(bits), Base(items), Base(count - items));
  }

  /** Collecting the carried-out parts as a multiple of the modulus. */
  lemma ShiftWrap(r: nat, spill: int, x: nat, low: nat, high: nat, p: nat, b: nat, c: nat)
    requires b > 0 && c > 0 && r < b * c
    requires r + spill * (b * c) == low * p * b && x == low + c * high
    ensures r == x * (b * p) % (b * c)
  {
    assert x * (b * p) == (b * c) * (spill + high * p) + r by {
      assert (low + c * high) * (b * p) == low * (b * p) + c * high * (b * p);
      assert low * (b * p) == low * p * b;
      assert c * high * (b * p) == (b * c) * (high * p) by {
        MulAssoc(c, high, b * p);
        assert high * (b * p) == b * (high * p);
        MulAssoc(c, b, high * p);
      }
      assert (b * c) * (spill + high * p) == (b * c) * spill + (b * c) * (high * p);
    }
    DivModUnique(x * (b * p), b * c, spill + high * p, r);
  }

  /** After t shifted limbs the result and the part that spills into the next limb make up the shifted prefix. */
  lemma {:induction false} ShiftedPrefix(s: seq<Limb>, r: seq<Limb>, items: nat, bits: nat, t: nat)
    requires items + t <= |s| == |r| && bits < 64
    requires Value(r, items) == 0
    requires forall j :: items <= j < |s| ==> r[j] == ShlLimb(s, j - items, bits)
    ensures Value(r, items + t) + Spill(s, t, bits) * Base(items + t) == Value(s, t) * Pow2(bits) * Base(items)
    decreases t
  {
    if t > 0 {
      ShiftedPrefix(s, r, items, bits, t - 1);
      BaseAdd(items, t - 1);
      var x := s[t - 1];
      assert r[items + t - 1] == x * Pow2(bits) % B + Spill(s, t - 1, bits);
      assert Value(r, items + t) == Value(r, items + t - 1) + r[items + t - 1] * Base(items + t - 1);
      assert Base(items + t) == Base(items + t - 1) * B;
      hide Value, Base, Pow2, Spill;
      PrefixAlgebra(Value(r, items + t - 1), Spill(s, t - 1, bits), x, Pow2(bits), Value(s, t - 1), Base(items),
                    Base(t - 1));
      assert Spill(s, t, bits) == x * Pow2(bits) / B by { SpillValue(s, t, bits); }
      assert Value(s, t) == Value(s, t - 1) + x * Base(t - 1) by { ValueUnfold(s, t); }
    }
  }

  lemma SpillValue(s: seq<Limb>, t: nat, k: nat)
    requires 0 < t <= |s|
    ensures Spill(s, t, k) == s[t - 1] * Pow2(k) / B
  {
  }

  lemma ValueUnfold(s: seq<Limb>, n: nat)
    requires n > 0
    ensures Value(s, n) == Value(s, n - 1) + Item(s, n - 1) * Base(n - 1)
  {
  }

  lemma PrefixAlgebra(v: int, spill: int, x: int, p: int, u: int, b: int, c: int)
    requires v + spill * (b * c) == u * p * b
    ensures v + (x * p % B + spill) * (b * c) + (x * p / B) * (b * c * B) == (u + x * c) * p * b
  {
    var q, l, h := b * c, x * p % B, x * p / B;
    assert x * p == B * h + l;
    assert (l + spill) * q == l * q + spill * q;
    assert l * q + h * (q * B) == x * p * q by {
      assert (B * h + l) * q == B * h * q + l * q;
      assert B * h * q == h * (q * B);
    }
    assert (u + x * c) * p * b == u * p * b + x * p * q by {
      assert (u + x * c) * p == u * p + x * c * p;
      assert (u * p + x * c * p) * b == u * p * b + x * c * p * b;
      assert x * c * p * b == x * p * (b * c);
    }
  }

  // ----- Shifting right -----

  /** Limb j of s shifted right by k < 64 bits, with what comes down from the limb above. */
  function ShrLimb(s: seq<Limb>, j: nat, k: nat): int
    requires k <= 64
  {
    Shr(Item(s, j), k) + Down(s, j + 1, k)
  }

  /** The low k bits of limb j, moved to the top of a limb. */
  function Down(s: seq<Limb>, j: nat, k: nat): int
    requires k <= 64
  {
    Item(s, j) * Pow2(64 - k) % B
  }

  /** is_negative for a wide integer: the sign bit of the top limb, for signed types only. */
  predicate IsNegative(s: seq<Limb>, signed: bool)
    requires |s| >= 1
  {
    signed && s[|s| - 1] >= B / 2
  }

  method ShiftRight(rhs: seq<Limb>, n: nat, signed: bool) returns (res: seq<Limb>)
    requires |rhs| >= 1 && n < 64 * |rhs|
    ensures |res| == |rhs|
    ensures !IsNegative(rhs, signed) ==> Val(res) == Shr(Val(rhs), n)
    ensures IsNegative(rhs, signed) ==> Val(res) == Shr(Val(rhs), n) + Base(|rhs|) - Pow2(64 * |rhs| - n)
  {
    hide Pow2, Or;
    var count := |rhs|;
    var items, bits := n / 64, n % 64;
    res := ShiftRightBits(rhs, items, bits);
    if IsNegative(rhs, signed) {
      ghost var shifted := res;
      if bits != 0 {
        FillTop(rhs[count - 1], bits);
        res := res[count - 1 - items := Or(res[count - 1 - items], (B - 1) * Pow2(64 - bits) % B)];
      }
      NoFill(bits);
      res := FillLimbs(res, items, B - 1);
      FilledValue(rhs, res, items, bits);
    } else {
      res := FillLimbs(res, items, 0);
      LogicalValue(rhs, res, items, bits);
    }
  }

  /** The moving loop of shift_right, from the bottom limb up; the top `items` limbs are still unset. */
  method ShiftRightBits(rhs: seq<Limb>, items: nat, bits: nat) returns (res: seq<Limb>)
    requires items < |rhs| && bits < 64
    ensures |res| == |rhs|
    ensures forall j :: 0 <= j < |rhs| - items ==> res[j] == ShrLimb(rhs, j + items, bits)
  {
    hide Pow2, Or, Shr;
    var count := |rhs|;
    NothingAbove(rhs, bits);
    if bits != 0 {
      LimbDown(rhs[items], 0, bits);
      res := rhs[0 := Shr(rhs[items], bits)];
      var i := 1;
      while i < count - items
        invariant 1 <= i <= count - items && |res| == count
        invariant res[i - 1] == Shr(rhs[items + i - 1], bits)
        invariant forall j :: 0 <= j < i - 1 ==> res[j] == ShrLimb(rhs, j + items, bits)
      {
        var above := rhs[items + i];
        LimbDown(rhs[items + i - 1], above, bits);
        LimbDown(above, 0, bits);
        res := res[i - 1 := Or(res[i - 1], above * Pow2(64 - bits) % B)];
        res := res[i := Shr(above, bits)];
        i := i + 1;
      }
    } else {
      res := rhs;
      var i := 0;
      while i < count - items
        invariant 0 <= i <= count - items && |res| == count
        invariant forall j :: 0 <= j < i ==> res[j] == rhs[j + items]
      {
        res := res[i := rhs[items + i]];
        i := i + 1;
      }
      WholeLimbsDown(rhs);
    }
  }

  /** x >> k joined with the low bits of y: a sum, and a limb. */
  lemma LimbDown(x: Limb, y: Limb, k: nat)
    requires k <= 64
    ensures Or(Shr(x, k), y * Pow2(64 - k) % B) == Shr(x, k) + y * Pow2(64 - k) % B < B
    ensures 0 <= Shr(x, k) < B
  {
    JoinParts(y, x, 64 - k);
    LimbShift(y, 64 - k);
    OrComm(Shr(x, k), y * Pow2(64 - k) % B);
  }

  lemma NothingAbove(s: seq<Limb>, k: nat)
    requires k <= 64
    ensures Down(s, |s|, k) == 0
  {
  }

  lemma WholeLimbsDown(s: seq<Limb>)
    ensures forall j :: 0 <= j < |s| ==> ShrLimb(s, j, 0) == s[j]
  {
    Pow2At64();
    forall j | 0 <= j < |s| ensures ShrLimb(s, j, 0) == s[j] {
      var y := Item(s, j + 1);
      DivModUnique(y * B, B, y, 0);
    }
  }

  lemma FillTop(x: Limb, k: nat)
    requires k < 64
    ensures Or(Shr(x, k), (B - 1) * Pow2(64 - k) % B) == Shr(x, k) + (B - 1) * Pow2(64 - k) % B < B
  {
    LimbDown(x, B - 1, k);
  }

  lemma NoFill(k: nat)
    requires k < 64
    ensures k == 0 ==> (B - 1) * Pow2(64 - k) % B == 0
  {
    if k == 0 {
      Pow2At64();
      DivModUnique((B - 1) * B, B, B - 1, 0);
    }
  }

  /** The last loop: the top `items` limbs all become x. */
  method FillLimbs(s: seq<Limb>, items: nat, x: Limb) returns (res: seq<Limb>)
    requires items <= |s|
    ensures |res| == |s|
    ensures forall j :: 0 <= j < |s| ==> res[j] == if j < |s| - items then s[j] else x
  {
    res := s;
    var i := 0;
    while i < items
      invariant 0 <= i <= items && |res| == |s|
      invariant forall j :: 0 <= j < |s| ==> res[j] == if j < |s| - i then s[j] else x
    {
      res := res[|s| - 1 - i := x];
      i := i + 1;
    }
  }

  /** After t limbs: the shifted limbs, scaled back, are the source limbs less the low bits that fell out,
      with the bits brought down from the next limb still to be accounted for. */
  lemma {:induction false} ShiftedDown(s: seq<Limb>, r: seq<Limb>, items: nat, bits: nat, t: nat)
    requires items + t <= |s| && t <= |r| && bits <= 64
    requires forall j :: 0 <= j < t ==> r[j] == ShrLimb(s, j + items, bits)
    ensures Value(r, t) * Pow2(bits) * Base(items) + (Item(s, items) % Pow2(bits)) * Base(items) + Value(s, items)
         == Value(s, items + t) + (Item(s, items + t) % Pow2(bits)) * Base(items + t)
    decreases t
  {
    if t > 0 {
      ShiftedDown(s, r, items, bits, t - 1);
      BaseAdd(items, t - 1);
      ValueUnfold(r, t);
      ValueUnfold(s, items + t);
      var x, y, limb := Item(s, items + t - 1), Item(s, items + t), r[t - 1];
      var p, q, b, c := Pow2(bits), Pow2(64 - bits), Base(items), Base(t - 1);
      assert Value(r, t) == Value(r, t - 1) + limb * c;
      assert limb == x / p + (y % p) * q by { DownLimb(s, t - 1 + items, bits); }
      assert p * q == B by { LimbShift(0, bits); }
      assert Base(items + t) == b * c * B && Base(items + t - 1) == b * c;
      hide Value, Base, Pow2, Item;
      DownStep(Value(r, t - 1), Value(r, t), x, y, limb, p, q, b, c, (Item(s, items) % p) * b, Value(s, items),
               Value(s, items + t - 1), Value(s, items + t));
    } else {
      assert Value(r, 0) == 0;
    }
  }

  lemma DownLimb(s: seq<Limb>, j: nat, k: nat)
    requires k <= 64
    ensures ShrLimb(s, j, k) == Item(s, j) / Pow2(k) + (Item(s, j + 1) % Pow2(k)) * Pow2(64 - k)
  {
    LimbShift(Item(s, j + 1), 64 - k);
  }

  lemma DownStep(v: int, v': int, x: int, y: int, limb: int, p: int, q: int, b: int, c: int, low: int, s0: int, sv: int,
                 sv': int)
    requires p > 0 && p * q == B
    requires limb == x / p + (y % p) * q && v' == v + limb * c && sv' == sv + x * (b * c)
    requires v * p * b + low + s0 == sv + (x % p) * (b * c)
    ensures v' * p * b + low + s0 == sv' + (y % p) * (b * c * B)
  {
    DownAlgebra(v, x, y, p, q, b, c);
    Distribute(x - x % p, x % p, b * c);
  }

  lemma DownAlgebra(v: int, x: int, y: int, p: int, q: int, b: int, c: int)
    requires p > 0 && p * q == B
    ensures (v + (x / p + (y % p) * q) * c) * p * b == v * p * b + (x - x % p) * (b * c) + (y % p) * (b * c * B)
  {
    assert x == p * (x / p) + x % p;
    DownParts(v, x / p, y % p, p, q, b, c);
  }

  lemma DownParts(v: int, h: int, l: int, p: int, q: int, b: int, c: int)
    ensures (v + (h + l * q) * c) * p * b == v * p * b + p * h * (b * c) + l * (b * c * (p * q))
  {
    var z := h + l * q;
    assert (v + z * c) * p == v * p + z * c * p;
    assert (v * p + z * c * p) * b == v * p * b + z * c * p * b;
    assert z * c * p * b == p * z * (b * c);
    assert p * z == p * h + l * (p * q);
    assert (p * h + l * (p * q)) * (b * c) == p * h * (b * c) + l * (p * q) * (b * c);
    assert l * (p * q) * (b * c) == l * (b * c * (p * q));
  }

  lemma LogicalValue(s: seq<Limb>, r: seq<Limb>, items: nat, bits: nat)
    requires items < |s| == |r| && bits < 64
    requires forall j :: 0 <= j < |s| - items ==> r[j] == ShrLimb(s, j + items, bits)
    requires forall j :: |s| - items <= j < |s| ==> r[j] == 0
    ensures Val(r) == Shr(Val(s), 64 * items + bits)
  {
    var t := |s| - items;
    ValueAbove(r, t, |s|);
    ShiftedValue(s, r, items, bits);
  }

  /** The shifted limbs are the quotient by the power of two. */
  lemma ShiftedValue(s: seq<Limb>, r: seq<Limb>, items: nat, bits: nat)
    requires items < |s| == |r| && bits < 64
    requires forall j :: 0 <= j < |s| - items ==> r[j] == ShrLimb(s, j + items, bits)
    ensures Value(r, |s| - items) == Shr(Val(s), 64 * items + bits)
  {
    var t := |s| - items;
    ShiftedDown(s, r, items, bits, t);
    ValueBound(s, items);
    BaseIsPow2(items);
    Pow2Add(64 * items, bits);
    assert Item(s, items + t) == 0;
    ModSmall(0, Pow2(bits));
    assert (Item(s, items + t) % Pow2(bits)) * Base(items + t) == 0;
    hide Value, Base, Pow2, ShrLimb;
    QuotientOf(Val(s), Value(r, t), Item(s, items) % Pow2(bits), Value(s, items), Pow2(bits), Base(items));
  }

  lemma QuotientOf(x: nat, v: nat, l: nat, low: nat, p: nat, b: nat)
    requires v * p * b + l * b + low == x && l < p && low < b
    ensures b * p > 0 && x / (b * p) == v
  {
    MulLe(l + 1, p, b);
    assert b * (l + 1) == l * b + b;
    assert v * p * b == (b * p) * v;
    DivModUnique(x, b * p, v, l * b + low);
  }

  lemma {:induction false} ValueAbove(r: seq<Limb>, t: nat, n: nat)
    requires t <= n <= |r| && forall j :: t <= j < n ==> r[j] == 0
    ensures Value(r, n) == Value(r, t)
    decreases n
  {
    if t < n {
      ValueAbove(r, t, n - 1);
    }
  }

  lemma {:induction false} OnesAbove(r: seq<Limb>, t: nat, n: nat)
    requires t <= n <= |r| && forall j :: t <= j < n ==> r[j] == B - 1
    ensures Value(r, n) == Value(r, t) + Base(n) - Base(t)
    decreases n
  {
    if t < n {
      OnesAbove(r, t, n - 1);
      assert (B - 1) * Base(n - 1) == Base(n - 1) * B - Base(n - 1);
    }
  }

  /** Sign extension adds ones from the sign bit of the shifted value up. */
  lemma FilledValue(s: seq<Limb>, r: seq<Limb>, items: nat, bits: nat)
    requires items < |s| == |r| && bits < 64
    requires forall j :: 0 <= j < |s| - items - 1 ==> r[j] == ShrLimb(s, j + items, bits)
    requires r[|s| - items - 1] == ShrLimb(s, |s| - 1, bits) + (B - 1) * Pow2(64 - bits) % B
    requires forall j :: |s| - items <= j < |s| ==> r[j] == B - 1
    ensures Val(r) == Shr(Val(s), 64 * items + bits) + Base(|s|) - Pow2(64 * |s| - (64 * items + bits))
  {
    var t := |s| - items;
    OnesAbove(r, t, |s|);
    TopFilled(s, r, items, bits);
    BaseIsPow2(t - 1);
    Pow2Add(64 * (t - 1), 64 - bits);
    assert Base(t) == Base(t - 1) * B;
    assert 64 * |s| - (64 * items + bits) == 64 * (t - 1) + (64 - bits);
  }

  /** The limb that holds the sign bit of the shifted value. */
  lemma TopFilled(s: seq<Limb>, r: seq<Limb>, items: nat, bits: nat)
    requires items < |s| == |r| && bits < 64
    requires forall j :: 0 <= j < |s| - items - 1 ==> r[j] == ShrLimb(s, j + items, bits)
    requires r[|s| - items - 1] == ShrLimb(s, |s| - 1, bits) + (B - 1) * Pow2(64 - bits) % B
    ensures var t := |s| - items;
      Value(r, t) == Shr(Val(s), 64 * items + bits) + Base(t - 1) * B - Base(t - 1) * Pow2(64 - bits)
  {
    var t := |s| - items;
    LimbDown(s[|s| - 1], 0, bits);
    NothingAbove(s, bits);
    var r' := r[t - 1 := ShrLimb(s, |s| - 1, bits)];
    ShiftedValue(s, r', items, bits);
    ValueSame(r, r', t - 1);
    ValueUnfold(r, t);
    ValueUnfold(r', t);
    AllOnes(bits);
    hide Value, Base, Pow2, ShrLimb, Shr;
    FillAlgebra(r'[t - 1], B - Pow2(64 - bits), Base(t - 1), Pow2(64 - bits));
  }

  lemma FillAlgebra(x: int, fill: int, c: int, q: int)
    requires fill == B - q
    ensures (x + fill) * c == x * c + c * B - c * q
  {
  }

  /** All ones shifted by 64 - k keep the low k bits of ones. */
  lemma AllOnes(k: nat)
    requires k < 64
    ensures (B - 1) * Pow2(64 - k) % B == B - Pow2(64 - k)
  {
    Pow2Monotone(64 - k, 64);
    Pow2At64();
    hide Pow2;
    var q := Pow2(64 - k);
    assert (B - 1) * q == B * (q - 1) + (B - q);
    DivModUnique((B - 1) * q, B, q - 1, B - q);
  }
}
