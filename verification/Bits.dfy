/** Machine words as natural numbers: powers of two, single bits, and the bitwise operators of C++. */
module Bits {
  import opened Modular

  function Pow2(k: nat): (p: nat)
    ensures p > 0
  {
    if k == 0 then 1 else 2 * Pow2(k - 1)
  }

  lemma {:induction false} Pow2Add(a: nat, b: nat)
    ensures Pow2(a + b) == Pow2(a) * Pow2(b)
  {
    if a > 0 {
      Pow2Add(a - 1, b);
      assert Pow2(a) * Pow2(b) == 2 * (Pow2(a - 1) * Pow2(b));
    }
  }

  lemma Pow2Step(k: nat)
    ensures Pow2(k + 1) == 2 * Pow2(k) && Pow2(k) >= 1
  {
  }

  lemma {:induction false} Pow2Monotone(a: nat, b: nat)
    requires a <= b
    ensures Pow2(a) <= Pow2(b)
    decreases b
  {
    if a < b {
      Pow2Monotone(a, b - 1);
    }
  }

  lemma Pow2At8()
    ensures Pow2(8) == 0x100
  {
  }

  lemma Pow2At16()
    ensures Pow2(16) == 0x1_0000
  {
    Pow2At8();
    Pow2Add(8, 8);
  }

  lemma Pow2At32()
    ensures Pow2(32) == 0x1_0000_0000
  {
    Pow2At16();
    Pow2Add(16, 16);
  }

  lemma Pow2At64()
    ensures Pow2(64) == 0x1_0000_0000_0000_0000
  {
    Pow2At32();
    Pow2Add(32, 32);
  }

  lemma Pow2At128()
    ensures Pow2(128) == 0x1_0000_0000_0000_0000_0000_0000_0000_0000
  {
    Pow2At64();
    Pow2Add(64, 64);
  }

  /** Bit i of x. */
  predicate Bit(x: nat, i: nat) {
    if i == 0 then x % 2 == 1 else Bit(x / 2, i - 1)
  }

  /** A word from its lowest bit and the rest. */
  function Cons(b: bool, x: nat): nat {
    2 * x + (if b then 1 else 0)
  }

  function Xor(x: nat, y: nat): nat {
    if x == 0 && y == 0 then 0 else Cons(Bit(x, 0) != Bit(y, 0), Xor(x / 2, y / 2))
  }

  function And(x: nat, y: nat): nat {
    if x == 0 || y == 0 then 0 else Cons(Bit(x, 0) && Bit(y, 0), And(x / 2, y / 2))
  }

  function Or(x: nat, y: nat): nat {
    if x == 0 && y == 0 then 0 else Cons(Bit(x, 0) || Bit(y, 0), Or(x / 2, y / 2))
  }

  /** The complement of x in a word of w bits. */
  function Not(x: nat, w: nat): nat
    requires x < Pow2(w)
  {
    Pow2(w) - 1 - x
  }

  /** x >> s and x << s in a word of w bits. */
  function Shr(x: nat, s: nat): nat {
    DivNonneg(x, Pow2(s));
    x / Pow2(s)
  }

  function Shl(x: nat, s: nat, w: nat): nat {
    x * Pow2(s) % Pow2(w)
  }

  // ----- Single bits of each operation -----

  lemma {:induction false} BitZero(i: nat)
    ensures !Bit(0, i)
  {
    if i > 0 {
      BitZero(i - 1);
    }
  }

  lemma {:induction false} BitXor(x: nat, y: nat, i: nat)
    ensures Bit(Xor(x, y), i) == (Bit(x, i) != Bit(y, i))
    decreases i
  {
    if x == 0 && y == 0 {
      BitZero(i);
    } else if i > 0 {
      BitXor(x / 2, y / 2, i - 1);
    }
  }

  lemma {:induction false} BitAnd(x: nat, y: nat, i: nat)
    ensures Bit(And(x, y), i) == (Bit(x, i) && Bit(y, i))
    decreases i
  {
    if x == 0 || y == 0 {
      BitZero(i);
    } else if i > 0 {
      BitAnd(x / 2, y / 2, i - 1);
    }
  }

  lemma {:induction false} BitOr(x: nat, y: nat, i: nat)
    ensures Bit(Or(x, y), i) == (Bit(x, i) || Bit(y, i))
    decreases i
  {
    if x == 0 && y == 0 {
      BitZero(i);
    } else if i > 0 {
      BitOr(x / 2, y / 2, i - 1);
    }
  }

  lemma {:induction false} BitNot(x: nat, w: nat, i: nat)
    requires x < Pow2(w)
    ensures Bit(Not(x, w), i) == (i < w && !Bit(x, i))
    decreases i
  {
    if w == 0 {
      BitZero(i);
    } else {
      NotHalf(x, w);
      hide Not;
      if i > 0 {
        BitNot(x / 2, w - 1, i - 1);
      }
    }
  }

  lemma NotHalf(x: nat, w: nat)
    requires w > 0 && x < Pow2(w)
    ensures x / 2 < Pow2(w - 1) && Not(x, w) / 2 == Not(x / 2, w - 1) && Not(x, w) % 2 == 1 - x % 2
  {
    var p := Pow2(w - 1);
    assert Pow2(w) == 2 * p;
    hide Pow2;
    assert x == 2 * (x / 2) + x % 2;
    DivModUnique(2 * p - 1 - x, 2, p - 1 - x / 2, 1 - x % 2);
  }

  lemma HalfDiv(x: nat, p: nat)
    requires p > 0
    ensures x / 2 / p == x / (2 * p)
    ensures x % (2 * p) / 2 == x / 2 % p
    ensures x % (2 * p) % 2 == x % 2
  {
    var q, r := x / 2 / p, x / 2 % p;
    assert x == 2 * (p * q + r) + x % 2;
    var rest := 2 * r + x % 2;
    assert rest < 2 * p;
    assert 2 * (p * q) == (2 * p) * q;
    DivModUnique(x, 2 * p, q, rest);
  }

  lemma {:induction false} BitShr(x: nat, s: nat, i: nat)
    ensures Bit(Shr(x, s), i) == Bit(x, i + s)
    decreases s
  {
    if s > 0 {
      HalfDiv(x, Pow2(s - 1));
      BitShr(x / 2, s - 1, i);
    }
  }

  lemma {:induction false} BitTimes(x: nat, s: nat, i: nat)
    ensures x * Pow2(s) >= 0 && Bit(x * Pow2(s), i) == (s <= i && Bit(x, i - s))
    decreases s
  {
    if s == 0 {
      assert x * Pow2(s) == x;
    } else {
      var y := x * Pow2(s - 1);
      assert x * Pow2(s) == 2 * y;
      if i > 0 {
        BitTimes(x, s - 1, i - 1);
      }
    }
  }

  lemma {:induction false} BitMod(x: nat, k: nat, i: nat)
    ensures Bit(x % Pow2(k), i) == (i < k && Bit(x, i))
    decreases i
  {
    if k == 0 {
      BitZero(i);
    } else {
      HalfDiv(x, Pow2(k - 1));
      if i > 0 {
        BitMod(x / 2, k - 1, i - 1);
      }
    }
  }

  /** Bits determine the number. */
  lemma {:induction false} BitExt(x: nat, y: nat)
    requires forall i: nat :: Bit(x, i) == Bit(y, i)
    ensures x == y
  {
    if x != 0 || y != 0 {
      assert Bit(x, 0) == Bit(y, 0);
      forall i: nat ensures Bit(x / 2, i) == Bit(y / 2, i) {
        assert Bit(x, i + 1) == Bit(y, i + 1);
      }
      BitExt(x / 2, y / 2);
    }
  }

  lemma BitHigh(x: nat, w: nat, i: nat)
    requires x < Pow2(w) && w <= i
    ensures !Bit(x, i)
  {
    BitMod(x, w, i);
  }

  /** No bits from w on means below 2^w. */
  lemma {:induction false} BitsBelow(x: nat, w: nat)
    requires forall i: nat :: w <= i ==> !Bit(x, i)
    ensures x < Pow2(w)
    decreases x, w
  {
    if x > 0 {
      if w == 0 {
        forall i: nat ensures Bit(x, i) == Bit(0, i) {
          BitZero(i);
        }
        BitExt(x, 0);
      } else {
        forall i: nat | w - 1 <= i ensures !Bit(x / 2, i) {
          assert !Bit(x, i + 1);
        }
        BitsBelow(x / 2, w - 1);
      }
    }
  }

  // ----- Masks and disjoint unions -----

  lemma MaskBit(k: nat, i: nat)
    ensures Bit(Pow2(k) - 1, i) == (i < k)
  {
    BitNot(0, k, i);
    BitZero(i);
  }

  lemma AndMask(x: nat, k: nat)
    ensures And(x, Pow2(k) - 1) == x % Pow2(k)
  {
    forall i: nat ensures Bit(And(x, Pow2(k) - 1), i) == Bit(x % Pow2(k), i) {
      BitAnd(x, Pow2(k) - 1, i);
      MaskBit(k, i);
      BitMod(x, k, i);
    }
    BitExt(And(x, Pow2(k) - 1), x % Pow2(k));
  }

  lemma ShrBound(x: nat, k: nat, w: nat)
    requires x < Pow2(w) && k <= w
    ensures Shr(x, k) < Pow2(w - k)
  {
    hide Pow2;
    Pow2Add(w - k, k);
    QuotientBound(x, Pow2(k), Pow2(w - k));
  }

  /** Or-ing a number below 2^k into a multiple of 2^k adds it. */
  lemma {:induction false} OrAdds(x: nat, y: nat, k: nat)
    requires y < Pow2(k)
    ensures Or(x * Pow2(k), y) == x * Pow2(k) + y
    decreases k
  {
    if k == 0 {
      OrZero(x);
    } else {
      var p := Pow2(k - 1);
      assert x * Pow2(k) == 2 * (x * p);
      OrAdds(x, y / 2, k - 1);
      OrStep(x * p, y);
    }
  }

  lemma {:induction false} OrZero(x: nat)
    ensures Or(x, 0) == x
  {
    if x != 0 {
      OrZero(x / 2);
    }
  }

  lemma {:induction false} OrComm(x: nat, y: nat)
    ensures Or(x, y) == Or(y, x)
  {
    if x != 0 || y != 0 {
      OrComm(x / 2, y / 2);
    }
  }

  lemma OrUnfold(x: nat, y: nat)
    ensures Or(x, y) == Cons(x % 2 == 1 || y % 2 == 1, Or(x / 2, y / 2))
  {
  }

  lemma OrStep(h: nat, y: nat)
    ensures Or(2 * h, y) == 2 * Or(h, y / 2) + y % 2
  {
  }

  /** The single bit k of x, as an And with 2^k. */
  lemma {:induction false} AndPow2(x: nat, k: nat)
    ensures And(x, Pow2(k)) == if Bit(x, k) then Pow2(k) else 0
    decreases k
  {
    if x == 0 {
      BitZero(k);
    } else if k == 0 {
    } else {
      AndPow2(x / 2, k - 1);
    }
  }

  /** One more low bit. */
  lemma {:induction false} LowBits(x: nat, k: nat)
    ensures x % Pow2(k + 1) == x % Pow2(k) + (if Bit(x, k) then Pow2(k) else 0)
    decreases k
  {
    HalfDiv(x, Pow2(k));
    if k > 0 {
      HalfDiv(x, Pow2(k - 1));
      LowBits(x / 2, k - 1);
    }
  }

  lemma OrBelow(x: nat, y: nat, w: nat)
    requires x < Pow2(w) && y < Pow2(w)
    ensures Or(x, y) < Pow2(w)
  {
    forall i: nat | w <= i ensures !Bit(Or(x, y), i) {
      BitOr(x, y, i);
      BitHigh(x, w, i);
      BitHigh(y, w, i);
    }
    BitsBelow(Or(x, y), w);
  }
}
