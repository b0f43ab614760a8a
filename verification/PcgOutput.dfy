/** unxorshift of base/pcg-random/pcg_extras.hpp and the invertible output function RXS-M-XS of
    base/pcg-random/pcg_random.hpp, over words of any width. */
module PcgOutput {
  import opened Bits
  import opened Modular

  function XorShift(x: nat, shift: nat): nat {
    Xor(x, Shr(x, shift))
  }

  /** Backs out a xorshift of the low `bits` bits, recursing on the part the shift has not reached.
      Complements are taken in a word of w bits. */
  function UnXorShift(x: nat, bits: nat, shift: nat, w: nat): nat
    requires shift > 0 && bits <= w
    decreases bits
  {
    if 2 * shift >= bits then Xor(x, Shr(x, shift))
    else
      var lowmask1 := Pow2(bits - 2 * shift) - 1;
      LowMaskFits(bits - 2 * shift, w);
      var highmask1 := Not(lowmask1, w);
      var top1 := And(Xor(x, Shr(x, shift)), highmask1);
      var bottom1 := And(x, lowmask1);
      var joined := Or(top1, bottom1);
      var lowmask2 := Pow2(bits - shift) - 1;
      var bottom2 := UnXorShift(And(joined, lowmask2), bits - shift, shift, w);
      Or(top1, And(bottom2, lowmask1))
  }

  lemma LowMaskFits(k: nat, w: nat)
    requires k <= w
    ensures Pow2(k) - 1 < Pow2(w)
  {
    Pow2Monotone(k, w);
  }

  lemma BitXorShift(x: nat, shift: nat, i: nat)
    ensures Bit(XorShift(x, shift), i) == (Bit(x, i) != Bit(x, i + shift))
  {
    BitXor(x, Shr(x, shift), i);
    BitShr(x, shift, i);
  }

  /** The pieces of one level of UnXorShift applied to y, bit by bit. */
  lemma LevelBits(y: nat, bits: nat, shift: nat, w: nat, i: nat)
    requires shift > 0 && 2 * shift < bits <= w && y < Pow2(bits)
    ensures Pow2(bits - 2 * shift) - 1 < Pow2(w)
    ensures var lowmask1 := Pow2(bits - 2 * shift) - 1;
      var top1 := And(Xor(y, Shr(y, shift)), Not(lowmask1, w));
      var joined := Or(top1, And(y, lowmask1));
      var bottom := And(joined, Pow2(bits - shift) - 1);
      && Bit(top1, i) == (bits - 2 * shift <= i && (Bit(y, i) != Bit(y, i + shift)))
      && Bit(bottom, i) == (i < bits - shift
                            && if i < bits - 2 * shift then Bit(y, i) else Bit(y, i) != Bit(y, i + shift))
      && bottom < Pow2(bits - shift)
  {
    hide And, Or, Xor, Not, Shr, Bit, Pow2;
    var low := bits - 2 * shift;
    LowMaskFits(low, w);
    var lowmask1 := Pow2(low) - 1;
    var top1 := And(Xor(y, Shr(y, shift)), Not(lowmask1, w));
    var joined := Or(top1, And(y, lowmask1));
    BitAnd(Xor(y, Shr(y, shift)), Not(lowmask1, w), i);
    BitXorShift(y, shift, i);
    BitNot(lowmask1, w, i);
    MaskBit(low, i);
    BitOr(top1, And(y, lowmask1), i);
    BitAnd(y, lowmask1, i);
    AndMask(joined, bits - shift);
    BitMod(joined, bits - shift, i);
    if w <= i {
      BitHigh(y, bits, i);
      BitHigh(y, bits, i + shift);
    }
  }

  /** The result of one level: the top bits, and below them those of the recursive result. */
  lemma ResultBits(y: nat, bits: nat, shift: nat, w: nat, i: nat)
    requires shift > 0 && 2 * shift < bits <= w && y < Pow2(bits)
    ensures LowerInput(y, bits, shift, w) < Pow2(bits - shift)
    ensures Bit(UnXorShift(y, bits, shift, w), i)
         == if i < bits - 2 * shift then Bit(UnXorShift(LowerInput(y, bits, shift, w), bits - shift, shift, w), i)
            else Bit(y, i) != Bit(y, i + shift)
  {
    var low := bits - 2 * shift;
    LowMaskFits(low, w);
    var lowmask1 := Pow2(low) - 1;
    var top1 := And(Xor(y, Shr(y, shift)), Not(lowmask1, w));
    var rec := UnXorShift(LowerInput(y, bits, shift, w), bits - shift, shift, w);
    assert UnXorShift(y, bits, shift, w) == Or(top1, And(rec, lowmask1));
    LevelBits(y, bits, shift, w, i);
    BitOr(top1, And(rec, lowmask1), i);
    BitAnd(rec, lowmask1, i);
    MaskBit(low, i);
  }

  /** What the recursive call receives. */
  function LowerInput(y: nat, bits: nat, shift: nat, w: nat): nat
    requires shift > 0 && 2 * shift < bits <= w
  {
    var lowmask1 := Pow2(bits - 2 * shift) - 1;
    LowMaskFits(bits - 2 * shift, w);
    And(Or(And(Xor(y, Shr(y, shift)), Not(lowmask1, w)), And(y, lowmask1)), Pow2(bits - shift) - 1)
  }

  lemma XorShiftFits(x: nat, bits: nat, shift: nat)
    requires x < Pow2(bits)
    ensures XorShift(x, shift) < Pow2(bits)
  {
    forall i: nat | bits <= i ensures !Bit(XorShift(x, shift), i) {
      BitXorShift(x, shift, i);
      BitHigh(x, bits, i);
      BitHigh(x, bits, i + shift);
    }
    BitsBelow(XorShift(x, shift), bits);
  }

  /** unxorshift undoes a xorshift, for every width and every positive shift. */
  lemma {:induction false} UnXorShiftInverts(x: nat, bits: nat, shift: nat, w: nat)
    requires shift > 0 && bits <= w && x < Pow2(bits)
    ensures UnXorShift(XorShift(x, shift), bits, shift, w) == x
    decreases bits
  {
    var y := XorShift(x, shift);
    var u := UnXorShift(y, bits, shift, w);
    XorShiftFits(x, bits, shift);
    if 2 * shift < bits {
      LowerInputIsXorShift(x, bits, shift, w);
      var z := x % Pow2(bits - shift);
      UnXorShiftInverts(z, bits - shift, shift, w);
    }
    forall i: nat ensures Bit(u, i) == Bit(x, i) {
      BitXorShift(x, shift, i);
      BitXorShift(x, shift, i + shift);
      if 2 * shift >= bits {
        BitXorShift(y, shift, i);
        BitHigh(x, bits, i + shift + shift);
      } else {
        ResultBits(y, bits, shift, w, i);
        BitMod(x, bits - shift, i);
        if i >= bits - 2 * shift {
          BitHigh(x, bits, i + shift + shift);
        }
      }
    }
    BitExt(u, x);
  }

  /** The recursive call sees the xorshift of the low part of x. */
  lemma LowerInputIsXorShift(x: nat, bits: nat, shift: nat, w: nat)
    requires shift > 0 && 2 * shift < bits <= w && x < Pow2(bits)
    ensures LowerInput(XorShift(x, shift), bits, shift, w) == XorShift(x % Pow2(bits - shift), shift)
  {
    var y, z := XorShift(x, shift), x % Pow2(bits - shift);
    XorShiftFits(x, bits, shift);
    forall i: nat ensures Bit(LowerInput(y, bits, shift, w), i) == Bit(XorShift(z, shift), i) {
      LevelBits(y, bits, shift, w, i);
      BitXorShift(x, shift, i);
      BitXorShift(x, shift, i + shift);
      BitXorShift(z, shift, i);
      BitMod(x, bits - shift, i);
      BitMod(x, bits - shift, i + shift);
      if i >= bits - 2 * shift {
        BitHigh(x, bits, i + shift + shift);
      }
    }
    BitExt(LowerInput(y, bits, shift, w), XorShift(z, shift));
  }

  /** unxorshift stays within the width, and is a right inverse too. */
  lemma {:induction false} XorShiftInverts(y: nat, bits: nat, shift: nat, w: nat)
    requires shift > 0 && bits <= w && y < Pow2(bits)
    ensures UnXorShift(y, bits, shift, w) < Pow2(bits)
    ensures XorShift(UnXorShift(y, bits, shift, w), shift) == y
    decreases bits
  {
    var u := UnXorShift(y, bits, shift, w);
    if 2 * shift >= bits {
      XorShiftFits(y, bits, shift);
    } else {
      ResultBits(y, bits, shift, w, 0);
      var v := LowerInput(y, bits, shift, w);
      XorShiftInverts(v, bits - shift, shift, w);
      forall i: nat | bits <= i ensures !Bit(u, i) {
        ResultBits(y, bits, shift, w, i);
        BitHigh(y, bits, i);
        BitHigh(y, bits, i + shift);
      }
      BitsBelow(u, bits);
    }
    forall i: nat ensures Bit(XorShift(u, shift), i) == Bit(y, i) {
      RightInverseBit(y, bits, shift, w, i);
    }
    BitExt(XorShift(u, shift), y);
  }

  lemma RightInverseBit(y: nat, bits: nat, shift: nat, w: nat, i: nat)
    requires shift > 0 && bits <= w && y < Pow2(bits)
    requires 2 * shift < bits ==>
      var v := LowerInput(y, bits, shift, w);
      var r := UnXorShift(v, bits - shift, shift, w);
      r < Pow2(bits - shift) && XorShift(r, shift) == v
    ensures Bit(XorShift(UnXorShift(y, bits, shift, w), shift), i) == Bit(y, i)
  {
    hide Bit, Pow2;
    var u := UnXorShift(y, bits, shift, w);
    BitXorShift(u, shift, i);
    if 2 * shift >= bits {
      BitXorShift(y, shift, i);
      BitXorShift(y, shift, i + shift);
      BitHigh(y, bits, i + shift + shift);
    } else {
      var v := LowerInput(y, bits, shift, w);
      var r := UnXorShift(v, bits - shift, shift, w);
      ResultBits(y, bits, shift, w, i);
      ResultBits(y, bits, shift, w, i + shift);
      if i >= bits - 2 * shift {
        BitHigh(y, bits, i + shift + shift);
      } else {
        LevelBits(y, bits, shift, w, i);
        BitXorShift(r, shift, i);
        if i + shift >= bits - 2 * shift {
          LevelBits(y, bits, shift, w, i + shift);
          BitXorShift(r, shift, i + shift);
          BitHigh(r, bits - shift, i + shift + shift);
        }
      }
    }
  }

  // ----- RXS-M-XS -----

  /** How many bits select the first shift. */
  function OpBits(w: nat): (b: nat)
    ensures 2 <= b <= 6
  {
    if w >= 128 then 6 else if w >= 64 then 5 else if w >= 32 then 4 else if w >= 16 then 3 else 2
  }

  function FinalShift(w: nat): (s: nat)
    requires w > 0
    ensures s > 0
  {
    (2 * w + 2) / 3
  }

  /** The shift chosen by the top bits of the state. */
  function RandomShift(x: nat, w: nat): (s: nat)
    requires w >= 8
    ensures s >= OpBits(w)
  {
    OpBits(w) + And(Shr(x, w - OpBits(w)), Pow2(OpBits(w)) - 1)
  }

  /** rxs_m_xs_mixin::output for a result as wide as the state. */
  function Output(x: nat, w: nat, multiplier: nat): nat
    requires w >= 8
  {
    XorShift(XorShift(x, RandomShift(x, w)) * multiplier % Pow2(w), FinalShift(w))
  }

  /** rxs_m_xs_mixin::unoutput. */
  function Unoutput(y: nat, w: nat, unmultiplier: nat): nat
    requires w >= 8
  {
    var z := UnXorShift(y, w, FinalShift(w), w) * unmultiplier % Pow2(w);
    UnXorShift(z, w, RandomShift(z, w), w)
  }

  /** A xorshift by at least as many places as select the shift leaves the selection alone. */
  lemma SameShift(x: nat, w: nat, shift: nat)
    requires w >= 8 && x < Pow2(w) && shift >= OpBits(w)
    ensures RandomShift(XorShift(x, shift), w) == RandomShift(x, w)
  {
    var h := w - OpBits(w);
    var y := XorShift(x, shift);
    hide XorShift, Shr, OpBits, And;
    forall i: nat ensures Bit(Shr(y, h), i) == Bit(Shr(x, h), i) {
      BitShr(y, h, i);
      BitShr(x, h, i);
      BitXorShift(x, shift, i + h);
      BitHigh(x, w, i + h + shift);
    }
    BitExt(Shr(y, h), Shr(x, h));
  }

  lemma MulCancels(x: nat, m: nat, n: nat, p: nat)
    requires p > 0 && x < p && m * n % p == 1
    ensures x * m % p * n % p == x
  {
    ModMulLeft(x * m, n, p);
    MulAssoc(x, m, n);
    assert x * (m * n) == m * n * x;
    ModMulLeft(m * n, x, p);
    ModSmall(x, p);
  }

  /** unoutput recovers the state from the output, whenever the two multipliers are inverse modulo the word. */
  lemma UnoutputInverts(x: nat, w: nat, multiplier: nat, unmultiplier: nat)
    requires w >= 8 && x < Pow2(w) && multiplier * unmultiplier % Pow2(w) == 1
    ensures Output(x, w, multiplier) < Pow2(w)
    ensures Unoutput(Output(x, w, multiplier), w, unmultiplier) == x
  {
    hide XorShift, UnXorShift, RandomShift, FinalShift, Pow2;
    var s := RandomShift(x, w);
    var a := XorShift(x, s);
    XorShiftFits(x, w, s);
    var b := a * multiplier % Pow2(w);
    XorShiftFits(b, w, FinalShift(w));
    UnXorShiftInverts(b, w, FinalShift(w), w);
    MulCancels(a, multiplier, unmultiplier, Pow2(w));
    SameShift(x, w, s);
    UnXorShiftInverts(x, w, s, w);
  }

  /** The other way round: every word is the output of a state, so output is a permutation. */
  lemma OutputInverts(y: nat, w: nat, multiplier: nat, unmultiplier: nat)
    requires w >= 8 && y < Pow2(w) && multiplier * unmultiplier % Pow2(w) == 1
    ensures Unoutput(y, w, unmultiplier) < Pow2(w)
    ensures Output(Unoutput(y, w, unmultiplier), w, multiplier) == y
  {
    hide XorShift, UnXorShift, RandomShift, FinalShift, Pow2;
    var b := UnXorShift(y, w, FinalShift(w), w);
    XorShiftInverts(y, w, FinalShift(w), w);
    var z := b * unmultiplier % Pow2(w);
    var s := RandomShift(z, w);
    XorShiftInverts(z, w, s, w);
    SameShift(UnXorShift(z, w, s, w), w, s);
    assert unmultiplier * multiplier == multiplier * unmultiplier;
    MulCancels(b, unmultiplier, multiplier, Pow2(w));
  }

  /** The multiplier pairs listed for 8 to 128 bits are inverse to each other. */
  lemma ListedMultipliers()
    ensures 217 * 105 % Pow2(8) == 1
    ensures 62169 * 28009 % Pow2(16) == 1
    ensures 277803737 * 2897767785 % Pow2(32) == 1
    ensures 12605985483714917081 * 15009553638781119849 % Pow2(64) == 1
    ensures (17766728186571221404 * Pow2(64) + 12605985483714917081)
          * (14422606686972528997 * Pow2(64) + 15009553638781119849) % Pow2(128) == 1
  {
    hide Pow2;
    Pow2At8();
    Pow2At16();
    Pow2At32();
    Pow2At64();
    Pow2At128();
  }
}
