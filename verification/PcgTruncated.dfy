/** The output functions of base/pcg-random/pcg_random.hpp built from a fixed xorshift: XSH-RS, XSH-RR and XSL-RR, which
    give half the bits of the state, and XSL-RR-RR. Each reaches the largest word from a state of every kind of
    generator it is used with, so that bounded_rand ends. */
module PcgTruncated {
  import opened Modular
  import opened Bits
  import opened PcgDistance
  import opened PcgOutput
  import opened PcgBounded

  /** The widths of state and result the library uses. */
  predicate Sizes(w: nat, r: nat) {
    w == 2 * r && (r == 8 || r == 16 || r == 32 || r == 64)
  }

  /** The number in the top bits of a state. */
  function Top(x: nat, w: nat, bits: nat): nat
    requires bits <= w
  {
    And(Shr(x, w - bits), Pow2(bits) - 1)
  }

  lemma TopBound(x: nat, w: nat, bits: nat)
    requires bits <= w
    ensures Top(x, w, bits) <= Pow2(bits) - 1
  {
    AndMask(Shr(x, w - bits), bits);
  }

  // ----- The three functions -----

  /** How many bits select the shift of XSH-RS. */
  function ShiftBits(r: nat): nat {
    if r >= 69 then 5 else if r >= 36 then 4 else if r >= 19 then 3 else 2
  }

  function XshRsOutput(x: nat, w: nat, r: nat): nat
    requires Sizes(w, r)
  {
    var op := ShiftBits(r);
    var maxShift := Pow2(op) - 1;
    SmallPowers();
    var xshift := op + (r + maxShift) / 2;
    var shift := Top(x, w, op);
    Shr(XorShift(x, xshift), w - r - op - maxShift + shift) % Pow2(r)
  }

  /** How many bits select the rotation of XSH-RR and XSL-RR. */
  function RotationBits(r: nat): nat {
    if r >= 128 then 7 else if r >= 64 then 6 else if r >= 32 then 5 else if r >= 16 then 4 else 3
  }

  /** rotr in a word of r bits. */
  function Rotr(v: nat, rot: nat, r: nat): nat
    requires rot < r
  {
    Or(Shr(v, rot), Shl(v, (r - rot) % r, r))
  }

  function XshRrOutput(x: nat, w: nat, r: nat): nat
    requires Sizes(w, r)
  {
    var op := RotationBits(r);
    RotationFits(x, w, r);
    Rotr(Shr(XorShift(x, (op + r) / 2), w - r - op) % Pow2(r), Top(x, w, op), r)
  }

  function XslRrOutput(x: nat, w: nat, r: nat): nat
    requires Sizes(w, r)
  {
    var op := RotationBits(r);
    RotationFits(x, w, r);
    Rotr(XorShift(x, (w - r + r) / 2) % Pow2(r), Top(x, w, op), r)
  }

  datatype Mixin = XshRs | XshRr | XslRr

  function HalfOutput(mixin: Mixin, x: nat, w: nat, r: nat): nat
    requires Sizes(w, r)
  {
    match mixin
    case XshRs => XshRsOutput(x, w, r)
    case XshRr => XshRrOutput(x, w, r)
    case XslRr => XslRrOutput(x, w, r)
  }

  function HalfFunction(mixin: Mixin, w: nat, r: nat): nat -> nat
    requires Sizes(w, r)
  {
    (x: nat) => HalfOutput(mixin, x, w, r)
  }

  /** XSL-RR-RR, with a result as wide as the state: both halves are rotated. */
  function XslRrRrOutput(x: nat, w: nat, h: nat): nat
    requires Sizes(w, h)
  {
    var op := RotationBits(h);
    RotationFits(x, w, h);
    var y := XorShift(x, (w - h + h) / 2);
    var low := Rotr(y % Pow2(h), Top(x, w, op), h);
    RotationFits(low, op, h);
    var high := Rotr(Shr(y, w - h) % Pow2(h), Top(low, op, op), h);
    Xor(Shl(high, w - h, w), low)
  }

  lemma SmallPowers()
    ensures Pow2(2) == 4 && Pow2(3) == 8 && Pow2(4) == 16 && Pow2(5) == 32 && Pow2(6) == 64
  {
  }

  lemma RotationFits(x: nat, w: nat, r: nat)
    requires (r == 8 || r == 16 || r == 32 || r == 64) && RotationBits(r) <= w
    ensures Top(x, w, RotationBits(r)) < r
  {
    hide Top;
    SmallPowers();
    TopBound(x, w, RotationBits(r));
  }

  // ----- The largest word -----

  /** A rotation moves bit i + rot to bit i. */
  lemma BitRotr(v: nat, rot: nat, r: nat, i: nat)
    requires rot < r && v < Pow2(r) && i < r
    ensures Bit(Rotr(v, rot, r), i) == Bit(v, (i + rot) % r)
  {
    hide Pow2, Or, Bit, Shr;
    var s := (r - rot) % r;
    BitOr(Shr(v, rot), Shl(v, s, r), i);
    BitShr(v, rot, i);
    BitTimes(v, s, i);
    BitMod(v * Pow2(s), r, i);
    if rot == 0 {
      DivModUnique(r - rot, r, 1, 0);
      ModSmall(i, r);
    } else {
      ModSmall(r - rot, r);
      if i + rot >= r {
        BitHigh(v, r, i + rot);
        DivModUnique(i + rot, r, 1, i + rot - r);
      } else {
        ModSmall(i + rot, r);
      }
    }
  }

  lemma RotrFits(v: nat, rot: nat, r: nat)
    requires rot < r && v < Pow2(r)
    ensures Rotr(v, rot, r) < Pow2(r)
  {
    hide Pow2, Or;
    ShrSmaller(v, rot);
    OrBelow(Shr(v, rot), Shl(v, (r - rot) % r, r), r);
  }

  lemma ShrSmaller(v: nat, s: nat)
    ensures Shr(v, s) <= v
  {
    var p, q := Pow2(s), Shr(v, s);
    assert v == p * q + v % p;
    MulLe(1, p, q);
    assert q * p == p * q;
  }

  /** A word all of whose bits are set is the largest. */
  lemma AllOnes(v: nat, r: nat)
    requires v < Pow2(r) && forall i: nat :: i < r ==> Bit(v, i)
    ensures v == Pow2(r) - 1
  {
    hide Pow2, Bit;
    forall i: nat ensures Bit(v, i) == Bit(Pow2(r) - 1, i) {
      MaskBit(r, i);
      if i >= r {
        BitHigh(v, r, i);
      }
    }
    BitExt(v, Pow2(r) - 1);
  }

  lemma OnesRotated(rot: nat, r: nat)
    requires rot < r
    ensures Rotr(Pow2(r) - 1, rot, r) == Pow2(r) - 1
  {
    hide Pow2, Bit, Rotr;
    var v := Pow2(r) - 1;
    RotrFits(v, rot, r);
    forall i: nat | i < r ensures Bit(Rotr(v, rot, r), i) {
      BitRotr(v, rot, r, i);
      MaskBit(r, (i + rot) % r);
    }
    AllOnes(Rotr(v, rot, r), r);
  }

  /** A state with both low bits set whose xorshift has all bits but these two set. */
  lemma OnesState(w: nat, shift: nat) returns (x: nat)
    requires w >= 2 && shift >= 2
    ensures x < Pow2(w) && x % 4 == 3
    ensures forall i: nat :: 2 <= i < w ==> Bit(XorShift(x, shift), i)
  {
    hide Pow2, Bit, XorShift, UnXorShift, Or;
    var y := UnXorShift(Pow2(w) - 1, w, shift, w);
    XorShiftInverts(Pow2(w) - 1, w, shift, w);
    x := Or(y, 3);
    LowBitsSet(y, w);
    forall i: nat | 2 <= i < w ensures Bit(XorShift(x, shift), i) {
      BitXorShift(x, shift, i);
      BitXorShift(y, shift, i);
      HighBitsKept(y, i);
      HighBitsKept(y, i + shift);
      MaskBit(w, i);
    }
  }

  lemma LowBitsSet(x: nat, w: nat)
    requires x < Pow2(w) && w >= 2
    ensures Or(x, 3) % 4 == 3 && Or(x, 3) < Pow2(w)
  {
    hide Pow2, Or;
    SmallPowers();
    Pow2Monotone(2, w);
    OrUnfold(x, 3);
    OrUnfold(x / 2, 1);
    DivModUnique(Or(x, 3), 4, Or(x / 2 / 2, 0), 3);
    OrBelow(x, 3, w);
  }

  lemma HighBitsKept(x: nat, i: nat)
    requires i >= 2
    ensures Bit(Or(x, 3), i) == Bit(x, i)
  {
    hide Pow2, Bit, Or;
    SmallPowers();
    BitOr(x, 3, i);
    BitHigh(3, 2, i);
  }

  /** A window above the two low bits. */
  lemma OnesWindow(y: nat, w: nat, lo: nat, r: nat)
    requires 2 <= lo && lo + r <= w && forall i: nat :: 2 <= i < w ==> Bit(y, i)
    ensures Shr(y, lo) % Pow2(r) == Pow2(r) - 1
  {
    hide Pow2, Bit, Shr;
    var v := Shr(y, lo) % Pow2(r);
    forall i: nat | i < r ensures Bit(v, i) {
      BitMod(Shr(y, lo), r, i);
      BitShr(y, lo, i);
    }
    AllOnes(v, r);
  }

  lemma XshRsLargest(w: nat, r: nat) returns (x: nat)
    requires Sizes(w, r)
    ensures x < Pow2(w) && x % 4 == 3 && XshRsOutput(x, w, r) == Pow2(r) - 1
  {
    hide Pow2, Bit, XorShift, Shr, Top;
    SmallPowers();
    var op := ShiftBits(r);
    var maxShift := Pow2(op) - 1;
    var xshift := op + (r + maxShift) / 2;
    x := OnesState(w, xshift);
    TopBound(x, w, op);
    OnesWindow(XorShift(x, xshift), w, w - r - op - maxShift + Top(x, w, op), r);
  }

  lemma XshRrLargest(w: nat, r: nat) returns (x: nat)
    requires Sizes(w, r)
    ensures x < Pow2(w) && x % 4 == 3 && XshRrOutput(x, w, r) == Pow2(r) - 1
  {
    hide Pow2, Bit, XorShift, Shr, Top, Rotr;
    var op := RotationBits(r);
    var xshift := (op + r) / 2;
    x := OnesState(w, xshift);
    RotationFits(x, w, r);
    OnesWindow(XorShift(x, xshift), w, w - r - op, r);
    OnesRotated(Top(x, w, op), r);
  }

  /** Here the low bits count: the two halves have to be complements. */
  lemma XslRrLargest(w: nat, r: nat) returns (x: nat)
    requires Sizes(w, r)
    ensures x < Pow2(w) && x % 4 == 3 && XslRrOutput(x, w, r) == Pow2(r) - 1
  {
    hide Pow2, Bit, XorShift, Shr, Top, Rotr;
    x := Complements(w, r);
    RotationFits(x, w, r);
    AllOnes(XorShift(x, r) % Pow2(r), r);
    OnesRotated(Top(x, w, RotationBits(r)), r);
  }

  lemma Complements(w: nat, r: nat) returns (x: nat)
    requires w == 2 * r && r >= 2
    ensures x < Pow2(w) && x % 4 == 3
    ensures forall i: nat :: i < r ==> Bit(XorShift(x, r) % Pow2(r), i)
  {
    hide Pow2, Bit, XorShift, Or, Not;
    SmallPowers();
    Pow2Monotone(2, r);
    var high := Not(3, r);
    HighFits(r);
    x := high * Pow2(r) + 3;
    Pow2Add(r, r);
    TwoHalves(high, 3, r);
    Pow2Add(2, r - 2);
    LowResidue(high * Pow2(r - 2), high * Pow2(r));
    forall i: nat | i < r ensures Bit(XorShift(x, r) % Pow2(r), i) {
      BitMod(XorShift(x, r), r, i);
      BitXorShift(x, r, i);
      HalfBits(high, 3, r, i);
      BitNot(3, r, i);
    }
  }

  lemma HighFits(r: nat)
    requires 3 < Pow2(r)
    ensures 0 <= Not(3, r) < Pow2(r)
  {
    hide Pow2;
  }

  lemma TwoHalves(h: nat, l: nat, r: nat)
    requires h < Pow2(r) && l < Pow2(r)
    ensures 0 <= h * Pow2(r) + l < Pow2(r) * Pow2(r)
  {
    hide Pow2;
    var p := Pow2(r);
    MulLe(h + 1, p, p);
    assert p * (h + 1) == h * p + p;
  }

  lemma LowResidue(a: nat, b: nat)
    requires b == 4 * a
    ensures (b + 3) % 4 == 3
  {
    DivModUnique(b + 3, 4, a, 3);
  }

  /** The bits of a word put together from two halves. */
  lemma HalfBits(h: nat, l: nat, r: nat, i: nat)
    requires h < Pow2(r) && l < Pow2(r) && i < r
    ensures var x: nat := h * Pow2(r) + l; Bit(x, i) == Bit(l, i) && Bit(x, i + r) == Bit(h, i)
  {
    hide Pow2, Bit, Or;
    OrAdds(h, l, r);
    BitOr(h * Pow2(r), l, i);
    BitOr(h * Pow2(r), l, i + r);
    BitTimes(h, r, i);
    BitTimes(h, r, i + r);
    BitHigh(l, r, i + r);
  }

  lemma XslRrRrLargest(w: nat, h: nat) returns (x: nat)
    requires Sizes(w, h)
    ensures x < Pow2(w) && XslRrRrOutput(x, w, h) == Pow2(w) - 1
  {
    hide Pow2, Bit, XorShift, UnXorShift, Shr, Shl, Top, Rotr, Xor;
    var ones := Pow2(w) - 1;
    x := UnXorShift(ones, w, h, w);
    XorShiftInverts(ones, w, h, w);
    OnesHalves(w, h);
    var op := RotationBits(h);
    RotationFits(x, w, h);
    OnesRotated(Top(x, w, op), h);
    var low := Pow2(h) - 1;
    RotationFits(low, op, h);
    OnesRotated(Top(low, op, op), h);
  }

  /** The halves of the largest word, and the word put together again. */
  lemma OnesHalves(w: nat, h: nat)
    requires w == 2 * h
    ensures (Pow2(w) - 1) % Pow2(h) == Pow2(h) - 1 && Shr(Pow2(w) - 1, w - h) % Pow2(h) == Pow2(h) - 1
    ensures Xor(Shl(Pow2(h) - 1, w - h, w), Pow2(h) - 1) == Pow2(w) - 1
  {
    hide Pow2, Bit, Shr, Xor;
    var ones, half := Pow2(w) - 1, Pow2(h) - 1;
    forall i: nat | i < h ensures Bit(ones % Pow2(h), i) && Bit(Shr(ones, h) % Pow2(h), i) {
      BitMod(ones, h, i);
      BitMod(Shr(ones, h), h, i);
      BitShr(ones, h, i);
      MaskBit(w, i);
      MaskBit(w, i + h);
    }
    AllOnes(ones % Pow2(h), h);
    AllOnes(Shr(ones, h) % Pow2(h), h);
    forall i: nat ensures Bit(Xor(Shl(half, h, w), half), i) == Bit(ones, i) {
      BitXor(Shl(half, h, w), half, i);
      BitMod(half * Pow2(h), w, i);
      BitTimes(half, h, i);
      MaskBit(h, i);
      MaskBit(w, i);
      if i >= h {
        MaskBit(h, i - h);
      }
    }
    BitExt(Xor(Shl(half, h, w), half), ones);
  }

  // ----- bounded_rand -----

  /** Every kind of generator with one of these output functions has a state whose output bounded_rand accepts. */
  lemma HalfAccepts(mixin: Mixin, mcg: bool, w: nat, r: nat, bound: nat) returns (accepted: nat)
    requires Sizes(w, r) && 0 < bound < Pow2(r)
    ensures ValidState(mcg, w, accepted) && HalfOutput(mixin, accepted, w, r) >= Threshold(r, bound)
  {
    hide Pow2, XshRsOutput, XshRrOutput, XslRrOutput, Threshold;
    match mixin {
      case XshRs => accepted := XshRsLargest(w, r);
      case XshRr => accepted := XshRrLargest(w, r);
      case XslRr => accepted := XslRrLargest(w, r);
    }
    ThresholdSmall(r, bound);
  }

  lemma FullAccepts(w: nat, h: nat, bound: nat) returns (accepted: nat)
    requires Sizes(w, h) && 0 < bound < Pow2(w)
    ensures ValidState(false, w, accepted) && XslRrRrOutput(accepted, w, h) >= Threshold(w, bound)
  {
    hide Pow2, XslRrRrOutput, Threshold;
    accepted := XslRrRrLargest(w, h);
    ThresholdSmall(w, bound);
  }
}
