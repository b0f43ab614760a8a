/** Every output function of base/pcg-random/pcg_random.hpp bit by bit: which bits of the state meet in each bit of the
    result, with the shifts, rotations and window positions of every width as numbers. */
module PcgBitwise {
  import opened Modular
  import opened Bits
  import opened PcgOutput
  import opened PcgTruncated

  lemma TopIs(x: nat, w: nat, bits: nat)
    requires x < Pow2(w) && bits <= w
    ensures Top(x, w, bits) == x / Pow2(w - bits) < Pow2(bits)
  {
    hide Pow2;
    AndMask(Shr(x, w - bits), bits);
    ShrBound(x, w - bits, w);
    ModSmall(Shr(x, w - bits), Pow2(bits));
  }

  lemma WindowBit(x: nat, lo: nat, r: nat, i: nat)
    requires i < r
    ensures Shr(x, lo) % Pow2(r) < Pow2(r)
    ensures Bit(Shr(x, lo) % Pow2(r), i) == Bit(x, i + lo)
  {
    hide Pow2, Bit, Shr;
    BitMod(Shr(x, lo), r, i);
    BitShr(x, lo, i);
  }

  /** XSH-RS: a window of the xorshifted state, at a place that the top bits choose. */
  lemma XshRsBits(x: nat, w: nat, r: nat, i: nat)
    requires Sizes(w, r) && x < Pow2(w) && i < r
    ensures XshRsOutput(x, w, r) < Pow2(r)
    ensures var xshift := if r == 8 then 7 else if r == 16 then 11 else if r == 32 then 22 else 43;
      var lo := if r == 8 then 3 else if r == 16 then 11 else if r == 32 then 22 else 45;
      var place := i + lo + x / Pow2(if r == 8 then 14 else if r == 16 then 30 else if r == 32 then 61 else 124);
      place >= 0 && (Bit(XshRsOutput(x, w, r), i) <==> Bit(x, place) != Bit(x, place + xshift))
  {
    hide Pow2, Bit, XorShift, Shr, Top;
    SmallPowers();
    var op := ShiftBits(r);
    var maxShift := Pow2(op) - 1;
    var xshift := op + (r + maxShift) / 2;
    TopIs(x, w, op);
    var shift := Top(x, w, op);
    WindowBit(XorShift(x, xshift), w - r - op - maxShift + shift, r, i);
    BitXorShift(x, xshift, i + (w - r - op - maxShift + shift));
  }

  /** XSH-RR: a fixed window of the xorshifted state, rotated by the number in the top bits. */
  lemma XshRrBits(x: nat, w: nat, r: nat, i: nat)
    requires Sizes(w, r) && x < Pow2(w) && i < r
    ensures XshRrOutput(x, w, r) < Pow2(r)
    ensures var xshift := if r == 8 then 5 else if r == 16 then 10 else if r == 32 then 18 else 35;
      var lo := if r == 8 then 5 else if r == 16 then 12 else if r == 32 then 27 else 58;
      var rot := x / Pow2(if r == 8 then 13 else if r == 16 then 28 else if r == 32 then 59 else 122);
      var place := (i + rot) % r + lo;
      place >= 0 && (Bit(XshRrOutput(x, w, r), i) <==> Bit(x, place) != Bit(x, place + xshift))
  {
    hide Pow2, Bit, XorShift, Shr, Top, Rotr;
    var op := RotationBits(r);
    var xshift, lo := (op + r) / 2, w - r - op;
    RotationFits(x, w, r);
    TopIs(x, w, op);
    var v := Shr(XorShift(x, xshift), lo) % Pow2(r);
    var j := (i + Top(x, w, op)) % r;
    WindowBit(XorShift(x, xshift), lo, r, j);
    RotrFits(v, Top(x, w, op), r);
    BitRotr(v, Top(x, w, op), r, i);
    BitXorShift(x, xshift, j + lo);
  }

  /** The rotation as a number, for each width. */
  lemma RotationIs(x: nat, w: nat, r: nat)
    requires Sizes(w, r) && x < Pow2(w)
    ensures w == 2 * r && r > 0 && RotationBits(r) <= w
    ensures Top(x, w, RotationBits(r))
         == x / Pow2(if r == 8 then 13 else if r == 16 then 28 else if r == 32 then 59 else 122)
  {
    hide Pow2, Top;
    TopIs(x, w, RotationBits(r));
  }

  /** The exclusive or of the two halves, rotated by the number in the top bits. */
  lemma FoldedBits(x: nat, w: nat, r: nat, i: nat)
    requires Sizes(w, r) && x < Pow2(w) && i < r
    ensures var rot := Top(x, w, RotationBits(r)); var place := (i + rot) % r;
      && rot < r && Rotr(XorShift(x, r) % Pow2(r), rot, r) < Pow2(r)
      && (Bit(Rotr(XorShift(x, r) % Pow2(r), rot, r), i) <==> Bit(x, place) != Bit(x, place + r))
  {
    hide Pow2, Bit, XorShift, Top, Rotr;
    RotationFits(x, w, r);
    var rot := Top(x, w, RotationBits(r));
    var v, j := XorShift(x, r) % Pow2(r), (i + rot) % r;
    RotrFits(v, rot, r);
    BitRotr(v, rot, r, i);
    BitMod(XorShift(x, r), r, j);
    BitXorShift(x, r, j);
  }

  lemma XslRrUnfold(x: nat, w: nat, r: nat)
    requires Sizes(w, r)
    ensures Top(x, w, RotationBits(r)) < r
    ensures XslRrOutput(x, w, r) == Rotr(XorShift(x, r) % Pow2(r), Top(x, w, RotationBits(r)), r)
  {
    hide Pow2, XorShift, Top, Rotr;
    RotationFits(x, w, r);
    assert (w - r + r) / 2 == r;
  }

  /** XSL-RR: the exclusive or of the two halves of the state, rotated by the number in the top bits. */
  lemma XslRrBits(x: nat, w: nat, r: nat, i: nat)
    requires Sizes(w, r) && x < Pow2(w) && i < r
    ensures XslRrOutput(x, w, r) < Pow2(r)
    ensures var rot := x / Pow2(if r == 8 then 13 else if r == 16 then 28 else if r == 32 then 59 else 122);
      var place := (i + rot) % r;
      place >= 0 && (Bit(XslRrOutput(x, w, r), i) <==> Bit(x, place) != Bit(x, place + r))
  {
    hide Pow2, Bit, XorShift, Top, Rotr, XslRrOutput, Sizes, RotationBits;
    RotationIs(x, w, r);
    FoldedBits(x, w, r, i);
    XslRrUnfold(x, w, r);
  }

  lemma XslRrRrUnfold(x: nat, w: nat, h: nat)
    requires Sizes(w, h)
    ensures var low := XslRrOutput(x, w, h);
      XslRrRrOutput(x, w, h) == Xor(Shl(Rotr(Shr(XorShift(x, h), h) % Pow2(h), low % h, h), w - h, w), low)
  {
    hide Pow2, XorShift, Top, Rotr, Xor, Shl, Shr;
    RotationFits(x, w, h);
    assert (w - h + h) / 2 == h;
    LowSelects(XslRrOutput(x, w, h), h);
  }

  /** XSL-RR-RR: the low half is that of XSL-RR; the high half is the high half of the state, rotated by the number
      in the low bits of the result. */
  lemma XslRrRrBits(x: nat, w: nat, h: nat, i: nat)
    requires Sizes(w, h) && x < Pow2(w) && i < h
    ensures XslRrRrOutput(x, w, h) < Pow2(w)
    ensures var rot := x / Pow2(if h == 8 then 13 else if h == 16 then 28 else if h == 32 then 59 else 122);
      var place := (i + rot) % h;
      place >= 0 && (Bit(XslRrRrOutput(x, w, h), i) <==> Bit(x, place) != Bit(x, place + h))
    ensures var y := XslRrRrOutput(x, w, h);
      Bit(y, i + h) <==> Bit(x, (i + y % h) % h + h)
  {
    hide Pow2, Bit, XorShift, Rotr, Xor, Shl, Shr, XslRrOutput, XslRrRrOutput;
    XslRrBits(x, w, h, i);
    XslRrRrUnfold(x, w, h);
    var low := XslRrOutput(x, w, h);
    var high := Rotr(Shr(XorShift(x, h), h) % Pow2(h), low % h, h);
    HighHalf(x, h, low % h, i);
    PutTogether(high, low, w, h, i);
  }

  /** The low bits of the low half are its residue modulo the width of a half, a power of two. */
  lemma LowSelects(low: nat, h: nat)
    requires h == 8 || h == 16 || h == 32 || h == 64
    ensures Top(low, RotationBits(h), RotationBits(h)) == low % h
  {
    hide Pow2, And;
    SmallPowers();
    AndMask(Shr(low, 0), RotationBits(h));
    ShrNothing(low);
  }

  lemma ShrNothing(x: nat)
    ensures Shr(x, 0) == x
  {
  }

  lemma HighHalf(x: nat, h: nat, rot: nat, i: nat)
    requires x < Pow2(2 * h) && rot < h && i < h
    ensures Rotr(Shr(XorShift(x, h), h) % Pow2(h), rot, h) < Pow2(h)
    ensures Bit(Rotr(Shr(XorShift(x, h), h) % Pow2(h), rot, h), i) == Bit(x, (i + rot) % h + h)
  {
    hide Pow2, Bit, XorShift, Rotr, Shr;
    var v, j := Shr(XorShift(x, h), h) % Pow2(h), (i + rot) % h;
    WindowBit(XorShift(x, h), h, h, j);
    RotrFits(v, rot, h);
    BitRotr(v, rot, h, i);
    BitXorShift(x, h, j + h);
    BitHigh(x, 2 * h, j + h + h);
  }

  lemma PutTogether(high: nat, low: nat, w: nat, h: nat, i: nat)
    requires Sizes(w, h) && high < Pow2(h) && low < Pow2(h) && i < h
    ensures var y := Xor(Shl(high, w - h, w), low);
      y < Pow2(w) && y % h == low % h && Bit(y, i) == Bit(low, i) && Bit(y, i + h) == Bit(high, i)
  {
    hide Pow2, Bit, Xor;
    var y := Xor(Shl(high, h, w), low);
    forall n: nat ensures Bit(y, n) == if n < h then Bit(low, n) else Bit(high, n - h) {
      BitXor(Shl(high, h, w), low, n);
      BitMod(high * Pow2(h), w, n);
      BitTimes(high, h, n);
      if n >= h {
        BitHigh(low, h, n);
      }
      if n >= w {
        BitHigh(high, h, n - h);
      }
    }
    forall n: nat | w <= n ensures !Bit(y, n) {
      BitHigh(high, h, n - h);
    }
    BitsBelow(y, w);
    assert Bit(y, i + h) == Bit(high, i + h - h);
    LowResidues(y, low, h);
  }

  lemma LowResidues(y: nat, low: nat, h: nat)
    requires (h == 8 || h == 16 || h == 32 || h == 64) && forall n: nat :: n < h ==> Bit(y, n) == Bit(low, n)
    ensures y % h == low % h
  {
    hide Pow2, Bit;
    SmallPowers();
    var op := RotationBits(h);
    forall n: nat ensures Bit(y % Pow2(op), n) == Bit(low % Pow2(op), n) {
      BitMod(y, op, n);
      BitMod(low, op, n);
    }
    BitExt(y % Pow2(op), low % Pow2(op));
  }

  /** RXS-M-XS: the state xorshifted by a shift that its top bits choose, multiplied, and xorshifted by two thirds of
      the width. */
  lemma RxsMXsBits(x: nat, w: nat, multiplier: nat, i: nat) returns (factor: nat, product: nat)
    requires (w == 8 || w == 16 || w == 32 || w == 64 || w == 128) && x < Pow2(w)
    ensures var op := if w == 8 then 2 else if w == 16 then 3 else if w == 32 then 4 else if w == 64 then 5 else 6;
      var shift := op + x / Pow2(w - op);
      shift >= 0 && forall n: nat :: Bit(factor, n) <==> Bit(x, n) != Bit(x, n + shift)
    ensures product == factor * multiplier % Pow2(w)
    ensures
      var last := if w == 8 then 6 else if w == 16 then 11 else if w == 32 then 22 else if w == 64 then 43 else 86;
      Bit(Output(x, w, multiplier), i) <==> Bit(product, i) != Bit(product, i + last)
    ensures Output(x, w, multiplier) < Pow2(w)
  {
    hide Pow2, Bit, XorShift, And, Shr;
    var op := OpBits(w);
    TopIs(x, w, op);
    var shift := RandomShift(x, w);
    factor := XorShift(x, shift);
    product := factor * multiplier % Pow2(w);
    forall n: nat ensures Bit(factor, n) <==> Bit(x, n) != Bit(x, n + shift) {
      BitXorShift(x, shift, n);
    }
    BitXorShift(product, FinalShift(w), i);
    XorShiftFits(product, w, FinalShift(w));
  }

  // ----- XSL-RR is balanced -----

  /** Rotating further, up to the full width, undoes a rotation. */
  lemma UnRotate(out: nat, rot: nat, r: nat) returns (v: nat)
    requires rot < r && out < Pow2(r)
    ensures v < Pow2(r) && Rotr(v, rot, r) == out
  {
    hide Pow2, Bit, Rotr;
    var back := if rot == 0 then 0 else r - rot;
    v := Rotr(out, back, r);
    RotrFits(out, back, r);
    RotrFits(v, rot, r);
    forall i: nat ensures Bit(Rotr(v, rot, r), i) == Bit(out, i) {
      if i < r {
        BitRotr(v, rot, r, i);
        BitRotr(out, back, r, (i + rot) % r);
        FullTurn(i, rot, r);
      } else {
        BitHigh(Rotr(v, rot, r), r, i);
        BitHigh(out, r, i);
      }
    }
    BitExt(Rotr(v, rot, r), out);
  }

  lemma FullTurn(i: nat, rot: nat, r: nat)
    requires i < r && rot < r
    ensures ((i + rot) % r + (if rot == 0 then 0 else r - rot)) % r == i
  {
    if i + rot < r {
      ModSmall(i + rot, r);
      DivModUnique(i + r, r, 1, i);
      ModSmall(i, r);
    } else {
      DivModUnique(i + rot, r, 1, i + rot - r);
      ModSmall(i, r);
    }
  }

  /** Different words stay different when rotated alike. */
  lemma RotrInjective(v: nat, u: nat, rot: nat, r: nat)
    requires rot < r && v < Pow2(r) && u < Pow2(r) && Rotr(v, rot, r) == Rotr(u, rot, r)
    ensures v == u
  {
    hide Pow2, Bit, Rotr;
    forall j: nat ensures Bit(v, j) == Bit(u, j) {
      if j < r {
        var i := if j < rot then j + r - rot else j - rot;
        if j < rot {
          DivModUnique(i + rot, r, 1, j);
        } else {
          ModSmall(i + rot, r);
        }
        BitRotr(v, rot, r, i);
        BitRotr(u, rot, r, i);
      } else {
        BitHigh(v, r, j);
        BitHigh(u, r, j);
      }
    }
    BitExt(v, u);
  }

  /** The output for a state put together from its halves. */
  lemma XslRrOfHalves(high: nat, low: nat, w: nat, r: nat)
    requires Sizes(w, r) && high < Pow2(r) && low < Pow2(r)
    ensures high * Pow2(r) + low >= 0 && Xor(high, low) < Pow2(r)
    ensures var rot := Top(high, r, RotationBits(r));
      rot < r && XslRrOutput(high * Pow2(r) + low, w, r) == Rotr(Xor(high, low), rot, r)
  {
    hide Pow2, Bit, XorShift, Top, Rotr, Xor, XslRrOutput;
    var x: nat, op := high * Pow2(r) + low, RotationBits(r);
    RotationFits(high, r, r);
    HalvesTop(high, low, w, r, op);
    XslRrUnfold(x, w, r);
    XorFits(high, low, r);
    forall i: nat ensures Bit(XorShift(x, r) % Pow2(r), i) == Bit(Xor(high, low), i) {
      BitMod(XorShift(x, r), r, i);
      if i < r {
        BitXorShift(x, r, i);
        HalfBits(high, low, r, i);
        BitXor(high, low, i);
      } else {
        BitHigh(Xor(high, low), r, i);
      }
    }
    BitExt(XorShift(x, r) % Pow2(r), Xor(high, low));
  }

  lemma HalvesTop(high: nat, low: nat, w: nat, r: nat, op: nat)
    requires w == 2 * r && op <= r && high < Pow2(r) && low < Pow2(r) && high * Pow2(r) + low >= 0
    ensures Top(high * Pow2(r) + low, w, op) == Top(high, r, op)
  {
    hide Pow2, Bit, And, Shr;
    var x: nat := high * Pow2(r) + low;
    var a, b := Shr(x, w - op), Shr(high, r - op);
    forall i: nat ensures Bit(a, i) == Bit(b, i) {
      BitShr(x, w - op, i);
      BitShr(high, r - op, i);
      HighBits(high, low, r, i + r - op);
    }
    BitExt(a, b);
  }

  lemma HighBits(high: nat, low: nat, r: nat, i: nat)
    requires high < Pow2(r) && low < Pow2(r) && high * Pow2(r) + low >= 0
    ensures Bit(high * Pow2(r) + low, i + r) == Bit(high, i)
  {
    hide Pow2, Bit, Or;
    OrAdds(high, low, r);
    BitOr(high * Pow2(r), low, i + r);
    BitTimes(high, r, i + r);
    BitHigh(low, r, i + r);
  }

  lemma XorFits(x: nat, y: nat, r: nat)
    requires x < Pow2(r) && y < Pow2(r)
    ensures Xor(x, y) < Pow2(r)
  {
    hide Pow2, Bit, Xor;
    forall i: nat | r <= i ensures !Bit(Xor(x, y), i) {
      BitXor(x, y, i);
      BitHigh(x, r, i);
      BitHigh(y, r, i);
    }
    BitsBelow(Xor(x, y), r);
  }

  lemma XorTwice(x: nat, y: nat)
    ensures Xor(x, Xor(x, y)) == y
  {
    hide Bit, Xor;
    forall i: nat ensures Bit(Xor(x, Xor(x, y)), i) == Bit(y, i) {
      BitXor(x, Xor(x, y), i);
      BitXor(x, y, i);
    }
    BitExt(Xor(x, Xor(x, y)), y);
  }

  /** Whatever the high half of the state, every output is reached. */
  lemma XslRrReaches(high: nat, out: nat, w: nat, r: nat) returns (x: nat)
    requires Sizes(w, r) && high < Pow2(r) && out < Pow2(r)
    ensures x < Pow2(w) && x / Pow2(r) == high && XslRrOutput(x, w, r) == out
  {
    hide Pow2, Top, Rotr, Xor, XslRrOutput;
    RotationFits(high, r, r);
    var rot := Top(high, r, RotationBits(r));
    var v := UnRotate(out, rot, r);
    var low := Xor(high, v);
    XorFits(high, v, r);
    XorTwice(high, v);
    XslRrOfHalves(high, low, w, r);
    x := high * Pow2(r) + low;
    Pow2Add(r, r);
    TwoHalves(high, low, r);
    DivModUnique(x, Pow2(r), high, low);
  }

  /** With a given high half, only one state has a given output: over all states, all outputs are equally frequent. */
  lemma XslRrInjective(x: nat, y: nat, w: nat, r: nat)
    requires Sizes(w, r) && x < Pow2(w) && y < Pow2(w) && x / Pow2(r) == y / Pow2(r)
    requires XslRrOutput(x, w, r) == XslRrOutput(y, w, r)
    ensures x == y
  {
    hide Pow2, Top, Rotr, Xor, XslRrOutput;
    var high := Halves(x, w, r);
    var _ := Halves(y, w, r);
    var low, other := x % Pow2(r), y % Pow2(r);
    XslRrOfHalves(high, low, w, r);
    XslRrOfHalves(high, other, w, r);
    RotrInjective(Xor(high, low), Xor(high, other), Top(high, r, RotationBits(r)), r);
    XorTwice(high, low);
    XorTwice(high, other);
  }

  lemma Halves(x: nat, w: nat, r: nat) returns (high: nat)
    requires w == 2 * r && x < Pow2(w)
    ensures high == x / Pow2(r) < Pow2(r) && x == high * Pow2(r) + x % Pow2(r)
  {
    hide Pow2;
    Pow2Add(r, r);
    DivNonneg(x, Pow2(r));
    QuotientBound(x, Pow2(r), Pow2(r));
    high := x / Pow2(r);
    assert Pow2(r) * high == high * Pow2(r);
  }

  // ----- XSL-RR-RR is invertible -----

  /** The low half of XSL-RR-RR is the output of XSL-RR. */
  lemma LowHalfIsXslRr(x: nat, w: nat, h: nat)
    requires Sizes(w, h) && x < Pow2(w)
    ensures XslRrRrOutput(x, w, h) % Pow2(h) == XslRrOutput(x, w, h)
  {
    hide Pow2, Bit, XslRrOutput, XslRrRrOutput;
    var y, z := XslRrRrOutput(x, w, h), XslRrOutput(x, w, h);
    XslRrBits(x, w, h, 0);
    forall i: nat ensures Bit(y % Pow2(h), i) == Bit(z, i) {
      BitMod(y, h, i);
      if i < h {
        XslRrBits(x, w, h, i);
        XslRrRrBits(x, w, h, i);
      } else {
        BitHigh(z, h, i);
      }
    }
    BitExt(y % Pow2(h), z);
  }

  /** States with the same output have the same high half. */
  lemma SameHighHalf(x: nat, y: nat, w: nat, h: nat)
    requires Sizes(w, h) && x < Pow2(w) && y < Pow2(w) && XslRrRrOutput(x, w, h) == XslRrRrOutput(y, w, h)
    ensures Shr(x, h) == Shr(y, h)
  {
    hide Pow2, Bit, XslRrRrOutput, Shr;
    var rot := XslRrRrOutput(x, w, h) % h;
    forall j: nat ensures Bit(Shr(x, h), j) == Bit(Shr(y, h), j) {
      BitShr(x, h, j);
      BitShr(y, h, j);
      if j < h {
        var i := if j < rot then j + h - rot else j - rot;
        if j < rot {
          DivModUnique(i + rot, h, 1, j);
        } else {
          ModSmall(i + rot, h);
        }
        XslRrRrBits(x, w, h, i);
        XslRrRrBits(y, w, h, i);
      } else {
        BitHigh(x, w, j + h);
        BitHigh(y, w, j + h);
      }
    }
    BitExt(Shr(x, h), Shr(y, h));
  }

  /** Different states have different outputs: XSL-RR-RR is a permutation of the words. */
  lemma XslRrRrInjective(x: nat, y: nat, w: nat, h: nat)
    requires Sizes(w, h) && x < Pow2(w) && y < Pow2(w) && XslRrRrOutput(x, w, h) == XslRrRrOutput(y, w, h)
    ensures x == y
  {
    hide Pow2, XslRrOutput, XslRrRrOutput;
    SameHighHalf(x, y, w, h);
    LowHalfIsXslRr(x, w, h);
    LowHalfIsXslRr(y, w, h);
    XslRrInjective(x, y, w, h);
  }
}
