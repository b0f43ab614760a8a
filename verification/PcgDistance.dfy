/** engine::distance of base/pcg-random/pcg_random.hpp: it inverts jump-ahead, because the k-th power of the step flips
    bit k and leaves the lower bits alone. The same fact gives the period of the generator. */
module PcgDistance {
  import opened Modular
  import opened Bits
  import opened Pcg

  /** Parameters for which the distance is defined: an LCG with multiplier 1 mod 4 and odd increment,
      or a multiplicative generator with multiplier 5 mod 8. */
  predicate Params(mcg: bool, m: nat, p: nat) {
    if mcg then m % 8 == 5 && p == 0 else m % 4 == 1 && p % 2 == 1
  }

  /** A multiplicative generator keeps the low two bits of its state at 3. */
  predicate ValidState(mcg: bool, w: nat, x: nat) {
    x < Pow2(w) && (mcg ==> w >= 2 && x % 4 == 3)
  }

  /** The lowest bit that changes. */
  function LowBit(mcg: bool): nat {
    if mcg then 2 else 0
  }

  lemma {:induction false} PlusZero(m: nat, k: nat)
    ensures Plus(m, 0, k) == 0
  {
    if k > 0 {
      PlusZero(m, k - 1);
    }
  }

  /** 2^k steps of an LCG add 2^k, up to multiples of 2^(k+1). */
  lemma LcgFlips(m: nat, p: nat, k: nat, x: nat)
    requires Params(false, m, p)
    ensures (x * Mult(m, k) + Plus(m, p, k)) % Pow2(k + 1) == (x + Pow2(k)) % Pow2(k + 1)
  {
    var c := FourPower(m, k);
    var d := PlusMultiple(m, p, k);
    LcgResidue(x, Mult(m, k), Plus(m, p, k), Pow2(k), c, d);
  }

  lemma LcgResidue(x: nat, mult: nat, plus: nat, h: nat, c: nat, d: nat)
    requires h > 0 && mult == 1 + 2 * (2 * h) * c && plus == h * d && d % 2 == 1
    ensures (x * mult + plus) % (2 * h) == (x + h) % (2 * h)
  {
    var e := d / 2;
    LcgAlgebra(x, h, c, e);
    ModEqual(x * mult + plus, x + h, 2 * h, 2 * x * c + e);
  }

  lemma LcgAlgebra(x: int, h: int, c: int, e: int)
    ensures x * (1 + 2 * (2 * h) * c) + h * (2 * e + 1) == x + h + 2 * h * (2 * x * c + e)
  {
    assert h * (2 * e + 1) == 2 * h * e + h;
    assert x * (1 + 2 * (2 * h) * c) == x + x * (4 * h * c);
    assert x * (4 * h * c) == 2 * h * (2 * x * c) by {
      assert 4 * h * c == 4 * (h * c) && 2 * x * c == 2 * (x * c);
      assert x * (h * c) == h * (x * c);
    }
    assert 2 * h * (2 * x * c + e) == 2 * h * (2 * x * c) + 2 * h * e;
  }

  /** 2^k steps of a multiplicative generator add 2^(k+2) to an odd state, up to multiples of 2^(k+3). */
  lemma McgFlips(m: nat, k: nat, x: nat)
    requires m % 8 == 5 && x % 2 == 1
    ensures (x * Mult(m, k) + Plus(m, 0, k)) % Pow2(k + 3) == (x + Pow2(k + 2)) % Pow2(k + 3)
  {
    hide Pow2, Mult, Plus;
    var h := Pow2(k + 1);
    Pow2Step(k + 1);
    Pow2Step(k + 2);
    PlusZero(m, k);
    var c := FivePower(m, k);
    McgResidue(x, Mult(m, k), h, c, Pow2(k + 2), Pow2(k + 3));
  }

  lemma McgResidue(x: nat, mult: nat, h: nat, c: nat, q: nat, r: nat)
    requires h > 0 && mult == 1 + 2 * h * c && x % 2 == 1 && c % 2 == 1 && q == 2 * h && r == 4 * h
    ensures (x * mult + 0) % r == (x + q) % r
  {
    OddTimesOdd(x, c);
    var f := x * c / 2;
    McgAlgebra(x, h, c, f);
    ModEqual(x * mult, x + 2 * h, 4 * h, f);
  }

  lemma McgAlgebra(x: int, h: int, c: int, f: int)
    requires x * c == 2 * f + 1
    ensures x * (1 + 2 * h * c) == x + 2 * h + 4 * h * f
  {
    assert x * (1 + 2 * h * c) == x + x * (2 * h * c);
    assert x * (2 * h * c) == 2 * h * (x * c) by {
      assert 2 * h * c == 2 * (h * c);
      assert x * (h * c) == h * (x * c);
    }
    assert 2 * h * (2 * f + 1) == 4 * h * f + 2 * h;
  }

  lemma Flips(mcg: bool, m: nat, p: nat, k: nat, x: nat)
    requires Params(mcg, m, p) && (mcg ==> x % 2 == 1)
    ensures var b := LowBit(mcg) + k; (x * Mult(m, k) + Plus(m, p, k)) % Pow2(b + 1) == (x + Pow2(b)) % Pow2(b + 1)
  {
    if mcg {
      McgFlips(m, k, x);
    } else {
      LcgFlips(m, p, k, x);
    }
  }

  /** Iterating 2^k times flips bit LowBit + k and keeps the bits below it. */
  lemma IterateFlips(mcg: bool, m: nat, p: nat, w: nat, k: nat, x: nat)
    requires Params(mcg, m, p) && (mcg ==> x % 2 == 1) && LowBit(mcg) + k < w
    ensures var b := LowBit(mcg) + k;
      Iterate(m, p, w, Pow2(k), x) % Pow2(b + 1) == (x + Pow2(b)) % Pow2(b + 1)
  {
    var b := LowBit(mcg) + k;
    IteratePow2(m, p, w, k, x);
    Pow2Add(b + 1, w - (b + 1));
    ModMod(x * Mult(m, k) + Plus(m, p, k), Pow2(b + 1), Pow2(w - (b + 1)));
    Flips(mcg, m, p, k, x);
  }

  /** Agreement below bit b extends to bit b, after flipping it if necessary. */
  lemma AgreeNext(x: nat, y: nat, b: nat)
    requires x % Pow2(b) == y % Pow2(b)
    ensures Bit(x, b) == Bit(y, b) ==> x % Pow2(b + 1) == y % Pow2(b + 1)
    ensures Bit(x, b) != Bit(y, b) ==> (x + Pow2(b)) % Pow2(b + 1) == y % Pow2(b + 1)
  {
    LowBits(x, b);
    LowBits(y, b);
    if Bit(x, b) != Bit(y, b) {
      var q := Pow2(b + 1);
      ModAddLeft(x, Pow2(b), q);
      var r := x % Pow2(b);
      if Bit(x, b) {
        DivModUnique(r + Pow2(b) + Pow2(b), q, 1, r);
      } else {
        ModSmall(r + Pow2(b), q);
      }
    }
  }

  /** One power of the step makes x agree with y on one more bit; applied only when they differ there. */
  lemma NextAgreement(mcg: bool, m: nat, p: nat, w: nat, k: nat, x: nat, y: nat)
    requires Params(mcg, m, p) && ValidState(mcg, w, x) && ValidState(mcg, w, y)
    requires var b := LowBit(mcg) + k; b < w && x % Pow2(b) == y % Pow2(b)
    ensures var b := LowBit(mcg) + k; var x' := Iterate(m, p, w, Pow2(k), x);
      && (Bit(x, b) == Bit(y, b) ==> x % Pow2(b + 1) == y % Pow2(b + 1))
      && (Bit(x, b) != Bit(y, b) ==> x' % Pow2(b + 1) == y % Pow2(b + 1) && ValidState(mcg, w, x'))
  {
    hide Iterate, Bit, Pow2, Params;
    var b := LowBit(mcg) + k;
    AgreeNext(x, y, b);
    if mcg {
      DivModUnique(x, 2, 2 * (x / 4) + 1, 1);
    }
    IterateFlips(mcg, m, p, w, k, x);
    IterateFits(m, p, w, Pow2(k), x);
    if mcg && Bit(x, b) != Bit(y, b) {
      LowTwoBits(Iterate(m, p, w, Pow2(k), x), y, b);
    }
  }

  lemma LowTwoBits(x: nat, y: nat, b: nat)
    requires b >= 1 && x % Pow2(b + 1) == y % Pow2(b + 1)
    ensures x % 4 == y % 4
  {
    Pow2Add(2, b - 1);
    assert Pow2(2) == 4;
    ModMod(x, 4, Pow2(b - 1));
    ModMod(y, 4, Pow2(b - 1));
  }

  // ----- Facts used by the loop of engine::distance -----

  lemma DistanceStart(mcg: bool, m: nat, p: nat, w: nat, x: nat, y: nat)
    requires m < Pow2(w) && p < Pow2(w) && ValidState(mcg, w, x) && ValidState(mcg, w, y)
    ensures LowBit(mcg) <= w
    ensures LowBit(mcg) < w ==> Pow2(LowBit(mcg)) % Pow2(w) == Pow2(LowBit(mcg))
    ensures x % Pow2(LowBit(mcg)) == y % Pow2(LowBit(mcg))
    ensures m == Mult(m, 0) % Pow2(w) && p == Plus(m, p, 0) % Pow2(w)
    ensures x == Iterate(m, p, w, 0, x)
  {
    ModSmall(m, Pow2(w));
    ModSmall(p, Pow2(w));
    if LowBit(mcg) < w {
      Pow2Monotone(LowBit(mcg) + 1, w);
      ModSmall(Pow2(LowBit(mcg)), Pow2(w));
    }
  }

  lemma AllBitsAgree(mcg: bool, w: nat, x: nat, y: nat)
    requires ValidState(mcg, w, x) && ValidState(mcg, w, y) && x % Pow2(w) == y % Pow2(w)
    ensures x == y
  {
    ModSmall(x, Pow2(w));
    ModSmall(y, Pow2(w));
  }

  lemma TestBit(x: nat, y: nat, b: nat)
    ensures And(x, Pow2(b)) == And(y, Pow2(b)) <==> Bit(x, b) == Bit(y, b)
  {
    AndPow2(x, b);
    AndPow2(y, b);
  }

  /** A step with the reduced k-th coefficients is 2^k plain steps. */
  lemma StepOfPower(m: nat, p: nat, w: nat, k: nat, x: nat)
    ensures Step(Mult(m, k) % Pow2(w), Plus(m, p, k) % Pow2(w), w, x) == Iterate(m, p, w, Pow2(k), x)
  {
    IteratePow2(m, p, w, k, x);
    StepResidues(Mult(m, k), Plus(m, p, k), w, x);
  }

  lemma SetBit(distance: nat, steps: nat, k: nat, b: nat)
    requires distance == steps * Pow2(b) && steps < Pow2(k)
    ensures Or(distance, Pow2(b + k)) == (steps + Pow2(k)) * Pow2(b)
  {
    hide Pow2, Or;
    Pow2Add(k, b);
    MulLe(steps + 1, Pow2(k), Pow2(b));
    assert distance < Pow2(b + k) by {
      assert Pow2(b) * (steps + 1) == distance + Pow2(b);
      assert Pow2(b) * Pow2(k) == Pow2(k) * Pow2(b);
    }
    OrComm(distance, Pow2(b + k));
    OrAdds(1, distance, b + k);
    Distribute(steps, Pow2(k), Pow2(b));
  }

  lemma NextCoefficients(m: nat, p: nat, w: nat, k: nat)
    ensures Mult(m, k + 1) % Pow2(w) == (Mult(m, k) % Pow2(w)) * (Mult(m, k) % Pow2(w)) % Pow2(w)
    ensures Plus(m, p, k + 1) % Pow2(w) == (Mult(m, k) % Pow2(w) + 1) * (Plus(m, p, k) % Pow2(w)) % Pow2(w)
  {
    var q, mult, plus := Pow2(w), Mult(m, k), Plus(m, p, k);
    ModMul(mult, mult, q);
    ModAddLeft(mult, 1, q);
    ModMul(mult + 1, plus, q);
    ModMul(mult % q + 1, plus, q);
    ModMulLeft(mult % q + 1, plus % q, q);
    ModMulLeft(mult + 1, plus % q, q);
  }

  lemma NextBit(b: nat, w: nat)
    requires b + 1 < w
    ensures Pow2(b) * 2 % Pow2(w) == Pow2(b + 1)
  {
    Pow2Monotone(b + 2, w);
    ModSmall(Pow2(b + 1), Pow2(w));
  }

  lemma DistanceResult(mcg: bool, w: nat, k: nat, steps: nat, distance: nat)
    requires LowBit(mcg) + k <= w && steps < Pow2(k) && distance == steps * Pow2(LowBit(mcg))
    ensures steps < Pow2(w - LowBit(mcg))
    ensures (if mcg then Shr(distance, 2) else distance) == steps
  {
    Pow2Monotone(k, w - LowBit(mcg));
    assert Pow2(2) == 4;
    DivModUnique(4 * steps, 4, steps, 0);
  }

  lemma FullMask(mcg: bool, w: nat, x: nat, y: nat)
    requires ValidState(mcg, w, x) && ValidState(mcg, w, y)
    requires And(x, Pow2(w) - 1) == And(y, Pow2(w) - 1)
    ensures x == y
  {
    AndMask(x, w);
    AndMask(y, w);
    AllBitsAgree(mcg, w, x, y);
  }

  /** The loop state after k rounds: `steps` plain steps lead from start to cur, which agrees with target below bit k
      of the changing part. */
  ghost predicate Agreed(mcg: bool, m: nat, p: nat, w: nat, start: nat, target: nat, k: nat, steps: nat,
                         cur: nat, curMult: nat, curPlus: nat, theBit: nat, distance: nat) {
    var b := LowBit(mcg) + k;
    && b <= w && steps < Pow2(k) && distance == steps * Pow2(LowBit(mcg))
    && (b < w ==> theBit == Pow2(b))
    && curMult == Mult(m, k) % Pow2(w) && curPlus == Plus(m, p, k) % Pow2(w)
    && cur == Iterate(m, p, w, steps, start) && ValidState(mcg, w, cur)
    && cur % Pow2(b) == target % Pow2(b)
  }

  /** A round that finds the bit equal. */
  lemma RoundSame(mcg: bool, m: nat, p: nat, w: nat, start: nat, target: nat, k: nat, steps: nat,
                  cur: nat, curMult: nat, curPlus: nat, theBit: nat, distance: nat)
    requires Params(mcg, m, p) && ValidState(mcg, w, target) && LowBit(mcg) + k < w
    requires Agreed(mcg, m, p, w, start, target, k, steps, cur, curMult, curPlus, theBit, distance)
    requires And(cur, theBit) == And(target, theBit)
    ensures Agreed(mcg, m, p, w, start, target, k + 1, steps, cur, curMult * curMult % Pow2(w),
                   (curMult + 1) * curPlus % Pow2(w), theBit * 2 % Pow2(w), distance)
  {
    hide Mult, Plus, Iterate, And, Bit, Params, ValidState;
    var b := LowBit(mcg) + k;
    assert Pow2(k + 1) == 2 * Pow2(k);
    hide Pow2;
    NextAgreement(mcg, m, p, w, k, cur, target);
    TestBit(cur, target, b);
    NextCoefficients(m, p, w, k);
    if b + 1 < w {
      NextBit(b, w);
    }
  }

  /** A round that finds it different and flips it; afterwards it is equal, which is what the source asserts. */
  lemma RoundFlip(mcg: bool, m: nat, p: nat, w: nat, start: nat, target: nat, k: nat, steps: nat,
                  cur: nat, curMult: nat, curPlus: nat, theBit: nat, distance: nat)
    requires Params(mcg, m, p) && ValidState(mcg, w, target) && LowBit(mcg) + k < w
    requires Agreed(mcg, m, p, w, start, target, k, steps, cur, curMult, curPlus, theBit, distance)
    requires And(cur, theBit) != And(target, theBit)
    ensures And(Step(curMult, curPlus, w, cur), theBit) == And(target, theBit)
    ensures Agreed(mcg, m, p, w, start, target, k + 1, steps + Pow2(k), Step(curMult, curPlus, w, cur),
                   curMult * curMult % Pow2(w), (curMult + 1) * curPlus % Pow2(w), theBit * 2 % Pow2(w),
                   Or(distance, theBit))
  {
    hide Mult, Plus, Iterate, And, Bit, Step, Or, Params, ValidState;
    var b := LowBit(mcg) + k;
    var cur' := Step(curMult, curPlus, w, cur);
    assert Pow2(k + 1) == 2 * Pow2(k);
    hide Pow2;
    NextAgreement(mcg, m, p, w, k, cur, target);
    TestBit(cur, target, b);
    StepOfPower(m, p, w, k, cur);
    IterateAdd(m, p, w, steps, Pow2(k), start);
    SetBit(distance, steps, k, LowBit(mcg));
    NextCoefficients(m, p, w, k);
    if b + 1 < w {
      NextBit(b, w);
    }
    SameLowBit(cur', target, b);
    TestBit(cur', target, b);
  }

  lemma SameLowBit(x: nat, y: nat, b: nat)
    requires x % Pow2(b + 1) == y % Pow2(b + 1)
    ensures Bit(x, b) == Bit(y, b)
  {
    BitMod(x, b + 1, b);
    BitMod(y, b + 1, b);
  }

  lemma BelowWidth(mcg: bool, m: nat, p: nat, w: nat, start: nat, target: nat, k: nat, steps: nat,
                   cur: nat, curMult: nat, curPlus: nat, theBit: nat, distance: nat)
    requires ValidState(mcg, w, target) && cur != target
    requires Agreed(mcg, m, p, w, start, target, k, steps, cur, curMult, curPlus, theBit, distance)
    ensures LowBit(mcg) + k < w
  {
    if LowBit(mcg) + k == w {
      AllBitsAgree(mcg, w, cur, target);
    }
  }

  /** The loop of engine::distance. The mask restricts which bits must agree; all bits agree at the latest
      when the word width is reached, so the loop ends within the width. */
  method Distance(start: nat, target: nat, m: nat, p: nat, w: nat, mcg: bool, mask: nat) returns (d: nat)
    requires Params(mcg, m, p) && m < Pow2(w) && p < Pow2(w)
    requires ValidState(mcg, w, start) && ValidState(mcg, w, target)
    ensures d < Pow2(w - LowBit(mcg))
    ensures And(Iterate(m, p, w, d, start), mask) == And(target, mask)
    ensures mask == Pow2(w) - 1 ==> Iterate(m, p, w, d, start) == target
  {
    hide Iterate, Step, Mult, Plus, ValidState, Params, And, Or, Shr;
    var q := Pow2(w);
    var cur: nat, curMult: nat, curPlus: nat := start, m, p;
    var theBit: nat, distance: nat := Pow2(LowBit(mcg)) % q, 0;
    ghost var k: nat, steps: nat := 0, 0;
    DistanceStart(mcg, m, p, w, start, target);
    assert Agreed(mcg, m, p, w, start, target, k, steps, cur, curMult, curPlus, theBit, distance);
    hide Agreed, Pow2;
    while And(cur, mask) != And(target, mask)
      invariant Agreed(mcg, m, p, w, start, target, k, steps, cur, curMult, curPlus, theBit, distance)
      decreases w - (LowBit(mcg) + k)
    {
      BelowWidth(mcg, m, p, w, start, target, k, steps, cur, curMult, curPlus, theBit, distance);
      if And(cur, theBit) != And(target, theBit) {
        RoundFlip(mcg, m, p, w, start, target, k, steps, cur, curMult, curPlus, theBit, distance);
        cur := Step(curMult, curPlus, w, cur);
        distance := Or(distance, theBit);
        steps := steps + Pow2(k);
      } else {
        RoundSame(mcg, m, p, w, start, target, k, steps, cur, curMult, curPlus, theBit, distance);
      }
      assert And(cur, theBit) == And(target, theBit);
      theBit := theBit * 2 % q;
      curPlus := (curMult + 1) * curPlus % q;
      curMult := curMult * curMult % q;
      k := k + 1;
    }
    d := if mcg then Shr(distance, 2) else distance;
    Arrived(mcg, m, p, w, start, target, k, steps, cur, curMult, curPlus, theBit, distance, mask);
  }

  lemma Arrived(mcg: bool, m: nat, p: nat, w: nat, start: nat, target: nat, k: nat, steps: nat,
                cur: nat, curMult: nat, curPlus: nat, theBit: nat, distance: nat, mask: nat)
    requires ValidState(mcg, w, target) && And(cur, mask) == And(target, mask)
    requires Agreed(mcg, m, p, w, start, target, k, steps, cur, curMult, curPlus, theBit, distance)
    ensures (if mcg then Shr(distance, 2) else distance) == steps < Pow2(w - LowBit(mcg))
    ensures cur == Iterate(m, p, w, steps, start)
    ensures mask == Pow2(w) - 1 ==> cur == target
  {
    DistanceResult(mcg, w, k, steps, distance);
    if mask == Pow2(w) - 1 {
      FullMask(mcg, w, cur, target);
    }
  }
}
