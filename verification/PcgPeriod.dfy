/** The period of the engine of base/pcg-random/pcg_random.hpp: from any valid state the generator visits every valid
    state exactly once before it returns. */
module PcgPeriod {
  import opened Modular
  import opened Bits
  import opened Pcg
  import opened PcgDistance

  /** Every valid state is reached, in fewer than 2^period_pow2 steps. */
  lemma {:induction false} Reaches(mcg: bool, m: nat, p: nat, w: nat, k: nat, x: nat, y: nat) returns (d: nat)
    requires Params(mcg, m, p) && ValidState(mcg, w, x) && ValidState(mcg, w, y) && LowBit(mcg) + k <= w
    requires x % Pow2(LowBit(mcg) + k) == y % Pow2(LowBit(mcg) + k)
    ensures Iterate(m, p, w, d, x) == y && d + Pow2(k) <= Pow2(w - LowBit(mcg))
    decreases w - k
  {
    hide Params, ValidState, Iterate, Bit;
    var b := LowBit(mcg) + k;
    if b == w {
      AllBitsAgree(mcg, w, x, y);
      IterateUnfold(m, p, w, 0, x);
      d := 0;
    } else {
      NextAgreement(mcg, m, p, w, k, x, y);
      if Bit(x, b) == Bit(y, b) {
        d := Reaches(mcg, m, p, w, k + 1, x, y);
      } else {
        var x' := Iterate(m, p, w, Pow2(k), x);
        var d' := Reaches(mcg, m, p, w, k + 1, x', y);
        IterateAdd(m, p, w, Pow2(k), d', x);
        d := Pow2(k) + d';
      }
    }
  }

  /** e times 2^k steps add e * 2^k, as far as bit k can tell. */
  lemma {:induction false} IterateFlipsOften(mcg: bool, m: nat, p: nat, w: nat, k: nat, e: nat, x: nat)
    requires Params(mcg, m, p) && ValidState(mcg, w, x) && LowBit(mcg) + k < w
    ensures var b := LowBit(mcg) + k;
      Iterate(m, p, w, Pow2(k) * e, x) % Pow2(b + 1) == (x + e * Pow2(b)) % Pow2(b + 1)
    decreases e
  {
    var b := LowBit(mcg) + k;
    if e == 0 {
      IterateUnfold(m, p, w, 0, x);
    } else {
      var x' := Iterate(m, p, w, Pow2(k), x);
      StillValid(mcg, m, p, w, k, x);
      IterateFlipsOften(mcg, m, p, w, k, e - 1, x');
      hide Iterate, Pow2, ValidState, Params;
      FlipsOnce(mcg, m, p, w, k, x);
      AddResidue(x', x + Pow2(b), (e - 1) * Pow2(b), Pow2(b + 1));
      Distribute(e - 1, 1, Pow2(b));
      MulSplit(Pow2(k), e);
      IterateAdd(m, p, w, Pow2(k), Pow2(k) * (e - 1), x);
    }
  }

  lemma MulSplit(a: nat, e: nat)
    requires e > 0
    ensures a * e == a + a * (e - 1)
  {
  }

  lemma AddResidue(a: int, b: int, c: int, q: int)
    requires q > 0 && a % q == b % q
    ensures (a + c) % q == (b + c) % q
  {
    ModAddLeft(a, c, q);
    ModAddLeft(b, c, q);
  }

  lemma FlipsOnce(mcg: bool, m: nat, p: nat, w: nat, k: nat, x: nat)
    requires Params(mcg, m, p) && ValidState(mcg, w, x) && LowBit(mcg) + k < w
    ensures var b := LowBit(mcg) + k;
      Iterate(m, p, w, Pow2(k), x) % Pow2(b + 1) == (x + Pow2(b)) % Pow2(b + 1)
  {
    hide Iterate, Pow2;
    if mcg {
      assert x % 2 == 1;
    }
    IterateFlips(mcg, m, p, w, k, x);
  }

  /** A power of the step leads from a valid state to a valid state. */
  lemma StillValid(mcg: bool, m: nat, p: nat, w: nat, k: nat, x: nat)
    requires Params(mcg, m, p) && ValidState(mcg, w, x) && LowBit(mcg) + k < w
    ensures ValidState(mcg, w, Iterate(m, p, w, Pow2(k), x))
  {
    IterateFits(m, p, w, Pow2(k), x);
    if mcg {
      FlipsOnce(mcg, m, p, w, k, x);
      LowTwoBits(Iterate(m, p, w, Pow2(k), x), x + Pow2(k + 2), k + 2);
      Pow2Add(2, k);
      ModEqual(x + Pow2(k + 2), x, 4, Pow2(k));
    }
  }

  /** Returning to the same low bits takes a multiple of the corresponding power of two. */
  lemma {:induction false} ReturnsOnlyAfter(mcg: bool, m: nat, p: nat, w: nat, k: nat, d: nat, x: nat)
    requires Params(mcg, m, p) && ValidState(mcg, w, x) && LowBit(mcg) + k <= w
    requires Iterate(m, p, w, d, x) % Pow2(LowBit(mcg) + k) == x % Pow2(LowBit(mcg) + k)
    ensures d % Pow2(k) == 0
    decreases k
  {
    if k == 0 {
      ModSmall(0, 1);
    } else {
      var b := LowBit(mcg) + k - 1;
      hide Iterate, ValidState, Params;
      var q, h := Pow2(b), Pow2(k - 1);
      assert Pow2(b + 1) == 2 * q && Pow2(k) == 2 * h;
      FewerBits(Iterate(m, p, w, d, x), x, b);
      ReturnsOnlyAfter(mcg, m, p, w, k - 1, d, x);
      hide Pow2;
      var e := ExactDiv(d, h);
      IterateFlipsOften(mcg, m, p, w, k - 1, e, x);
      EvenCount(x, e, q);
      HalfMultiple(d, h, e);
    }
  }

  lemma ExactDiv(d: nat, h: nat) returns (e: nat)
    requires h > 0 && d % h == 0
    ensures d == h * e
  {
    DivNonneg(d, h);
    e := d / h;
  }

  lemma FewerBits(x: nat, y: nat, b: nat)
    requires x % Pow2(b + 1) == y % Pow2(b + 1)
    ensures x % Pow2(b) == y % Pow2(b)
  {
    assert Pow2(b + 1) == Pow2(b) * 2;
    ModMod(x, Pow2(b), 2);
    ModMod(y, Pow2(b), 2);
  }

  /** Adding e times a bit changes nothing only if e is even. */
  lemma EvenCount(x: nat, e: nat, h: nat)
    requires h > 0 && (x + e * h) % (2 * h) == x % (2 * h)
    ensures e % 2 == 0
  {
    if e % 2 == 1 {
      var f := e / 2;
      assert e * h == 2 * h * f + h by {
        assert (2 * f + 1) * h == 2 * f * h + h;
        assert 2 * f * h == 2 * h * f;
      }
      ModEqual(x + e * h, x + h, 2 * h, f);
      ModAddLeft(x, h, 2 * h);
      var r := x % (2 * h);
      if r + h < 2 * h {
        ModSmall(r + h, 2 * h);
      } else {
        DivModUnique(r + h, 2 * h, 1, r - h);
      }
    }
  }

  lemma HalfMultiple(d: nat, h: nat, e: nat)
    requires h > 0 && d == h * e && e % 2 == 0
    ensures d % (2 * h) == 0
  {
    assert h * e == 2 * h * (e / 2) by {
      assert e == 2 * (e / 2);
      assert h * (2 * (e / 2)) == 2 * h * (e / 2);
    }
    DivModUnique(d, 2 * h, e / 2, 0);
  }

  lemma MultiplierOdd(mcg: bool, m: nat, p: nat)
    requires Params(mcg, m, p)
    ensures m % 4 == 1 && m % 2 == 1 && (mcg ==> p == 0)
  {
    if mcg {
      assert m == 8 * (m / 8) + 5;
      DivModUnique(m, 4, 2 * (m / 8) + 1, 1);
    }
    assert m == 4 * (m / 4) + 1;
    DivModUnique(m, 2, 2 * (m / 4), 1);
  }

  /** 2^period_pow2 steps lead back to the start. */
  lemma Turn(mcg: bool, m: nat, p: nat, w: nat, x: nat)
    requires Params(mcg, m, p) && ValidState(mcg, w, x)
    ensures Iterate(m, p, w, Pow2(w - LowBit(mcg)), x) == x
  {
    hide Params, Iterate, Pow2;
    MultiplierOdd(mcg, m, p);
    if mcg {
      McgTurn(m, w, x);
    } else {
      FullTurn(m, p, w, x);
    }
  }

  lemma McgTurn(m: nat, w: nat, x: nat)
    requires m % 4 == 1 && w >= 2 && x < Pow2(w)
    ensures Iterate(m, 0, w, Pow2(w - 2), x) == x
  {
    IteratePow2(m, 0, w, w - 2, x);
    PlusZero(m, w - 2);
    var c := FourPower(m, w - 2);
    var h := Pow2(w - 1);
    assert Pow2(w) == 2 * h;
    hide Pow2, Mult, Plus, Iterate;
    assert Step(Mult(m, w - 2), 0, w, x) == x * Mult(m, w - 2) % Pow2(w);
    hide Step;
    TurnResidue(x, Mult(m, w - 2), 2 * h, c);
  }

  lemma TurnResidue(x: nat, mult: nat, q: nat, c: nat)
    requires x < q && mult == 1 + q * c
    ensures x * mult % q == x
  {
    assert x * mult == x + q * (x * c) by {
      assert x * (1 + q * c) == x + x * (q * c);
      assert x * (q * c) == q * (x * c);
    }
    ModEqual(x * mult, x, q, x * c);
    ModSmall(x, q);
  }

  lemma {:induction false} Turns(mcg: bool, m: nat, p: nat, w: nat, n: nat, x: nat)
    requires Params(mcg, m, p) && ValidState(mcg, w, x)
    ensures Iterate(m, p, w, Pow2(w - LowBit(mcg)) * n, x) == x
    decreases n
  {
    var q := Pow2(w - LowBit(mcg));
    hide Params, ValidState, Pow2;
    if n == 0 {
      IterateUnfold(m, p, w, 0, x);
    } else {
      Turn(mcg, m, p, w, x);
      Turns(mcg, m, p, w, n - 1, x);
      MulSplit(q, n);
      hide Iterate;
      IterateAdd(m, p, w, q, q * (n - 1), x);
    }
  }

  /** The generator is back where it started exactly after the multiples of 2^period_pow2 steps. */
  lemma PeriodExact(mcg: bool, m: nat, p: nat, w: nat, d: nat, x: nat)
    requires Params(mcg, m, p) && ValidState(mcg, w, x)
    ensures Iterate(m, p, w, d, x) == x <==> d % Pow2(w - LowBit(mcg)) == 0
  {
    var q := Pow2(w - LowBit(mcg));
    hide Params, ValidState, Pow2, Iterate;
    if d % q == 0 {
      var n := ExactDiv(d, q);
      Turns(mcg, m, p, w, n, x);
    }
    if Iterate(m, p, w, d, x) == x {
      assert LowBit(mcg) + (w - LowBit(mcg)) == w;
      ReturnsOnlyAfter(mcg, m, p, w, w - LowBit(mcg), d, x);
    }
  }

  /** Iterating keeps states valid, however far. */
  lemma {:induction false} IterateValid(mcg: bool, m: nat, p: nat, w: nat, d: nat, x: nat)
    requires Params(mcg, m, p) && ValidState(mcg, w, x)
    ensures ValidState(mcg, w, Iterate(m, p, w, d, x))
    decreases d
  {
    if d > 0 {
      StepValid(mcg, m, p, w, x);
      IterateValid(mcg, m, p, w, d - 1, Step(m, p, w, x));
    }
  }

  lemma StepValid(mcg: bool, m: nat, p: nat, w: nat, x: nat)
    requires Params(mcg, m, p) && ValidState(mcg, w, x)
    ensures ValidState(mcg, w, Step(m, p, w, x))
  {
    if mcg {
      Pow2Add(2, w - 2);
      assert Pow2(2) == 4;
      hide Pow2;
      McgLowBits(x, m, Pow2(w - 2));
    }
  }

  lemma McgLowBits(x: nat, m: nat, r: nat)
    requires x % 4 == 3 && m % 8 == 5 && r > 0
    ensures x * m % (4 * r) % 4 == 3
  {
    ModMod(x * m, 4, r);
    ModMul(x, m, 4);
    assert m % 4 == 1;
  }

  /** From x, the target y lies at exactly one distance below the period. */
  lemma DistanceUnique(mcg: bool, m: nat, p: nat, w: nat, x: nat, d: nat, e: nat)
    requires Params(mcg, m, p) && ValidState(mcg, w, x)
    requires d <= e < Pow2(w - LowBit(mcg)) && Iterate(m, p, w, d, x) == Iterate(m, p, w, e, x)
    ensures d == e
  {
    var y := Iterate(m, p, w, d, x);
    IterateValid(mcg, m, p, w, d, x);
    IterateAdd(m, p, w, d, e - d, x);
    PeriodExact(mcg, m, p, w, e - d, y);
    ModSmall(e - d, Pow2(w - LowBit(mcg)));
  }

  /** The default multiplier and increment for words of w bits. */
  function DefaultMultiplier(w: nat): nat {
    match w
    case 8 => 141
    case 16 => 12829
    case 32 => 747796405
    case 64 => 6364136223846793005
    case _ => 2549297995355413924 * 0x1_0000_0000_0000_0000 + 4865540595714422341
  }

  function DefaultIncrement(w: nat): nat {
    match w
    case 8 => 77
    case 16 => 47989
    case 32 => 2891336453
    case 64 => 1442695040888963407
    case _ => 6364136223846793005 * 0x1_0000_0000_0000_0000 + 1442695040888963407
  }

  /** With the default constants an LCG returns to a state exactly after multiples of 2^w steps, and a multiplicative
      generator exactly after multiples of 2^(w-2). */
  lemma DefaultPeriod(w: nat, d: nat, x: nat, y: nat)
    requires w in {8, 16, 32, 64, 128} && ValidState(false, w, x) && ValidState(true, w, y)
    ensures Iterate(DefaultMultiplier(w), DefaultIncrement(w), w, d, x) == x <==> d % Pow2(w) == 0
    ensures Iterate(DefaultMultiplier(w), 0, w, d, y) == y <==> d % Pow2(w - 2) == 0
  {
    hide Iterate, Pow2;
    PeriodExact(false, DefaultMultiplier(w), DefaultIncrement(w), w, d, x);
    PeriodExact(true, DefaultMultiplier(w), 0, w, d, y);
  }
}
