/** The linear congruential engine of base/pcg-random/pcg_random.hpp over words of w bits: stepping, logarithmic
    jump-ahead, jumping back, and the distance between two states. */
module Pcg {
  import opened Modular
  import opened Bits

  /** engine::bump: one step of the generator. */
  function Step(m: nat, p: nat, w: nat, x: nat): (y: nat)
    ensures y < Pow2(w)
  {
    (x * m + p) % Pow2(w)
  }

  /** n steps, one after the other. */
  function Iterate(m: nat, p: nat, w: nat, n: nat, x: nat): nat {
    if n == 0 then x else Iterate(m, p, w, n - 1, Step(m, p, w, x))
  }

  lemma {:induction false} IterateFits(m: nat, p: nat, w: nat, n: nat, x: nat)
    requires x < Pow2(w)
    ensures Iterate(m, p, w, n, x) < Pow2(w)
    decreases n
  {
    if n > 0 {
      IterateFits(m, p, w, n - 1, Step(m, p, w, x));
    }
  }

  lemma {:induction false} IterateAdd(m: nat, p: nat, w: nat, a: nat, b: nat, x: nat)
    ensures Iterate(m, p, w, a + b, x) == Iterate(m, p, w, b, Iterate(m, p, w, a, x))
    decreases a
  {
    if a > 0 {
      IterateAdd(m, p, w, a - 1, b, Step(m, p, w, x));
    }
  }

  // ----- Composing steps -----

  /** Only the residues of multiplier, increment and state matter. */
  lemma StepResidues(m: nat, p: nat, w: nat, x: nat)
    ensures Step(m % Pow2(w), p % Pow2(w), w, x) == Step(m, p, w, x)
    ensures Step(m, p, w, x % Pow2(w)) == Step(m, p, w, x)
  {
    var q := Pow2(w);
    AffineResidues(x, m, p, q);
    AffineResidues(m, x, p, q);
    assert x * (m % q) == (m % q) * x && x * m == m * x;
    assert m * (x % q) == (x % q) * m;
    ModAddLeft(p, x * m, q);
    ModAddLeft(p, (m % q) * x, q);
  }

  lemma AffineResidues(x: nat, m: nat, p: nat, q: nat)
    requires q > 0
    ensures ((m % q) * x + p) % q == (m * x + p) % q
  {
    ModMulLeft(m, x, q);
    ModAddLeft((m % q) * x, p, q);
    ModAddLeft(m * x, p, q);
  }

  lemma ComposeAlgebra(x: int, m: int, p: int, m': int, p': int)
    ensures (x * m + p) * m' + p' == x * (m * m') + (p * m' + p')
  {
    Distribute(x * m, p, m');
    MulAssoc(x, m, m');
  }

  /** A step after a step is one step with the composed coefficients. */
  lemma StepCompose(m: nat, p: nat, m': nat, p': nat, w: nat, x: nat)
    ensures Step(m', p', w, Step(m, p, w, x)) == Step(m * m', p * m' + p', w, x)
  {
    StepResidues(m', p', w, x * m + p);
    ComposeAlgebra(x, m, p, m', p');
  }

  /** Two steps are one step with the squared multiplier. */
  lemma StepTwice(m: nat, p: nat, w: nat, x: nat)
    ensures Step(m, p, w, Step(m, p, w, x)) == Step(m * m, (m + 1) * p, w, x)
  {
    StepCompose(m, p, m, p, w, x);
    Distribute(m, 1, p);
    assert (m + 1) * p == p * m + p;
  }

  /** An even number of steps is half as many doubled steps. */
  lemma {:induction false} IterateDoubled(m: nat, p: nat, w: nat, n: nat, x: nat)
    ensures Iterate(m, p, w, 2 * n, x) == Iterate(m * m % Pow2(w), (m + 1) * p % Pow2(w), w, n, x)
    decreases n
  {
    if n > 0 {
      var y := Step(m, p, w, Step(m, p, w, x));
      assert Iterate(m, p, w, 2 * n, x) == Iterate(m, p, w, 2 * (n - 1), y);
      StepTwice(m, p, w, x);
      StepResidues(m * m, (m + 1) * p, w, x);
      IterateDoubled(m, p, w, n - 1, y);
    }
  }

  /** engine::advance: jump ahead by delta steps in as many rounds as delta has bits. */
  method Advance(state: nat, delta: nat, m: nat, p: nat, w: nat) returns (r: nat)
    requires state < Pow2(w) && m < Pow2(w) && p < Pow2(w)
    ensures r == Iterate(m, p, w, delta, state)
  {
    hide Step, Iterate;
    var q := Pow2(w);
    var accMult: nat, accPlus: nat := 1 % q, 0;
    var curMult: nat, curPlus: nat, left: nat := m, p, delta;
    StepIdentity(w, state);
    while left > 0
      invariant Iterate(m, p, w, delta, state) == Iterate(curMult, curPlus, w, left, Step(accMult, accPlus, w, state))
      decreases left
    {
      ghost var y := Step(accMult, accPlus, w, state);
      IterateUnfold(curMult, curPlus, w, left, y);
      if left % 2 == 1 {
        StepCompose(accMult, accPlus, curMult, curPlus, w, state);
        StepResidues(accMult * curMult, accPlus * curMult + curPlus, w, state);
        accMult, accPlus := accMult * curMult % q, (accPlus * curMult + curPlus) % q;
      }
      IterateDoubled(curMult, curPlus, w, left / 2, Step(accMult, accPlus, w, state));
      curPlus := (curMult + 1) * curPlus % q;
      curMult := curMult * curMult % q;
      left := left / 2;
    }
    IterateUnfold(curMult, curPlus, w, 0, Step(accMult, accPlus, w, state));
    StepCommuted(accMult, accPlus, w, state);
    r := (accMult * state + accPlus) % q;
  }

  lemma StepIdentity(w: nat, x: nat)
    requires x < Pow2(w)
    ensures Step(1 % Pow2(w), 0, w, x) == x
  {
    StepResidues(1, 0, w, x);
    ModSmall(x, Pow2(w));
    ModSmall(0, Pow2(w));
  }

  lemma StepCommuted(m: nat, p: nat, w: nat, x: nat)
    ensures Step(m, p, w, x) == (m * x + p) % Pow2(w)
  {
    assert x * m == m * x;
  }

  lemma IterateUnfold(m: nat, p: nat, w: nat, n: nat, x: nat)
    ensures Iterate(m, p, w, n, x) == if n == 0 then x else Iterate(m, p, w, n - 1, Step(m, p, w, x))
  {
  }

  // ----- Powers of the step -----

  /** The multiplier and increment of 2^k steps, unreduced. */
  function Mult(m: nat, k: nat): nat {
    if k == 0 then m else Mult(m, k - 1) * Mult(m, k - 1)
  }

  function Plus(m: nat, p: nat, k: nat): nat {
    if k == 0 then p else (Mult(m, k - 1) + 1) * Plus(m, p, k - 1)
  }

  /** 2^k steps are one step with the k-th coefficients. */
  lemma {:induction false} IteratePow2(m: nat, p: nat, w: nat, k: nat, x: nat)
    ensures Iterate(m, p, w, Pow2(k), x) == Step(Mult(m, k), Plus(m, p, k), w, x)
    decreases k
  {
    if k > 0 {
      IterateAdd(m, p, w, Pow2(k - 1), Pow2(k - 1), x);
      IteratePow2(m, p, w, k - 1, x);
      IteratePow2(m, p, w, k - 1, Iterate(m, p, w, Pow2(k - 1), x));
      StepTwice(Mult(m, k - 1), Plus(m, p, k - 1), w, x);
    } else {
      assert Iterate(m, p, w, 1, x) == Step(m, p, w, x);
    }
  }

  /** Squaring a number close to one doubles its distance from one, up to a correction. */
  lemma SquareNearOne(h: int, d: int)
    ensures (1 + 2 * h * d) * (1 + 2 * h * d) == 1 + 4 * h * (d + h * (d * d))
  {
    var z := 2 * h * d;
    assert (1 + z) * (1 + z) == 1 + 2 * z + z * z;
    assert z * z == 4 * (h * h) * (d * d) by {
      assert z == 2 * (h * d);
      assert (h * d) * (h * d) == (h * h) * (d * d);
    }
    assert 4 * h * (d + h * (d * d)) == 4 * (h * d) + 4 * (h * (h * (d * d)));
    assert h * (h * (d * d)) == (h * h) * (d * d);
    assert 2 * z == 4 * (h * d);
  }

  /** The repeated squares of an odd multiplier approach one. */
  lemma {:induction false} OddPower(m: nat, k: nat) returns (c: nat)
    requires m % 2 == 1
    ensures Mult(m, k) == 1 + 2 * Pow2(k) * c
  {
    if k == 0 {
      c := m / 2;
    } else {
      var d := OddPower(m, k - 1);
      SquareNearOne(Pow2(k - 1), d);
      c := d + Pow2(k - 1) * (d * d);
    }
  }

  /** With a multiplier of 1 mod 4 they approach it twice as closely. */
  lemma {:induction false} FourPower(m: nat, k: nat) returns (c: nat)
    requires m % 4 == 1
    ensures Mult(m, k) == 1 + 2 * Pow2(k + 1) * c
  {
    if k == 0 {
      c := m / 4;
    } else {
      var d := FourPower(m, k - 1);
      c := FourStep(m, k, d);
    }
  }

  /** And with 5 mod 8 no closer than that. */
  lemma {:induction false} FivePower(m: nat, k: nat) returns (c: nat)
    requires m % 8 == 5
    ensures Mult(m, k) == 1 + 2 * Pow2(k + 1) * c && c % 2 == 1
  {
    if k == 0 {
      c := m / 4;
    } else {
      var d := FivePower(m, k - 1);
      c := FourStep(m, k, d);
    }
  }

  lemma FourStep(m: nat, k: nat, d: nat) returns (c: nat)
    requires k > 0 && Mult(m, k - 1) == 1 + 2 * Pow2(k) * d
    ensures Mult(m, k) == 1 + 2 * Pow2(k + 1) * c && c % 2 == d % 2
  {
    var h := Pow2(k);
    assert Pow2(k + 1) == 2 * h && h == 2 * Pow2(k - 1);
    c := d + h * (d * d);
    NextPower(Pow2(k - 1), h, d);
    assert 4 * h * c == 2 * (2 * h) * c;
  }

  lemma NextPower(g: int, h: int, d: int)
    requires h == 2 * g
    ensures (1 + 2 * h * d) * (1 + 2 * h * d) == 1 + 4 * h * (d + h * (d * d))
    ensures (d + h * (d * d)) % 2 == d % 2
  {
    SquareNearOne(h, d);
    var e := d * d;
    MulAssoc(2, g, e);
    ModEqual(d + h * e, d, 2, g * e);
  }

  /** The increments of 2^k steps are multiples of 2^k. */
  lemma {:induction false} PlusMultiple(m: nat, p: nat, k: nat) returns (c: nat)
    requires m % 2 == 1
    ensures Plus(m, p, k) == Pow2(k) * c
    ensures m % 4 == 1 && p % 2 == 1 ==> c % 2 == 1
  {
    if k == 0 {
      c := p;
    } else {
      var d := PlusMultiple(m, p, k - 1);
      var e := HalfNext(m, k - 1);
      c := e * d;
      Regroup(e, Pow2(k - 1), d);
      if m % 4 == 1 && p % 2 == 1 {
        OddTimesOdd(e, d);
      }
    }
  }

  lemma Regroup(e: int, h: int, d: int)
    ensures 2 * e * (h * d) == 2 * h * (e * d)
  {
    MulAssoc(2, e, h * d);
    MulAssoc(2, h, e * d);
    assert e * (h * d) == h * (e * d);
  }

  lemma OddTimesOdd(a: int, b: int)
    requires a % 2 == 1 && b % 2 == 1
    ensures a * b % 2 == 1
  {
    ModMul(a, b, 2);
  }

  /** One more than a power of an odd multiplier is even; for 1 mod 4 its half is odd. */
  lemma HalfNext(m: nat, k: nat) returns (e: nat)
    requires m % 2 == 1
    ensures Mult(m, k) + 1 == 2 * e
    ensures m % 4 == 1 ==> e % 2 == 1
  {
    hide Mult, Pow2;
    if m % 4 == 1 {
      var c := FourPower(m, k);
      Pow2Step(k);
      var g, h := Pow2(k), Pow2(k + 1);
      MulAssoc(2, h, c);
      MulAssoc(2, g, c);
      e := 1 + h * c;
      DivModUnique(e, 2, g * c, 1);
    } else {
      var c := OddPower(m, k);
      MulAssoc(2, Pow2(k), c);
      e := 1 + Pow2(k) * c;
    }
  }

  /** For an odd multiplier, 2^w steps lead back to the start. */
  lemma FullTurn(m: nat, p: nat, w: nat, x: nat)
    requires m % 2 == 1 && x < Pow2(w)
    ensures Iterate(m, p, w, Pow2(w), x) == x
  {
    IteratePow2(m, p, w, w, x);
    var c := OddPower(m, w);
    var d := PlusMultiple(m, p, w);
    var q := Pow2(w);
    assert x * (1 + 2 * q * c) + q * d == x + q * (2 * x * c + d) by {
      FullTurnAlgebra(x, q, c, d);
    }
    ModEqual(x * Mult(m, w) + Plus(m, p, w), x, q, 2 * x * c + d);
    ModSmall(x, q);
  }

  lemma FullTurnAlgebra(x: int, q: int, c: int, d: int)
    ensures x * (1 + 2 * q * c) + q * d == x + q * (2 * x * c + d)
  {
    assert x * (1 + 2 * q * c) == x + x * (2 * q * c);
    assert x * (2 * q * c) == q * (2 * x * c) by {
      assert 2 * q * c == 2 * (q * c) && 2 * x * c == 2 * (x * c);
      assert x * (q * c) == q * (x * c);
    }
    assert q * (2 * x * c + d) == q * (2 * x * c) + q * d;
  }

  // ----- Jumping back -----

  /** What backstep passes to advance: the negated delta, as an unsigned word. */
  function Negated(delta: nat, w: nat): (n: nat)
    requires delta < Pow2(w)
    ensures n < Pow2(w)
  {
    (Pow2(w) - delta) % Pow2(w)
  }

  lemma NegatedValue(delta: nat, w: nat)
    requires delta < Pow2(w)
    ensures delta == 0 ==> Negated(delta, w) == 0
    ensures delta > 0 ==> Negated(delta, w) == Pow2(w) - delta
  {
    if delta == 0 {
      DivModUnique(Pow2(w), Pow2(w), 1, 0);
    } else {
      ModSmall(Pow2(w) - delta, Pow2(w));
    }
  }

  /** backstep undoes advance when the multiplier is odd. */
  lemma BackstepUndoes(m: nat, p: nat, w: nat, delta: nat, x: nat)
    requires m % 2 == 1 && x < Pow2(w) && delta < Pow2(w)
    ensures Iterate(m, p, w, Negated(delta, w), Iterate(m, p, w, delta, x)) == x
  {
    NegatedValue(delta, w);
    IterateAdd(m, p, w, delta, Negated(delta, w), x);
    FullTurn(m, p, w, x);
  }

  /** With an even multiplier it does not: the low bit of the start is lost after one step. */
  lemma BackstepFails(m: nat, p: nat, w: nat) returns (x: nat)
    requires m % 2 == 0 && w > 0
    ensures x < Pow2(w) && 1 < Pow2(w)
    ensures Iterate(m, p, w, Negated(1, w), Iterate(m, p, w, 1, x)) != x
  {
    hide Pow2, Iterate, Step, Negated;
    Pow2Step(w - 1);
    x := if p % 2 == 0 then 1 else 0;
    NegatedValue(1, w);
    IterateAdd(m, p, w, 1, Pow2(w) - 1, x);
    EvenParity(m, p, w, Pow2(w), x);
  }

  lemma {:induction false} EvenParity(m: nat, p: nat, w: nat, n: nat, x: nat)
    requires m % 2 == 0 && w > 0 && n > 0
    ensures Iterate(m, p, w, n, x) % 2 == p % 2
    decreases n
  {
    ModMod(x * m + p, 2, Pow2(w - 1));
    ModMul(x, m, 2);
    ModAddLeft(x * m, p, 2);
    if n > 1 {
      EvenParity(m, p, w, n - 1, Step(m, p, w, x));
    } else {
      IterateUnfold(m, p, w, 0, Step(m, p, w, x));
    }
  }

  /** backstep undoes advance for every state and delta exactly when the multiplier is odd. */
  lemma BackstepUndoesIffOdd(m: nat, p: nat, w: nat)
    requires w > 0
    ensures (forall delta: nat, x: nat | delta < Pow2(w) && x < Pow2(w) ::
               Iterate(m, p, w, Negated(delta, w), Iterate(m, p, w, delta, x)) == x)
        <==> m % 2 == 1
  {
    if m % 2 == 1 {
      forall delta: nat, x: nat | delta < Pow2(w) && x < Pow2(w)
        ensures Iterate(m, p, w, Negated(delta, w), Iterate(m, p, w, delta, x)) == x
      {
        BackstepUndoes(m, p, w, delta, x);
      }
    } else {
      var x := BackstepFails(m, p, w);
    }
  }
}
