/** Comparison and shift-subtract division of base/base/wide_integer_impl.h, for any number of limbs. */
module WideDiv {
  import opened Wrappers
  import opened Modular
  import opened Bits
  import opened Limbs
  import opened WideAddSub
  import opened WideShift

  // ----- Comparison -----

  /** operator_greater for operands of one unsigned type: the first differing limb from the top decides. */
  method GreaterUnsigned(lhs: seq<Limb>, rhs: seq<Limb>) returns (r: bool)
    requires |lhs| == |rhs|
    ensures r <==> Val(lhs) > Val(rhs)
  {
    hide Value, Base;
    var count := |lhs|;
    var i := 0;
    while i < count
      invariant 0 <= i <= count
      invariant Val(lhs) > Val(rhs) <==> Value(lhs, count - i) > Value(rhs, count - i)
    {
      TopDecides(lhs, rhs, count - i);
      if lhs[count - 1 - i] != rhs[count - 1 - i] {
        return lhs[count - 1 - i] > rhs[count - 1 - i];
      }
      i := i + 1;
    }
    NothingLeft(lhs, rhs);
    return false;
  }

  lemma NothingLeft(s: seq<Limb>, t: seq<Limb>)
    ensures Value(s, 0) == 0 == Value(t, 0)
  {
  }

  lemma TopDecides(s: seq<Limb>, t: seq<Limb>, n: nat)
    requires 0 < n <= |s| == |t|
    ensures s[n - 1] > t[n - 1] ==> Value(s, n) > Value(t, n)
    ensures s[n - 1] < t[n - 1] ==> Value(s, n) < Value(t, n)
    ensures s[n - 1] == t[n - 1] ==> (Value(s, n) > Value(t, n) <==> Value(s, n - 1) > Value(t, n - 1))
  {
    ValueUnfold(s, n);
    ValueUnfold(t, n);
    ValueBound(s, n - 1);
    ValueBound(t, n - 1);
    hide Value, Base;
    if s[n - 1] > t[n - 1] {
      LimbGap(t[n - 1], s[n - 1], Base(n - 1));
    } else if s[n - 1] < t[n - 1] {
      LimbGap(s[n - 1], t[n - 1], Base(n - 1));
    }
  }

  lemma LimbGap(x: int, y: int, p: nat)
    requires x < y
    ensures x * p + p <= y * p
  {
    MulLe(x + 1, y, p);
    assert p * (x + 1) == x * p + p && p * y == y * p;
  }

  /** is_zero. */
  method IsZero(s: seq<Limb>) returns (r: bool)
    ensures r <==> Val(s) == 0
  {
    hide Value;
    var i := 0;
    while i < |s|
      invariant 0 <= i <= |s|
      invariant forall j :: 0 <= j < i ==> s[j] == 0
    {
      if s[i] != 0 {
        NonzeroLimb(s, i);
        return false;
      }
      i := i + 1;
    }
    ValueZero(s, |s|);
    return true;
  }

  lemma NonzeroLimb(s: seq<Limb>, i: nat)
    requires i < |s| && s[i] != 0
    ensures Val(s) > 0
  {
    if Val(s) == 0 {
      ZeroItems(s, i);
    }
  }

  lemma ZeroItems(s: seq<Limb>, i: nat)
    requires i < |s| && Val(s) == 0
    ensures s[i] == 0
  {
    var zeros := FromBuiltin(0, |s|);
    ValueZero(zeros, |s|);
    ValueInjective(s, zeros, |s|);
    assert Item(s, i) == Item(zeros, i);
  }

  // ----- Limbwise or -----

  /** operator_pipe, limb by limb, is | on the numbers. */
  method Pipe(lhs: seq<Limb>, rhs: seq<Limb>) returns (res: seq<Limb>)
    requires |lhs| == |rhs|
    ensures |res| == |lhs|
    ensures Val(res) == Or(Val(lhs), Val(rhs))
  {
    hide Or;
    res := lhs;
    var i := 0;
    while i < |lhs|
      invariant 0 <= i <= |lhs| == |res|
      invariant forall j :: 0 <= j < i ==> res[j] == Or(lhs[j], rhs[j])
    {
      OrLimb(lhs[i], rhs[i]);
      res := res[i := Or(lhs[i], rhs[i])];
      i := i + 1;
    }
    PipeValue(lhs, rhs, res, |lhs|);
  }

  lemma OrLimb(x: Limb, y: Limb)
    ensures 0 <= Or(x, y) < B
  {
    Pow2At64();
    OrBelow(x, y, 64);
  }

  lemma {:induction false} PipeValue(s: seq<Limb>, t: seq<Limb>, r: seq<Limb>, n: nat)
    requires n <= |s| == |t| == |r| && forall j :: 0 <= j < n ==> r[j] == Or(s[j], t[j])
    ensures Value(r, n) == Or(Value(s, n), Value(t, n))
    decreases n
  {
    if n > 0 {
      PipeValue(s, t, r, n - 1);
      ValueBound(s, n - 1);
      ValueBound(t, n - 1);
      BaseIsPow2(n - 1);
      OrSplit(Value(s, n - 1), Value(t, n - 1), s[n - 1], t[n - 1], 64 * (n - 1));
    }
  }

  /** Or acts separately on the bits below k and the bits from k on. */
  lemma OrSplit(a: nat, b: nat, u: nat, v: nat, k: nat)
    requires a < Pow2(k) && b < Pow2(k)
    ensures Or(a + u * Pow2(k), b + v * Pow2(k)) == Or(a, b) + Or(u, v) * Pow2(k)
  {
    hide Or, Bit, Pow2;
    var x, y, z := a + u * Pow2(k), b + v * Pow2(k), Or(a, b) + Or(u, v) * Pow2(k);
    OrBelow(a, b, k);
    forall i: nat ensures Bit(Or(x, y), i) == Bit(z, i) {
      BitOr(x, y, i);
      BitJoin(a, u, k, i);
      BitJoin(b, v, k, i);
      BitJoin(Or(a, b), Or(u, v), k, i);
      if i < k {
        BitOr(a, b, i);
      } else {
        BitOr(u, v, i - k);
      }
    }
    BitExt(Or(x, y), z);
  }

  lemma BitJoin(a: nat, u: nat, k: nat, i: nat)
    requires a < Pow2(k)
    ensures Bit(a + u * Pow2(k), i) == if i < k then Bit(a, i) else Bit(u, i - k)
  {
    var x := a + u * Pow2(k);
    DivModUnique(x, Pow2(k), u, a);
    if i < k {
      BitMod(x, k, i);
    } else {
      BitShr(x, k, i - k);
    }
  }

  // ----- Division -----

  /** is_zero(operator_amp(shift_right(s, Bits - 1), 1)): the top bit is clear. */
  method TopBitClear(s: seq<Limb>) returns (r: bool)
    requires |s| >= 1
    ensures r <==> 2 * Val(s) < Base(|s|)
  {
    hide Value;
    var top := ShiftRight(s, 64 * |s| - 1, false);
    ValueBound(s, |s|);
    BaseIsPow2(|s|);
    HalfWidth(Val(s), 64 * |s|);
    SmallLimb(top);
    AndMask(top[0], 1);
    r := And(top[0], 1) == 0;
  }

  lemma HalfWidth(x: nat, w: nat)
    requires w >= 1 && x < Pow2(w)
    ensures Shr(x, w - 1) == if 2 * x < Pow2(w) then 0 else 1
  {
    var h := Pow2(w - 1);
    if 2 * x < Pow2(w) {
      ModSmall(x, h);
    } else {
      DivModUnique(x, h, 1, x - h);
    }
  }

  /** The loop state of the subtracting phase: x is bit k of the quotient, the divisor is shifted by k places, and what
      is left of the numerator is below twice that. k == -1 is the state after the last round. */
  ghost predicate Dividing(n: nat, d: nat, q: nat, rem: nat, den: nat, x: nat, k: int) {
    && n == q * d + rem
    && if k >= 0 then x == Pow2(k) && den == d * Pow2(k) && rem < 2 * den && q % Pow2(k + 1) == 0
       else x == 0 && rem < d
  }

  /** One round. */
  lemma DivideRound(n: nat, d: nat, q: nat, rem: nat, den: nat, x: nat, k: int)
    requires k >= 0 && Dividing(n, d, q, rem, den, x, k)
    ensures den <= rem ==> Dividing(n, d, Or(q, x), rem - den, Shr(den, 1), Shr(x, 1), k - 1)
    ensures den > rem ==> Dividing(n, d, q, rem, Shr(den, 1), Shr(x, 1), k - 1)
  {
    hide Dividing;
    if den <= rem {
      RoundTaken(n, d, q, rem, den, x, k);
    } else {
      RoundSkipped(n, d, q, rem, den, x, k);
    }
  }

  lemma RoundSkipped(n: nat, d: nat, q: nat, rem: nat, den: nat, x: nat, k: int)
    requires k >= 0 && Dividing(n, d, q, rem, den, x, k) && den > rem
    ensures Dividing(n, d, q, rem, Shr(den, 1), Shr(x, 1), k - 1)
  {
    HalfShifted(d, k);
    var h := Pow2(k);
    assert Pow2(k + 1) == 2 * h;
    hide Pow2, Shr;
    var c := MultipleOf(q, 2 * h);
    DoubleMultiple(c, h);
  }

  lemma RoundTaken(n: nat, d: nat, q: nat, rem: nat, den: nat, x: nat, k: int)
    requires k >= 0 && Dividing(n, d, q, rem, den, x, k) && den <= rem
    ensures Dividing(n, d, Or(q, x), rem - den, Shr(den, 1), Shr(x, 1), k - 1)
  {
    HalfShifted(d, k);
    var h := Pow2(k);
    assert Pow2(k + 1) == 2 * h;
    hide Pow2, Or, Shr;
    var c := MultipleOf(q, 2 * h);
    OrBitBelow(c, k);
    Distribute(q, h, d);
    AddOne(c, h);
  }

  lemma MultipleOf(q: nat, m: nat) returns (c: nat)
    requires m > 0 && q % m == 0
    ensures q == m * c
  {
    DivNonneg(q, m);
    c := q / m;
  }

  lemma HalfShifted(d: nat, k: nat)
    ensures k > 0 ==> Shr(d * Pow2(k), 1) == d * Pow2(k - 1) && Shr(Pow2(k), 1) == Pow2(k - 1)
    ensures k == 0 ==> Shr(Pow2(k), 1) == 0 && d * Pow2(k) == d
  {
    assert Pow2(1) == 2;
    if k > 0 {
      assert d * Pow2(k) == 2 * (d * Pow2(k - 1));
    }
  }

  lemma OrBitBelow(c: nat, k: nat)
    ensures Or(2 * Pow2(k) * c, Pow2(k)) == 2 * Pow2(k) * c + Pow2(k)
  {
    OrAdds(c, Pow2(k), k + 1);
    assert c * Pow2(k + 1) == 2 * Pow2(k) * c;
  }

  lemma DoubleMultiple(c: nat, h: nat)
    requires h > 0
    ensures 2 * h * c % h == 0
  {
    assert 2 * h * c == h * (2 * c);
    DivModUnique(2 * h * c, h, 2 * c, 0);
  }

  lemma AddOne(c: nat, h: nat)
    requires h > 0
    ensures (2 * h * c + h) % h == 0
  {
    assert 2 * h * c + h == h * (2 * c + 1);
    DivModUnique(2 * h * c + h, h, 2 * c + 1, 0);
  }

  /** The aligning phase: shift divisor and quotient bit left until the divisor exceeds the numerator or its top bit is
      set. */
  method Align(numerator: seq<Limb>, denominator: seq<Limb>) returns (den: seq<Limb>, x: seq<Limb>, ghost k: nat)
    requires 1 <= |numerator| == |denominator| && Val(denominator) > 0
    ensures |den| == |x| == |numerator|
    ensures Dividing(Val(numerator), Val(denominator), 0, Val(numerator), Val(den), Val(x), k)
  {
    hide Value, Base, Val;
    var count := |numerator|;
    ghost var d := Val(denominator);
    den, x, k := denominator, FromBuiltin(1, count), 0;
    FromBuiltinValue(1, count);
    var greater := GreaterUnsigned(den, numerator);
    var clear := TopBitClear(den);
    while !greater && clear
      invariant |den| == |x| == count
      invariant Val(den) == d * Pow2(k) && Val(x) == Pow2(k)
      invariant greater <==> Val(den) > Val(numerator)
      invariant clear <==> 2 * Val(den) < Base(count)
      decreases Base(count) - Val(den)
    {
      AlignRound(d, k, Base(count), count);
      x := ShiftLeft(x, 1);
      den := ShiftLeft(den, 1);
      k := k + 1;
      greater := GreaterUnsigned(den, numerator);
      clear := TopBitClear(den);
    }
    ValBound(numerator);
    ModSmall(0, Pow2(k + 1));
  }

  /** Doubling without overflow. */
  lemma AlignRound(d: nat, k: nat, m: nat, count: nat)
    requires d > 0 && 2 * (d * Pow2(k)) < m
    ensures d * Pow2(k) * Pow2(1) % m == d * Pow2(k + 1) > d * Pow2(k)
    ensures Pow2(k) * Pow2(1) % m == Pow2(k + 1)
  {
    assert Pow2(1) == 2 && Pow2(k + 1) == 2 * Pow2(k);
    hide Pow2;
    var h := Pow2(k);
    MulLe(1, d, h);
    assert h * d == d * h && d * (2 * h) == 2 * (d * h) && d * h * 2 == 2 * (d * h);
    ModSmall(2 * (d * h), m);
    ModSmall(2 * h, m);
  }

  /** The subtracting phase. */
  method Subtract(numerator: seq<Limb>, den0: seq<Limb>, x0: seq<Limb>, ghost d: nat, ghost k0: nat)
    returns (quotient: seq<Limb>, rem: seq<Limb>)
    requires 1 <= |numerator| == |den0| == |x0|
    requires Dividing(Val(numerator), d, 0, Val(numerator), Val(den0), Val(x0), k0)
    ensures |quotient| == |rem| == |numerator|
    ensures Val(numerator) == Val(quotient) * d + Val(rem) && Val(rem) < d
  {
    var count := |numerator|;
    ghost var n := Val(numerator);
    var den, x := den0, x0;
    quotient, rem := FromBuiltin(0, count), numerator;
    FromBuiltinValue(0, count);
    ghost var k: int := k0;
    hide Dividing, Val, Value, Base, Or, Shr;
    var finished := IsZero(x);
    NotFinished(n, d, 0, n, Val(den), Val(x), k);
    while !finished
      invariant |quotient| == |rem| == |den| == |x| == count && k >= -1
      invariant Dividing(n, d, Val(quotient), Val(rem), Val(den), Val(x), k)
      invariant finished <==> k < 0
      decreases k
    {
      DivideRound(n, d, Val(quotient), Val(rem), Val(den), Val(x), k);
      var greater := GreaterUnsigned(den, rem);
      if !greater {
        SubtractFits(rem, den);
        rem := Minus(rem, den);
        quotient := Pipe(quotient, x);
      }
      x := ShiftRight(x, 1, false);
      den := ShiftRight(den, 1, false);
      k := k - 1;
      finished := IsZero(x);
      NotFinished(n, d, Val(quotient), Val(rem), Val(den), Val(x), k);
    }
    Divided(n, d, Val(quotient), Val(rem), Val(den), Val(x), k);
  }

  lemma SubtractFits(s: seq<Limb>, t: seq<Limb>)
    requires |s| == |t| && Val(t) <= Val(s)
    ensures (Val(s) - Value(t, |s|)) % Base(|s|) == Val(s) - Val(t)
  {
    ValueBound(s, |s|);
    ModSmall(Val(s) - Val(t), Base(|s|));
  }

  lemma NotFinished(n: nat, d: nat, q: nat, rem: nat, den: nat, x: nat, k: int)
    requires Dividing(n, d, q, rem, den, x, k)
    ensures x == 0 <==> k < 0
  {
  }

  lemma Divided(n: nat, d: nat, q: nat, rem: nat, den: nat, x: nat, k: int)
    requires Dividing(n, d, q, rem, den, x, k) && k < 0
    ensures n == q * d + rem && rem < d
  {
  }

  /** Quotient and remainder of n and d, in the limbs of n. */
  ghost predicate Divides(n: seq<Limb>, d: seq<Limb>, result: (seq<Limb>, seq<Limb>)) {
    var (quotient, rem) := result;
    && |quotient| == |rem| == |n|
    && Val(n) == Val(quotient) * Val(d) + Val(rem) && Val(rem) < Val(d)
  }

  /** A number of 128 bits in two limbs. */
  function Pair(x: nat): (s: seq<Limb>)
    requires x < B * B
    ensures |s| == 2 && Val(s) == x
  {
    TwoLimbs([x % B, x / B]);
    [x % B, x / B]
  }

  /** The 128-bit branch: the compiler's division, which C++ leaves undefined for a zero divisor. */
  method Divide128(numerator: seq<Limb>, denominator: seq<Limb>) returns (r: Outcome<(seq<Limb>, seq<Limb>)>)
    requires |numerator| == |denominator| == 2
    ensures if Val(denominator) == 0 then r == Undefined else r.Done? && Divides(numerator, denominator, r.value)
  {
    var a: nat := numerator[1] * B + numerator[0];
    var b: nat := denominator[1] * B + denominator[0];
    TwoLimbs(numerator);
    TwoLimbs(denominator);
    assert Val(numerator) == a < B * B && Val(denominator) == b;
    hide Val, Pair;
    if b == 0 {
      return Undefined;
    }
    QuotientFits(a, b);
    var c := a / b;
    var remainder := a - b * c;
    assert c * b == b * c;
    return Done((Pair(c), Pair(remainder)));
  }

  lemma QuotientFits(a: nat, b: nat)
    requires 0 < b && a < B * B
    ensures 0 <= a / b <= a
    ensures 0 <= a - b * (a / b) < b && a - b * (a / b) <= a
  {
    var q := a / b;
    assert a == b * q + a % b;
    DivNonneg(a, b);
    MulLe(1, b, q);
    assert q * b == b * q;
  }

  /** divide: quotient and remainder for every nonzero divisor of any width. A zero divisor is an error in every branch
      but the 128-bit one, which comes before the test for zero. */
  method Divide(numerator: seq<Limb>, denominator: seq<Limb>) returns (r: Outcome<(seq<Limb>, seq<Limb>)>)
    requires 1 <= |numerator| == |denominator|
    ensures r.Thrown? <==> Val(denominator) == 0 && |numerator| != 2
    ensures r.Undefined? <==> Val(denominator) == 0 && |numerator| == 2
    ensures r.Done? ==> Divides(numerator, denominator, r.value)
  {
    hide Val;
    if |numerator| == 2 {
      r := Divide128(numerator, denominator);
      return;
    }
    var zero := IsZero(denominator);
    if zero {
      return Thrown("Division by zero");
    }
    var den, x;
    ghost var k;
    den, x, k := Align(numerator, denominator);
    var quotient, rem := Subtract(numerator, den, x, Val(denominator), k);
    return Done((quotient, rem));
  }

  /** One divided by zero at 128 bits: the error that the other widths throw does not come. */
  method ZeroDivisorUndefined() returns (r: Outcome<(seq<Limb>, seq<Limb>)>)
    ensures r == Undefined
  {
    var zero: seq<Limb> := [0, 0];
    TwoLimbs(zero);
    r := Divide([1, 0], zero);
  }
}
