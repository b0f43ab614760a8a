/** The signed operators of base/base/wide_integer_impl.h: two's complement on top of the unsigned algorithms. */
module WideSigned {
  import opened Wrappers
  import opened Modular
  import opened Bits
  import opened Limbs
  import opened WideAddSub
  import opened WideShift
  import opened WideMul
  import opened WideDiv

  /** The number a wide integer stands for. */
  function SVal(s: seq<Limb>, signed: bool): int
    requires |s| >= 1
  {
    if IsNegative(s, signed) then Val(s) - Base(|s|) else Val(s)
  }

  function Abs(x: int): nat {
    if x < 0 then -x else x
  }

  /** Division that truncates toward zero, and its remainder. */
  function TruncDiv(a: int, b: int): int
    requires b != 0
  {
    if (a < 0) == (b < 0) then Abs(a) / Abs(b) else -(Abs(a) / Abs(b))
  }

  function TruncMod(a: int, b: int): int
    requires b != 0
  {
    if a < 0 then -(Abs(a) % Abs(b)) else Abs(a) % Abs(b)
  }

  /** Quotient and remainder belong together, and the remainder is smaller than the divisor and has the sign of the
      dividend: the two conditions that define truncating division. */
  lemma TruncDivision(a: int, b: int)
    requires b != 0
    ensures a == TruncDiv(a, b) * b + TruncMod(a, b) && Abs(TruncMod(a, b)) < Abs(b)
    ensures if a < 0 then TruncMod(a, b) <= 0 else TruncMod(a, b) >= 0
  {
    var n: int, d: int := Abs(a), Abs(b);
    var q: int, r: int := n / d, n % d;
    assert n == d * q + r;
    assert (0 - q) * d == 0 - d * q && q * (0 - d) == 0 - d * q && (0 - q) * (0 - d) == d * q && q * d == d * q;
  }

  /** x is representable with modulus m. */
  predicate InRange(x: int, m: nat, signed: bool) {
    if signed then 0 <= 2 * x + m && 2 * x < m else 0 <= x < m
  }

  /** x is the most negative number of a signed type with modulus m. */
  predicate MostNegative(x: int, m: nat, signed: bool) {
    signed && 2 * x + m == 0
  }

  /** The sign bit says in which half of the range the value lies. */
  lemma SignHalf(s: seq<Limb>)
    requires |s| >= 1
    ensures s[|s| - 1] >= B / 2 <==> 2 * Val(s) >= Base(|s|)
    ensures Val(s) < Base(|s|)
  {
    var n := |s|;
    ValueUnfold(s, n);
    ValueBound(s, n - 1);
    ValueBound(s, n);
    assert Base(n) == Base(n - 1) * B;
    hide Value, Base;
    SignAlgebra(Value(s, n - 1), s[n - 1], Base(n - 1));
  }

  lemma SignAlgebra(low: nat, top: Limb, p: nat)
    requires low < p
    ensures top >= B / 2 <==> 2 * (low + top * p) >= p * B
  {
    if top >= B / 2 {
      MulLe(B / 2, top, p);
    } else {
      MulLe(top + 1, B / 2, p);
      assert p * (top + 1) == top * p + p;
    }
  }

  lemma SValRange(s: seq<Limb>, signed: bool)
    requires |s| >= 1
    ensures IsNegative(s, signed) <==> SVal(s, signed) < 0
    ensures InRange(SVal(s, signed), Base(|s|), signed)
    ensures Abs(SVal(s, signed)) < Base(|s|)
    ensures SVal(s, signed) % Base(|s|) == Val(s)
  {
    SignHalf(s);
    hide Val, Base;
    ModSmall(Val(s), Base(|s|));
    if IsNegative(s, signed) {
      ModEqual(SVal(s, signed), Val(s), Base(|s|), -1);
    }
  }

  /** A number in range is determined by its residue. */
  lemma SValUnique(s: seq<Limb>, signed: bool, x: int)
    requires |s| >= 1 && Val(s) == x % Base(|s|)
    requires InRange(x, Base(|s|), signed)
    ensures SVal(s, signed) == x
  {
    SignHalf(s);
    hide Val, Base;
    if x >= 0 {
      ModSmall(x, Base(|s|));
    } else {
      DivModUnique(x, Base(|s|), -1, x + Base(|s|));
    }
  }

  /** make_positive: the magnitude, correct as an unsigned number even for the most negative operand. */
  method MakePositive(s: seq<Limb>, signed: bool) returns (res: seq<Limb>)
    requires |s| >= 1
    ensures |res| == |s|
    ensures Val(res) == Abs(SVal(s, signed))
  {
    SValRange(s, signed);
    SignHalf(s);
    hide Val, Base, IsNegative;
    if IsNegative(s, signed) {
      res := Negate(s);
      ModSmall(Base(|s|) - Val(s), Base(|s|));
    } else {
      res := s;
    }
  }

  /** operator_star: the product modulo 2^Bits for every combination of signs. */
  method Star(lhs: seq<Limb>, rhs: seq<Limb>, signed: bool) returns (res: seq<Limb>)
    requires 1 <= |lhs| == |rhs|
    ensures |res| == |lhs|
    ensures Val(res) == SVal(lhs, signed) * SVal(rhs, signed) % Base(|lhs|)
  {
    hide Val, Base, IsNegative;
    SValRange(lhs, signed);
    SValRange(rhs, signed);
    var a := MakePositive(lhs, signed);
    var b := MakePositive(rhs, signed);
    res := Multiply(a, b);
    ValIsValue(b);
    ghost var x, y, m := SVal(lhs, signed), SVal(rhs, signed), Base(|lhs|);
    if IsNegative(lhs, signed) != IsNegative(rhs, signed) {
      res := Negate(res);
      NegateProduct(x, y, m);
    } else {
      SameSigns(x, y);
    }
  }

  lemma ValIsValue(s: seq<Limb>)
    ensures Val(s) == Value(s, |s|)
  {
  }

  lemma SameSigns(x: int, y: int)
    requires (x < 0) == (y < 0)
    ensures Abs(x) * Abs(y) == x * y
  {
  }

  lemma NegateProduct(x: int, y: int, m: nat)
    requires (x < 0) != (y < 0) && m > 0
    ensures (m - Abs(x) * Abs(y) % m) % m == x * y % m
  {
    AbsProduct(x, y);
    NegateMod(Abs(x) * Abs(y), m);
  }

  lemma AbsProduct(x: int, y: int)
    requires (x < 0) != (y < 0)
    ensures Abs(x) * Abs(y) == 0 - x * y
  {
    if x < 0 {
      assert (0 - x) * y == 0 - x * y;
    } else {
      assert x * (0 - y) == 0 - x * y;
    }
  }

  lemma NegateMod(z: int, m: nat)
    requires m > 0
    ensures (m - z % m) % m == (0 - z) % m
  {
    var q := z / m;
    assert z == m * q + z % m;
    assert m * (q + 1) == m * q + m;
    ModEqual(m - z % m, 0 - z, m, q + 1);
  }

  /** The quotient, with the one overflowing case. */
  function SlashSpec(a: int, b: int, m: nat, signed: bool): int
    requires b != 0
  {
    if MostNegative(a, m, signed) && b == -1 then a else TruncDiv(a, b)
  }

  /** A failure passed on to the caller. */
  function Failed<T, U>(o: Outcome<T>): (f: Outcome<U>)
    requires !o.Done?
    ensures !f.Done? && (f.Thrown? <==> o.Thrown?)
  {
    if o.Thrown? then Thrown(o.error) else Undefined
  }

  /** operator_slash: truncating division. Only the most negative number divided by -1 is out of range, and wraps. A
      zero divisor throws at every width but 128 bits, where it is undefined behaviour. */
  method Slash(lhs: seq<Limb>, rhs: seq<Limb>, signed: bool) returns (r: Outcome<seq<Limb>>)
    requires 1 <= |lhs| == |rhs|
    ensures r.Thrown? <==> SVal(rhs, signed) == 0 && |lhs| != 2
    ensures r.Undefined? <==> SVal(rhs, signed) == 0 && |lhs| == 2
    ensures r.Done? ==> |r.value| == |lhs|
    ensures r.Done? ==> SVal(r.value, signed) == SlashSpec(SVal(lhs, signed), SVal(rhs, signed), Base(|lhs|), signed)
  {
    hide Val, Base, IsNegative, TruncDiv;
    SValRange(lhs, signed);
    SValRange(rhs, signed);
    ghost var a, b, m := SVal(lhs, signed), SVal(rhs, signed), Base(|lhs|);
    var numerator := MakePositive(lhs, signed);
    var denominator := MakePositive(rhs, signed);
    var divided := Divide(numerator, denominator);
    if !divided.Done? {
      return Failed(divided);
    }
    var quotient := divided.value.0;
    QuotientIs(Abs(a), Abs(b), Val(quotient), Val(divided.value.1));
    SlashSigns(a, b, m, Val(quotient));
    if IsNegative(rhs, signed) != IsNegative(lhs, signed) {
      quotient := Negate(quotient);
    }
    SlashRange(quotient, a, b, signed);
    return Done(quotient);
  }

  lemma QuotientIs(n: nat, d: nat, q: nat, rem: nat)
    requires n == q * d + rem && rem < d
    ensures q == n / d && rem == n % d
  {
    assert q * d == d * q;
    DivModUnique(n, d, q, rem);
  }

  lemma SlashSigns(a: int, b: int, m: nat, q: nat)
    requires b != 0 && q == Abs(a) / Abs(b) && Abs(a) < m
    ensures q < m
    ensures (a < 0) == (b < 0) ==> TruncDiv(a, b) % m == q
    ensures (a < 0) != (b < 0) ==> TruncDiv(a, b) % m == (m - q) % m
  {
    QuotientAtMost(Abs(a), Abs(b));
    ModSmall(q, m);
    if (a < 0) != (b < 0) {
      ModEqual(m - q, 0 - q, m, 1);
    }
  }

  lemma QuotientAtMost(n: nat, d: nat)
    requires d > 0
    ensures 0 <= n / d <= n
    ensures d > 1 ==> 2 * (n / d) <= n
  {
    DivNonneg(n, d);
    var q := n / d;
    assert n == d * q + n % d;
    MulLe(1, d, q);
    if d > 1 {
      MulLe(2, d, q);
    }
    assert q * d == d * q;
  }

  lemma SlashRange(s: seq<Limb>, a: int, b: int, signed: bool)
    requires |s| >= 1 && b != 0 && Val(s) == TruncDiv(a, b) % Base(|s|)
    requires InRange(a, Base(|s|), signed) && (!signed ==> 0 < b)
    ensures SVal(s, signed) == SlashSpec(a, b, Base(|s|), signed)
  {
    hide Val, Base, SVal;
    var m := Base(|s|);
    QuotientAtMost(Abs(a), Abs(b));
    if MostNegative(a, m, signed) && b == -1 {
      ByOne(a, b);
      ModEqual(0 - a, a, m, 1);
      SValUnique(s, signed, a);
    } else {
      if Abs(b) == 1 {
        ByOne(a, b);
      }
      SValUnique(s, signed, TruncDiv(a, b));
    }
  }

  lemma ByOne(a: int, b: int)
    requires b == 1 || b == -1
    ensures TruncDiv(a, b) == if b == 1 then a else 0 - a
  {
  }

  /** operator_percent: the remainder takes the sign of the dividend. */
  method Percent(lhs: seq<Limb>, rhs: seq<Limb>, signed: bool) returns (r: Outcome<seq<Limb>>)
    requires 1 <= |lhs| == |rhs|
    ensures r.Thrown? <==> SVal(rhs, signed) == 0 && |lhs| != 2
    ensures r.Undefined? <==> SVal(rhs, signed) == 0 && |lhs| == 2
    ensures r.Done? ==> |r.value| == |lhs| && SVal(r.value, signed) == TruncMod(SVal(lhs, signed), SVal(rhs, signed))
  {
    hide Val, Base, IsNegative, TruncMod;
    SValRange(lhs, signed);
    SValRange(rhs, signed);
    ghost var a, b, m := SVal(lhs, signed), SVal(rhs, signed), Base(|lhs|);
    var numerator := MakePositive(lhs, signed);
    var denominator := MakePositive(rhs, signed);
    var divided := Divide(numerator, denominator);
    if !divided.Done? {
      return Failed(divided);
    }
    var remainder := divided.value.1;
    QuotientIs(Abs(a), Abs(b), Val(divided.value.0), Val(remainder));
    PercentSigns(a, b, m, Val(remainder));
    if IsNegative(lhs, signed) {
      remainder := Negate(remainder);
    }
    SValUnique(remainder, signed, TruncMod(a, b));
    return Done(remainder);
  }

  lemma PercentSigns(a: int, b: int, m: nat, rem: nat)
    requires b != 0 && rem == Abs(a) % Abs(b) && Abs(a) < m
    ensures a >= 0 ==> 0 <= TruncMod(a, b) <= a && TruncMod(a, b) % m == rem
    ensures a < 0 ==> a <= TruncMod(a, b) <= 0 && TruncMod(a, b) % m == (m - rem) % m
  {
    var q := Abs(a) / Abs(b);
    assert Abs(a) == Abs(b) * q + rem;
    DivNonneg(Abs(a), Abs(b));
    MulLe(0, q, Abs(b));
    if a >= 0 {
      ModSmall(rem, m);
    } else {
      ModEqual(m - rem, 0 - rem, m, 1);
    }
  }

  /** operator_greater and operator_less for operands of one type. */
  method Greater(lhs: seq<Limb>, rhs: seq<Limb>, signed: bool) returns (r: bool)
    requires 1 <= |lhs| == |rhs|
    ensures r <==> SVal(lhs, signed) > SVal(rhs, signed)
  {
    hide Val, Base, IsNegative;
    SValRange(lhs, signed);
    SValRange(rhs, signed);
    if IsNegative(lhs, signed) != IsNegative(rhs, signed) {
      return IsNegative(rhs, signed);
    }
    r := GreaterUnsigned(lhs, rhs);
  }

  method Less(lhs: seq<Limb>, rhs: seq<Limb>, signed: bool) returns (r: bool)
    requires 1 <= |lhs| == |rhs|
    ensures r <==> SVal(lhs, signed) < SVal(rhs, signed)
  {
    hide Val, Base, IsNegative;
    SValRange(lhs, signed);
    SValRange(rhs, signed);
    if IsNegative(lhs, signed) != IsNegative(rhs, signed) {
      return IsNegative(lhs, signed);
    }
    r := GreaterUnsigned(rhs, lhs);
  }

  /** What shift_right leaves is the number divided by 2^n and rounded down, whatever its sign. */
  lemma ArithmeticShift(s: seq<Limb>, r: seq<Limb>, n: nat, signed: bool)
    requires 1 <= |s| == |r| && n < 64 * |s|
    requires !IsNegative(s, signed) ==> Val(r) == Shr(Val(s), n)
    requires IsNegative(s, signed) ==> Val(r) == Shr(Val(s), n) + Base(|s|) - Pow2(64 * |s| - n)
    ensures SVal(r, signed) == SVal(s, signed) / Pow2(n)
  {
    SValRange(s, signed);
    BaseIsPow2(|s|);
    Pow2Add(n, 64 * |s| - n);
    SignHalf(r);
    hide Val, Base, Pow2, IsNegative, SVal;
    var p, c := Pow2(n), Pow2(64 * |s| - n);
    var x := SVal(s, signed);
    assert Shr(Val(s), n) == Val(s) / p;
    if IsNegative(s, signed) {
      assert x == Val(s) - p * c by { SValNegative(s, signed); }
      FloorShift(Val(s), p, c);
    } else {
      assert x == Val(s) by { SValNegative(s, signed); }
    }
    FloorRange(x, p);
    FloorResidue(x / p, Base(|s|), signed);
    SValUnique(r, signed, x / p);
  }

  lemma FloorResidue(y: int, m: nat, signed: bool)
    requires InRange(y, m, signed)
    ensures y % m == if y < 0 then y + m else y
  {
    if y < 0 {
      DivModUnique(y, m, -1, y + m);
    } else {
      ModSmall(y, m);
    }
  }

  lemma SValNegative(s: seq<Limb>, signed: bool)
    requires |s| >= 1
    ensures SVal(s, signed) == if IsNegative(s, signed) then Val(s) - Base(|s|) else Val(s)
  {
  }

  lemma FloorShift(v: int, p: nat, c: nat)
    requires p > 0
    ensures (v - p * c) / p == v / p - c
  {
    var q := v / p;
    assert v == p * q + v % p;
    assert p * (q - c) == p * q - p * c;
    DivModUnique(v - p * c, p, q - c, v % p);
  }

  lemma FloorRange(x: int, p: nat)
    requires p > 0
    ensures x >= 0 ==> 0 <= x / p <= x
    ensures x < 0 ==> x <= x / p < 0
  {
    var q := x / p;
    assert x == p * q + x % p;
    if x >= 0 {
      DivNonneg(x, p);
      MulLe(1, p, q);
      assert q * p == p * q;
    } else {
      if q >= 0 {
        MulLe(0, q, p);
      }
      if q < x {
        NextMultiple(p, q, x);
        NegatedProduct(p, x);
      }
    }
  }

  lemma NegatedProduct(p: int, x: int)
    requires p > 0 && x < 0
    ensures p * x <= x
  {
    MulLe(1, p, 0 - x);
    assert (0 - x) * p == 0 - p * x;
  }
}
