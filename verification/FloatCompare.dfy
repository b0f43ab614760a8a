/** DecomposedFloat::compare of base/base/DecomposedFloat.h: an IEEE 754 number, given by its bits, against an integer
    of any width, without rounding. */
module FloatCompare {
  import opened Modular
  import opened Bits

  /** The widths of the exponent and mantissa fields. */
  datatype Format = Format(exponentBits: nat, mantissaBits: nat) {
    ghost predicate Valid() {
      exponentBits >= 2 && mantissaBits >= 1
    }

    function Bits(): nat {
      1 + exponentBits + mantissaBits
    }

    function Bias(): nat
      requires Valid()
    {
      Pow2(exponentBits - 1) - 1
    }
  }

  const FLOAT := Format(8, 23)
  const DOUBLE := Format(11, 52)

  predicate IsNegative(f: Format, x: nat) {
    Shr(x, f.Bits() - 1) != 0
  }

  function Exponent(f: Format, x: nat): nat {
    And(Shr(x, f.mantissaBits), Shr(Pow2(f.exponentBits + 1) - 1, 1))
  }

  function NormalizedExponent(f: Format, x: nat): int
    requires f.Valid()
  {
    Exponent(f, x) - f.Bias()
  }

  function Mantissa(f: Format, x: nat): nat {
    And(x, Pow2(f.mantissaBits) - 1)
  }

  function Sign(f: Format, x: nat): int {
    if Exponent(f, x) == 0 && Mantissa(f, x) == 0 then 0 else if IsNegative(f, x) then -1 else 1
  }

  /** Values of an integer type. */
  predicate InType(n: int, width: nat, signed: bool)
    requires width > 0
  {
    if signed then 0 - Pow2(width - 1) <= n < Pow2(width - 1) else 0 <= n < Pow2(width)
  }

  /** A type of w bits holds exactly one number of every residue modulo 2^w. */
  lemma TypeHoldsResidue(r: nat, width: nat, signed: bool) returns (n: int)
    requires width > 0 && r < Pow2(width)
    ensures InType(n, width, signed) && n % Pow2(width) == r
    ensures forall k :: InType(k, width, signed) && k % Pow2(width) == r ==> k == n
  {
    Pow2Step(width - 1);
    n := if signed && r >= Pow2(width - 1) then r - Pow2(width) else r;
    hide Pow2;
    ModSmall(r, Pow2(width));
    ModEqual(r - Pow2(width), r, Pow2(width), -1);
    forall k | InType(k, width, signed) && k % Pow2(width) == r ensures k == n {
      CloseResidues(k, n, Pow2(width));
    }
  }

  /** The number of value bits, without the sign. */
  function ValueBits(width: nat, signed: bool): nat
    requires width > 0
  {
    if signed then width - 1 else width
  }

  /** Mantissa and integer in the same octave 2^e: compare what lies above 2^e in a word of w bits. */
  function SameOctave(m: nat, mb: nat, e: nat, r: nat, w: nat): int
    requires e < w && mb < w
  {
    var large := e >= mb;
    var a := if large then Shl(m, e - mb, w) else Shr(m, mb - e);
    var b := r - Shl(1, e, w);
    if a < b then -1
    else if a > b then 1
    else if large || And(m, Pow2(mb - e) - 1) == 0 then 0
    else 1
  }

  /** The sign of the difference of magnitudes, for a float of at least one and an integer of v value bits. */
  function CompareMagnitude(m: nat, mb: nat, e: nat, r: nat, v: nat, w: nat): int
    requires e < v <= w && mb < w
  {
    if r < Shl(1, e, w) then 1
    else if e + 1 < v && r >= Shl(1, e + 1, w) then -1
    else SameOctave(m, mb, e, r, w)
  }

  function Compare(f: Format, x: nat, rhs: int, width: nat, signed: bool): int
    requires f.Valid() && width > 0 && InType(rhs, width, signed)
  {
    var negative := IsNegative(f, x);
    var e := NormalizedExponent(f, x);
    var v := ValueBits(width, signed);
    var m := Mantissa(f, x);
    if rhs == 0 then Sign(f, x)
    else if negative && rhs > 0 then -1
    else if !negative && rhs < 0 then 1
    else if e < 0 then
      if !negative then (if rhs > 0 then -1 else 1) else (if rhs >= 0 then -1 else 1)
    else if signed && rhs == 0 - Pow2(width - 1) then
      if e < v then 1 else if e > v then -1 else if m == 0 then 0 else -1
    else if e >= v then (if negative then -1 else 1)
    else
      var w := if width > f.Bits() then width else f.Bits();
      var r := if rhs < 0 then 0 - rhs else rhs;
      var c := CompareMagnitude(m, f.mantissaBits, e, r, v, w);
      if negative then 0 - c else c
  }

  // ----- The exact value -----

  /** The magnitude a bit pattern denotes, in units of the smallest subnormal number; infinities and NaNs continue the
      same formula. */
  ghost function Magnitude(f: Format, x: nat): nat {
    var e, m := Exponent(f, x), Mantissa(f, x);
    if e == 0 then m else (Pow2(f.mantissaBits) + m) * Pow2(e - 1)
  }

  /** The integer 1 in the same units. */
  ghost function Unit(f: Format): nat
    requires f.Valid()
  {
    Pow2(f.Bias() - 1 + f.mantissaBits)
  }

  ghost function Scaled(f: Format, x: nat): int {
    if IsNegative(f, x) then 0 - Magnitude(f, x) else Magnitude(f, x)
  }

  function Sgn(n: int): int {
    if n < 0 then -1 else if n == 0 then 0 else 1
  }

  // ----- The fields -----

  lemma Fields(f: Format, x: nat)
    ensures Mantissa(f, x) == x % Pow2(f.mantissaBits) < Pow2(f.mantissaBits)
    ensures Exponent(f, x) == Shr(x, f.mantissaBits) % Pow2(f.exponentBits) < Pow2(f.exponentBits)
  {
    AndMask(x, f.mantissaBits);
    AndMask(Shr(x, f.mantissaBits), f.exponentBits);
    var p := Pow2(f.exponentBits);
    assert Pow2(f.exponentBits + 1) == 2 * p;
    assert Pow2(1) == 2;
    assert Shr(2 * p - 1, 1) == p - 1;
  }

  lemma ShlExact(x: nat, s: nat, w: nat)
    requires x * Pow2(s) < Pow2(w)
    ensures Shl(x, s, w) == x * Pow2(s)
  {
    ModSmall(x * Pow2(s), Pow2(w));
  }

  // ----- Comparing magnitudes -----

  /** 2^e times the significand, against r, both in units of 2^-mb. */
  ghost function Difference(m: nat, mb: nat, e: nat, r: nat): int {
    (Pow2(mb) + m) * Pow2(e) - r * Pow2(mb)
  }

  lemma BelowOctave(m: nat, mb: nat, e: nat, r: nat)
    requires r < Pow2(e)
    ensures Difference(m, mb, e, r) > 0
  {
    var p, q := Pow2(mb), Pow2(e);
    hide Pow2;
    MulLe(r + 1, q, p);
    assert (p + m) * q == p * q + m * q && m * q >= 0 && p * (r + 1) == r * p + p;
  }

  lemma AboveOctave(m: nat, mb: nat, e: nat, r: nat)
    requires m < Pow2(mb) && r >= Pow2(e + 1)
    ensures Difference(m, mb, e, r) < 0
  {
    hide Pow2;
    Pow2Step(e);
    AboveAlgebra(Pow2(mb), m, Pow2(e), r);
  }

  lemma AboveAlgebra(p: nat, m: nat, q: nat, r: nat)
    requires m < p && 0 < q && 2 * q <= r
    ensures (p + m) * q < r * p
  {
    MulLe(p + m + 1, 2 * p, q);
    MulLe(2 * q, r, p);
    assert q * (p + m + 1) == (p + m) * q + q;
    assert q * (2 * p) == p * (2 * q);
    assert p * r == r * p;
  }

  lemma SameOctaveExact(m: nat, mb: nat, e: nat, r: nat, w: nat)
    requires m < Pow2(mb) && Pow2(e) <= r < Pow2(e + 1) && e < w && mb < w
    ensures SameOctave(m, mb, e, r, w) == Sgn(Difference(m, mb, e, r))
  {
    Pow2Monotone(e + 1, w);
    assert Pow2(e + 1) == 2 * Pow2(e);
    ShlExact(1, e, w);
    var b := r - Pow2(e);
    DifferenceAbove(m, mb, e, r);
    if e >= mb {
      Pow2Add(e - mb, mb);
      LargeShift(m, Pow2(mb), Pow2(e - mb));
      ShlExact(m, e - mb, w);
      SignLarge(m * Pow2(e - mb), b, Pow2(mb), m * Pow2(e));
    } else {
      Pow2Add(mb - e, e);
      AndMask(m, mb - e);
      SmallShift(m, b, Pow2(mb - e), Pow2(e));
    }
  }

  lemma DifferenceAbove(m: nat, mb: nat, e: nat, r: nat)
    ensures Difference(m, mb, e, r) == m * Pow2(e) - (r - Pow2(e)) * Pow2(mb)
  {
    var p, q := Pow2(mb), Pow2(e);
    hide Pow2;
    assert (p + m) * q == p * q + m * q && (r - q) * p == r * p - p * q;
  }

  lemma LargeShift(m: nat, p: nat, s: nat)
    requires m < p
    ensures m * (s * p) == m * s * p
    ensures m * s <= s * p
  {
    MulLe(m, p, s);
    assert s * m == m * s;
  }

  lemma SignLarge(a: nat, b: nat, p: nat, mq: nat)
    requires p > 0 && mq == a * p
    ensures Sgn(mq - b * p) == Sgn(a - b)
  {
    SignScaled(a - b, p);
    assert (a - b) * p == a * p - b * p;
  }

  lemma SignScaled(n: int, p: nat)
    requires p > 0
    ensures Sgn(n * p) == Sgn(n)
  {
    if n > 0 {
      MulLe(1, n, p);
    } else if n < 0 {
      MulLe(n, -1, p);
    }
    assert p * n == n * p;
  }

  /** With s = 2^(mb - e) and q = 2^e, the low bits of m are the fractional part. */
  lemma SmallShift(m: nat, b: nat, s: nat, q: nat)
    requires s > 0 && q > 0
    ensures var a, low := m / s, m % s;
      Sgn(m * q - b * (s * q)) == if a < b then -1 else if a > b then 1 else if low == 0 then 0 else 1
  {
    var a, low := m / s, m % s;
    assert m == s * a + low;
    ShiftedParts(s, a, low, q);
    SignOfParts(a, b, s * q, low * q);
  }

  lemma ShiftedParts(s: nat, a: nat, low: nat, q: nat)
    requires low < s && q > 0
    ensures (s * a + low) * q == a * (s * q) + low * q
    ensures 0 <= low * q < s * q && (low > 0 ==> low * q > 0)
  {
    assert (s * a + low) * q == s * a * q + low * q;
    assert s * a * q == a * (s * q);
    MulLe(low + 1, s, q);
    assert q * (low + 1) == low * q + q && q * s == s * q;
    if low > 0 {
      MulLe(1, low, q);
      assert q * low == low * q;
    }
  }

  lemma SignOfParts(a: nat, b: nat, p: nat, x: nat)
    requires x < p
    ensures Sgn(a * p + x - b * p) == if a < b then -1 else if a > b then 1 else Sgn(x)
  {
    if a < b {
      MulLe(a + 1, b, p);
      assert p * (a + 1) == a * p + p && p * b == b * p;
    } else if a > b {
      MulLe(b + 1, a, p);
      assert p * (b + 1) == b * p + p && p * a == a * p;
    }
  }

  lemma CompareMagnitudeExact(m: nat, mb: nat, e: nat, r: nat, v: nat, w: nat)
    requires m < Pow2(mb) && e < v <= w && mb < w && r < Pow2(v)
    ensures CompareMagnitude(m, mb, e, r, v, w) == Sgn(Difference(m, mb, e, r))
  {
    hide SameOctave, Difference;
    assert Pow2(e + 1) == 2 * Pow2(e);
    Pow2Monotone(e + 1, w);
    ShlExact(1, e, w);
    if r < Pow2(e) {
      BelowOctave(m, mb, e, r);
    } else if e + 1 < v {
      assert Pow2(e + 2) == 2 * Pow2(e + 1);
      Pow2Monotone(e + 2, w);
      ShlExact(1, e + 1, w);
      if r >= Pow2(e + 1) {
        AboveOctave(m, mb, e, r);
      } else {
        SameOctaveExact(m, mb, e, r, w);
      }
    } else {
      SameOctaveExact(m, mb, e, r, w);
    }
  }

  // ----- The whole comparison -----

  /** The magnitude against r, in the common unit. */
  ghost function Gap(f: Format, x: nat, r: nat): int
    requires f.Valid()
  {
    Magnitude(f, x) - r * Unit(f)
  }

  lemma MagnitudeZero(f: Format, x: nat)
    ensures Magnitude(f, x) == 0 <==> Exponent(f, x) == 0 && Mantissa(f, x) == 0
    ensures Sign(f, x) == 0 <==> Magnitude(f, x) == 0
    ensures Sign(f, x) == Sgn(Scaled(f, x))
  {
    if Exponent(f, x) > 0 {
      var a, b := Pow2(f.mantissaBits) + Mantissa(f, x), Pow2(Exponent(f, x) - 1);
      hide Pow2;
      MulLe(1, a, b);
      assert b * a == a * b;
    }
  }

  /** A float of at least one: the gap is the difference of magnitudes, scaled. */
  lemma GapOfLarge(f: Format, x: nat, r: nat)
    requires f.Valid() && NormalizedExponent(f, x) >= 0
    ensures Sgn(Gap(f, x, r)) == Sgn(Difference(Mantissa(f, x), f.mantissaBits, NormalizedExponent(f, x), r))
  {
    var e, m, bias := NormalizedExponent(f, x), Mantissa(f, x), f.Bias();
    assert bias >= 1;
    var k := bias - 1;
    Pow2Add(e, k);
    Pow2Add(k, f.mantissaBits);
    var p, q, s := Pow2(f.mantissaBits), Pow2(e), Pow2(k);
    assert Exponent(f, x) - 1 == e + k;
    assert Unit(f) == s * p;
    assert Magnitude(f, x) == (p + m) * (q * s);
    GapAlgebra(p, m, q, s, r);
    SignScaled(Difference(m, f.mantissaBits, e, r), s);
  }

  lemma GapAlgebra(p: nat, m: nat, q: nat, s: nat, r: int)
    ensures (p + m) * (q * s) - r * (s * p) == ((p + m) * q - r * p) * s
  {
    MulAssoc(p + m, q, s);
    assert r * (s * p) == r * p * s;
    assert ((p + m) * q - r * p) * s == (p + m) * q * s - r * p * s;
  }

  /** A float below one in magnitude. */
  lemma SmallMagnitude(f: Format, x: nat)
    requires f.Valid() && NormalizedExponent(f, x) < 0
    ensures Magnitude(f, x) < Unit(f)
  {
    Fields(f, x);
    var E, m, bias := Exponent(f, x), Mantissa(f, x), f.Bias();
    var k := bias - 1;
    Pow2Add(k, f.mantissaBits);
    var p := Pow2(f.mantissaBits);
    if E == 0 {
      MulLe(1, Pow2(k), p);
      assert p * Pow2(k) == Pow2(k) * p;
    } else {
      Pow2Monotone(E, k);
      assert Pow2(E) == 2 * Pow2(E - 1);
      HalfProduct(p, m, Pow2(E - 1), Pow2(k));
    }
  }

  lemma HalfProduct(p: nat, m: nat, h: nat, s: nat)
    requires m < p && 2 * h <= s && h > 0
    ensures (p + m) * h < s * p
  {
    MulLe(p + m + 1, 2 * p, h);
    MulLe(2 * h, s, p);
    assert h * (p + m + 1) == (p + m) * h + h && h * (2 * p) == p * (2 * h) && p * s == s * p;
  }

  /** At or above one unit away from zero, every float below one is closer to zero. */
  lemma GapOfSmall(f: Format, x: nat, r: nat)
    requires f.Valid() && NormalizedExponent(f, x) < 0 && r > 0
    ensures Gap(f, x, r) < 0
  {
    SmallMagnitude(f, x);
    MulLe(1, r, Unit(f));
    assert Unit(f) * r == r * Unit(f);
  }

  /** The most negative integer, whose magnitude is a power of two. */
  lemma LowestGap(f: Format, x: nat, v: nat)
    requires f.Valid() && NormalizedExponent(f, x) >= 0
    ensures var e := NormalizedExponent(f, x);
      Sgn(Gap(f, x, Pow2(v))) == if e < v then -1 else if e > v then 1 else Sgn(Mantissa(f, x))
  {
    hide Exponent, Mantissa, Gap, Difference;
    Fields(f, x);
    var e: nat, m, mb := NormalizedExponent(f, x), Mantissa(f, x), f.mantissaBits;
    GapOfLarge(f, x, Pow2(v));
    if e < v {
      Pow2Monotone(e + 1, v);
      AboveOctave(m, mb, e, Pow2(v));
    } else if e > v {
      Pow2Monotone(v + 1, e);
      BelowOctave(m, mb, e, Pow2(v));
    } else {
      DifferenceAbove(m, mb, e, Pow2(v));
      assert Difference(m, mb, e, Pow2(v)) == m * Pow2(e);
      SignScaled(m, Pow2(e));
    }
  }

  /** Same signs: the comparison is that of the magnitudes, reversed for negative numbers. */
  lemma SameSign(f: Format, x: nat, rhs: int)
    requires f.Valid() && rhs != 0 && (IsNegative(f, x) <==> rhs < 0)
    ensures var r := if rhs < 0 then 0 - rhs else rhs;
      Sgn(Scaled(f, x) - rhs * Unit(f)) == if rhs < 0 then 0 - Sgn(Gap(f, x, r)) else Sgn(Gap(f, x, r))
  {
    assert (0 - rhs) * Unit(f) == 0 - rhs * Unit(f);
  }

  lemma OtherSign(f: Format, x: nat, rhs: int)
    requires f.Valid() && (rhs == 0 || (IsNegative(f, x) <==> rhs > 0))
    ensures Sgn(Scaled(f, x) - rhs * Unit(f)) == if rhs > 0 then -1 else if rhs < 0 then 1 else Sgn(Scaled(f, x))
  {
    if rhs > 0 {
      MulLe(1, rhs, Unit(f));
    } else if rhs < 0 {
      MulLe(rhs, -1, Unit(f));
    }
    assert Unit(f) * rhs == rhs * Unit(f);
  }

  /** compare returns the sign of the exact difference, for every bit pattern and every integer of every width. */
  lemma CompareExact(f: Format, x: nat, rhs: int, width: nat, signed: bool)
    requires f.Valid() && width > 0 && InType(rhs, width, signed)
    ensures Compare(f, x, rhs, width, signed) == Sgn(Scaled(f, x) - rhs * Unit(f))
  {
    hide IsNegative, Exponent, Mantissa, Unit, Gap, Difference, CompareMagnitude, Shl;
    var e, v := NormalizedExponent(f, x), ValueBits(width, signed);
    if rhs == 0 || (IsNegative(f, x) <==> rhs > 0) {
      OtherSign(f, x, rhs);
      MagnitudeZero(f, x);
    } else {
      SameSign(f, x, rhs);
      var r: nat := if rhs < 0 then 0 - rhs else rhs;
      hide Scaled, Magnitude;
      if e < 0 {
        GapOfSmall(f, x, r);
      } else if signed && rhs == 0 - Pow2(width - 1) {
        LowestGap(f, x, v);
      } else {
        GapOfLarge(f, x, r);
        var m, mb := Mantissa(f, x), f.mantissaBits;
        Fields(f, x);
        if e >= v {
          Pow2Monotone(v, e);
          BelowOctave(m, mb, e, r);
        } else {
          var w := if width > f.Bits() then width else f.Bits();
          CompareMagnitudeExact(m, mb, e, r, v, w);
        }
      }
    }
  }

  // ----- The value as a real number -----

  ghost function NatPow2(k: nat): (p: real)
    ensures p > 0.0
  {
    if k == 0 then 1.0 else 2.0 * NatPow2(k - 1)
  }

  ghost function RealPow2(k: int): real {
    if k >= 0 then NatPow2(k) else 1.0 / NatPow2(0 - k)
  }

  ghost function Times(a: real, b: real): real {
    a * b
  }

  /** n units of 2^-mb. */
  ghost function Fraction(n: nat, mb: nat): real {
    n as real / NatPow2(mb)
  }

  /** The number of section 3.4 of IEEE 754-2008: subnormal when the exponent field is zero, otherwise normal. */
  ghost function AbsValue(f: Format, x: nat): real
    requires f.Valid()
  {
    var e, fraction := Exponent(f, x), Fraction(Mantissa(f, x), f.mantissaBits);
    if e == 0 then Times(fraction, RealPow2(1 - f.Bias())) else Times(1.0 + fraction, RealPow2(e - f.Bias()))
  }

  ghost function Value(f: Format, x: nat): real
    requires f.Valid()
  {
    if IsNegative(f, x) then 0.0 - AbsValue(f, x) else AbsValue(f, x)
  }

  /** v is the number n / unit. */
  ghost predicate Represents(n: int, unit: nat, v: real) {
    v * (unit as real) == n as real
  }

  lemma RealMul(a: int, b: int)
    ensures (a * b) as real == (a as real) * (b as real)
  {
  }

  lemma RealQuotient(a: real, b: real, t: real)
    requires b > 0.0 && t * b == a
    ensures a / b == t
  {
    var d := a / b;
    assert d * b == a;
    if d < t {
      RealMonotone(d, t, b);
    } else if d > t {
      RealMonotone(t, d, b);
    }
  }

  lemma RealMonotone(x: real, y: real, b: real)
    requires x < y && b > 0.0
    ensures x * b < y * b
  {
    assert (y - x) * b > 0.0;
  }

  lemma Reciprocal(a: real, b: real, c: real)
    requires a > 0.0 && c == a * b
    ensures 1.0 / a * c == b
  {
    var t := 1.0 / a;
    assert t * a == 1.0;
    assert t * (a * b) == t * a * b;
  }

  lemma {:induction false} NatPow2Is(k: nat)
    ensures NatPow2(k) == Pow2(k) as real
  {
    if k > 0 {
      NatPow2Is(k - 1);
    }
  }

  lemma {:induction false} NatPow2Add(a: nat, b: nat)
    ensures NatPow2(a + b) == NatPow2(a) * NatPow2(b)
  {
    if a > 0 {
      NatPow2Add(a - 1, b);
      var p, q := NatPow2(a - 1), NatPow2(b);
      assert 2.0 * p * q == 2.0 * (p * q);
    }
  }

  lemma NegativePower(i: nat, rest: nat)
    ensures 1.0 / NatPow2(i) * NatPow2(i + rest) == NatPow2(rest)
  {
    hide NatPow2;
    NatPow2Add(i, rest);
    Reciprocal(NatPow2(i), NatPow2(rest), NatPow2(i + rest));
  }

  lemma RealPow2Add(j: int, k: nat)
    requires j + k >= 0
    ensures RealPow2(j) * NatPow2(k) == NatPow2(j + k)
  {
    if j >= 0 {
      NatPow2Add(j, k);
    } else {
      NegativePower(0 - j, j + k);
      assert 0 - j + (j + k) == k;
    }
  }

  lemma SignificandProduct(n: nat, j: int, k: nat, mb: nat)
    requires j + k >= 0
    ensures Times(Times(Fraction(n, mb), RealPow2(j)), NatPow2(k + mb)) == (n * Pow2(j + k)) as real
  {
    hide NatPow2, RealPow2, Pow2;
    NatPow2Add(k, mb);
    RealPow2Add(j, k);
    RealAlgebra(n as real, NatPow2(mb), RealPow2(j), NatPow2(k));
    ProductIs(n, j + k);
  }

  /** A significand of n units of 2^-mb, scaled by 2^j. */
  lemma SignificandScaled(n: nat, j: int, k: nat, mb: nat)
    requires j + k >= 0
    ensures Represents(n * Pow2(j + k), Pow2(k + mb), Times(Fraction(n, mb), RealPow2(j)))
  {
    hide NatPow2, RealPow2, Pow2, Represents, Times, Fraction;
    SignificandProduct(n, j, k, mb);
    NatPow2Is(k + mb);
    FromProduct(n * Pow2(j + k), Pow2(k + mb), Times(Fraction(n, mb), RealPow2(j)), NatPow2(k + mb));
  }

  lemma FromProduct(n: int, unit: nat, v: real, u: real)
    requires u == unit as real && Times(v, u) == n as real
    ensures Represents(n, unit, v)
  {
  }

  lemma ProductIs(n: nat, i: nat)
    ensures (n * Pow2(i)) as real == n as real * NatPow2(i)
  {
    NatPow2Is(i);
    hide Pow2, NatPow2;
    RealMul(n, Pow2(i));
  }

  lemma RealAlgebra(n: real, p: real, c: real, q: real)
    requires p > 0.0
    ensures n / p * c * (q * p) == n * (c * q)
  {
    var t := n / p;
    assert t * p == n;
    assert t * c * (q * p) == t * p * (c * q);
  }

  lemma OnePlus(m: nat, p: nat)
    ensures 1.0 + Fraction(m, p) == Fraction(Pow2(p) + m, p)
  {
    NatPow2Is(p);
    var q := NatPow2(p);
    hide Pow2, NatPow2;
    var t := m as real / q;
    assert t * q == m as real;
    assert (1.0 + t) * q == q + t * q;
    RealQuotient((Pow2(p) + m) as real, q, 1.0 + t);
  }

  lemma AbsValueScaled(f: Format, x: nat)
    requires f.Valid()
    ensures Represents(Magnitude(f, x), Unit(f), AbsValue(f, x))
  {
    hide Exponent, Mantissa, RealPow2, NatPow2, Represents, Times, Fraction;
    assert f.Bias() >= 1;
    assert Pow2(0) == 1;
    hide Pow2;
    var e, m, k, mb := Exponent(f, x), Mantissa(f, x), f.Bias() - 1, f.mantissaBits;
    if e == 0 {
      SignificandScaled(m, 0 - k, k, mb);
      assert m * Pow2(0 - k + k) == m;
    } else {
      OnePlus(m, mb);
      SignificandScaled(Pow2(mb) + m, e - 1 - k, k, mb);
      assert (Pow2(mb) + m) * Pow2(e - 1 - k + k) == Magnitude(f, x);
    }
  }

  lemma Negation(n: int, unit: nat, v: real)
    requires Represents(n, unit, v)
    ensures Represents(0 - n, unit, 0.0 - v)
  {
    var u := unit as real;
    assert (0.0 - v) * u == 0.0 - v * u;
  }

  lemma ValueScaled(f: Format, x: nat)
    requires f.Valid()
    ensures Represents(Scaled(f, x), Unit(f), Value(f, x))
  {
    hide Represents, AbsValue, Magnitude, Unit, IsNegative;
    AbsValueScaled(f, x);
    Negation(Magnitude(f, x), Unit(f), AbsValue(f, x));
  }

  /** compare against the exact real value. */
  lemma CompareReal(f: Format, x: nat, rhs: int, width: nat, signed: bool)
    requires f.Valid() && width > 0 && InType(rhs, width, signed)
    ensures Compare(f, x, rhs, width, signed) == -1 <==> Value(f, x) < rhs as real
    ensures Compare(f, x, rhs, width, signed) == 0 <==> Value(f, x) == rhs as real
    ensures Compare(f, x, rhs, width, signed) == 1 <==> Value(f, x) > rhs as real
  {
    assert Unit(f) > 0;
    hide Compare, Value, Scaled, Unit, InType, Represents;
    CompareExact(f, x, rhs, width, signed);
    ValueScaled(f, x);
    RealOrder(Value(f, x), rhs, Unit(f), Scaled(f, x));
  }

  lemma RealOrder(value: real, rhs: int, unit: nat, scaled: int)
    requires unit > 0 && Represents(scaled, unit, value)
    ensures value < rhs as real <==> scaled < rhs * unit
    ensures value > rhs as real <==> scaled > rhs * unit
  {
    var u := unit as real;
    RealMul(rhs, unit);
    if value < rhs as real {
      RealMonotone(value, rhs as real, u);
    } else if value > rhs as real {
      RealMonotone(rhs as real, value, u);
    }
  }

  // ----- Infinities and NaNs -----

  predicate AllOnes(f: Format, x: nat) {
    Exponent(f, x) == Pow2(f.exponentBits) - 1
  }

  /** An infinity or NaN compares as its sign demands exactly when the integer, taken with that sign, stays below the
      number its bits would denote. */
  lemma NonFinite(f: Format, x: nat, rhs: int, width: nat, signed: bool)
    requires f.Valid() && width > 0 && InType(rhs, width, signed) && AllOnes(f, x)
    ensures var s := if IsNegative(f, x) then -1 else 1;
      Compare(f, x, rhs, width, signed) == s <==>
      s * rhs * Pow2(f.mantissaBits) < (Pow2(f.mantissaBits) + Mantissa(f, x)) * Pow2(f.Bias() + 1)
  {
    hide Compare, Exponent, Mantissa, IsNegative, InType;
    CompareExact(f, x, rhs, width, signed);
    var p, k := Pow2(f.mantissaBits), f.Bias() - 1;
    var m, q, t := Mantissa(f, x), Pow2(f.Bias() + 1), Pow2(k);
    assert Pow2(f.exponentBits) == 2 * Pow2(f.exponentBits - 1);
    assert Exponent(f, x) - 1 == f.Bias() + 1 + k;
    Pow2Add(f.Bias() + 1, k);
    Pow2Add(k, f.mantissaBits);
    assert Magnitude(f, x) == (p + m) * (q * t);
    assert Unit(f) == t * p;
    hide Pow2, Unit, Magnitude;
    var s := if IsNegative(f, x) then -1 else 1;
    Oriented(f, x, rhs);
    GapAlgebra(p, m, q, t, s * rhs);
    SignScaled((p + m) * q - s * rhs * p, t);
  }

  lemma Oriented(f: Format, x: nat, rhs: int)
    requires f.Valid()
    ensures var s := if IsNegative(f, x) then -1 else 1;
      Sgn(Scaled(f, x) - rhs * Unit(f)) == s <==> Magnitude(f, x) - s * rhs * Unit(f) > 0
  {
    assert -1 * rhs * Unit(f) == 0 - rhs * Unit(f);
  }

  /** Infinities are ordered correctly exactly below 2^(bias + 1). */
  lemma InfinityRight(f: Format, x: nat, rhs: int, width: nat, signed: bool)
    requires f.Valid() && width > 0 && InType(rhs, width, signed) && AllOnes(f, x) && Mantissa(f, x) == 0
    ensures var s := if IsNegative(f, x) then -1 else 1;
      Compare(f, x, rhs, width, signed) == s <==> s * rhs < Pow2(f.Bias() + 1)
  {
    hide Compare, Exponent, Mantissa, IsNegative, InType, Pow2;
    NonFinite(f, x, rhs, width, signed);
    var s := if IsNegative(f, x) then -1 else 1;
    var p, q := Pow2(f.mantissaBits), Pow2(f.Bias() + 1);
    SignScaled(q - s * rhs, p);
    assert (q - s * rhs) * p == p * q - s * rhs * p;
  }

  /** In particular they are for every integer type of at most bias + 1 bits. */
  lemma InfinityFits(f: Format, x: nat, rhs: int, width: nat, signed: bool)
    requires f.Valid() && width > 0 && InType(rhs, width, signed) && AllOnes(f, x) && Mantissa(f, x) == 0
    requires width <= f.Bias() + 1
    ensures Compare(f, x, rhs, width, signed) == if IsNegative(f, x) then -1 else 1
  {
    InfinityRight(f, x, rhs, width, signed);
    Pow2Monotone(ValueBits(width, signed), f.Bias() + 1);
    hide Compare;
  }

  /** For double that is every type of up to 1024 bits. */
  lemma DoubleInfinity(x: nat, rhs: int, width: nat, signed: bool)
    requires 0 < width <= 1024 && InType(rhs, width, signed) && AllOnes(DOUBLE, x) && Mantissa(DOUBLE, x) == 0
    ensures DOUBLE.Valid() && Compare(DOUBLE, x, rhs, width, signed) == if IsNegative(DOUBLE, x) then -1 else 1
  {
    hide Compare, AllOnes, Mantissa, IsNegative, InType;
    assert Pow2(10) == 1024 by {
      Pow2At7();
    }
    InfinityFits(DOUBLE, x, rhs, width, signed);
  }

  /** The fields of a positive number put together from them. */
  lemma Assemble(f: Format, x: nat, e: nat, m: nat)
    requires e < Pow2(f.exponentBits) && m < Pow2(f.mantissaBits) && x == e * Pow2(f.mantissaBits) + m
    ensures Exponent(f, x) == e && Mantissa(f, x) == m && !IsNegative(f, x)
  {
    Fields(f, x);
    var p, q := Pow2(f.mantissaBits), Pow2(f.exponentBits);
    Pow2Add(f.mantissaBits, f.exponentBits);
    hide Pow2, Exponent, Mantissa;
    assert x == p * e + m;
    DivModUnique(x, p, e, m);
    ModSmall(e, q);
    MulLe(e + 1, q, p);
    assert p * (e + 1) == p * e + p;
    ModSmall(x, p * q);
  }

  lemma Pow2At7()
    ensures Pow2(7) == 128
  {
  }

  lemma InfinityPattern(x: nat)
    requires x == 0x7F80_0000
    ensures Exponent(FLOAT, x) == Pow2(8) - 1 == 255 && Mantissa(FLOAT, x) == 0 && !IsNegative(FLOAT, x)
  {
    hide Exponent, Mantissa, IsNegative, Pow2;
    Pow2At7();
    Pow2At8();
    Pow2At16();
    Pow2Add(16, 7);
    Assemble(FLOAT, x, 255, 0);
  }

  lemma InfinityMagnitude(x: nat)
    requires Exponent(FLOAT, x) == 255 && Mantissa(FLOAT, x) == 0
    ensures FLOAT.Valid() && Magnitude(FLOAT, x) == Pow2(128) * Unit(FLOAT) && Unit(FLOAT) > 0
  {
    hide Exponent, Mantissa, Pow2;
    Pow2At7();
    assert FLOAT.Bias() == 127;
    Pow2Add(23, 254);
    Pow2Add(128, 149);
  }

  /** Infinity as a float is not above every 256-bit integer: 2^128 compares equal, 2^128 + 1 as larger. */
  lemma InfinityFails(x: nat)
    requires x == 0x7F80_0000
    ensures FLOAT.Valid() && AllOnes(FLOAT, x) && Mantissa(FLOAT, x) == 0 && !IsNegative(FLOAT, x)
    ensures InType(Pow2(128), 256, false) && Compare(FLOAT, x, Pow2(128), 256, false) == 0
    ensures InType(Pow2(128) + 1, 256, false) && Compare(FLOAT, x, Pow2(128) + 1, 256, false) == -1
  {
    hide Compare, Unit, Magnitude, Exponent, Mantissa, IsNegative, Pow2;
    Pow2Monotone(129, 256);
    Pow2Step(127);
    Pow2Step(128);
    InfinityPattern(x);
    InfinityMagnitude(x);
    assert InType(Pow2(128), 256, false) && InType(Pow2(128) + 1, 256, false);
    CompareExact(FLOAT, x, Pow2(128), 256, false);
    CompareExact(FLOAT, x, Pow2(128) + 1, 256, false);
    hide InType;
    var u := Unit(FLOAT);
    assert (Pow2(128) + 1) * u == Pow2(128) * u + u;
  }
}
