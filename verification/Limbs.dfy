/** Numbers as little-endian sequences of 64-bit limbs: the representation of base/base/wide_integer_impl.h. */
module Limbs {
  import opened Modular
  import opened Bits

  const B := 0x1_0000_0000_0000_0000

  type Limb = x: int | 0 <= x < B witness 0

  /** 2^(64 k), the weight of limb k. */
  function Base(k: nat): (p: nat)
    ensures p > 0
  {
    if k == 0 then 1 else Base(k - 1) * B
  }

  lemma {:induction false} BaseIsPow2(k: nat)
    ensures Base(k) == Pow2(64 * k)
  {
    if k > 0 {
      BaseIsPow2(k - 1);
      Pow2At64();
      Pow2Add(64 * (k - 1), 64);
    }
  }

  lemma BaseAdd(a: nat, b: nat)
    ensures Base(a + b) == Base(a) * Base(b)
  {
    BaseIsPow2(a);
    BaseIsPow2(b);
    BaseIsPow2(a + b);
    Pow2Add(64 * a, 64 * b);
  }

  /** get_item: limb i, or zero beyond the end. */
  function Item(s: seq<Limb>, i: nat): Limb {
    if i < |s| then s[i] else 0
  }

  /** The value of the first n limbs. */
  function Value(s: seq<Limb>, n: nat): nat
    decreases n, s
  {
    if n == 0 then 0 else Value(s, n - 1) + Item(s, n - 1) * Base(n - 1)
  }

  function Val(s: seq<Limb>): nat {
    Value(s, |s|)
  }

  lemma {:induction false} ValueBound(s: seq<Limb>, n: nat)
    ensures Value(s, n) < Base(n)
  {
    if n > 0 {
      ValueBound(s, n - 1);
      TopBound(Value(s, n - 1), Item(s, n - 1), Base(n - 1));
    }
  }

  lemma ValBound(s: seq<Limb>)
    ensures Val(s) < Base(|s|)
  {
    ValueBound(s, |s|);
  }

  lemma TopBound(low: nat, x: Limb, p: nat)
    requires low < p
    ensures low + x * p < p * B
  {
    MulLe(x + 1, B, p);
    assert p * (x + 1) == x * p + p;
  }

  lemma {:induction false} ValueSame(s: seq<Limb>, t: seq<Limb>, n: nat)
    requires forall i :: 0 <= i < n ==> Item(s, i) == Item(t, i)
    ensures Value(s, n) == Value(t, n)
  {
    if n > 0 {
      ValueSame(s, t, n - 1);
    }
  }

  /** Limbs beyond the end add nothing. */
  lemma {:induction false} ValueBeyond(s: seq<Limb>, n: nat)
    requires n >= |s|
    ensures Value(s, n) == Val(s)
    decreases n
  {
    if n > |s| {
      ValueBeyond(s, n - 1);
    }
  }

  /** The low n limbs are the value modulo their weight. */
  lemma {:induction false} ValueLow(s: seq<Limb>, m: nat, n: nat) returns (high: nat)
    requires m <= n
    ensures Value(s, n) == Value(s, m) + Base(m) * high
    decreases n
  {
    if m == n {
      high := 0;
    } else {
      var h := ValueLow(s, m, n - 1);
      BaseAdd(m, n - 1 - m);
      high := h + Item(s, n - 1) * Base(n - 1 - m);
      LowAlgebra(Base(m), h, Item(s, n - 1), Base(n - 1 - m));
    }
  }

  lemma LowAlgebra(p: int, h: int, x: int, q: int)
    ensures p * h + x * (p * q) == p * (h + x * q)
  {
    assert x * (p * q) == p * (x * q);
    assert p * (h + x * q) == p * h + p * (x * q);
  }

  lemma ValueMod(s: seq<Limb>, m: nat, n: nat)
    requires m <= n
    ensures Value(s, m) == Value(s, n) % Base(m)
  {
    var high := ValueLow(s, m, n);
    ValueBound(s, m);
    DivModUnique(Value(s, n), Base(m), high, Value(s, m));
  }

  /** The top limb is a quotient and the rest a remainder. */
  lemma TopLimb(s: seq<Limb>, n: nat)
    requires n > 0
    ensures Value(s, n) / Base(n - 1) == Item(s, n - 1) && Value(s, n) % Base(n - 1) == Value(s, n - 1)
  {
    ValueBound(s, n - 1);
    var p, low, top := Base(n - 1), Value(s, n - 1), Item(s, n - 1);
    assert Value(s, n) == low + top * p;
    hide Value, Base, Item;
    assert top * p == p * top;
    DivModUnique(low + top * p, p, top, low);
  }

  /** Equal values mean equal limbs. */
  lemma {:induction false} ValueInjective(s: seq<Limb>, t: seq<Limb>, n: nat)
    requires Value(s, n) == Value(t, n)
    ensures forall i :: 0 <= i < n ==> Item(s, i) == Item(t, i)
    decreases n
  {
    hide Value, Base, Item;
    if n > 0 {
      TopLimb(s, n);
      TopLimb(t, n);
      ValueInjective(s, t, n - 1);
    }
  }

  lemma {:induction false} ValueZero(s: seq<Limb>, n: nat)
    requires forall i :: 0 <= i < n ==> Item(s, i) == 0
    ensures Value(s, n) == 0
  {
    if n > 0 {
      ValueZero(s, n - 1);
    }
  }

  lemma OneLimb(x: Limb, n: nat)
    requires n >= 1
    ensures Value([x], n) == x
  {
    ValueBeyond([x], n);
    assert Value([x], 1) == Value([x], 0) + x * Base(0);
  }

  lemma TwoLimbs(s: seq<Limb>)
    ensures Value(s, 2) == Item(s, 0) + Item(s, 1) * B
    ensures Base(2) == B * B
  {
    assert Base(0) == 1 && Base(1) == B && Base(2) == B * B;
    assert Value(s, 0) == 0 && Value(s, 1) == Item(s, 0);
  }

  /** A number below 2^64 is its lowest limb. */
  lemma SmallLimb(s: seq<Limb>)
    requires |s| >= 1 && Val(s) < B
    ensures s[0] == Val(s)
  {
    ValueMod(s, 1, |s|);
    assert Value(s, 1) == Value(s, 0) + s[0] * Base(0);
    assert Base(1) == B;
    ModSmall(Val(s), B);
  }

  /** A number below 2^64 in n limbs: wide_integer_from_builtin for an unsigned argument. */
  function FromBuiltin(x: Limb, n: nat): (s: seq<Limb>)
    ensures |s| == n
  {
    seq(n, i => if i == 0 then x else 0)
  }

  lemma FromBuiltinValue(x: Limb, n: nat)
    requires n >= 1
    ensures Val(FromBuiltin(x, n)) == x
  {
    var s := FromBuiltin(x, n);
    assert Value(s, 1) == x;
    SmallValue(s, x, n);
  }

  lemma {:induction false} SmallValue(s: seq<Limb>, x: Limb, n: nat)
    requires n >= 1 && Value(s, 1) == x && forall i :: 1 <= i < n ==> Item(s, i) == 0
    ensures Value(s, n) == x
    decreases n
  {
    if n > 1 {
      SmallValue(s, x, n - 1);
    }
  }
}
