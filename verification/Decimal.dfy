/** Canonical decimal text: the digits of a number without leading zeros, and the same with padding. */
module Decimal {
  import opened Chars
  import opened Modular

  function Digit(d: nat): (c: char)
    requires d < 10
    ensures '0' <= c <= '9' && c as int == '0' as int + d
  {
    "0123456789"[d]
  }

  function Pow10(k: nat): (p: nat)
    ensures p > 0
  {
    if k == 0 then 1 else 10 * Pow10(k - 1)
  }

  /** The canonical text of n, as the naive printer that divides by ten produces it. */
  function Dec(n: nat): string {
    if n < 10 then [Digit(n)] else Dec(n / 10) + [Digit(n % 10)]
  }

  /** The canonical text of a signed number. */
  function Text(x: int): string {
    if x < 0 then "-" + Dec(0 - x) else Dec(x)
  }

  /** The last k digits of n, with leading zeros. */
  function Pad(n: nat, k: nat): string {
    if k == 0 then [] else Pad(n / 10, k - 1) + [Digit(n % 10)]
  }

  lemma {:induction false} PadLength(n: nat, k: nat)
    ensures |Pad(n, k)| == k
  {
    if k > 0 {
      PadLength(n / 10, k - 1);
    }
  }

  /** Removing the last digit of u * 10p + z. */
  lemma DropDigit(u: nat, z: nat, p: nat)
    ensures (u * (10 * p) + z) / 10 == u * p + z / 10 && (u * (10 * p) + z) % 10 == z % 10
  {
    var w := u * p;
    assert u * (10 * p) == 10 * w;
  }

  lemma AtLeast(u: nat, p: nat)
    requires u > 0 && p > 0
    ensures u * (10 * p) >= 10
  {
    MulLe(1, u, 10 * p);
    assert 10 * p * u == u * (10 * p);
  }

  lemma DecStep(n: nat)
    requires n >= 10
    ensures Dec(n) == Dec(n / 10) + [Digit(n % 10)]
  {
  }

  lemma PadStep(n: nat, k: nat)
    requires k > 0
    ensures Pad(n, k) == Pad(n / 10, k - 1) + [Digit(n % 10)] && Pow10(k) == 10 * Pow10(k - 1)
  {
  }

  lemma PadNone(n: nat)
    ensures Pad(n, 0) == [] && Pow10(0) == 1
  {
  }

  /** High digits, then low digits. */
  lemma {:induction false} DecSplit(u: nat, z: nat, k: nat)
    requires u > 0 && z < Pow10(k)
    ensures Dec(u * Pow10(k) + z) == Dec(u) + Pad(z, k)
    decreases k
  {
    hide Dec, Pad, Pow10, Digit;
    if k == 0 {
      PadNone(z);
    } else {
      var p := Pow10(k - 1);
      PadStep(z, k);
      DropDigit(u, z, p);
      AtLeast(u, p);
      DecStep(u * (10 * p) + z);
      DecSplit(u, z / 10, k - 1);
    }
  }

  lemma {:induction false} PadSplit(u: nat, z: nat, j: nat, k: nat)
    requires z < Pow10(k)
    ensures Pad(u * Pow10(k) + z, j + k) == Pad(u, j) + Pad(z, k)
    decreases k
  {
    hide Pad, Pow10, Digit;
    if k == 0 {
      PadNone(z);
    } else {
      var p := Pow10(k - 1);
      PadStep(z, k);
      DropDigit(u, z, p);
      PadStep(u * (10 * p) + z, j + k);
      PadSplit(u, z / 10, j, k - 1);
    }
  }

  // ----- Reading back -----

  /** The number a string of decimal digits denotes. */
  function DecValue(s: string): nat
    requires forall i :: 0 <= i < |s| ==> IsDigit(s[i])
  {
    if s == [] then 0 else assert IsDigit(s[|s| - 1]); 10 * DecValue(s[..|s| - 1]) + (s[|s| - 1] as int - '0' as int)
  }

  /** Canonical text consists of digits, has no leading zero, and denotes its number. */
  lemma {:induction false} DecRoundTrip(n: nat)
    ensures |Dec(n)| >= 1 && forall i :: 0 <= i < |Dec(n)| ==> IsDigit(Dec(n)[i])
    ensures DecValue(Dec(n)) == n
    ensures Dec(n)[0] == '0' <==> n == 0
    ensures n < 10 <==> |Dec(n)| == 1
  {
    if n < 10 {
      assert Dec(n)[..0] == [];
    } else {
      DecRoundTrip(n / 10);
      assert Dec(n)[..|Dec(n)| - 1] == Dec(n / 10);
    }
  }
}
