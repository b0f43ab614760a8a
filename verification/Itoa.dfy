/** The fixed-point printer of base/base/itoa.cpp (to_text_from_integer): every two digits come from one
    multiplication, and the scaled remainder is kept exact enough that each pair is the true one. */
module Itoa {
  import opened Modular
  import opened Decimal

  const TWO24: nat := 0x100_0000
  const TWO32: nat := 0x1_0000_0000
  const TWO57: nat := 0x200_0000_0000_0000
  const TWO64: nat := 0x1_0000_0000_0000_0000

  // ----- The buffer -----

  /** s with text written at position b. */
  function Put(s: seq<char>, b: nat, text: string): seq<char>
    requires b + |text| <= |s|
  {
    s[..b] + text + s[b + |text|..]
  }

  lemma PutPut(s: seq<char>, b: nat, t: string, u: string)
    requires b + |t| + |u| <= |s|
    ensures Put(Put(s, b, t), b + |t|, u) == Put(s, b, t + u)
  {
  }

  lemma PutNone(s: seq<char>, b: nat)
    requires b <= |s|
    ensures Put(s, b, []) == s
  {
  }

  /** A pair of characters stored at position b. */
  method PutPair(buf: array<char>, b: nat, dd: string)
    requires |dd| == 2 && b + 2 <= buf.Length
    modifies buf
    ensures buf[..] == Put(old(buf[..]), b, dd)
  {
    buf[b], buf[b + 1] := dd[0], dd[1];
  }

  /** An entry of the first-digits table: one digit and a filler, or two digits. */
  function FirstDigits(q: nat): (fd: string)
    requires q < 100
    ensures |fd| == 2
  {
    PadLength(q, 2);
    if q < 10 then [Digit(q), '\0'] else Pad(q, 2)
  }

  lemma PairLength(q: nat)
    requires q < 100
    ensures |Dec(q)| == (if q < 10 then 1 else 2) && |Pad(q, 2)| == 2
    ensures q >= 10 ==> Dec(q) == Pad(q, 2)
  {
    hide Dec, Pad;
    PadLength(q, 2);
    OneDigit(if q < 10 then q else q / 10);
    if q >= 10 {
      PairParts(q);
    }
  }

  lemma OneDigit(q: nat)
    requires q < 10
    ensures Dec(q) == [Digit(q)]
  {
  }

  lemma PairParts(q: nat)
    requires 10 <= q < 100
    ensures Dec(q) == Dec(q / 10) + [Digit(q % 10)]
    ensures Pad(q, 2) == [Digit(q / 10)] + [Digit(q % 10)]
  {
    hide Dec;
    DecStep(q);
    assert Pad(q, 2) == Pad(q / 10, 1) + [Digit(q % 10)];
    assert Pad(q / 10, 1) == Pad(q / 10 / 10, 0) + [Digit(q / 10 % 10)];
    assert Pad(q / 10 / 10, 0) == [];
  }

  /** What follows a single leading digit overwrites the filler. */
  lemma LeadThenRest(s: seq<char>, b: nat, q: nat, t: string)
    requires q < 100 && |t| >= 2 && b + |Dec(q)| + |t| <= |s|
    ensures b + 2 <= |s|
    ensures Put(Put(s, b, FirstDigits(q)), b + |Dec(q)|, t) == Put(s, b, Dec(q) + t)
  {
    PairLength(q);
    if q < 10 {
      assert Dec(q) == [Digit(q)];
      hide Dec, Digit;
      FillerLost(s, b, Digit(q), t);
    } else {
      hide Dec, Pad, Put;
      PutPut(s, b, Dec(q), t);
    }
  }

  lemma FillerLost(s: seq<char>, b: nat, d: char, t: string)
    requires |t| >= 2 && b + 1 + |t| <= |s|
    ensures Put(Put(s, b, [d, '\0']), b + 1, t) == Put(s, b, [d] + t)
  {
  }

  // ----- The fixed point -----

  /** f / m approximates r / p from above, by less than one unit of r. */
  predicate Fixed(r: nat, f: nat, p: nat, m: nat) {
    r * m <= f * p < (r + 1) * m
  }

  /** The integer part of the approximation is exact, and what is left approximates what is left. */
  lemma FixedStep(r: nat, f: nat, p: nat, m: nat)
    requires m > 0 && p > 0 && Fixed(r, f, p, m)
    ensures f / m == r / p
    ensures Fixed(r % p, f % m, p, m)
  {
    var q, g := f / m, f % m;
    var a, s := r / p, r % p;
    assert f == m * q + g;
    assert r == p * a + s;
    hide Fixed;
    QuotientNotLess(r, f, p, m, q, g, a, s) by {
      assert Fixed(r, f, p, m);
    }
    QuotientNotMore(r, f, p, m, q, g, a, s);
    RestFixed(r, f, p, m, q, g, s);
  }

  lemma QuotientNotLess(r: nat, f: nat, p: nat, m: nat, q: nat, g: nat, a: nat, s: nat)
    requires f == m * q + g && g < m && r == p * a + s && s < p && Fixed(r, f, p, m)
    ensures q >= a
  {
    if q < a {
      TooSmall(r, f, p, m, q, g, a, s);
    }
  }

  lemma TooSmall(r: nat, f: nat, p: nat, m: nat, q: nat, g: nat, a: nat, s: nat)
    requires f == m * q + g && g < m && r == p * a + s && s < p && q < a
    ensures f * p < r * m
  {
    NextMultiple(m, q, a);
    MulLe(f + 1, m * a, p);
    MulLe(p * a, r, m);
    assert p * (m * a) == m * (p * a) && p * (f + 1) == f * p + p && m * r == r * m;
  }

  lemma QuotientNotMore(r: nat, f: nat, p: nat, m: nat, q: nat, g: nat, a: nat, s: nat)
    requires f == m * q + g && g < m && r == p * a + s && s < p && Fixed(r, f, p, m)
    ensures q <= a
  {
    if q > a {
      TooLarge(r, f, p, m, q, g, a, s);
    }
  }

  lemma TooLarge(r: nat, f: nat, p: nat, m: nat, q: nat, g: nat, a: nat, s: nat)
    requires f == m * q + g && g < m && r == p * a + s && s < p && q > a
    ensures f * p >= (r + 1) * m
  {
    MulLe(a + 1, q, m);
    MulLe(m * (a + 1), f, p);
    assert p * (a + 1) == p * a + p;
    MulLe(r + 1, p * (a + 1), m);
    assert p * (m * (a + 1)) == m * (p * (a + 1)) && p * f == f * p && m * (r + 1) == (r + 1) * m;
  }

  lemma RestFixed(r: nat, f: nat, p: nat, m: nat, q: nat, g: nat, s: nat)
    requires f == m * q + g && r == p * q + s && Fixed(r, f, p, m)
    ensures Fixed(s, g, p, m)
  {
    var w := m * q * p;
    assert f * p == w + g * p;
    assert r * m == w + s * m by {
      assert p * q * m == w;
    }
    assert (r + 1) * m == r * m + m && (s + 1) * m == s * m + m;
  }

  lemma Scale(r: nat, f: nat, p: nat, m: nat)
    requires Fixed(r, f, 100 * p, m)
    ensures Fixed(r, 100 * f, p, m)
  {
    assert f * (100 * p) == 100 * f * p;
  }

  /** One more pair: scale the fraction by a hundred and store the digits of its integer part. */
  method StepPair(buf: array<char>, c: nat, f: nat, m: nat, ghost r: nat, ghost k: nat) returns (next: nat)
    requires m > 0 && 100 * m <= TWO64 && c + 2 <= buf.Length
    requires r < Pow10(k + 2) && Fixed(r, f % m, Pow10(k + 2), m)
    modifies buf
    ensures r / Pow10(k) < 100 && |Pad(r / Pow10(k), 2)| == 2 && next < TWO64
    ensures buf[..] == Put(old(buf[..]), c, Pad(r / Pow10(k), 2))
    ensures Fixed(r % Pow10(k), next % m, Pow10(k), m)
  {
    hide Fixed;
    next := f % m * 100;
    ghost var p := Pow10(k);
    assert Pow10(k + 2) == 100 * p;
    Scale(r, f % m, p, m);
    FixedStep(r, next, p, m);
    QuotientBound(r, p);
    PadLength(next / m, 2);
    PutPair(buf, c, Pad(next / m, 2));
  }

  lemma Division(x: nat, p: nat)
    requires p > 0
    ensures x == x / p * p + x % p && x % p < p
  {
  }

  lemma QuotientBound(r: nat, p: nat)
    requires p > 0 && r < 100 * p
    ensures r / p < 100
  {
    assert r == p * (r / p) + r % p;
    if r / p >= 100 {
      MulLe(100, r / p, p);
    }
  }

  /** The remaining k pairs of a number whose fraction is f. */
  method Pairs(buf: array<char>, c: nat, f: nat, m: nat, k: nat, ghost r: nat)
    requires m > 0 && 100 * m <= TWO64 && c + 2 * k <= buf.Length
    requires r < Pow10(2 * k) && Fixed(r, f % m, Pow10(2 * k), m)
    modifies buf
    ensures |Pad(r, 2 * k)| == 2 * k
    ensures buf[..] == Put(old(buf[..]), c, Pad(r, 2 * k))
    decreases k
  {
    hide Fixed, Pad, Put, Pow10;
    PadLength(r, 2 * k);
    if k == 0 {
      PadNone(r);
      PutNone(buf[..], c);
      return;
    }
    ghost var s := buf[..];
    ghost var j := 2 * k - 2;
    var next := StepPair(buf, c, f, m, r, j);
    ghost var p := Pow10(j);
    ghost var rest := r % p;
    Pairs(buf, c + 2, next, m, k - 1, rest);
    Division(r, p);
    PadSplit(r / p, rest, 2, j);
    PadLength(r / p, 2);
    PadLength(rest, j);
    PutPut(s, c, Pad(r / p, 2), Pad(rest, j));
  }

  // ----- Runs of digits -----

  /** The first one or two digits from the table, then the remaining pairs. */
  method LeadAndPairs(buf: array<char>, b: nat, f: nat, m: nat, single: bool, k: nat, ghost n: nat) returns (e: nat)
    requires m > 0 && 100 * m <= TWO64 && k > 0
    requires Fixed(n, f, Pow10(2 * k), m)
    requires 0 < n / Pow10(2 * k) < 100 && (single <==> n / Pow10(2 * k) < 10)
    requires b + |Dec(n)| <= buf.Length
    modifies buf
    ensures e == b + |Dec(n)| && buf[..] == Put(old(buf[..]), b, Dec(n))
  {
    hide Fixed, Pad, Dec, Put, FirstDigits, Pow10;
    ghost var p := Pow10(2 * k);
    FixedStep(n, f, p, m);
    var q := f / m;
    ghost var r := n % p;
    Division(n, p);
    DecSplit(q, r, 2 * k);
    PairLength(q);
    PadLength(r, 2 * k);
    assert |Dec(n)| == |Dec(q)| + 2 * k;
    ghost var s := buf[..];
    PutPair(buf, b, FirstDigits(q));
    var c := if single then b - 1 else b;
    Pairs(buf, c + 2, f, m, k, r);
    LeadThenRest(s, b, q, Pad(r, 2 * k));
    e := c + 2 + 2 * k;
  }

  // Powers of ten as the source writes them.

  lemma Pow10Small()
    ensures Pow10(2) == 100 && Pow10(4) == 10000
  {
  }

  lemma Pow10Large()
    ensures Pow10(6) == 1000000 && Pow10(8) == 100000000
  {
    assert Pow10(4) == 10000;
    assert Pow10(6) == 1000000;
  }

  /** Three or four digits, in 24-bit fixed point. */
  method FourDigits(buf: array<char>, b: nat, n: nat, single: bool) returns (e: nat)
    requires 100 <= n < 10000 && (single <==> n < 1000) && b + |Dec(n)| <= buf.Length
    modifies buf
    ensures e == b + |Dec(n)| && buf[..] == Put(old(buf[..]), b, Dec(n))
  {
    hide Put, Dec;
    Pow10Small();
    var f := 167773 * n % TWO32;
    e := LeadAndPairs(buf, b, f, TWO24, single, 1, n);
  }

  /** Five or six digits, in 32-bit fixed point. */
  method SixDigits(buf: array<char>, b: nat, n: nat, single: bool) returns (e: nat)
    requires 10000 <= n < 1000000 && (single <==> n < 100000) && b + |Dec(n)| <= buf.Length
    modifies buf
    ensures e == b + |Dec(n)| && buf[..] == Put(old(buf[..]), b, Dec(n))
  {
    hide Put, Dec;
    Pow10Small();
    var f := 429497 * n % TWO64;
    e := LeadAndPairs(buf, b, f, TWO32, single, 2, n);
  }

  /** Seven or eight digits: 48-bit fixed point rounded down to 32 bits, exact because n has seven digits. */
  method EightDigits(buf: array<char>, b: nat, n: nat) returns (e: nat)
    requires 1000000 <= n < 100000000 && b + |Dec(n)| <= buf.Length
    modifies buf
    ensures e == b + |Dec(n)| && buf[..] == Put(old(buf[..]), b, Dec(n))
  {
    hide Put, Dec;
    Pow10Large();
    var f := 281474977 * n % TWO64 / 65536;
    e := LeadAndPairs(buf, b, f, TWO32, n < 10000000, 3, n);
  }

  /** Nine or ten digits, in 57-bit fixed point. */
  method TenDigits(buf: array<char>, b: nat, n: nat) returns (e: nat)
    requires 100000000 <= n < TWO32 && b + |Dec(n)| <= buf.Length
    modifies buf
    ensures e == b + |Dec(n)| && buf[..] == Put(old(buf[..]), b, Dec(n))
  {
    hide Put, Dec;
    Pow10Large();
    var f := 1441151881 * n % TWO64;
    e := LeadAndPairs(buf, b, f, TWO57, n < 1000000000, 4, n);
  }

  /** Exactly eight digits with leading zeros; the added unit makes up for rounding down. */
  method PaddedEight(buf: array<char>, b: nat, z: nat) returns (e: nat)
    requires z < 100000000 && b + 8 <= buf.Length
    modifies buf
    ensures |Pad(z, 8)| == 8
    ensures e == b + 8 && buf[..] == Put(old(buf[..]), b, Pad(z, 8))
  {
    hide Put, Pad;
    PadLength(z, 8);
    Pow10Large();
    var f := 281474977 * z % TWO64 / 65536 + 1;
    FixedStep(z, f, 1000000, TWO32);
    ghost var q, r := z / 1000000, z % 1000000;
    PadLength(q, 2);
    PadLength(r, 6);
    ghost var s := buf[..];
    PutPair(buf, b, Pad(f / TWO32, 2));
    Pairs(buf, b + 2, f, TWO32, 3, r);
    PadSplit(q, r, 2, 6);
    PutPut(s, b, Pad(q, 2), Pad(r, 6));
    e := b + 8;
  }

  // ----- to_text_from_integer -----

  method TwoDigits(buf: array<char>, b: nat, n: nat) returns (e: nat)
    requires 10 <= n < 100 && b + |Dec(n)| <= buf.Length
    modifies buf
    ensures e == b + |Dec(n)| && buf[..] == Put(old(buf[..]), b, Dec(n))
  {
    hide Put, Dec, Pad;
    PairLength(n);
    PutPair(buf, b, Pad(n, 2));
    e := b + 2;
  }

  method UpToFourDigits(buf: array<char>, b: nat, n: nat) returns (e: nat)
    requires 10 <= n < 10000 && b + |Dec(n)| <= buf.Length
    modifies buf
    ensures e == b + |Dec(n)| && buf[..] == Put(old(buf[..]), b, Dec(n))
  {
    hide Put, Dec;
    if n < 100 {
      e := TwoDigits(buf, b, n);
    } else {
      e := FourDigits(buf, b, n, n < 1000);
    }
  }

  /** High digits of at most 32 bits, never a single one, as the 64-bit branch prints them. */
  method HighDigits(buf: array<char>, b: nat, u: nat) returns (e: nat)
    requires 10 <= u < TWO32 && b + |Dec(u)| <= buf.Length
    modifies buf
    ensures e == b + |Dec(u)| && buf[..] == Put(old(buf[..]), b, Dec(u))
  {
    hide Put, Dec;
    if u < 10000 {
      e := UpToFourDigits(buf, b, u);
    } else if u < 1000000 {
      e := SixDigits(buf, b, u, u < 100000);
    } else if u < 100000000 {
      e := EightDigits(buf, b, u);
    } else {
      e := TenDigits(buf, b, u);
    }
  }

  lemma EightMore(n: nat)
    requires n >= 100000000
    ensures |Pad(n % 100000000, 8)| == 8
    ensures Dec(n) == Dec(n / 100000000) + Pad(n % 100000000, 8)
  {
    hide Dec, Pad;
    Pow10Large();
    PadLength(n % 100000000, 8);
    DecSplit(n / 100000000, n % 100000000, 8);
  }

  /** A number beyond 32 bits: split off eight digits once or twice. */
  method LongDigits(buf: array<char>, b: nat, n: nat) returns (e: nat)
    requires TWO32 <= n < TWO64 && b + |Dec(n)| <= buf.Length
    modifies buf
    ensures e == b + |Dec(n)| && buf[..] == Put(old(buf[..]), b, Dec(n))
  {
    hide Put, Dec, Pad;
    var z, u := n % 100000000, n / 100000000;
    EightMore(n);
    ghost var s := buf[..];
    if u < TWO32 {
      e := HighDigits(buf, b, u);
    } else {
      var y, v := u % 100000000, u / 100000000;
      EightMore(u);
      e := UpToFourDigits(buf, b, v);
      ghost var c := e;
      e := PaddedEight(buf, e, y);
      PutPut(s, b, Dec(v), Pad(y, 8));
    }
    e := PaddedEight(buf, e, z);
    PutPut(s, b, Dec(u), Pad(z, 8));
  }

  /** The unsigned part of to_text_from_integer, for a type of the given size in bytes. */
  method Digits(buf: array<char>, b: nat, n: nat, size: nat) returns (e: nat)
    requires size in {1, 2, 4, 8} && Fits(n, size) && b + |Dec(n)| <= buf.Length
    modifies buf
    ensures e == b + |Dec(n)| && buf[..] == Put(old(buf[..]), b, Dec(n))
  {
    hide Put, Dec;
    if n < 100 {
      if n < 10 {
        OneDigit(n);
        ghost var s := buf[..];
        buf[b] := Digit(n);
        PutOne(s, b, Digit(n));
        e := b + 1;
      } else {
        e := TwoDigits(buf, b, n);
      }
    } else if n < 1000000 {
      if size == 1 || n < 10000 {
        e := FourDigits(buf, b, n, size == 1 || n < 1000);
      } else {
        e := SixDigits(buf, b, n, size == 2 || n < 100000);
      }
    } else if size == 4 || n < TWO32 {
      if n < 100000000 {
        e := EightDigits(buf, b, n);
      } else {
        e := TenDigits(buf, b, n);
      }
    } else {
      e := LongDigits(buf, b, n);
    }
  }

  lemma PutOne(s: seq<char>, b: nat, c: char)
    requires b < |s|
    ensures s[b := c] == Put(s, b, [c])
  {
  }

  /** The number of values of an unsigned type of the given size in bytes. */
  function Modulus(size: nat): (m: nat)
    ensures m >= 0x100
  {
    match size
    case 1 => 0x100
    case 2 => 0x1_0000
    case 4 => TWO32
    case _ => TWO64
  }

  predicate Fits(n: nat, size: nat) {
    n < Modulus(size)
  }

  /** Values of a signed or unsigned type of the given size in bytes. */
  predicate InType(i: int, size: nat, signed: bool) {
    if !signed then i >= 0 && Fits(i, size)
    else if i >= 0 then Fits(2 * i, size) else Fits(2 * (0 - i - 1), size)
  }

  /** A type holds exactly one number of every residue. */
  lemma TypeHoldsResidue(r: nat, size: nat, signed: bool) returns (n: int)
    requires r < Modulus(size)
    ensures InType(n, size, signed) && n % Modulus(size) == r
    ensures forall k :: InType(k, size, signed) && k % Modulus(size) == r ==> k == n
  {
    var m := Modulus(size);
    n := if signed && 2 * r >= m then r - m else r;
    ModSmall(r, m);
    ModEqual(r - m, r, m, -1);
    forall k | InType(k, size, signed) && k % Modulus(size) == r ensures k == n {
      CloseResidues(k, n, m);
    }
  }

  /** Negation in the unsigned type, which is right for the most negative value too. */
  lemma WrappedNegation(i: int, size: nat)
    requires i < 0 && InType(i, size, true)
    ensures (Modulus(size) - i % Modulus(size)) % Modulus(size) == 0 - i
    ensures Fits(0 - i, size)
  {
    var m := Modulus(size);
    DivModUnique(i, m, -1, m + i);
    ModSmall(0 - i, m);
  }

  /** to_text_from_integer writes exactly the canonical text of i: nothing before b, nothing past the end of the text,
      and in particular no filler is left behind. */
  method ToText(buf: array<char>, b: nat, i: int, size: nat, signed: bool) returns (e: nat)
    requires size in {1, 2, 4, 8} && InType(i, size, signed) && b + |Text(i)| <= buf.Length
    modifies buf
    ensures e == b + |Text(i)| && buf[..] == Put(old(buf[..]), b, Text(i))
  {
    hide Put, Dec;
    if i < 0 {
      ghost var s := buf[..];
      buf[b] := '-';
      PutOne(s, b, '-');
      WrappedNegation(i, size);
      var n := (Modulus(size) - i % Modulus(size)) % Modulus(size);
      e := Digits(buf, b + 1, n, size);
      PutPut(s, b, "-", Dec(0 - i));
    } else {
      e := Digits(buf, b, i, size);
    }
  }
}
