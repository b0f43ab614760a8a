/** Division with remainder and congruences, proved from uniqueness of quotient and remainder. */
module Modular {

  lemma DivModUnique(x: int, d: int, q: int, r: int)
    requires d > 0 && 0 <= r < d && x == d * q + r
    ensures x / d == q && x % d == r
  {
    assert x == d * (x / d) + x % d;
    QuotientsAgree(d, q, r, x / d, x % d);
  }

  lemma QuotientsAgree(d: int, q: int, r: int, q': int, r': int)
    requires d > 0 && 0 <= r < d && 0 <= r' < d && d * q + r == d * q' + r'
    ensures q == q' && r == r'
  {
    if q < q' {
      NextMultiple(d, q, q');
    } else if q' < q {
      NextMultiple(d, q', q);
    }
  }

  lemma NextMultiple(d: int, q: int, q': int)
    requires d > 0 && q < q'
    ensures d * q + d <= d * q'
  {
    MulLe(q + 1, q', d);
    assert d * (q + 1) == d * q + d;
  }

  lemma MulLe(a: int, b: int, c: int)
    requires a <= b && 0 <= c
    ensures c * a <= c * b
  {
  }

  lemma DivNonneg(x: nat, p: nat)
    requires p > 0
    ensures 0 <= x / p
  {
    var q, r := x / p, x % p;
    assert x == p * q + r && r < p;
    if q < 0 {
      MulLe(q, -1, p);
    }
  }

  lemma QuotientBound(x: nat, p: nat, q: nat)
    requires p > 0 && x < q * p
    ensures x / p < q
  {
    var h := x / p;
    assert x == p * h + x % p;
    assert p * q == q * p;
    if h >= q {
      MulLe(q, h, p);
    }
  }

  lemma ModSmall(x: int, p: int)
    requires 0 <= x < p
    ensures x % p == x && x / p == 0
  {
    DivModUnique(x, p, 0, x);
  }

  lemma MulAssoc(a: int, b: int, c: int)
    ensures a * b * c == a * (b * c)
  {
  }

  lemma Distribute(a: int, b: int, c: int)
    ensures (a + b) * c == a * c + b * c
  {
  }

  /** Multiples of the modulus do not count. */
  lemma ModShift(y: int, k: int, p: int)
    requires p > 0
    ensures (p * k + y) % p == y % p
  {
    var q, r := y / p, y % p;
    assert y == p * q + r;
    assert p * k + y == p * (k + q) + r by {
      assert p * (k + q) == p * k + p * q;
    }
    DivModUnique(p * k + y, p, k + q, r);
  }

  lemma ModMulLeft(a: int, b: int, p: int)
    requires p > 0
    ensures (a % p) * b % p == a * b % p
  {
    var q, r := a / p, a % p;
    assert a == p * q + r;
    assert a * b == p * (q * b) + r * b by {
      assert (p * q + r) * b == p * q * b + r * b;
      assert p * q * b == p * (q * b);
    }
    ModShift(r * b, q * b, p);
  }

  lemma ModMul(a: int, b: int, p: int)
    requires p > 0
    ensures (a % p) * (b % p) % p == a * b % p
  {
    ModMulLeft(a, b % p, p);
    ModMulLeft(b, a, p);
    assert a * (b % p) == (b % p) * a && b * a == a * b;
  }

  lemma ModAddLeft(a: int, b: int, p: int)
    requires p > 0
    ensures (a % p + b) % p == (a + b) % p
  {
    var q := a / p;
    assert a == p * q + a % p;
    ModShift(a % p + b, q, p);
  }

  lemma ModAdd(a: int, b: int, p: int)
    requires p > 0
    ensures (a % p + b % p) % p == (a + b) % p
  {
    ModAddLeft(a, b % p, p);
    ModAddLeft(b, a, p);
  }

  /** Reducing modulo a multiple first changes nothing. */
  lemma ModMod(x: int, p: int, q: int)
    requires p > 0 && q > 0
    ensures p * q > 0
    ensures x % (p * q) % p == x % p
  {
    assert p * q >= p * 1;
    var k := x / (p * q);
    assert x == p * q * k + x % (p * q);
    assert p * q * k == p * (q * k);
    ModShift(x % (p * q), q * k, p);
  }

  /** Numbers closer together than the modulus are equal if their residues are. */
  lemma CloseResidues(a: int, b: int, p: int)
    requires p > 0 && a % p == b % p && -p < a - b < p
    ensures a == b
  {
    var q, q' := a / p, b / p;
    assert a == p * q + a % p && b == p * q' + b % p;
    if q < q' {
      NextMultiple(p, q, q');
    } else if q > q' {
      NextMultiple(p, q', q);
    }
  }

  /** Congruence as divisibility of the difference. */
  lemma ModEqual(a: int, b: int, p: int, k: int)
    requires p > 0 && a == b + p * k
    ensures a % p == b % p
  {
    ModShift(b, k, p);
  }
}
