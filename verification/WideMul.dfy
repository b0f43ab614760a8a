/** multiply of base/base/wide_integer_impl.h in its three branches: 256 bits, 128 bits, and the window loop for any
    other number of limbs. Each computes the product modulo 2^Bits. */
module WideMul {
  import opened Modular
  import opened Bits
  import opened Limbs
  import opened WideAddSub
  import opened WideShift

  // ----- The window loop -----

  /** Adding one window of the right operand, taken off the bottom, keeps the sum of what is done and what is left. */
  lemma WindowStep(done: nat, done': nat, x: nat, item: nat, item': nat, window: nat, step: nat, p: nat, m: nat)
    requires m > 0 && item == window + step * item'
    requires done' == (done + (window * x % m) * p % m) % m
    ensures (done' + x * (item' * (p * step))) % m == (done + x * (item * p)) % m
  {
    var y, z := window * x, x * (item' * (p * step));
    ModMulLeft(y, p, m);
    ModAdd(done, y * p, m);
    ModAddLeft(done + (y % m) * p % m, z, m);
    ModAddLeft(y * p, done, m);
    ModAddLeft((y % m) * p, done, m);
    ModAddLeft(done + y * p, z, m);
    ModAddLeft((y % m) * p % m, done, m);
    assert done + y * p + z == done + x * (item * p) by {
      WindowAlgebra(x, item', window, step, p);
    }
  }

  lemma WindowAlgebra(x: int, item': int, window: int, step: int, p: int)
    ensures window * x * p + x * (item' * (p * step)) == x * ((window + step * item') * p)
  {
    assert (window + step * item') * p == window * p + step * item' * p;
    assert step * item' * p == item' * (p * step);
    assert x * (window * p + item' * (p * step)) == x * (window * p) + x * (item' * (p * step));
    assert x * (window * p) == window * x * p;
  }

  /** lhs, 3 * lhs and 7 * lhs modulo the width. */
  method Multiples(lhs: seq<Limb>) returns (triple: seq<Limb>, sevenfold: seq<Limb>)
    requires |lhs| >= 1
    ensures |triple| == |lhs| && Val(triple) == 3 * Val(lhs) % Base(|lhs|)
    ensures |sevenfold| == |lhs| && Val(sevenfold) == 7 * Val(lhs) % Base(|lhs|)
  {
    hide Value, Base, Pow2;
    var twice := ShiftLeft(lhs, 1);
    triple := Plus(lhs, twice);
    var fourfold := ShiftLeft(lhs, 2);
    sevenfold := Plus(triple, fourfold);
    SmallPowers();
    ThreeAndSeven(Val(lhs), Base(|lhs|), Val(twice), Val(fourfold), Val(triple));
  }

  lemma SmallPowers()
    ensures Pow2(1) == 2 && Pow2(2) == 4
  {
  }

  lemma ThreeAndSeven(x: nat, m: nat, twice: nat, fourfold: nat, triple: nat)
    requires m > 0 && twice == x * 2 % m && fourfold == x * 4 % m && triple == (x + twice) % m
    ensures triple == 3 * x % m && (triple + fourfold) % m == 7 * x % m
  {
    ModAddLeft(x * 2, x, m);
    ModAdd(3 * x, x * 4, m);
  }

  /** What is done, plus the left operand times the bits of the right one still to come, at position pos. */
  function Pending(done: nat, x: nat, item: nat, pos: nat, m: nat): nat
    requires m > 0
  {
    (done + x * (item * Pow2(pos))) % m
  }

  /** One round of the inner loop: a window of three ones, of two ones, or a single bit. */
  method WindowRound(res: seq<Limb>, lhs: seq<Limb>, triple: seq<Limb>, sevenfold: seq<Limb>, item: nat, pos: nat,
                     ghost top: nat)
    returns (res': seq<Limb>, item': nat, pos': nat)
    requires 1 <= |lhs| == |res| == |triple| == |sevenfold|
    requires item > 0 && pos <= top <= 64 * |lhs| && item < Pow2(top - pos)
    requires Val(triple) == 3 * Val(lhs) % Base(|lhs|) && Val(sevenfold) == 7 * Val(lhs) % Base(|lhs|)
    ensures |res'| == |lhs| && item' < item && pos < pos' <= top && item' < Pow2(top - pos')
    ensures Pending(Val(res'), Val(lhs), item', pos', Base(|lhs|))
         == Pending(Val(res), Val(lhs), item, pos, Base(|lhs|))
  {
    hide Val, Base, And, Pow2, Pending;
    LowBitTests(item);
    WindowBound(item, top - pos);
    if And(item, 0x7) == 0x7 {
      item', pos' := item / 8, pos + 3;
      res' := AddWindow(res, sevenfold, pos, Val(lhs), item, item', 7, 3);
    } else if And(item, 0x3) == 0x3 {
      item', pos' := item / 4, pos + 2;
      res' := AddWindow(res, triple, pos, Val(lhs), item, item', 3, 2);
    } else {
      item', pos' := item / 2, pos + 1;
      if And(item, 1) != 0 {
        ValBound(lhs);
        ModSmall(Val(lhs), Base(|lhs|));
        res' := AddWindow(res, lhs, pos, Val(lhs), item, item', 1, 1);
      } else {
        res' := res;
        SkipBit(Val(res), Val(lhs), item, item', pos, Base(|lhs|));
      }
    }
  }

  lemma LowBitTests(item: nat)
    ensures And(item, 0x7) == item % 8 && And(item, 0x3) == item % 4 && And(item, 1) == item % 2
    ensures Pow2(1) == 2 && Pow2(2) == 4 && Pow2(3) == 8
  {
    assert Pow2(1) == 2 && Pow2(2) == 4 && Pow2(3) == 8;
    AndMask(item, 3);
    AndMask(item, 2);
    AndMask(item, 1);
  }

  /** Add a multiple of the left operand at the window's position. */
  method AddWindow(res: seq<Limb>, multiple: seq<Limb>, pos: nat, ghost x: nat, ghost item: nat, ghost item': nat,
                   ghost window: nat, ghost bits: nat)
    returns (res': seq<Limb>)
    requires 1 <= |res| == |multiple| && pos < 64 * |res| && Val(multiple) == window * x % Base(|res|)
    requires item == window + Pow2(bits) * item'
    ensures |res'| == |res|
    ensures Pending(Val(res'), x, item', pos + bits, Base(|res|)) == Pending(Val(res), x, item, pos, Base(|res|))
  {
    hide Value, Base, Pow2;
    var shifted := ShiftLeft(multiple, pos);
    res' := Plus(res, shifted);
    Pow2Add(pos, bits);
    WindowStep(Val(res), Val(res'), x, item, item', window, Pow2(bits), Pow2(pos), Base(|res|));
  }

  lemma SkipBit(done: nat, x: nat, item: nat, item': nat, pos: nat, m: nat)
    requires m > 0 && item == 2 * item'
    ensures Pending(done, x, item', pos + 1, m) == Pending(done, x, item, pos, m)
  {
    assert Pow2(pos + 1) == 2 * Pow2(pos);
    assert item' * (2 * Pow2(pos)) == 2 * item' * Pow2(pos);
  }

  /** A number with its low s bits set needs at least s bits, and s fewer once they are gone. */
  lemma WindowBound(item: nat, k: nat)
    requires 0 < item < Pow2(k)
    ensures 1 <= k && item / 2 < Pow2(k - 1)
    ensures item >= 3 ==> 2 <= k && item / 4 < Pow2(k - 2)
    ensures item >= 7 ==> 3 <= k && item / 8 < Pow2(k - 3)
  {
    assert Pow2(0) == 1 && Pow2(1) == 2 && Pow2(2) == 4;
    if k >= 2 {
      assert Pow2(k) == 2 * Pow2(k - 1) && Pow2(k - 1) == 2 * Pow2(k - 2);
      if k >= 3 {
        assert Pow2(k - 2) == 2 * Pow2(k - 3);
      }
    }
  }

  method MultiplyGeneric(lhs: seq<Limb>, rhs: seq<Limb>) returns (res: seq<Limb>)
    requires |lhs| >= 1
    ensures |res| == |lhs|
    ensures Val(res) == Val(lhs) * Value(rhs, |lhs|) % Base(|lhs|)
  {
    hide Value, Base, Item, Pow2;
    var count := |lhs|;
    res := FromBuiltin(0, count);
    FromBuiltinValue(0, count);
    var triple, sevenfold := Multiples(lhs);
    ghost var m, x := Base(count), Val(lhs);
    NoLimbs(rhs, x, m);
    var i := 0;
    while i < count
      invariant 0 <= i <= count && |res| == count
      invariant Val(res) == x * Value(rhs, i) % m
    {
      var item: nat := Item(rhs, i);
      var pos: nat := 64 * i;
      TakeLimb(rhs, i, Val(res), x, m);
      while item != 0
        invariant |res| == count && pos <= 64 * (i + 1) && item < Pow2(64 * (i + 1) - pos)
        invariant Pending(Val(res), x, item, pos, m) == x * Value(rhs, i + 1) % m
        decreases item
      {
        res, item, pos := WindowRound(res, lhs, triple, sevenfold, item, pos, 64 * (i + 1));
      }
      ValueBound(res, count);
      ModSmall(Val(res), m);
      i := i + 1;
    }
  }

  lemma NoLimbs(rhs: seq<Limb>, x: nat, m: nat)
    requires m > 0
    ensures x * Value(rhs, 0) % m == 0
  {
    ModSmall(0, m);
  }

  lemma TakeLimb(rhs: seq<Limb>, i: nat, done: nat, x: nat, m: nat)
    requires m > 0 && done == x * Value(rhs, i) % m
    ensures Item(rhs, i) < Pow2(64 * (i + 1) - 64 * i)
    ensures Pending(done, x, Item(rhs, i), 64 * i, m) == x * Value(rhs, i + 1) % m
  {
    Pow2At64();
    BaseIsPow2(i);
    var y := Item(rhs, i) * Base(i);
    assert Value(rhs, i + 1) == Value(rhs, i) + y;
    assert x * (Value(rhs, i) + y) == x * Value(rhs, i) + x * y;
    ModAddLeft(x * Value(rhs, i), x * y, m);
  }

  // ----- 128 bits -----

  method Multiply128(lhs: seq<Limb>, rhs: seq<Limb>) returns (res: seq<Limb>)
    requires |lhs| == 2
    ensures |res| == 2
    ensures Val(res) == Val(lhs) * Value(rhs, |lhs|) % Base(|lhs|)
  {
    var a := lhs[1] * B + lhs[0];
    var b := Item(rhs, 1) * B + Item(rhs, 0);
    var c := a * b % (B * B);
    HalvesFit(B, c);
    res := [c % B, c / B];
    TwoLimbs(lhs);
    TwoLimbs(rhs);
    TwoLimbs(res);
  }

  /** Two limbs of base b. */
  lemma HalvesFit(b: nat, c: int)
    requires b > 0 && 0 <= c < b * b
    ensures 0 <= c / b < b && 0 <= c % b < b && c == c / b * b + c % b
  {
    var q := c / b;
    assert c == b * q + c % b;
    if q >= b {
      MulLe(b, q, b);
    }
    if q < 0 {
      MulLe(q, -1, b);
    }
  }

  lemma FourLimbs(s: seq<Limb>)
    ensures Value(s, 4) == Item(s, 0) + Item(s, 1) * B + (Item(s, 2) + Item(s, 3) * B) * (B * B)
    ensures Base(4) == (B * B) * (B * B)
  {
    TwoLimbs(s);
    assert Base(3) == B * B * B && Base(4) == B * B * B * B;
    assert Value(s, 3) == Value(s, 2) + Item(s, 2) * (B * B);
    assert Value(s, 4) == Value(s, 3) + Item(s, 3) * (B * B * B);
  }

  // ----- 256 bits -----

  // The 256-bit branch splits both operands into two limbs and an upper half; nothing in it depends on the limb base b.

  /** The product of two numbers given by two limbs and an upper half each. */
  function SplitProduct(b: int, a0: int, a1: int, a23: int, b0: int, b1: int, b23: int): int {
    (a0 + a1 * b + a23 * (b * b)) * (b0 + b1 * b + b23 * (b * b))
  }

  /** The terms of the product from b^2 on, up to b^4. */
  function HighTerms(b: int, a0: int, a1: int, a23: int, b0: int, b1: int, b23: int): int {
    a23 * (b1 * b + b0) + (a1 * b + a0) * b23 + a1 * b1
  }

  /** The number of four limbs. */
  function Joined(b: int, r0: int, r1: int, r2: int, r3: int): int {
    r0 + r1 * b + (r2 + r3 * b) * (b * b)
  }

  /** The split of the 256-bit branch into 128-bit halves, with the two carries into the top limb. `wide` says that the
      right operand has more than one limb. */
  method MultiplyHalves(b: nat, a0: nat, a1: nat, a23: nat, b0: nat, b1: nat, b23: nat, wide: bool)
    returns (r0: nat, r1: nat, r2: nat, r3: nat)
    requires b > 1 && a0 < b && a1 < b && b0 < b && b1 < b && (!wide ==> b1 == 0)
    ensures r0 < b && r1 < b && r2 < b && r3 < b
    ensures Joined(b, r0, r1, r2, r3) == SplitProduct(b, a0, a1, a23, b0, b1, b23) % (b * b * (b * b))
  {
    hide SplitProduct, HighTerms, Joined;
    var half := b * b;
    ProductBound(a0, b0, b - 1, b);
    ProductBound(a1, b0, b - 1, b);
    ProductBound(a0, b1, b - 1, b);
    var r23 := HighTerms(b, a0, a1, a23, b0, b1, b23) % half;
    var r01 := a0 * b0;
    HalvesFit(b, r23);
    HalvesFit(b, r01);
    var r12x, top;
    ghost var carry1, carry2;
    r12x, top, carry1 := CrossTerms(b, a1 * b0, a0 * b1, wide, r23 / b);
    var r12;
    r12, top, carry2 := MiddleTerms(b, r01, r23, r12x, top);
    HalvesFit(b, r12);
    Assemble(b, half, half * half, a0, a1, a23, b0, b1, b23, r01, r23, r12x, r12, top, carry1, carry2);
    r0, r1, r2, r3 := r01 % b, r12 % b, r12 / b, top;
  }

  /** The cross terms a1 * b0 and a0 * b1 added in two limbs, with the carry added to the top limb. */
  method CrossTerms(b: nat, r12x0: nat, r12y: nat, wide: bool, top: nat)
    returns (r12x: nat, top': nat, ghost carry: nat)
    requires b > 1 && r12x0 < b * b && r12y < b * b && top < b && (!wide ==> r12y == 0)
    ensures r12x < b * b && r12x + b * b * carry == r12x0 + r12y
    ensures top' < b && top' == (top + carry) % b
  {
    r12x, top', carry := r12x0, top, 0;
    ModSmall(top, b);
    if wide {
      WrapSum(r12x, r12y, b * b);
      carry := if r12x + r12y >= b * b then 1 else 0;
      r12x := (r12x + r12y) % (b * b);
      if r12x < r12y {
        top' := (top + 1) % b;
      }
    }
  }

  /** The middle two limbs: the top of r01, the bottom of r23 and the cross terms. */
  method MiddleTerms(b: nat, r01: nat, r23: nat, r12x: nat, top: nat) returns (r12: nat, top': nat, ghost carry: nat)
    requires b > 1 && r01 < b * b && r23 < b * b && r12x < b * b && top < b
    ensures r12 < b * b && r12 + b * b * carry == r01 / b + (r23 % b) * b + r12x
    ensures top' < b && top' == (top + carry) % b
  {
    var half := b * b;
    MiddleFits(b, half, r01, r23);
    r12 := (r01 / b + r23 * b % half) % half;
    WrapSum(r12, r12x, half);
    carry := if r12 + r12x >= half then 1 else 0;
    r12 := (r12 + r12x) % half;
    top' := top;
    ModSmall(top, b);
    if r12 < r12x {
      top' := (top + 1) % b;
    }
  }

  /** The partial results of MultiplyHalves are the limbs of the product, modulo m = b^4. */
  lemma Assemble(b: nat, h: nat, m: nat, a0: nat, a1: nat, a23: int, b0: nat, b1: nat, b23: int, low: nat, r23: int,
                 x: int, r12: int, top: int, c1: int, c2: int)
    requires b > 1 && h == b * b && m == h * h && low == a0 * b0 && low < h && 0 <= r12 < h && 0 <= top < b
    requires r23 == HighTerms(b, a0, a1, a23, b0, b1, b23) % h && x + h * c1 == a1 * b0 + a0 * b1
    requires r12 + h * c2 == low / b + (r23 % b) * b + x
    requires top == ((r23 / b + c1) % b + c2) % b
    ensures Joined(b, low % b, r12 % b, r12 / b, top) == SplitProduct(b, a0, a1, a23, b0, b1, b23) % m
  {
    hide SplitProduct, HighTerms, Joined;
    var high, cross := HighTerms(b, a0, a1, a23, b0, b1, b23), a1 * b0 + a0 * b1;
    var r := Joined(b, low % b, r12 % b, r12 / b, top);
    JoinedBound(b, h, m, low, r12, top);
    DivSplit(low, b);
    DivSplit(r12, b);
    DivSplit(r23, b);
    var t := DroppedCarries(b, h, m, low / b, low % b, cross, r23 / b, r23 % b, x, r12 / b, r12 % b, top, c1, c2);
    var k := QuotientBy(high, h);
    var excess := CombineProduct(b, h, m, a0, a1, a23, b0, b1, b23, low, cross, r23, k, t, r);
    ResidueIs(SplitProduct(b, a0, a1, a23, b0, b1, b23), r, m, excess);
  }

  lemma DivSplit(x: int, b: int)
    requires b > 0
    ensures x == b * (x / b) + x % b
  {
  }

  lemma QuotientBy(x: int, h: int) returns (k: int)
    requires h > 0
    ensures x % h == x - h * k
  {
    k := x / h;
  }

  lemma JoinedBound(b: nat, h: nat, m: nat, low: int, r12: int, top: int)
    requires b > 1 && h == b * b && m == h * h && 0 <= r12 < h && 0 <= top < b && 0 <= low < h
    ensures 0 <= Joined(b, low % b, r12 % b, r12 / b, top) < m
  {
    hide Joined;
    HalvesFit(b, r12);
    HalvesFit(b, low);
    FourBound(b, low % b, r12 % b, r12 / b, top);
  }

  /** With quotients and remainders by b as numbers of their own: what the four limbs leave out is a multiple of m. */
  lemma DroppedCarries(b: int, h: int, m: int, lq: int, lr: int, cross: int, u: int, v: int, x: int, q: int, s: int,
                       top: int, c1: int, c2: int) returns (t: int)
    requires b > 1 && h == b * b && m == h * h && x + h * c1 == cross && b * q + s + h * c2 == lq + v * b + x
    requires top == ((u + c1) % b + c2) % b
    ensures Joined(b, lr, s, q, top) == b * lq + lr + b * cross + h * (b * u + v) - m * t
  {
    hide Joined;
    t := CarryOut(u, c1, c2, b, top);
    LowLimbs(b, h, lr, q, s, top);
    TopLimbs(b, h, u, c1, c2, t, top);
    CarriesCancel(b, h, lq, lr, u, v, x, c1, c2, b * q + s, b * u + v, b * lq + lr, cross);
  }

  lemma CarryOut(u: int, c1: int, c2: int, b: int, top: int) returns (t: int)
    requires b > 0 && top == ((u + c1) % b + c2) % b
    ensures u + c1 + c2 == b * t + top
  {
    ModAddLeft(u + c1, c2, b);
    t := (u + c1 + c2) / b;
  }

  lemma FourBound(b: nat, x0: nat, x1: nat, x2: nat, x3: nat)
    requires x0 < b && x1 < b && x2 < b && x3 < b
    ensures 0 <= Joined(b, x0, x1, x2, x3) < b * b * (b * b)
  {
    var low, high := x0 + x1 * b, x2 + x3 * b;
    TwoBound(b, x0, x1);
    TwoBound(b, x2, x3);
    var h := b * b;
    TwoBound(h, low, high);
  }

  lemma TwoBound(b: nat, x0: nat, x1: nat)
    requires x0 < b && x1 < b
    ensures 0 <= x0 + x1 * b < b * b
  {
    MulLe(x1 + 1, b, b);
    assert b * (x1 + 1) == x1 * b + b;
  }

  lemma ProductBound(x: nat, y: nat, n: nat, b: nat)
    requires x <= n && y <= n && b == n + 1
    ensures 0 <= x * y < b * b
  {
    MulLe(y, n, x);
    MulLe(x, n, n);
    assert x * n == n * x;
    assert (n + 1) * (n + 1) == n * n + 2 * n + 1;
  }

  lemma WrapSum(x: int, y: int, m: int)
    requires 0 <= x < m && 0 <= y < m
    ensures x + y < m ==> (x + y) % m == x + y
    ensures x + y >= m ==> (x + y) % m == x + y - m < y
  {
    if x + y < m {
      ModSmall(x + y, m);
    } else {
      DivModUnique(x + y, m, 1, x + y - m);
    }
  }

  lemma MiddleFits(b: nat, h: nat, r01: int, r23: int)
    requires b > 1 && h == b * b && 0 <= r01 < h && 0 <= r23 < h
    ensures (r01 / b + r23 * b % h) % h == r01 / b + (r23 % b) * b < h
  {
    var p, q, v := r01 / b, r23 / b, r23 % b;
    HalvesFit(b, r01);
    HalvesFit(b, r23);
    TwoBound(b, p, v);
    TwoBound(b, 0, v);
    ShiftedUp(b, h, r23, q, v);
    DivModUnique(r23 * b, h, q, v * b);
    ModSmall(p + v * b, h);
  }

  lemma ShiftedUp(b: int, h: int, r23: int, q: int, v: int)
    requires h == b * b && r23 == q * b + v
    ensures r23 * b == h * q + v * b
  {
    assert (q * b + v) * b == b * b * q + v * b;
  }

  lemma LowLimbs(b: int, h: int, lr: int, q: int, s: int, top: int)
    requires h == b * b
    ensures Joined(b, lr, s, q, top) == lr + b * (b * q + s) + h * (b * top)
  {
    assert b * (b * q + s) == h * q + s * b;
    assert (q + top * b) * h == h * q + h * (b * top);
  }

  lemma TopLimbs(b: int, h: int, u: int, c1: int, c2: int, t: int, top: int)
    requires h == b * b && u + c1 + c2 == b * t + top
    ensures h * (b * top) == h * (b * u) + h * (b * c1) + h * (b * c2) - h * h * t
  {
    assert b * top == b * u + b * c1 + b * c2 - h * t by {
      assert b * (u + c1 + c2) == b * u + b * c1 + b * c2;
      assert b * (b * t + top) == h * t + b * top;
    }
    assert h * (b * u + b * c1 + b * c2 - h * t) == h * (b * u) + h * (b * c1) + h * (b * c2) - h * h * t;
  }

  lemma CarriesCancel(b: int, h: int, lq: int, lr: int, u: int, v: int, x: int, c1: int, c2: int, r12: int, r23: int,
                      low: int, cross: int)
    requires h == b * b && low == b * lq + lr && r23 == b * u + v && x + h * c1 == cross
    requires r12 + h * c2 == lq + v * b + x
    ensures lr + b * r12 + h * (b * u) + h * (b * c1) + h * (b * c2) == low + b * cross + h * r23
  {
    Spread(b, h, r12, c2);
    Spread(b, h, x, c1);
    assert b * (lq + x + v * b) == b * (lq + x) + b * (v * b);
    assert b * (lq + x) == b * lq + b * x;
    assert b * (v * b) == h * v;
    assert h * (b * u + v) == h * (b * u) + h * v;
  }

  lemma Spread(b: int, h: int, x: int, c: int)
    ensures b * (x + h * c) == b * x + h * (b * c)
  {
    assert b * (h * c) == h * (b * c);
  }

  /** The product differs from the limbs by a multiple of b^4. */
  lemma CombineProduct(b: int, h: int, m: int, a0: int, a1: int, a23: int, b0: int, b1: int, b23: int, low: int,
                       cross: int, r23: int, k: int, t: int, r: int)
    returns (excess: int)
    requires h == b * b && m == h * h && low == a0 * b0 && cross == a1 * b0 + a0 * b1
    requires r23 == HighTerms(b, a0, a1, a23, b0, b1, b23) - h * k && r == low + b * cross + h * r23 - m * t
    ensures SplitProduct(b, a0, a1, a23, b0, b1, b23) == r + m * excess
  {
    hide HighTerms, SplitProduct;
    ProductSplit(b, a0, a1, a23, b0, b1, b23);
    ExcessAlgebra(h, HighTerms(b, a0, a1, a23, b0, b1, b23), k, t, a23 * b23, r23);
    excess := k + t + a23 * b23;
  }

  lemma ExcessAlgebra(h: int, high: int, k: int, t: int, z: int, r23: int)
    requires r23 == high - h * k
    ensures h * high + h * h * z == h * r23 - h * h * t + h * h * (k + t + z)
  {
    assert h * (high - h * k) == h * high - h * h * k;
    assert h * h * (k + t + z) == h * h * k + h * h * t + h * h * z;
  }

  lemma ResidueIs(x: int, r: int, m: int, k: int)
    requires 0 <= r < m && x == r + m * k
    ensures r == x % m
  {
    DivModUnique(x, m, k, r);
  }

  lemma TwoTerms(x: int, y: int, u: int, v: int, h: int)
    ensures (x + y * h) * (u + v * h) == x * u + h * (y * u + x * v) + h * h * (y * v)
  {
    assert (x + y * h) * (u + v * h) == x * u + y * h * u + x * (v * h) + y * h * (v * h);
    assert y * h * u == h * (y * u) && x * (v * h) == h * (x * v);
    assert y * h * (v * h) == h * h * (y * v);
    assert h * (y * u + x * v) == h * (y * u) + h * (x * v);
  }

  lemma ProductSplit(b: int, a0: int, a1: int, a23: int, b0: int, b1: int, b23: int)
    ensures var h := b * b;
      SplitProduct(b, a0, a1, a23, b0, b1, b23)
      == a0 * b0 + b * (a1 * b0 + a0 * b1) + h * HighTerms(b, a0, a1, a23, b0, b1, b23) + h * h * (a23 * b23)
  {
    var h, x, u := b * b, a0 + a1 * b, b0 + b1 * b;
    TwoTerms(x, a23, u, b23, h);
    TwoTerms(a0, a1, b0, b1, b);
    assert h * (a23 * u + x * b23 + a1 * b1) == h * (a23 * u + x * b23) + h * (a1 * b1);
  }

  lemma JoinedIsValue(s: seq<Limb>)
    requires |s| == 4
    ensures Val(s) == Joined(B, s[0], s[1], s[2], s[3]) && Base(4) == B * B * (B * B)
  {
    FourLimbs(s);
  }

  lemma SplitIsProduct(lhs: seq<Limb>, rhs: seq<Limb>, b1: Limb, b23: int)
    requires |lhs| == 4 && b1 == Item(rhs, 1) && b23 == Item(rhs, 3) * B + Item(rhs, 2)
    ensures SplitProduct(B, lhs[0], lhs[1], lhs[3] * B + lhs[2], Item(rhs, 0), b1, b23) == Val(lhs) * Value(rhs, 4)
  {
    FourLimbs(lhs);
    FourLimbs(rhs);
    hide Value;
    assert Val(lhs) == lhs[0] + lhs[1] * B + (lhs[3] * B + lhs[2]) * (B * B);
    assert Value(rhs, 4) == Item(rhs, 0) + b1 * B + b23 * (B * B);
  }

  // ----- The dispatch -----

  /** multiply: the 256-bit split, the 128-bit branch, or the windows, by the width. */
  method Multiply(lhs: seq<Limb>, rhs: seq<Limb>) returns (res: seq<Limb>)
    requires |lhs| >= 1
    ensures |res| == |lhs|
    ensures Val(res) == Val(lhs) * Value(rhs, |lhs|) % Base(|lhs|)
  {
    hide Value, Base, SplitProduct, Joined;
    if |lhs| == 4 {
      var b1, b23 := 0, 0;
      if |rhs| > 1 {
        b1 := Item(rhs, 1);
      }
      if |rhs| > 2 {
        b23 := Item(rhs, 3) * B + Item(rhs, 2);
      }
      var r0, r1, r2, r3 := MultiplyHalves(B, lhs[0], lhs[1], lhs[3] * B + lhs[2], Item(rhs, 0), b1, b23, |rhs| > 1);
      res := [r0, r1, r2, r3];
      JoinedIsValue(res);
      SplitIsProduct(lhs, rhs, b1, b23);
    } else if |lhs| == 2 {
      res := Multiply128(lhs, rhs);
    } else {
      res := MultiplyGeneric(lhs, rhs);
    }
  }
}
