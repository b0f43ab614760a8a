/** plus, minus and the unary operators of base/base/wide_integer_impl.h, for any number of limbs. */
module WideAddSub {
  import opened Modular
  import opened Limbs

  function Flag(b: bool): nat {
    if b then 1 else 0
  }

  /** Moving a carry one limb up. */
  lemma CarryStep(p: nat, x: int, y: int, c: int, r: int, c': int)
    requires x + y + c == r + B * c'
    ensures x * p + y * p + c * p == r * p + c' * (p * B)
  {
    assert (x + y + c) * p == x * p + y * p + c * p;
    assert (r + B * c') * p == r * p + B * c' * p;
    assert B * c' * p == c' * (p * B);
  }

  /** The first loop of plus: limbwise sums with their overflow flags. */
  method AddLimbs(lhs: seq<Limb>, rhs: seq<Limb>) returns (res: seq<Limb>, overflows: seq<bool>)
    ensures |res| == |overflows| == |lhs|
    ensures forall i :: 0 <= i < |lhs| ==> Item(lhs, i) + Item(rhs, i) == res[i] + B * Flag(overflows[i])
  {
    res, overflows := lhs, seq(|lhs|, i => false);
    var opItems := if |lhs| < |rhs| then |lhs| else |rhs|;
    var i := 0;
    while i < opItems
      invariant 0 <= i <= opItems && |res| == |overflows| == |lhs|
      invariant forall j :: 0 <= j < i ==> Item(lhs, j) + Item(rhs, j) == res[j] + B * Flag(overflows[j])
      invariant forall j :: i <= j < |lhs| ==> res[j] == lhs[j] && !overflows[j]
    {
      var rhsItem := Item(rhs, i);
      var sum := (res[i] + rhsItem) % B;
      res := res[i := sum];
      overflows := overflows[i := sum < rhsItem];
      i := i + 1;
    }
  }

  /** plus: limbwise addition first, then the carries, each of which can set at most one more flag. */
  method Plus(lhs: seq<Limb>, rhs: seq<Limb>) returns (res: seq<Limb>)
    requires |lhs| >= 1
    ensures |res| == |lhs|
    ensures Val(res) == (Val(lhs) + Value(rhs, |lhs|)) % Base(|lhs|)
  {
    hide Value, Base, Item;
    var overflows;
    res, overflows := AddLimbs(lhs, rhs);
    ghost var sums, flags := res, overflows;
    FirstLimb(lhs, rhs, res, overflows);
    var i := 1;
    while i < |lhs|
      invariant 1 <= i <= |lhs| && |res| == |overflows| == |lhs|
      invariant forall j :: i <= j < |lhs| ==> res[j] == sums[j] && overflows[j] == flags[j]
      invariant Value(res, i) + Flag(overflows[i - 1]) * Base(i) == Value(lhs, i) + Value(rhs, i)
    {
      ghost var before := res;
      ghost var carry := overflows[i - 1];
      if overflows[i - 1] {
        var item := (res[i] + 1) % B;
        res := res[i := item];
        if item == 0 {
          overflows := overflows[i := true];
        }
      }
      NextLimb(lhs, rhs, before, res, i, Flag(carry), Flag(overflows[i]));
      i := i + 1;
    }
    Wrap(lhs, rhs, res, Flag(overflows[|lhs| - 1]));
  }

  lemma FirstLimb(lhs: seq<Limb>, rhs: seq<Limb>, res: seq<Limb>, overflows: seq<bool>)
    requires 1 <= |lhs| == |res| == |overflows|
    requires Item(lhs, 0) + Item(rhs, 0) == res[0] + B * Flag(overflows[0])
    ensures Value(res, 1) + Flag(overflows[0]) * Base(1) == Value(lhs, 1) + Value(rhs, 1)
  {
    assert Value(res, 0) == Value(lhs, 0) == Value(rhs, 0) == 0;
  }

  lemma NextLimb(lhs: seq<Limb>, rhs: seq<Limb>, before: seq<Limb>, res: seq<Limb>, i: nat, carry: nat, next: nat)
    requires i < |res| == |before| && (forall j :: 0 <= j < i ==> res[j] == before[j])
    requires Value(before, i) + carry * Base(i) == Value(lhs, i) + Value(rhs, i)
    requires Item(lhs, i) + Item(rhs, i) + carry == res[i] + B * next
    ensures Value(res, i + 1) + next * Base(i + 1) == Value(lhs, i + 1) + Value(rhs, i + 1)
  {
    ValueSame(before, res, i);
    CarryStep(Base(i), Item(lhs, i), Item(rhs, i), carry, res[i], next);
  }

  lemma Wrap(lhs: seq<Limb>, rhs: seq<Limb>, res: seq<Limb>, carry: nat)
    requires |res| == |lhs| && Val(res) + carry * Base(|lhs|) == Val(lhs) + Value(rhs, |lhs|)
    ensures Val(res) == (Val(lhs) + Value(rhs, |lhs|)) % Base(|lhs|)
  {
    ValueBound(res, |lhs|);
    hide Value, Base;
    var p := Base(|lhs|);
    assert carry * p == p * carry;
    DivModUnique(Val(lhs) + Value(rhs, |lhs|), p, carry, Val(res));
  }

  /** The first loop of minus. */
  method SubLimbs(lhs: seq<Limb>, rhs: seq<Limb>) returns (res: seq<Limb>, underflows: seq<bool>)
    ensures |res| == |underflows| == |lhs|
    ensures forall i :: 0 <= i < |lhs| ==> res[i] + Item(rhs, i) == Item(lhs, i) + B * Flag(underflows[i])
  {
    res, underflows := lhs, seq(|lhs|, i => false);
    var opItems := if |lhs| < |rhs| then |lhs| else |rhs|;
    var i := 0;
    while i < opItems
      invariant 0 <= i <= opItems && |res| == |underflows| == |lhs|
      invariant forall j :: 0 <= j < i ==> res[j] + Item(rhs, j) == Item(lhs, j) + B * Flag(underflows[j])
      invariant forall j :: i <= j < |lhs| ==> res[j] == lhs[j] && !underflows[j]
    {
      var rhsItem := Item(rhs, i);
      underflows := underflows[i := res[i] < rhsItem];
      res := res[i := (res[i] - rhsItem) % B];
      i := i + 1;
    }
  }

  /** minus, by the same scheme with borrows. */
  method Minus(lhs: seq<Limb>, rhs: seq<Limb>) returns (res: seq<Limb>)
    requires |lhs| >= 1
    ensures |res| == |lhs|
    ensures Val(res) == (Val(lhs) - Value(rhs, |lhs|)) % Base(|lhs|)
  {
    hide Value, Base, Item;
    var underflows;
    res, underflows := SubLimbs(lhs, rhs);
    ghost var differences, flags := res, underflows;
    BorrowFirst(lhs, rhs, res, underflows);
    var i := 1;
    while i < |lhs|
      invariant 1 <= i <= |lhs| && |res| == |underflows| == |lhs|
      invariant forall j :: i <= j < |lhs| ==> res[j] == differences[j] && underflows[j] == flags[j]
      invariant Value(res, i) + Value(rhs, i) == Value(lhs, i) + Flag(underflows[i - 1]) * Base(i)
    {
      ghost var before := res;
      ghost var borrow := underflows[i - 1];
      if underflows[i - 1] {
        if res[i] == 0 {
          underflows := underflows[i := true];
        }
        res := res[i := (res[i] - 1) % B];
      }
      BorrowNext(lhs, rhs, before, res, i, Flag(borrow), Flag(underflows[i]));
      i := i + 1;
    }
    BorrowWrap(lhs, rhs, res, Flag(underflows[|lhs| - 1]));
  }

  lemma BorrowFirst(lhs: seq<Limb>, rhs: seq<Limb>, res: seq<Limb>, underflows: seq<bool>)
    requires 1 <= |lhs| == |res| == |underflows|
    requires res[0] + Item(rhs, 0) == Item(lhs, 0) + B * Flag(underflows[0])
    ensures Value(res, 1) + Value(rhs, 1) == Value(lhs, 1) + Flag(underflows[0]) * Base(1)
  {
    assert Value(res, 0) == Value(lhs, 0) == Value(rhs, 0) == 0;
  }

  lemma BorrowNext(lhs: seq<Limb>, rhs: seq<Limb>, before: seq<Limb>, res: seq<Limb>, i: nat, borrow: nat, next: nat)
    requires i < |res| == |before| && (forall j :: 0 <= j < i ==> res[j] == before[j])
    requires Value(before, i) + Value(rhs, i) == Value(lhs, i) + borrow * Base(i)
    requires res[i] + Item(rhs, i) + borrow == Item(lhs, i) + B * next
    ensures Value(res, i + 1) + Value(rhs, i + 1) == Value(lhs, i + 1) + next * Base(i + 1)
  {
    ValueSame(before, res, i);
    CarryStep(Base(i), res[i], Item(rhs, i), borrow, Item(lhs, i), next);
  }

  lemma BorrowWrap(lhs: seq<Limb>, rhs: seq<Limb>, res: seq<Limb>, borrow: nat)
    requires |res| == |lhs| && Val(res) + Value(rhs, |lhs|) == Val(lhs) + borrow * Base(|lhs|)
    ensures Val(res) == (Val(lhs) - Value(rhs, |lhs|)) % Base(|lhs|)
  {
    ValueBound(res, |lhs|);
    hide Value, Base;
    WrapDown(Val(lhs), Value(rhs, |lhs|), Val(res), borrow, Base(|lhs|));
  }

  lemma WrapDown(x: nat, y: nat, r: nat, borrow: nat, p: nat)
    requires r < p && r + y == x + borrow * p
    ensures r == (x - y) % p
  {
    var q: int := 0 - borrow;
    assert p * q == -(borrow * p);
    DivModUnique(x - y, p, q, r);
  }

  /** operator_unary_tilda. */
  method Complement(s: seq<Limb>) returns (res: seq<Limb>)
    ensures |res| == |s|
    ensures Val(res) == Base(|s|) - 1 - Val(s)
  {
    res := s;
    var i := 0;
    while i < |s|
      invariant 0 <= i <= |s| == |res|
      invariant forall j :: 0 <= j < i ==> res[j] == B - 1 - s[j]
    {
      res := res[i := B - 1 - s[i]];
      i := i + 1;
    }
    ComplementValue(s, res, |s|);
  }

  lemma {:induction false} ComplementValue(s: seq<Limb>, t: seq<Limb>, n: nat)
    requires n <= |s| == |t| && forall j :: 0 <= j < n ==> t[j] == B - 1 - s[j]
    ensures Value(t, n) == Base(n) - 1 - Value(s, n)
    decreases n
  {
    if n > 0 {
      ComplementValue(s, t, n - 1);
      var p := Base(n - 1);
      assert (B - 1 - s[n - 1]) * p == p * B - p - s[n - 1] * p;
    }
  }

  /** operator_unary_minus: complement plus one. */
  method Negate(s: seq<Limb>) returns (res: seq<Limb>)
    requires |s| >= 1
    ensures |res| == |s|
    ensures Val(res) == (Base(|s|) - Val(s)) % Base(|s|)
  {
    hide Value, Base;
    var t := Complement(s);
    res := Plus(t, [1]);
    OneLimb(1, |s|);
  }
}
