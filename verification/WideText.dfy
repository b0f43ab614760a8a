/** to_string of base/base/wide_integer_to_string.h and from_str of base/base/wide_integer_impl.h: printing a wide
    integer and reading it back. */
module WideText {
  import opened Chars
  import opened Wrappers
  import opened Modular
  import opened Limbs
  import opened Decimal
  import opened WideAddSub
  import opened WideShift
  import opened WideMul
  import opened WideDiv
  import opened WideSigned

  /** to_string: prepend the last digit until nothing is left. */
  method ToString(n: seq<Limb>, signed: bool) returns (res: string)
    requires |n| >= 1
    ensures res == Text(SVal(n, signed))
  {
    hide Val, Dec;
    SValRange(n, signed);
    var zero := IsZero(n);
    ZeroText();
    if zero {
      return "0";
    }
    res := [];
    var isNegative := IsNegative(n, signed);
    var t := MakePositive(n, signed);
    hide IsNegative, SVal;
    ghost var x := Val(t);
    var ten := FromBuiltin(10, |n|);
    FromBuiltinValue(10, |n|);
    var done := IsZero(t);
    while !done
      invariant |t| == |n| && (done <==> Val(t) == 0)
      invariant Dec(x) == (if Val(t) == 0 then [] else Dec(Val(t))) + res
      decreases Val(t)
    {
      var d := LastDigit(t, ten);
      var q := WithoutLastDigit(t, ten);
      DecUnfold(Val(t));
      res := [Digit(d)] + res;
      t := q;
      done := IsZero(t);
    }
    if isNegative {
      res := "-" + res;
    }
  }

  lemma ZeroText()
    ensures Dec(0) == "0"
  {
  }

  lemma DecUnfold(n: nat)
    requires n > 0
    ensures Dec(n) == (if n / 10 == 0 then [] else Dec(n / 10)) + [Digit(n % 10)]
  {
  }

  /** operator_percent(t, 10U) as a character offset. */
  method LastDigit(t: seq<Limb>, ten: seq<Limb>) returns (d: nat)
    requires 1 <= |t| == |ten| && Val(ten) == 10
    ensures d == Val(t) % 10
  {
    hide Val;
    UnsignedValue(t);
    UnsignedValue(ten);
    var r := Percent(t, ten, false);
    UnsignedValue(r.value);
    SmallLimb(r.value);
    d := r.value[0];
  }

  method WithoutLastDigit(t: seq<Limb>, ten: seq<Limb>) returns (q: seq<Limb>)
    requires 1 <= |t| == |ten| && Val(ten) == 10
    ensures |q| == |t| && Val(q) == Val(t) / 10
  {
    hide Val;
    UnsignedValue(t);
    UnsignedValue(ten);
    var r := Slash(t, ten, false);
    UnsignedValue(r.value);
    q := r.value;
  }

  lemma UnsignedValue(s: seq<Limb>)
    requires |s| >= 1
    ensures SVal(s, false) == Val(s)
  {
  }

  // ----- Reading -----

  /** The value of a hexadecimal digit. */
  function HexDigit(c: char): (r: Result<nat>)
    ensures r.Ok? ==> r.value < 16
  {
    if '0' <= c <= '9' then Ok(c as int - '0' as int)
    else if 'a' <= c <= 'f' then Ok(c as int - 'a' as int + 10)
    else if 'A' <= c <= 'F' then Ok(c as int - 'A' as int + 10)
    else Err("Invalid char from")
  }

  /** The value of one character in the given base, 10 or 16. */
  function DigitOf(c: char, base: nat): (r: Result<nat>)
    ensures r.Ok? ==> r.value < 16
  {
    if base == 16 then HexDigit(c)
    else if '0' <= c <= '9' then Ok(c as int - '0' as int) else Err("Invalid char from")
  }

  /** The number a string of digits denotes in the base. */
  function Parse(s: string, base: nat): Result<nat> {
    if s == [] then Ok(0)
    else
      var high := Parse(s[..|s| - 1], base);
      var low := DigitOf(s[|s| - 1], base);
      if high.Err? then high else if low.Err? then low else Ok(base * high.value + low.value)
  }

  /** What from_str reads: a sign for signed types, then hexadecimal after 0x or 0X, otherwise decimal. */
  function ParseText(s: string, signed: bool): Result<int> {
    var negative := signed && |s| > 0 && s[0] == '-';
    var body := if negative then s[1..] else s;
    var hex := |body| >= 2 && body[0] == '0' && (body[1] == 'x' || body[1] == 'X');
    var r := if hex then Parse(body[2..], 16) else Parse(body, 10);
    if r.Err? then Err(r.error) else Ok(if negative then 0 - r.value as int else r.value as int)
  }

  /** The digit loop: multiply by the base and add, wrapping at the width. */
  method ReadDigits(s: string, base: nat, count: nat) returns (r: Result<seq<Limb>>)
    requires count >= 1 && count != 2 && base in {10, 16}
    ensures r.Ok? <==> Parse(s, base).Ok?
    ensures r.Ok? ==> |r.value| == count && Val(r.value) == Parse(s, base).value % Base(count)
  {
    hide Val, Base, Value;
    var res := FromBuiltin(0, count);
    FromBuiltinValue(0, count);
    ModSmall(0, Base(count));
    var i := 0;
    while i < |s|
      invariant 0 <= i <= |s| && |res| == count
      invariant Parse(s[..i], base).Ok? && Val(res) == Parse(s[..i], base).value % Base(count)
    {
      assert s[..i + 1][..i] == s[..i];
      var d := DigitOf(s[i], base);
      if d.Err? {
        ParseStuck(s, base, i + 1);
        return Err(d.error);
      }
      var scaled := Multiply(res, [base]);
      OneLimb(base, count);
      OneLimb(d.value, count);
      ghost var high := Parse(s[..i], base).value;
      res := Plus(scaled, [d.value]);
      DigitStep(high, base, d.value, Base(count));
      i := i + 1;
    }
    assert s[..|s|] == s;
    return Ok(res);
  }

  lemma DigitStep(high: nat, base: nat, d: nat, m: nat)
    requires m > 0
    ensures ((high % m) * base % m + d) % m == (base * high + d) % m
  {
    ModMulLeft(high, base, m);
    ModAddLeft(high * base, d, m);
    assert high * base == base * high;
  }

  /** A bad character spoils every longer prefix. */
  lemma {:induction false} ParseStuck(s: string, base: nat, i: nat)
    requires i <= |s| && Parse(s[..i], base).Err?
    ensures Parse(s, base).Err?
    decreases |s|
  {
    if i == |s| {
      assert s[..i] == s;
    } else {
      assert s[..|s| - 1][..i] == s[..i];
      ParseStuck(s[..|s| - 1], base, i);
    }
  }

  method FromStr(s: string, signed: bool, count: nat) returns (r: Result<seq<Limb>>)
    requires count >= 1 && count != 2
    ensures r.Ok? <==> ParseText(s, signed).Ok?
    ensures r.Ok? ==> |r.value| == count && Val(r.value) == ParseText(s, signed).value % Base(count)
  {
    hide Val, Base, Parse;
    var negative := signed && |s| > 0 && s[0] == '-';
    var body := if negative then s[1..] else s;
    if |body| >= 2 && body[0] == '0' && (body[1] == 'x' || body[1] == 'X') {
      r := ReadDigits(body[2..], 16, count);
    } else {
      r := ReadDigits(body, 10, count);
    }
    if r.Ok? && negative {
      var res := Negate(r.value);
      ghost var x := ParseText(s, signed).value;
      NegateMod(0 - x, Base(count));
      r := Ok(res);
    }
  }

  // ----- The round trip -----

  lemma {:induction false} ParseDigits(s: string)
    requires forall i :: 0 <= i < |s| ==> IsDigit(s[i])
    ensures Parse(s, 10) == Ok(DecValue(s))
  {
    if s != [] {
      ParseDigits(s[..|s| - 1]);
    }
  }

  /** Canonical text denotes its number: it is never taken for hexadecimal. */
  lemma ParseInvertsText(x: int, signed: bool)
    requires signed || x >= 0
    ensures ParseText(Text(x), signed) == Ok(x)
  {
    var n := Abs(x);
    DecRoundTrip(n);
    ParseDigits(Dec(n));
    hide Dec, Parse, DecValue;
    if x < 0 {
      assert Text(x)[1..] == Dec(n);
    }
  }

  /** from_str(to_string(n)) is n, limb for limb, at every width that from_str supports. */
  method RoundTrip(n: seq<Limb>, signed: bool) returns (r: Result<seq<Limb>>)
    requires |n| >= 1 && |n| != 2
    ensures r == Ok(n)
  {
    hide Val, Base, Text, ParseText, SVal;
    SValRange(n, signed);
    var text := ToString(n, signed);
    NoNegatives(n, signed);
    ParseInvertsText(SVal(n, signed), signed);
    r := FromStr(text, signed, |n|);
    SameLimbs(r.value, n);
  }

  lemma NoNegatives(n: seq<Limb>, signed: bool)
    requires |n| >= 1
    ensures signed || SVal(n, signed) >= 0
  {
  }

  lemma SameLimbs(s: seq<Limb>, t: seq<Limb>)
    requires |s| == |t| && Val(s) == Val(t)
    ensures s == t
  {
    ValueInjective(s, t, |s|);
    forall i | 0 <= i < |s| ensures s[i] == t[i] {
      assert Item(s, i) == Item(t, i);
    }
  }
}
