/** The texts from_str of base/base/wide_integer_impl.h accepts and the numbers they denote: which characters are
    digits, what a string of digits is worth, and hexadecimal text after 0x read back. */
module WideHex {
  import opened Wrappers
  import opened Limbs
  import opened WideSigned
  import opened WideText

  const LOWER: string := "0123456789abcdef"
  const UPPER: string := "0123456789ABCDEF"

  // ----- Digits -----

  /** A hexadecimal digit is worth its place in the list of the digits, in either case. */
  lemma HexDigitIs(c: char, d: nat)
    requires d < 16
    ensures HexDigit(c) == Ok(d) <==> c == "0123456789abcdef"[d] || c == "0123456789ABCDEF"[d]
  {
  }

  lemma DecimalDigitIs(c: char, d: nat)
    requires d < 10
    ensures DigitOf(c, 10) == Ok(d) <==> c == "0123456789"[d]
  {
  }

  /** Exactly these characters are digits. */
  lemma DigitCharacters(c: char)
    ensures DigitOf(c, 10).Ok? <==> c in "0123456789"
    ensures DigitOf(c, 16).Ok? <==> c in "0123456789abcdefABCDEF"
  {
  }

  // ----- Strings of digits -----

  function Power(base: nat, k: nat): nat {
    if k == 0 then 1 else base * Power(base, k - 1)
  }

  /** The sum of all digits, each times the power of the base that its place from the right gives. */
  function PlaceValue(digits: seq<nat>, base: nat): nat {
    if digits == [] then 0 else digits[0] * Power(base, |digits| - 1) + PlaceValue(digits[1..], base)
  }

  lemma {:induction false} PlaceValueStep(digits: seq<nat>, d: nat, base: nat)
    ensures PlaceValue(digits + [d], base) == base * PlaceValue(digits, base) + d
    decreases |digits|
  {
    var more := digits + [d];
    if digits == [] {
      assert more[1..] == [];
    } else {
      assert more[1..] == digits[1..] + [d];
      PlaceValueStep(digits[1..], d, base);
      Scale(digits[0], base, Power(base, |digits| - 1), PlaceValue(digits[1..], base));
    }
  }

  lemma Scale(d: nat, base: nat, p: nat, v: nat)
    ensures d * (base * p) + base * v == base * (d * p + v)
  {
  }

  /** A string of digits denotes its place value. */
  lemma {:induction false} ParseIsPlaceValue(s: string, digits: seq<nat>, base: nat)
    requires |digits| == |s| && forall i :: 0 <= i < |s| ==> DigitOf(s[i], base) == Ok(digits[i])
    ensures Parse(s, base) == Ok(PlaceValue(digits, base))
    decreases |s|
  {
    hide DigitOf, PlaceValue;
    if s == [] {
      NoPlaces(base);
    } else {
      var n := |s| - 1;
      assert digits == digits[..n] + [digits[n]];
      ParseIsPlaceValue(s[..n], digits[..n], base);
      PlaceValueStep(digits[..n], digits[n], base);
    }
  }

  lemma NoPlaces(base: nat)
    ensures PlaceValue([], base) == 0
  {
  }

  /** One character that is not a digit spoils the string, and nothing else does. */
  lemma {:induction false} ParseFails(s: string, base: nat)
    ensures Parse(s, base).Err? <==> exists i :: 0 <= i < |s| && DigitOf(s[i], base).Err?
    decreases |s|
  {
    hide DigitOf;
    if s != [] {
      var n := |s| - 1;
      ParseFails(s[..n], base);
      if Parse(s[..n], base).Err? {
        var i :| 0 <= i < n && DigitOf(s[..n][i], base).Err?;
        assert s[i] == s[..n][i];
      } else if DigitOf(s[n], base).Ok? {
        forall i | 0 <= i < |s| ensures DigitOf(s[i], base).Ok? {
          if i < n {
            assert s[i] == s[..n][i];
          }
        }
      }
    }
  }

  /** A minus sign is for signed types only, and negates what follows. */
  lemma SignedText(body: string)
    ensures var unsigned := ParseText(body, false);
      && (unsigned.Ok? ==> ParseText("-" + body, true) == Ok(0 - unsigned.value))
      && (unsigned.Err? ==> ParseText("-" + body, true).Err?)
      && (body == [] || body[0] != '-' ==> ParseText(body, true) == unsigned)
      && ParseText("-" + body, false).Err?
  {
    hide Parse;
    assert ("-" + body)[1..] == body;
    ParseFails("-" + body, 10);
    assert ("-" + body)[0] == '-' && DigitOf('-', 10).Err?;
  }

  /** After 0x or 0X the digits are hexadecimal, otherwise decimal. */
  lemma UnsignedText(s: string, digits: seq<nat>, prefix: string)
    requires prefix in ["", "0x", "0X"]
    requires var base := if prefix == "" then 10 else 16;
      |digits| == |s| && forall i :: 0 <= i < |s| ==> DigitOf(s[i], base) == Ok(digits[i])
    ensures ParseText(prefix + s, false) == Ok(PlaceValue(digits, if prefix == "" then 10 else 16))
    ensures prefix + s == [] || (prefix + s)[0] != '-'
  {
    hide Parse, PlaceValue;
    if prefix == "" {
      ParseIsPlaceValue(s, digits, 10);
      assert prefix + s == s;
    } else {
      ParseIsPlaceValue(s, digits, 16);
      assert (prefix + s)[2..] == s;
    }
  }

  /** A whole text: an optional minus sign for signed types, 0x or 0X for base 16, and digits, of which there may be
      none and some may be leading zeros. */
  lemma ParseTextIs(s: string, digits: seq<nat>, prefix: string, negative: bool, signed: bool)
    requires prefix in ["", "0x", "0X"] && (negative ==> signed)
    requires var base := if prefix == "" then 10 else 16;
      |digits| == |s| && forall i :: 0 <= i < |s| ==> DigitOf(s[i], base) == Ok(digits[i])
    ensures var n := PlaceValue(digits, if prefix == "" then 10 else 16);
      ParseText((if negative then "-" else "") + (prefix + s), signed) == Ok(if negative then 0 - n else n)
  {
    hide ParseText, PlaceValue, DigitOf;
    UnsignedText(s, digits, prefix);
    var body := prefix + s;
    SignedText(body);
    if !negative {
      assert "" + body == body;
    }
  }

  // ----- Hexadecimal text -----

  /** The hexadecimal digits of n, as repeated division by sixteen gives them. */
  function Hex(n: nat, capitals: bool): string {
    var last := [if capitals then UPPER[n % 16] else LOWER[n % 16]];
    if n < 16 then last else Hex(n / 16, capitals) + last
  }

  lemma {:induction false} ParseInvertsHex(n: nat, capitals: bool)
    ensures Hex(n, capitals) != [] && Parse(Hex(n, capitals), 16) == Ok(n)
  {
    hide HexDigit;
    var s := Hex(n, capitals);
    HexDigitIs(s[|s| - 1], n % 16);
    if n < 16 {
      assert s[..0] == [];
      assert Parse(s[..0], 16) == Ok(0);
    } else {
      ParseInvertsHex(n / 16, capitals);
      assert s[..|s| - 1] == Hex(n / 16, capitals);
    }
  }

  /** The text of a number after 0x or 0X, with a minus sign in front of negative ones. */
  function HexText(x: int, capitals: bool, capitalX: bool): string {
    (if x < 0 then "-" else "") + (if capitalX then "0X" else "0x") + Hex(Abs(x), capitals)
  }

  /** Hexadecimal text denotes its number. */
  lemma ParseInvertsHexText(x: int, capitals: bool, capitalX: bool, signed: bool)
    requires signed || x >= 0
    ensures ParseText(HexText(x, capitals, capitalX), signed) == Ok(x)
  {
    hide Parse, Hex;
    var n := Abs(x);
    ParseInvertsHex(n, capitals);
    var prefix := if capitalX then "0X" else "0x";
    var body := prefix + Hex(n, capitals);
    assert body[2..] == Hex(n, capitals);
    assert HexText(x, capitals, capitalX) == if x < 0 then "-" + body else body;
    if x < 0 {
      assert ("-" + body)[1..] == body;
    }
  }

  /** from_str reads the hexadecimal text of every number of the type as that number. */
  method ReadHexText(x: int, capitals: bool, capitalX: bool, signed: bool, count: nat) returns (r: Result<seq<Limb>>)
    requires count >= 1 && count != 2 && (signed || x >= 0)
    ensures r.Ok? && |r.value| == count && Val(r.value) == x % Base(count)
    ensures InRange(x, Base(count), signed) ==> SVal(r.value, signed) == x
  {
    hide ParseText, HexText, Val, Base, SVal;
    ParseInvertsHexText(x, capitals, capitalX, signed);
    r := FromStr(HexText(x, capitals, capitalX), signed, count);
    if InRange(x, Base(count), signed) {
      SValUnique(r.value, signed, x);
    }
  }
}
