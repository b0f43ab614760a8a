/** writeUIntText and writeSIntText of base/base/itoa.cpp: 128- and 256-bit numbers, split into blocks of nine
    pairs of digits that are collected in a fixed scratch array. */
module ItoaWide {
  import opened Chars
  import opened Modular
  import opened Decimal
  import opened Itoa

  const BLOCK: nat := 1_000_000_000_000_000_000
  const TWO128: nat := TWO64 * TWO64
  const TWO256: nat := TWO128 * TWO128

  // ----- Pairs of digits, lowest first -----

  ghost predicate Hundreds(pairs: seq<nat>) {
    forall i :: 0 <= i < |pairs| ==> pairs[i] < 100
  }

  /** The number whose base-100 digits are the pairs. */
  ghost function Number(pairs: seq<nat>): nat {
    if pairs == [] then 0
    else Number(pairs[..|pairs| - 1]) + pairs[|pairs| - 1] * Pow10(2 * (|pairs| - 1))
  }

  /** The text that printing the pairs from the last to the first gives. */
  ghost function PairsText(pairs: seq<nat>): string {
    if pairs == [] then [] else Pad(pairs[|pairs| - 1], 2) + PairsText(pairs[..|pairs| - 1])
  }

  lemma NumberStep(pairs: seq<nat>, k: nat)
    requires k < |pairs|
    ensures Number(pairs[..k + 1]) == Number(pairs[..k]) + pairs[k] * Pow10(2 * k)
  {
    assert pairs[..k + 1][..k] == pairs[..k];
  }

  lemma PairsTextStep(pairs: seq<nat>, k: nat)
    requires Hundreds(pairs) && k < |pairs|
    ensures PairsText(pairs[..k + 1]) == Pad(pairs[k], 2) + PairsText(pairs[..k]) && |Pad(pairs[k], 2)| == 2
  {
    assert pairs[..k + 1][..k] == pairs[..k];
    PadLength(pairs[k], 2);
  }

  lemma NothingYet(pairs: seq<nat>)
    requires pairs == []
    ensures PairsText(pairs) == [] && Number(pairs) == 0
  {
  }

  lemma Hundredfold(k: nat)
    ensures Pow10(2 * (k + 1)) == 100 * Pow10(2 * k)
  {
  }

  lemma TopPair(d: nat, low: nat, p: nat)
    requires d < 100 && low < p
    ensures low + d * p < 100 * p
  {
    MulLe(d, 99, p);
    assert p * d == d * p;
  }

  /** The pairs print as the number they stand for, with all leading zeros. */
  lemma {:induction false} PairsTextIsPad(pairs: seq<nat>, k: nat)
    requires Hundreds(pairs) && k <= |pairs|
    ensures Number(pairs[..k]) < Pow10(2 * k)
    ensures PairsText(pairs[..k]) == Pad(Number(pairs[..k]), 2 * k)
    ensures |PairsText(pairs[..k])| == 2 * k
  {
    hide Pad, Pow10, Number, PairsText;
    if k == 0 {
      NothingYet(pairs[..k]);
      PadNone(0);
    } else {
      PairsTextIsPad(pairs, k - 1);
      NumberStep(pairs, k - 1);
      PairsTextStep(pairs, k - 1);
      Hundredfold(k - 1);
      TopPair(pairs[k - 1], Number(pairs[..k - 1]), Pow10(2 * (k - 1)));
      PadSplit(pairs[k - 1], Number(pairs[..k - 1]), 2, 2 * (k - 1));
    }
  }

  /** Zero pairs above k add nothing. */
  lemma {:induction false} NumberZeros(pairs: seq<nat>, k: nat, n: nat)
    requires k <= n <= |pairs| && forall i :: k <= i < n ==> pairs[i] == 0
    ensures Number(pairs[..n]) == Number(pairs[..k])
    decreases n
  {
    if k < n {
      NumberStep(pairs, n - 1);
      NumberZeros(pairs, k, n - 1);
    }
  }

  // ----- One block -----

  /** The scratch array after block blocks: zero beyond k, and value pairs below it. */
  ghost predicate Scratch(pairs: seq<nat>, k: nat, value: nat) {
    k <= |pairs| && Hundreds(pairs) && Number(pairs[..k]) == value && forall i :: k <= i < |pairs| ==> pairs[i] == 0
  }

  /** One more pair of the remainder. */
  lemma PairStored(pairs: seq<nat>, k: nat, value: nat, d: nat)
    requires k < |pairs| && d < 100 && Scratch(pairs, k, value)
    ensures Scratch(pairs[k := d], k + 1, value + d * Pow10(2 * k))
  {
    var next := pairs[k := d];
    NumberStep(next, k);
    assert next[..k] == pairs[..k];
  }

  lemma ScratchZeros(pairs: seq<nat>, k: nat, n: nat, value: nat)
    requires k <= n <= |pairs| && Scratch(pairs, k, value)
    ensures Scratch(pairs, n, value)
  {
    NumberZeros(pairs, k, n);
  }

  /** The inner loop: the pairs of one remainder, stopping as soon as only zeros are left. */
  method StoreBlock(two: array<nat>, block: nat, remainder: nat, ghost value: nat)
    requires block + 9 <= two.Length && remainder < BLOCK
    requires Scratch(two[..], block, value)
    modifies two
    ensures Scratch(two[..], block + 9, value + remainder * Pow10(2 * block))
  {
    hide Scratch, Pow10;
    var rest: nat := remainder;
    var pos: nat := block;
    ghost var v: nat := value;
    ghost var left: nat := 9;
    NinePairs();
    while rest != 0
      invariant block <= pos && pos + left == block + 9
      invariant rest < Pow10(2 * left)
      invariant Scratch(two[..], pos, v)
      invariant v + rest * Pow10(2 * pos) == value + remainder * Pow10(2 * block)
      decreases rest
    {
      SomeLeft(rest, left);
      ghost var before := two[..];
      var d: nat := rest % 100;
      two[pos] := d;
      PairStored(before, pos, v, d);
      assert two[..] == before[pos := d];
      ShiftPair(v, rest, pos);
      v := v + rest % 100 * Pow10(2 * pos);
      pos := pos + 1;
      left := left - 1;
      rest := rest / 100;
    }
    ScratchZeros(two[..], pos, block + 9, v);
  }

  lemma NinePairs()
    ensures Pow10(18) == BLOCK
  {
    assert Pow10(6) == 1000000;
    assert Pow10(12) == 1000000000000;
  }

  lemma SomeLeft(rest: nat, left: nat)
    requires 0 < rest < Pow10(2 * left)
    ensures left > 0 && rest / 100 < Pow10(2 * (left - 1))
  {
    if left > 0 {
      assert Pow10(2 * left) == 100 * Pow10(2 * (left - 1));
    }
  }

  lemma ShiftPair(v: nat, rest: nat, pos: nat)
    ensures v + rest % 100 * Pow10(2 * pos) + rest / 100 * Pow10(2 * (pos + 1)) == v + rest * Pow10(2 * pos)
  {
    var p := Pow10(2 * pos);
    assert Pow10(2 * (pos + 1)) == 100 * p;
    var d, q := rest % 100, rest / 100;
    assert rest == 100 * q + d;
    assert (100 * q + d) * p == q * (100 * p) + d * p;
  }

  // ----- All blocks -----

  /** The outer loop: cut off blocks while the number exceeds limit. The scratch array holds rounds blocks; that this is
      enough is what the precondition says of x. */
  method SplitBlocks(two: array<nat>, x0: nat, limit: nat, ghost rounds: nat) returns (x: nat, block: nat)
    requires x0 < (limit + 1) * Pow10(18 * rounds) && 9 * rounds <= two.Length && limit >= BLOCK
    requires forall i :: 0 <= i < two.Length ==> two[i] == 0
    modifies two
    ensures x <= limit && block <= two.Length && (x0 > 0 ==> x > 0)
    ensures Hundreds(two[..])
    ensures x0 == x * Pow10(2 * block) + Number(two[..block])
  {
    hide Pow10;
    x, block := x0, 0;
    ghost var left: nat := rounds;
    StartScratch(two[..]);
    ghost var v: nat := 0;
    Pow10Zero();
    hide Scratch;
    while x > limit
      invariant block + 9 * left == 9 * rounds
      invariant x < (limit + 1) * Pow10(18 * left) && (x0 > 0 ==> x > 0)
      invariant Scratch(two[..], block, v)
      invariant x0 == x * Pow10(2 * block) + v
      decreases x
    {
      MoreRounds(x, limit, left);
      StoreBlock(two, block, x % BLOCK, v);
      CutBlock(x, block);
      v := v + x % BLOCK * Pow10(2 * block);
      x := x / BLOCK;
      block := block + 9;
      left := left - 1;
    }
    ScratchMeans(two[..], block, v);
  }

  lemma Pow10Zero()
    ensures Pow10(0) == 1
  {
  }

  lemma StartScratch(pairs: seq<nat>)
    requires forall i :: 0 <= i < |pairs| ==> pairs[i] == 0
    ensures Scratch(pairs, 0, 0)
  {
    assert pairs[..0] == [];
  }

  lemma ScratchMeans(pairs: seq<nat>, k: nat, v: nat)
    requires Scratch(pairs, k, v)
    ensures k <= |pairs| && Hundreds(pairs) && Number(pairs[..k]) == v
  {
  }

  lemma {:induction false} Pow10Add(a: nat, b: nat)
    ensures Pow10(a + b) == Pow10(a) * Pow10(b)
  {
    if b > 0 {
      Pow10Add(a, b - 1);
      MulAssoc(10, Pow10(a), Pow10(b - 1));
      assert Pow10(a + b) == 10 * Pow10(a + (b - 1));
      assert Pow10(b) == 10 * Pow10(b - 1);
      assert Pow10(a) * (10 * Pow10(b - 1)) == 10 * (Pow10(a) * Pow10(b - 1));
    }
  }

  lemma MoreRounds(x: nat, limit: nat, left: nat)
    requires limit < x < (limit + 1) * Pow10(18 * left) && limit >= BLOCK
    ensures left > 0 && 0 < x / BLOCK < (limit + 1) * Pow10(18 * (left - 1))
  {
    hide Pow10;
    if left == 0 {
      Pow10Zero();
      assert false;
    }
    Pow10Add(18 * (left - 1), 18);
    NinePairs();
    var p := Pow10(18 * (left - 1));
    assert (limit + 1) * (p * BLOCK) == (limit + 1) * p * BLOCK;
  }

  lemma CutBlock(x: nat, block: nat)
    ensures x / BLOCK * Pow10(2 * (block + 9)) + x % BLOCK * Pow10(2 * block) == x * Pow10(2 * block)
  {
    hide Pow10;
    NinePairs();
    Pow10Add(2 * block, 18);
    var p, q, r := Pow10(2 * block), x / BLOCK, x % BLOCK;
    assert x == BLOCK * q + r;
    assert (BLOCK * q + r) * p == q * (p * BLOCK) + r * p;
  }

  /** The last loop: the collected pairs from the highest down. */
  method PrintPairs(buf: array<char>, p: nat, two: array<nat>, block: nat) returns (e: nat)
    requires block <= two.Length && Hundreds(two[..]) && p + 2 * block <= buf.Length
    modifies buf
    ensures |PairsText(two[..block])| == 2 * block
    ensures e == p + 2 * block && buf[..] == Put(old(buf[..]), p, PairsText(two[..block]))
  {
    hide PairsText, Pad, Put;
    ghost var pairs := two[..];
    ghost var s := buf[..];
    PairsTextIsPad(pairs, block);
    assert pairs[..block] == two[..block];
    ghost var done: string := [];
    PutNone(s, p);
    e := p;
    for i := 0 to block
      invariant two[..] == pairs && e == p + 2 * i && |done| == 2 * i
      invariant buf[..] == Put(s, p, done)
      invariant PairsText(pairs[..block]) == done + PairsText(pairs[..block - i])
    {
      ghost var k := block - 1 - i;
      PairsTextStep(pairs, k);
      PutPair(buf, e, Pad(two[block - 1 - i], 2));
      PutPut(s, p, done, Pad(pairs[k], 2));
      done := done + Pad(pairs[k], 2);
      e := e + 2;
    }
    NothingYet(pairs[..0]);
    assert done + [] == done;
  }

  // ----- writeUIntText and writeSIntText -----

  /** The high part printed in front of the pairs is the whole number. */
  lemma BlocksText(x0: nat, x: nat, pairs: seq<nat>)
    requires x > 0 && Hundreds(pairs) && x0 == x * Pow10(2 * |pairs|) + Number(pairs)
    ensures Dec(x0) == Dec(x) + PairsText(pairs) && |PairsText(pairs)| == 2 * |pairs|
  {
    PairsTextIsPad(pairs, |pairs|);
    assert pairs[..|pairs|] == pairs;
    DecSplit(x, Number(pairs), 2 * |pairs|);
  }

  lemma EnoughFor128()
    ensures TWO128 <= TWO64 * Pow10(18 * 2)
  {
    NinePairs();
    Pow10Add(18, 18);
  }

  lemma EnoughFor256()
    ensures TWO256 <= TWO128 * Pow10(18 * 3)
  {
    NinePairs();
    Pow10Add(18, 18);
    Pow10Add(36, 18);
  }

  method WriteUInt128(buf: array<char>, p: nat, x0: nat) returns (e: nat)
    requires x0 < TWO128 && p + |Dec(x0)| <= buf.Length
    modifies buf
    ensures e == p + |Dec(x0)| && buf[..] == Put(old(buf[..]), p, Dec(x0))
  {
    hide Dec, Put, Pow10, PairsText, Number;
    if x0 / TWO64 == 0 {
      e := Digits(buf, p, x0 % TWO64, 8);
      return;
    }
    EnoughFor128();
    ghost var s := buf[..];
    var two := new nat[20](i => 0);
    var x, block := SplitBlocks(two, x0, TWO64 - 1, 2);
    ghost var pairs := two[..block];
    assert two[..][..block] == pairs;
    BlocksText(x0, x, pairs);
    e := Digits(buf, p, x, 8);
    e := PrintPairs(buf, e, two, block);
    PutPut(s, p, Dec(x), PairsText(pairs));
  }

  method WriteUInt256(buf: array<char>, p: nat, x0: nat) returns (e: nat)
    requires x0 < TWO256 && p + |Dec(x0)| <= buf.Length
    modifies buf
    ensures e == p + |Dec(x0)| && buf[..] == Put(old(buf[..]), p, Dec(x0))
  {
    hide Dec, Put, Pow10, PairsText, Number;
    if x0 / TWO128 == 0 {
      e := WriteUInt128(buf, p, x0 % TWO128);
      return;
    }
    EnoughFor256();
    ghost var s := buf[..];
    var two := new nat[39](i => 0);
    var x, block := SplitBlocks(two, x0, TWO128 - 1, 3);
    ghost var pairs := two[..block];
    assert two[..][..block] == pairs;
    BlocksText(x0, x, pairs);
    e := WriteUInt128(buf, p, x);
    e := PrintPairs(buf, e, two, block);
    PutPut(s, p, Dec(x), PairsText(pairs));
  }

  /** The digits the source stores for the most negative value, which cannot be negated. */
  function MinDigits(bits: nat): string {
    if bits == 128 then "170141183" + "4604692317" + "3168730371" + "5884105728"
    else
      "5789604" + "4618658097" + "7117854925" + "0434395392" + "6634992332" + "8202820197" + "2879200395" + "6564819968"
  }

  function DigitAt(t: string, i: nat): (d: nat)
    requires i < |t| && IsDigit(t[i])
    ensures d < 10
  {
    t[i] as int - '0' as int
  }

  /** u followed by the first k digits of t. */
  function Spell(u: nat, t: string, k: nat): nat
    requires k <= |t| && AllDigits(t)
  {
    if k == 0 then u else 10 * Spell(u, t, k - 1) + DigitAt(t, k - 1)
  }

  predicate AllDigits(t: string) {
    forall i :: 0 <= i < |t| ==> IsDigit(t[i])
  }

  lemma DigitChar(t: string, i: nat)
    requires i < |t| && IsDigit(t[i])
    ensures Digit(DigitAt(t, i)) == t[i]
  {
    assert Digit(DigitAt(t, i)) as int == t[i] as int;
  }

  lemma DecOneMore(u: nat, d: nat)
    requires u > 0 && d < 10
    ensures Dec(10 * u + d) == Dec(u) + [Digit(d)]
  {
    hide Dec, Digit;
    assert (10 * u + d) / 10 == u && (10 * u + d) % 10 == d;
    DecStep(10 * u + d);
  }

  lemma {:induction false} SpellText(u: nat, t: string, k: nat)
    requires u > 0 && k <= |t| && AllDigits(t)
    ensures Spell(u, t, k) > 0 && Dec(Spell(u, t, k)) == Dec(u) + t[..k]
  {
    hide Dec, Digit, DigitAt;
    if k > 0 {
      SpellText(u, t, k - 1);
      assert IsDigit(t[k - 1]);
      DecOneMore(Spell(u, t, k - 1), DigitAt(t, k - 1));
      DigitChar(t, k - 1);
      assert t[..k] == t[..k - 1] + [t[k - 1]];
    }
  }

  /** Ten more digits. */
  lemma AppendTen(u: nat, t: string)
    requires u > 0 && |t| == 10 && AllDigits(t)
    ensures Dec(10000000000 * u + TenValue(t)) == Dec(u) + t
  {
    SpellText(u, t, 10);
    hide Dec, DigitAt, AllDigits;
    assert t[..10] == t;
    assert Spell(u, t, 0) == u;
    hide Spell;
    SpellTwo(u, t, 0);
    SpellTwo(u, t, 2);
    SpellTwo(u, t, 4);
    SpellTwo(u, t, 6);
    SpellTwo(u, t, 8);
  }

  lemma SpellTwo(u: nat, t: string, k: nat)
    requires k + 2 <= |t| && AllDigits(t)
    ensures IsDigit(t[k]) && IsDigit(t[k + 1])
    ensures Spell(u, t, k + 2) == 100 * Spell(u, t, k) + 10 * DigitAt(t, k) + DigitAt(t, k + 1)
  {
    assert Spell(u, t, k + 2) == 10 * Spell(u, t, k + 1) + DigitAt(t, k + 1);
  }

  function TenValue(t: string): nat
    requires |t| == 10 && AllDigits(t)
  {
    1000000000 * DigitAt(t, 0) + 100000000 * DigitAt(t, 1) + 10000000 * DigitAt(t, 2) + 1000000 * DigitAt(t, 3)
    + 100000 * DigitAt(t, 4) + 10000 * DigitAt(t, 5) + 1000 * DigitAt(t, 6) + 100 * DigitAt(t, 7)
    + 10 * DigitAt(t, 8) + DigitAt(t, 9)
  }

  lemma Min128Digits()
    ensures "170141183" + "4604692317" + "3168730371" + "5884105728" == Dec(170141183460469231731687303715884105728)
  {
    hide Dec;
    Min128DigitsHead();
    AppendTen(170141183, "4604692317");
    AppendTen(1701411834604692317, "3168730371");
    AppendTen(17014118346046923173168730371, "5884105728");
  }

  lemma Min128DigitsHead()
    ensures Dec(170141183) == "170141183"
  {
    SpellText(1, "70141183", 8);
    assert Spell(1, "70141183", 4) == 17014;
    assert "70141183"[..8] == "70141183";
    OneDigit(1);
  }

  lemma Min256Digits()
    ensures MinDigits(256) == Dec(57896044618658097711785492504343953926634992332820282019728792003956564819968)
  {
    hide Dec;
    Min256DigitsFirst();
    AppendTen(5789604461865809771178549250434395392, "6634992332");
    AppendTen(57896044618658097711785492504343953926634992332, "8202820197");
    AppendTen(578960446186580977117854925043439539266349923328202820197, "2879200395");
    AppendTen(5789604461865809771178549250434395392663499233282028201972879200395, "6564819968");
  }

  lemma Min256DigitsFirst()
    ensures "5789604" + "4618658097" + "7117854925" + "0434395392" == Dec(5789604461865809771178549250434395392)
  {
    hide Dec;
    Min256DigitsHead();
    AppendTen(5789604, "4618658097");
    AppendTen(57896044618658097, "7117854925");
    AppendTen(578960446186580977117854925, "0434395392");
  }

  lemma Min256DigitsHead()
    ensures Dec(5789604) == "5789604"
  {
    SpellText(5, "789604", 6);
    assert Spell(5, "789604", 4) == 57896;
    assert "789604"[..6] == "789604";
    OneDigit(5);
  }

  lemma MinDigitsRight(bits: nat)
    requires bits in {128, 256}
    ensures MinDigits(bits) == Dec((if bits == 128 then TWO128 else TWO256) / 2)
  {
    hide Dec;
    Min128Digits();
    Min256Digits();
  }

  method WriteText(buf: array<char>, p: nat, text: string) returns (e: nat)
    requires p + |text| <= buf.Length
    modifies buf
    ensures e == p + |text| && buf[..] == Put(old(buf[..]), p, text)
  {
    e := p + |text|;
    ghost var s := buf[..];
    forall i | 0 <= i < |text| {
      buf[p + i] := text[i];
    }
    assert buf[..] == Put(s, p, text);
  }

  /** writeSIntText prints every value of the signed type, the most negative one included. */
  method WriteSInt(buf: array<char>, pos: nat, x: int, bits: nat) returns (e: nat)
    requires bits in {128, 256} && pos + |Text(x)| <= buf.Length
    requires var half := (if bits == 128 then TWO128 else TWO256) / 2; 0 - half <= x < half
    modifies buf
    ensures e == pos + |Text(x)| && buf[..] == Put(old(buf[..]), pos, Text(x))
  {
    hide Dec, Put, MinDigits;
    var half := (if bits == 128 then TWO128 else TWO256) / 2;
    if x == 0 - half {
      MinDigitsRight(bits);
      e := WriteText(buf, pos, "-" + MinDigits(bits));
      return;
    }
    ghost var s := buf[..];
    var n, p := x, pos;
    if x < 0 {
      n := 0 - x;
      p := WriteText(buf, pos, "-");
    }
    if bits == 128 {
      e := WriteUInt128(buf, p, n);
    } else {
      e := WriteUInt256(buf, p, n);
    }
    if x < 0 {
      PutPut(s, pos, "-", Dec(n));
    }
  }
}
