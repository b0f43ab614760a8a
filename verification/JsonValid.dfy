/** On a well-formed text the skip functions stop exactly behind the element, as long as the depth budget allows and no
    exponent has a plus sign. */
module JsonValid {
  import opened Wrappers
  import opened Chars
  import opened Json
  import opened JsonSkip

  /** The text t stands at position p. */
  predicate Here(s: string, p: nat, t: string) {
    p + |t| <= |s| && s[p..p + |t|] == t
  }

  lemma HereSplit(s: string, p: nat, t: string, u: string)
    requires Here(s, p, t + u)
    ensures Here(s, p, t) && Here(s, p + |t|, u)
  {
    assert (t + u)[..|t|] == t && (t + u)[|t|..] == u;
    assert s[p..p + |t + u|][..|t|] == s[p..p + |t|];
  }

  lemma HereChar(s: string, p: nat, c: char, u: string)
    requires Here(s, p, [c] + u)
    ensures p < |s| && s[p] == c && Here(s, p + 1, u)
  {
    HereSplit(s, p, [c], u);
    assert s[p] == s[p..p + 1][0];
  }

  lemma HereOne(s: string, p: nat, t: string, c: char)
    requires t == [c] && Here(s, p, t)
    ensures p < |s| && s[p] == c
  {
    assert s[p] == s[p..p + 1][0];
  }

  /** What may follow an element in a well-formed text. */
  predicate Follows(s: string, q: nat) {
    q == |s| || (q < |s| && s[q] in {',', ']', '}'})
  }

  // ----- Strings -----

  lemma {:induction false} SlowPath(ps: seq<Piece>, s: string, p: nat)
    requires ValidPieces(ps) && Here(s, p, PiecesText(ps) + "\"")
    ensures SlowEnd(s, p) == Ok(p + |PiecesText(ps)| + 1)
  {
    hide Here, SlowEnd;
    if ps == [] {
      HereOne(s, p, PiecesText(ps) + "\"", '"');
      SlowQuote(s, p);
    } else {
      PieceHere(ps, s, p);
      SlowPiece(ps[0], s, p);
      SlowPath(ps[1..], s, p + |PieceText(ps[0])|);
    }
  }

  lemma SlowQuote(s: string, p: nat)
    requires p < |s| && s[p] == '"'
    ensures SlowEnd(s, p) == Ok(p + 1)
  {
  }

  /** The slow path takes a piece in one step. */
  lemma SlowPiece(piece: Piece, s: string, p: nat)
    requires ValidPiece(piece) && p + |PieceText(piece)| < |s|
    requires forall i :: 0 <= i < |PieceText(piece)| ==> s[p + i] == PieceText(piece)[i]
    ensures SlowEnd(s, p) == SlowEnd(s, p + |PieceText(piece)|)
  {
    var t := PieceText(piece);
    assert s[p + 0] == t[0];
    if !piece.Plain? {
      assert s[p + 1] == t[1];
    }
  }

  /** The characters of the first piece, and the rest after it. */
  lemma PieceHere(ps: seq<Piece>, s: string, p: nat)
    requires ValidPieces(ps) && ps != [] && Here(s, p, PiecesText(ps) + "\"")
    ensures ValidPiece(ps[0]) && Here(s, p, PieceText(ps[0])) && p + |PieceText(ps[0])| < |s|
    ensures Here(s, p + |PieceText(ps[0])|, PiecesText(ps[1..]) + "\"")
    ensures |PieceText(ps[0])| >= 1 && |PiecesText(ps)| == |PieceText(ps[0])| + |PiecesText(ps[1..])|
    ensures forall i :: 0 <= i < |PieceText(ps[0])| ==> s[p + i] == PieceText(ps[0])[i]
  {
    var t, rest := PieceText(ps[0]), PiecesText(ps[1..]) + "\"";
    assert PiecesText(ps) + "\"" == t + rest;
    HereSplit(s, p, t, rest);
    forall i | 0 <= i < |t| ensures s[p + i] == t[i] {
      assert s[p + i] == s[p..p + |t|][i];
    }
  }

  lemma AtQuote(s: string, p: nat)
    requires p < |s| && s[p] == '"'
    ensures FirstQuote(s, p) == p
  {
  }

  lemma {:induction false} NoQuotes(s: string, p: nat, q: nat)
    requires p <= q <= |s| && forall i :: p <= i < q ==> s[i] != '"'
    ensures FirstQuote(s, p) == FirstQuote(s, q)
    decreases q - p
  {
    if p < q {
      NoQuotes(s, p + 1, q);
    }
  }

  /** The first piece either holds no quote, or is an escaped one. */
  lemma PieceQuote(piece: Piece, s: string, p: nat)
    requires ValidPiece(piece) && p + |PieceText(piece)| <= |s|
    requires forall i :: 0 <= i < |PieceText(piece)| ==> s[p + i] == PieceText(piece)[i]
    ensures FirstQuote(s, p) == FirstQuote(s, p + |PieceText(piece)|)
         || (FirstQuote(s, p) == p + 1 && s[p] == '\\')
  {
    var t := PieceText(piece);
    assert s[p + 0] == t[0] != '"';
    NoQuotes(s, p, p + 1);
    if piece == Escape('"') {
      assert s[p + 1] == t[1];
      AtQuote(s, p + 1);
    } else {
      forall i | p <= i < p + |t| ensures s[i] != '"' {
        assert s[p + (i - p)] == t[i - p];
      }
      NoQuotes(s, p, p + |t|);
    }
  }

  /** The first quote is the closing one, unless a backslash stands before it. */
  lemma {:induction false} FastPath(ps: seq<Piece>, s: string, p: nat)
    requires ValidPieces(ps) && p > 0 && Here(s, p, PiecesText(ps) + "\"")
    ensures var q := FirstQuote(s, p);
      q < |s| && (q == p + |PiecesText(ps)| || s[q - 1] == '\\')
  {
    hide FirstQuote, Here;
    if ps == [] {
      HereOne(s, p, PiecesText(ps) + "\"", '"');
      AtQuote(s, p);
    } else {
      PieceHere(ps, s, p);
      PieceQuote(ps[0], s, p);
      FastPath(ps[1..], s, p + |PieceText(ps[0])|);
    }
  }

  /** Both paths find the end of a string literal. */
  lemma StringValid(ps: seq<Piece>, s: string, p: nat)
    requires ValidPieces(ps) && Here(s, p, Quoted(ps))
    ensures StringEnd(s, p) == Ok(p + |Quoted(ps)|) == SlowEnd(s, p + 1)
  {
    hide PiecesText, ValidPieces, FirstQuote, SlowEnd;
    assert Quoted(ps) == ['"'] + (PiecesText(ps) + "\"");
    HereChar(s, p, '"', PiecesText(ps) + "\"");
    hide Here;
    SlowPath(ps, s, p + 1);
    FastPath(ps, s, p + 1);
  }

  // ----- Numbers -----

  lemma {:induction false} DigitsValid(t: string, s: string, p: nat)
    requires Here(s, p, t) && forall i :: 0 <= i < |t| ==> IsDigit(t[i])
    requires p + |t| == |s| || !IsDigit(s[p + |t|])
    ensures DigitsEnd(s, p) == p + |t|
  {
    if t != [] {
      assert t == [t[0]] + t[1..];
      HereChar(s, p, t[0], t[1..]);
      DigitsValid(t[1..], s, p + 1);
    }
  }

  /** No part of a number starts at q. */
  predicate Stops(s: string, q: nat) {
    q == |s| || (q < |s| && !IsDigit(s[q]) && s[q] !in {'.', 'e', 'E', '-'})
  }

  lemma ExponentParts(e: Exponent, s: string, p: nat)
    requires e.Exponent? && Digits(e.digits) && Here(s, p, ExponentText(e))
    ensures p < |s| && s[p] == e.letter && Here(s, p + 1, e.sign + e.digits)
    ensures |ExponentText(e)| == 1 + |e.sign| + |e.digits|
  {
    assert ExponentText(e) == [e.letter] + (e.sign + e.digits);
    HereChar(s, p, e.letter, e.sign + e.digits);
  }

  /** An optional minus sign stands at p, with a digit after it. */
  predicate SignHere(minus: bool, s: string, p: nat) {
    var q := p + |Sign(minus)|;
    q < |s| && IsDigit(s[q]) && (minus ==> s[p] == '-')
  }

  lemma SignParts(minus: bool, t: string, s: string, p: nat)
    requires Digits(t) && Here(s, p, Sign(minus) + t)
    ensures SignHere(minus, s, p) && Here(s, p + |Sign(minus)|, t)
  {
    HereSplit(s, p, Sign(minus), t);
    FirstDigit(t, s, p + |Sign(minus)|);
    if minus {
      HereOne(s, p, Sign(minus), '-');
    }
  }

  lemma PastSign(minus: bool, s: string, p: nat)
    requires SignHere(minus, s, p)
    ensures Past(s, p, {'-'}) == p + |Sign(minus)|
  {
  }

  lemma ExponentValid(e: Exponent, s: string, p: nat)
    requires ValidExponent(e) && !HasPlus(e)
    requires Here(s, p, ExponentText(e)) && Stops(s, p + |ExponentText(e)|)
    ensures DigitsEnd(s, Past(s, Past(s, p, {'e', 'E'}), {'-'})) == p + |ExponentText(e)|
    ensures p == |s| || (p < |s| && !IsDigit(s[p]) && s[p] != '.')
  {
    hide Here, DigitsEnd, Digits, Past;
    if e.NoExponent? {
      PastNothing(s, p);
    } else {
      SignedExponent(e, e.sign == "-", s, p);
    }
  }

  lemma SignedExponent(e: Exponent, minus: bool, s: string, p: nat)
    requires e.Exponent? && ValidExponent(e) && e.sign == Sign(minus)
    requires Here(s, p, ExponentText(e)) && Stops(s, p + |ExponentText(e)|)
    ensures DigitsEnd(s, Past(s, Past(s, p, {'e', 'E'}), {'-'})) == p + |ExponentText(e)|
    ensures p < |s| && !IsDigit(s[p]) && s[p] != '.'
  {
    hide Here, DigitsEnd, Digits, SignHere, Past, ExponentText, Sign, IsDigit;
    ExponentParts(e, s, p);
    PastLetter(s, p);
    SignParts(minus, e.digits, s, p + 1);
    PastSign(minus, s, p + 1);
    RunOfDigits(e.digits, s, p + 1 + |Sign(minus)|);
  }

  lemma PastNothing(s: string, p: nat)
    requires Stops(s, p)
    ensures DigitsEnd(s, Past(s, Past(s, p, {'e', 'E'}), {'-'})) == p
  {
    hide DigitsEnd;
    NoDigits(s, p);
  }

  lemma PastLetter(s: string, p: nat)
    requires p < |s| && s[p] in {'e', 'E'}
    ensures Past(s, p, {'e', 'E'}) == p + 1 && !IsDigit(s[p]) && s[p] != '.'
  {
  }

  lemma NoDigits(s: string, p: nat)
    requires p == |s| || (p < |s| && !IsDigit(s[p]))
    ensures DigitsEnd(s, p) == p
  {
  }

  lemma RunOfDigits(t: string, s: string, p: nat)
    requires Digits(t) && Here(s, p, t) && (p + |t| == |s| || (p + |t| < |s| && !IsDigit(s[p + |t|])))
    ensures DigitsEnd(s, p) == p + |t|
  {
    DigitsValid(t, s, p);
  }

  lemma FirstDigit(t: string, s: string, p: nat)
    requires Digits(t) && Here(s, p, t)
    ensures p < |s| && IsDigit(s[p])
  {
    assert s[p] == s[p..p + |t|][0];
  }

  lemma FractionValid(fraction: string, e: Exponent, s: string, p: nat)
    requires (fraction == "" || Digits(fraction)) && ValidExponent(e) && !HasPlus(e)
    requires Here(s, p, FractionText(fraction) + ExponentText(e))
    requires Stops(s, p + |FractionText(fraction) + ExponentText(e)|)
    ensures var p2 := DigitsEnd(s, Past(s, p, {'.'}));
      DigitsEnd(s, Past(s, Past(s, p2, {'e', 'E'}), {'-'})) == p + |FractionText(fraction) + ExponentText(e)|
    ensures p == |s| || (p < |s| && !IsDigit(s[p]))
  {
    hide Here, DigitsEnd, Digits, FractionText, ExponentText, Past, Stops, ValidExponent, HasPlus, IsDigit;
    HereSplit(s, p, FractionText(fraction), ExponentText(e));
    ExponentValid(e, s, p + |FractionText(fraction)|);
    FractionDigits(fraction, s, p);
  }

  /** The fraction ends where something other than a digit or a point follows. */
  lemma FractionDigits(fraction: string, s: string, p: nat)
    requires (fraction == "" || Digits(fraction)) && Here(s, p, FractionText(fraction))
    requires var q := p + |FractionText(fraction)|; q == |s| || (q < |s| && !IsDigit(s[q]) && s[q] != '.')
    ensures DigitsEnd(s, Past(s, p, {'.'})) == p + |FractionText(fraction)|
    ensures p == |s| || (p < |s| && !IsDigit(s[p]))
  {
    hide Here, DigitsEnd, Digits;
    if fraction == "" {
      NoDigits(s, p);
    } else {
      assert FractionText(fraction) == ['.'] + fraction;
      HereChar(s, p, '.', fraction);
      RunOfDigits(fraction, s, p + 1);
    }
  }

  lemma NumberValid(v: Value, s: string, p: nat)
    requires v.Number? && Readable(v) && Here(s, p, Text(v)) && Stops(s, p + |Text(v)|)
    ensures NumberEnd(s, p) == p + |Text(v)|
    ensures p < |s| && (IsDigit(s[p]) || s[p] == '-')
  {
    hide Here, DigitsEnd, Digits, ExponentText, FractionText, SignHere;
    var rest := FractionText(v.fraction) + ExponentText(v.exponent);
    NumberParts(v, s, p);
    PastSign(v.minus, s, p);
    assert IsDigit(s[p]) || s[p] == '-' by {
      SignStarts(v.minus, s, p);
    }
    hide Sign;
    var q := p + |Sign(v.minus)|;
    FractionValid(v.fraction, v.exponent, s, q + |v.whole|);
    RunOfDigits(v.whole, s, q);
  }

  lemma SignStarts(minus: bool, s: string, p: nat)
    requires SignHere(minus, s, p)
    ensures p < |s| && (IsDigit(s[p]) || s[p] == '-')
  {
  }

  lemma NumberParts(v: Value, s: string, p: nat)
    requires v.Number? && Digits(v.whole) && Here(s, p, Text(v))
    ensures SignHere(v.minus, s, p)
    ensures var q, rest := p + |Sign(v.minus)|, FractionText(v.fraction) + ExponentText(v.exponent);
      && Here(s, q, v.whole) && Here(s, q + |v.whole|, rest)
      && |Text(v)| == |Sign(v.minus)| + |v.whole| + |rest|
  {
    hide ExponentText, FractionText;
    var rest := FractionText(v.fraction) + ExponentText(v.exponent);
    assert Text(v) == (Sign(v.minus) + v.whole) + rest;
    HereSplit(s, p, Sign(v.minus) + v.whole, rest);
    SignParts(v.minus, v.whole, s, p);
  }

  // ----- Elements -----

  /** The outcome at a level: the end, or an error when the element needs more levels than are left. */
  function Expected(level: nat, need: nat, end: nat): Result<nat> {
    if level + need <= MAX_DEPTH then Ok(end) else Err(TOO_DEEP)
  }

  function KindOf(v: Value): ElementType {
    match v
    case Null => NullType
    case True => BoolType
    case False => BoolType
    case Number(_, _, _, _) => NumberType
    case Str(_) => StringType
    case Array(_) => ArrayType
    case Object(_) => ObjectType
  }

  lemma HereFirst(s: string, p: nat, t: string)
    requires Here(s, p, t) && |t| > 0
    ensures p < |s| && s[p] == t[0]
  {
    assert s[p] == s[p..p + |t|][0];
  }

  /** Elements without children. */
  lemma ScalarValid(v: Value, s: string, p: nat, level: nat)
    requires !v.Array? && !v.Object? && Readable(v) && level <= MAX_DEPTH
    requires Here(s, p, Text(v)) && Follows(s, p + |Text(v)|)
    ensures p < |s| && TypeAt(s, p) == Ok(KindOf(v)) && ElementEnd(s, p, level) == Ok(p + |Text(v)|)
  {
    hide Here, Text, NumberEnd, StringEnd, Readable, TypeAt, ElementEnd;
    match v {
      case Number(_, _, _, _) =>
        NumberValid(v, s, p);
        NumberElement(s, p, level);
      case Str(ps) =>
        StringParts(v, s, p);
        StringElement(s, p, level, p + |Text(v)|);
      case _ =>
        LiteralValid(v, s, p, level);
    }
  }

  lemma LiteralValid(v: Value, s: string, p: nat, level: nat)
    requires (v.Null? || v.True? || v.False?) && level <= MAX_DEPTH && Here(s, p, Text(v))
    ensures p < |s| && TypeAt(s, p) == Ok(KindOf(v)) && ElementEnd(s, p, level) == Ok(p + |Text(v)|)
  {
    hide Here, PairEnd, ContainerEnd, StringEnd, NumberEnd;
    HereFirst(s, p, Text(v));
  }

  lemma NumberElement(s: string, p: nat, level: nat)
    requires p < |s| && (IsDigit(s[p]) || s[p] == '-') && level <= MAX_DEPTH
    ensures TypeAt(s, p) == Ok(NumberType) && ElementEnd(s, p, level) == Ok(NumberEnd(s, p))
  {
    hide PairEnd, ContainerEnd, StringEnd, NumberEnd;
  }

  lemma StringElement(s: string, p: nat, level: nat, q: nat)
    requires p < |s| && s[p] == '"' && StringEnd(s, p) == Ok(q) && Follows(s, q) && level <= MAX_DEPTH
    ensures TypeAt(s, p) == Ok(StringType) && ElementEnd(s, p, level) == Ok(q)
  {
    hide PairEnd, ContainerEnd, StringEnd, NumberEnd;
  }

  lemma ContainerElement(s: string, p: nat, level: nat, named: bool)
    requires p + 1 < |s| && level <= MAX_DEPTH && TypeAt(s, p) == Ok(if named then ObjectType else ArrayType)
    ensures ElementEnd(s, p, level)
         == if s[p + 1] == Closing(named) then Ok(p + 2) else BodyEnd(s, p + 1, level, named)
  {
    hide PairEnd, BodyEnd, StringEnd, NumberEnd, TypeAt;
  }

  function Skipped(s: string, p: nat, level: nat, named: bool): Result<nat>
    requires p < |s| && level <= MAX_DEPTH
  {
    if named then PairEnd(s, p, level) else ElementEnd(s, p, level)
  }

  /** One round of the loop over the children. */
  lemma BodyStep(s: string, p: nat, level: nat, named: bool)
    requires p < |s| && level < MAX_DEPTH
    ensures var child, end := Skipped(s, p, level + 1, named), BodyEnd(s, p, level, named);
      && (child.Err? ==> end == child)
      && (child.Ok? && child.value < |s| ==>
            && (s[child.value] == ',' ==> end == BodyEnd(s, child.value + 1, level, named))
            && (s[child.value] == Closing(named) ==> end == Ok(child.value + 1))
            && (s[child.value] != ',' && s[child.value] != Closing(named) ==> end.Err?))
  {
    hide PairEnd, ElementEnd;
  }

  lemma BodyTooDeep(s: string, p: nat, named: bool)
    requires p < |s|
    ensures BodyEnd(s, p, MAX_DEPTH, named) == Err(TOO_DEEP)
  {
    hide PairEnd, ElementEnd;
  }

  lemma StringParts(v: Value, s: string, p: nat)
    requires v.Str? && Readable(v) && Here(s, p, Text(v))
    ensures p < |s| && s[p] == '"' && StringEnd(s, p) == Ok(p + |Text(v)|)
  {
    HereFirst(s, p, Text(v));
    StringValid(v.pieces, s, p);
  }

  /** A name with its colon and value. */
  lemma PairParts(name: seq<Piece>, text: string, s: string, p: nat)
    requires ValidPieces(name) && Here(s, p, Quoted(name) + ":" + text)
    ensures p < |s| && TypeAt(s, p) == Ok(PairType)
    ensures var q := p + |Quoted(name)|; StringEnd(s, p) == Ok(q) && q < |s| && s[q] == ':' && Here(s, q + 1, text)
  {
    PairSplit(Quoted(name), text, s, p);
    hide Here, Quoted, StringEnd, ValidPieces;
    StringValid(name, s, p);
  }

  lemma PairSplit(quoted: string, text: string, s: string, p: nat)
    requires Here(s, p, quoted + ":" + text) && |quoted| > 0
    ensures Here(s, p, quoted) && p < |s| && s[p] == quoted[0]
    ensures var q := p + |quoted|; q < |s| && s[q] == ':' && Here(s, q + 1, text)
  {
    assert quoted + ":" + text == quoted + ([':'] + text);
    hide Here;
    HereSplit(s, p, quoted, [':'] + text);
    HereChar(s, p + |quoted|, ':', text);
    HereFirst(s, p, quoted);
  }

  /** skipElement returns exactly the position after a readable element, whatever may follow it, when the element fits
      the depth budget, and fails with the depth error otherwise. */
  lemma {:induction false} ElementValid(v: Value, s: string, p: nat, level: nat)
    requires Readable(v) && level <= MAX_DEPTH && Here(s, p, Text(v)) && Follows(s, p + |Text(v)|)
    ensures p < |s| && TypeAt(s, p) == Ok(KindOf(v))
    ensures ElementEnd(s, p, level) == Expected(level, Need(v), p + |Text(v)|)
    decreases v, Count(v) + 1, 1
  {
    if Container(v) {
      ContainerValid(v, s, p, level);
    } else {
      ScalarValid(v, s, p, level);
    }
  }

  predicate Container(v: Value) {
    v.Array? || v.Object?
  }

  lemma ContainerParts(v: Value, s: string, p: nat)
    requires Container(v) && Here(s, p, Text(v))
    ensures p < |s| && TypeAt(s, p) == Ok(KindOf(v)) && Here(s, p + 1, Body(v, 0) + [Closing(v.Object?)])
    ensures |Text(v)| == |Body(v, 0)| + 2
  {
    hide Body;
    var rest := Body(v, 0) + [Closing(v.Object?)];
    assert Text(v) == [if v.Object? then '{' else '['] + rest;
    HereChar(s, p, if v.Object? then '{' else '[', rest);
  }

  lemma {:induction false} ContainerValid(v: Value, s: string, p: nat, level: nat)
    requires Container(v) && Readable(v) && level <= MAX_DEPTH && Here(s, p, Text(v))
    ensures p < |s| && TypeAt(s, p) == Ok(KindOf(v))
    ensures ElementEnd(s, p, level) == Expected(level, Need(v), p + |Text(v)|)
    decreases v, Count(v) + 1, 0
  {
    hide Here, Text, TypeAt, BodyEnd, ElementEnd, BodyNeed, Readable;
    ContainerParts(v, s, p);
    if Count(v) == 0 {
      EmptyBody(v);
      HereOne(s, p + 1, Body(v, 0) + [Closing(v.Object?)], Closing(v.Object?));
    } else {
      BodyValid(v, 0, s, p + 1, level);
    }
    ContainerElement(s, p, level, v.Object?);
  }

  lemma EmptyBody(v: Value)
    requires Count(v) == 0
    ensures Body(v, 0) == "" && BodyNeed(v, 0) == 0
  {
  }

  predicate ReadableChild(v: Value, i: nat)
    requires i < Count(v)
  {
    Readable(Child(v, i)) && (v.Object? ==> ValidPieces(v.fields[i].name))
  }

  lemma ChildReadable(v: Value, i: nat)
    requires Readable(v) && i < Count(v)
    ensures ReadableChild(v, i)
  {
  }

  /** A child as skipArray or skipObject, and as an iterator, sees it. */
  lemma {:induction false} ChildValid(v: Value, i: nat, s: string, p: nat, level: nat)
    requires i < Count(v) && ReadableChild(v, i) && level <= MAX_DEPTH
    requires Here(s, p, ChildText(v, i)) && Follows(s, p + |ChildText(v, i)|)
    ensures p < |s| && TypeAt(s, p).Ok? && (TypeAt(s, p).value == PairType <==> v.Object?)
    ensures ElementEnd(s, p, level) == Expected(level, ChildNeed(v, i), p + |ChildText(v, i)|)
    ensures v.Object? ==> PairEnd(s, p, level) == ElementEnd(s, p, level)
    decreases v, Count(v) - i, 0
  {
    hide Here, TypeAt, StringEnd, ElementEnd, Quoted;
    match v
    case Array(items) =>
      ElementValid(items[i], s, p, level);
    case Object(fields) =>
      var Field(name, value) := fields[i];
      PairParts(name, Text(value), s, p);
      ElementValid(value, s, p + |Quoted(name)| + 1, if level < MAX_DEPTH then level + 1 else level);
      PairElement(s, p, level);
  }

  lemma PairElement(s: string, p: nat, level: nat)
    requires p < |s| && level <= MAX_DEPTH && TypeAt(s, p) == Ok(PairType)
    ensures ElementEnd(s, p, level) == PairEnd(s, p, level)
  {
  }

  /** The i-th child, and what follows it: a comma and the rest, or the closing bracket. */
  lemma BodyParts(v: Value, i: nat, s: string, p: nat)
    requires i < Count(v) && Here(s, p, Body(v, i) + [Closing(v.Object?)])
    ensures var q := p + |ChildText(v, i)|;
      && Here(s, p, ChildText(v, i)) && q < |s| && Follows(s, q)
      && (i + 1 < Count(v) ==>
            && s[q] == ',' && Here(s, q + 1, Body(v, i + 1) + [Closing(v.Object?)])
            && |Body(v, i)| == |ChildText(v, i)| + 1 + |Body(v, i + 1)|)
      && (i + 1 == Count(v) ==> s[q] == Closing(v.Object?) && |Body(v, i)| == |ChildText(v, i)|)
  {
    hide Body, ChildText, Here;
    var c, child := Closing(v.Object?), ChildText(v, i);
    BodyUnfold(v, i);
    if i + 1 < Count(v) {
      var rest := Body(v, i + 1);
      SeparatedParts(child, ',', rest, c);
      HereSplit(s, p, child, [','] + (rest + [c]));
      HereChar(s, p + |child|, ',', rest + [c]);
    } else {
      HereSplit(s, p, child, [c]);
      HereOne(s, p + |child|, [c], c);
    }
  }

  lemma BodyUnfold(v: Value, i: nat)
    requires i < Count(v)
    ensures i + 1 < Count(v) ==> Body(v, i) == ChildText(v, i) + ([','] + Body(v, i + 1))
    ensures i + 1 == Count(v) ==> Body(v, i) == ChildText(v, i)
  {
    hide ChildText;
  }

  lemma SeparatedParts(child: string, separator: char, rest: string, last: char)
    ensures child + ([separator] + rest) + [last] == child + ([separator] + (rest + [last]))
  {
  }

  /** No element starts with a closing bracket. */
  lemma NotClosing(s: string, p: nat)
    requires p < |s| && TypeAt(s, p).Ok?
    ensures s[p] != '}' && s[p] != ']'
  {
  }

  lemma {:induction false} BodyValid(v: Value, i: nat, s: string, p: nat, level: nat)
    requires i < Count(v) && Readable(v) && level <= MAX_DEPTH && Here(s, p, Body(v, i) + [Closing(v.Object?)])
    ensures p < |s| && s[p] != Closing(v.Object?)
    ensures BodyEnd(s, p, level, v.Object?) == Expected(level, BodyNeed(v, i), p + |Body(v, i)| + 1)
    decreases v, Count(v) - i, 1
  {
    hide Here, Body, ChildText, ElementEnd, PairEnd, BodyEnd, TypeAt, Readable, ReadableChild, BodyNeed, ChildNeed;
    BodyParts(v, i, s, p);
    ChildReadable(v, i);
    ChildValid(v, i, s, p, if level < MAX_DEPTH then level + 1 else level);
    NotClosing(s, p);
    NeedUnfold(v, i);
    if level == MAX_DEPTH {
      BodyTooDeep(s, p, v.Object?);
    } else {
      BodyStep(s, p, level, v.Object?);
      if i + 1 < Count(v) {
        BodyValid(v, i + 1, s, p + |ChildText(v, i)| + 1, level);
      }
    }
  }

  lemma NeedUnfold(v: Value, i: nat)
    requires i < Count(v)
    ensures BodyNeed(v, i)
         == if i + 1 < Count(v) then Max(1 + ChildNeed(v, i), BodyNeed(v, i + 1)) else 1 + ChildNeed(v, i)
  {
    hide ChildNeed;
  }

  // ----- Exponents with a plus sign -----

  /** skipNumber does not know the plus sign: it ends in front of it. */
  lemma NumberStopsAtPlus(v: Value, s: string, p: nat)
    requires v.Number? && Valid(v) && HasPlus(v.exponent) && Here(s, p, Text(v))
    ensures p < |s| && (IsDigit(s[p]) || s[p] == '-')
    ensures NumberEnd(s, p) < |s| && s[NumberEnd(s, p)] == '+' && NumberEnd(s, p) < p + |Text(v)|
  {
    hide Here, DigitsEnd, Digits, ExponentText, FractionText, SignHere, Past;
    var fraction, e := v.fraction, v.exponent;
    NumberParts(v, s, p);
    PastSign(v.minus, s, p);
    SignStarts(v.minus, s, p);
    hide Sign;
    var q := p + |Sign(v.minus)| + |v.whole|;
    HereSplit(s, q, FractionText(fraction), ExponentText(e));
    var r := q + |FractionText(fraction)|;
    PlusParts(e, s, r);
    PastLetter(s, r);
    FractionDigits(fraction, s, q);
    RunOfDigits(v.whole, s, p + |Sign(v.minus)|);
    PlusEnd(s, r + 1);
  }

  lemma PlusParts(e: Exponent, s: string, p: nat)
    requires ValidExponent(e) && HasPlus(e) && Here(s, p, ExponentText(e))
    ensures p + 1 < |s| && s[p] in {'e', 'E'} && s[p + 1] == '+' && |ExponentText(e)| > 2
  {
    ExponentParts(e, s, p);
    hide Here;
    assert e.sign + e.digits == ['+'] + e.digits;
    HereChar(s, p + 1, '+', e.digits);
  }

  lemma PlusEnd(s: string, p: nat)
    requires p < |s| && s[p] == '+'
    ensures DigitsEnd(s, Past(s, p, {'-'})) == p
  {
    NoDigits(s, p);
  }

  /** An error, or a position in front of a plus sign. */
  predicate Derailed(s: string, r: Result<nat>) {
    r.Ok? ==> r.value < |s| && s[r.value] == '+'
  }

  lemma {:induction false} ElementDerails(v: Value, s: string, p: nat, level: nat)
    requires Valid(v) && !PlusFree(v) && level <= MAX_DEPTH && Here(s, p, Text(v))
    ensures p < |s| && TypeAt(s, p) == Ok(KindOf(v)) && Derailed(s, ElementEnd(s, p, level))
    ensures v.Number? <==> ElementEnd(s, p, level).Ok?
    decreases v, Count(v) + 1, 1
  {
    hide Here, Text, TypeAt, BodyEnd, ElementEnd, NumberEnd, Valid;
    if Container(v) {
      ContainerParts(v, s, p);
      var i := PlusChild(v);
      BodyDerails(v, 0, i, s, p + 1, level);
      ContainerElement(s, p, level, v.Object?);
    } else {
      NumberStopsAtPlus(v, s, p);
      NumberElement(s, p, level);
    }
  }

  lemma PlusChild(v: Value) returns (i: nat)
    requires Container(v) && !PlusFree(v)
    ensures i < Count(v) && !PlusFree(Child(v, i))
  {
    match v
    case Array(items) =>
      i :| i < |items| && !PlusFree(items[i]);
    case Object(fields) =>
      i :| i < |fields| && !PlusFree(fields[i].value);
  }

  lemma {:induction false} ChildDerails(v: Value, i: nat, s: string, p: nat, level: nat)
    requires i < Count(v) && Valid(v) && !PlusFree(Child(v, i)) && level <= MAX_DEPTH
    requires Here(s, p, ChildText(v, i))
    ensures p < |s| && TypeAt(s, p).Ok?
    ensures Derailed(s, Skipped(s, p, level, v.Object?)) && ElementEnd(s, p, level) == Skipped(s, p, level, v.Object?)
    ensures ElementEnd(s, p, level).Ok? <==> Child(v, i).Number? && level + ChildNeed(v, i) <= MAX_DEPTH
    ensures Child(v, i).Number? && ElementEnd(s, p, level).Err? ==> ElementEnd(s, p, level) == Err(TOO_DEEP)
    decreases v, Count(v) - i, 0
  {
    hide Here, TypeAt, StringEnd, ElementEnd, Quoted, PlusFree, Derailed;
    match v
    case Array(items) =>
      ElementDerails(items[i], s, p, level);
    case Object(fields) =>
      var Field(name, value) := fields[i];
      PairParts(name, Text(value), s, p);
      ElementDerails(value, s, p + |Quoted(name)| + 1, if level < MAX_DEPTH then level + 1 else level);
      PairElement(s, p, level);
      ErrorsDerail(s);
      assert value.Number? ==> Need(value) == 0;
  }

  lemma ErrorsDerail(s: string)
    ensures forall r: Result<nat> :: r.Err? ==> Derailed(s, r)
  {
  }

  /** The loop over the children stops with an error at the latest at child j. */
  lemma {:induction false} BodyDerails(v: Value, i: nat, j: nat, s: string, p: nat, level: nat)
    requires i <= j < Count(v) && Valid(v) && !PlusFree(Child(v, j)) && level <= MAX_DEPTH
    requires Here(s, p, Body(v, i) + [Closing(v.Object?)])
    ensures p < |s| && s[p] != Closing(v.Object?)
    ensures BodyEnd(s, p, level, v.Object?).Err?
    decreases v, Count(v) - i, 1
  {
    hide Here, Body, ChildText, ElementEnd, PairEnd, BodyEnd, TypeAt, Valid, PlusFree, ReadableChild, ChildNeed;
    BodyParts(v, i, s, p);
    var below := if level < MAX_DEPTH then level + 1 else level;
    if PlusFree(Child(v, i)) {
      OtherChild(v, i);
      ChildValid(v, i, s, p, below);
      if i < j {
        BodyDerails(v, i + 1, j, s, p + |ChildText(v, i)| + 1, level);
      }
    } else {
      ChildDerails(v, i, s, p, below);
    }
    NotClosing(s, p);
    if level == MAX_DEPTH {
      BodyTooDeep(s, p, v.Object?);
    } else {
      BodyStep(s, p, level, v.Object?);
    }
  }

  lemma OtherChild(v: Value, i: nat)
    requires i < Count(v) && Valid(v) && PlusFree(Child(v, i))
    ensures ReadableChild(v, i)
  {
  }

  /** Of all well-formed elements, skipElement finds the end of exactly those within the depth and without a plus sign
      in an exponent. */
  lemma ElementReads(v: Value, s: string, p: nat, level: nat)
    requires Valid(v) && level <= MAX_DEPTH && Here(s, p, Text(v)) && Follows(s, p + |Text(v)|)
    ensures p < |s|
    ensures ElementEnd(s, p, level) == Ok(p + |Text(v)|) <==> PlusFree(v) && level + Need(v) <= MAX_DEPTH
  {
    hide ElementEnd, Here, Text, PlusFree, Valid;
    if PlusFree(v) {
      ElementValid(v, s, p, level);
    } else {
      ElementDerails(v, s, p, level);
    }
  }

  /** A well-formed number that is cut short. */
  lemma PlusFails()
    ensures var v := Number(false, "1", "", Exponent.Exponent('e', "+", "5"));
      Valid(v) && Text(v) == "1e+5" && ElementEnd("1e+5", 0, 0) == Ok(2)
  {
    var s, v := "1e+5", Number(false, "1", "", Exponent.Exponent('e', "+", "5"));
    assert Text(v) == s && s[0..4] == s;
    NumberStopsAtPlus(v, s, 0);
  }
}
