/** What follows an element does not matter, and a text that breaks off is never taken for a whole one:
    base/base/JSON.cpp on truncated JSON. */
module JsonTruncated {
  import opened Wrappers
  import opened Chars
  import opened Json
  import opened JsonSkip
  import opened JsonValid
  import opened JsonReader

  // ----- Strings -----

  lemma {:induction false} FirstQuoteLocal(s: string, more: string, p: nat)
    requires p <= |s| && FirstQuote(s, p) < |s|
    ensures FirstQuote(s + more, p) == FirstQuote(s, p)
    decreases |s| - p
  {
    if s[p] != '"' {
      FirstQuoteLocal(s, more, p + 1);
    }
  }

  lemma {:induction false} SlowEndLocal(s: string, more: string, pos: nat)
    requires SlowEnd(s, pos).Ok?
    ensures SlowEnd(s + more, pos) == SlowEnd(s, pos)
    ensures pos <= |s| && FirstQuote(s, pos) < |s|
    decreases |s| - pos
  {
    var next := if s[pos] != '\\' then pos + 1 else if s[pos + 1] != 'u' then pos + 2 else pos + 6;
    if s[pos] != '"' {
      SlowEndLocal(s, more, next);
      QuoteEarlier(s, pos, next);
    }
  }

  lemma {:induction false} QuoteEarlier(s: string, p: nat, q: nat)
    requires p <= q <= |s| && FirstQuote(s, q) < |s|
    ensures FirstQuote(s, p) < |s|
    decreases q - p
  {
    if p < q && s[p] != '"' {
      QuoteEarlier(s, p + 1, q);
    }
  }

  lemma StringEndLocal(s: string, more: string, p: nat)
    requires StringEnd(s, p).Ok?
    ensures StringEnd(s + more, p) == StringEnd(s, p)
  {
    hide FirstQuote, SlowEnd;
    var q := FirstQuote(s, p + 1);
    if q < |s| && s[q - 1] != '\\' {
      FirstQuoteLocal(s, more, p + 1);
    } else {
      SlowEndLocal(s, more, p + 1);
      FirstQuoteLocal(s, more, p + 1);
    }
  }

  // ----- Numbers -----

  lemma {:induction false} DigitsEndLocal(s: string, more: string, p: nat)
    requires DigitsEnd(s, p) < |s|
    ensures DigitsEnd(s + more, p) == DigitsEnd(s, p)
    decreases |s| - p
  {
    if IsDigit(s[p]) {
      DigitsEndLocal(s, more, p + 1);
    }
  }

  lemma NumberEndLocal(s: string, more: string, p: nat)
    requires NumberEnd(s, p) < |s|
    ensures NumberEnd(s + more, p) == NumberEnd(s, p)
  {
    hide DigitsEnd;
    var p0 := Past(s, p, {'-'});
    var p1 := DigitsEnd(s, p0);
    var p2 := DigitsEnd(s, Past(s, p1, {'.'}));
    var p3 := Past(s, Past(s, p2, {'e', 'E'}), {'-'});
    assert NumberEnd(s, p) == DigitsEnd(s, p3);
    DigitsEndLocal(s, more, p0);
    DigitsEndLocal(s, more, Past(s, p1, {'.'}));
    DigitsEndLocal(s, more, p3);
  }

  // ----- Elements -----

  /** A type is found without looking further than one character after the element. */
  lemma TypeAtLocal(s: string, more: string, p: nat)
    requires p < |s| && TypeAt(s, p).Ok?
    requires s[p] == '"' && StringEnd(s, p).Ok? ==> StringEnd(s, p).value < |s|
    ensures TypeAt(s + more, p) == TypeAt(s, p)
  {
    hide StringEnd;
    if s[p] == '"' {
      StringEndLocal(s, more, p);
    }
  }

  /** A string, or the name of a pair, ends no later than the element. */
  lemma NameInside(s: string, p: nat, level: nat)
    requires p < |s| && level <= MAX_DEPTH && s[p] == '"' && ElementEnd(s, p, level).Ok?
    ensures StringEnd(s, p).Ok? && StringEnd(s, p).value <= ElementEnd(s, p, level).value
  {
    hide StringEnd;
  }

  /** The end of an element stays where it is when more text follows. */
  lemma {:induction false} ElementEndLocal(s: string, more: string, p: nat, level: nat)
    requires p < |s| && level <= MAX_DEPTH
    requires ElementEnd(s, p, level).Ok? && ElementEnd(s, p, level).value < |s|
    ensures ElementEnd(s + more, p, level) == ElementEnd(s, p, level)
    decreases MAX_DEPTH - level, |s| - p, 1
  {
    hide StringEnd, NumberEnd, ContainerEnd, TypeAt;
    if s[p] == '"' {
      NameInside(s, p, level);
    }
    TypeAtLocal(s, more, p);
    match TypeAt(s, p).value {
      case NullType =>
      case BoolType =>
      case NumberType => NumberEndLocal(s, more, p);
      case StringType => StringEndLocal(s, more, p);
      case PairType => PairEndLocal(s, more, p, level);
      case ArrayType => ContainerEndLocal(s, more, p, level, false);
      case ObjectType => ContainerEndLocal(s, more, p, level, true);
    }
  }

  lemma {:induction false} PairEndLocal(s: string, more: string, p: nat, level: nat)
    requires p < |s| && level <= MAX_DEPTH
    requires PairEnd(s, p, level).Ok? && PairEnd(s, p, level).value < |s|
    ensures PairEnd(s + more, p, level) == PairEnd(s, p, level)
    decreases MAX_DEPTH - level, |s| - p, 0
  {
    hide StringEnd, ElementEnd;
    StringEndLocal(s, more, p);
    ElementEndLocal(s, more, StringEnd(s, p).value + 1, level + 1);
  }

  lemma {:induction false} ContainerEndLocal(s: string, more: string, p: nat, level: nat, named: bool)
    requires p < |s| && level <= MAX_DEPTH && ContainerEnd(s, p, level, named).Ok?
    ensures ContainerEnd(s + more, p, level, named) == ContainerEnd(s, p, level, named)
    decreases MAX_DEPTH - level, |s| - p, 0
  {
    hide BodyEnd;
    if s[p + 1] != Closing(named) {
      BodyEndLocal(s, more, p + 1, level, named);
    }
  }

  lemma {:induction false} BodyEndLocal(s: string, more: string, pos: nat, level: nat, named: bool)
    requires level <= MAX_DEPTH && BodyEnd(s, pos, level, named).Ok?
    ensures BodyEnd(s + more, pos, level, named) == BodyEnd(s, pos, level, named)
    decreases MAX_DEPTH - level, |s| - pos, 0
  {
    hide ElementEnd, PairEnd;
    if named {
      PairEndLocal(s, more, pos, level + 1);
    } else {
      ElementEndLocal(s, more, pos, level + 1);
    }
    var q := (if named then PairEnd(s, pos, level + 1) else ElementEnd(s, pos, level + 1)).value;
    if s[q] == ',' {
      BodyEndLocal(s, more, q + 1, level, named);
    }
  }

  // ----- Cutting off what follows -----

  lemma {:induction false} FirstQuoteCut(s: string, more: string, p: nat)
    requires p <= |s| && FirstQuote(s + more, p) < |s|
    ensures FirstQuote(s, p) == FirstQuote(s + more, p)
    decreases |s| - p
  {
    if s[p] != '"' {
      FirstQuoteCut(s, more, p + 1);
    }
  }

  lemma {:induction false} SlowEndCut(s: string, more: string, pos: nat)
    requires SlowEnd(s + more, pos).Ok? && SlowEnd(s + more, pos).value <= |s|
    ensures SlowEnd(s, pos) == SlowEnd(s + more, pos)
    ensures pos <= |s| && FirstQuote(s, pos) < |s|
    decreases |s| - pos
  {
    var all := s + more;
    if all[pos] != '"' {
      var next := if all[pos] != '\\' then pos + 1 else if all[pos + 1] != 'u' then pos + 2 else pos + 6;
      SlowEndCut(s, more, next);
      QuoteEarlier(s, pos, next);
    }
  }

  lemma StringEndCut(s: string, more: string, p: nat)
    requires StringEnd(s + more, p).Ok? && StringEnd(s + more, p).value <= |s|
    ensures StringEnd(s, p) == StringEnd(s + more, p)
  {
    hide FirstQuote, SlowEnd;
    var all := s + more;
    var q := FirstQuote(all, p + 1);
    if q < |all| && all[q - 1] != '\\' {
      FirstQuoteCut(s, more, p + 1);
    } else {
      SlowEndCut(s, more, p + 1);
      FirstQuoteLocal(s, more, p + 1);
    }
  }

  lemma {:induction false} DigitsEndCut(s: string, more: string, p: nat)
    requires DigitsEnd(s + more, p) < |s|
    ensures DigitsEnd(s, p) == DigitsEnd(s + more, p)
    decreases |s| - p
  {
    if IsDigit(s[p]) {
      DigitsEndCut(s, more, p + 1);
    }
  }

  lemma NumberEndCut(s: string, more: string, p: nat)
    requires NumberEnd(s + more, p) < |s|
    ensures NumberEnd(s, p) == NumberEnd(s + more, p)
  {
    hide DigitsEnd;
    var all := s + more;
    var p0 := Past(all, p, {'-'});
    var p1 := DigitsEnd(all, p0);
    var p2 := DigitsEnd(all, Past(all, p1, {'.'}));
    var p3 := Past(all, Past(all, p2, {'e', 'E'}), {'-'});
    assert NumberEnd(all, p) == DigitsEnd(all, p3);
    DigitsEndCut(s, more, p0);
    DigitsEndCut(s, more, Past(all, p1, {'.'}));
    DigitsEndCut(s, more, p3);
  }

  lemma TypeAtCut(s: string, more: string, p: nat)
    requires p < |s| && TypeAt(s + more, p).Ok?
    requires s[p] == '"' ==> StringEnd(s + more, p).Ok? && StringEnd(s + more, p).value < |s|
    ensures TypeAt(s, p) == TypeAt(s + more, p)
  {
    hide StringEnd;
    if s[p] == '"' {
      StringEndCut(s, more, p);
    }
  }

  /** An element that ends before the cut is read as in the whole text. */
  lemma {:induction false} ElementEndCut(s: string, more: string, p: nat, level: nat)
    requires p < |s| && level <= MAX_DEPTH
    requires ElementEnd(s + more, p, level).Ok? && ElementEnd(s + more, p, level).value < |s|
    ensures ElementEnd(s, p, level) == ElementEnd(s + more, p, level)
    decreases MAX_DEPTH - level, |s| - p, 1
  {
    hide StringEnd, NumberEnd, ContainerEnd, TypeAt, PairEnd;
    if s[p] == '"' {
      NameInside(s + more, p, level);
    }
    TypeAtCut(s, more, p);
    match TypeAt(s, p).value {
      case NullType =>
      case BoolType =>
      case NumberType => NumberEndCut(s, more, p);
      case StringType => StringEndCut(s, more, p);
      case PairType => PairEndCut(s, more, p, level);
      case ArrayType => ContainerEndCut(s, more, p, level, false);
      case ObjectType => ContainerEndCut(s, more, p, level, true);
    }
  }

  lemma {:induction false} PairEndCut(s: string, more: string, p: nat, level: nat)
    requires p < |s| && level <= MAX_DEPTH
    requires PairEnd(s + more, p, level).Ok? && PairEnd(s + more, p, level).value < |s|
    ensures PairEnd(s, p, level) == PairEnd(s + more, p, level)
    decreases MAX_DEPTH - level, |s| - p, 0
  {
    hide StringEnd, ElementEnd;
    var name := StringEnd(s + more, p).value;
    assert name + 1 < PairEnd(s + more, p, level).value;
    StringEndCut(s, more, p);
    ElementEndCut(s, more, name + 1, level + 1);
  }

  lemma {:induction false} ContainerEndCut(s: string, more: string, p: nat, level: nat, named: bool)
    requires p < |s| && level <= MAX_DEPTH
    requires ContainerEnd(s + more, p, level, named).Ok? && ContainerEnd(s + more, p, level, named).value <= |s|
    ensures ContainerEnd(s, p, level, named) == ContainerEnd(s + more, p, level, named)
    decreases MAX_DEPTH - level, |s| - p, 0
  {
    hide BodyEnd;
    if (s + more)[p + 1] != Closing(named) {
      BodyEndCut(s, more, p + 1, level, named);
    }
  }

  lemma {:induction false} BodyEndCut(s: string, more: string, pos: nat, level: nat, named: bool)
    requires level <= MAX_DEPTH
    requires BodyEnd(s + more, pos, level, named).Ok? && BodyEnd(s + more, pos, level, named).value <= |s|
    ensures BodyEnd(s, pos, level, named) == BodyEnd(s + more, pos, level, named)
    decreases MAX_DEPTH - level, |s| - pos, 0
  {
    hide ElementEnd, PairEnd;
    var all := s + more;
    var q := (if named then PairEnd(all, pos, level + 1) else ElementEnd(all, pos, level + 1)).value;
    assert pos < q < BodyEnd(all, pos, level, named).value;
    if named {
      PairEndCut(s, more, pos, level + 1);
    } else {
      ElementEndCut(s, more, pos, level + 1);
    }
    if all[q] == ',' {
      BodyEndCut(s, more, q + 1, level, named);
    }
  }

  // ----- Truncated texts -----

  /** Every proper beginning of the text of a string, an array or an object is an error, at every depth. */
  lemma Truncated(v: Value, s: string, level: nat)
    requires Valid(v) && (v.Str? || Container(v)) && level <= MAX_DEPTH
    requires 0 < |s| < |Text(v)| && s == Text(v)[..|s|]
    ensures ElementEnd(s, 0, level).Err?
  {
    hide ElementEnd, Text, Valid, Here;
    var whole := Text(v);
    var more := whole[|s|..];
    assert s + more == whole;
    AllHere(whole);
    if v.Str? {
      StringTruncated(v, s, more, level);
    } else if ElementEnd(s, 0, level).Ok? {
      WholeOrError(v, whole, level);
      ContainerCut(v, s, more, level);
      assert false;
    }
  }

  lemma AllHere(s: string)
    ensures Here(s, 0, s)
  {
    assert s[0..0 + |s|] == s;
  }

  /** The text of a container gives its length or an error. */
  lemma WholeOrError(v: Value, s: string, level: nat)
    requires Valid(v) && Container(v) && level <= MAX_DEPTH && s == Text(v) && Here(s, 0, s)
    ensures |s| > 0 && (ElementEnd(s, 0, level).Err? || ElementEnd(s, 0, level) == Ok(|s|))
  {
    hide ElementEnd, Here, Text, Valid, TypeAt;
    if PlusFree(v) {
      ElementValid(v, s, 0, level);
    } else {
      ElementDerails(v, s, 0, level);
    }
  }

  /** A container read from a beginning is read from the whole text, with the same end. */
  lemma ContainerCut(v: Value, s: string, more: string, level: nat)
    requires Container(v) && level <= MAX_DEPTH && |s| > 0 && s + more == Text(v) && ElementEnd(s, 0, level).Ok?
    ensures |s + more| > 0 && ElementEnd(s + more, 0, level) == ElementEnd(s, 0, level)
    ensures ElementEnd(s, 0, level).value <= |s|
  {
    hide ContainerEnd, StringEnd, NumberEnd, PairEnd;
    assert s[0] == Text(v)[0];
    ContainerEndLocal(s, more, 0, level, v.Object?);
  }

  lemma StringTruncated(v: Value, s: string, more: string, level: nat)
    requires v.Str? && Valid(v) && level <= MAX_DEPTH && |s| > 0 && more != [] && s + more == Text(v)
    requires Here(s + more, 0, Text(v))
    ensures ElementEnd(s, 0, level).Err?
  {
    hide StringEnd, ContainerEnd, NumberEnd, PairEnd, Here;
    assert s[0] == Text(v)[0];
    StringValid(v.pieces, s + more, 0);
    if StringEnd(s, 0).Ok? {
      StringEndLocal(s, more, 0);
      assert false;
    }
  }

  // ----- Iterating over truncated texts -----

  /** begin() followed by i times ++. */
  ghost function Walk(s: string, p: nat, level: nat, i: nat): (r: Result<int>)
    requires p < |s|
    ensures r.Ok? ==> level < MAX_DEPTH && (r.value == -1 || p < r.value < |s|)
  {
    if i == 0 then BeginPos(s, p, level)
    else
      var before := Walk(s, p, level, i - 1);
      if before.Err? || before.value == -1 then before else NextPos(s, before.value, level + 1)
  }

  lemma BeginCut(s: string, more: string, p: nat, level: nat, q: nat)
    requires p < |s|
    ensures BeginPos(s, p, level) == Ok(q) <==> q < |s| && BeginPos(s + more, p, level) == Ok(q)
    ensures BeginPos(s, p, level) == Ok(-1) ==> BeginPos(s + more, p, level) == Ok(-1)
  {
    hide StringEnd;
  }

  lemma NextCut(s: string, more: string, p: nat, level: nat, q: nat)
    requires p < |s| && level <= MAX_DEPTH
    ensures NextPos(s, p, level) == Ok(q) <==> q < |s| && NextPos(s + more, p, level) == Ok(q)
    ensures NextPos(s, p, level) == Ok(-1) ==> NextPos(s + more, p, level) == Ok(-1)
  {
    hide ElementEnd;
    if NextPos(s, p, level).Ok? {
      ElementEndLocal(s, more, p, level);
    } else if q < |s| && NextPos(s + more, p, level) == Ok(q) {
      ElementEndCut(s, more, p, level);
    }
  }

  /** A truncated text is iterated over exactly as far as it goes. */
  lemma {:induction false} WalkCut(s: string, more: string, p: nat, level: nat, i: nat, q: nat)
    requires p < |s|
    ensures Walk(s, p, level, i) == Ok(q) <==> q < |s| && Walk(s + more, p, level, i) == Ok(q)
    ensures Walk(s, p, level, i) == Ok(-1) ==> Walk(s + more, p, level, i) == Ok(-1)
    decreases i
  {
    hide NextPos, BeginPos;
    if i == 0 {
      BeginCut(s, more, p, level, q);
    } else {
      var before, all := Walk(s, p, level, i - 1), Walk(s + more, p, level, i - 1);
      if before.Ok? && before.value >= 0 {
        WalkCut(s, more, p, level, i - 1, before.value);
        NextCut(s, more, before.value, level + 1, q);
      } else {
        WalkCut(s, more, p, level, i - 1, if all.Ok? && all.value >= 0 then all.value else 0);
      }
    }
  }

  /** In a whole array or object without plus signs that fits the depth, the walk visits the children in order. */
  lemma {:induction false} WalkValid(v: Value, s: string, p: nat, level: nat, i: nat)
    requires ContainerAt(v, s, p) && PlusFree(v) && level < MAX_DEPTH && level + Need(v) <= MAX_DEPTH && i < Count(v)
    ensures p < |s| && Walk(s, p, level, i) == Ok(ChildPos(v, p, i)) && ChildAt(v, s, p, i, ChildPos(v, p, i))
    decreases i
  {
    hide NextPos, BeginPos, PlusFree, ChildNeed, Here, Text, Body, BodyNeed, ContainerAt, ChildPos;
    BeginValid(v, s, p, level);
    if i > 0 {
      WalkValid(v, s, p, level, i - 1);
      NextValid(v, s, p, i - 1, ChildPos(v, p, i - 1), level + 1);
      PlusFreeChild(v, i - 1);
      SkippableNeed(v, 0, level + 1);
      assert Passes(v, i - 1, level + 1);
    }
  }

  /** Of a truncated array or object, an iteration finds exactly the children that start before the cut, where they are,
      and then fails; it never takes the cut for the end. */
  lemma TruncatedChildren(v: Value, s: string, more: string, p: nat, level: nat, i: nat)
    requires ContainerAt(v, s + more, p) && PlusFree(v) && level < MAX_DEPTH && level + Need(v) <= MAX_DEPTH
    requires p < |s| && i < Count(v)
    ensures ChildPos(v, p, i) >= 0
    ensures Walk(s, p, level, i) == Ok(ChildPos(v, p, i)) <==> ChildPos(v, p, i) < |s|
    ensures Walk(s, p, level, i).Err? <==> ChildPos(v, p, i) >= |s|
  {
    hide Walk, PlusFree, Here, Text, Body, ContainerAt, ChildPos, Need;
    WalkValid(v, s + more, p, level, i);
    var q := ChildPos(v, p, i);
    WalkCut(s, more, p, level, i, q);
    var r := Walk(s, p, level, i);
    if r.Ok? && r.value >= 0 {
      WalkCut(s, more, p, level, i, r.value);
    }
  }
}
