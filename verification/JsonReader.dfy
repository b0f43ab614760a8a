/** The JSON class of base/base/JSON.cpp as an iterator over its own elements: begin, end, ++, size and operator[]. */
module JsonReader {
  import opened Wrappers
  import opened Json
  import opened JsonSkip
  import opened JsonValid

  const NOT_CONTAINER := "JSON: not array or object when calling begin() method."
  const NOT_ARRAY := "JSON: not array when calling operator[](size_t) method."
  const OUT_OF_BOUNDS := "JSON: array index out of bounds."

  /** Where ++ moves an iterator; -1 stands for the null pointer that marks the end. */
  function NextPos(s: string, p: nat, level: nat): (r: Result<int>)
    requires p < |s| && level <= MAX_DEPTH
    ensures r.Ok? ==> r.value == -1 || p < r.value < |s|
  {
    var end := ElementEnd(s, p, level);
    if end.Err? then Err(end.error)
    else if end.value >= |s| then Err(END_OF_DATA)
    else if s[end.value] != ',' then Ok(-1)
    else if end.value + 1 >= |s| then Err(END_OF_DATA)
    else Ok(end.value + 1)
  }

  /** Where begin() points. */
  function BeginPos(s: string, p: nat, level: nat): (r: Result<int>)
    requires p < |s|
    ensures r.Ok? ==> level < MAX_DEPTH && (r.value == -1 || p < r.value < |s|)
  {
    var t := TypeAt(s, p);
    if t.Err? then Err(t.error)
    else if t.value != ArrayType && t.value != ObjectType then Err(NOT_CONTAINER)
    else if p + 1 >= |s| then Err(END_OF_DATA)
    else if level + 1 > MAX_DEPTH then Err(TOO_DEEP)
    else if s[p + 1] == '}' || s[p + 1] == ']' then Ok(-1)
    else Ok(p + 1)
  }

  /** A well-formed array or object stands at p. */
  ghost predicate ContainerAt(v: Value, s: string, p: nat) {
    Container(v) && Valid(v) && Here(s, p, Text(v))
  }

  /** A well-formed element without children stands at p. */
  ghost predicate ScalarAt(v: Value, s: string, p: nat) {
    !Container(v) && Valid(v) && Here(s, p, Text(v)) && Follows(s, p + |Text(v)|)
  }

  lemma ScalarType(v: Value, s: string, p: nat)
    requires ScalarAt(v, s, p)
    ensures p < |s| && TypeAt(s, p).Ok? && TypeAt(s, p).value != ArrayType && TypeAt(s, p).value != ObjectType
  {
    hide Here, Text, TypeAt;
    if PlusFree(v) {
      ScalarValid(v, s, p, 0);
    } else {
      ElementDerails(v, s, p, 0);
    }
  }

  /** The start of the i-th child, or the end marker behind the last one. */
  function ChildPos(v: Value, p: nat, i: nat): int
    requires i <= Count(v)
  {
    if i == Count(v) then -1 else p + |Text(v)| - 1 - |Body(v, i)|
  }

  /** An iterator at the i-th child. */
  ghost predicate ChildAt(v: Value, s: string, p: nat, i: nat, q: int) {
    && i <= Count(v) && q == ChildPos(v, p, i)
    && (i < Count(v) ==> q >= 0 && Here(s, q, Body(v, i) + [Closing(v.Object?)]))
  }

  lemma BeginValid(v: Value, s: string, p: nat, level: nat)
    requires ContainerAt(v, s, p)
    ensures p < |s|
    ensures BeginPos(s, p, level) == if level + 1 > MAX_DEPTH then Err(TOO_DEEP) else Ok(ChildPos(v, p, 0))
    ensures ChildAt(v, s, p, 0, ChildPos(v, p, 0))
  {
    hide Here, Text, Body, TypeAt, Valid;
    ContainerParts(v, s, p);
    if Count(v) == 0 {
      EmptyBody(v);
      HereOne(s, p + 1, Body(v, 0) + [Closing(v.Object?)], Closing(v.Object?));
    } else {
      BodyParts(v, 0, s, p + 1);
      ChildStarts(v, 0, s, p + 1);
      NotClosing(s, p + 1);
    }
  }

  lemma ChildStarts(v: Value, i: nat, s: string, p: nat)
    requires Valid(v) && i < Count(v) && Here(s, p, ChildText(v, i)) && Follows(s, p + |ChildText(v, i)|)
    ensures p < |s| && TypeAt(s, p).Ok?
  {
    hide Here, ChildText, TypeAt, Valid, PlusFree, ReadableChild;
    if PlusFree(Child(v, i)) {
      OtherChild(v, i);
      ChildValid(v, i, s, p, 0);
    } else {
      ChildDerails(v, i, s, p, 0);
    }
  }

  /** The i-th child can be skipped from this level. */
  ghost predicate Passes(v: Value, i: nat, level: nat)
    requires i < Count(v)
  {
    level + ChildNeed(v, i) <= MAX_DEPTH
  }

  /** A plus sign in an exponent of the i-th child does no harm: there is none, or it is in a number behind which the
      end marker is right. */
  predicate Passable(v: Value, i: nat)
    requires i < Count(v)
  {
    PlusFree(Child(v, i)) || (i + 1 == Count(v) && Child(v, i).Number?)
  }

  /** ++ from the i-th child: to the next one, or an error if the child is too deep. A plus sign in an exponent makes it
      the end marker behind a number and an error behind an array or object. So ++ is right exactly when the child fits
      and either has no such sign or is a number and the last child anyway. */
  lemma NextValid(v: Value, s: string, p: nat, i: nat, q: nat, level: nat)
    requires ContainerAt(v, s, p) && i < Count(v) && ChildAt(v, s, p, i, q) && level <= MAX_DEPTH
    ensures q < |s| && ChildAt(v, s, p, i + 1, ChildPos(v, p, i + 1))
    ensures PlusFree(Child(v, i)) ==>
      NextPos(s, q, level) == if Passes(v, i, level) then Ok(ChildPos(v, p, i + 1)) else Err(TOO_DEEP)
    ensures !PlusFree(Child(v, i)) && Child(v, i).Number? ==>
      NextPos(s, q, level) == if Passes(v, i, level) then Ok(-1) else Err(TOO_DEEP)
    ensures !PlusFree(Child(v, i)) && !Child(v, i).Number? ==> NextPos(s, q, level).Err?
    ensures NextPos(s, q, level) == Ok(ChildPos(v, p, i + 1)) <==> Passes(v, i, level) && Passable(v, i)
  {
    hide Here, Text, Body, ChildText, Valid, ElementEnd, PlusFree, ReadableChild, ChildNeed, TypeAt, Skipped;
    BodyParts(v, i, s, q);
    if PlusFree(Child(v, i)) {
      OtherChild(v, i);
      ChildValid(v, i, s, q, level);
    } else {
      ChildDerails(v, i, s, q, level);
    }
    if i + 1 < Count(v) {
      BodyParts(v, i + 1, s, q + |ChildText(v, i)| + 1);
    }
  }

  /** The first n children can be skipped and have no plus sign in an exponent. */
  ghost predicate Clear(v: Value, n: nat, level: nat) {
    forall i :: 0 <= i < n && i < Count(v) ==> Passes(v, i, level) && PlusFree(Child(v, i))
  }

  /** The j-th child is the first one with a plus sign in an exponent, and it is a number. */
  ghost predicate Cut(v: Value, j: nat, level: nat) {
    && j < Count(v) && Clear(v, j, level)
    && Passes(v, j, level) && Child(v, j).Number? && !PlusFree(Child(v, j))
  }

  /** An iteration sees m children. */
  ghost predicate Ends(v: Value, m: nat, level: nat) {
    level <= MAX_DEPTH && if m == Count(v) && Clear(v, m, level) then true else m > 0 && Cut(v, m - 1, level)
  }

  ghost predicate NeverEnds(v: Value, level: nat) {
    forall m: nat :: !Ends(v, m, level)
  }

  /** The iteration is right up to the n-th child. */
  ghost predicate Walked(v: Value, n: nat, level: nat) {
    forall i :: 0 <= i < n && i < Count(v) ==> Passes(v, i, level) && Passable(v, i)
  }

  /** An iterator that has made i steps: at the i-th child, or stopped behind a number with a plus sign. */
  ghost predicate Stepped(v: Value, s: string, p: nat, i: nat, q: int, level: nat) {
    (Clear(v, i, level) && ChildAt(v, s, p, i, q)) || (i > 0 && q == -1 && Cut(v, i - 1, level))
  }

  /** ++ fails at the i-th child. */
  ghost predicate Blocked(v: Value, i: nat, level: nat) {
    && i < Count(v) && Clear(v, i, level)
    && !(Passes(v, i, level) && (PlusFree(Child(v, i)) || Child(v, i).Number?))
  }

  lemma Step(v: Value, s: string, p: nat, i: nat, q: int, level: nat)
    requires ContainerAt(v, s, p) && Stepped(v, s, p, i, q, level) && q != -1 && level <= MAX_DEPTH
    ensures 0 <= q < |s|
    ensures var next := NextPos(s, q, level);
      && (next.Ok? ==> Stepped(v, s, p, i + 1, next.value, level))
      && (next.Err? ==> Blocked(v, i, level) && (PlusFree(Child(v, i)) ==> next == Err(TOO_DEEP)))
  {
    hide NextPos, PlusFree, ChildNeed, ContainerAt;
    assert i < Count(v) && q >= 0;
    NextValid(v, s, p, i, q, level);
    hide ChildAt;
  }

  lemma Stop(v: Value, s: string, p: nat, i: nat, level: nat)
    requires Stepped(v, s, p, i, -1, level) && level <= MAX_DEPTH
    ensures Ends(v, i, level) && i <= Count(v)
  {
    hide PlusFree, ChildNeed;
  }

  lemma BlockedNeverEnds(v: Value, i: nat, m: nat, level: nat)
    requires Blocked(v, i, level)
    ensures !Ends(v, m, level) && (m > i ==> !Walked(v, m, level))
  {
    hide PlusFree, ChildNeed;
    assert !(Passes(v, i, level) && Passable(v, i));
  }

  lemma EndsOnce(v: Value, m: nat, m': nat, level: nat)
    requires Ends(v, m, level) && Ends(v, m', level)
    ensures m == m'
  {
    hide PlusFree, ChildNeed;
  }

  lemma PlusFreeChild(v: Value, i: nat)
    requires PlusFree(v) && i < Count(v)
    ensures PlusFree(Child(v, i))
  {
  }

  lemma PlusFreeEnds(v: Value, level: nat)
    ensures PlusFree(v) ==> forall i :: 0 <= i < Count(v) ==> Passable(v, i)
    ensures PlusFree(v) ==> forall m: nat :: Ends(v, m, level) ==> m == Count(v)
  {
    hide ChildNeed;
    if PlusFree(v) {
      forall i | 0 <= i < Count(v) ensures PlusFree(Child(v, i)) && Passable(v, i) {
        PlusFreeChild(v, i);
      }
    }
    hide PlusFree;
  }

  /** All children fit below this level, and none but a last number has a plus sign in an exponent. */
  ghost predicate AllSeen(v: Value, level: nat)
    requires level >= 1
  {
    level - 1 + Max(1, Need(v)) <= MAX_DEPTH && forall i :: 0 <= i < Count(v) ==> Passable(v, i)
  }

  /** All children are seen exactly when all fit and none but a last number has a plus sign in an exponent. */
  lemma EndsRight(v: Value, level: nat)
    requires level >= 1
    ensures Ends(v, Count(v), level) <==> AllSeen(v, level)
  {
    hide PlusFree, ChildNeed, BodyNeed;
    var n := Count(v);
    if level <= MAX_DEPTH {
      SkippableNeed(v, 0, level);
      if Ends(v, n, level) {
        forall i | 0 <= i < n ensures Passable(v, i) && Passes(v, i, level) {
          if i == n - 1 && !Clear(v, n, level) {
            assert Cut(v, n - 1, level);
          }
        }
      }
      if AllSeen(v, level) {
        AllPassable(v, level);
      }
    }
  }

  lemma AllPassable(v: Value, level: nat)
    requires level <= MAX_DEPTH && forall i :: 0 <= i < Count(v) ==> Passable(v, i) && Passes(v, i, level)
    ensures Ends(v, Count(v), level)
  {
    hide PlusFree, ChildNeed;
    var n := Count(v);
    forall i | 0 <= i < n ensures i + 1 < n ==> PlusFree(Child(v, i)) {
      assert Passable(v, i);
    }
    if n > 0 && !PlusFree(Child(v, n - 1)) {
      assert Passable(v, n - 1);
      assert Clear(v, n - 1, level);
    }
  }

  /** All children from the i-th can be skipped exactly when the body from there fits. */
  lemma {:induction false} SkippableNeed(v: Value, i: nat, level: nat)
    requires i <= Count(v) && 1 <= level <= MAX_DEPTH
    ensures level - 1 + BodyNeed(v, i) <= MAX_DEPTH <==> forall j :: i <= j < Count(v) ==> Passes(v, j, level)
    decreases Count(v) - i
  {
    if i < Count(v) {
      SkippableNeed(v, i + 1, level);
      assert BodyNeed(v, i) == Max(1 + ChildNeed(v, i), BodyNeed(v, i + 1));
      if level - 1 + BodyNeed(v, i) <= MAX_DEPTH {
        forall j | i <= j < Count(v) ensures Passes(v, j, level) {
        }
      } else if Passes(v, i, level) {
        var j :| i + 1 <= j < Count(v) && !Passes(v, j, level);
      }
    }
  }

  class Reader {
    const text: string
    const level: nat
    var begin: int

    ghost predicate Valid()
      reads this
    {
      level <= MAX_DEPTH && -1 <= begin < |text|
    }

    constructor (text: string, begin: int, level: nat)
      ensures this.text == text && this.begin == begin && this.level == level
    {
      this.text, this.begin, this.level := text, begin, level;
    }

    method Begin() returns (r: Result<Reader>)
      requires Valid() && begin >= 0
      ensures var b := BeginPos(text, begin, level);
        if b.Err? then r == Err(b.error)
        else r.Ok? && fresh(r.value) && r.value.text == text && r.value.level == level + 1 && r.value.begin == b.value
    {
      var t := GetType(text, begin);
      if t.Err? {
        return Err(t.error);
      }
      if t.value != ArrayType && t.value != ObjectType {
        return Err(NOT_CONTAINER);
      }
      var pos := begin + 1;
      if pos >= |text| {
        return Err(END_OF_DATA);
      }
      if text[pos] == '}' || text[pos] == ']' {
        r := End();
        return;
      }
      var init := CheckInit(text, pos, level + 1);
      if init.Err? {
        return Err(init.error);
      }
      var it := new Reader(text, pos, level + 1);
      return Ok(it);
    }

    /** The end marker is an object of the next level too, so there is none at the deepest level. */
    method End() returns (r: Result<Reader>)
      ensures if level + 1 > MAX_DEPTH then r == Err(TOO_DEEP)
        else r.Ok? && fresh(r.value) && r.value.text == text && r.value.level == level + 1 && r.value.begin == -1
    {
      if level + 1 > MAX_DEPTH {
        return Err(TOO_DEEP);
      }
      var it := new Reader(text, -1, level + 1);
      return Ok(it);
    }

    method Next() returns (r: Result<()>)
      requires Valid() && begin >= 0
      modifies this
      ensures var n := NextPos(text, old(begin), level);
        if n.Err? then r == Err(n.error) && begin == old(begin) else r == Ok(()) && begin == n.value
    {
      var end := SkipElement(text, begin, level);
      if end.Err? {
        return Err(end.error);
      }
      var pos := end.value;
      if pos >= |text| {
        return Err(END_OF_DATA);
      }
      if text[pos] != ',' {
        begin := -1;
      } else {
        pos := pos + 1;
        if pos >= |text| {
          return Err(END_OF_DATA);
        }
        begin := pos;
      }
      r := Ok(());
    }

    /** The number of children an iteration sees, for every well-formed array or object v that this object may point to:
        all of them exactly when they fit the depth and none but a last number has a plus sign in an exponent. */
    method Size(ghost v: Value) returns (r: Result<nat>)
      requires Valid() && begin >= 0
      ensures ContainerAt(v, text, begin) ==>
        if r.Ok? then Ends(v, r.value, level + 1) else NeverEnds(v, level + 1)
      ensures ContainerAt(v, text, begin) ==> (r == Ok(Count(v)) <==> AllSeen(v, level + 1))
      ensures ContainerAt(v, text, begin) && PlusFree(v) ==>
        r == if level + Max(1, Need(v)) <= MAX_DEPTH then Ok(Count(v)) else Err(TOO_DEEP)
      ensures ScalarAt(v, text, begin) ==> r == Err(NOT_CONTAINER)
    {
      hide ContainerAt, ScalarAt, ChildAt, NextPos, ChildPos, ChildNeed, BodyNeed, TypeAt, Stepped, Ends, Blocked;
      hide Clear, PlusFree, NeverEnds;
      ghost var good := ContainerAt(v, text, begin);
      if ScalarAt(v, text, begin) {
        ScalarType(v, text, begin);
      }
      var first := Begin();
      if good {
        BeginValid(v, text, begin, level);
        FirstStep(v, text, begin, level + 1);
      }
      if first.Err? {
        return Err(first.error);
      }
      var it := first.value;
      var i := 0;
      while true
        invariant fresh(it) && it.Valid() && it.text == text && it.level == level + 1
        invariant good ==> Stepped(v, text, begin, i, it.begin, level + 1)
        decreases if it.begin == -1 then 0 else |text| - it.begin
      {
        var end := End();
        match end {
          case Err(error) => return Err(error);
          case Ok(marker) =>
            if it.begin == marker.begin {
              break;
            }
        }
        if good {
          Step(v, text, begin, i, it.begin, level + 1);
        }
        var next := it.Next();
        if next.Err? {
          if good {
            NoSize(v, i, level + 1);
          }
          return Err(next.error);
        }
        i := i + 1;
      }
      if good {
        Stop(v, text, begin, i, level + 1);
        SizeIs(v, i, level + 1);
      }
      return Ok(i);
    }

    /** operator[](n): the n-th child for n below the size, the end marker for n equal to it, an error beyond. For a
        well-formed array that is so exactly when the children before the n-th fit the depth and none but a last number
        has a plus sign in an exponent. */
    method Index(n: nat, ghost v: Value) returns (r: Result<Reader>)
      requires Valid() && begin >= 0
      ensures r.Ok? ==> r.value.text == text && r.value.level == level + 1
      ensures ContainerAt(v, text, begin) && v.Array? ==>
        (r.Ok? && ChildAt(v, text, begin, n, r.value.begin) <==>
           level < MAX_DEPTH && n <= Count(v) && Walked(v, n, level + 1))
      ensures ContainerAt(v, text, begin) && v.Array? && level < MAX_DEPTH && Walked(v, n, level + 1) ==>
        n > Count(v) ==> r == Err(OUT_OF_BOUNDS)
      ensures ContainerAt(v, text, begin) && v.Array? && PlusFree(v) ==>
        !(level < MAX_DEPTH && Walked(v, n, level + 1)) ==> r == Err(TOO_DEEP)
      ensures ContainerAt(v, text, begin) && v.Array? && n > 0 && Cut(v, n - 1, level + 1) ==>
        r.Ok? && r.value.begin == -1
      ensures ScalarAt(v, text, begin) || (ContainerAt(v, text, begin) && v.Object?) ==> r == Err(NOT_ARRAY)
    {
      hide ContainerAt, ScalarAt, ChildAt, NextPos, ChildPos, ChildNeed, BodyNeed, TypeAt, Stepped, Blocked;
      hide Clear, PlusFree, Passable, Walked, Cut;
      ghost var good := ContainerAt(v, text, begin);
      if ScalarAt(v, text, begin) {
        ScalarType(v, text, begin);
      }
      if good {
        ContainerType(v, text, begin);
        BeginValid(v, text, begin, level);
        FirstStep(v, text, begin, level + 1);
      }
      var t := GetType(text, begin);
      if t.Err? {
        return Err(t.error);
      }
      if t.value != ArrayType {
        return Err(NOT_ARRAY);
      }
      if begin + 1 >= |text| {
        return Err(END_OF_DATA);
      }
      var first := Begin();
      if first.Err? {
        return first;
      }
      var it := first.value;
      var i := 0;
      while i < n
        invariant 0 <= i <= n && fresh(it) && it.Valid() && it.text == text && it.level == level + 1
        invariant good ==> Stepped(v, text, begin, i, it.begin, level + 1)
      {
        var end := End();
        match end {
          case Err(error) => return Err(error);
          case Ok(marker) =>
            if it.begin == marker.begin {
              break;
            }
        }
        if good {
          Step(v, text, begin, i, it.begin, level + 1);
        }
        var next := it.Next();
        if next.Err? {
          if good {
            NoIndex(v, i, n, level + 1);
          }
          return Err(next.error);
        }
        i := i + 1;
      }
      if i != n {
        if good {
          Beyond(v, text, begin, i, n, level + 1);
        }
        return Err(OUT_OF_BOUNDS);
      }
      if good {
        Arrived(v, text, begin, i, it.begin, level + 1);
      }
      return Ok(it);
    }
  }

  lemma FirstStep(v: Value, s: string, p: nat, level: nat)
    requires ChildAt(v, s, p, 0, ChildPos(v, p, 0))
    ensures Stepped(v, s, p, 0, ChildPos(v, p, 0), level)
    ensures level > MAX_DEPTH ==> forall j: nat :: !Cut(v, j, level)
    ensures level > MAX_DEPTH ==> NeverEnds(v, level) && level - 1 + Max(1, Need(v)) > MAX_DEPTH
  {
    hide PlusFree, ChildNeed, ChildAt, ChildPos;
  }

  lemma SizeIs(v: Value, i: nat, level: nat)
    requires level >= 1 && Ends(v, i, level)
    ensures i == Count(v) <==> AllSeen(v, level)
    ensures PlusFree(v) ==> i == Count(v) && level - 1 + Max(1, Need(v)) <= MAX_DEPTH
  {
    hide Ends, PlusFree, BodyNeed, Passable;
    EndsRight(v, level);
    PlusFreeEnds(v, level);
    if AllSeen(v, level) {
      EndsOnce(v, i, Count(v), level);
    }
  }

  lemma NoSize(v: Value, i: nat, level: nat)
    requires Blocked(v, i, level)
    requires level >= 1
    ensures i < Count(v) && NeverEnds(v, level) && !AllSeen(v, level)
    ensures PlusFree(v) ==> PlusFree(Child(v, i)) && level - 1 + Max(1, Need(v)) > MAX_DEPTH
  {
    EndsRight(v, level);
    PlusFreeEnds(v, level);
    forall m: nat ensures !Ends(v, m, level) {
      BlockedNeverEnds(v, i, m, level);
    }
    if PlusFree(v) {
      PlusFreeChild(v, i);
    }
  }

  lemma NoIndex(v: Value, i: nat, n: nat, level: nat)
    requires Blocked(v, i, level) && i < n
    ensures i < Count(v) && !Walked(v, n, level) && !Cut(v, n - 1, level)
    ensures PlusFree(v) ==> PlusFree(Child(v, i))
  {
    BlockedNeverEnds(v, i, n, level);
    if PlusFree(v) {
      PlusFreeChild(v, i);
    }
  }

  /** The iteration has ended before the n-th child. */
  lemma Beyond(v: Value, s: string, p: nat, i: nat, n: nat, level: nat)
    requires Stepped(v, s, p, i, -1, level) && i < n
    ensures n <= Count(v) ==> !Walked(v, n, level)
    ensures !Cut(v, n - 1, level)
    ensures PlusFree(v) ==> n > Count(v) && Walked(v, n, level)
  {
    hide ChildNeed;
    if PlusFree(v) {
      forall j | 0 <= j < Count(v) ensures PlusFree(Child(v, j)) {
        PlusFreeChild(v, j);
      }
    }
    hide PlusFree;
  }

  lemma Arrived(v: Value, s: string, p: nat, n: nat, q: int, level: nat)
    requires Stepped(v, s, p, n, q, level)
    ensures n <= Count(v)
    ensures ChildAt(v, s, p, n, q) <==> Walked(v, n, level)
    ensures n > 0 && Cut(v, n - 1, level) ==> q == -1
    ensures PlusFree(v) ==> Walked(v, n, level)
  {
    hide ChildNeed;
    if PlusFree(v) {
      forall j | 0 <= j < Count(v) ensures PlusFree(Child(v, j)) {
        PlusFreeChild(v, j);
      }
    }
    hide PlusFree;
  }

  lemma ContainerType(v: Value, s: string, p: nat)
    requires ContainerAt(v, s, p)
    ensures p + 1 < |s| && TypeAt(s, p) == Ok(if v.Object? then ObjectType else ArrayType)
  {
    hide Here, Text;
    ContainerParts(v, s, p);
    if Count(v) == 0 {
      EmptyBody(v);
      HereOne(s, p + 1, Body(v, 0) + [Closing(v.Object?)], Closing(v.Object?));
    } else {
      BodyParts(v, 0, s, p + 1);
    }
  }

  // ----- Examples -----

  const PLUS := Number(false, "1", "", Exponent.Exponent('e', "+", "5"))

  const TWO := Number(false, "2", "", NoExponent)

  lemma NumberTexts()
    ensures Valid(PLUS) && Text(PLUS) == "1e+5" && HasPlus(PLUS.exponent) && Need(PLUS) == 0
    ensures Valid(TWO) && Text(TWO) == "2" && PlusFree(TWO) && Need(TWO) == 0
  {
  }

  lemma ArrayText(items: seq<Value>)
    ensures Text(Array(items)) == "[" + Body(Array(items), 0) + "]"
  {
    hide Body;
  }

  lemma ArrayChild(items: seq<Value>, i: nat)
    requires i < |items|
    ensures ChildText(Array(items), i) == Text(items[i]) && Child(Array(items), i) == items[i]
    ensures ChildNeed(Array(items), i) == Need(items[i])
  {
    hide Text;
  }

  lemma PairText(v: Value, w: Value)
    ensures Text(Array([v, w])) == "[" + (Text(v) + ([','] + Text(w))) + "]"
  {
    hide Text, Body, ChildText;
    var both := [v, w];
    ArrayText(both);
    ArrayChild(both, 0);
    ArrayChild(both, 1);
    BodyUnfold(Array(both), 0);
    BodyUnfold(Array(both), 1);
  }

  lemma PairValid(v: Value, w: Value)
    requires Valid(v) && Valid(w)
    ensures Valid(Array([v, w]))
  {
  }

  lemma WholeText(v: Value, s: string)
    requires Container(v) && Valid(v) && Text(v) == s
    ensures ContainerAt(v, s, 0)
  {
    hide Text, Valid;
    assert s[0..|s|] == s;
  }

  lemma LostExample()
    ensures ContainerAt(Array([PLUS, TWO]), "[1e+5,2]", 0) && Ends(Array([PLUS, TWO]), 1, 1)
  {
    hide Text, Valid, Body, PlusFree, ContainerAt, ChildNeed;
    NumberTexts();
    var v := Array([PLUS, TWO]);
    PairText(PLUS, TWO);
    PairValid(PLUS, TWO);
    WholeText(v, "[1e+5,2]");
    ArrayChild([PLUS, TWO], 0);
    PlusSpoils(PLUS);
    assert Cut(v, 0, 1);
  }

  lemma SeenExample()
    ensures ContainerAt(Array([TWO, PLUS]), "[2,1e+5]", 0) && Ends(Array([TWO, PLUS]), 2, 1)
  {
    hide Text, Valid, Body, PlusFree, ContainerAt, ChildNeed;
    NumberTexts();
    var v := Array([TWO, PLUS]);
    PairText(TWO, PLUS);
    PairValid(TWO, PLUS);
    WholeText(v, "[2,1e+5]");
    ArrayChild([TWO, PLUS], 0);
    ArrayChild([TWO, PLUS], 1);
    PlusSpoils(PLUS);
    assert Cut(v, 1, 1);
  }

  lemma PlusSpoils(v: Value)
    requires v.Number? && HasPlus(v.exponent)
    ensures !PlusFree(v)
  {
  }

  /** The second element of [1e+5,2] is lost. */
  method CutShort() returns (r: Result<nat>)
    ensures r == Ok(1)
  {
    hide ContainerAt, Ends;
    LostExample();
    ghost var v := Array([PLUS, TWO]);
    var reader := new Reader("[1e+5,2]", 0, 0);
    r := reader.Size(v);
    EndsOnce(v, 1, if r.Ok? then r.value else 1, 1);
  }

  /** Both elements of [2,1e+5] are seen. */
  method LastPlus() returns (r: Result<nat>)
    ensures r == Ok(2)
  {
    hide ContainerAt, Ends;
    SeenExample();
    ghost var v := Array([TWO, PLUS]);
    var reader := new Reader("[2,1e+5]", 0, 0);
    r := reader.Size(v);
    EndsOnce(v, 2, if r.Ok? then r.value else 2, 1);
  }
}
