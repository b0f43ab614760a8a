/** getType and the skip functions of base/base/JSON.cpp, first as functions of the whole buffer, then in the source's
    own loops, proved to compute those functions on every input, well-formed or not. */
module JsonSkip {
  import opened Wrappers
  import opened Chars

  const MAX_DEPTH: nat := 100

  const END_OF_DATA := "JSON: unexpected end of data."
  const TOO_DEEP := "JSON: too deep."

  datatype ElementType = ObjectType | ArrayType | NumberType | StringType | BoolType | NullType | PairType

  // ----- Strings and numbers -----

  /** The first quote at or after p, or the end. */
  function FirstQuote(s: string, p: nat): (q: nat)
    requires p <= |s|
    ensures p <= q <= |s|
    decreases |s| - p
  {
    if p == |s| || s[p] == '"' then p else FirstQuote(s, p + 1)
  }

  /** The slow path: the position after the first quote that is not part of an escape sequence. */
  function SlowEnd(s: string, pos: nat): (r: Result<nat>)
    ensures r.Ok? ==> pos < r.value <= |s|
    decreases |s| - pos
  {
    if pos >= |s| then Err(END_OF_DATA)
    else if s[pos] == '"' then Ok(pos + 1)
    else if s[pos] != '\\' then SlowEnd(s, pos + 1)
    else if pos + 1 >= |s| then Err(END_OF_DATA)
    else if s[pos + 1] != 'u' then SlowEnd(s, pos + 2)
    else if pos + 5 >= |s| then Err(END_OF_DATA)
    else SlowEnd(s, pos + 6)
  }

  function StringEnd(s: string, p: nat): (r: Result<nat>)
    ensures r.Ok? ==> p < r.value <= |s|
  {
    if p >= |s| then Err(END_OF_DATA)
    else if s[p] != '"' then Err("JSON: expected \"")
    else
      var q := FirstQuote(s, p + 1);
      if q < |s| && s[q - 1] != '\\' then Ok(q + 1) else SlowEnd(s, p + 1)
  }

  /** The end of the run of digits from p. */
  function DigitsEnd(s: string, p: nat): (q: nat)
    ensures p <= q && (p <= |s| ==> q <= |s|)
    decreases |s| - p
  {
    if p < |s| && IsDigit(s[p]) then DigitsEnd(s, p + 1) else p
  }

  /** Past p if one of the characters stands there. */
  function Past(s: string, p: nat, cs: set<char>): nat {
    if p < |s| && s[p] in cs then p + 1 else p
  }

  function NumberEnd(s: string, p: nat): (q: nat)
    ensures p <= q && (p < |s| && (IsDigit(s[p]) || s[p] == '-') ==> p < q)
  {
    var p1 := DigitsEnd(s, Past(s, p, {'-'}));
    var p2 := DigitsEnd(s, Past(s, p1, {'.'}));
    DigitsEnd(s, Past(s, Past(s, p2, {'e', 'E'}), {'-'}))
  }

  // ----- Elements -----

  function TypeAt(s: string, p: nat): Result<ElementType>
    requires p < |s|
  {
    var c := s[p];
    if c == '{' then Ok(ObjectType)
    else if c == '[' then Ok(ArrayType)
    else if c == 't' || c == 'f' then Ok(BoolType)
    else if c == 'n' then Ok(NullType)
    else if c == '-' || IsDigit(c) then Ok(NumberType)
    else if c == '"' then
      var after := StringEnd(s, p);
      if after.Err? then Err(after.error)
      else if after.value < |s| && s[after.value] == ':' then Ok(PairType)
      else Ok(StringType)
    else Err("JSON: unexpected char")
  }

  /** The checks of the constructor. */
  function CheckInit(s: string, p: nat, level: nat): (r: Result<()>)
    ensures r.Ok? <==> p < |s| && level <= MAX_DEPTH
  {
    if p >= |s| then Err("JSON: begin >= end.") else if level > MAX_DEPTH then Err(TOO_DEEP) else Ok(())
  }

  function ElementEnd(s: string, p: nat, level: nat): (r: Result<nat>)
    requires p < |s| && level <= MAX_DEPTH
    ensures r.Ok? ==> p < r.value
    decreases MAX_DEPTH - level, |s| - p, 1
  {
    var t := TypeAt(s, p);
    if t.Err? then Err(t.error)
    else
      match t.value
      case NullType => Ok(p + 4)
      case BoolType => Ok(if s[p] == 't' then p + 4 else p + 5)
      case NumberType => Ok(NumberEnd(s, p))
      case StringType => StringEnd(s, p)
      case PairType => PairEnd(s, p, level)
      case ArrayType => ContainerEnd(s, p, level, false)
      case ObjectType => ContainerEnd(s, p, level, true)
  }

  function PairEnd(s: string, p: nat, level: nat): (r: Result<nat>)
    requires p < |s| && level <= MAX_DEPTH
    ensures r.Ok? ==> p < r.value
    decreases MAX_DEPTH - level, |s| - p, 0
  {
    var name := StringEnd(s, p);
    if name.Err? then name
    else
      var pos := name.value;
      if pos >= |s| then Err(END_OF_DATA)
      else if s[pos] != ':' then Err("JSON: expected :.")
      else
        var init := CheckInit(s, pos + 1, level + 1);
        if init.Err? then Err(init.error) else ElementEnd(s, pos + 1, level + 1)
  }

  /** An array or object whose opening bracket is at p. */
  function ContainerEnd(s: string, p: nat, level: nat, named: bool): (r: Result<nat>)
    requires p < |s| && level <= MAX_DEPTH
    ensures r.Ok? ==> p < r.value <= |s|
    decreases MAX_DEPTH - level, |s| - p, 0
  {
    if p + 1 >= |s| then Err(END_OF_DATA)
    else if s[p + 1] == Closing(named) then Ok(p + 2)
    else BodyEnd(s, p + 1, level, named)
  }

  function Closing(named: bool): char {
    if named then '}' else ']'
  }

  /** The loop over the elements of a container of this level, from the element at pos. */
  function BodyEnd(s: string, pos: nat, level: nat, named: bool): (r: Result<nat>)
    requires level <= MAX_DEPTH
    ensures r.Ok? ==> pos < r.value <= |s|
    decreases MAX_DEPTH - level, |s| - pos, 0
  {
    var init := CheckInit(s, pos, level + 1);
    if init.Err? then Err(init.error)
    else
      var child: Result<nat> := if named then PairEnd(s, pos, level + 1) else ElementEnd(s, pos, level + 1);
      if child.Err? then child
      else
        var q := child.value;
        if q >= |s| then Err(END_OF_DATA)
        else if s[q] == ',' then BodyEnd(s, q + 1, level, named)
        else if s[q] == Closing(named) then Ok(q + 1)
        else Result<nat>.Err("JSON: expected a comma or a closing bracket")
  }

  // ----- The source's loops -----

  /** memchr for the closing quote. */
  method FindQuote(s: string, p: nat) returns (q: nat)
    requires p <= |s|
    ensures q == FirstQuote(s, p)
  {
    q := p;
    while q < |s| && s[q] != '"'
      invariant p <= q <= |s| && FirstQuote(s, p) == FirstQuote(s, q)
    {
      q := q + 1;
    }
  }

  method SkipString(s: string, p: nat) returns (r: Result<nat>)
    ensures r == StringEnd(s, p)
  {
    if p >= |s| {
      return Err(END_OF_DATA);
    }
    if s[p] != '"' {
      return Err("JSON: expected \"");
    }
    var pos := p + 1;
    var closing := FindQuote(s, pos);
    if closing < |s| && s[closing - 1] != '\\' {
      return Ok(closing + 1);
    }
    while pos < |s| && s[pos] != '"'
      invariant p < pos && SlowEnd(s, p + 1) == SlowEnd(s, pos)
      decreases |s| - pos
    {
      if s[pos] == '\\' {
        pos := pos + 1;
        if pos >= |s| {
          return Err(END_OF_DATA);
        }
        if s[pos] == 'u' {
          pos := pos + 4;
          if pos >= |s| {
            return Err(END_OF_DATA);
          }
        }
      }
      pos := pos + 1;
    }
    if pos >= |s| {
      return Err(END_OF_DATA);
    }
    return Ok(pos + 1);
  }

  method SkipDigits(s: string, p: nat) returns (q: nat)
    ensures q == DigitsEnd(s, p)
  {
    q := p;
    while q < |s| && s[q] >= '0' && s[q] <= '9'
      invariant p <= q && DigitsEnd(s, p) == DigitsEnd(s, q)
      decreases |s| - q
    {
      q := q + 1;
    }
  }

  method SkipNumber(s: string, p: nat) returns (r: Result<nat>)
    ensures r == if p >= |s| then Err(END_OF_DATA) else Ok(NumberEnd(s, p))
  {
    hide DigitsEnd;
    var pos := p;
    if pos >= |s| {
      return Err(END_OF_DATA);
    }
    if s[pos] == '-' {
      pos := pos + 1;
    }
    pos := SkipDigits(s, pos);
    if pos < |s| && s[pos] == '.' {
      pos := pos + 1;
    }
    pos := SkipDigits(s, pos);
    if pos < |s| && (s[pos] == 'e' || s[pos] == 'E') {
      pos := pos + 1;
    }
    if pos < |s| && s[pos] == '-' {
      pos := pos + 1;
    }
    pos := SkipDigits(s, pos);
    return Ok(pos);
  }

  method GetType(s: string, p: nat) returns (r: Result<ElementType>)
    requires p < |s|
    ensures r == TypeAt(s, p)
  {
    var c := s[p];
    if c == '{' {
      return Ok(ObjectType);
    } else if c == '[' {
      return Ok(ArrayType);
    } else if c == 't' || c == 'f' {
      return Ok(BoolType);
    } else if c == 'n' {
      return Ok(NullType);
    } else if c == '-' || IsDigit(c) {
      return Ok(NumberType);
    } else if c == '"' {
      var after := SkipString(s, p);
      if after.Err? {
        return Err(after.error);
      }
      return Ok(if after.value < |s| && s[after.value] == ':' then PairType else StringType);
    }
    return Err("JSON: unexpected char");
  }

  method SkipElement(s: string, p: nat, level: nat) returns (r: Result<nat>)
    requires p < |s| && level <= MAX_DEPTH
    ensures r == ElementEnd(s, p, level)
    decreases MAX_DEPTH - level, |s| - p, 1
  {
    var t := GetType(s, p);
    if t.Err? {
      return Err(t.error);
    }
    match t.value {
      case NullType => r := Ok(p + 4);
      case BoolType => r := Ok(if s[p] == 't' then p + 4 else p + 5);
      case NumberType => r := SkipNumber(s, p);
      case StringType => r := SkipString(s, p);
      case PairType => r := SkipNameValuePair(s, p, level);
      case ArrayType => r := SkipContainer(s, p, level, false);
      case ObjectType => r := SkipContainer(s, p, level, true);
    }
  }

  method SkipNameValuePair(s: string, p: nat, level: nat) returns (r: Result<nat>)
    requires p < |s| && level <= MAX_DEPTH
    ensures r == PairEnd(s, p, level)
    decreases MAX_DEPTH - level, |s| - p, 0
  {
    r := SkipString(s, p);
    if r.Err? {
      return;
    }
    var pos := r.value;
    if pos >= |s| {
      return Err(END_OF_DATA);
    }
    if s[pos] != ':' {
      return Err("JSON: expected :.");
    }
    var init := CheckInit(s, pos + 1, level + 1);
    if init.Err? {
      return Err(init.error);
    }
    r := SkipElement(s, pos + 1, level + 1);
  }

  /** skipArray and skipObject, which differ in the bracket and in what an element is. */
  method SkipContainer(s: string, p: nat, level: nat, named: bool) returns (r: Result<nat>)
    requires p < |s| && level <= MAX_DEPTH
    ensures r == ContainerEnd(s, p, level, named)
    decreases MAX_DEPTH - level, |s| - p, 0
  {
    hide ElementEnd, PairEnd;
    var pos := p + 1;
    if pos >= |s| {
      return Err(END_OF_DATA);
    }
    if s[pos] == Closing(named) {
      return Ok(pos + 1);
    }
    while true
      invariant p < pos && BodyEnd(s, p + 1, level, named) == BodyEnd(s, pos, level, named)
      decreases |s| - pos
    {
      var init := CheckInit(s, pos, level + 1);
      if init.Err? {
        return Err(init.error);
      }
      if named {
        r := SkipNameValuePair(s, pos, level + 1);
      } else {
        r := SkipElement(s, pos, level + 1);
      }
      if r.Err? {
        return;
      }
      var q := r.value;
      if q >= |s| {
        return Err(END_OF_DATA);
      }
      if s[q] == ',' {
        pos := q + 1;
      } else if s[q] == Closing(named) {
        return Ok(q + 1);
      } else {
        return Err("JSON: expected a comma or a closing bracket");
      }
    }
  }
}
