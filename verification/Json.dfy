/** The lazy reader of base/base/JSON.cpp: finding the end of an element without building a tree, proved against the
    whitespace-free texts of RFC 8259. */
module Json {
  import opened Chars

  // ----- Values and their texts -----

  /** One character of a string literal as it is written. */
  datatype Piece = Plain(c: char) | Escape(c: char) | Unicode(hex: string)

  datatype Exponent = NoExponent | Exponent(letter: char, sign: string, digits: string)

  datatype Value =
    | Null
    | True
    | False
    | Number(minus: bool, whole: string, fraction: string, exponent: Exponent)
    | Str(pieces: seq<Piece>)
    | Array(items: seq<Value>)
    | Object(fields: seq<Field>)

  datatype Field = Field(name: seq<Piece>, value: Value)

  predicate IsHex(c: char) {
    IsDigit(c) || 'a' <= c <= 'f' || 'A' <= c <= 'F'
  }

  predicate Digits(t: string) {
    |t| > 0 && forall i :: 0 <= i < |t| ==> IsDigit(t[i])
  }

  predicate ValidPiece(p: Piece) {
    match p
    case Plain(c) => c != '"' && c != '\\'
    case Escape(c) => c != 'u'
    case Unicode(hex) => |hex| == 4 && forall i :: 0 <= i < 4 ==> IsHex(hex[i])
  }

  predicate ValidPieces(ps: seq<Piece>) {
    forall i :: 0 <= i < |ps| ==> ValidPiece(ps[i])
  }

  predicate ValidExponent(e: Exponent) {
    e.Exponent? ==> e.letter in {'e', 'E'} && (e.sign == "" || e.sign == "-" || e.sign == "+") && Digits(e.digits)
  }

  predicate HasPlus(e: Exponent) {
    e.Exponent? && e.sign == "+"
  }

  predicate Valid(v: Value) {
    match v
    case Number(_, whole, fraction, exponent) =>
      Digits(whole) && (fraction == "" || Digits(fraction)) && ValidExponent(exponent)
    case Str(ps) => ValidPieces(ps)
    case Array(items) => forall i :: 0 <= i < |items| ==> Valid(items[i])
    case Object(fields) => forall i :: 0 <= i < |fields| ==> ValidPieces(fields[i].name) && Valid(fields[i].value)
    case _ => true
  }

  /** No number in the value has an exponent with a plus sign. */
  predicate PlusFree(v: Value) {
    match v
    case Number(_, _, _, exponent) => !HasPlus(exponent)
    case Array(items) => forall i :: 0 <= i < |items| ==> PlusFree(items[i])
    case Object(fields) => forall i :: 0 <= i < |fields| ==> PlusFree(fields[i].value)
    case _ => true
  }

  /** What the reader can skip. */
  predicate Readable(v: Value) {
    Valid(v) && PlusFree(v)
  }

  function PieceText(p: Piece): string {
    match p
    case Plain(c) => [c]
    case Escape(c) => ['\\', c]
    case Unicode(hex) => ['\\', 'u'] + hex
  }

  function PiecesText(ps: seq<Piece>): string {
    if ps == [] then "" else PieceText(ps[0]) + PiecesText(ps[1..])
  }

  function Quoted(ps: seq<Piece>): string {
    "\"" + PiecesText(ps) + "\""
  }

  function Sign(minus: bool): string {
    if minus then "-" else ""
  }

  function FractionText(fraction: string): string {
    if fraction == "" then "" else "." + fraction
  }

  function ExponentText(e: Exponent): string {
    if e.NoExponent? then "" else [e.letter] + e.sign + e.digits
  }

  /** The number of elements of an array or object. */
  function Count(v: Value): nat {
    match v
    case Array(items) => |items|
    case Object(fields) => |fields|
    case _ => 0
  }

  function Text(v: Value): string
    decreases v, Count(v) + 1
  {
    match v
    case Null => "null"
    case True => "true"
    case False => "false"
    case Number(minus, whole, fraction, exponent) =>
      Sign(minus) + whole + FractionText(fraction) + ExponentText(exponent)
    case Str(ps) => Quoted(ps)
    case Array(_) => "[" + Body(v, 0) + "]"
    case Object(_) => "{" + Body(v, 0) + "}"
  }

  function Child(v: Value, i: nat): Value
    requires i < Count(v)
  {
    match v
    case Array(items) => items[i]
    case Object(fields) => fields[i].value
  }

  /** An array element, or a name-value pair of an object. */
  function ChildText(v: Value, i: nat): string
    requires i < Count(v)
    decreases v, Count(v) - i, 0
  {
    match v
    case Array(items) => Text(items[i])
    case Object(fields) => Quoted(fields[i].name) + ":" + Text(fields[i].value)
  }

  /** The elements from the i-th on, separated by commas. */
  function Body(v: Value, i: nat): string
    requires i <= Count(v)
    decreases v, Count(v) - i, 1
  {
    if i == Count(v) then ""
    else ChildText(v, i) + (if i + 1 < Count(v) then "," + Body(v, i + 1) else "")
  }

  // ----- The depth an element needs -----

  function Max(a: nat, b: nat): nat {
    if a < b then b else a
  }

  /** How many levels below its own the skipper goes down in an element; a name-value pair is a level of its own. */
  function Need(v: Value): nat
    decreases v, Count(v) + 1
  {
    BodyNeed(v, 0)
  }

  function ChildNeed(v: Value, i: nat): nat
    requires i < Count(v)
    decreases v, Count(v) - i, 0
  {
    match v
    case Array(items) => Need(items[i])
    case Object(fields) => 1 + Need(fields[i].value)
  }

  function BodyNeed(v: Value, i: nat): nat
    requires i <= Count(v)
    decreases v, Count(v) - i, 1
  {
    if i == Count(v) then 0 else Max(1 + ChildNeed(v, i), BodyNeed(v, i + 1))
  }
}
