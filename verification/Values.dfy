/** Go values as the repository's reflective walkers see them.  A Go string is a Dafny string with
    one character per byte.  Every node carries the text `canonicalTypeID` gives for its type. */
module Values {

  datatype Scalar =
    | BoolS(b: bool)
    | StrS(s: string)
    | IntS(i: int)
    | UintS(u: nat, uintptr: bool)   // reflect.Uintptr, which only `clonePrimitiveValue` rejects
    | FloatS(token: string)          // strconv.FormatFloat(v, 'g', -1, bits)

  datatype Tree =
    | Nil                                             // an invalid value or a nil interface
    | Iface(elem: Tree)                               // a non-nil interface holding elem
    | ScalarT(tid: string, scalar: Scalar)
    | NilMap(tid: string)                             // maps with string keys
    | MapT(tid: string, entries: map<string, Tree>)
    | NilSlice(tid: string)
    | ListT(tid: string, isArray: bool, items: seq<Tree>)
    | NonStringMap(tid: string, isNil: bool)          // a map whose key kind is not string
    | Opaque(tid: string)                             // functions, channels, pointers, structs, ...

  const MAP_TYPE := "map[string]interface {}"
  const SLICE_TYPE := "[]interface {}"
  const NUMBER_TYPE := "encoding/json.Number"

  /** NaN and the infinities are exactly the values printed with these tokens. */
  predicate Finite(token: string) {
    token != "NaN" && token != "+Inf" && token != "-Inf"
  }

  /** The value without the interface boxes that hold its parts. */
  function Erase(t: Tree): Tree
    decreases t, 1
  {
    match t
    case Iface(elem) => Erase(elem)
    case ScalarT(tid, UintS(u, _)) => ScalarT(tid, UintS(u, false))
    case MapT(tid, entries) => MapT(tid, map k | k in entries :: Erase(entries[k]))
    case ListT(tid, isArray, items) => ListT(tid, isArray, EraseAll(items))
    case _ => t
  }

  function EraseAll(items: seq<Tree>): (r: seq<Tree>)
    ensures |r| == |items| && forall i :: 0 <= i < |items| ==> r[i] == Erase(items[i])
    decreases items, 0
  {
    if |items| == 0 then [] else [Erase(items[0])] + EraseAll(items[1..])
  }

  predicate Digit(c: char) {
    '0' <= c <= '9'
  }

  /** The number of leading digits. */
  function Digits(s: string): (n: nat)
    ensures n <= |s|
    ensures forall i :: 0 <= i < n ==> Digit(s[i])
    ensures n < |s| ==> !Digit(s[n])
  {
    if |s| > 0 && Digit(s[0]) then 1 + Digits(s[1..]) else 0
  }

  /** What `json.Marshal` accepts as a json.Number: the RFC 8259 number grammar, and the empty
      string, which it prints as 0. */
  predicate ValidJsonNumber(s: string) {
    |s| == 0 || Unsigned(if s[0] == '-' then s[1..] else s)
  }

  predicate Unsigned(s: string) {
    var n := Digits(s);
    n > 0 && (s[0] == '0' ==> n == 1) && Fraction(s[n..])
  }

  predicate Fraction(s: string) {
    if |s| > 0 && s[0] == '.' then
      var n := Digits(s[1..]);
      n > 0 && Exponent(s[1 + n..])
    else Exponent(s)
  }

  predicate Exponent(s: string) {
    if |s| == 0 then true
    else
      var r := if |s| > 1 && (s[1] == '+' || s[1] == '-') then s[2..] else s[1..];
      (s[0] == 'e' || s[0] == 'E') && |r| > 0 && Digits(r) == |r|
  }

  /** The scalar kinds every walker accepts: a finite float, and a well-formed json.Number. */
  predicate GoodScalar(tid: string, s: Scalar) {
    match s
    case StrS(text) => tid == NUMBER_TYPE ==> ValidJsonNumber(text)
    case FloatS(token) => Finite(token)
    case _ => true
  }
}
