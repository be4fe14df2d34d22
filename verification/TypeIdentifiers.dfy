/** canonicalTypeID of core/deterministic_context.go, and a parser showing that it names types uniquely. */
module TypeIdentifiers {
  import opened Frames

  /** The types a context or a result can be made of.  A predeclared type has no package. */
  datatype GoType =
    | Named(pkg: string, name: string)
    | MapOf(key: GoType, elem: GoType)
    | SliceOf(elem: GoType)
    | ArrayOf(len: nat, elem: GoType)
    | AnyInterface

  const ANY := "interface {}"

  function TypeId(t: GoType): string {
    match t
    case Named(pkg, name) => if pkg == "" then name else pkg + "." + name
    case MapOf(key, elem) => "map[" + TypeId(key) + "]" + TypeId(elem)
    case SliceOf(elem) => "[]" + TypeId(elem)
    case ArrayOf(n, elem) => "[" + Decimal(n) + "]" + TypeId(elem)
    case AnyInterface => ANY
  }

  predicate Bracket(c: char) {
    c == '[' || c == ']'
  }

  predicate NoBrackets(s: string) {
    forall i :: 0 <= i < |s| ==> !Bracket(s[i])
  }

  /** Go's rules for names and import paths, as far as they matter here. */
  predicate GoodNames(t: GoType) {
    match t
    case Named(pkg, name) =>
      NoBrackets(pkg) && NoBrackets(name) && name != "" && name != "map" && '.' !in name && ' ' !in name
    case MapOf(key, elem) => GoodNames(key) && GoodNames(elem)
    case SliceOf(elem) => GoodNames(elem)
    case ArrayOf(_, elem) => GoodNames(elem)
    case AnyInterface => true
  }

  // ---------------------------------------------------------------- the parser

  /** The leading part without brackets. */
  function Word(s: string): (w: string)
    ensures w <= s && NoBrackets(w) && (|w| < |s| ==> Bracket(s[|w|]))
  {
    if |s| == 0 || Bracket(s[0]) then "" else [s[0]] + Word(s[1..])
  }

  /** The part after the last dot, and what precedes the dot. */
  function SplitName(w: string): GoType {
    if w == ANY then AnyInterface
    else if '.' !in w then Named("", w)
    else if w[|w| - 1] == '.' then Named(w[..|w| - 1], "")
    else
      match SplitName(w[..|w| - 1])
      case Named(pkg, name) => Named(pkg, name + [w[|w| - 1]])
      case t => t
  }

  type Parsed = Option<(GoType, string)>

  /** After "[len]", where an empty len makes a slice. */
  function Sequence(len: string, elem: Parsed): (r: Parsed)
    ensures r.Some? ==> elem.Some? && r.value.1 == elem.value.1
  {
    match elem
    case None => None
    case Some((t, after)) =>
      if len == "" then Some((SliceOf(t), after))
      else if ParseDecimal(len) < 0 then None
      else Some((ArrayOf(ParseDecimal(len), t), after))
  }

  function Keyed(key: GoType, elem: Parsed): (r: Parsed)
    ensures r.Some? ==> elem.Some? && r.value.1 == elem.value.1
  {
    match elem
    case None => None
    case Some((t, after)) => Some((MapOf(key, t), after))
  }

  function Parse(s: string): (r: Parsed)
    ensures r.Some? ==> |r.value.1| <= |s|
    decreases |s|
  {
    var w := Word(s);
    if w == "" then
      if |s| == 0 || s[0] == ']' then None
      else
        var len := Word(s[1..]);
        if 1 + |len| >= |s| || s[1 + |len|] != ']' then None else Sequence(len, Parse(s[2 + |len|..]))
    else if w == "map" && 3 < |s| && s[3] == '[' then
      match Parse(s[4..])
      case None => None
      case Some((key, middle)) => if middle == "" then None else Keyed(key, Parse(middle[1..]))
    else Some((SplitName(w), s[|w|..]))
  }

  // ---------------------------------------------------------------- reading identifiers back

  lemma {:induction false} WordThen(w: string, rest: string)
    requires NoBrackets(w) && (rest == "" || Bracket(rest[0]))
    ensures Word(w + rest) == w
  {
    if |w| == 0 {
      assert w + rest == rest;
    } else {
      WordThen(w[1..], rest);
      assert (w + rest)[1..] == w[1..] + rest;
    }
  }

  lemma {:induction false} SplitsPackaged(pkg: string, name: string)
    requires pkg != "" && '.' !in name && ' ' !in name
    ensures SplitName(pkg + "." + name) == Named(pkg, name)
    decreases |name|
  {
    var w := pkg + "." + name;
    assert w[|pkg|] == '.';
    if |name| == 0 {
      assert w[..|w| - 1] == pkg;
      assert w != ANY by { assert w[|w| - 1] == '.' && ANY[|ANY| - 1] == '}'; }
    } else {
      var front := name[..|name| - 1];
      assert w[..|w| - 1] == pkg + "." + front;
      SplitsPackaged(pkg, front);
      assert front + [name[|name| - 1]] == name;
      NotAny(w, |pkg|);
    }
  }

  lemma NotAny(w: string, i: nat)
    requires i < |w| && w[i] == '.'
    ensures w != ANY
  {
    assert forall k :: 0 <= k < |ANY| ==> ANY[k] != '.';
  }

  lemma SplitsNamed(t: GoType)
    requires t.Named? && GoodNames(t)
    ensures SplitName(TypeId(t)) == t && TypeId(t) != "" && TypeId(t) != "map" && NoBrackets(TypeId(t))
  {
    if t.pkg == "" {
      assert ANY[9] == ' ';
      assert t.name != ANY;
    } else {
      SplitsPackaged(t.pkg, t.name);
      assert TypeId(t)[|t.pkg|] == '.' && "map"[0] != '.' && "map"[1] != '.' && "map"[2] != '.';
    }
  }

  lemma {:induction false} DecimalWord(n: nat)
    ensures NoBrackets(Decimal(n)) && ParseDecimal(Decimal(n)) == n
  {
    ParsesDecimal(n);
  }

  predicate Ends(rest: string) {
    rest == "" || rest[0] == ']'
  }

  lemma ParsesWord(w: string, s: string, rest: string)
    requires NoBrackets(w) && w != "" && w != "map" && Ends(rest) && s == w + rest
    ensures Parse(s) == Some((SplitName(w), rest))
  {
    WordThen(w, rest);
    assert s[|w|..] == rest;
  }

  lemma ParsesSequence(len: string, s: string, tail: string)
    requires NoBrackets(len) && s == "[" + (len + ("]" + tail))
    ensures Parse(s) == Sequence(len, Parse(tail))
  {
    WordThen("", s);
    assert "" + s == s && s[1..] == len + ("]" + tail);
    WordThen(len, "]" + tail);
    assert s[1 + |len|] == ']' && s[2 + |len|..] == tail;
  }

  lemma ParsesMap(s: string, inside: string, key: GoType, middle: string)
    requires s == "map[" + inside && Parse(inside) == Some((key, middle)) && middle != ""
    ensures Parse(s) == Keyed(key, Parse(middle[1..]))
  {
    assert s == "map" + ("[" + inside);
    WordThen("map", "[" + inside);
    assert s[4..] == inside;
  }

  lemma Regroup(k: string, e: string, rest: string)
    ensures "map[" + k + "]" + e + rest == "map[" + (k + ("]" + (e + rest)))
    ensures "[" + k + "]" + e + rest == "[" + (k + ("]" + (e + rest)))
    ensures "[]" + e + rest == "[" + ("" + ("]" + (e + rest)))
    ensures ("]" + (e + rest))[1..] == e + rest
  {
  }

  lemma MapText(k: string, key: GoType, e: string, elem: GoType, rest: string)
    requires Parse(k + ("]" + (e + rest))) == Some((key, "]" + (e + rest))) && Parse(e + rest) == Some((elem, rest))
    ensures Parse("map[" + k + "]" + e + rest) == Some((MapOf(key, elem), rest))
  {
    Regroup(k, e, rest);
    ParsesMap("map[" + k + "]" + e + rest, k + ("]" + (e + rest)), key, "]" + (e + rest));
  }

  lemma SliceText(e: string, elem: GoType, rest: string)
    requires Parse(e + rest) == Some((elem, rest))
    ensures Parse("[]" + e + rest) == Some((SliceOf(elem), rest))
  {
    Regroup("", e, rest);
    ParsesSequence("", "[]" + e + rest, e + rest);
  }

  lemma ArrayText(n: nat, e: string, elem: GoType, rest: string)
    requires Parse(e + rest) == Some((elem, rest))
    ensures Parse("[" + Decimal(n) + "]" + e + rest) == Some((ArrayOf(n, elem), rest))
  {
    DecimalWord(n);
    Regroup(Decimal(n), e, rest);
    ParsesSequence(Decimal(n), "[" + Decimal(n) + "]" + e + rest, e + rest);
  }

  /** An identifier, alone or before a closing bracket, is read back as its type. */
  lemma {:induction false} ParsesTypeId(t: GoType, rest: string)
    requires GoodNames(t) && Ends(rest)
    ensures Parse(TypeId(t) + rest) == Some((t, rest))
    decreases t
  {
    match t
    case Named(_, _) =>
      SplitsNamed(t);
      ParsesWord(TypeId(t), TypeId(t) + rest, rest);
    case AnyInterface =>
      ParsesWord(ANY, ANY + rest, rest);
    case SliceOf(elem) =>
      ParsesTypeId(elem, rest);
      SliceText(TypeId(elem), elem, rest);
    case ArrayOf(n, elem) =>
      ParsesTypeId(elem, rest);
      ArrayText(n, TypeId(elem), elem, rest);
    case MapOf(key, elem) =>
      ParsesTypeId(key, "]" + (TypeId(elem) + rest));
      ParsesTypeId(elem, rest);
      MapText(TypeId(key), key, TypeId(elem), elem, rest);
  }

  /** Different types have different identifiers. */
  lemma TypeIdInjective(t: GoType, u: GoType)
    requires GoodNames(t) && GoodNames(u)
    ensures TypeId(t) == TypeId(u) <==> t == u
  {
    ParsesTypeId(t, "");
    ParsesTypeId(u, "");
    assert TypeId(t) + "" == TypeId(t) && TypeId(u) + "" == TypeId(u);
  }
}
