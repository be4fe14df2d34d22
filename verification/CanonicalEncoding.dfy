/** The canonical byte encoding of core/deterministic_context.go, and a decoder for it. */
module CanonicalEncoding {
  import opened Values
  import opened Frames
  import Order

  // ---------------------------------------------------------------- the encoding

  function Encode(t: Tree): string
    decreases t, 1
  {
    match t
    case Nil => "n"
    case Iface(elem) => Encode(elem)
    case ScalarT(tid, s) => Frame(tid) + EncodeScalar(s)
    case NilMap(tid) => Frame(tid) + ['m', 0 as char]
    case MapT(tid, entries) =>
      Frame(tid) + (['m', 1 as char] + (Length8(|entries|) + EncodeEntries(t, Order.SortedKeys(entries.Keys))))
    case NilSlice(tid) => Frame(tid) + ['l', 0 as char]
    case ListT(tid, isArray, items) =>
      Frame(tid) + ((if isArray then "a" else ['l', 1 as char]) + (Length8(|items|) + EncodeItems(items)))
    case NonStringMap(tid, _) => Frame(tid)
    case Opaque(tid) => Frame(tid)
  }

  function EncodeScalar(s: Scalar): string {
    match s
    case BoolS(b) => ['b', (if b then 1 else 0) as char]
    case StrS(text) => "s" + Frame(text)
    case IntS(i) => "i" + Frame(Decimal(i))
    case UintS(u, _) => "u" + Frame(Decimal(u))
    case FloatS(token) => "f" + Frame(token)
  }

  function EncodeEntries(t: Tree, keys: seq<string>): string
    requires t.MapT? && forall k :: k in keys ==> k in t.entries
    decreases t, 0, |keys|
  {
    if |keys| == 0 then ""
    else Frame(keys[0]) + (Encode(t.entries[keys[0]]) + EncodeEntries(t, keys[1..]))
  }

  function EncodeItems(items: seq<Tree>): string
    decreases items, 0
  {
    if |items| == 0 then "" else Encode(items[0]) + EncodeItems(items[1..])
  }

  /** No function, channel, pointer or struct, and no map with non-string keys, anywhere inside. */
  predicate Supported(t: Tree) {
    match t
    case Iface(elem) => Supported(elem)
    case MapT(_, entries) => forall k :: k in entries ==> Supported(entries[k])
    case ListT(_, _, items) => forall i :: 0 <= i < |items| ==> Supported(items[i])
    case NonStringMap(_, _) => false
    case Opaque(_) => false
    case _ => true
  }

  /** Every length fits Go's eight-byte field, and integers are 64 bits wide. */
  ghost predicate Sized(t: Tree) {
    match t
    case Nil => true
    case Iface(elem) => Sized(elem)
    case ScalarT(tid, s) => |tid| < N_LENGTH && SizedScalar(s)
    case MapT(tid, entries) =>
      && |tid| < N_LENGTH && |entries| < TWO64
      && forall k :: k in entries ==> |k| < TWO64 && Sized(entries[k])
    case ListT(tid, _, items) =>
      && |tid| < N_LENGTH && |items| < TWO64
      && forall i :: 0 <= i < |items| ==> Sized(items[i])
    case _ => |t.tid| < N_LENGTH
  }

  predicate SizedScalar(s: Scalar) {
    match s
    case BoolS(_) => true
    case StrS(text) => |text| < TWO64
    case IntS(i) => -TWO64 < i < TWO64
    case UintS(u, _) => u < TWO64
    case FloatS(token) => |token| < TWO64
  }

  // ---------------------------------------------------------------- the decoder

  function Decode(b: string): (r: Option<(Tree, string)>)
    ensures r.Some? ==> |r.value.1| < |b|
    decreases |b|, 0
  {
    if |b| == 0 then None
    else if b[0] == 'n' then Some((Nil, b[1..]))
    else
      match Unframe(b)
      case None => None
      case Some((tid, r)) => DecodeBody(tid, r)
  }

  function DecodeBody(tid: string, r: string): (res: Option<(Tree, string)>)
    ensures res.Some? ==> |res.value.1| < |r|
    decreases |r|, 0
  {
    if |r| < 2 then None
    else if r[0] == 'a' then DecodeList(tid, true, r[1..])
    else if r[0] == 'l' then
      if r[1] == 0 as char then Some((NilSlice(tid), r[2..])) else DecodeList(tid, false, r[2..])
    else if r[0] == 'm' then
      if r[1] == 0 as char then Some((NilMap(tid), r[2..])) else DecodeMap(tid, r[2..])
    else
      match DecodeScalar(r)
      case None => None
      case Some((s, rest)) => Some((ScalarT(tid, s), rest))
  }

  function DecodeList(tid: string, isArray: bool, c: string): (res: Option<(Tree, string)>)
    ensures res.Some? ==> |res.value.1| <= |c|
    decreases |c|, 2
  {
    if |c| < 8 then None
    else
      match DecodeItems(c[8..], FromBigEndian(c[..8]))
      case None => None
      case Some((items, rest)) => Some((ListT(tid, isArray, items), rest))
  }

  function DecodeMap(tid: string, c: string): (res: Option<(Tree, string)>)
    ensures res.Some? ==> |res.value.1| <= |c|
    decreases |c|, 2
  {
    if |c| < 8 then None
    else
      match DecodeEntries(c[8..], FromBigEndian(c[..8]))
      case None => None
      case Some((entries, rest)) => Some((MapT(tid, entries), rest))
  }

  function DecodeScalar(r: string): (res: Option<(Scalar, string)>)
    requires |r| >= 2
    ensures res.Some? ==> |res.value.1| < |r|
  {
    if r[0] == 'b' then Some((BoolS(r[1] == 1 as char), r[2..]))
    else
      match Unframe(r[1..])
      case None => None
      case Some((text, rest)) =>
        match DecodeText(r[0], text)
        case None => None
        case Some(s) => Some((s, rest))
  }

  function DecodeText(tag: char, text: string): Option<Scalar> {
    if tag == 's' then Some(StrS(text))
    else if tag == 'i' then Some(IntS(ParseDecimal(text)))
    else if tag == 'u' then
      var u := ParseDecimal(text);
      if u < 0 then None else Some(UintS(u, false))
    else if tag == 'f' then Some(FloatS(text))
    else None
  }

  function DecodeEntries(b: string, n: nat): (r: Option<(map<string, Tree>, string)>)
    ensures r.Some? ==> |r.value.1| <= |b|
    decreases |b|, 1
  {
    if n == 0 then Some((map[], b))
    else
      match Unframe(b)
      case None => None
      case Some((k, b1)) =>
        match Decode(b1)
        case None => None
        case Some((v, b2)) =>
          match DecodeEntries(b2, n - 1)
          case None => None
          case Some((m, rest)) => Some((m[k := v], rest))
  }

  function DecodeItems(b: string, n: nat): (r: Option<(seq<Tree>, string)>)
    ensures r.Some? ==> |r.value.1| <= |b|
    decreases |b|, 1
  {
    if n == 0 then Some(([], b))
    else
      match Decode(b)
      case None => None
      case Some((v, b1)) =>
        match DecodeItems(b1, n - 1)
        case None => None
        case Some((vs, rest)) => Some(([v] + vs, rest))
  }

  // ---------------------------------------------------------------- unique decodability

  lemma DecodesScalar(s: Scalar, rest: string)
    requires SizedScalar(s)
    ensures |EncodeScalar(s)| >= 2 && EncodeScalar(s)[0] !in {'m', 'l', 'a'}
    ensures DecodeScalar(EncodeScalar(s) + rest) == Some((Erase(ScalarT("", s)).scalar, rest))
  {
    match s
    case BoolS(b) => assert (EncodeScalar(s) + rest)[2..] == rest;
    case StrS(text) => DecodesText("s", text, rest);
    case FloatS(token) => DecodesText("f", token, rest);
    case IntS(i) => ParsesDecimal(i); DecodesText("i", Decimal(i), rest);
    case UintS(u, _) => ParsesDecimal(u); DecodesText("u", Decimal(u), rest);
  }

  lemma DecodesText(tag: string, text: string, rest: string)
    requires |text| < TWO64 && |tag| == 1 && tag[0] != 'b' && DecodeText(tag[0], text).Some?
    ensures |tag + Frame(text)| >= 2 && (tag + Frame(text))[0] == tag[0]
    ensures DecodeScalar((tag + Frame(text)) + rest) == Some((DecodeText(tag[0], text).value, rest))
  {
    var r := (tag + Frame(text)) + rest;
    assert r[1..] == Frame(text) + rest && r[0] == tag[0];
    UnframesFrame(text, rest);
  }

  /** A type frame is never read as the bare nil byte. */
  lemma TypeFrameLead(tid: string, body: string, rest: string)
    requires |tid| < N_LENGTH
    ensures Decode((Frame(tid) + body) + rest) == DecodeBody(tid, body + rest)
  {
    LengthLead(|tid|);
    UnframesFrame(tid, body + rest);
    assert (Frame(tid) + body) + rest == Frame(tid) + (body + rest);
    assert (Frame(tid) + (body + rest))[0] == Length8(|tid|)[0];
  }

  /** Decoding what was encoded gives back the value, whatever follows it: the encoding is
      prefix-free and loses nothing but interface boxes. */
  lemma {:induction false} DecodesEncoding(t: Tree, rest: string)
    requires Supported(t) && Sized(t)
    ensures Decode(Encode(t) + rest) == Some((Erase(t), rest))
    decreases t, 1
  {
    match t
    case Nil => assert ("n" + rest)[1..] == rest;
    case Iface(elem) => DecodesEncoding(elem, rest);
    case ScalarT(tid, s) =>
      TypeFrameLead(tid, EncodeScalar(s), rest);
      DecodesScalar(s, rest);
    case NilMap(tid) =>
      TypeFrameLead(tid, ['m', 0 as char], rest);
      TagBody(tid, ['m', 0 as char], "", rest);
    case NilSlice(tid) =>
      TypeFrameLead(tid, ['l', 0 as char], rest);
      TagBody(tid, ['l', 0 as char], "", rest);
    case MapT(tid, entries) =>
      var c := Length8(|entries|) + EncodeEntries(t, Order.SortedKeys(entries.Keys));
      TypeFrameLead(tid, ['m', 1 as char] + c, rest);
      TagBody(tid, ['m', 1 as char], c, rest);
      DecodesMap(t, rest);
    case ListT(tid, isArray, items) =>
      var c := Length8(|items|) + EncodeItems(items);
      var tag := if isArray then "a" else ['l', 1 as char];
      TypeFrameLead(tid, tag + c, rest);
      TagBody(tid, tag, c, rest);
      DecodesList(t, rest);
  }

  lemma TagBody(tid: string, tag: string, c: string, rest: string)
    requires tag == "a" || (|tag| == 2 && tag[0] in {'m', 'l'} && tag[1] in {0 as char, 1 as char})
    requires tag != "a" ==> (tag[1] == 0 as char <==> c == "")
    requires tag == "a" ==> |c| > 0
    ensures DecodeBody(tid, (tag + c) + rest) ==
      if tag == "a" then DecodeList(tid, true, c + rest)
      else if tag[1] == 0 as char then Some((if tag[0] == 'm' then NilMap(tid) else NilSlice(tid), rest))
      else if tag[0] == 'm' then DecodeMap(tid, c + rest)
      else DecodeList(tid, false, c + rest)
  {
    var r := (tag + c) + rest;
    assert r[..|tag|] == tag && r[|tag|..] == c + rest;
    assert r[0] == tag[0];
    if |tag| == 2 {
      assert r[1] == tag[1];
      assert c == "" ==> c + rest == rest;
    }
  }

  ghost function Erased(t: Tree, keys: seq<string>): map<string, Tree>
    requires t.MapT? && forall k :: k in keys ==> k in t.entries
  {
    map k | k in keys :: Erase(t.entries[k])
  }

  lemma ErasedStep(t: Tree, keys: seq<string>)
    requires t.MapT? && |keys| > 0 && forall k :: k in keys ==> k in t.entries
    ensures Erased(t, keys) == Erased(t, keys[1..])[keys[0] := Erase(t.entries[keys[0]])]
  {
    assert keys == [keys[0]] + keys[1..];
  }

  lemma CountAt(n: nat, body: string, rest: string)
    requires n < TWO64
    ensures var c := (Length8(n) + body) + rest;
      |c| >= 8 && FromBigEndian(c[..8]) == n && c[8..] == body + rest
  {
    LengthLead(n);
    assert ((Length8(n) + body) + rest)[..8] == Length8(n);
  }

  lemma {:induction false} DecodesMap(t: Tree, rest: string)
    requires t.MapT? && Supported(t) && Sized(t)
    ensures var keys := Order.SortedKeys(t.entries.Keys);
      DecodeMap(t.tid, (Length8(|t.entries|) + EncodeEntries(t, keys)) + rest) == Some((Erase(t), rest))
    decreases t, 0
  {
    var keys := Order.SortedKeys(t.entries.Keys);
    assert |keys| == |t.entries.Keys| == |t.entries|;
    CountAt(|keys|, EncodeEntries(t, keys), rest);
    DecodesEntries(t, keys, rest);
    assert Erased(t, keys) == Erase(t).entries;
  }

  lemma {:induction false} DecodesEntries(t: Tree, keys: seq<string>, rest: string)
    requires t.MapT? && Supported(t) && Sized(t) && forall k :: k in keys ==> k in t.entries
    ensures DecodeEntries(EncodeEntries(t, keys) + rest, |keys|) == Some((Erased(t, keys), rest))
    decreases t, 0, |keys|
  {
    if |keys| == 0 {
      assert "" + rest == rest;
    } else {
      var k, v, tail := keys[0], Encode(t.entries[keys[0]]), EncodeEntries(t, keys[1..]);
      Regroup(Frame(k), v, tail, rest);
      UnframesFrame(k, v + (tail + rest));
      DecodesEncoding(t.entries[k], tail + rest);
      DecodesEntries(t, keys[1..], rest);
      ErasedStep(t, keys);
    }
  }

  lemma Regroup(a: string, b: string, c: string, d: string)
    ensures (a + (b + c)) + d == a + (b + (c + d))
  {
  }

  lemma {:induction false} DecodesList(t: Tree, rest: string)
    requires t.ListT? && Supported(t) && Sized(t)
    ensures DecodeList(t.tid, t.isArray, (Length8(|t.items|) + EncodeItems(t.items)) + rest) == Some((Erase(t), rest))
    decreases t, 0
  {
    CountAt(|t.items|, EncodeItems(t.items), rest);
    DecodesItems(t.items, rest);
  }

  lemma {:induction false} DecodesItems(items: seq<Tree>, rest: string)
    requires forall i :: 0 <= i < |items| ==> Supported(items[i]) && Sized(items[i])
    ensures DecodeItems(EncodeItems(items) + rest, |items|)
         == Some((EraseAll(items), rest))
    decreases items, 0
  {
    if |items| == 0 {
      assert "" + rest == rest;
    } else {
      var tail := EncodeItems(items[1..]);
      assert EncodeItems(items) + rest == Encode(items[0]) + (tail + rest);
      DecodesEncoding(items[0], tail + rest);
      DecodesItems(items[1..], rest);
    }
  }

  lemma {:induction false} EncodeIgnoresBoxes(t: Tree)
    requires Supported(t)
    ensures Encode(Erase(t)) == Encode(t)
    decreases t, 1
  {
    match t
    case Iface(elem) => EncodeIgnoresBoxes(elem);
    case MapT(_, entries) =>
      assert Erase(t).entries.Keys == entries.Keys;
      assert |Erase(t).entries| == |Erase(t).entries.Keys| == |entries|;
      EntriesIgnoreBoxes(t, Order.SortedKeys(entries.Keys));
    case ListT(_, _, items) => ItemsIgnoreBoxes(items);
    case _ =>
  }

  lemma {:induction false} EntriesIgnoreBoxes(t: Tree, keys: seq<string>)
    requires t.MapT? && Supported(t) && forall k :: k in keys ==> k in t.entries
    ensures EncodeEntries(Erase(t), keys) == EncodeEntries(t, keys)
    decreases t, 0, |keys|
  {
    if |keys| > 0 {
      EncodeIgnoresBoxes(t.entries[keys[0]]);
      EntriesIgnoreBoxes(t, keys[1..]);
    }
  }

  lemma {:induction false} ItemsIgnoreBoxes(items: seq<Tree>)
    requires forall i :: 0 <= i < |items| ==> Supported(items[i])
    ensures EncodeItems(EraseAll(items)) == EncodeItems(items)
    decreases items, 0
  {
    if |items| > 0 {
      EncodeIgnoresBoxes(items[0]);
      ItemsIgnoreBoxes(items[1..]);
    }
  }

  /** Two encodings agree, or one is a prefix of the other, exactly when the values agree. */
  lemma EncodingInjective(t: Tree, u: Tree, restT: string, restU: string)
    requires Supported(t) && Sized(t) && Supported(u) && Sized(u)
    ensures Encode(t) + restT == Encode(u) + restU <==> Erase(t) == Erase(u) && restT == restU
    ensures Encode(t) == Encode(u) <==> Erase(t) == Erase(u)
  {
    DecodesEncoding(t, restT);
    DecodesEncoding(u, restU);
    EncodeIgnoresBoxes(t);
    EncodeIgnoresBoxes(u);
    DecodesEncoding(t, "");
    DecodesEncoding(u, "");
    assert Encode(t) + "" == Encode(t) && Encode(u) + "" == Encode(u);
  }

  // ---------------------------------------------------------------- preimages

  const CONTEXT_TAG := "GSAS-DETERMINISTIC-CONTEXT-v1"
  const VALUE_TAG := "GSAS-PRIMITIVE-VALUE-v1"

  /** What `computeContextCommitment` hashes. */
  function ContextPreimage(data: Tree, time: int): string {
    Frame(CONTEXT_TAG) + (Frame(Decimal(time)) + Encode(data))
  }

  /** What `canonicalPrimitiveJSON` returns. */
  function ValuePreimage(value: Tree): string {
    Frame(VALUE_TAG) + Encode(value)
  }

  /** The context preimage binds the logical time and the exact value. */
  lemma ContextPreimageInjective(d1: Tree, t1: int, d2: Tree, t2: int)
    requires Supported(d1) && Sized(d1) && Supported(d2) && Sized(d2)
    requires -TWO64 < t1 < TWO64 && -TWO64 < t2 < TWO64
    ensures ContextPreimage(d1, t1) == ContextPreimage(d2, t2) <==> t1 == t2 && Erase(d1) == Erase(d2)
  {
    ParsesDecimal(t1);
    ParsesDecimal(t2);
    UnframesFrame(CONTEXT_TAG, Frame(Decimal(t1)) + Encode(d1));
    UnframesFrame(CONTEXT_TAG, Frame(Decimal(t2)) + Encode(d2));
    UnframesFrame(Decimal(t1), Encode(d1));
    UnframesFrame(Decimal(t2), Encode(d2));
    EncodingInjective(d1, d2, "", "");
  }

  /** Repeatability is checked on these bytes: equal exactly when the values are. */
  lemma ValuePreimageInjective(v: Tree, w: Tree)
    requires Supported(v) && Sized(v) && Supported(w) && Sized(w)
    ensures ValuePreimage(v) == ValuePreimage(w) <==> Erase(v) == Erase(w)
  {
    UnframesFrame(VALUE_TAG, Encode(v));
    UnframesFrame(VALUE_TAG, Encode(w));
    EncodingInjective(v, w, "", "");
  }

  /** A context is never hashed from the bytes of a primitive value. */
  lemma PreimagesDisjoint(data: Tree, time: int, value: Tree)
    ensures ContextPreimage(data, time) != ValuePreimage(value)
  {
    UnframesFrame(CONTEXT_TAG, Frame(Decimal(time)) + Encode(data));
    UnframesFrame(VALUE_TAG, Encode(value));
    assert CONTEXT_TAG[5] != VALUE_TAG[5];
  }

  /** Two different texts with one digest. */
  ghost predicate DigestsCollide(sha: string -> string, x: string, y: string) {
    x != y && sha(x) == sha(y)
  }

  /** Equal commitments mean equal time and data, or the two preimages are a collision. */
  lemma CommitmentBinds(sha: string -> string, d1: Tree, t1: int, d2: Tree, t2: int)
    requires Supported(d1) && Sized(d1) && Supported(d2) && Sized(d2)
    requires -TWO64 < t1 < TWO64 && -TWO64 < t2 < TWO64
    requires sha(ContextPreimage(d1, t1)) == sha(ContextPreimage(d2, t2))
    ensures || (t1 == t2 && Erase(d1) == Erase(d2))
            || DigestsCollide(sha, ContextPreimage(d1, t1), ContextPreimage(d2, t2))
  {
    ContextPreimageInjective(d1, t1, d2, t2);
  }
}
