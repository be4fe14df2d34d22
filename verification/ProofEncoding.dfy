/** The tagged encoding of values in proofs (core/proof_theory.go), its decoder, and the clone of
    stored values. */
module ProofEncoding {
  import opened Values
  import opened Frames
  import opened PrimitiveContracts
  import DC = DeterministicContext
  import ObjectGraph

  /** JSON documents.  A proof stores every number as a tagged string, so JNum only occurs in the envelope. */
  datatype Json =
    | JNull
    | JBool(b: bool)
    | JNum(n: int)
    | JStr(s: string)
    | JArr(items: seq<Json>)
    | JObj(fields: map<string, Json>)

  // ---------------------------------------------------------------- encoding

  /** proofTaggedValue */
  function Tagged(kind: string, tid: string, value: Json): Json {
    JObj(map["$gsas_kind" := JStr(kind), "$gsas_type" := JStr(tid), "$gsas_value" := value])
  }

  function TagScalar(tid: string, s: Scalar): Json {
    match s
    case BoolS(b) => if tid == "bool" then JBool(b) else Tagged("bool", tid, JBool(b))
    case StrS(text) => if tid == "string" then JStr(text) else Tagged("string", tid, JStr(text))
    case IntS(i) => Tagged("int", tid, JStr(Decimal(i)))
    case UintS(u, _) => Tagged("uint", tid, JStr(Decimal(u)))
    case FloatS(token) => Tagged("float", tid, JStr(token))
  }

  /** The document a value is encoded as; containers below the root always carry a tag. */
  function Tag(t: Tree): Json
    decreases t, 1
  {
    match t
    case Iface(u) => Tag(u)
    case ScalarT(tid, s) => TagScalar(tid, s)
    case NilMap(tid) => Tagged("map", tid, JNull)
    case MapT(tid, es) => Tagged("map", tid, JObj(map k | k in es :: Tag(es[k])))
    case NilSlice(tid) => Tagged("slice", tid, JNull)
    case ListT(tid, isArray, ts) => Tagged(if isArray then "array" else "slice", tid, JArr(TagAll(ts)))
    case _ => JNull
  }

  function TagAll(ts: seq<Tree>): (r: seq<Json>)
    ensures |r| == |ts| && forall i :: 0 <= i < |ts| ==> r[i] == Tag(ts[i])
    decreases ts, 0
  {
    if |ts| == 0 then [] else [Tag(ts[0])] + TagAll(ts[1..])
  }

  predicate CanTag(t: Tree, depth: nat) {
    Encodable(t) && Fits(t, VALUE_DEPTH - depth)
  }

  // ---------------------------------------------------------------- decoding

  function Untag(j: Json): Option<Tree>
    decreases j
  {
    match j
    case JNull => Some(Nil)
    case JBool(b) => Some(ScalarT("bool", BoolS(b)))
    case JStr(s) => Some(ScalarT("string", StrS(s)))
    case JObj(fields) =>
      if fields.Keys != {"$gsas_kind", "$gsas_type", "$gsas_value"} then None
      else if !fields["$gsas_kind"].JStr? || !fields["$gsas_type"].JStr? then None
      else UntagKind(fields["$gsas_kind"].s, fields["$gsas_type"].s, fields["$gsas_value"])
    case _ => None
  }

  function UntagKind(kind: string, tid: string, value: Json): Option<Tree>
    decreases value
  {
    match value
    case JNull => if kind == "map" then Some(NilMap(tid)) else if kind == "slice" then Some(NilSlice(tid)) else None
    case JBool(b) => if kind == "bool" then Some(ScalarT(tid, BoolS(b))) else None
    case JStr(s) => UntagText(kind, tid, s)
    case JObj(fields) =>
      if kind == "map" && forall k :: k in fields ==> Untag(fields[k]).Some? then
        Some(MapT(tid, map k | k in fields :: Untag(fields[k]).value))
      else None
    case JArr(items) =>
      if kind in {"slice", "array"} && forall i :: 0 <= i < |items| ==> Untag(items[i]).Some? then
        Some(ListT(tid, kind == "array", seq(|items|, i requires 0 <= i < |items| => Untag(items[i]).value)))
      else None
    case JNum(_) => None
  }

  function UntagText(kind: string, tid: string, s: string): Option<Tree> {
    if kind == "string" then Some(ScalarT(tid, StrS(s)))
    else if kind == "int" then Some(ScalarT(tid, IntS(ParseDecimal(s))))
    else if kind == "uint" && ParseDecimal(s) >= 0 then Some(ScalarT(tid, UintS(ParseDecimal(s), false)))
    else if kind == "float" then Some(ScalarT(tid, FloatS(s)))
    else None
  }

  lemma UntagTagged(kind: string, tid: string, value: Json)
    ensures Untag(Tagged(kind, tid, value)) == UntagKind(kind, tid, value)
  {
    assert Tagged(kind, tid, value).fields.Keys == {"$gsas_kind", "$gsas_type", "$gsas_value"};
  }

  /** Every encoded value is recovered exactly, boxes apart.  A user map may use the tag names as keys:
      its entries sit under a tag of their own and are never read as one. */
  lemma {:induction false} UntagTag(t: Tree)
    requires Encodable(t)
    ensures Untag(Tag(t)) == Some(Erase(t))
    decreases t
  {
    match t
    case Iface(u) => UntagTag(u);
    case ScalarT(tid, s) => UntagScalar(tid, s);
    case NilMap(tid) => UntagTagged("map", tid, JNull);
    case NilSlice(tid) => UntagTagged("slice", tid, JNull);
    case MapT(tid, es) =>
      var fields := map k | k in es :: Tag(es[k]);
      UntagTagged("map", tid, JObj(fields));
      forall k | k in es ensures Untag(fields[k]) == Some(Erase(es[k])) { UntagTag(es[k]); }
      assert UntagKind("map", tid, JObj(fields)).value.entries == Erase(t).entries;
    case ListT(tid, isArray, ts) =>
      var kind := if isArray then "array" else "slice";
      UntagTagged(kind, tid, JArr(TagAll(ts)));
      forall i | 0 <= i < |ts| ensures Untag(TagAll(ts)[i]) == Some(Erase(ts[i])) { UntagTag(ts[i]); }
      assert UntagKind(kind, tid, JArr(TagAll(ts))).value.items == Erase(t).items;
    case _ =>
  }

  lemma UntagScalar(tid: string, s: Scalar)
    ensures Untag(TagScalar(tid, s)) == Some(Erase(ScalarT(tid, s)))
  {
    match s
    case BoolS(b) => UntagTagged("bool", tid, JBool(b));
    case StrS(text) => UntagTagged("string", tid, JStr(text));
    case FloatS(token) => UntagTagged("float", tid, JStr(token));
    case IntS(i) => UntagNumber("int", tid, i);
    case UintS(u, _) => UntagNumber("uint", tid, u);
  }

  lemma UntagNumber(kind: string, tid: string, n: int)
    requires kind == "int" || (kind == "uint" && n >= 0)
    ensures Untag(Tagged(kind, tid, JStr(Decimal(n))))
         == Some(ScalarT(tid, if kind == "int" then IntS(n) else UintS(n, false)))
  {
    var text := Decimal(n);
    assert ParseDecimal(text) == n by { ParsesDecimal(n); }
    UntagTagged(kind, tid, JStr(text));
  }

  lemma {:induction false} TagIgnoresBoxes(t: Tree)
    ensures Tag(Erase(t)) == Tag(t)
    decreases t
  {
    match t
    case Iface(u) => TagIgnoresBoxes(u);
    case MapT(tid, es) =>
      forall k | k in es ensures Tag(Erase(es[k])) == Tag(es[k]) { TagIgnoresBoxes(es[k]); }
      assert (map k | k in Erase(t).entries :: Tag(Erase(t).entries[k])) == (map k | k in es :: Tag(es[k]));
    case ListT(_, _, ts) =>
      forall i | 0 <= i < |ts| ensures Tag(Erase(ts[i])) == Tag(ts[i]) { TagIgnoresBoxes(ts[i]); }
      assert TagAll(EraseAll(ts)) == TagAll(ts);
    case _ =>
  }

  /** Two values have the same encoding exactly when they are the same, types included. */
  lemma TagInjective(t: Tree, u: Tree)
    requires Encodable(t) && Encodable(u)
    ensures Tag(t) == Tag(u) <==> Erase(t) == Erase(u)
  {
    UntagTag(t);
    UntagTag(u);
    TagIgnoresBoxes(t);
    TagIgnoresBoxes(u);
  }

  // ---------------------------------------------------------------- root containers

  /** reflect.ValueOf on an interface{} slot. */
  function Unboxed(t: Tree): Tree {
    if t.Iface? then t.elem else t
  }

  /** encodeProofRootObject: the root carries no tag. */
  function RootObject(t: Tree): Option<Json> {
    match t
    case NilMap(_) => Some(JObj(map[]))
    case MapT(_, es) =>
      if forall k :: k in es ==> CanTag(es[k], 0) then Some(JObj(map k | k in es :: Tag(es[k]))) else None
    case _ => None
  }

  /** encodeProofRootArray */
  function RootArray(t: Tree): Option<Json> {
    match t
    case NilSlice(_) => Some(JArr([]))
    case ListT(_, _, ts) => if forall i :: 0 <= i < |ts| ==> CanTag(ts[i], 0) then Some(JArr(TagAll(ts))) else None
    case _ => None
  }

  ghost function RootEntries(t: Tree): map<string, Tree> {
    if t.MapT? then Erase(t).entries else map[]
  }

  ghost function RootItems(t: Tree): seq<Tree> {
    if t.ListT? then EraseAll(t.items) else []
  }

  /** At the root only the container's type and the difference between nil and empty are forgotten. */
  lemma RootObjectInjective(t: Tree, u: Tree)
    requires RootObject(t).Some? && RootObject(u).Some?
    ensures RootObject(t) == RootObject(u) <==> RootEntries(t) == RootEntries(u)
  {
    var f, g := RootObject(t).value.fields, RootObject(u).value.fields;
    assert f.Keys == RootEntries(t).Keys && g.Keys == RootEntries(u).Keys;
    forall k | k in f && k in g ensures f[k] == g[k] <==> RootEntries(t)[k] == RootEntries(u)[k] {
      TagInjective(t.entries[k], u.entries[k]);
    }
    if RootObject(t) == RootObject(u) {
      assert f == g;
      assert RootEntries(t) == RootEntries(u);
    }
    if RootEntries(t) == RootEntries(u) {
      assert f == g;
    }
  }

  lemma RootArrayInjective(t: Tree, u: Tree)
    requires RootArray(t).Some? && RootArray(u).Some?
    ensures RootArray(t) == RootArray(u) <==> RootItems(t) == RootItems(u)
  {
    var f, g := RootArray(t).value.items, RootArray(u).value.items;
    assert |f| == |RootItems(t)| && |g| == |RootItems(u)|;
    forall i | 0 <= i < |f| && i < |g| ensures f[i] == g[i] <==> RootItems(t)[i] == RootItems(u)[i] {
      TagInjective(t.items[i], u.items[i]);
    }
    if RootArray(t) == RootArray(u) {
      assert f == g;
      assert RootItems(t) == RootItems(u);
    }
    if RootItems(t) == RootItems(u) {
      assert f == g;
    }
  }

  lemma RootFits(t: Tree)
    requires (t.MapT? || t.ListT?) && Encodable(t)
    ensures (if t.MapT? then RootObject(t).Some? else RootArray(t).Some?) <==> Fits(t, VALUE_DEPTH + 1)
  {
  }

  /** The proof encoder accepts a normalised result exactly when no value of the result the primitive
      returned lay more than 32 containers below its root; the normaliser itself allows 64. */
  lemma NormalisedEncodes(raw: Tree)
    requires Norm(raw, 0).Some? && (Norm(raw, 0).value.MapT? || Norm(raw, 0).value.ListT?)
    ensures var n := Norm(raw, 0).value;
      (if n.MapT? then RootObject(n).Some? else RootArray(n).Some?) <==> Nested(raw, 32)
  {
    var n := Norm(raw, 0).value;
    NormIsPlain(raw, 0);
    PlainEncodable(n);
    RootFits(n);
    PlainDepth(n, 32);
    NormKeepsNesting(raw, 0, 32);
  }

  /** Results made of interface{} containers alone encode whenever they normalise. */
  lemma PlainResultsEncode(raw: Tree)
    requires Plain(raw) && (raw.MapT? || raw.ListT?) && Norm(raw, 0).Some?
    ensures if raw.MapT? then RootObject(raw).Some? else RootArray(raw).Some?
  {
    NormSucceeds(raw, 0);
    PlainEncodable(raw);
    FitsMore(raw, VALUE_DEPTH, VALUE_DEPTH + 1);
    RootFits(raw);
  }

  /** n typed slices around an empty one: [][]...[]bool. */
  function TypedNest(n: nat): Tree {
    ListT(TypedName(n + 1), false, if n == 0 then [] else [TypedNest(n - 1)])
  }

  function TypedName(n: nat): string {
    if n == 0 then "bool" else "[]" + TypedName(n - 1)
  }

  lemma {:induction false} TypedNestFacts(n: nat, levels: int, budget: int)
    ensures Nested(TypedNest(n), levels) <==> levels >= n
    ensures Fits(TypedNest(n), budget) <==> budget >= n
    ensures Acceptable(TypedNest(n))
    decreases n
  {
    if n > 0 {
      TypedNestFacts(n - 1, levels - 1, budget - 1);
      assert TypedNest(n).items[0] == TypedNest(n - 1);
    }
  }

  lemma TypedNestNormal(n: nat)
    requires n <= VALUE_DEPTH
    ensures Norm(TypedNest(n), 0).Some? && Norm(TypedNest(n), 0).value.ListT?
  {
    TypedNestFacts(n, 0, VALUE_DEPTH);
    NormSucceeds(TypedNest(n), 0);
  }

  /** Typed results nested 33 to 64 slices deep: normalisation accepts them, and no proof can hold what
      it makes of them, although a proof could hold the result itself. */
  lemma TypedNestIsLost(n: nat)
    requires 32 < n <= VALUE_DEPTH
    ensures Norm(TypedNest(n), 0).Some? && Norm(TypedNest(n), 0).value.ListT?
    ensures RootArray(Norm(TypedNest(n), 0).value).None? && RootArray(TypedNest(n)).Some?
  {
    TypedNestNormal(n);
    TypedNestFacts(n, 32, VALUE_DEPTH + 1);
    NormalisedEncodes(TypedNest(n));
    TypedNestEncodable(n);
    RootFits(TypedNest(n));
  }

  lemma {:induction false} TypedNestEncodable(n: nat)
    ensures Encodable(TypedNest(n))
  {
    if n > 0 {
      TypedNestEncodable(n - 1);
    }
  }

  /** n boxed lists in a map: what a context of that depth looks like. */
  function BoxedNest(n: nat): Tree {
    ListT(SLICE_TYPE, false, if n == 0 then [] else [Iface(BoxedNest(n - 1))])
  }

  function DeepContext(n: nat): Tree {
    MapT(MAP_TYPE, map["deep" := Iface(BoxedNest(n))])
  }

  lemma {:induction false} BoxedNestFacts(n: nat, budget: int)
    ensures Fits(BoxedNest(n), budget) <==> budget >= 2 * n
    ensures Plain(BoxedNest(n)) && Encodable(BoxedNest(n))
    decreases n
  {
    if n > 0 {
      BoxedNestFacts(n - 1, budget - 2);
      assert BoxedNest(n).items[0] == Iface(BoxedNest(n - 1));
      assert Fits(BoxedNest(n).items[0], budget - 1) <==> budget >= 1 && Fits(BoxedNest(n - 1), budget - 2);
    }
  }

  lemma DeepContextFacts(n: nat, budget: int)
    ensures Fits(DeepContext(n), budget) <==> budget >= 2 * n + 2
    ensures Encodable(DeepContext(n))
  {
    BoxedNestFacts(n, budget - 2);
    var es := DeepContext(n).entries;
    assert es["deep"] == Iface(BoxedNest(n));
    assert Fits(es["deep"], budget - 1) <==> budget >= 2 && Fits(BoxedNest(n), budget - 2);
  }

  /** Contexts between 66 and 256 steps are accepted and cannot be stored in a proof. */
  lemma DeepContextIsLost(n: nat)
    requires 32 <= n <= 127
    ensures DC.Clonable(DeepContext(n), 0) && RootObject(DeepContext(n)).None?
  {
    DeepContextFacts(n, ObjectGraph.MAX_DEPTH);
    DeepContextFacts(n, VALUE_DEPTH + 1);
    ClonableIffFits(DeepContext(n), 0);
    RootFits(DeepContext(n));
  }

  lemma {:induction false} FitsMore(t: Tree, budget: int, more: int)
    requires Fits(t, budget) && budget <= more
    ensures Fits(t, more)
    decreases t
  {
    match t
    case Iface(u) => FitsMore(u, budget - 1, more - 1);
    case MapT(_, es) => forall k | k in es { FitsMore(es[k], budget - 1, more - 1); }
    case ListT(_, _, ts) => forall i | 0 <= i < |ts| { FitsMore(ts[i], budget - 1, more - 1); }
    case _ =>
  }

  // ---------------------------------------------------------------- stored values

  /** cloneStoredValue: only booleans, strings and plain containers are canonical; nil containers
      become empty. */
  function CloneStored(t: Tree): Option<Json>
    decreases t, 1
  {
    match t
    case Nil => Some(JNull)
    case Iface(u) => CloneStored(u)
    case ScalarT(tid, s) =>
      if tid == "bool" && s.BoolS? then Some(JBool(s.b))
      else if tid == "string" && s.StrS? then Some(JStr(s.s))
      else None
    case NilMap(tid) => if tid == MAP_TYPE then Some(JObj(map[])) else None
    case MapT(tid, es) =>
      if tid == MAP_TYPE && forall k :: k in es ==> CloneStored(es[k]).Some? then
        Some(JObj(map k | k in es :: CloneStored(es[k]).value))
      else None
    case NilSlice(tid) => if tid == SLICE_TYPE then Some(JArr([])) else None
    case ListT(tid, isArray, ts) =>
      if tid == SLICE_TYPE && !isArray && forall i :: 0 <= i < |ts| ==> CloneStored(ts[i]).Some? then
        Some(JArr(seq(|ts|, i requires 0 <= i < |ts| => CloneStored(ts[i]).value)))
      else None
    case _ => None
  }

  /** A document without numbers, as the proof encoder makes them. */
  predicate Numberless(j: Json) {
    match j
    case JNum(_) => false
    case JArr(items) => forall i :: 0 <= i < |items| ==> Numberless(items[i])
    case JObj(fields) => forall k :: k in fields ==> Numberless(fields[k])
    case _ => true
  }

  /** The Go value of a document: map[string]interface{}, []interface{}, string, bool, nil. */
  function ToGo(j: Json): Tree
    decreases j, 1
  {
    match j
    case JBool(b) => ScalarT("bool", BoolS(b))
    case JStr(s) => ScalarT("string", StrS(s))
    case JArr(items) => ListT(SLICE_TYPE, false, SlotsToGo(items))
    case JObj(fields) => MapT(MAP_TYPE, map k | k in fields :: Box(ToGo(fields[k])))
    case _ => Nil
  }

  function SlotsToGo(items: seq<Json>): (r: seq<Tree>)
    ensures |r| == |items| && forall i :: 0 <= i < |items| ==> r[i] == Box(ToGo(items[i]))
    decreases items, 0
  {
    if |items| == 0 then [] else [Box(ToGo(items[0]))] + SlotsToGo(items[1..])
  }

  lemma {:induction false} TagNumberless(t: Tree)
    ensures Numberless(Tag(t))
    decreases t
  {
    match t
    case Iface(u) => TagNumberless(u);
    case MapT(_, es) => forall k | k in es { TagNumberless(es[k]); }
    case ListT(_, _, ts) => forall i | 0 <= i < |ts| { TagNumberless(ts[i]); }
    case _ =>
  }

  /** Cloning stored canonical data changes nothing. */
  lemma {:induction false} CloneStoredIdentity(j: Json)
    requires Numberless(j)
    ensures CloneStored(ToGo(j)) == Some(j) && WellBoxed(ToGo(j))
    decreases j
  {
    match j
    case JArr(items) =>
      forall i | 0 <= i < |items|
        ensures CloneStored(SlotsToGo(items)[i]) == Some(items[i]) && WellBoxed(SlotsToGo(items)[i])
      {
        CloneStoredIdentity(items[i]);
      }
      assert CloneStored(ToGo(j)).value.items == items;
    case JObj(fields) =>
      var es := ToGo(j).entries;
      forall k | k in fields ensures CloneStored(es[k]) == Some(fields[k]) && WellBoxed(es[k]) {
        CloneStoredIdentity(fields[k]);
      }
      assert CloneStored(ToGo(j)).value.fields == fields;
    case _ =>
  }
}
