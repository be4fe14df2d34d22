/** The loops of core/proof_theory.go that encode values and clone stored ones.  Go's map iterator may
    yield keys in any order; the outcome does not depend on it. */
module ProofWalkers {
  import opened Values
  import opened Frames
  import opened PrimitiveContracts
  import opened ProofEncoding

  ghost function Encoded(t: Tree, depth: nat): Option<Json> {
    if CanTag(t, depth) then Some(Tag(t)) else None
  }

  /** encodeProofValue */
  method EncodeProofValue(t: Tree, depth: nat) returns (r: Option<Json>)
    ensures r == Encoded(t, depth)
    decreases t, 1
  {
    if depth > VALUE_DEPTH { return None; }
    match t {
      case Nil => return Some(JNull);
      case Iface(u) => r := EncodeProofValue(u, depth + 1);
      case ScalarT(tid, s) => return if GoodScalar(tid, s) then Some(TagScalar(tid, s)) else None;
      case NilMap(tid) => return Some(Tagged("map", tid, JNull));
      case NilSlice(tid) => return Some(Tagged("slice", tid, JNull));
      case MapT(tid, es) =>
        var entries := EncodeEntries(t, depth + 1);
        if entries.None? { return None; }
        assert entries.value == Tag(t).fields["$gsas_value"].fields;
        return Some(Tagged("map", tid, JObj(entries.value)));
      case ListT(tid, isArray, ts) =>
        var items := EncodeItems(ts, depth + 1);
        if items.None? { return None; }
        assert items.value == TagAll(ts);
        return Some(Tagged(if isArray then "array" else "slice", tid, JArr(items.value)));
      case NonStringMap(_, _) => return None;
      case Opaque(_) => return None;
    }
  }

  method EncodeEntries(t: Tree, depth: nat) returns (r: Option<map<string, Json>>)
    requires t.MapT?
    ensures r.Some? <==> forall k :: k in t.entries ==> CanTag(t.entries[k], depth)
    ensures r.Some? ==> r.value.Keys == t.entries.Keys && forall k :: k in r.value ==> r.value[k] == Tag(t.entries[k])
    decreases t, 0
  {
    var encoded: map<string, Json> := map[];
    var left := t.entries.Keys;
    while left != {}
      invariant left <= t.entries.Keys && encoded.Keys == t.entries.Keys - left
      invariant forall k :: k in encoded ==> CanTag(t.entries[k], depth) && encoded[k] == Tag(t.entries[k])
    {
      var k :| k in left;
      var child := EncodeProofValue(t.entries[k], depth);
      if child.None? { return None; }
      encoded := encoded[k := child.value];
      left := left - {k};
    }
    return Some(encoded);
  }

  method EncodeItems(ts: seq<Tree>, depth: nat) returns (r: Option<seq<Json>>)
    ensures r.Some? <==> forall i :: 0 <= i < |ts| ==> CanTag(ts[i], depth)
    ensures r.Some? ==> |r.value| == |ts| && forall i :: 0 <= i < |ts| ==> r.value[i] == Tag(ts[i])
    decreases ts, 0
  {
    var encoded: seq<Json> := [];
    for i := 0 to |ts|
      invariant |encoded| == i && forall j :: 0 <= j < i ==> CanTag(ts[j], depth) && encoded[j] == Tag(ts[j])
    {
      var child := EncodeProofValue(ts[i], depth);
      if child.None? { return None; }
      encoded := encoded + [child.value];
    }
    return Some(encoded);
  }

  /** encodeProofRootObject */
  method EncodeProofRootObject(t: Tree) returns (r: Option<Json>)
    ensures r == RootObject(t)
  {
    match t {
      case NilMap(_) => return Some(JObj(map[]));
      case MapT(_, es) =>
        var entries := EncodeEntries(t, 0);
        if entries.None? { return None; }
        assert entries.value == RootObject(t).value.fields;
        return Some(JObj(entries.value));
      case _ => return None;
    }
  }

  /** encodeProofRootArray */
  method EncodeProofRootArray(t: Tree) returns (r: Option<Json>)
    ensures r == RootArray(t)
  {
    match t {
      case NilSlice(_) => return Some(JArr([]));
      case ListT(_, _, ts) =>
        var items := EncodeItems(ts, 0);
        if items.None? { return None; }
        assert items.value == TagAll(ts);
        return Some(JArr(items.value));
      case _ => return None;
    }
  }

  /** cloneStoredValue.  The containers restart the count at 0 and boxes do not nest, so the depth test
      never trips: termination rests on the value being finite. */
  method CloneStoredValue(t: Tree, depth: nat) returns (r: Option<Json>)
    requires WellBoxed(t) && depth <= if t.Iface? then 0 else 1
    ensures r == CloneStored(t)
    decreases t, 2
  {
    if depth > VALUE_DEPTH { return None; }
    match t {
      case Nil => return Some(JNull);
      case Iface(u) => r := CloneStoredValue(u, depth + 1);
      case ScalarT(tid, s) =>
        if tid == "bool" && s.BoolS? { return Some(JBool(s.b)); }
        if tid == "string" && s.StrS? { return Some(JStr(s.s)); }
        return None;
      case NilMap(_) => r := CloneStoredRootObject(t);
      case MapT(_, _) => r := CloneStoredRootObject(t);
      case NilSlice(_) => r := CloneStoredRootArray(t);
      case ListT(_, _, _) => r := CloneStoredRootArray(t);
      case NonStringMap(_, _) => return None;
      case Opaque(_) => return None;
    }
  }

  /** cloneStoredRootObject */
  method CloneStoredRootObject(t: Tree) returns (r: Option<Json>)
    requires WellBoxed(t)
    ensures r == if t.MapT? || t.NilMap? then CloneStored(t) else None
    decreases t, 1
  {
    if !(t.MapT? || t.NilMap?) || t.tid != MAP_TYPE { return None; }
    if t.NilMap? { return Some(JObj(map[])); }
    var cloned: map<string, Json> := map[];
    var left := t.entries.Keys;
    while left != {}
      invariant left <= t.entries.Keys && cloned.Keys == t.entries.Keys - left
      invariant forall k :: k in cloned ==> CloneStored(t.entries[k]) == Some(cloned[k])
    {
      var k :| k in left;
      var child := CloneStoredValue(t.entries[k], 0);
      if child.None? { return None; }
      cloned := cloned[k := child.value];
      left := left - {k};
    }
    assert cloned == CloneStored(t).value.fields;
    return Some(JObj(cloned));
  }

  /** cloneStoredRootArray */
  method CloneStoredRootArray(t: Tree) returns (r: Option<Json>)
    requires WellBoxed(t)
    ensures r == if t.ListT? || t.NilSlice? then CloneStored(t) else None
    decreases t, 1
  {
    if !(t.ListT? || t.NilSlice?) || t.tid != SLICE_TYPE { return None; }
    if t.NilSlice? { return Some(JArr([])); }
    if t.isArray { return None; }
    var cloned: seq<Json> := [];
    for i := 0 to |t.items|
      invariant |cloned| == i && forall j :: 0 <= j < i ==> CloneStored(t.items[j]) == Some(cloned[j])
    {
      var child := CloneStoredValue(t.items[i], 0);
      if child.None? { return None; }
      cloned := cloned + [child.value];
    }
    assert cloned == CloneStored(t).value.items;
    return Some(JArr(cloned));
  }
}
