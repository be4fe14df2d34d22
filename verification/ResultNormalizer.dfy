/** normalizeEvaluationResult as it runs: on the primitive's own, possibly cyclic object graph. */
module ResultNormalizer {
  import opened Values
  import opened Frames
  import opened ObjectGraph
  import opened PrimitiveContracts
  import opened FailureTexts
  import CanonicalEncoding
  import CanonicalWriter

  /** clonePrimitiveValue on a graph: only the depth bound stops it on a cycle. */
  function GraphNorm(h: Heap, v: Val, depth: nat): Option<Tree>
    requires Closed(h) && ValidVal(h, v)
    decreases VALUE_DEPTH + 1 - depth, 1
  {
    PartsValid(h, v);
    if depth > VALUE_DEPTH then None
    else if v.VIface? then GraphNorm(h, v.elem, depth + 1)
    else if IsMap(v) then AsObject(GraphNormEntries(h, Entries(h, v), depth + 1))
    else if IsList(v) then AsArray(GraphNormAll(h, Elements(h, v), depth + 1))
    else NormLeaf(FlatTree(v))
  }

  function GraphNormEntries(h: Heap, es: map<string, Val>, depth: nat): (r: Option<map<string, Tree>>)
    requires Closed(h) && forall k :: k in es ==> ValidVal(h, es[k])
    ensures r.Some? <==> forall k :: k in es ==> GraphNorm(h, es[k], depth).Some?
    ensures r.Some? ==> r.value.Keys == es.Keys
    ensures r.Some? ==> forall k :: k in es ==> r.value[k] == Box(GraphNorm(h, es[k], depth).value)
    decreases VALUE_DEPTH + 1 - depth, 2
  {
    if forall k :: k in es ==> GraphNorm(h, es[k], depth).Some? then
      Some(map k | k in es :: Box(GraphNorm(h, es[k], depth).value))
    else None
  }

  function GraphNormAll(h: Heap, vs: seq<Val>, depth: nat): (r: Option<seq<Tree>>)
    requires Closed(h) && forall i :: 0 <= i < |vs| ==> ValidVal(h, vs[i])
    ensures r.Some? <==> forall i :: 0 <= i < |vs| ==> GraphNorm(h, vs[i], depth).Some?
    ensures r.Some? ==> |r.value| == |vs|
    ensures r.Some? ==> forall i :: 0 <= i < |vs| ==> r.value[i] == Box(GraphNorm(h, vs[i], depth).value)
    decreases VALUE_DEPTH + 1 - depth, 2
  {
    if forall i :: 0 <= i < |vs| ==> GraphNorm(h, vs[i], depth).Some? then
      Some(seq(|vs|, i requires 0 <= i < |vs| => Box(GraphNorm(h, vs[i], depth).value)))
    else None
  }

  /** On a value that unfolds to a finite tree, the walk of the graph is the walk of the tree. */
  lemma {:induction false} GraphNormUnfolds(h: Heap, v: Val, t: Tree, depth: nat)
    requires Closed(h) && ValidVal(h, v) && Unfolds(h, v, t)
    ensures GraphNorm(h, v, depth) == Norm(t, depth)
    decreases t, 1
  {
    if depth <= VALUE_DEPTH {
      if t.Iface? {
        GraphNormUnfolds(h, v.elem, t.elem, depth + 1);
      } else if t.MapT? || t.ListT? {
        PartsUnfold(h, v, t, depth);
      } else {
        assert !v.VIface? && !IsMap(v) && !IsList(v) && FlatTree(v) == t;
      }
    }
  }

  lemma {:induction false} PartsUnfold(h: Heap, v: Val, t: Tree, depth: nat)
    requires Closed(h) && ValidVal(h, v) && Unfolds(h, v, t) && (t.MapT? || t.ListT?)
    ensures GraphNorm(h, v, depth) == Norm(t, depth)
    decreases t, 0
  {
    PartsValid(h, v);
    if t.MapT? {
      forall k | k in t.entries ensures GraphNorm(h, Entries(h, v)[k], depth + 1) == Norm(t.entries[k], depth + 1) {
        GraphNormUnfolds(h, Entries(h, v)[k], t.entries[k], depth + 1);
      }
      SameEntries(h, v, t, depth);
    } else {
      forall i | 0 <= i < |t.items| ensures GraphNorm(h, Elements(h, v)[i], depth + 1) == Norm(t.items[i], depth + 1) {
        GraphNormUnfolds(h, Elements(h, v)[i], t.items[i], depth + 1);
      }
      SameItems(h, v, t, depth);
    }
  }

  lemma SameEntries(h: Heap, v: Val, t: Tree, depth: nat)
    requires Closed(h) && ValidVal(h, v) && IsMap(v) && t.MapT? && Entries(h, v).Keys == t.entries.Keys
    requires forall k :: k in t.entries ==>
      ValidVal(h, Entries(h, v)[k]) && GraphNorm(h, Entries(h, v)[k], depth + 1) == Norm(t.entries[k], depth + 1)
    ensures GraphNorm(h, v, depth) == Norm(t, depth)
  {
    PartsValid(h, v);
    var vs := Entries(h, v);
    var g, n := GraphNormEntries(h, vs, depth + 1), NormEntries(t, depth + 1);
    if g.Some? {
      assert g.value == n.value;
    } else {
      var k :| k in vs && GraphNorm(h, vs[k], depth + 1).None?;
      assert Norm(t.entries[k], depth + 1).None?;
    }
  }

  lemma SameItems(h: Heap, v: Val, t: Tree, depth: nat)
    requires Closed(h) && ValidVal(h, v) && IsList(v) && t.ListT? && |Elements(h, v)| == |t.items|
    requires forall i :: 0 <= i < |t.items| ==>
      ValidVal(h, Elements(h, v)[i]) && GraphNorm(h, Elements(h, v)[i], depth + 1) == Norm(t.items[i], depth + 1)
    ensures GraphNorm(h, v, depth) == Norm(t, depth)
  {
    PartsValid(h, v);
    var vs := Elements(h, v);
    var g, n := GraphNormAll(h, vs, depth + 1), NormAll(t.items, depth + 1);
    if g.Some? {
      assert g.value == n.value;
    } else {
      var i :| 0 <= i < |vs| && GraphNorm(h, vs[i], depth + 1).None?;
      assert Norm(t.items[i], depth + 1).None?;
    }
  }

  /** A graph that normalises is finite: it has an unfolding. */
  lemma {:induction false} NormalisedUnfolds(h: Heap, v: Val, depth: nat) returns (t: Tree)
    requires Closed(h) && ValidVal(h, v) && GraphNorm(h, v, depth).Some?
    ensures Unfolds(h, v, t)
    decreases VALUE_DEPTH + 1 - depth
  {
    PartsValid(h, v);
    if v.VIface? {
      var u := NormalisedUnfolds(h, v.elem, depth + 1);
      t := Iface(u);
    } else if IsMap(v) {
      var vs := Entries(h, v);
      forall k | k in vs ensures exists u :: Unfolds(h, vs[k], u) {
        var u := NormalisedUnfolds(h, vs[k], depth + 1);
      }
      t := MapT(v.tid, map k | k in vs :: var u :| Unfolds(h, vs[k], u); u);
    } else if IsList(v) {
      var vs := Elements(h, v);
      forall i | 0 <= i < |vs| ensures exists u :: Unfolds(h, vs[i], u) {
        var u := NormalisedUnfolds(h, vs[i], depth + 1);
      }
      t := ListT(v.tid, v.VArray?, seq(|vs|, i requires 0 <= i < |vs| => var u :| Unfolds(h, vs[i], u); u));
    } else {
      t := FlatTree(v);
    }
  }

  /** clonePrimitiveValue accepts a graph exactly when the graph is finite and its unfolding is
      accepted: every cyclic value is rejected, and sharing makes no difference. */
  lemma NormalisesIffFinite(h: Heap, v: Val, depth: nat, r: Tree)
    requires Closed(h) && ValidVal(h, v)
    ensures GraphNorm(h, v, depth) == Some(r) <==> exists t :: Unfolds(h, v, t) && Norm(t, depth) == Some(r)
  {
    if GraphNorm(h, v, depth) == Some(r) {
      var t := NormalisedUnfolds(h, v, depth);
      GraphNormUnfolds(h, v, t, depth);
    } else {
      forall t | Unfolds(h, v, t) ensures Norm(t, depth) != Some(r) {
        GraphNormUnfolds(h, v, t, depth);
      }
    }
  }

  // ---------------------------------------------------------------- failures

  /** A graph fails to normalise exactly when there is a text to fail with, whatever cycles it has. */
  lemma {:induction false} GraphFailsWithText(pr: Printer, h: Heap, v: Val, depth: nat)
    requires Closed(h) && ValidVal(h, v)
    ensures GraphTexts(pr, h, v, depth) == {} <==> GraphNorm(h, v, depth).Some?
    decreases VALUE_DEPTH + 1 - depth, 1
  {
    if depth > VALUE_DEPTH {
      assert TOO_DEEP in GraphTexts(pr, h, v, depth);
    } else if v.VIface? {
      GraphFailsWithText(pr, h, v.elem, depth + 1);
    } else if IsMap(v) || IsList(v) {
      GraphPartsFail(pr, h, v, depth);
    } else {
      GraphLeafFails(pr, h, v, depth);
    }
  }

  lemma {:induction false} GraphPartsFail(pr: Printer, h: Heap, v: Val, depth: nat)
    requires Closed(h) && ValidVal(h, v) && (IsMap(v) || IsList(v)) && depth <= VALUE_DEPTH
    ensures GraphTexts(pr, h, v, depth) == {} <==> GraphNorm(h, v, depth).Some?
    decreases VALUE_DEPTH + 1 - depth, 0
  {
    PartsValid(h, v);
    if IsMap(v) {
      GraphEntriesFail(pr, h, Entries(h, v), depth + 1);
    } else {
      GraphItemsFail(pr, h, Elements(h, v), depth + 1);
    }
  }

  lemma {:induction false} GraphEntriesFail(pr: Printer, h: Heap, es: map<string, Val>, depth: nat)
    requires Closed(h) && forall k :: k in es ==> ValidVal(h, es[k])
    ensures FieldTexts(pr, GraphEntryTexts(pr, h, es, depth)) == {} <==> GraphNormEntries(h, es, depth).Some?
    decreases VALUE_DEPTH + 1 - depth, 2
  {
    forall k | k in es { GraphFailsWithText(pr, h, es[k], depth); }
  }

  lemma {:induction false} GraphItemsFail(pr: Printer, h: Heap, vs: seq<Val>, depth: nat)
    requires Closed(h) && forall i :: 0 <= i < |vs| ==> ValidVal(h, vs[i])
    ensures ItemTexts(pr, GraphAllTexts(pr, h, vs, depth), 0) == {} <==> GraphNormAll(h, vs, depth).Some?
    decreases VALUE_DEPTH + 1 - depth, 2
  {
    forall i | 0 <= i < |vs| { GraphFailsWithText(pr, h, vs[i], depth); }
  }

  lemma GraphLeafFails(pr: Printer, h: Heap, v: Val, depth: nat)
    requires Closed(h) && ValidVal(h, v) && !v.VIface? && !IsMap(v) && !IsList(v) && depth <= VALUE_DEPTH
    ensures GraphTexts(pr, h, v, depth) == {} <==> GraphNorm(h, v, depth).Some?
  {
    var t := FlatTree(v);
    assert !t.Iface? && !t.MapT? && !t.ListT?;
    assert GraphTexts(pr, h, v, depth) == LeafTexts(pr, t) && GraphNorm(h, v, depth) == NormLeaf(t);
  }

  // ---------------------------------------------------------------- the methods

  /** clonePrimitiveValue: whatever order the map iterator chooses, the copy is the same; the text of a
      failure is one of those the value allows. */
  method ClonePrimitiveValue(pr: Printer, h: Heap, v: Val, depth: nat) returns (r: Option<Tree>, error: string)
    requires Closed(h) && ValidVal(h, v)
    ensures r == GraphNorm(h, v, depth)
    ensures r.None? ==> error in GraphTexts(pr, h, v, depth)
    decreases VALUE_DEPTH + 1 - depth, 1
  {
    if depth > VALUE_DEPTH { return None, TOO_DEEP; }
    if v.VIface? {
      r, error := ClonePrimitiveValue(pr, h, v.elem, depth + 1);
    } else if IsMap(v) {
      r, error := CloneObject(pr, h, v, depth);
    } else if IsList(v) {
      r, error := CloneArray(pr, h, v, depth);
    } else {
      r, error := CloneScalar(pr, FlatTree(v));
    }
  }

  /** The cases without parts. */
  method CloneScalar(pr: Printer, t: Tree) returns (r: Option<Tree>, error: string)
    requires !t.Iface? && !t.MapT? && !t.ListT?
    ensures r == NormLeaf(t) && (r.None? ==> error in LeafTexts(pr, t))
  {
    match t
    case Nil => return Some(Nil), "";
    case NilMap(_) => return Some(MapT(MAP_TYPE, map[])), "";
    case NilSlice(_) => return Some(ListT(SLICE_TYPE, false, [])), "";
    case NonStringMap(_, isNil) =>
      if isNil { return Some(MapT(MAP_TYPE, map[])), ""; }
      return None, "object keys must be strings";
    case ScalarT(tid, s) =>
      if PlainScalar(tid, s) { return Some(t), ""; }
      if s.StrS? { return None, "invalid JSON number " + Quoted(pr, s.s); }
      if s.FloatS? { return None, "non-finite numbers are not deterministic data"; }
      return None, "unsupported value type " + pr.typeText(tid);
    case Opaque(tid) => return None, "unsupported value type " + pr.typeText(tid);
  }

  method CloneObject(pr: Printer, h: Heap, v: Val, depth: nat) returns (r: Option<Tree>, error: string)
    requires Closed(h) && ValidVal(h, v) && IsMap(v) && depth <= VALUE_DEPTH
    ensures r == GraphNorm(h, v, depth)
    ensures r.None? ==> error in GraphTexts(pr, h, v, depth)
    decreases VALUE_DEPTH + 1 - depth, 0
  {
    PartsValid(h, v);
    var copyMap;
    copyMap, error := CopyEntries(pr, h, Entries(h, v), depth + 1);
    if copyMap.None? { return None, error; }
    assert copyMap.value == GraphNormEntries(h, Entries(h, v), depth + 1).value;
    return Some(MapT(MAP_TYPE, copyMap.value)), "";
  }

  method CopyEntries(pr: Printer, h: Heap, entries: map<string, Val>, depth: nat)
    returns (r: Option<map<string, Tree>>, error: string)
    requires Closed(h) && forall k :: k in entries ==> ValidVal(h, entries[k])
    ensures r.Some? ==> r.value.Keys == entries.Keys
    ensures r.Some? ==> forall k :: k in entries ==> Copied(h, entries[k], depth, r.value[k])
    ensures r.None? ==> exists k :: k in entries && GraphNorm(h, entries[k], depth).None?
    ensures r.None? ==> error in FieldTexts(pr, GraphEntryTexts(pr, h, entries, depth))
    decreases VALUE_DEPTH + 1 - depth, 2
  {
    var copyMap: map<string, Tree> := map[];
    var left := entries.Keys;
    while left != {}
      invariant left <= entries.Keys && copyMap.Keys == entries.Keys - left
      invariant forall k :: k in copyMap ==> Copied(h, entries[k], depth, copyMap[k])
    {
      var k :| k in left;
      var cloned, fault := ClonePrimitiveValue(pr, h, entries[k], depth);
      if cloned.None? {
        FieldText(pr, GraphEntryTexts(pr, h, entries, depth), k, fault);
        return None, FieldLead(pr, k) + fault;
      }
      copyMap := copyMap[k := Box(cloned.value)];
      left := left - {k};
    }
    return Some(copyMap), "";
  }

  ghost predicate Copied(h: Heap, v: Val, depth: nat, t: Tree)
    requires Closed(h) && ValidVal(h, v)
  {
    GraphNorm(h, v, depth).Some? && t == Box(GraphNorm(h, v, depth).value)
  }

  method CloneArray(pr: Printer, h: Heap, v: Val, depth: nat) returns (r: Option<Tree>, error: string)
    requires Closed(h) && ValidVal(h, v) && IsList(v) && depth <= VALUE_DEPTH
    ensures r == GraphNorm(h, v, depth)
    ensures r.None? ==> error in GraphTexts(pr, h, v, depth)
    decreases VALUE_DEPTH + 1 - depth, 0
  {
    PartsValid(h, v);
    var items := Elements(h, v);
    var copySlice: seq<Tree> := [];
    for i := 0 to |items|
      invariant |copySlice| == i && forall j :: 0 <= j < i ==> Copied(h, items[j], depth + 1, copySlice[j])
    {
      var cloned, fault := ClonePrimitiveValue(pr, h, items[i], depth + 1);
      if cloned.None? {
        BadItem(pr, h, items, depth + 1, i, fault);
        return None, "item " + Decimal(i) + ": " + fault;
      }
      copySlice := copySlice + [Box(cloned.value)];
    }
    assert copySlice == GraphNormAll(h, items, depth + 1).value;
    return Some(ListT(SLICE_TYPE, false, copySlice)), "";
  }

  lemma BadItem(pr: Printer, h: Heap, items: seq<Val>, depth: nat, i: nat, fault: string)
    requires Closed(h) && i < |items| && forall j :: 0 <= j < |items| ==> ValidVal(h, items[j])
    requires forall j :: 0 <= j < i ==> GraphNorm(h, items[j], depth).Some?
    requires fault in GraphTexts(pr, h, items[i], depth)
    ensures "item " + Decimal(i) + ": " + fault in ItemTexts(pr, GraphAllTexts(pr, h, items, depth), 0)
  {
    forall j | 0 <= j < i { GraphFailsWithText(pr, h, items[j], depth); }
    FirstBadItem(pr, GraphAllTexts(pr, h, items, depth), 0, i, fault);
  }

  /** What Evaluate returns: nil, or a map over the primitive's memory. */
  datatype RawResult = NoResult | Fields(h: Heap, fields: map<string, Val>)

  ghost predicate ValidRaw(raw: RawResult) {
    raw.Fields? ==> Closed(raw.h) && forall k :: k in raw.fields ==> ValidVal(raw.h, raw.fields[k])
  }

  /** A normalised result. */
  datatype Normal = Normal(valid: bool, metadata: Tree, evidence: Tree)

  predicate IsNormal(n: Normal) {
    Plain(n.metadata) && n.metadata.MapT? && Plain(n.evidence) && n.evidence.ListT?
  }

  /** The normalised result as a map. */
  function NormalTree(n: Normal): Tree {
    MapT(MAP_TYPE, map["valid" := Iface(ScalarT("bool", BoolS(n.valid))), "metadata" := Iface(n.metadata),
                       "evidence" := Iface(n.evidence)])
  }

  lemma NormalTreeInjective(a: Normal, b: Normal)
    requires NormalTree(a) == NormalTree(b)
    ensures a == b
  {
    var f, g := NormalTree(a).entries, NormalTree(b).entries;
    assert f["valid"] == g["valid"] && f["metadata"] == g["metadata"] && f["evidence"] == g["evidence"];
  }

  lemma NormalTreePlain(n: Normal)
    requires IsNormal(n)
    ensures Plain(NormalTree(n)) && CanonicalEncoding.Supported(NormalTree(n))
    ensures CanonicalWriter.StringKeyed(NormalTree(n))
  {
    PlainSupported(NormalTree(n));
    PlainStringKeyed(NormalTree(n));
  }

  lemma {:induction false} PlainStringKeyed(t: Tree)
    requires Plain(t)
    ensures CanonicalWriter.StringKeyed(t)
  {
    match t
    case MapT(_, es) =>
      forall k | k in es ensures CanonicalWriter.StringKeyed(es[k]) {
        if es[k].Iface? { PlainStringKeyed(es[k].elem); }
      }
    case ListT(_, _, ts) =>
      forall i | 0 <= i < |ts| ensures CanonicalWriter.StringKeyed(ts[i]) {
        if ts[i].Iface? { PlainStringKeyed(ts[i].elem); }
      }
    case _ =>
  }

  /** reflect.ValueOf on an interface{} slot. */
  function Open(v: Val): Val {
    if v.VIface? then v.elem else v
  }

  /** The schema and the snapshot, as a function of the result. */
  function NormalizeResult(raw: RawResult): Option<Normal>
    requires ValidRaw(raw)
  {
    if raw.NoResult? || !({"valid", "metadata", "evidence"} <= raw.fields.Keys) then None
    else
      match raw.fields["valid"]
      case VIface(VScalar(tid, BoolS(valid))) =>
        if tid != "bool" then None
        else
          var metadata := GraphNorm(raw.h, Open(raw.fields["metadata"]), 0);
          var evidence := GraphNorm(raw.h, Open(raw.fields["evidence"]), 0);
          if metadata.Some? && metadata.value.MapT? && evidence.Some? && evidence.value.ListT? then
            Some(Normal(valid, metadata.value, evidence.value))
          else None
      case _ => None
  }

  lemma {:induction false} GraphNormPlain(h: Heap, v: Val, depth: nat)
    requires Closed(h) && ValidVal(h, v) && GraphNorm(h, v, depth).Some?
    ensures Plain(GraphNorm(h, v, depth).value)
  {
    var t := NormalisedUnfolds(h, v, depth);
    GraphNormUnfolds(h, v, t, depth);
    NormIsPlain(t, depth);
  }

  lemma NormalizeResultNormal(raw: RawResult)
    requires ValidRaw(raw) && NormalizeResult(raw).Some?
    ensures IsNormal(NormalizeResult(raw).value)
  {
    GraphNormPlain(raw.h, Open(raw.fields["metadata"]), 0);
    GraphNormPlain(raw.h, Open(raw.fields["evidence"]), 0);
  }

  predicate HasVerdict(fields: map<string, Val>) {
    "valid" in fields && fields["valid"].VIface?
    && match fields["valid"].elem
       case VScalar(tid, BoolS(_)) => tid == "bool"
       case _ => false
  }

  /** What normalizeEvaluationResult may fail with. */
  function RawTexts(pr: Printer, raw: RawResult): set<string>
    requires ValidRaw(raw)
  {
    if raw.NoResult? then {"Evaluate must return a non-nil result"}
    else if !HasVerdict(raw.fields) then {"Evaluate result must contain boolean 'valid'"}
    else if "metadata" !in raw.fields then {"Evaluate result must contain 'metadata'"}
    else if "evidence" !in raw.fields then {"Evaluate result must contain 'evidence'"}
    else
      var metadata, evidence := Open(raw.fields["metadata"]), Open(raw.fields["evidence"]);
      var m, e := GraphNorm(raw.h, metadata, 0), GraphNorm(raw.h, evidence, 0);
      SchemaTexts(GraphTexts(pr, raw.h, metadata, 0), m.Some? && m.value.MapT?,
                  GraphTexts(pr, raw.h, evidence, 0), e.Some? && e.value.ListT?)
  }

  /** A result is rejected exactly when there is a text to reject it with. */
  lemma RejectedWithText(pr: Printer, raw: RawResult)
    requires ValidRaw(raw)
    ensures RawTexts(pr, raw) == {} <==> NormalizeResult(raw).Some?
  {
    if raw.Fields? && {"valid", "metadata", "evidence"} <= raw.fields.Keys {
      GraphFailsWithText(pr, raw.h, Open(raw.fields["metadata"]), 0);
      GraphFailsWithText(pr, raw.h, Open(raw.fields["evidence"]), 0);
    }
  }

  lemma MetadataRejected(pr: Printer, raw: RawResult, s: string)
    requires ValidRaw(raw) && raw.Fields? && HasVerdict(raw.fields) && {"metadata", "evidence"} <= raw.fields.Keys
    requires s in GraphTexts(pr, raw.h, Open(raw.fields["metadata"]), 0)
    ensures "invalid metadata: " + s in RawTexts(pr, raw)
  {
    PrefixedText("invalid metadata: ", GraphTexts(pr, raw.h, Open(raw.fields["metadata"]), 0), s);
  }

  /** normalizeEvaluationResult.  Its last check, that the snapshot has canonical bytes, never fails. */
  method NormalizeEvaluationResult(pr: Printer, raw: RawResult) returns (r: Option<Normal>, error: string)
    requires ValidRaw(raw)
    ensures r == NormalizeResult(raw) && (r.Some? ==> IsNormal(r.value))
    ensures r.None? ==> error in RawTexts(pr, raw)
  {
    if raw.NoResult? { return None, "Evaluate must return a non-nil result"; }
    if !HasVerdict(raw.fields) { return None, "Evaluate result must contain boolean 'valid'"; }
    if "metadata" !in raw.fields { return None, "Evaluate result must contain 'metadata'"; }
    if "evidence" !in raw.fields { return None, "Evaluate result must contain 'evidence'"; }
    RejectedWithText(pr, raw);
    var metadata, evidence;
    metadata, error := ClonePrimitiveValue(pr, raw.h, Open(raw.fields["metadata"]), 0);
    if metadata.None? { return None, "invalid metadata: " + error; }
    GraphFailsWithText(pr, raw.h, Open(raw.fields["metadata"]), 0);
    if !metadata.value.MapT? { return None, "metadata must be an object"; }
    evidence, error := ClonePrimitiveValue(pr, raw.h, Open(raw.fields["evidence"]), 0);
    if evidence.None? { return None, "invalid evidence: " + error; }
    GraphFailsWithText(pr, raw.h, Open(raw.fields["evidence"]), 0);
    if !evidence.value.ListT? { return None, "evidence must be an array"; }
    var normalized := Normal(raw.fields["valid"].elem.scalar.b, metadata.value, evidence.value);
    assert NormalizeResult(raw) == Some(normalized);
    NormalizeResultNormal(raw);
    NormalTreePlain(normalized);
    var bytes := CanonicalWriter.CanonicalPrimitiveJson(NormalTree(normalized));
    if bytes.None? { return None, ""; }
    return Some(normalized), "";
  }
}
