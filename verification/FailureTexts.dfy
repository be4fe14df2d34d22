/** The texts result normalisation fails with (core/primitive_contracts.go).  A map is copied in the
    iterator's order and the first bad field ends the copy, so one value may fail with any of several
    texts; a slice stops at its first bad item. */
module FailureTexts {
  import opened Values
  import opened Frames
  import opened ObjectGraph
  import opened PrimitiveContracts

  /** strconv.Quote on keys that need escapes, and the printed name of a type. */
  datatype Printer = Printer(quote: string -> string, typeText: string -> string)

  predicate Printable(c: char) {
    ' ' <= c <= '~' && c != '"' && c != '\\'
  }

  /** %q */
  function Quoted(pr: Printer, s: string): string {
    if forall i :: 0 <= i < |s| ==> Printable(s[i]) then "\"" + s + "\"" else pr.quote(s)
  }

  const TOO_DEEP := "value is cyclic or nested too deeply"

  function Prefixed(lead: string, texts: set<string>): (r: set<string>)
    ensures r == {} <==> texts == {}
  {
    var r := set s | s in texts :: lead + s;
    assert forall s :: s in texts ==> lead + s in r;
    r
  }

  lemma PrefixedText(lead: string, texts: set<string>, s: string)
    requires s in texts
    ensures lead + s in Prefixed(lead, texts)
  {
  }

  function FieldLead(pr: Printer, k: string): string {
    "field " + Quoted(pr, k) + ": "
  }

  /** Any bad field may be met first. */
  function FieldTexts(pr: Printer, parts: map<string, set<string>>): (r: set<string>)
    ensures r == {} <==> forall k :: k in parts ==> parts[k] == {}
  {
    var r := set k, s | k in parts && s in parts[k] :: FieldLead(pr, k) + s;
    assert forall k, s :: k in parts && s in parts[k] ==> FieldLead(pr, k) + s in r;
    r
  }

  lemma FieldText(pr: Printer, parts: map<string, set<string>>, k: string, s: string)
    requires k in parts && s in parts[k]
    ensures FieldLead(pr, k) + s in FieldTexts(pr, parts)
  {
  }

  /** Only the first bad item is met. */
  function ItemTexts(pr: Printer, parts: seq<set<string>>, from: nat): (r: set<string>)
    requires from <= |parts|
    ensures r == {} <==> forall i :: from <= i < |parts| ==> parts[i] == {}
    decreases |parts| - from
  {
    if from == |parts| then {}
    else if parts[from] != {} then Prefixed("item " + Decimal(from) + ": ", parts[from])
    else ItemTexts(pr, parts, from + 1)
  }

  lemma {:induction false} FirstBadItem(pr: Printer, parts: seq<set<string>>, from: nat, i: nat, s: string)
    requires from <= i < |parts| && s in parts[i] && forall j :: from <= j < i ==> parts[j] == {}
    ensures "item " + Decimal(i) + ": " + s in ItemTexts(pr, parts, from)
    decreases i - from
  {
    if from < i {
      FirstBadItem(pr, parts, from + 1, i, s);
    }
  }

  function LeafTexts(pr: Printer, t: Tree): (r: set<string>)
    ensures !t.Iface? && !t.MapT? && !t.ListT? ==> (r == {} <==> NormLeaf(t).Some?)
  {
    match t
    case ScalarT(tid, s) =>
      if PlainScalar(tid, s) then {}
      else if s.StrS? then {"invalid JSON number " + Quoted(pr, s.s)}
      else if s.FloatS? then {"non-finite numbers are not deterministic data"}
      else {"unsupported value type " + pr.typeText(tid)}
    case NonStringMap(_, isNil) => if isNil then {} else {"object keys must be strings"}
    case Opaque(tid) => {"unsupported value type " + pr.typeText(tid)}
    case _ => {}
  }

  /** What clonePrimitiveValue may fail with. */
  function TreeTexts(pr: Printer, t: Tree, depth: nat): set<string>
    decreases t, 1
  {
    if depth > VALUE_DEPTH then {TOO_DEEP}
    else
      match t
      case Iface(u) => TreeTexts(pr, u, depth + 1)
      case MapT(_, _) => FieldTexts(pr, EntryTexts(pr, t, depth + 1))
      case ListT(_, _, _) => ItemTexts(pr, AllTexts(pr, t, depth + 1), 0)
      case _ => LeafTexts(pr, t)
  }

  function EntryTexts(pr: Printer, t: Tree, depth: nat): (r: map<string, set<string>>)
    requires t.MapT?
    ensures r.Keys == t.entries.Keys && forall k :: k in r ==> r[k] == TreeTexts(pr, t.entries[k], depth)
    decreases t, 0
  {
    map k | k in t.entries :: TreeTexts(pr, t.entries[k], depth)
  }

  function AllTexts(pr: Printer, t: Tree, depth: nat): (r: seq<set<string>>)
    requires t.ListT?
    ensures |r| == |t.items| && forall i :: 0 <= i < |r| ==> r[i] == TreeTexts(pr, t.items[i], depth)
    decreases t, 0
  {
    seq(|t.items|, i requires 0 <= i < |t.items| => TreeTexts(pr, t.items[i], depth))
  }

  /** Where the texts of a container come from: any bad field, the first bad item, what an interface holds. */
  lemma PartTexts(pr: Printer, t: Tree, depth: nat, s: string)
    requires depth <= 64
    ensures t.Iface? ==> TreeTexts(pr, t, depth) == TreeTexts(pr, t.elem, depth + 1)
    ensures t.MapT? ==> (s in TreeTexts(pr, t, depth) <==> exists k, u :: OfField(pr, t, depth, k, u, s))
    ensures t.ListT? ==> (s in TreeTexts(pr, t, depth) <==> exists i, u :: OfItem(pr, t, depth, i, u, s))
  {
    if t.ListT? {
      var parts := AllTexts(pr, t, depth + 1);
      forall i ensures FirstBad(pr, t.items, depth + 1, i) <==> FirstAmong(parts, 0, i) {}
      ItemTextsExact(pr, parts, 0, s);
      forall i, u
        ensures OfItem(pr, t, depth, i, u, s) <==>
          FirstAmong(parts, 0, i) && u in parts[i] && s == "item " + Decimal(i) + ": " + u
      {}
    }
    if t.MapT? {
      var parts := EntryTexts(pr, t, depth + 1);
      forall k, u
        ensures OfField(pr, t, depth, k, u, s) <==> k in parts && u in parts[k] && s == FieldLead(pr, k) + u
      {}
    }
  }

  ghost predicate OfField(pr: Printer, t: Tree, depth: nat, k: string, u: string, s: string)
    requires t.MapT?
  {
    k in t.entries && u in TreeTexts(pr, t.entries[k], depth + 1) && s == "field " + Quoted(pr, k) + ": " + u
  }

  ghost predicate OfItem(pr: Printer, t: Tree, depth: nat, i: int, u: string, s: string)
    requires t.ListT?
  {
    && FirstBad(pr, t.items, depth + 1, i) && u in TreeTexts(pr, t.items[i], depth + 1)
    && s == "item " + Decimal(i) + ": " + u
  }

  /** The first item with something wrong inside. */
  ghost predicate FirstBad(pr: Printer, items: seq<Tree>, depth: nat, i: int) {
    && 0 <= i < |items| && TreeTexts(pr, items[i], depth) != {}
    && forall j :: 0 <= j < i ==> TreeTexts(pr, items[j], depth) == {}
  }

  predicate FirstAmong(parts: seq<set<string>>, from: nat, i: int) {
    from <= i < |parts| && parts[i] != {} && forall j :: from <= j < i ==> parts[j] == {}
  }

  lemma {:induction false} ItemTextsExact(pr: Printer, parts: seq<set<string>>, from: nat, s: string)
    requires from <= |parts|
    ensures s in ItemTexts(pr, parts, from) <==>
      exists i, u :: FirstAmong(parts, from, i) && u in parts[i] && s == "item " + Decimal(i) + ": " + u
    decreases |parts| - from
  {
    if from < |parts| && parts[from] == {} {
      ItemTextsExact(pr, parts, from + 1, s);
      forall i ensures FirstAmong(parts, from, i) <==> FirstAmong(parts, from + 1, i) {}
    } else if from < |parts| {
      forall i ensures FirstAmong(parts, from, i) <==> i == from {}
    }
  }

  /** What is said of a value that is wrong itself. */
  lemma LeafTextsMean(pr: Printer, t: Tree, depth: nat)
    ensures depth > 64 ==> TreeTexts(pr, t, depth) == {"value is cyclic or nested too deeply"}
    ensures depth <= 64 && t.NonStringMap? && !t.isNil ==> TreeTexts(pr, t, depth) == {"object keys must be strings"}
    ensures depth <= 64 && (t.Opaque? || (t.ScalarT? && t.scalar.UintS? && t.scalar.uintptr)) ==>
      TreeTexts(pr, t, depth) == {"unsupported value type " + pr.typeText(t.tid)}
  {
  }

  lemma ScalarTextsMean(pr: Printer, tid: string, s: Scalar, depth: nat)
    requires depth <= 64
    ensures s.FloatS? && s.token in {"NaN", "+Inf", "-Inf"} ==>
      TreeTexts(pr, ScalarT(tid, s), depth) == {"non-finite numbers are not deterministic data"}
    ensures s.StrS? && tid == "encoding/json.Number" && !ValidJsonNumber(s.s) ==>
      TreeTexts(pr, ScalarT(tid, s), depth) == {"invalid JSON number " + Quoted(pr, s.s)}
  {
  }

  /** There is a text exactly when normalisation fails. */
  lemma {:induction false} FailsWithText(pr: Printer, t: Tree, depth: nat)
    ensures TreeTexts(pr, t, depth) == {} <==> Norm(t, depth).Some?
    decreases t, 1
  {
    if depth > VALUE_DEPTH {
      assert TOO_DEEP in TreeTexts(pr, t, depth);
    } else if t.Iface? {
      FailsWithText(pr, t.elem, depth + 1);
    } else if t.MapT? {
      EntryFailsWithText(pr, t, depth);
    } else if t.ListT? {
      ItemFailsWithText(pr, t, depth);
    } else {
      LeafFailsWithText(pr, t, depth);
    }
  }

  lemma LeafFailsWithText(pr: Printer, t: Tree, depth: nat)
    requires !t.Iface? && !t.MapT? && !t.ListT? && depth <= VALUE_DEPTH
    ensures TreeTexts(pr, t, depth) == {} <==> Norm(t, depth).Some?
  {
    assert TreeTexts(pr, t, depth) == LeafTexts(pr, t) && Norm(t, depth) == NormLeaf(t);
  }

  lemma {:induction false} EntryFailsWithText(pr: Printer, t: Tree, depth: nat)
    requires t.MapT? && depth <= VALUE_DEPTH
    ensures TreeTexts(pr, t, depth) == {} <==> Norm(t, depth).Some?
    decreases t, 0
  {
    forall k | k in t.entries
      ensures EntryTexts(pr, t, depth + 1)[k] == {} <==> Norm(t.entries[k], depth + 1).Some?
    {
      FailsWithText(pr, t.entries[k], depth + 1);
    }
  }

  lemma {:induction false} ItemFailsWithText(pr: Printer, t: Tree, depth: nat)
    requires t.ListT? && depth <= VALUE_DEPTH
    ensures TreeTexts(pr, t, depth) == {} <==> Norm(t, depth).Some?
    decreases t, 0
  {
    forall i | 0 <= i < |t.items| { FailsWithText(pr, t.items[i], depth + 1); }
    BadPart(pr, t, depth);
  }

  lemma BadPart(pr: Printer, t: Tree, depth: nat)
    requires t.ListT? && depth <= VALUE_DEPTH
    requires forall i :: 0 <= i < |t.items| ==>
      (TreeTexts(pr, t.items[i], depth + 1) == {} <==> Norm(t.items[i], depth + 1).Some?)
    ensures TreeTexts(pr, t, depth) == {} <==> Norm(t, depth).Some?
  {
    var parts := AllTexts(pr, t, depth + 1);
    assert TreeTexts(pr, t, depth) == ItemTexts(pr, parts, 0) && Norm(t, depth) == AsArray(NormAll(t.items, depth + 1));
  }

  /** The same walk on the primitive's own, possibly cyclic object graph. */
  function GraphTexts(pr: Printer, h: Heap, v: Val, depth: nat): set<string>
    requires Closed(h) && ValidVal(h, v)
    decreases VALUE_DEPTH + 1 - depth, 1
  {
    PartsValid(h, v);
    if depth > VALUE_DEPTH then {TOO_DEEP}
    else if v.VIface? then GraphTexts(pr, h, v.elem, depth + 1)
    else if IsMap(v) then FieldTexts(pr, GraphEntryTexts(pr, h, Entries(h, v), depth + 1))
    else if IsList(v) then ItemTexts(pr, GraphAllTexts(pr, h, Elements(h, v), depth + 1), 0)
    else LeafTexts(pr, FlatTree(v))
  }

  function GraphEntryTexts(pr: Printer, h: Heap, es: map<string, Val>, depth: nat): (r: map<string, set<string>>)
    requires Closed(h) && forall k :: k in es ==> ValidVal(h, es[k])
    ensures r.Keys == es.Keys && forall k :: k in r ==> r[k] == GraphTexts(pr, h, es[k], depth)
    decreases VALUE_DEPTH + 1 - depth, 2
  {
    map k | k in es :: GraphTexts(pr, h, es[k], depth)
  }

  function GraphAllTexts(pr: Printer, h: Heap, vs: seq<Val>, depth: nat): (r: seq<set<string>>)
    requires Closed(h) && forall i :: 0 <= i < |vs| ==> ValidVal(h, vs[i])
    ensures |r| == |vs| && forall i :: 0 <= i < |r| ==> r[i] == GraphTexts(pr, h, vs[i], depth)
    decreases VALUE_DEPTH + 1 - depth, 2
  {
    seq(|vs|, i requires 0 <= i < |vs| => GraphTexts(pr, h, vs[i], depth))
  }

  /** A value with a finite unfolding fails with the texts of its unfolding. */
  lemma {:induction false} UnfoldedTexts(pr: Printer, h: Heap, v: Val, t: Tree, depth: nat)
    requires Closed(h) && ValidVal(h, v) && Unfolds(h, v, t)
    ensures GraphTexts(pr, h, v, depth) == TreeTexts(pr, t, depth)
    decreases t, 1
  {
    if depth <= VALUE_DEPTH {
      if t.Iface? {
        UnfoldedTexts(pr, h, v.elem, t.elem, depth + 1);
      } else if t.MapT? {
        UnfoldedEntryTexts(pr, h, v, t, depth);
      } else if t.ListT? {
        UnfoldedItemTexts(pr, h, v, t, depth);
      } else {
        assert !v.VIface? && !IsMap(v) && !IsList(v) && FlatTree(v) == t;
      }
    }
  }

  lemma {:induction false} UnfoldedEntryTexts(pr: Printer, h: Heap, v: Val, t: Tree, depth: nat)
    requires Closed(h) && ValidVal(h, v) && Unfolds(h, v, t) && t.MapT?
    ensures GraphTexts(pr, h, v, depth) == TreeTexts(pr, t, depth)
    decreases t, 0
  {
    PartsValid(h, v);
    var vs := Entries(h, v);
    forall k | k in t.entries ensures GraphTexts(pr, h, vs[k], depth + 1) == TreeTexts(pr, t.entries[k], depth + 1) {
      UnfoldedTexts(pr, h, vs[k], t.entries[k], depth + 1);
    }
    assert GraphEntryTexts(pr, h, vs, depth + 1) == EntryTexts(pr, t, depth + 1);
  }

  lemma {:induction false} UnfoldedItemTexts(pr: Printer, h: Heap, v: Val, t: Tree, depth: nat)
    requires Closed(h) && ValidVal(h, v) && Unfolds(h, v, t) && t.ListT?
    ensures GraphTexts(pr, h, v, depth) == TreeTexts(pr, t, depth)
    decreases t, 0
  {
    PartsValid(h, v);
    var vs := Elements(h, v);
    forall i | 0 <= i < |t.items| ensures GraphTexts(pr, h, vs[i], depth + 1) == TreeTexts(pr, t.items[i], depth + 1) {
      UnfoldedTexts(pr, h, vs[i], t.items[i], depth + 1);
    }
    assert GraphAllTexts(pr, h, vs, depth + 1) == AllTexts(pr, t, depth + 1);
  }

  /** What normalizeEvaluationResult may fail with once both fields are there: metadata comes first. */
  function SchemaTexts(metadata: set<string>, isObject: bool, evidence: set<string>, isArray: bool): (r: set<string>)
    ensures r == {} <==> metadata == {} && isObject && evidence == {} && isArray
  {
    if metadata != {} then Prefixed("invalid metadata: ", metadata)
    else if !isObject then {"metadata must be an object"}
    else if evidence != {} then Prefixed("invalid evidence: ", evidence)
    else if !isArray then {"evidence must be an array"}
    else {}
  }
}
