/** The generator's and the verifier's conditions, field by field, without the predicates their loops are
    proved against. */
module ProofMeaning {
  import opened Values
  import opened Frames
  import opened Text
  import opened PrimitiveContracts
  import opened ProofEncoding
  import opened ProofTheory
  import PB = ProofBinding
  import PX = ProofMethods
  import DM = DataMeaning
  import OG = ObjectGraph

  // ---------------------------------------------------------------- signals

  function TextValue(s: string): Tree {
    ScalarT("string", StrS(s))
  }

  function BoolValue(b: bool): Tree {
    ScalarT("bool", BoolS(b))
  }

  /** A map of five fields that says these three things. */
  predicate Says(t: Tree, id: string, version: string, valid: bool) {
    && t.MapT? && |t.entries| == 5
    && Slot(t, "primitive_id") == TextValue(id) && Slot(t, "version") == TextValue(version)
    && Slot(t, "valid") == BoolValue(valid)
  }

  /** What stands in a field of stored data and in a field of a signal given to the generator. */
  ghost predicate Stores(t: Tree, name: string) {
    var u := Slot(t, name);
    DM.StorableThroughout(u) && if name == "metadata" then u.MapT? || u.NilMap? else u.ListT? || u.NilSlice?
  }

  ghost predicate Encodes(t: Tree, name: string) {
    var u := Slot(t, name);
    DM.FineWithin(u, 65, false) && if name == "metadata" then u.MapT? || u.NilMap? else u.ListT? || u.NilSlice?
  }

  lemma StoredExact(t: Tree)
    ensures StoredObject(Slot(t, "metadata")).Some? <==> Stores(t, "metadata")
    ensures StoredArray(Slot(t, "evidence")).Some? <==> Stores(t, "evidence")
  {
    DM.StoredExact(Slot(t, "metadata"));
    DM.StoredExact(Slot(t, "evidence"));
  }

  lemma EncodesExact(t: Tree)
    ensures RootObject(Slot(t, "metadata")).Some? <==> Encodes(t, "metadata")
    ensures RootArray(Slot(t, "evidence")).Some? <==> Encodes(t, "evidence")
  {
    DM.RootExact(Slot(t, "metadata"));
    DM.RootExact(Slot(t, "evidence"));
  }

  lemma ReadExact(t: Tree, metadata: Option<Json>, evidence: Option<Json>, id: string, version: string)
    ensures var r := ReadSignal(t, metadata, evidence);
      r.Some? && SignalMatches(r.value, id, version) <==>
        metadata.Some? && evidence.Some? && id != "" && version != "" && exists b :: Says(t, id, version, b)
    ensures ReadSignal(t, metadata, evidence).Some? ==>
      var s := ReadSignal(t, metadata, evidence).value;
      Says(t, s.id, s.version, s.valid) && metadata == Some(s.metadata) && evidence == Some(s.evidence)
  {
    var r := ReadSignal(t, metadata, evidence);
    if r.Some? && SignalMatches(r.value, id, version) {
      assert Says(t, id, version, r.value.valid);
    }
  }

  /** A stored signal is read exactly when it names the primitive and the version and holds canonical data. */
  lemma StoredReads(t: Tree, id: string, version: string)
    ensures StoredSignal(t).Some? && SignalMatches(StoredSignal(t).value, id, version) <==>
      && id != "" && version != "" && (exists b :: Says(t, id, version, b))
      && Stores(t, "metadata") && Stores(t, "evidence")
    ensures StoredSignal(t).Some? ==> (StoredSignal(t).value.valid <==> Slot(t, "valid") == BoolValue(true))
  {
    StoredExact(t);
    ReadExact(t, StoredObject(Slot(t, "metadata")), StoredArray(Slot(t, "evidence")), id, version);
  }

  lemma InputReads(t: Tree, id: string, version: string)
    ensures SignalInput(t).Some? && SignalMatches(SignalInput(t).value, id, version) <==>
      && id != "" && version != "" && (exists b :: Says(t, id, version, b))
      && Encodes(t, "metadata") && Encodes(t, "evidence")
    ensures SignalInput(t).Some? ==> (SignalInput(t).value.valid <==> Slot(t, "valid") == BoolValue(true))
  {
    EncodesExact(t);
    ReadExact(t, RootObject(Slot(t, "metadata")), RootArray(Slot(t, "evidence")), id, version);
  }

  // ---------------------------------------------------------------- acceptance

  /** A non-blank name with a non-blank version on record. */
  predicate Recorded(id: string, versions: map<string, string>) {
    !Blank(id) && id in versions && !Blank(versions[id])
  }

  /** The i-th signal: its primitive is recorded and supplied with the recorded version, the signal names
      both and holds canonical data, and its commitment is its own. */
  ghost predicate SignalStands(c: Codec, p: GovernanceProof, supplied: map<string, Option<string>>, i: nat)
    requires i < |p.signals| == |p.evaluationOrder| == |p.signalCommitments|
  {
    var id, t := p.evaluationOrder[i], p.signals[i];
    && Recorded(id, p.primitiveVersions)
    && id in supplied && supplied[id].Some? && supplied[id].value == p.primitiveVersions[id]
    && (exists b :: Says(t, id, p.primitiveVersions[id], b))
    && Stores(t, "metadata") && Stores(t, "evidence")
    && StoredSignal(t).Some? && p.signalCommitments[i] == Hash(c, Doc(StoredSignal(t).value))
  }

  lemma SignalExact(c: Codec, p: GovernanceProof, supplied: map<string, Option<string>>, i: nat)
    requires i < |p.signals| == |p.evaluationOrder| == |p.signalCommitments|
    ensures SignalVerifies(c, p, supplied, i) <==> SignalStands(c, p, supplied, i)
  {
    var id := p.evaluationOrder[i];
    if Recorded(id, p.primitiveVersions) {
      StoredReads(p.signals[i], id, p.primitiveVersions[id]);
    }
  }

  /** Whether a list of signals permits: there is one, and all are valid. */
  ghost predicate AllSayValid(signals: seq<Tree>) {
    |signals| > 0 && forall i :: 0 <= i < |signals| ==> Slot(signals[i], "valid") == BoolValue(true)
  }

  predicate ReasonsGiven(decision: bool, reasons: seq<string>) {
    (decision <==> reasons == []) && forall r :: r in reasons ==> !Blank(r)
  }

  lemma ReasonsExact(decision: bool, reasons: seq<string>)
    ensures ReasonsOk(decision, reasons) <==> ReasonsGiven(decision, reasons)
  {
    if ReasonsGiven(decision, reasons) {
      forall i | 0 <= i < |reasons| ensures !Blank(reasons[i]) { assert reasons[i] in reasons; }
    }
  }

  /** The context: canonical and committed to, or, in a denial, missing. */
  ghost predicate ContextStands(c: Codec, p: GovernanceProof) {
    if p.contextSnapshot.MapT? then
      && DM.StorableThroughout(p.contextSnapshot)
      && exists j :: CloneStored(p.contextSnapshot) == Some(j) && p.contextCommitment == Hash(c, j)
    else !p.decision && p.contextCommitment == ""
  }

  lemma ContextExact(c: Codec, p: GovernanceProof)
    ensures ContextVerifies(c, p) <==> ContextStands(c, p)
  {
    DM.StoredExact(p.contextSnapshot);
    if CloneStored(p.contextSnapshot).Some? {
      assert CloneStored(p.contextSnapshot) == Some(CloneStored(p.contextSnapshot).value);
    }
  }

  ghost predicate Stands(c: Codec, p: GovernanceProof, supplied: map<string, Option<string>>) {
    && p.schemaVersion == "gsas-governance-proof/v1"
    && |p.evaluationOrder| == |p.signals| == |p.signalCommitments| == |p.primitiveVersions|
    && (forall i, j :: 0 <= i < j < |p.evaluationOrder| ==> p.evaluationOrder[i] != p.evaluationOrder[j])
    && (forall i :: 0 <= i < |p.signals| ==> SignalStands(c, p, supplied, i))
    && (p.decision <==> AllSayValid(p.signals))
    && ReasonsGiven(p.decision, p.failureReasons)
    && ContextStands(c, p)
    && EnvelopeCommitment(c, p).Some? && p.envelopeCommitment == EnvelopeCommitment(c, p).value
  }

  lemma SignalsExact(c: Codec, p: GovernanceProof, supplied: map<string, Option<string>>)
    requires |p.evaluationOrder| == |p.signals| == |p.signalCommitments|
    ensures (forall i :: 0 <= i < |p.signals| ==> SignalVerifies(c, p, supplied, i)) <==>
      forall i :: 0 <= i < |p.signals| ==> SignalStands(c, p, supplied, i)
  {
    forall i | 0 <= i < |p.signals| { SignalExact(c, p, supplied, i); }
  }

  lemma DecisionExact(c: Codec, p: GovernanceProof)
    requires SignalsStored(p)
    ensures AllValid(p) <==> AllSayValid(p.signals)
  {
    forall i | 0 <= i < |p.signals|
      ensures StoredValid(p.signals[i]) <==> Slot(p.signals[i], "valid") == BoolValue(true)
    {
      StoredReads(p.signals[i], "", "");
    }
  }

  /** The verifier accepts exactly the proofs whose every field stands. */
  lemma AcceptsExactly(c: Codec, p: GovernanceProof, supplied: map<string, Option<string>>)
    ensures Accepts(c, p, supplied) <==> Stands(c, p, supplied)
  {
    ReasonsExact(p.decision, p.failureReasons);
    ContextExact(c, p);
    if |p.evaluationOrder| == |p.signals| == |p.signalCommitments| {
      SignalsExact(c, p, supplied);
      if SignalsStored(p) { DecisionExact(c, p); }
    }
  }

  /** ReconstructContext hands out the context exactly when it is canonical and both commitments stand. */
  lemma IntactExactly(c: Codec, p: GovernanceProof)
    ensures PX.ContextIntact(c, p) <==>
      && p.contextSnapshot.MapT? && DM.StorableThroughout(p.contextSnapshot)
      && (exists j :: CloneStored(p.contextSnapshot) == Some(j) && p.contextCommitment == Hash(c, j))
      && EnvelopeCommitment(c, p).Some? && p.envelopeCommitment == EnvelopeCommitment(c, p).value
  {
    ContextExact(c, p);
  }

  // ---------------------------------------------------------------- generation

  ghost predicate SignalServes(q: Request, i: nat)
    requires i < |q.ids| == |q.signals|
  {
    var id, t := q.ids[i], q.signals[i];
    && Recorded(id, q.versions) && (exists b :: Says(t, id, q.versions[id], b))
    && Encodes(t, "metadata") && Encodes(t, "evidence")
  }

  ghost predicate Serves(q: Request) {
    && |q.ids| == |q.signals|
    && (forall i, j :: 0 <= i < j < |q.ids| ==> q.ids[i] != q.ids[j])
    && (forall i :: 0 <= i < |q.ids| ==> SignalServes(q, i))
    && (q.decision <==> AllSayValid(q.signals))
    && ReasonsGiven(q.decision, q.reasons)
    && if q.context.MapT? then DM.FineWithin(q.context, 65, false) else !q.decision
  }

  lemma ServesSignal(q: Request, i: nat)
    requires i < |q.ids| == |q.signals|
    ensures SignalGenerates(q, i) <==> SignalServes(q, i)
    ensures SignalGenerates(q, i) ==> (InputValid(q.signals[i]) <==> Slot(q.signals[i], "valid") == BoolValue(true))
  {
    if Recorded(q.ids[i], q.versions) {
      InputReads(q.signals[i], q.ids[i], q.versions[q.ids[i]]);
    }
  }

  /** The generator serves exactly the requests whose every part does. */
  lemma GeneratesExactly(q: Request)
    ensures Generates(q) <==> Serves(q)
  {
    ReasonsExact(q.decision, q.reasons);
    DM.RootExact(q.context);
    if |q.ids| == |q.signals| {
      forall i | 0 <= i < |q.ids|
        ensures SignalGenerates(q, i) <==> SignalServes(q, i)
        ensures SignalGenerates(q, i) ==> (InputValid(q.signals[i]) <==> Slot(q.signals[i], "valid") == BoolValue(true))
      {
        ServesSignal(q, i);
      }
    }
  }

  /** What the proof records of the i-th signal: the request's ID, version and verdict, and its data in
      canonical form. */
  function RecordedSignal(q: Request, i: nat): Signal
    requires i < |q.ids| == |q.signals| && q.ids[i] in q.versions
    requires RootObject(Slot(q.signals[i], "metadata")).Some? && RootArray(Slot(q.signals[i], "evidence")).Some?
  {
    Signal(q.ids[i], q.versions[q.ids[i]], Slot(q.signals[i], "valid") == BoolValue(true),
           RootObject(Slot(q.signals[i], "metadata")).value, RootArray(Slot(q.signals[i], "evidence")).value)
  }

  lemma GeneratedSignal(c: Codec, q: Request, i: nat)
    requires Generates(q) && i < |q.signals|
    ensures q.ids[i] in q.versions
    ensures RootObject(Slot(q.signals[i], "metadata")).Some? && RootArray(Slot(q.signals[i], "evidence")).Some?
    ensures StoredSignal(ProofOf(c, q).signals[i]) == Some(RecordedSignal(q, i))
    ensures ProofOf(c, q).signalCommitments[i] == Hash(c, Doc(RecordedSignal(q, i)))
    ensures var valid := Slot(q.signals[i], "valid") == BoolValue(true);
      Says(ProofOf(c, q).signals[i], q.ids[i], q.versions[q.ids[i]], valid)
  {
    assert SignalGenerates(q, i);
    ProofSignal(c, q, i);
    InputReads(q.signals[i], q.ids[i], q.versions[q.ids[i]]);
    FieldSlots(RecordedSignal(q, i));
    FiveFields(RecordedSignal(q, i));
  }

  /** The proof's other fields. */
  lemma GeneratedFields(c: Codec, q: Request)
    requires Generates(q)
    ensures var p := ProofOf(c, q);
      && p.schemaVersion == "gsas-governance-proof/v1" && p.generatedAt == q.time
      && p.evaluationOrder == q.ids && p.decision == q.decision && p.failureReasons == q.reasons
      && |p.signals| == |p.signalCommitments| == |q.signals|
      && (forall id :: id in p.primitiveVersions <==> id in q.ids)
      && (forall id :: id in q.ids ==> id in q.versions && p.primitiveVersions[id] == q.versions[id])
    ensures q.context.MapT? ==>
      && RootObject(q.context).Some?
      && ProofOf(c, q).contextSnapshot == ToGo(RootObject(q.context).value)
      && ProofOf(c, q).contextCommitment == Hash(c, RootObject(q.context).value)
    ensures !q.context.MapT? ==>
      ProofOf(c, q).contextSnapshot == NilMap("map[string]interface {}") && ProofOf(c, q).contextCommitment == ""
  {
    forall id | id in q.ids ensures id in q.versions {
      var i :| 0 <= i < |q.ids| && q.ids[i] == id;
      assert SignalGenerates(q, i);
    }
  }

  // ---------------------------------------------------------------- documents and digests

  /** The envelope's fields. */
  lemma EnvelopeFields(p: GovernanceProof, docs: seq<Json>)
    ensures Envelope(p, docs).JObj?
    ensures var f := Envelope(p, docs).fields;
      && f.Keys == {"schema_version", "primitive_versions", "evaluation_order", "decision", "signals",
                    "signal_commitments", "failure_reasons", "context_included", "context_commitment", "generated_at"}
      && f["schema_version"] == JStr(p.schemaVersion) && f["decision"] == JBool(p.decision)
      && f["signals"] == JArr(docs) && f["context_included"] == JBool(p.contextSnapshot.MapT?)
      && f["context_commitment"] == JStr(p.contextCommitment) && f["generated_at"] == JNum(p.generatedAt)
  {
  }

  /** A list of strings as a JSON value: null when it is empty. */
  predicate Lists(j: Json, xs: seq<string>) {
    if xs == [] then j == JNull
    else j.JArr? && |j.items| == |xs| && forall i :: 0 <= i < |xs| ==> j.items[i] == JStr(xs[i])
  }

  lemma TextsList(xs: seq<string>)
    ensures Lists(Texts(xs), xs)
  {
  }

  lemma EnvelopeLists(p: GovernanceProof, docs: seq<Json>)
    ensures Envelope(p, docs).JObj?
    ensures {"evaluation_order", "signal_commitments", "failure_reasons", "primitive_versions"}
         <= Envelope(p, docs).fields.Keys
    ensures Lists(Envelope(p, docs).fields["evaluation_order"], p.evaluationOrder)
    ensures Lists(Envelope(p, docs).fields["signal_commitments"], p.signalCommitments)
    ensures Lists(Envelope(p, docs).fields["failure_reasons"], p.failureReasons)
    ensures var versions := Envelope(p, docs).fields["primitive_versions"];
      && versions.JObj? && versions.fields.Keys == p.primitiveVersions.Keys
      && forall id :: id in p.primitiveVersions ==> versions.fields[id] == JStr(p.primitiveVersions[id])
  {
    EnvelopeFields(p, docs);
    TextsList(p.evaluationOrder);
    TextsList(p.signalCommitments);
    TextsList(p.failureReasons);
  }

  /** How an encodable value is written down: bare when it is nil, a plain bool or a plain
      string, and otherwise with its kind and its type. */
  predicate Written(t: Tree, j: Json) {
    match t
    case Nil => j == JNull
    case Iface(u) => Written(u, j)
    case ScalarT(tid, BoolS(b)) => if tid == "bool" then j == JBool(b) else Carries(j, "bool", tid, JBool(b))
    case ScalarT(tid, StrS(s)) => if tid == "string" then j == JStr(s) else Carries(j, "string", tid, JStr(s))
    case ScalarT(tid, IntS(i)) => Carries(j, "int", tid, JStr(Decimal(i)))
    case ScalarT(tid, UintS(u, _)) => Carries(j, "uint", tid, JStr(Decimal(u)))
    case ScalarT(tid, FloatS(token)) => Carries(j, "float", tid, JStr(token))
    case NilMap(tid) => Carries(j, "map", tid, JNull)
    case NilSlice(tid) => Carries(j, "slice", tid, JNull)
    case MapT(tid, es) =>
      && Carried(j, "map", tid).JObj? && Carried(j, "map", tid).fields.Keys == es.Keys
      && forall k :: k in es ==> Written(es[k], Carried(j, "map", tid).fields[k])
    case ListT(tid, isArray, ts) =>
      var kind := if isArray then "array" else "slice";
      && Carried(j, kind, tid).JArr? && |Carried(j, kind, tid).items| == |ts|
      && forall i :: 0 <= i < |ts| ==> Written(ts[i], Carried(j, kind, tid).items[i])
    case _ => false
  }

  /** The value in a tag of this kind and type; a number, which no tag holds, if j is none. */
  function Carried(j: Json, kind: string, tid: string): Json {
    if j.JObj? && j.fields.Keys == {"$gsas_kind", "$gsas_type", "$gsas_value"}
      && j.fields["$gsas_kind"] == JStr(kind) && j.fields["$gsas_type"] == JStr(tid) then
      j.fields["$gsas_value"]
    else JNum(0)
  }

  predicate Carries(j: Json, kind: string, tid: string, value: Json) {
    Carried(j, kind, tid) == value
  }

  lemma TaggedCarries(kind: string, tid: string, value: Json)
    ensures Carried(Tagged(kind, tid, value), kind, tid) == value
  {
    assert Tagged(kind, tid, value).fields.Keys == {"$gsas_kind", "$gsas_type", "$gsas_value"};
  }

  /** The proof encoder writes every value down that way. */
  lemma {:induction false} TagWritten(t: Tree)
    requires Encodable(t)
    ensures Written(t, Tag(t))
    decreases t
  {
    match t
    case Iface(u) => TagWritten(u);
    case ScalarT(tid, s) => ScalarWritten(tid, s);
    case NilMap(tid) => TaggedCarries("map", tid, JNull);
    case NilSlice(tid) => TaggedCarries("slice", tid, JNull);
    case MapT(tid, es) =>
      var fields := map k | k in es :: Tag(es[k]);
      TaggedCarries("map", tid, JObj(fields));
      forall k | k in es ensures Written(es[k], fields[k]) { TagWritten(es[k]); }
    case ListT(tid, isArray, ts) =>
      TaggedCarries(if isArray then "array" else "slice", tid, JArr(TagAll(ts)));
      forall i | 0 <= i < |ts| ensures Written(ts[i], TagAll(ts)[i]) { TagWritten(ts[i]); }
    case _ =>
  }

  lemma ScalarWritten(tid: string, s: Scalar)
    ensures Written(ScalarT(tid, s), TagScalar(tid, s))
  {
    match s
    case BoolS(b) => TaggedCarries("bool", tid, JBool(b));
    case StrS(text) => TaggedCarries("string", tid, JStr(text));
    case IntS(i) => TaggedCarries("int", tid, JStr(Decimal(i)));
    case UintS(u, _) => TaggedCarries("uint", tid, JStr(Decimal(u)));
    case FloatS(token) => TaggedCarries("float", tid, JStr(token));
  }

  function DigitOf(c: char): int {
    if '0' <= c <= '9' then c as int - '0' as int else 10 + (c as int - 'a' as int)
  }

  function HexNumber(s: string): int {
    if |s| == 0 then 0 else HexNumber(s[..|s| - 1]) * 16 + DigitOf(s[|s| - 1])
  }

  function Pow16(k: nat): nat {
    if k == 0 then 1 else 16 * Pow16(k - 1)
  }

  /** The digits of a digest give it back. */
  lemma {:induction false} HexExact(n: nat, k: nat)
    requires n < Pow16(k)
    ensures HexNumber(Hex(n, k)) == n
  {
    if k > 0 {
      HexExact(n / 16, k - 1);
      assert Hex(n, k)[..k - 1] == Hex(n / 16, k - 1);
    }
  }

  // ---------------------------------------------------------------- written and read back

  /** b is what JSON keeps of stored data a itself, its parts apart: everything but a nil container, which
      is written as null. */
  predicate Reread(a: Tree, b: Tree) {
    if a.NilMap? || a.NilSlice? then b == Nil else DM.Snapshot(a, b)
  }

  ghost predicate RereadAt(t: Tree, u: Tree, p: OG.Path) {
    && (DM.Look(t, p).Some? <==> DM.Look(u, p).Some?)
    && (DM.Look(t, p).Some? ==> Reread(DM.Look(t, p).value, DM.Look(u, p).value))
  }

  lemma RereadByParts(t: Tree, u: Tree, p: OG.Path)
    requires !t.Iface? && Reread(t, u)
    requires |p| > 0 && OG.Part(t, p[0]).Some? ==>
      OG.Part(u, p[0]).Some? && RereadAt(OG.Part(t, p[0]).value, OG.Part(u, p[0]).value, p[1..])
    ensures RereadAt(t, u, p)
  {
    assert DM.Bare(t) == t && DM.Bare(u) == u;
    if |p| > 0 && OG.Part(t, p[0]).None? {
      assert OG.Part(u, p[0]).None?;
    }
  }

  lemma WrittenPart(t: Tree, s: OG.Step)
    requires !t.Iface? && OG.Part(t, s).Some?
    ensures OG.Part(ToGo(PB.Written(t)), s) == Some(Box(ToGo(PB.Written(OG.Part(t, s).value))))
  {
  }

  /** Stored data written as JSON and read back holds, at every path of keys and indices, what it held,
      with null for a nil container. */
  lemma {:induction false} WrittenKeeps(t: Tree, p: OG.Path)
    requires DM.StorableThroughout(t)
    ensures RereadAt(t, ToGo(PB.Written(t)), p)
    decreases t
  {
    DM.StorableParts(t);
    DM.TreeParts(t);
    if t.Iface? {
      WrittenKeeps(t.elem, p);
    } else {
      if |p| > 0 && OG.Part(t, p[0]).Some? {
        WrittenPart(t, p[0]);
        WrittenKeeps(OG.Part(t, p[0]).value, p[1..]);
        DM.LookBoxed(ToGo(PB.Written(OG.Part(t, p[0]).value)), p[1..]);
      }
      RereadByParts(t, ToGo(PB.Written(t)), p);
    }
  }
}
