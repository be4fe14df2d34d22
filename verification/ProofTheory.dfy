/** Governance proofs (core/proof_theory.go): what the generator builds, what the verifier accepts, and
    what an accepted proof guarantees. */
module ProofTheory {
  import opened Values
  import opened Frames
  import opened Text
  import opened PrimitiveContracts
  import opened ProofEncoding
  import FailureTexts

  // ---------------------------------------------------------------- hashing

  /** json.Marshal on documents, SHA-256 as a number, and how error texts print keys and types.  Nothing is
      assumed about any of them. */
  datatype Codec = Codec(marshal: Json -> string, sha: string -> nat, printer: FailureTexts.Printer)

  function HexDigit(n: nat): char
    requires n < 16
  {
    if n < 10 then ('0' as int + n) as char else ('a' as int + n - 10) as char
  }

  /** The low k hexadecimal digits of n. */
  function Hex(n: nat, k: nat): (s: string)
    ensures |s| == k && forall i :: 0 <= i < k ==> '0' <= s[i] <= '9' || 'a' <= s[i] <= 'f'
  {
    if k == 0 then "" else Hex(n / 16, k - 1) + [HexDigit(n % 16)]
  }

  /** validSHA256 */
  predicate ValidSha256(s: string) {
    |s| == 64 && forall i :: 0 <= i < 64 ==> '0' <= s[i] <= '9' || 'a' <= s[i] <= 'f'
  }

  /** hashBytes on a printed document. */
  function Hash(c: Codec, j: Json): (h: string)
    ensures ValidSha256(h)
  {
    Hex(c.sha(c.marshal(j)), 64)
  }

  /** Two different documents with one hash: either json.Marshal gives them one text, which only
      happens when a string is not valid UTF-8, or their texts are a SHA-256 collision. */
  ghost predicate Collide(c: Codec, a: Json, b: Json) {
    a != b && Hash(c, a) == Hash(c, b)
  }

  // ---------------------------------------------------------------- signals

  datatype Signal = Signal(id: string, version: string, valid: bool, metadata: Json, evidence: Json)

  function Doc(s: Signal): Json {
    JObj(map["primitive_id" := JStr(s.id), "version" := JStr(s.version), "valid" := JBool(s.valid),
             "metadata" := s.metadata, "evidence" := s.evidence])
  }

  lemma DocInjective(a: Signal, b: Signal)
    requires Doc(a) == Doc(b)
    ensures a == b
  {
    var f, g := Doc(a).fields, Doc(b).fields;
    assert f["primitive_id"] == g["primitive_id"] && f["version"] == g["version"] && f["valid"] == g["valid"];
    assert f["metadata"] == g["metadata"] && f["evidence"] == g["evidence"];
  }

  /** A value of type map[string]interface{}. */
  predicate IsObject(t: Tree) {
    && WellBoxed(t)
    && (t == NilMap(MAP_TYPE)
        || (t.MapT? && t.tid == MAP_TYPE && forall k :: k in t.entries ==> IsSlot(t.entries[k])))
  }

  predicate IsSlot(t: Tree) {
    t == Nil || t.Iface?
  }

  /** The concrete value under a key; nil when the key is missing. */
  function Slot(t: Tree, name: string): Tree {
    if t.MapT? && name in t.entries then Unboxed(t.entries[name]) else Nil
  }

  predicate IsText(t: Tree) {
    t.ScalarT? && t.tid == "string" && t.scalar.StrS?
  }

  predicate IsBool(t: Tree) {
    t.ScalarT? && t.tid == "bool" && t.scalar.BoolS?
  }

  /** The part of canonicalizeSignalInput and cloneStoredSignal that does not differ. */
  function ReadSignal(t: Tree, metadata: Option<Json>, evidence: Option<Json>): Option<Signal> {
    if !t.MapT? || |t.entries| != 5 then None
    else if !IsText(Slot(t, "primitive_id")) || !IsText(Slot(t, "version")) || !IsBool(Slot(t, "valid")) then None
    else if metadata.None? || evidence.None? then None
    else
      Some(Signal(Slot(t, "primitive_id").scalar.s, Slot(t, "version").scalar.s, Slot(t, "valid").scalar.b,
                  metadata.value, evidence.value))
  }

  /** canonicalizeSignalInput */
  function SignalInput(t: Tree): Option<Signal> {
    ReadSignal(t, RootObject(Slot(t, "metadata")), RootArray(Slot(t, "evidence")))
  }

  function StoredObject(t: Tree): Option<Json> {
    if t.MapT? || t.NilMap? then CloneStored(t) else None
  }

  function StoredArray(t: Tree): Option<Json> {
    if t.ListT? || t.NilSlice? then CloneStored(t) else None
  }

  /** cloneStoredSignal */
  function StoredSignal(t: Tree): Option<Signal> {
    ReadSignal(t, StoredObject(Slot(t, "metadata")), StoredArray(Slot(t, "evidence")))
  }

  /** validateSignal, on a signal read by one of the two functions above. */
  predicate SignalMatches(s: Signal, id: string, version: string) {
    s.id != "" && s.id == id && s.version != "" && s.version == version
  }

  // ---------------------------------------------------------------- proofs

  const SCHEMA := "gsas-governance-proof/v1"

  datatype GovernanceProof = GovernanceProof(
    schemaVersion: string, primitiveVersions: map<string, string>, evaluationOrder: seq<string>,
    decision: bool, signals: seq<Tree>, signalCommitments: seq<string>, failureReasons: seq<string>,
    contextSnapshot: Tree, contextCommitment: string, generatedAt: int, envelopeCommitment: string)

  /** The Go types of the fields. */
  predicate Typed(p: GovernanceProof) {
    IsObject(p.contextSnapshot) && forall i :: 0 <= i < |p.signals| ==> IsObject(p.signals[i])
  }

  /** A copied []string prints as null when it is empty. */
  function Texts(xs: seq<string>): Json {
    if |xs| == 0 then JNull else JArr(seq(|xs|, i requires 0 <= i < |xs| => JStr(xs[i])))
  }

  function Versions(m: map<string, string>): Json {
    JObj(map k | k in m :: JStr(m[k]))
  }

  /** The document computeEnvelopeCommitment hashes. */
  function Envelope(p: GovernanceProof, docs: seq<Json>): Json {
    JObj(map["schema_version" := JStr(p.schemaVersion), "primitive_versions" := Versions(p.primitiveVersions),
             "evaluation_order" := Texts(p.evaluationOrder), "decision" := JBool(p.decision), "signals" := JArr(docs),
             "signal_commitments" := Texts(p.signalCommitments), "failure_reasons" := Texts(p.failureReasons),
             "context_included" := JBool(p.contextSnapshot.MapT?), "context_commitment" := JStr(p.contextCommitment),
             "generated_at" := JNum(p.generatedAt)])
  }

  predicate SignalsStored(p: GovernanceProof) {
    forall i :: 0 <= i < |p.signals| ==> StoredSignal(p.signals[i]).Some?
  }

  function Docs(p: GovernanceProof): (r: seq<Json>)
    requires SignalsStored(p)
  {
    seq(|p.signals|, i requires 0 <= i < |p.signals| => Doc(StoredSignal(p.signals[i]).value))
  }

  /** computeEnvelopeCommitment */
  function EnvelopeCommitment(c: Codec, p: GovernanceProof): Option<string> {
    if !SignalsStored(p) then None
    else if p.contextSnapshot.MapT? && StoredObject(p.contextSnapshot).None? then None
    else Some(Hash(c, Envelope(p, Docs(p))))
  }

  /** validateFailureReasons */
  predicate ReasonsOk(decision: bool, reasons: seq<string>) {
    (forall i :: 0 <= i < |reasons| ==> !Blank(reasons[i])) && (decision <==> |reasons| == 0)
  }

  /** What the verifier checks of the i-th signal.  `supplied` gives the version each supplied
      primitive reports, or None when it is nil or panics. */
  ghost predicate SignalVerifies(c: Codec, p: GovernanceProof, supplied: map<string, Option<string>>, i: nat)
    requires i < |p.signals| == |p.evaluationOrder| == |p.signalCommitments|
  {
    var id := p.evaluationOrder[i];
    && !Blank(id) && id in p.primitiveVersions && !Blank(p.primitiveVersions[id])
    && StoredSignal(p.signals[i]).Some?
    && SignalMatches(StoredSignal(p.signals[i]).value, id, p.primitiveVersions[id])
    && p.signalCommitments[i] == Hash(c, Doc(StoredSignal(p.signals[i]).value))
    && id in supplied && supplied[id] == Some(p.primitiveVersions[id])
  }

  ghost predicate Distinct(xs: seq<string>) {
    forall i, j :: 0 <= i < j < |xs| ==> xs[i] != xs[j]
  }

  predicate StoredValid(t: Tree) {
    StoredSignal(t).Some? && StoredSignal(t).value.valid
  }

  ghost predicate AllValid(p: GovernanceProof) {
    |p.signals| > 0 && forall i :: 0 <= i < |p.signals| ==> StoredValid(p.signals[i])
  }

  ghost predicate ContextVerifies(c: Codec, p: GovernanceProof) {
    if p.contextSnapshot.MapT? then
      StoredObject(p.contextSnapshot).Some? && p.contextCommitment == Hash(c, StoredObject(p.contextSnapshot).value)
    else !p.decision && p.contextCommitment == ""
  }

  /** The proofs Verify accepts, without its loop. */
  ghost predicate Accepts(c: Codec, p: GovernanceProof, supplied: map<string, Option<string>>) {
    && p.schemaVersion == SCHEMA
    && |p.evaluationOrder| == |p.signals| == |p.signalCommitments| == |p.primitiveVersions|
    && Distinct(p.evaluationOrder)
    && (forall i :: 0 <= i < |p.signals| ==> SignalVerifies(c, p, supplied, i))
    && p.decision == AllValid(p)
    && ReasonsOk(p.decision, p.failureReasons)
    && ContextVerifies(c, p)
    && EnvelopeCommitment(c, p) == Some(p.envelopeCommitment)
  }

  // ---------------------------------------------------------------- soundness

  lemma {:induction false} DistinctSet(xs: seq<string>)
    requires Distinct(xs)
    ensures |set x | x in xs| == |xs|
  {
    if |xs| > 0 {
      DistinctSet(xs[1..]);
      assert (set x | x in xs) == {xs[0]} + set x | x in xs[1..];
    }
  }

  lemma SameSizeSubset(a: set<string>, b: set<string>)
    requires a <= b && |a| == |b|
    ensures a == b
  {
    assert |b - a| == |b| - |a|;
  }

  /** Acceptance means: the versions are those of exactly the evaluated primitives, no primitive is
      evaluated twice, the decision is the conjunction of a non-empty list of signals, each of which
      names its primitive and version, the supplied primitives report those versions, and no permit lacks
      a context. */
  lemma VerifierSound(c: Codec, p: GovernanceProof, supplied: map<string, Option<string>>)
    requires Accepts(c, p, supplied)
    ensures p.primitiveVersions.Keys == set id | id in p.evaluationOrder
    ensures forall id :: id in p.primitiveVersions ==> id in supplied && supplied[id] == Some(p.primitiveVersions[id])
    ensures forall id :: id in p.primitiveVersions ==> !Blank(id) && !Blank(p.primitiveVersions[id])
    ensures Distinct(p.evaluationOrder)
    ensures p.decision <==>
      && |p.signals| > 0
      && forall i :: 0 <= i < |p.signals| ==> Slot(p.signals[i], "valid") == ScalarT("bool", BoolS(true))
    ensures p.decision ==> p.contextSnapshot.MapT? && p.failureReasons == []
    ensures !p.decision ==> p.failureReasons != []
    ensures forall i :: 0 <= i < |p.signals| ==>
      Slot(p.signals[i], "primitive_id") == ScalarT("string", StrS(p.evaluationOrder[i]))
    ensures forall i :: 0 <= i < |p.signals| ==>
      p.evaluationOrder[i] in p.primitiveVersions
      && Slot(p.signals[i], "version") == ScalarT("string", StrS(p.primitiveVersions[p.evaluationOrder[i]]))
  {
    var ids := set id | id in p.evaluationOrder;
    forall i | 0 <= i < |p.signals|
      ensures var id := p.evaluationOrder[i];
        && id in p.primitiveVersions && id in supplied && supplied[id] == Some(p.primitiveVersions[id])
        && !Blank(id) && !Blank(p.primitiveVersions[id])
        && Slot(p.signals[i], "primitive_id") == ScalarT("string", StrS(id))
        && Slot(p.signals[i], "version") == ScalarT("string", StrS(p.primitiveVersions[id]))
      ensures StoredValid(p.signals[i]) <==> Slot(p.signals[i], "valid") == ScalarT("bool", BoolS(true))
    {
      assert SignalVerifies(c, p, supplied, i);
    }
    DistinctSet(p.evaluationOrder);
    SameSizeSubset(ids, p.primitiveVersions.Keys);
  }

  // ---------------------------------------------------------------- generation

  datatype Request = Request(decision: bool, ids: seq<string>, signals: seq<Tree>, versions: map<string, string>,
                             reasons: seq<string>, context: Tree, time: int)

  predicate InputValid(t: Tree) {
    SignalInput(t).Some? && SignalInput(t).value.valid
  }

  ghost predicate SignalGenerates(q: Request, i: nat)
    requires i < |q.ids| == |q.signals|
  {
    && !Blank(q.ids[i]) && q.ids[i] in q.versions && !Blank(q.versions[q.ids[i]])
    && SignalInput(q.signals[i]).Some?
    && SignalMatches(SignalInput(q.signals[i]).value, q.ids[i], q.versions[q.ids[i]])
  }

  /** The requests GenerateProofForContext serves, without its loop. */
  ghost predicate Generates(q: Request) {
    && |q.ids| == |q.signals|
    && ReasonsOk(q.decision, q.reasons)
    && (q.decision ==> q.context.MapT?)
    && Distinct(q.ids)
    && (forall i :: 0 <= i < |q.ids| ==> SignalGenerates(q, i))
    && (q.decision <==> |q.signals| > 0 && forall i :: 0 <= i < |q.signals| ==> InputValid(q.signals[i]))
    && (q.context.MapT? ==> RootObject(q.context).Some?)
  }

  function InputDoc(t: Tree): Json {
    if SignalInput(t).Some? then Doc(SignalInput(t).value) else JNull
  }

  ghost function InputDocs(q: Request): (r: seq<Json>)
    ensures |r| == |q.signals| && forall i :: 0 <= i < |r| ==> r[i] == InputDoc(q.signals[i])
  {
    seq(|q.signals|, i requires 0 <= i < |q.signals| => InputDoc(q.signals[i]))
  }

  /** The proof it returns; signals and context are stored in canonical form. */
  ghost function ProofOf(c: Codec, q: Request): GovernanceProof
    requires Generates(q)
  {
    var docs := InputDocs(q);
    var p := GovernanceProof(
      SCHEMA, map id | id in q.versions && id in q.ids :: q.versions[id], q.ids, q.decision,
      seq(|docs|, i requires 0 <= i < |docs| => ToGo(docs[i])),
      seq(|docs|, i requires 0 <= i < |docs| => Hash(c, docs[i])),
      q.reasons, if q.context.MapT? then ToGo(RootObject(q.context).value) else NilMap(MAP_TYPE),
      if q.context.MapT? then Hash(c, RootObject(q.context).value) else "", q.time, "");
    p.(envelopeCommitment := Hash(c, Envelope(p, docs)))
  }

  /** The context argument is a map[string]interface{}, nil included. */
  predicate ContextArgument(t: Tree) {
    t.MapT? || t == NilMap(MAP_TYPE)
  }

  /** The supplied primitives report the versions recorded in the request. */
  ghost predicate Supplies(supplied: map<string, Option<string>>, q: Request) {
    forall id :: id in q.ids && id in q.versions ==> id in supplied && supplied[id] == Some(q.versions[id])
  }

  lemma RootNumberless(t: Tree)
    ensures RootObject(t).Some? ==> Numberless(RootObject(t).value) && RootObject(t).value.JObj?
    ensures RootArray(t).Some? ==> Numberless(RootArray(t).value) && RootArray(t).value.JArr?
  {
    if t.MapT? { forall k | k in t.entries { TagNumberless(t.entries[k]); } }
    if t.ListT? { forall i | 0 <= i < |t.items| { TagNumberless(t.items[i]); } }
  }

  lemma FieldSlot(s: Signal, name: string)
    requires name in Doc(s).fields
    ensures Slot(ToGo(Doc(s)), name) == Unboxed(Box(ToGo(Doc(s).fields[name])))
  {
  }

  lemma FiveFields(s: Signal)
    ensures Doc(s).fields.Keys == {"primitive_id", "version", "valid", "metadata", "evidence"}
    ensures ToGo(Doc(s)).MapT? && ToGo(Doc(s)).tid == MAP_TYPE && |ToGo(Doc(s)).entries| == 5
    ensures forall k :: k in ToGo(Doc(s)).entries ==> IsSlot(ToGo(Doc(s)).entries[k])
  {
    var t := ToGo(Doc(s));
    assert t.entries.Keys == Doc(s).fields.Keys;
    assert |t.entries| == |t.entries.Keys|;
  }

  lemma FieldSlots(s: Signal)
    ensures var t := ToGo(Doc(s));
      && Slot(t, "primitive_id") == ScalarT("string", StrS(s.id))
      && Slot(t, "version") == ScalarT("string", StrS(s.version))
      && Slot(t, "valid") == ScalarT("bool", BoolS(s.valid))
      && Slot(t, "metadata") == Unboxed(Box(ToGo(s.metadata)))
      && Slot(t, "evidence") == Unboxed(Box(ToGo(s.evidence)))
  {
    FieldSlot(s, "primitive_id");
    FieldSlot(s, "version");
    FieldSlot(s, "valid");
    FieldSlot(s, "metadata");
    FieldSlot(s, "evidence");
  }

  predicate Canonical(s: Signal) {
    Numberless(s.metadata) && s.metadata.JObj? && Numberless(s.evidence) && s.evidence.JArr?
  }

  /** A signal stored in canonical form reads back as itself. */
  lemma StoredSignalIdentity(s: Signal)
    requires Canonical(s)
    ensures StoredSignal(ToGo(Doc(s))) == Some(s)
  {
    FiveFields(s);
    FieldSlots(s);
    CloneStoredIdentity(s.metadata);
    CloneStoredIdentity(s.evidence);
  }

  lemma StoredSignalTyped(s: Signal)
    requires Canonical(s)
    ensures IsObject(ToGo(Doc(s)))
  {
    FiveFields(s);
    DocNumberless(s);
    CloneStoredIdentity(Doc(s));
  }

  lemma DocNumberless(s: Signal)
    requires Numberless(s.metadata) && Numberless(s.evidence)
    ensures Numberless(Doc(s))
  {
  }

  lemma SignalInputCanonical(t: Tree)
    requires SignalInput(t).Some?
    ensures Canonical(SignalInput(t).value)
  {
    RootNumberless(Slot(t, "metadata"));
    RootNumberless(Slot(t, "evidence"));
  }

  lemma ProofSignal(c: Codec, q: Request, i: nat)
    requires Generates(q) && i < |q.signals|
    ensures var p, s := ProofOf(c, q), SignalInput(q.signals[i]);
      && s.Some? && p.signals[i] == ToGo(Doc(s.value)) && StoredSignal(p.signals[i]) == s
      && IsObject(p.signals[i]) && p.signalCommitments[i] == Hash(c, Doc(s.value))
  {
    assert SignalGenerates(q, i);
    assert InputDocs(q)[i] == Doc(SignalInput(q.signals[i]).value);
    SignalInputCanonical(q.signals[i]);
    StoredSignalIdentity(SignalInput(q.signals[i]).value);
    StoredSignalTyped(SignalInput(q.signals[i]).value);
  }

  lemma {:induction false} DistinctKeys(ids: seq<string>, versions: map<string, string>)
    requires Distinct(ids) && forall id :: id in ids ==> id in versions
    ensures |map id | id in versions && id in ids :: versions[id]| == |ids|
  {
    var m := map id | id in versions && id in ids :: versions[id];
    assert m.Keys == set id | id in ids;
    DistinctSet(ids);
    assert |m| == |m.Keys|;
  }

  lemma GeneratedSignals(c: Codec, q: Request, supplied: map<string, Option<string>>)
    requires Generates(q) && Supplies(supplied, q)
    ensures var p := ProofOf(c, q);
      && |p.signals| == |p.evaluationOrder| == |p.signalCommitments| == |p.primitiveVersions|
      && forall i :: 0 <= i < |p.signals| ==> SignalVerifies(c, p, supplied, i)
  {
    var p := ProofOf(c, q);
    forall id | id in q.ids ensures id in q.versions {
      var i :| 0 <= i < |q.ids| && q.ids[i] == id;
      assert SignalGenerates(q, i);
    }
    DistinctKeys(q.ids, q.versions);
    forall i | 0 <= i < |p.signals| ensures SignalVerifies(c, p, supplied, i) {
      assert SignalGenerates(q, i);
      ProofSignal(c, q, i);
    }
  }

  lemma GeneratedDecision(c: Codec, q: Request)
    requires Generates(q)
    ensures ProofOf(c, q).decision == AllValid(ProofOf(c, q))
  {
    var p := ProofOf(c, q);
    forall i | 0 <= i < |p.signals| ensures StoredSignal(p.signals[i]) == SignalInput(q.signals[i]) {
      ProofSignal(c, q, i);
    }
  }

  lemma GeneratedContext(c: Codec, q: Request)
    requires Generates(q) && ContextArgument(q.context)
    ensures ContextVerifies(c, ProofOf(c, q)) && IsObject(ProofOf(c, q).contextSnapshot)
  {
    if q.context.MapT? {
      RootNumberless(q.context);
      CloneStoredIdentity(RootObject(q.context).value);
    }
  }

  lemma GeneratedDocs(c: Codec, q: Request)
    requires Generates(q)
    ensures SignalsStored(ProofOf(c, q)) && Docs(ProofOf(c, q)) == InputDocs(q)
  {
    var p := ProofOf(c, q);
    forall i | 0 <= i < |p.signals|
      ensures StoredSignal(p.signals[i]).Some? && InputDoc(q.signals[i]) == Doc(StoredSignal(p.signals[i]).value)
    {
      ProofSignal(c, q, i);
    }
  }

  lemma GeneratedEnvelope(c: Codec, q: Request)
    requires Generates(q) && ContextArgument(q.context)
    ensures EnvelopeCommitment(c, ProofOf(c, q)) == Some(ProofOf(c, q).envelopeCommitment)
  {
    GeneratedContext(c, q);
    GeneratedDocs(c, q);
  }

  /** Every proof the generator returns is accepted by the verifier, when the supplied primitives
      report the recorded versions. */
  lemma GeneratedIsAccepted(c: Codec, q: Request, supplied: map<string, Option<string>>)
    requires Generates(q) && ContextArgument(q.context) && Supplies(supplied, q)
    ensures Accepts(c, ProofOf(c, q), supplied) && Typed(ProofOf(c, q))
  {
    GeneratedSignals(c, q, supplied);
    GeneratedDecision(c, q);
    GeneratedContext(c, q);
    GeneratedEnvelope(c, q);
    forall i | 0 <= i < |q.signals| { ProofSignal(c, q, i); }
  }
}
