/** GenerateProofForContext and Verify as they run: two independently written loops.  Their contracts
    are the loop-free predicates of ProofTheory, about which its theorems speak. */
module ProofMethods {
  import opened Values
  import opened Frames
  import opened Text
  import opened PrimitiveContracts
  import opened ProofEncoding
  import opened ProofTheory
  import ProofWalkers

  /** canonicalizeSignalInput */
  method CanonicalizeSignalInput(t: Tree) returns (r: Option<Signal>)
    ensures r == SignalInput(t)
  {
    if !t.MapT? || |t.entries| != 5 { return None; }
    if !IsText(Slot(t, "primitive_id")) || !IsText(Slot(t, "version")) || !IsBool(Slot(t, "valid")) { return None; }
    var metadata := ProofWalkers.EncodeProofRootObject(Slot(t, "metadata"));
    if metadata.None? { return None; }
    var evidence := ProofWalkers.EncodeProofRootArray(Slot(t, "evidence"));
    r := ReadSignal(t, metadata, evidence);
  }

  lemma SlotBoxed(t: Tree, name: string)
    requires WellBoxed(t)
    ensures WellBoxed(Slot(t, name))
  {
  }

  /** cloneStoredSignal */
  method CloneStoredSignal(t: Tree) returns (r: Option<Signal>)
    requires WellBoxed(t)
    ensures r == StoredSignal(t)
  {
    if !t.MapT? || |t.entries| != 5 { return None; }
    if !IsText(Slot(t, "primitive_id")) || !IsText(Slot(t, "version")) || !IsBool(Slot(t, "valid")) { return None; }
    SlotBoxed(t, "metadata");
    SlotBoxed(t, "evidence");
    var metadata := ProofWalkers.CloneStoredRootObject(Slot(t, "metadata"));
    if metadata.None? { return None; }
    var evidence := ProofWalkers.CloneStoredRootArray(Slot(t, "evidence"));
    r := ReadSignal(t, metadata, evidence);
  }

  /** validateFailureReasons */
  method ValidateFailureReasons(decision: bool, reasons: seq<string>) returns (ok: bool)
    ensures ok <==> ReasonsOk(decision, reasons)
  {
    for i := 0 to |reasons|
      invariant forall j :: 0 <= j < i ==> !Blank(reasons[j])
    {
      if Blank(reasons[i]) { return false; }
    }
    return decision <==> |reasons| == 0;
  }

  /** computeEnvelopeCommitment */
  method ComputeEnvelopeCommitment(c: Codec, p: GovernanceProof) returns (r: Option<string>)
    requires Typed(p)
    ensures r == EnvelopeCommitment(c, p)
  {
    var docs: seq<Json> := [];
    for i := 0 to |p.signals|
      invariant |docs| == i
      invariant forall j :: 0 <= j < i ==>
        StoredSignal(p.signals[j]).Some? && docs[j] == Doc(StoredSignal(p.signals[j]).value)
    {
      var cloned := CloneStoredSignal(p.signals[i]);
      if cloned.None? { return None; }
      docs := docs + [Doc(cloned.value)];
    }
    assert docs == Docs(p);
    if p.contextSnapshot.MapT? {
      var context := ProofWalkers.CloneStoredRootObject(p.contextSnapshot);
      if context.None? { return None; }
    }
    return Some(Hash(c, Envelope(p, docs)));
  }

  /** SignalVerifies, with the signals already read. */
  predicate Checks(c: Codec, p: GovernanceProof, supplied: map<string, Option<string>>,
      read: seq<Option<Signal>>, i: nat)
    requires i < |p.signals| == |p.evaluationOrder| == |p.signalCommitments| == |read|
  {
    var id := p.evaluationOrder[i];
    && !Blank(id) && id in p.primitiveVersions && !Blank(p.primitiveVersions[id])
    && read[i].Some? && SignalMatches(read[i].value, id, p.primitiveVersions[id])
    && p.signalCommitments[i] == Hash(c, Doc(read[i].value))
    && id in supplied && supplied[id] == Some(p.primitiveVersions[id])
  }

  /** One turn of Verify's loop. */
  method VerifySignal(c: Codec, p: GovernanceProof, supplied: map<string, Option<string>>, i: nat,
      ghost read: seq<Option<Signal>>)
    returns (ok: bool, valid: bool)
    requires Typed(p) && i < |p.signals| == |p.evaluationOrder| == |p.signalCommitments| == |read|
    requires forall i {:trigger StoredSignal(p.signals[i])} :: 0 <= i < |read| ==> read[i] == StoredSignal(p.signals[i])
    ensures ok <==> Checks(c, p, supplied, read, i)
    ensures ok ==> valid == read[i].value.valid
  {
    var id := p.evaluationOrder[i];
    valid := false;
    if Blank(id) { return false, false; }
    if id !in p.primitiveVersions || Blank(p.primitiveVersions[id]) { return false, false; }
    var signal := CloneStoredSignal(p.signals[i]);
    if signal.None? || !SignalMatches(signal.value, id, p.primitiveVersions[id]) { return false, false; }
    valid := signal.value.valid;
    var expected := Hash(c, Doc(signal.value));
    if !ValidSha256(p.signalCommitments[i]) || p.signalCommitments[i] != expected { return false, valid; }
    ok := id in supplied && supplied[id] == Some(p.primitiveVersions[id]);
  }

  /** Verify's loop. */
  method VerifySignals(c: Codec, p: GovernanceProof, supplied: map<string, Option<string>>,
      ghost read: seq<Option<Signal>>)
    returns (ok: bool, allValid: bool)
    requires Typed(p) && |p.evaluationOrder| == |p.signals| == |p.signalCommitments| == |read|
    requires forall i {:trigger StoredSignal(p.signals[i])} :: 0 <= i < |read| ==> read[i] == StoredSignal(p.signals[i])
    ensures ok <==> Distinct(p.evaluationOrder) && forall i :: 0 <= i < |read| ==> Checks(c, p, supplied, read, i)
    ensures ok ==> (allValid <==> |read| > 0 && forall i :: 0 <= i < |read| ==> read[i].Some? && read[i].value.valid)
  {
    var seen: set<string> := {};
    allValid := |p.signals| > 0;
    for i := 0 to |p.evaluationOrder|
      invariant seen == set j | 0 <= j < i :: p.evaluationOrder[j]
      invariant forall j, k :: 0 <= j < k < i ==> p.evaluationOrder[j] != p.evaluationOrder[k]
      invariant forall j :: 0 <= j < i ==> Checks(c, p, supplied, read, j)
      invariant allValid <==> |read| > 0 && forall j :: 0 <= j < i ==> read[j].Some? && read[j].value.valid
    {
      var id := p.evaluationOrder[i];
      if id in seen { return false, false; }
      seen := seen + {id};
      var verified, valid := VerifySignal(c, p, supplied, i, read);
      if !verified { return false, false; }
      if !valid { allValid := false; }
    }
    ok := true;
  }

  ghost function ReadAll(p: GovernanceProof): (r: seq<Option<Signal>>)
    ensures |r| == |p.signals|
    ensures forall i {:trigger StoredSignal(p.signals[i])} :: 0 <= i < |r| ==> r[i] == StoredSignal(p.signals[i])
  {
    seq(|p.signals|, i requires 0 <= i < |p.signals| => StoredSignal(p.signals[i]))
  }

  lemma ReadChecks(c: Codec, p: GovernanceProof, supplied: map<string, Option<string>>)
    requires |p.evaluationOrder| == |p.signals| == |p.signalCommitments|
    ensures forall i :: 0 <= i < |p.signals| ==>
      (SignalVerifies(c, p, supplied, i) <==> Checks(c, p, supplied, ReadAll(p), i))
    ensures AllValid(p) <==>
      |p.signals| > 0 && forall i :: 0 <= i < |p.signals| ==> ReadAll(p)[i].Some? && ReadAll(p)[i].value.valid
  {
    forall i | 0 <= i < |p.signals| ensures ReadAll(p)[i] == StoredSignal(p.signals[i]) {}
  }

  /** GovernanceProof.Verify accepts exactly the proofs of `Accepts`. */
  method Verify(c: Codec, p: GovernanceProof, supplied: map<string, Option<string>>) returns (ok: bool)
    requires Typed(p)
    ensures ok <==> Accepts(c, p, supplied)
  {
    if p.schemaVersion != SCHEMA { return false; }
    if |p.evaluationOrder| != |p.signals| || |p.signals| != |p.signalCommitments| { return false; }
    if |p.primitiveVersions| != |p.evaluationOrder| { return false; }
    ReadChecks(c, p, supplied);
    var signals, allValid := VerifySignals(c, p, supplied, ReadAll(p));
    if !signals || p.decision != allValid { return false; }
    var reasons := ValidateFailureReasons(p.decision, p.failureReasons);
    if !reasons { return false; }
    ok := VerifyCommitments(c, p);
  }

  method VerifyCommitments(c: Codec, p: GovernanceProof) returns (ok: bool)
    requires Typed(p)
    ensures ok <==> ContextVerifies(c, p) && EnvelopeCommitment(c, p) == Some(p.envelopeCommitment)
  {
    if !p.contextSnapshot.MapT? {
      if p.decision || p.contextCommitment != "" { return false; }
    } else {
      var context := ProofWalkers.CloneStoredRootObject(p.contextSnapshot);
      if context.None? { return false; }
      if !ValidSha256(p.contextCommitment) || p.contextCommitment != Hash(c, context.value) { return false; }
    }
    if !ValidSha256(p.envelopeCommitment) {
      assert EnvelopeCommitment(c, p) != Some(p.envelopeCommitment);
      return false;
    }
    var expected := ComputeEnvelopeCommitment(c, p);
    return expected == Some(p.envelopeCommitment);
  }

  /** The proof's context and envelope still match their commitments. */
  ghost predicate ContextIntact(c: Codec, p: GovernanceProof) {
    p.contextSnapshot.MapT? && ContextVerifies(c, p) && EnvelopeCommitment(c, p) == Some(p.envelopeCommitment)
  }

  /** ReconstructContext: a copy of the bound context, or an empty map when anything was altered. */
  method ReconstructContext(c: Codec, p: GovernanceProof) returns (context: Tree)
    requires Typed(p)
    ensures ContextIntact(c, p) ==>
      StoredObject(p.contextSnapshot).Some? && context == ToGo(StoredObject(p.contextSnapshot).value)
    ensures !ContextIntact(c, p) ==> context == MapT(MAP_TYPE, map[])
  {
    if !p.contextSnapshot.MapT? { return MapT(MAP_TYPE, map[]); }
    var intact := VerifyCommitments(c, p);
    if !intact { return MapT(MAP_TYPE, map[]); }
    var stored := ProofWalkers.CloneStoredRootObject(p.contextSnapshot);
    context := ToGo(stored.value);
  }

  /** The context of a generated proof is reconstructed as it was encoded. */
  lemma GeneratedReconstructs(c: Codec, q: Request)
    requires Generates(q) && q.context.MapT?
    ensures var p := ProofOf(c, q);
      && ContextIntact(c, p) && StoredObject(p.contextSnapshot) == RootObject(q.context)
      && p.contextSnapshot == ToGo(RootObject(q.context).value)
  {
    GeneratedContext(c, q);
    GeneratedEnvelope(c, q);
    RootNumberless(q.context);
    CloneStoredIdentity(RootObject(q.context).value);
  }

  /** SignalGenerates, with the signals already read. */
  predicate Qualifies(q: Request, read: seq<Option<Signal>>, i: nat)
    requires i < |q.ids| == |q.signals| == |read|
  {
    !Blank(q.ids[i]) && q.ids[i] in q.versions && !Blank(q.versions[q.ids[i]])
    && read[i].Some? && SignalMatches(read[i].value, q.ids[i], q.versions[q.ids[i]])
  }

  /** One turn of the generator's loop. */
  method GenerateSignal(q: Request, i: nat, ghost read: seq<Option<Signal>>) returns (r: Option<Signal>)
    requires i < |q.ids| == |q.signals| == |read|
    requires forall i {:trigger SignalInput(q.signals[i])} :: 0 <= i < |read| ==> read[i] == SignalInput(q.signals[i])
    ensures r == if Qualifies(q, read, i) then read[i] else None
  {
    var id := q.ids[i];
    if Blank(id) || id !in q.versions || Blank(q.versions[id]) { return None; }
    var signal := CanonicalizeSignalInput(q.signals[i]);
    if signal.None? || !SignalMatches(signal.value, id, q.versions[id]) { return None; }
    return signal;
  }

  datatype Draft = Draft(versions: map<string, string>, signals: seq<Signal>, allValid: bool)

  /** The generator's loop: the versions of the evaluated primitives, and their signals in canonical form. */
  method GenerateSignals(q: Request, ghost read: seq<Option<Signal>>) returns (r: Option<Draft>)
    requires |q.ids| == |q.signals| == |read|
    requires forall i {:trigger SignalInput(q.signals[i])} :: 0 <= i < |read| ==> read[i] == SignalInput(q.signals[i])
    ensures r.Some? <==> Distinct(q.ids) && forall i :: 0 <= i < |read| ==> Qualifies(q, read, i)
    ensures r.Some? ==> |r.value.signals| == |read| && forall i :: 0 <= i < |read| ==>
      read[i] == Some(r.value.signals[i])
    ensures r.Some? ==> (r.value.allValid <==> |read| > 0 && forall i :: 0 <= i < |read| ==> r.value.signals[i].valid)
    ensures r.Some? ==> r.value.versions == map id | id in q.versions && id in q.ids :: q.versions[id]
  {
    var seen: set<string> := {};
    var versions: map<string, string>, signals: seq<Signal>, allValid := map[], [], |q.signals| > 0;
    for i := 0 to |q.ids|
      invariant seen == set j | 0 <= j < i :: q.ids[j]
      invariant forall j, k :: 0 <= j < k < i ==> q.ids[j] != q.ids[k]
      invariant forall j :: 0 <= j < i ==> Qualifies(q, read, j)
      invariant |signals| == i && forall j :: 0 <= j < i ==> read[j] == Some(signals[j])
      invariant allValid <==> |read| > 0 && forall j :: 0 <= j < i ==> signals[j].valid
      invariant versions.Keys == seen && forall id :: id in versions ==>
        id in q.versions && versions[id] == q.versions[id]
    {
      var id := q.ids[i];
      if id in seen { return None; }
      seen := seen + {id};
      var signal := GenerateSignal(q, i, read);
      if signal.None? { return None; }
      versions := versions[id := q.versions[id]];
      if !signal.value.valid { allValid := false; }
      signals := signals + [signal.value];
    }
    VersionsKept(q, versions);
    return Some(Draft(versions, signals, allValid));
  }

  lemma VersionsKept(q: Request, versions: map<string, string>)
    requires versions.Keys == (set j | 0 <= j < |q.ids| :: q.ids[j])
    requires forall id :: id in versions ==> id in q.versions && versions[id] == q.versions[id]
    ensures versions == map id | id in q.versions && id in q.ids :: q.versions[id]
  {
  }

  ghost function InputAll(q: Request): (r: seq<Option<Signal>>)
    ensures |r| == |q.signals|
    ensures forall i {:trigger SignalInput(q.signals[i])} :: 0 <= i < |r| ==> r[i] == SignalInput(q.signals[i])
  {
    seq(|q.signals|, i requires 0 <= i < |q.signals| => SignalInput(q.signals[i]))
  }

  lemma InputQualifies(q: Request)
    requires |q.ids| == |q.signals|
    ensures forall i :: 0 <= i < |q.ids| ==> (SignalGenerates(q, i) <==> Qualifies(q, InputAll(q), i))
    ensures forall i :: 0 <= i < |q.ids| ==>
      (InputValid(q.signals[i]) <==> InputAll(q)[i].Some? && InputAll(q)[i].value.valid)
  {
    forall i | 0 <= i < |q.signals| ensures InputAll(q)[i] == SignalInput(q.signals[i]) {}
  }

  /** GenerateProofForContext serves exactly the requests of `Generates`, with the proof of `ProofOf`. */
  method GenerateProofForContext(c: Codec, q: Request) returns (r: Option<GovernanceProof>)
    requires ContextArgument(q.context)
    ensures r.Some? <==> Generates(q)
    ensures r.Some? ==> r.value == ProofOf(c, q)
  {
    if |q.ids| != |q.signals| { return None; }
    var reasons := ValidateFailureReasons(q.decision, q.reasons);
    if !reasons || (q.decision && !q.context.MapT?) { return None; }
    InputQualifies(q);
    var draft := GenerateSignals(q, InputAll(q));
    if draft.None? || q.decision != draft.value.allValid { return None; }
    var snapshot, commitment := NilMap(MAP_TYPE), "";
    if q.context.MapT? {
      var context := ProofWalkers.EncodeProofRootObject(q.context);
      if context.None? { return None; }
      snapshot, commitment := ToGo(context.value), Hash(c, context.value);
    }
    assert Generates(q);
    r := Seal(c, q, draft.value, snapshot, commitment);
  }

  lemma DraftDocs(q: Request, d: Draft, docs: seq<Json>)
    requires |docs| == |d.signals| == |q.signals|
    requires forall i :: 0 <= i < |docs| ==> docs[i] == Doc(d.signals[i])
    requires forall i :: 0 <= i < |q.signals| ==> InputAll(q)[i] == Some(d.signals[i])
    ensures docs == InputDocs(q)
  {
    forall i | 0 <= i < |docs| ensures docs[i] == InputDoc(q.signals[i]) {
      assert InputAll(q)[i] == SignalInput(q.signals[i]);
    }
  }

  method Seal(c: Codec, q: Request, d: Draft, snapshot: Tree, commitment: string) returns (r: Option<GovernanceProof>)
    requires Generates(q) && ContextArgument(q.context)
    requires d.versions == map id | id in q.versions && id in q.ids :: q.versions[id]
    requires |d.signals| == |q.signals| && forall i :: 0 <= i < |q.signals| ==> InputAll(q)[i] == Some(d.signals[i])
    requires snapshot == if q.context.MapT? then ToGo(RootObject(q.context).value) else NilMap(MAP_TYPE)
    requires commitment == if q.context.MapT? then Hash(c, RootObject(q.context).value) else ""
    ensures r == Some(ProofOf(c, q))
  {
    var docs := seq(|d.signals|, i requires 0 <= i < |d.signals| => Doc(d.signals[i]));
    DraftDocs(q, d, docs);
    var p := GovernanceProof(
      SCHEMA, d.versions, q.ids, q.decision,
      seq(|docs|, i requires 0 <= i < |docs| => ToGo(docs[i])),
      seq(|docs|, i requires 0 <= i < |docs| => Hash(c, docs[i])),
      q.reasons, snapshot, commitment, q.time, "");
    ghost var want := ProofOf(c, q);
    assert p == want.(envelopeCommitment := "") by {
      assert p.signals == want.signals && p.signalCommitments == want.signalCommitments;
    }
    Sealed(c, q);
    var envelope := ComputeEnvelopeCommitment(c, p);
    return Some(p.(envelopeCommitment := envelope.value));
  }

  lemma Sealed(c: Codec, q: Request)
    requires Generates(q) && ContextArgument(q.context)
    ensures var want := ProofOf(c, q); var p := want.(envelopeCommitment := "");
      Typed(p) && EnvelopeCommitment(c, p) == Some(want.envelopeCommitment)
  {
    forall i | 0 <= i < |q.signals| { ProofSignal(c, q, i); }
    GeneratedContext(c, q);
    GeneratedDocs(c, q);
    assert Docs(ProofOf(c, q).(envelopeCommitment := "")) == Docs(ProofOf(c, q));
  }
}
