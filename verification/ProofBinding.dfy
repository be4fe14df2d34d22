/** What the envelope commitment of an accepted proof pins down, and when a proof survives being
    written as JSON and read back. */
module ProofBinding {
  import opened Values
  import opened Frames
  import opened PrimitiveContracts
  import opened ProofEncoding
  import opened ProofTheory

  // ---------------------------------------------------------------- binding

  lemma TextsInjective(xs: seq<string>, ys: seq<string>)
    requires Texts(xs) == Texts(ys)
    ensures xs == ys
  {
    if |xs| > 0 {
      forall i | 0 <= i < |xs| ensures xs[i] == ys[i] {
        assert Texts(xs).items[i] == Texts(ys).items[i];
      }
    }
  }

  lemma VersionsInjective(m: map<string, string>, n: map<string, string>)
    requires Versions(m) == Versions(n)
    ensures m == n
  {
    assert m.Keys == Versions(m).fields.Keys && n.Keys == Versions(n).fields.Keys;
    forall k | k in m ensures m[k] == n[k] {
      assert Versions(m).fields[k] == Versions(n).fields[k];
    }
  }

  lemma EnvelopeScalars(p: GovernanceProof, docs: seq<Json>, q: GovernanceProof, others: seq<Json>)
    requires Envelope(p, docs) == Envelope(q, others)
    ensures p.schemaVersion == q.schemaVersion && p.decision == q.decision && p.generatedAt == q.generatedAt
    ensures p.contextCommitment == q.contextCommitment && p.contextSnapshot.MapT? == q.contextSnapshot.MapT?
  {
    var f, g := Envelope(p, docs).fields, Envelope(q, others).fields;
    assert f["schema_version"] == g["schema_version"] && f["decision"] == g["decision"];
    assert f["generated_at"] == g["generated_at"] && f["context_commitment"] == g["context_commitment"];
    assert f["context_included"] == g["context_included"];
  }

  lemma EnvelopeLists(p: GovernanceProof, docs: seq<Json>, q: GovernanceProof, others: seq<Json>)
    requires Envelope(p, docs) == Envelope(q, others)
    ensures docs == others && Versions(p.primitiveVersions) == Versions(q.primitiveVersions)
    ensures Texts(p.evaluationOrder) == Texts(q.evaluationOrder)
    ensures Texts(p.signalCommitments) == Texts(q.signalCommitments)
    ensures Texts(p.failureReasons) == Texts(q.failureReasons)
  {
    var f, g := Envelope(p, docs).fields, Envelope(q, others).fields;
    assert f["signals"] == g["signals"] && f["primitive_versions"] == g["primitive_versions"];
    assert f["evaluation_order"] == g["evaluation_order"];
    assert f["signal_commitments"] == g["signal_commitments"] && f["failure_reasons"] == g["failure_reasons"];
  }

  /** The two proofs record the same thing, down to the nil containers a stored value may hold. */
  ghost predicate SameRecord(p: GovernanceProof, q: GovernanceProof) {
    && p.(signals := q.signals, contextSnapshot := q.contextSnapshot) == q
    && |p.signals| == |q.signals|
    && (forall i :: 0 <= i < |p.signals| ==> StoredSignal(p.signals[i]) == StoredSignal(q.signals[i]))
    && p.contextSnapshot.MapT? == q.contextSnapshot.MapT?
    && (p.contextSnapshot.MapT? ==> StoredObject(p.contextSnapshot) == StoredObject(q.contextSnapshot))
  }

  lemma AcceptedStored(c: Codec, p: GovernanceProof, supplied: map<string, Option<string>>)
    requires Accepts(c, p, supplied)
    ensures SignalsStored(p)
  {
    forall i | 0 <= i < |p.signals| ensures StoredSignal(p.signals[i]).Some? {
      assert SignalVerifies(c, p, supplied, i);
    }
  }

  /** Two accepted proofs under one envelope commitment record the same identities, versions, order,
      signals, decision, reasons, time and context, unless their envelopes or their contexts collide. */
  lemma EnvelopeBinds(c: Codec, p: GovernanceProof, ps: map<string, Option<string>>, q: GovernanceProof,
      qs: map<string, Option<string>>)
    requires Accepts(c, p, ps) && Accepts(c, q, qs) && p.envelopeCommitment == q.envelopeCommitment
    ensures SignalsStored(p) && SignalsStored(q)
    ensures || SameRecord(p, q)
            || Collide(c, Envelope(p, Docs(p)), Envelope(q, Docs(q)))
            || (&& p.contextSnapshot.MapT? && q.contextSnapshot.MapT?
                && StoredObject(p.contextSnapshot).Some? && StoredObject(q.contextSnapshot).Some?
                && Collide(c, StoredObject(p.contextSnapshot).value, StoredObject(q.contextSnapshot).value))
  {
    AcceptedStored(c, p, ps);
    AcceptedStored(c, q, qs);
    var e, f := Envelope(p, Docs(p)), Envelope(q, Docs(q));
    if e != f {
      assert Collide(c, e, f);
    } else {
      EnvelopeScalars(p, Docs(p), q, Docs(q));
      EnvelopeLists(p, Docs(p), q, Docs(q));
      TextsInjective(p.evaluationOrder, q.evaluationOrder);
      TextsInjective(p.signalCommitments, q.signalCommitments);
      TextsInjective(p.failureReasons, q.failureReasons);
      VersionsInjective(p.primitiveVersions, q.primitiveVersions);
      forall i | 0 <= i < |p.signals| ensures StoredSignal(p.signals[i]) == StoredSignal(q.signals[i]) {
        assert Docs(p)[i] == Docs(q)[i];
        DocInjective(StoredSignal(p.signals[i]).value, StoredSignal(q.signals[i]).value);
      }
      if p.contextSnapshot.MapT? {
        var x, y := StoredObject(p.contextSnapshot).value, StoredObject(q.contextSnapshot).value;
        if x != y {
          assert Collide(c, x, y);
        }
      }
    }
  }

  // ---------------------------------------------------------------- the JSON round trip

  /** json.Marshal of a stored value: a nil map or slice becomes null. */
  function Written(t: Tree): Json
    decreases t, 1
  {
    match t
    case Iface(u) => Written(u)
    case ScalarT(_, BoolS(b)) => JBool(b)
    case ScalarT(_, StrS(s)) => JStr(s)
    case MapT(_, es) => JObj(map k | k in es :: Written(es[k]))
    case ListT(_, _, ts) => JArr(WrittenAll(ts))
    case _ => JNull
  }

  function WrittenAll(ts: seq<Tree>): (r: seq<Json>)
    ensures |r| == |ts| && forall i :: 0 <= i < |ts| ==> r[i] == Written(ts[i])
    decreases ts, 0
  {
    if |ts| == 0 then [] else [Written(ts[0])] + WrittenAll(ts[1..])
  }

  /** A nil map or slice somewhere in the value; the generator stores none. */
  predicate HasNil(t: Tree) {
    match t
    case Iface(u) => HasNil(u)
    case NilMap(_) => true
    case NilSlice(_) => true
    case MapT(_, es) => exists k :: k in es && HasNil(es[k])
    case ListT(_, _, ts) => exists i :: 0 <= i < |ts| && HasNil(ts[i])
    case _ => false
  }

  lemma {:induction false} WrittenNumberless(t: Tree)
    ensures Numberless(Written(t))
    decreases t
  {
    match t
    case Iface(u) => WrittenNumberless(u);
    case MapT(_, es) => forall k | k in es { WrittenNumberless(es[k]); }
    case ListT(_, _, ts) => forall i | 0 <= i < |ts| { WrittenNumberless(ts[i]); }
    case _ =>
  }

  /** Writing a stored value gives its canonical document exactly when it holds no nil container. */
  lemma {:induction false} WrittenIsStored(t: Tree)
    requires CloneStored(t).Some?
    ensures Written(t) == CloneStored(t).value <==> !HasNil(t)
    decreases t
  {
    match t
    case Iface(u) => WrittenIsStored(u);
    case MapT(_, es) =>
      var w, s := Written(t).fields, CloneStored(t).value.fields;
      forall k | k in es ensures w[k] == s[k] <==> !HasNil(es[k]) { WrittenIsStored(es[k]); }
      if !HasNil(t) { assert w == s; }
    case ListT(_, _, ts) =>
      var w, s := WrittenAll(ts), CloneStored(t).value.items;
      forall i | 0 <= i < |ts| ensures w[i] == s[i] <==> !HasNil(ts[i]) { WrittenIsStored(ts[i]); }
      if !HasNil(t) { assert w == s; }
    case _ =>
  }

  /** Reading back a field of type map[string]interface{}. */
  function Reread(t: Tree): Tree {
    if Written(t).JObj? then ToGo(Written(t)) else NilMap(MAP_TYPE)
  }

  /** json.Unmarshal after json.Marshal: `omitempty` drops a context map without entries.  Strings are
      taken to be valid UTF-8, which JSON carries unchanged. */
  function RoundTrip(p: GovernanceProof): GovernanceProof {
    p.(signals := seq(|p.signals|, i requires 0 <= i < |p.signals| => Reread(p.signals[i])),
       contextSnapshot := if p.contextSnapshot.MapT? && |p.contextSnapshot.entries| > 0 then Reread(p.contextSnapshot)
                          else NilMap(MAP_TYPE))
  }

  ghost predicate NilFree(p: GovernanceProof) {
    && (forall i :: 0 <= i < |p.signals| ==> !HasNil(p.signals[i]))
    && (p.contextSnapshot.MapT? ==> !HasNil(p.contextSnapshot))
  }

  /** Whether the context a proof carries is an empty, non-nil map. */
  predicate EmptyContext(p: GovernanceProof) {
    p.contextSnapshot.MapT? && |p.contextSnapshot.entries| == 0
  }

  const FIVE := {"primitive_id", "version", "valid", "metadata", "evidence"}

  lemma FiveKeys(t: Tree)
    requires StoredSignal(t).Some?
    ensures t.MapT? && t.entries.Keys == FIVE
  {
    assert FIVE <= t.entries.Keys;
    SameSizeSubset(FIVE, t.entries.Keys);
  }

  /** The signal as it is written. */
  function WrittenSignal(t: Tree): Signal
    requires StoredSignal(t).Some?
  {
    StoredSignal(t).value.(metadata := Written(Slot(t, "metadata")), evidence := Written(Slot(t, "evidence")))
  }

  lemma WrittenFields(t: Tree)
    requires StoredSignal(t).Some? && IsObject(t)
    ensures Written(t) == Doc(WrittenSignal(t))
  {
    FiveKeys(t);
    var f, g := Written(t).fields, Doc(WrittenSignal(t)).fields;
    forall k | k in FIVE ensures f[k] == g[k] {
      assert IsSlot(t.entries[k]) && Written(t.entries[k]) == Written(Slot(t, k));
    }
    assert f == g;
  }

  lemma NilInSlot(t: Tree, k: string)
    requires t.MapT? && k in t.entries && IsSlot(t.entries[k])
    ensures HasNil(t.entries[k]) <==> HasNil(Slot(t, k))
  {
  }

  lemma SignalNils(t: Tree)
    requires StoredSignal(t).Some? && IsObject(t)
    ensures HasNil(t) <==> HasNil(Slot(t, "metadata")) || HasNil(Slot(t, "evidence"))
  {
    FiveKeys(t);
    forall k | k in FIVE ensures HasNil(t.entries[k]) <==> HasNil(Slot(t, k)) { NilInSlot(t, k); }
  }

  /** A reread signal is the written one, if its metadata and evidence are still containers; nothing
      is lost exactly when it held no nil container. */
  lemma RereadSignal(t: Tree)
    requires StoredSignal(t).Some? && IsObject(t)
    ensures StoredSignal(Reread(t)) == if Canonical(WrittenSignal(t)) then Some(WrittenSignal(t)) else None
    ensures WrittenSignal(t) == StoredSignal(t).value <==> !HasNil(t)
  {
    var w := WrittenSignal(t);
    WrittenFields(t);
    SignalNils(t);
    WrittenIsStored(Slot(t, "metadata"));
    WrittenIsStored(Slot(t, "evidence"));
    WrittenNumberless(Slot(t, "metadata"));
    WrittenNumberless(Slot(t, "evidence"));
    if Canonical(w) {
      StoredSignalIdentity(w);
    } else {
      FieldSlots(w);
    }
  }

  lemma RereadContext(t: Tree)
    requires t.MapT? && StoredObject(t).Some?
    ensures Reread(t).MapT? && StoredObject(Reread(t)) == Some(Written(t))
    ensures Written(t) == StoredObject(t).value <==> !HasNil(t)
  {
    WrittenIsStored(t);
    WrittenNumberless(t);
    CloneStoredIdentity(Written(t));
  }

  lemma StoredCanonical(t: Tree)
    requires StoredSignal(t).Some?
    ensures StoredSignal(t).value.metadata.JObj? && StoredSignal(t).value.evidence.JArr?
  {
  }

  function WrittenDocs(p: GovernanceProof): (r: seq<Json>)
    requires SignalsStored(p)
  {
    seq(|p.signals|, i requires 0 <= i < |p.signals| => Doc(WrittenSignal(p.signals[i])))
  }

  /** Written and read back, the signal is still a signal, and hashes to what it hashed to. */
  ghost predicate SignalUnnoticed(c: Codec, t: Tree)
    requires StoredSignal(t).Some?
  {
    Canonical(WrittenSignal(t)) && Hash(c, Doc(WrittenSignal(t))) == Hash(c, Doc(StoredSignal(t).value))
  }

  ghost predicate ContextUnnoticed(c: Codec, t: Tree) {
    t.MapT? ==> StoredObject(t).Some? && Hash(c, Written(t)) == Hash(c, StoredObject(t).value)
  }

  /** No hash tells the written parts and envelope from those the proof was made of. */
  ghost predicate Unnoticed(c: Codec, p: GovernanceProof)
    requires SignalsStored(p)
  {
    && (forall i :: 0 <= i < |p.signals| ==> SignalUnnoticed(c, p.signals[i]))
    && ContextUnnoticed(c, p.contextSnapshot)
    && Hash(c, Envelope(p, WrittenDocs(p))) == Hash(c, Envelope(p, Docs(p)))
  }

  lemma SignalReread(c: Codec, p: GovernanceProof, supplied: map<string, Option<string>>, i: nat)
    requires i < |p.signals| == |p.evaluationOrder| == |p.signalCommitments|
    requires SignalVerifies(c, p, supplied, i) && IsObject(p.signals[i])
    ensures SignalVerifies(c, RoundTrip(p), supplied, i) <==> SignalUnnoticed(c, p.signals[i])
    ensures SignalUnnoticed(c, p.signals[i]) ==>
      StoredSignal(RoundTrip(p).signals[i]) == Some(WrittenSignal(p.signals[i]))
  {
    RereadSignal(p.signals[i]);
  }

  lemma ContextReread(c: Codec, p: GovernanceProof)
    requires ContextVerifies(c, p) && Typed(p)
    ensures ContextVerifies(c, RoundTrip(p)) <==> !EmptyContext(p) && ContextUnnoticed(c, p.contextSnapshot)
  {
    if EmptyContext(p) {
      assert p.contextCommitment != "";
    } else if p.contextSnapshot.MapT? {
      RereadContext(p.contextSnapshot);
    }
  }

  lemma EnvelopeReread(c: Codec, p: GovernanceProof)
    requires Typed(p) && SignalsStored(p) && !EmptyContext(p)
    requires p.contextSnapshot.MapT? ==> StoredObject(p.contextSnapshot).Some?
    requires forall i :: 0 <= i < |p.signals| ==>
      StoredSignal(RoundTrip(p).signals[i]) == Some(WrittenSignal(p.signals[i]))
    ensures EnvelopeCommitment(c, RoundTrip(p)) == Some(Hash(c, Envelope(p, WrittenDocs(p))))
    ensures AllValid(RoundTrip(p)) == AllValid(p)
  {
    var r := RoundTrip(p);
    if p.contextSnapshot.MapT? { RereadContext(p.contextSnapshot); }
    assert Docs(r) == WrittenDocs(p);
  }

  lemma SignalsReread(c: Codec, p: GovernanceProof, supplied: map<string, Option<string>>)
    requires Accepts(c, p, supplied) && Typed(p) && SignalsStored(p)
    ensures (forall i :: 0 <= i < |p.signals| ==> SignalVerifies(c, RoundTrip(p), supplied, i))
       <==> (forall i :: 0 <= i < |p.signals| ==> SignalUnnoticed(c, p.signals[i]))
    ensures (forall i :: 0 <= i < |p.signals| ==> SignalUnnoticed(c, p.signals[i])) ==>
      forall i :: 0 <= i < |p.signals| ==> StoredSignal(RoundTrip(p).signals[i]) == Some(WrittenSignal(p.signals[i]))
  {
    forall i | 0 <= i < |p.signals|
      ensures SignalVerifies(c, RoundTrip(p), supplied, i) <==> SignalUnnoticed(c, p.signals[i])
      ensures SignalUnnoticed(c, p.signals[i]) ==>
        StoredSignal(RoundTrip(p).signals[i]) == Some(WrittenSignal(p.signals[i]))
    {
      assert SignalVerifies(c, p, supplied, i);
      SignalReread(c, p, supplied, i);
    }
  }

  /** Signals, context and envelope are all that is written differently. */
  lemma OthersWritten(c: Codec, p: GovernanceProof, supplied: map<string, Option<string>>)
    requires Accepts(c, p, supplied) && AllValid(RoundTrip(p)) == AllValid(p)
    ensures var r := RoundTrip(p);
      Accepts(c, r, supplied) <==>
        && (forall i :: 0 <= i < |p.signals| ==> SignalVerifies(c, r, supplied, i))
        && ContextVerifies(c, r) && EnvelopeCommitment(c, r) == Some(p.envelopeCommitment)
  {
  }

  /** An accepted proof is accepted after being written as JSON and read back exactly when its context
      is absent or has entries, and no hash notices what was written in place of its nil containers. */
  lemma RoundTripExact(c: Codec, p: GovernanceProof, supplied: map<string, Option<string>>)
    requires Accepts(c, p, supplied) && Typed(p)
    ensures SignalsStored(p)
    ensures Accepts(c, RoundTrip(p), supplied) <==> !EmptyContext(p) && Unnoticed(c, p)
  {
    AcceptedStored(c, p, supplied);
    SignalsReread(c, p, supplied);
    ContextReread(c, p);
    if !EmptyContext(p) && forall i :: 0 <= i < |p.signals| ==> SignalUnnoticed(c, p.signals[i]) {
      SignalsUnnoticed(c, p, supplied);
    }
  }

  lemma SignalsUnnoticed(c: Codec, p: GovernanceProof, supplied: map<string, Option<string>>)
    requires Accepts(c, p, supplied) && Typed(p) && SignalsStored(p) && !EmptyContext(p)
    requires forall i :: 0 <= i < |p.signals| ==> SignalUnnoticed(c, p.signals[i])
    ensures Accepts(c, RoundTrip(p), supplied) <==>
      && ContextUnnoticed(c, p.contextSnapshot)
      && Hash(c, Envelope(p, WrittenDocs(p))) == Hash(c, Envelope(p, Docs(p)))
  {
    SignalsReread(c, p, supplied);
    ContextReread(c, p);
    EnvelopeReread(c, p);
    OthersWritten(c, p, supplied);
  }

  lemma NilFreeUnnoticed(c: Codec, p: GovernanceProof)
    requires Typed(p) && NilFree(p) && SignalsStored(p)
    requires p.contextSnapshot.MapT? ==> StoredObject(p.contextSnapshot).Some?
    ensures Unnoticed(c, p)
  {
    forall i | 0 <= i < |p.signals|
      ensures WrittenSignal(p.signals[i]) == StoredSignal(p.signals[i]).value && Canonical(WrittenSignal(p.signals[i]))
    {
      RereadSignal(p.signals[i]);
      StoredCanonical(p.signals[i]);
      WrittenNumberless(Slot(p.signals[i], "metadata"));
      WrittenNumberless(Slot(p.signals[i], "evidence"));
    }
    if p.contextSnapshot.MapT? { RereadContext(p.contextSnapshot); }
    assert WrittenDocs(p) == Docs(p);
  }

  /** An accepted proof without nil containers survives being written and read back exactly when its
      context is absent or has entries; an empty context is dropped while its commitment stays. */
  lemma RoundTripAccepted(c: Codec, p: GovernanceProof, supplied: map<string, Option<string>>)
    requires Accepts(c, p, supplied) && Typed(p) && NilFree(p)
    ensures Accepts(c, RoundTrip(p), supplied) <==> !EmptyContext(p)
    ensures RoundTrip(p).envelopeCommitment == p.envelopeCommitment
  {
    RoundTripExact(c, p, supplied);
    NilFreeUnnoticed(c, p);
  }

  /** A hand-made proof holding nil containers survives only if each part that holds one collides with
      what is written for it, and the envelope too when a signal holds one. */
  lemma NilsDoNotSurvive(c: Codec, p: GovernanceProof, supplied: map<string, Option<string>>)
    requires Accepts(c, p, supplied) && Typed(p) && Accepts(c, RoundTrip(p), supplied)
    ensures SignalsStored(p)
    ensures forall i :: 0 <= i < |p.signals| && HasNil(p.signals[i]) ==>
      && Collide(c, Doc(StoredSignal(p.signals[i]).value), Doc(WrittenSignal(p.signals[i])))
      && Collide(c, Envelope(p, Docs(p)), Envelope(p, WrittenDocs(p)))
    ensures p.contextSnapshot.MapT? && HasNil(p.contextSnapshot) ==>
      StoredObject(p.contextSnapshot).Some?
      && Collide(c, StoredObject(p.contextSnapshot).value, Written(p.contextSnapshot))
  {
    RoundTripExact(c, p, supplied);
    forall i | 0 <= i < |p.signals| && HasNil(p.signals[i])
      ensures Doc(StoredSignal(p.signals[i]).value) != Doc(WrittenSignal(p.signals[i]))
      ensures Envelope(p, Docs(p)) != Envelope(p, WrittenDocs(p))
    {
      NilChanges(p, i);
    }
    if p.contextSnapshot.MapT? { RereadContext(p.contextSnapshot); }
  }

  lemma NilChanges(p: GovernanceProof, i: nat)
    requires Typed(p) && SignalsStored(p) && i < |p.signals| && HasNil(p.signals[i])
    ensures Doc(StoredSignal(p.signals[i]).value) != Doc(WrittenSignal(p.signals[i]))
    ensures Envelope(p, Docs(p)) != Envelope(p, WrittenDocs(p))
  {
    var s, w := StoredSignal(p.signals[i]).value, WrittenSignal(p.signals[i]);
    RereadSignal(p.signals[i]);
    if Doc(s) == Doc(w) { DocInjective(s, w); }
    assert Docs(p)[i] != WrittenDocs(p)[i];
    if Envelope(p, Docs(p)) == Envelope(p, WrittenDocs(p)) { EnvelopeLists(p, Docs(p), p, WrittenDocs(p)); }
  }

  lemma {:induction false} GoHasNoNil(j: Json)
    ensures !HasNil(ToGo(j))
    decreases j
  {
    match j
    case JArr(items) => forall i | 0 <= i < |items| ensures !HasNil(Box(ToGo(items[i]))) { GoHasNoNil(items[i]); }
    case JObj(fields) => forall k | k in fields ensures !HasNil(Box(ToGo(fields[k]))) { GoHasNoNil(fields[k]); }
    case _ =>
  }

  /** A generated proof survives exactly when its context was nil or had entries. */
  lemma GeneratedRoundTrip(c: Codec, q: Request, supplied: map<string, Option<string>>)
    requires Generates(q) && ContextArgument(q.context) && Supplies(supplied, q)
    ensures Accepts(c, RoundTrip(ProofOf(c, q)), supplied) <==> !(q.context.MapT? && |q.context.entries| == 0)
  {
    var p := ProofOf(c, q);
    GeneratedIsAccepted(c, q, supplied);
    forall i | 0 <= i < |p.signals| ensures !HasNil(p.signals[i]) {
      ProofSignal(c, q, i);
      GoHasNoNil(Doc(SignalInput(q.signals[i]).value));
    }
    if q.context.MapT? {
      GoHasNoNil(RootObject(q.context).value);
      var context := p.contextSnapshot;
      assert context.entries.Keys == q.context.entries.Keys;
      assert |context.entries| == |context.entries.Keys| && |q.context.entries| == |q.context.entries.Keys|;
    }
    RoundTripAccepted(c, p, supplied);
  }

  /** The engine's denial in an empty context is such a proof: accepted, but not after the round trip. */
  lemma EmptyContextIsLost(c: Codec)
    ensures var q := Request(false, [], [], map[], ["denied"], MapT(MAP_TYPE, map[]), 0);
      Generates(q) && Accepts(c, ProofOf(c, q), map[]) && !Accepts(c, RoundTrip(ProofOf(c, q)), map[])
  {
    var q := Request(false, [], [], map[], ["denied"], MapT(MAP_TYPE, map[]), 0);
    assert Generates(q);
    GeneratedIsAccepted(c, q, map[]);
    GeneratedRoundTrip(c, q, map[]);
  }
}
