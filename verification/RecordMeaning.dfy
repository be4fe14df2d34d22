/** What the engine records of an evaluation, in terms of what the primitives answered, up to the stored
    signals of the proof. */
module RecordMeaning {
  import opened Values
  import opened Frames
  import opened Text
  import opened PrimitiveContracts
  import opened ResultNormalizer
  import opened ProofEncoding
  import opened ProofTheory
  import opened EvaluationRecord
  import opened EngineMachine
  import opened EngineRuns
  import Decisions
  import PM = ProofMeaning

  // ---------------------------------------------------------------- the checks

  /** What a good answer to the i-th question is. */
  predicate Agrees(r: Registration, answers: seq<Answer>, i: nat)
    requires i < |answers| <= 8
  {
    if i == 0 || i == 5 then answers[i] == Said(Some(r.version))
    else if i == 1 || i == 6 then answers[i] == Said(Some(r.source))
    else if i == 2 || i == 7 then answers[i] == Said(Some(r.configuration))
    else if i == 3 then answers[3].Evaluated? && answers[3].result.Some?
    else
      && answers[3].Evaluated? && answers[3].result.Some? && answers[4].Evaluated? && answers[4].result.Some?
      && SameBytes(answers[3].result.value, answers[4].result.value)
  }

  lemma PassesExact(r: Registration, answers: seq<Answer>, i: nat)
    requires FittingAll(answers) && i < |answers|
    ensures Passes(r, answers, i) <==> Agrees(r, answers, i)
  {
    assert Fitting(QUESTIONS[i], answers[i]);
    if i == 4 { assert Fitting(QUESTIONS[3], answers[3]); }
  }

  ghost predicate AllAgree(r: Registration, answers: seq<Answer>) {
    |answers| <= 8 && forall i :: 0 <= i < |answers| ==> Agrees(r, answers, i)
  }

  lemma StopExact(r: Registration, answers: seq<Answer>)
    requires FittingAll(answers)
    ensures Stop(r, answers, 0) == |answers| <==> AllAgree(r, answers)
  {
    forall i | 0 <= i < |answers| ensures Passes(r, answers, i) <==> Agrees(r, answers, i) {
      PassesExact(r, answers, i);
    }
  }

  /** An evaluation is over when an answer disagrees or all eight have been given. */
  lemma OverExactly(r: Registration, answers: seq<Answer>)
    requires FittingAll(answers)
    ensures EvaluateRegistration(r, answers).Some? <==> !AllAgree(r, answers) || |answers| == 8
  {
    StopExact(r, answers);
  }

  // ---------------------------------------------------------------- the signal

  /** The reason a denying primitive gives: the text under "reason", if there is one that is not blank. */
  ghost predicate GivesReason(metadata: Tree, reason: string) {
    if exists s :: Slot(metadata, "reason") == ScalarT("string", StrS(s)) && !Blank(s) then
      Slot(metadata, "reason") == ScalarT("string", StrS(reason)) && !Blank(reason)
    else reason == "governance signal was denied"
  }

  /** A signal that carries this data, with the failure the evaluation reports of it. */
  ghost predicate Carries(o: Outcome, r: Registration, metadata: Tree, evidence: Tree) {
    && PM.Says(o.signal, r.id, r.version, o.failure.None?)
    && Slot(o.signal, "metadata") == metadata && Slot(o.signal, "evidence") == evidence
  }

  predicate FailsWith(o: Outcome, r: Registration, reason: string) {
    o.failure == Some("Primitive '" + r.id + "' failed: " + reason)
  }

  /** A disagreement is recorded as a failed check, with no evidence. */
  lemma DisagreementMeans(r: Registration, answers: seq<Answer>)
    requires FittingAll(answers) && !AllAgree(r, answers)
    ensures EvaluateRegistration(r, answers).Some?
    ensures var o := EvaluateRegistration(r, answers).value;
      && FailsWith(o, r, "evaluation check failed")
      && Carries(o, r, Slot(o.signal, "metadata"), ListT("[]interface {}", false, []))
      && Slot(Slot(o.signal, "metadata"), "reason") == ScalarT("string", StrS("evaluation check failed"))
  {
    StopExact(r, answers);
    SignalSlots(r, false, ReasonNote("evaluation check failed"), ListT(SLICE_TYPE, false, []));
  }

  lemma ReasonExact(metadata: Tree)
    ensures GivesReason(metadata, DenialReason(metadata))
  {
  }

  /** Otherwise the signal carries the verdict and the data of the first result, and a denial the reason it
      gives. */
  lemma AgreementMeans(r: Registration, answers: seq<Answer>)
    requires FittingAll(answers) && |answers| == 8 && AllAgree(r, answers)
    ensures EvaluateRegistration(r, answers).Some? && answers[3].Evaluated? && answers[3].result.Some?
    ensures var o, n := EvaluateRegistration(r, answers).value, answers[3].result.value;
      && Carries(o, r, n.metadata, n.evidence)
      && (o.failure.None? <==> n.valid)
      && (!n.valid ==> exists reason :: FailsWith(o, r, reason) && GivesReason(n.metadata, reason))
  {
    assert Agrees(r, answers, 3);
    StopExact(r, answers);
    var n := answers[3].result.value;
    assert Fitting(QUESTIONS[3], answers[3]);
    SignalSlots(r, n.valid, n.metadata, n.evidence);
    ReasonExact(n.metadata);
    assert !n.valid ==> FailsWith(EvaluateRegistration(r, answers).value, r, DenialReason(n.metadata));
  }

  // ---------------------------------------------------------------- the stored signal

  /** What the proof stores of the i-th outcome: the registration's ID and version, the verdict, and the
      data of the outcome's signal in canonical form. */
  lemma StoredOutcome(c: Codec, regs: seq<Registration>, outcomes: seq<Outcome>, rec: Record, context: Tree, time: int,
      i: nat)
    requires Decisions.Evaluated(regs, outcomes, rec) && i < |outcomes|
    requires Generates(RequestOf(rec, context, time))
    ensures var p, t := ProofOf(c, RequestOf(rec, context, time)), outcomes[i].signal;
      && |p.signals| == |outcomes|
      && RootObject(Slot(t, "metadata")).Some? && RootArray(Slot(t, "evidence")).Some?
      && StoredSignal(p.signals[i]) ==
         Some(Signal(regs[i].id, regs[i].version, outcomes[i].failure.None?, RootObject(Slot(t, "metadata")).value,
                     RootArray(Slot(t, "evidence")).value))
  {
    var q := RequestOf(rec, context, time);
    assert rec.signals[i] == outcomes[i].signal;
    assert q.ids[i] == regs[i].id by { assert regs[..|outcomes|][i] == regs[i]; }
    assert q.versions[regs[i].id] == regs[i].version;
    PM.GeneratedSignal(c, q, i);
    OutcomeVerdict(regs[i], outcomes[i]);
  }

  lemma OutcomeVerdict(r: Registration, o: Outcome)
    requires OutcomeOf(r, o)
    ensures Slot(o.signal, "valid") == PM.BoolValue(o.failure.None?)
  {
    if reason :| o == FailureSignal(r, reason) {
      SignalSlots(r, false, ReasonNote(reason), ListT(SLICE_TYPE, false, []));
    } else {
      var n :| IsNormal(n) && o == Concluded(r, n);
      SignalSlots(r, n.valid, n.metadata, n.evidence);
    }
  }

  /** A signal that says the registration is valid and stores what the primitive returned. */
  ghost predicate StoresReturned(t: Tree, r: Registration, returned: Normal) {
    && RootObject(returned.metadata).Some? && RootArray(returned.evidence).Some?
    && StoredSignal(t) ==
       Some(Signal(r.id, r.version, true, RootObject(returned.metadata).value, RootArray(returned.evidence).value))
  }

  /** A proof stores for the i-th registration what its primitive returned. */
  ghost predicate StoresHeard(p: GovernanceProof, f: Frame, i: nat)
    requires f.Evaluating?
  {
    && |f.heard| == |p.signals| == |f.snapshot| && i < |f.snapshot| && |f.heard[i]| == 8
    && f.heard[i][3].Evaluated? && f.heard[i][3].result.Some?
    && StoresReturned(p.signals[i], f.snapshot[i], f.heard[i][3].result.value)
  }

  lemma FrameRecords(c: Codec, f: Frame, rec: Record, context: Tree, time: int, i: nat)
    requires f.Evaluating? && |f.heard| == |f.outcomes| == |f.snapshot| && i < |f.snapshot|
    requires HoldsReturned(f.outcomes[i], f.heard[i]) && IsRecord(rec, f.snapshot, f.outcomes)
    requires Generates(RequestOf(rec, context, time))
    ensures StoresHeard(ProofOf(c, RequestOf(rec, context, time)), f, i)
  {
    var q := RequestOf(rec, context, time);
    assert rec.signals[i] == f.outcomes[i].signal;
    assert f.snapshot[..|f.outcomes|] == f.snapshot;
    PM.GeneratedSignal(c, q, i);
  }

  lemma PermitHolds(ss: seq<State>, ls: seq<Label>, n: nat, i: nat)
    requires IsRun(ss, ls) && n < |ls| && Permits(ss[n], ls[n]) && i < |Top(Stack(ss[n], ls[n].g)).snapshot|
    ensures var f := Top(Stack(ss[n], ls[n].g));
      |f.heard| == |f.outcomes| == |f.snapshot| && HoldsReturned(f.outcomes[i], f.heard[i])
  {
    PermitMatched(ss, ls, n);
  }

  /** In a permit, the proof stores for every registered primitive what it returned. */
  lemma PermitRecords(ss: seq<State>, ls: seq<Label>, n: nat, c: Codec, rec: Record, context: Tree, time: int, i: nat)
    requires IsRun(ss, ls) && n < |ls| && Permits(ss[n], ls[n])
    requires var f := Top(Stack(ss[n], ls[n].g));
      |f.outcomes| <= |f.snapshot| && IsRecord(rec, f.snapshot, f.outcomes) && i < |f.snapshot|
    requires Generates(RequestOf(rec, context, time))
    ensures StoresHeard(ProofOf(c, RequestOf(rec, context, time)), Top(Stack(ss[n], ls[n].g)), i)
  {
    PermitHolds(ss, ls, n, i);
    FrameRecords(c, Top(Stack(ss[n], ls[n].g)), rec, context, time, i);
  }

  // ---------------------------------------------------------------- what the proof says otherwise

  /** The proof of an evaluation: its time, its verdict, its primitives in order, its reasons, its context. */
  lemma ConcludedProof(c: Codec, rec: Record, context: Tree, time: int)
    requires Generates(RequestOf(rec, context, time))
    ensures var p := ProofOf(c, RequestOf(rec, context, time));
      && p.generatedAt == time && p.decision == rec.permitted && p.evaluationOrder == rec.ids
      && p.failureReasons == rec.reasons && |p.signals| == |rec.signals|
      && forall id :: id in p.primitiveVersions ==> id in rec.versions && p.primitiveVersions[id] == rec.versions[id]
    ensures context.MapT? ==>
      RootObject(context).Some? && ProofOf(c, RequestOf(rec, context, time)).contextSnapshot
        == ToGo(RootObject(context).value)
  {
    PM.GeneratedFields(c, RequestOf(rec, context, time));
  }

  /** The proof of a denial before the evaluation names no primitive and gives its one reason. */
  lemma DenialProof(c: Codec, context: Tree, time: int, reason: string)
    requires Generates(Decisions.DenialRequest(context, time, reason))
    ensures var p := ProofOf(c, Decisions.DenialRequest(context, time, reason));
      && p.generatedAt == time && !p.decision && p.failureReasons == [reason]
      && p.evaluationOrder == [] && p.signals == [] && p.primitiveVersions == map[]
    ensures context.MapT? ==>
      RootObject(context).Some? && ProofOf(c, Decisions.DenialRequest(context, time, reason)).contextSnapshot
        == ToGo(RootObject(context).value)
    ensures !context.MapT? ==>
      ProofOf(c, Decisions.DenialRequest(context, time, reason)).contextSnapshot == NilMap("map[string]interface {}")
  {
    PM.GeneratedFields(c, Decisions.DenialRequest(context, time, reason));
  }
}
