/** From what an evaluation recorded to the decision it returns (the end of evaluate, and
    preconditionDenial, in core/governance_engine.go). */
module Decisions {
  import opened Values
  import opened Frames
  import opened Text
  import opened PrimitiveContracts
  import opened ProofEncoding
  import opened ProofTheory
  import opened EvaluationRecord
  import PM = ProofMethods
  import DC = DeterministicContext

  datatype Decision = Decision(
    permitted: bool, signals: seq<Tree>, reasons: seq<string>, proof: Option<GovernanceProof>)

  const PROOF_FAILED := "proof generation failed"

  /** An engine's evaluation, over and ready for the generator. */
  ghost predicate Evaluated(regs: seq<Registration>, outcomes: seq<Outcome>, rec: Record) {
    && |regs| > 0 && DistinctIds(regs) && (forall i :: 0 <= i < |regs| ==> Registered(regs[i]))
    && Underway(regs, outcomes) && Settled(regs, outcomes) && IsRecord(rec, regs, outcomes)
  }

  /** The end of evaluate.  A permit needs every registered primitive to have answered valid, a proof,
      and so data and context within the generator's depth; otherwise the denial carries no proof.  The
      data of a valid context is always encodable (PrimitiveContracts.ClonableIffFits). */
  method Conclude(c: Codec, rec: Record, context: Tree, time: int, ghost regs: seq<Registration>,
      ghost outcomes: seq<Outcome>)
    returns (d: Decision)
    requires Evaluated(regs, outcomes, rec) && context.MapT? && Encodable(context)
    ensures d.proof.Some? <==> AllShallow(outcomes) && Fits(context, VALUE_DEPTH + 1)
    ensures d.permitted <==>
      d.proof.Some? && |outcomes| == |regs| && forall i :: 0 <= i < |regs| ==> outcomes[i].failure.None?
    ensures d.proof.Some? ==>
      Generates(RequestOf(rec, context, time)) && d.proof.value == ProofOf(c, RequestOf(rec, context, time))
    ensures d.proof.Some? ==> d.signals == d.proof.value.signals && d.reasons == rec.reasons
    ensures d.proof.None? ==> d.signals == [] && d.reasons == rec.reasons + [PROOF_FAILED]
  {
    var q := RequestOf(rec, context, time);
    RecordGenerates(regs, outcomes, rec, context, time);
    RecordDecision(regs, outcomes, rec);
    var proof := PM.GenerateProofForContext(c, q);
    if proof.None? {
      return Decision(false, [], rec.reasons + [PROOF_FAILED], None);
    }
    var signals := CloneSignals(c, q, proof.value);
    d := Decision(rec.permitted, signals, rec.reasons, proof);
  }

  lemma RecordDecision(regs: seq<Registration>, outcomes: seq<Outcome>, rec: Record)
    requires Evaluated(regs, outcomes, rec)
    ensures rec.permitted <==> |outcomes| == |regs| && forall i :: 0 <= i < |regs| ==> outcomes[i].failure.None?
  {
  }

  /** The decision's copy of a proof's signal.  The error branch is dead: what the generator stored
      always clones. */
  method CloneSignal(c: Codec, q: Request, i: nat, signal: Tree) returns (cloned: Tree)
    requires Generates(q) && i < |q.signals| && signal == ProofOf(c, q).signals[i]
    ensures cloned == signal
  {
    ProofSignal(c, q, i);
    var read := PM.CloneStoredSignal(signal);
    if read.None? {
      assert false;
    }
    cloned := ToGo(Doc(read.value));
  }

  method CloneSignals(c: Codec, q: Request, p: GovernanceProof) returns (signals: seq<Tree>)
    requires Generates(q) && p == ProofOf(c, q)
    ensures signals == p.signals
  {
    signals := [];
    for i := 0 to |p.signals|
      invariant signals == p.signals[..i]
    {
      var cloned := CloneSignal(c, q, i, p.signals[i]);
      signals := signals + [cloned];
    }
  }

  /** preconditionDenial; the context is nil when it is missing or invalid. */
  method PreconditionDenial(c: Codec, context: Tree, time: int, reason: string) returns (d: Decision)
    requires ContextArgument(context) && (context.MapT? ==> Encodable(context))
    ensures !d.permitted && d.signals == []
    ensures d.proof.Some? <==> !Blank(reason) && (context.MapT? ==> Fits(context, VALUE_DEPTH + 1))
    ensures d.proof.Some? ==> d.proof.value == ProofOf(c, DenialRequest(context, time, reason)) && d.reasons == [reason]
    ensures d.proof.None? ==> d.reasons == [reason, PROOF_FAILED]
  {
    DenialGenerates(context, time, reason);
    var proof := PM.GenerateProofForContext(c, DenialRequest(context, time, reason));
    d := Decision(false, [], if proof.Some? then [reason] else [reason, PROOF_FAILED], proof);
  }

  function DenialRequest(context: Tree, time: int, reason: string): Request {
    Request(false, [], [], map[], [reason], context, time)
  }

  lemma DenialGenerates(context: Tree, time: int, reason: string)
    requires ContextArgument(context) && (context.MapT? ==> Encodable(context))
    ensures Generates(DenialRequest(context, time, reason)) <==>
      !Blank(reason) && (context.MapT? ==> Fits(context, VALUE_DEPTH + 1))
  {
    if context.MapT? {
      RootFits(context);
    }
    assert [reason][0] == reason;
  }

  /** Every primitive the record names reports its registered version. */
  predicate Reports(supplied: map<string, Option<string>>, regs: seq<Registration>) {
    forall i :: 0 <= i < |regs| ==> regs[i].id in supplied && supplied[regs[i].id] == Some(regs[i].version)
  }

  /** A decision's proof always verifies against the primitives that were evaluated, so a permit can
      always be checked later. */
  lemma DecisionVerifies(c: Codec, regs: seq<Registration>, outcomes: seq<Outcome>, rec: Record, context: Tree,
      time: int,
                         supplied: map<string, Option<string>>)
    requires Evaluated(regs, outcomes, rec) && context.MapT? && Reports(supplied, regs)
    requires Generates(RequestOf(rec, context, time))
    ensures Accepts(c, ProofOf(c, RequestOf(rec, context, time)), supplied)
  {
    var q := RequestOf(rec, context, time);
    forall id | id in q.ids && id in q.versions ensures id in supplied && supplied[id] == Some(q.versions[id]) {
      var i :| 0 <= i < |outcomes| && id == regs[i].id;
    }
    GeneratedIsAccepted(c, q, supplied);
  }

  /** A context of 66 steps is valid, and every evaluation in it is denied without a proof. */
  lemma DeepContextNeverPermits(regs: seq<Registration>, outcomes: seq<Outcome>, rec: Record, time: int)
    requires Evaluated(regs, outcomes, rec)
    ensures DC.Clonable(DeepContext(32), 0) && Encodable(DeepContext(32))
    ensures !Generates(RequestOf(rec, DeepContext(32), time))
  {
    DeepContextFacts(32, VALUE_DEPTH + 1);
    DeepContextIsLost(32);
    RecordGenerates(regs, outcomes, rec, DeepContext(32), time);
  }
}
