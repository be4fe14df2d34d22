/** Safety of the engine over every interleaving (core/governance_engine.go). */
module EngineRuns {
  import opened Values
  import opened Frames
  import opened EvaluationRecord
  import opened EngineSections
  import opened EngineMachine
  import opened EngineRegistration
  import ComplianceChecker
  import Decisions
  import ProofTheory

  /** A run: step k goes from state k to state k + 1. */
  ghost predicate IsRun(ss: seq<State>, ls: seq<Label>) {
    && |ss| == |ls| + 1 && ss[0] == INITIAL
    && forall k :: 0 <= k < |ls| ==> Can(ss[k], ls[k]) && ss[k + 1] == Next(ss[k], ls[k])
  }

  ghost predicate Good(s: State) {
    && RegistrationsOk(s.shared.registrations) && StacksOk(s) && EvalsOk(s) && FlagsOk(s)
    && s.shared.epoch < TWO64 && exists o :: OwnedBy(s, o)
  }

  lemma GoodKept(s: State, l: Label)
    requires Good(s) && Can(s, l)
    ensures Good(Next(s, l))
  {
    var o :| OwnedBy(s, o);
    RegistrationsKept(s, l);
    StacksKept(s, l);
    EvalsKept(s, l);
    FlagsKept(s, l);
    OwnerKept(s, l, o);
    EpochStep(s, l);
  }

  lemma {:induction false} RunGood(ss: seq<State>, ls: seq<Label>, n: nat)
    requires IsRun(ss, ls) && n <= |ls|
    ensures Good(ss[n])
  {
    if n == 0 {
      assert forall g :: OwnOk(INITIAL, g);
      assert OwnedBy(INITIAL, None);
    } else {
      RunGood(ss, ls, n - 1);
      GoodKept(ss[n - 1], ls[n - 1]);
    }
  }

  // ---------------------------------------------------------------- the epoch

  /** The step clears or publishes. */
  predicate Mutates(s: State, l: Label)
    requires Can(s, l)
  {
    || (l.action.Clear? && EngineSections.Clear(s.shared).1)
    || (l.action.Publish?
        && var r := Candidate(Top(Stack(s, l.g)), l.action.version, l.action.source, l.action.configuration);
           EngineSections.Publish(s.shared, r).1 == Published)
  }

  lemma EpochStep(s: State, l: Label)
    requires Can(s, l)
    ensures Next(s, l).shared.epoch == if Mutates(s, l) then Bumped(s.shared.epoch) else s.shared.epoch
    ensures !Mutates(s, l) ==> Next(s, l).shared.registrations == s.shared.registrations
  {
  }

  /** Which steps clear or publish. */
  ghost function Mutating(ss: seq<State>, ls: seq<Label>): (r: seq<bool>)
    requires IsRun(ss, ls)
    ensures |r| == |ls| && forall k :: 0 <= k < |ls| ==> r[k] == Mutates(ss[k], ls[k])
  {
    seq(|ls|, k requires 0 <= k < |ls| => Mutates(ss[k], ls[k]))
  }

  function Count(bs: seq<bool>, m: nat, n: nat): nat
    requires m <= n <= |bs|
  {
    if m == n then 0 else Count(bs, m, n - 1) + if bs[n - 1] then 1 else 0
  }

  /** How many of the steps from m up to n clear or publish. */
  ghost function Mutations(ss: seq<State>, ls: seq<Label>, m: nat, n: nat): nat
    requires IsRun(ss, ls) && m <= n <= |ls|
  {
    Count(Mutating(ss, ls), m, n)
  }

  lemma BumpedSum(x: nat)
    ensures Bumped(x % TWO64) == (x + 1) % TWO64
  {
  }

  /** The epoch after `count` mutations. */
  ghost function Advanced(epoch: nat, count: nat): nat {
    if count == 0 then epoch else Bumped(Advanced(epoch, count - 1))
  }

  lemma {:induction false} AdvancedSum(epoch: nat, count: nat)
    requires epoch < TWO64
    ensures Advanced(epoch, count) == (epoch + count) % TWO64
  {
    if count > 0 {
      AdvancedSum(epoch, count - 1);
      BumpedSum(epoch + count - 1);
    }
  }

  /** Only a multiple of 2^64 mutations brings an epoch back. */
  lemma AdvancedExact(epoch: nat, count: nat)
    requires epoch < TWO64
    ensures Advanced(epoch, count) == epoch <==> count % TWO64 == 0
  {
    AdvancedSum(epoch, count);
    SameEpoch(epoch, count);
  }

  lemma {:induction false} CountAdvances(es: seq<nat>, bs: seq<bool>, m: nat, n: nat)
    requires |es| == |bs| + 1 && m <= n <= |bs|
    requires forall k :: 0 <= k < |bs| ==> es[k + 1] == if bs[k] then Bumped(es[k]) else es[k]
    ensures es[n] == Advanced(es[m], Count(bs, m, n))
  {
    if m < n {
      CountAdvances(es, bs, m, n - 1);
      assert es[n - 1 + 1] == if bs[n - 1] then Bumped(es[n - 1]) else es[n - 1];
    }
  }

  /** The epoch counts mutations. */
  lemma EpochAdvances(ss: seq<State>, ls: seq<Label>, m: nat, n: nat)
    requires IsRun(ss, ls) && m <= n <= |ls|
    ensures ss[n].shared.epoch == Advanced(ss[m].shared.epoch, Mutations(ss, ls, m, n))
  {
    var es, bs := seq(|ss|, k requires 0 <= k < |ss| => ss[k].shared.epoch), Mutating(ss, ls);
    forall k | 0 <= k < |bs| ensures es[k + 1] == if bs[k] then Bumped(es[k]) else es[k] {
      EpochStep(ss[k], ls[k]);
    }
    CountAdvances(es, bs, m, n);
  }

  lemma {:induction false} NoneCounted(bs: seq<bool>, m: nat, n: nat)
    requires m <= n <= |bs| && Count(bs, m, n) == 0
    ensures forall k :: m <= k < n ==> !bs[k]
  {
    if m < n {
      NoneCounted(bs, m, n - 1);
    }
  }

  lemma {:induction false} NeverMutated(ss: seq<State>, ls: seq<Label>, m: nat, n: nat)
    requires IsRun(ss, ls) && m <= n <= |ls| && forall k :: m <= k < n ==> !Mutating(ss, ls)[k]
    ensures forall k :: m <= k <= n ==> ss[k].shared.registrations == ss[m].shared.registrations
  {
    if m < n {
      NeverMutated(ss, ls, m, n - 1);
      assert !Mutating(ss, ls)[n - 1];
      EpochStep(ss[n - 1], ls[n - 1]);
    }
  }

  lemma Unmutated(ss: seq<State>, ls: seq<Label>, m: nat, n: nat)
    requires IsRun(ss, ls) && m <= n <= |ls| && Mutations(ss, ls, m, n) == 0
    ensures forall k :: m <= k <= n ==> ss[k].shared.registrations == ss[m].shared.registrations
  {
    NoneCounted(Mutating(ss, ls), m, n);
    NeverMutated(ss, ls, m, n);
  }

  lemma SameEpoch(e: nat, count: nat)
    requires e < TWO64
    ensures (e + count) % TWO64 == e <==> count % TWO64 == 0
  {
  }

  // ---------------------------------------------------------------- permits

  /** Step m took the snapshot the evaluation at p works on, and the evaluation is there ever since. */
  ghost predicate TookSnapshot(ss: seq<State>, ls: seq<Label>, m: nat, n: nat, p: Place)
    requires IsRun(ss, ls) && m < n <= |ls| && EvaluatingAt(ss[n], p)
  {
    var f := Stack(ss[n], p.g)[p.depth];
    && ls[m] == Label(p.g, Evaluate) && ss[m].nextEval == f.eval
    && ss[m].shared.registrations == f.snapshot && ss[m].shared.epoch == f.epoch && |f.snapshot| > 0
    && forall k :: m < k <= n ==> EvaluatingAt(ss[k], p) && EvalAt(ss[k], p) == f.eval
  }

  lemma SnapshotStep(s: State, l: Label, p: Place)
    requires Can(s, l) && EvaluatingAt(Next(s, l), p)
    requires !(EvaluatingAt(s, p) && Continues(Stack(s, p.g)[p.depth], Stack(Next(s, l), p.g)[p.depth]))
    ensures var f := Stack(Next(s, l), p.g)[p.depth];
      && l == Label(p.g, Evaluate) && s.nextEval == f.eval
      && s.shared.registrations == f.snapshot && s.shared.epoch == f.epoch && |f.snapshot| > 0
  {
    FrameHistory(s, l, p.g, p.depth);
  }

  lemma SnapshotKept(ss: seq<State>, ls: seq<Label>, m: nat, n: nat, p: Place)
    requires IsRun(ss, ls) && m < n - 1 && n <= |ls| && EvaluatingAt(ss[n - 1], p) && EvaluatingAt(ss[n], p)
    requires TookSnapshot(ss, ls, m, n - 1, p) && Continues(Stack(ss[n - 1], p.g)[p.depth], Stack(ss[n], p.g)[p.depth])
    ensures TookSnapshot(ss, ls, m, n, p)
  {
  }

  lemma {:induction false} SnapshotTaken(ss: seq<State>, ls: seq<Label>, n: nat, p: Place) returns (m: nat)
    requires IsRun(ss, ls) && n <= |ls| && EvaluatingAt(ss[n], p)
    ensures m < n && TookSnapshot(ss, ls, m, n, p)
  {
    if EvaluatingAt(ss[n - 1], p) && Continues(Stack(ss[n - 1], p.g)[p.depth], Stack(ss[n], p.g)[p.depth]) {
      m := SnapshotTaken(ss, ls, n - 1, p);
      SnapshotKept(ss, ls, m, n, p);
    } else {
      m := n - 1;
      SnapshotStep(ss[m], ls[m], p);
    }
  }

  /** The step lets an evaluation through: the final check is clean and no registration failed. */
  predicate Permits(s: State, l: Label) {
    Can(s, l) && l.action.Finish? && FinalVerdict(s, l.g) == Clean && !Failed(Top(Stack(s, l.g)).outcomes)
  }

  /** The final check sees a changed configuration exactly when the number of publishes and clears
      since the snapshot is not a multiple of 2^64. */
  lemma EpochExact(ss: seq<State>, ls: seq<Label>, n: nat, p: Place) returns (m: nat)
    requires IsRun(ss, ls) && n <= |ls| && EvaluatingAt(ss[n], p)
    ensures m < n && TookSnapshot(ss, ls, m, n, p)
    ensures ss[n].shared.epoch == Stack(ss[n], p.g)[p.depth].epoch <==> Mutations(ss, ls, m, n) % TWO64 == 0
  {
    m := SnapshotTaken(ss, ls, n, p);
    RunGood(ss, ls, m);
    EpochAdvances(ss, ls, m, n);
    AdvancedExact(ss[m].shared.epoch, Mutations(ss, ls, m, n));
  }

  lemma SmallMultiple(count: nat)
    requires count < TWO64 && count % TWO64 == 0
    ensures count == 0
  {
  }

  /** Publishing or clearing changes what is registered, unless nothing was. */
  lemma MutationShows(s: State, l: Label)
    requires Can(s, l) && Mutates(s, l) && |s.shared.registrations| > 0
    ensures Next(s, l).shared.registrations != s.shared.registrations
  {
  }

  lemma {:induction false} CountsNone(bs: seq<bool>, m: nat, n: nat)
    requires m <= n <= |bs| && forall k :: m <= k < n ==> !bs[k]
    ensures Count(bs, m, n) == 0
  {
    if m < n {
      CountsNone(bs, m, n - 1);
    }
  }

  lemma ConstantUnmutated(ss: seq<State>, ls: seq<Label>, m: nat, n: nat)
    requires IsRun(ss, ls) && m <= n <= |ls| && |ss[m].shared.registrations| > 0
    requires forall k :: m <= k <= n ==> ss[k].shared.registrations == ss[m].shared.registrations
    ensures Mutations(ss, ls, m, n) == 0
  {
    forall k | m <= k < n ensures !Mutating(ss, ls)[k] {
      assert ss[k + 1].shared.registrations == ss[k].shared.registrations;
      if Mutates(ss[k], ls[k]) {
        MutationShows(ss[k], ls[k]);
      }
    }
    CountsNone(Mutating(ss, ls), m, n);
  }

  /** Permit safety.  The registrations at the final check are the non-empty snapshot, and have been at
      every moment since the evaluation took it, exactly when fewer than 2^64 publishes and clears fell
      in between. */
  lemma PermitSafe(ss: seq<State>, ls: seq<Label>, n: nat) returns (m: nat)
    requires IsRun(ss, ls) && n < |ls| && Permits(ss[n], ls[n])
    ensures m < n && TookSnapshot(ss, ls, m, n, Place(ls[n].g, |Stack(ss[n], ls[n].g)| - 1))
    ensures var snapshot := Top(Stack(ss[n], ls[n].g)).snapshot;
      && |snapshot| > 0
      && (Mutations(ss, ls, m, n) < TWO64 <==> forall k :: m <= k <= n ==> ss[k].shared.registrations == snapshot)
  {
    m := EpochExact(ss, ls, n, Place(ls[n].g, |Stack(ss[n], ls[n].g)| - 1));
    if Mutations(ss, ls, m, n) < TWO64 {
      SmallMultiple(Mutations(ss, ls, m, n));
      Unmutated(ss, ls, m, n);
    } else if forall k :: m <= k <= n ==> ss[k].shared.registrations == ss[m].shared.registrations {
      ConstantUnmutated(ss, ls, m, n);
    }
  }

  /** The answers match the registration before and after two evaluations with one valid result. */
  ghost predicate Matched(r: Registration, answers: seq<Answer>) {
    && |answers| == |QUESTIONS| && FittingAll(answers)
    && answers[0] == answers[5] == Said(Some(r.version))
    && answers[1] == answers[6] == Said(Some(r.source))
    && answers[2] == answers[7] == Said(Some(r.configuration))
    && answers[3].result.Some? && answers[4].result.Some? && answers[3].result.value.valid
    && (SizedNormal(answers[3].result.value) && SizedNormal(answers[4].result.value) ==> answers[3] == answers[4])
  }

  /** The signal of a valid outcome holds what the first evaluation returned. */
  ghost predicate HoldsReturned(o: Outcome, answers: seq<Answer>) {
    && o.failure.None? && |answers| == 8 && answers[3].Evaluated? && answers[3].result.Some?
    && ProofTheory.Slot(o.signal, "valid") == ScalarT("bool", BoolS(true))
    && ProofTheory.Slot(o.signal, "metadata") == answers[3].result.value.metadata
    && ProofTheory.Slot(o.signal, "evidence") == answers[3].result.value.evidence
  }

  /** A permit rests on every registered primitive. */
  lemma PermitMatched(ss: seq<State>, ls: seq<Label>, n: nat)
    requires IsRun(ss, ls) && n < |ls| && Permits(ss[n], ls[n])
    ensures var f := Top(Stack(ss[n], ls[n].g));
      && |f.heard| == |f.outcomes| == |f.snapshot|
      && forall i :: 0 <= i < |f.snapshot| ==>
           Matched(f.snapshot[i], f.heard[i]) && HoldsReturned(f.outcomes[i], f.heard[i])
  {
    RunGood(ss, ls, n);
    assert OwnOk(ss[n], ls[n].g);
    var f := Top(Stack(ss[n], ls[n].g));
    forall i | 0 <= i < |f.snapshot|
      ensures Matched(f.snapshot[i], f.heard[i]) && HoldsReturned(f.outcomes[i], f.heard[i])
    {
      assert Judged(f.snapshot[i], f.heard[i], f.outcomes[i]);
      assert f.outcomes[i].failure.None?;
      ValidOutcome(f.snapshot[i], f.heard[i]);
      assert Fitting(QUESTIONS[3], f.heard[i][3]) && Fitting(QUESTIONS[4], f.heard[i][4]);
    }
  }

  lemma FrameEvaluated(f: Frame, rec: Record)
    requires FrameOk(f) && Over(f) && IsRecord(rec, f.snapshot, f.outcomes)
    ensures Decisions.Evaluated(f.snapshot, f.outcomes, rec)
  {
    forall i | 0 <= i < |f.outcomes| ensures OutcomeOf(f.snapshot[i], f.outcomes[i]) {
      assert Judged(f.snapshot[i], f.heard[i], f.outcomes[i]);
      OutcomeFromAnswers(f.snapshot[i], f.heard[i]);
    }
  }

  /** Whatever finishes is a consistent evaluation: what evaluate hands the proof generator. */
  lemma FinishedIsEvaluated(ss: seq<State>, ls: seq<Label>, n: nat, rec: Record)
    requires IsRun(ss, ls) && n < |ls| && ls[n].action.Finish?
    requires var f := Top(Stack(ss[n], ls[n].g)); |f.outcomes| <= |f.snapshot| && IsRecord(rec, f.snapshot, f.outcomes)
    ensures var f := Top(Stack(ss[n], ls[n].g)); Decisions.Evaluated(f.snapshot, f.outcomes, rec)
  {
    RunGood(ss, ls, n);
    assert OwnOk(ss[n], ls[n].g);
    FrameEvaluated(Top(Stack(ss[n], ls[n].g)), rec);
  }

  // ---------------------------------------------------------------- recursion

  /** Evaluate called from inside the Evaluate callback of e. */
  predicate NestedIn(s: State, l: Label, e: nat) {
    l.action.Evaluate? && Tracked(Stack(s, l.g)) == Some(e)
  }

  lemma NestedStep(s: State, l: Label, e: nat)
    requires Good(s) && Can(s, l)
    ensures e in Next(s, l).recursive <==> e in s.recursive || NestedIn(s, l, e)
    ensures NestedIn(s, l, e) ==> Next(s, l) == s.(recursive := s.recursive + {e})
  {
    assert OwnOk(s, l.g);
    if l.action.Ask? {
      GuardUnreachable(s, l.g);
    }
  }

  /** The flag of an evaluation is set exactly when Evaluate was called inside one of its callbacks. */
  lemma {:induction false} RecursiveExactly(ss: seq<State>, ls: seq<Label>, n: nat, e: nat)
    requires IsRun(ss, ls) && n <= |ls|
    ensures e in ss[n].recursive <==> exists k :: 0 <= k < n && NestedIn(ss[k], ls[k], e)
  {
    if n > 0 {
      RecursiveExactly(ss, ls, n - 1, e);
      RunGood(ss, ls, n - 1);
      NestedStep(ss[n - 1], ls[n - 1], e);
    }
  }

  /** A nested Evaluate is denied on the spot, and the evaluation it is nested in is denied at its
      end; an evaluation is denied for recursion only then. */
  lemma RecursionDenied(ss: seq<State>, ls: seq<Label>, n: nat)
    requires IsRun(ss, ls) && n < |ls| && ls[n].action.Finish?
    ensures FinalVerdict(ss[n], ls[n].g) == RecursionAttempted
      <==> exists k :: 0 <= k < n && NestedIn(ss[k], ls[k], Top(Stack(ss[n], ls[n].g)).eval)
  {
    RecursiveExactly(ss, ls, n, Top(Stack(ss[n], ls[n].g)).eval);
  }

  /** callbackEvaluations names the Evaluate callback each goroutine is in, and the guard against
      callbacks inside callbacks never fires. */
  lemma CallbacksTracked(ss: seq<State>, ls: seq<Label>, n: nat, g: nat)
    requires IsRun(ss, ls) && n <= |ls|
    ensures Callback(ss[n], g) == Tracked(Stack(ss[n], g))
    ensures |Stack(ss[n], g)| > 0 && Top(Stack(ss[n], g)).Evaluating? ==> g !in ss[n].shared.callbacks
  {
    RunGood(ss, ls, n);
    assert OwnOk(ss[n], g);
    if |Stack(ss[n], g)| > 0 && Top(Stack(ss[n], g)).Evaluating? {
      GuardUnreachable(ss[n], g);
    }
  }

  // ---------------------------------------------------------------- registration

  /** Step m began the registration at p, which owns the engine's registration flag ever since. */
  ghost predicate BeganAt(ss: seq<State>, ls: seq<Label>, m: nat, n: nat, p: Place)
    requires IsRun(ss, ls) && m < n <= |ls|
  {
    && ls[m].g == p.g && BeginsRegistration(ss[m], ls[m]) && |Stack(ss[m], p.g)| == p.depth
    && ls[m].action.primitive.Some?
    && forall k :: m < k <= n ==>
         && OwnedBy(ss[k], Some(p)) && Holder(ss[k], p).id == ls[m].action.id
         && Holder(ss[k], p).primitive == ls[m].action.primitive.value
  }

  ghost predicate Undisturbed(ls: seq<Label>, m: nat, n: nat)
    requires n <= |ls|
  {
    forall k :: m < k < n ==> !Competes(ls[k])
  }

  lemma RunOwner(ss: seq<State>, ls: seq<Label>, n: nat) returns (o: Option<Place>)
    requires IsRun(ss, ls) && n <= |ls|
    ensures OwnedBy(ss[n], o)
  {
    RunGood(ss, ls, n);
    o :| OwnedBy(ss[n], o);
  }

  lemma {:induction false} RegistrationBegan(ss: seq<State>, ls: seq<Label>, n: nat, p: Place) returns (m: nat)
    requires IsRun(ss, ls) && n <= |ls| && RegisteringAt(ss[n], p)
    ensures m < n && BeganAt(ss, ls, m, n, p)
    ensures ss[n].shared.attempted <==> !Undisturbed(ls, m, n)
    ensures Holder(ss[n], p).stage != Ending ==> Frozen(ss, m, n)
  {
    var s, l := ss[n - 1], ls[n - 1];
    var o := RunOwner(ss, ls, n - 1);
    OwnerKept(s, l, o);
    assert NextOwner(s, l, o) == Some(p);
    if BeginsRegistration(s, l) {
      m := n - 1;
    } else {
      assert o == Some(p) && RegisteringAt(s, p);
      m := RegistrationBegan(ss, ls, n - 1, p);
      OnlyCompetitorsInterfere(s, l, o);
      StageStep(s, l, p);
      UndisturbedStep(ls, m, n - 1);
    }
  }

  /** The registrations do not change from state m to state n. */
  ghost predicate Frozen(ss: seq<State>, m: nat, n: nat)
    requires m <= n < |ss|
  {
    forall k :: m <= k <= n ==> ss[k].shared.registrations == ss[m].shared.registrations
  }

  lemma UndisturbedStep(ls: seq<Label>, m: nat, n: nat)
    requires m < n < |ls|
    ensures Undisturbed(ls, m, n + 1) <==> Undisturbed(ls, m, n) && !Competes(ls[n])
  {
  }

  lemma StageStep(s: State, l: Label, p: Place)
    requires OwnedBy(s, Some(p)) && Can(s, l) && RegisteringAt(Next(s, l), p)
    requires RegisteringAt(s, p)
    ensures Holder(Next(s, l), p).id == Holder(s, p).id && Holder(Next(s, l), p).primitive == Holder(s, p).primitive
    ensures Holder(Next(s, l), p).stage != Ending ==> Holder(s, p).stage != Ending && !l.action.Publish?
  {
    FrameFuture(s, l, p.g, p.depth);
    if l.action.Publish? {
      NeverDuplicate(s, l, Some(p));
    }
  }

  /** The compliance check of the registration at p reports that its primitive is compliant. */
  predicate Vets(s: State, l: Label, p: Place) {
    && l.g == p.g && |Stack(s, p.g)| == p.depth + 1 && RegisteringAt(s, p) && Holder(s, p).stage == Checking
    && l.action.Report? && ComplianceChecker.Compliant(l.action.subject)
  }

  lemma WasRegistering(s: State, l: Label, p: Place)
    requires Can(s, l) && RegisteringAt(Next(s, l), p) && Holder(Next(s, l), p).stage == Vetted
    ensures RegisteringAt(s, p) && Continues(Holder(s, p), Holder(Next(s, l), p))
  {
    FrameHistory(s, l, p.g, p.depth);
  }

  lemma VetStep(s: State, l: Label, p: Place)
    requires Can(s, l) && RegisteringAt(s, p) && RegisteringAt(Next(s, l), p)
    requires Holder(s, p).stage != Vetted && Holder(Next(s, l), p).stage == Vetted
    requires Continues(Holder(s, p), Holder(Next(s, l), p))
    ensures Vets(s, l, p)
  {
    if l.g != p.g {
      OthersKept(s, l, p.g);
    }
  }

  lemma VettedBefore(ss: seq<State>, ls: seq<Label>, n: nat, p: Place)
    requires IsRun(ss, ls) && n <= |ls| && RegisteringAt(ss[n], p) && Holder(ss[n], p).stage == Vetted
    ensures n > 0 && RegisteringAt(ss[n - 1], p)
    ensures Holder(ss[n - 1], p).stage == Vetted || Vets(ss[n - 1], ls[n - 1], p)
  {
    var s, l := ss[n - 1], ls[n - 1];
    WasRegistering(s, l, p);
    if Holder(s, p).stage != Vetted {
      VetStep(s, l, p);
    }
  }

  /** What holds came about at some step, and the place has been taken ever since. */
  lemma {:induction false} CameAbout(holds: seq<bool>, there: seq<bool>, starts: seq<bool>, n: nat) returns (k: nat)
    requires n < |holds| == |there| == |starts| && holds[n] && there[n]
    requires forall j {:trigger holds[j]} :: 0 <= j <= n && holds[j] ==>
      j > 0 && there[j - 1] && (holds[j - 1] || starts[j - 1])
    ensures k < n && starts[k] && forall j :: k <= j <= n ==> there[j]
  {
    if holds[n - 1] {
      k := CameAbout(holds, there, starts, n - 1);
    } else {
      k := n - 1;
    }
  }

  predicate VettedAt(s: State, p: Place) {
    RegisteringAt(s, p) && Holder(s, p).stage == Vetted
  }

  ghost function Registerings(ss: seq<State>, p: Place): (r: seq<bool>)
    ensures |r| == |ss| && forall j :: 0 <= j < |r| ==> r[j] == RegisteringAt(ss[j], p)
  {
    seq(|ss|, j requires 0 <= j < |ss| => RegisteringAt(ss[j], p))
  }

  ghost function Vettings(ss: seq<State>, p: Place): (r: seq<bool>)
    ensures |r| == |ss| && forall j :: 0 <= j < |r| ==> r[j] == VettedAt(ss[j], p)
  {
    seq(|ss|, j requires 0 <= j < |ss| => VettedAt(ss[j], p))
  }

  ghost function Reports(ss: seq<State>, ls: seq<Label>, p: Place): (r: seq<bool>)
    ensures |r| == |ss| && forall j :: 0 <= j < |r| ==> r[j] == (j < |ls| && Vets(ss[j], ls[j], p))
  {
    seq(|ss|, j requires 0 <= j < |ss| => j < |ls| && Vets(ss[j], ls[j], p))
  }

  /** A vetted registration was vetted by a report, and has been in progress ever since. */
  lemma VettedByReport(ss: seq<State>, ls: seq<Label>, n: nat, p: Place) returns (k: nat)
    requires IsRun(ss, ls) && n <= |ls| && RegisteringAt(ss[n], p) && Holder(ss[n], p).stage == Vetted
    ensures k < n && Vets(ss[k], ls[k], p) && forall j :: k <= j <= n ==> RegisteringAt(ss[j], p)
  {
    var there, holds, starts := Registerings(ss, p), Vettings(ss, p), Reports(ss, ls, p);
    forall j | 0 <= j <= n && holds[j] ensures j > 0 && there[j - 1] && (holds[j - 1] || starts[j - 1]) {
      VettedBefore(ss, ls, j, p);
    }
    assert VettedAt(ss[n], p);
    k := CameAbout(holds, there, starts, n);
    forall j | k <= j <= n ensures RegisteringAt(ss[j], p) { assert there[j]; }
  }

  /** The registration protocol: the registrations are frozen from begin to publish, the primitive was
      found compliant in between, and a registration publishes exactly when no register or clear hit
      the engine in between. */
  lemma PublishesExactly(ss: seq<State>, ls: seq<Label>, n: nat) returns (m: nat, k: nat)
    requires IsRun(ss, ls) && n < |ls| && ls[n].action.Publish?
    ensures var p := Place(ls[n].g, |Stack(ss[n], ls[n].g)| - 1);
      m < k < n && BeganAt(ss, ls, m, n, p) && Vets(ss[k], ls[k], p) && Frozen(ss, m, n)
    ensures var a := ls[n].action;
      var r := Registration(ls[m].action.id, ls[m].action.primitive.value, a.version, a.source, a.configuration);
      ss[n + 1].shared.registrations == ss[m].shared.registrations + if Undisturbed(ls, m, n) then [r] else []
  {
    var p := Place(ls[n].g, |Stack(ss[n], ls[n].g)| - 1);
    m := RegistrationBegan(ss, ls, n, p);
    k := VettedByReport(ss, ls, n, p);
    assert !RegisteringAt(ss[m], p);
    NeverDuplicate(ss[n], ls[n], Some(p));
  }

  /** Step q published r, the primitive of r having been found compliant since the registration began. */
  ghost predicate PublishedVetted(ss: seq<State>, ls: seq<Label>, q: nat, r: Registration)
    requires IsRun(ss, ls) && q < |ls|
  {
    && ls[q].action.Publish? && r.version == ls[q].action.version
    && r.source == ls[q].action.source && r.configuration == ls[q].action.configuration
    && var p := Place(ls[q].g, |Stack(ss[q], ls[q].g)| - 1);
       exists m: nat, k: nat ::
         m < k < q && BeganAt(ss, ls, m, q, p) && Vets(ss[k], ls[k], p)
         && r.id == ls[m].action.id && ls[m].action.primitive == Some(r.primitive)
  }

  /** Whatever is registered was found compliant between the begin and the publish of its registration. */
  lemma {:induction false} RegisteredVetted(ss: seq<State>, ls: seq<Label>, n: nat, r: Registration) returns (q: nat)
    requires IsRun(ss, ls) && n <= |ls| && r in ss[n].shared.registrations
    ensures q < n && PublishedVetted(ss, ls, q, r)
  {
    var s, l := ss[n - 1], ls[n - 1];
    if r in s.shared.registrations {
      q := RegisteredVetted(ss, ls, n - 1, r);
    } else {
      q := n - 1;
      NewlyPublished(s, l, r);
      var m, k := PublishesExactly(ss, ls, q);
    }
  }

  lemma NewlyPublished(s: State, l: Label, r: Registration)
    requires Can(s, l) && r in Next(s, l).shared.registrations && r !in s.shared.registrations
    ensures l.action.Publish?
    ensures r == Candidate(Top(Stack(s, l.g)), l.action.version, l.action.source, l.action.configuration)
  {
  }

  /** Between publish and the deferred reset nothing undoes the publication. */
  lemma {:induction false} PublicationStays(ss: seq<State>, ls: seq<Label>, n: nat, k: nat, p: Place)
    requires IsRun(ss, ls) && n <= k <= |ls| && RegisteringAt(ss[n], p) && Holder(ss[n], p).stage == Ending
    requires forall j :: n <= j < k ==> !ls[j].action.EndRegister?
    ensures RegisteringAt(ss[k], p) && Holder(ss[k], p).stage == Ending
    ensures ss[k].shared.registrations == ss[n].shared.registrations && ss[k].shared.active
  {
    if n == k {
      RunGood(ss, ls, n);
    } else {
      PublicationStays(ss, ls, n, k - 1, p);
      var s, l := ss[k - 1], ls[k - 1];
      var o := RunOwner(ss, ls, k - 1);
      OwnerKept(s, l, o);
      OnlyCompetitorsInterfere(s, l, o);
      FrameFuture(s, l, p.g, p.depth);
      if l.action.Publish? {
        NeverDuplicate(s, l, o);
      }
    }
  }

  /** At most one registration is in progress, and the registered IDs are distinct. */
  lemma OneRegistration(ss: seq<State>, ls: seq<Label>, n: nat)
    requires IsRun(ss, ls) && n <= |ls|
    ensures forall p, q :: RegisteringAt(ss[n], p) && RegisteringAt(ss[n], q) ==> p == q
    ensures ss[n].shared.active <==> exists p :: RegisteringAt(ss[n], p)
    ensures DistinctIds(ss[n].shared.registrations)
  {
    RunGood(ss, ls, n);
    var o :| OwnedBy(ss[n], o);
    if o.Some? {
      assert RegisteringAt(ss[n], o.value);
    }
  }

  // ---------------------------------------------------------------- the limit of the epoch

  /** `count` calls of Clear on one goroutine. */
  ghost function Clears(s: State, g: nat, count: nat): (t: State)
    requires InUserCode(Stack(s, g)) && !s.shared.active && s.shared.epoch < TWO64
    ensures Stack(t, g) == Stack(s, g) && t == s.(shared := t.shared)
    ensures t.shared.registrations == if count == 0 then s.shared.registrations else []
    ensures t.shared == s.shared.(registrations := t.shared.registrations, epoch := (s.shared.epoch + count) % TWO64)
  {
    if count == 0 then s
    else
      BumpedSum(s.shared.epoch + count - 1);
      Next(Clears(s, g, count - 1), Label(g, Action.Clear))
  }

  /** The bound in PermitSafe is needed: from any state about to permit, 2^64 calls of Clear by another
      goroutine leave nothing registered, and the permit still goes through. */
  lemma EpochWraps(s: State, l: Label, g: nat)
    requires Good(s) && Permits(s, l) && g != l.g && InUserCode(Stack(s, g)) && !s.shared.active
    ensures Permits(Clears(s, g, TWO64), l) && Clears(s, g, TWO64).shared.registrations == []
    ensures |Top(Stack(s, l.g)).snapshot| > 0
  {
    assert OwnOk(s, l.g);
    SameEpoch(s.shared.epoch, TWO64);
    PermitsAlike(s, Clears(s, g, TWO64), l);
  }

  /** Stack, flags and epoch are all the final check looks at. */
  lemma PermitsAlike(s: State, t: State, l: Label)
    requires Permits(s, l) && Stack(t, l.g) == Stack(s, l.g) && t.recursive == s.recursive
    requires t.shared.epoch == s.shared.epoch
    ensures Permits(t, l)
  {
  }
}
