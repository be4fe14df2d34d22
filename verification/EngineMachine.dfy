/** The engine as a state machine (core/governance_engine.go).  Any number of goroutines interleave at
    the locked regions; primitives run without the lock and may call the engine again, so every
    goroutine carries a stack. */
module EngineMachine {
  import opened Frames
  import opened Text
  import opened EvaluationRecord
  import opened EngineSections
  import ComplianceChecker

  // ---------------------------------------------------------------- states

  /** A registration waits for the compliance report, reads its fingerprints, or unwinds. */
  datatype Stage = Checking | Vetted | Ending

  /** InProbe, InQuestion and InEvaluate are primitives running; the other two are engine calls. */
  datatype Frame =
    | Registering(id: string, primitive: nat, stage: Stage)
    | InProbe
    | Evaluating(eval: nat, snapshot: seq<Registration>, epoch: nat,
                 outcomes: seq<Outcome>, heard: seq<seq<Answer>>, answers: seq<Answer>)
    | InQuestion
    | InEvaluate(evaluation: nat)
  {
    predicate User() {
      InProbe? || InQuestion? || InEvaluate?
    }
  }

  /** `recursive` holds the evaluations whose flag is set; evaluations are numbered as they start. */
  datatype State = State(shared: Shared<nat>, recursive: set<nat>, stacks: map<nat, seq<Frame>>, nextEval: nat)

  const INITIAL := State(Shared([], 0, false, false, map[]), {}, map[], 0)

  function Stack(s: State, g: nat): seq<Frame> {
    if g in s.stacks then s.stacks[g] else []
  }

  function Top(st: seq<Frame>): Frame
    requires |st| > 0
  {
    st[|st| - 1]
  }

  function Under(st: seq<Frame>): seq<Frame>
    requires |st| > 0
  {
    st[..|st| - 1]
  }

  function Put(s: State, g: nat, st: seq<Frame>): State {
    s.(stacks := s.stacks[g := st])
  }

  // ---------------------------------------------------------------- steps

  datatype Action =
    | Register(id: string, primitive: Option<nat>)
    | Clear
    | Evaluate
    | Return(answer: Answer)
    | Probe
    | Report(subject: ComplianceChecker.Subject)   // CheckPrimitive returns
    | Publish(version: string, source: string, configuration: string)
    | Abandon
    | EndRegister
    | Ask
    | Finish

  datatype Label = Label(g: nat, action: Action)

  /** The goroutine runs code that is not the engine's. */
  predicate InUserCode(st: seq<Frame>) {
    |st| == 0 || Top(st).User()
  }

  /** The evaluation waits for the answer to its next question. */
  predicate Asking(f: Frame) {
    && f.Evaluating? && |f.outcomes| < |f.snapshot| && !Failed(f.outcomes)
    && FittingAll(f.answers) && |f.answers| < |QUESTIONS|
  }

  predicate Over(f: Frame) {
    f.Evaluating? && Settled(f.snapshot, f.outcomes)
  }

  /** Whether the running primitive may hand this answer to the frame below it. */
  predicate Answers(f: Frame, below: Frame, a: Answer) {
    match f
    case InProbe => true
    case InQuestion => Asking(below) && Fitting(QUESTIONS[|below.answers|], a)
    case InEvaluate(_) => Asking(below) && Fitting(QUESTIONS[|below.answers|], a)
    case _ => false
  }

  predicate Can(s: State, l: Label) {
    var st := Stack(s, l.g);
    match l.action
    case Register(_, _) => InUserCode(st)
    case Clear => InUserCode(st)
    case Evaluate => InUserCode(st)
    case Return(a) => |st| > 1 && Answers(Top(st), Top(Under(st)), a)
    case Probe => |st| > 0 && Top(st).Registering? && Top(st).stage != Ending
    case Report(_) => |st| > 0 && Top(st).Registering? && Top(st).stage == Checking
    case Publish(v, _, _) => |st| > 0 && Top(st).Registering? && Top(st).stage == Vetted && v != "" && Trimmed(v)
    case Abandon => |st| > 0 && Top(st).Registering? && Top(st).stage != Ending
    case EndRegister => |st| > 0 && Top(st).Registering? && Top(st).stage == Ending
    case Ask => |st| > 0 && Asking(Top(st))
    case Finish => |st| > 0 && Over(Top(st))
  }

  /** The answer is noted; the registration is concluded when it is the last one needed. */
  function Heard(f: Frame, a: Answer): Frame
    requires Asking(f) && Fitting(QUESTIONS[|f.answers|], a)
  {
    var answers := f.answers + [a];
    var o := EvaluateRegistration(f.snapshot[|f.outcomes|], answers);
    if o.Some? then f.(outcomes := f.outcomes + [o.value], heard := f.heard + [answers], answers := [])
    else f.(answers := answers)
  }

  function NextRegister(s: State, g: nat, id: string, primitive: Option<nat>): State {
    if id == "" || !Trimmed(id) || primitive.None? then s
    else
      var (shared, began) := Begin(s.shared, id);
      var s := s.(shared := shared);
      if began == Begun then Put(s, g, Stack(s, g) + [Registering(id, primitive.value, Checking)]) else s
  }

  function NextEvaluate(s: State, g: nat): State {
    match Snapshot(s.shared, g)
    case Nested(e) => s.(recursive := s.recursive + {e})
    case Taken(regs, epoch) =>
      if |regs| == 0 then s
      else Put(s, g, Stack(s, g) + [Evaluating(s.nextEval, regs, epoch, [], [], [])]).(nextEval := s.nextEval + 1)
  }

  function Candidate(f: Frame, version: string, source: string, configuration: string): Registration
    requires f.Registering?
  {
    Registration(f.id, f.primitive, version, source, configuration)
  }

  function NextPublish(s: State, g: nat, r: Registration): State
    requires |Stack(s, g)| > 0 && Top(Stack(s, g)).Registering?
  {
    NextAbandon(s.(shared := EngineSections.Publish(s.shared, r).0), g)
  }

  function NextAbandon(s: State, g: nat): State
    requires |Stack(s, g)| > 0 && Top(Stack(s, g)).Registering?
  {
    var st := Stack(s, g);
    Put(s, g, Under(st) + [Top(st).(stage := Ending)])
  }

  function NextAsk(s: State, g: nat): State
    requires |Stack(s, g)| > 0 && Asking(Top(Stack(s, g)))
  {
    var st := Stack(s, g);
    var f := Top(st);
    if QUESTIONS[|f.answers|] != CallEvaluate then Put(s, g, st + [InQuestion])
    else
      match Enter(s.shared, g, f.eval)
      case (_, Refused(e)) =>
        Put(s, g, Under(st) + [Heard(f, Evaluated(None))]).(recursive := s.recursive + {e})
      case (shared, Entered) => Put(s, g, st + [InEvaluate(f.eval)]).(shared := shared)
  }

  function NextReturn(s: State, g: nat, a: Answer): State
    requires |Stack(s, g)| > 1 && Answers(Top(Stack(s, g)), Top(Under(Stack(s, g))), a)
  {
    var f, st := Top(Stack(s, g)), Under(Stack(s, g));
    if f.InProbe? then Put(s, g, st)
    else
      var s := if f.InEvaluate? then s.(shared := Exit(s.shared, g, f.evaluation)) else s;
      Put(s, g, Under(st) + [Heard(Top(st), a)])
  }

  function Next(s: State, l: Label): State
    requires Can(s, l)
  {
    var st := Stack(s, l.g);
    match l.action
    case Register(id, primitive) => NextRegister(s, l.g, id, primitive)
    case Clear => s.(shared := EngineSections.Clear(s.shared).0)
    case Evaluate => NextEvaluate(s, l.g)
    case Return(a) => NextReturn(s, l.g, a)
    case Probe => Put(s, l.g, st + [InProbe])
    case Report(p) =>
      Put(s, l.g, Under(st) + [Top(st).(stage := if ComplianceChecker.Compliant(p) then Vetted else Ending)])
    case Publish(v, source, configuration) => NextPublish(s, l.g, Candidate(Top(st), v, source, configuration))
    case Abandon => NextAbandon(s, l.g)
    case EndRegister => Put(s, l.g, Under(st)).(shared := End(s.shared))
    case Ask => NextAsk(s, l.g)
    case Finish => Put(s, l.g, Under(st))
  }

  /** What the final check answers. */
  function FinalVerdict(s: State, g: nat): Verdict
    requires |Stack(s, g)| > 0 && Top(Stack(s, g)).Evaluating?
  {
    var f := Top(Stack(s, g));
    Check(s.shared, f.eval in s.recursive, f.epoch)
  }

  // ---------------------------------------------------------------- stacks

  /** The evaluation whose Evaluate callback is running. */
  function Tracked(st: seq<Frame>): Option<nat> {
    if |st| == 0 then None else if Top(st).InEvaluate? then Some(Top(st).evaluation) else Tracked(Under(st))
  }

  predicate FrameOk(f: Frame) {
    match f
    case Registering(id, _, _) => id != "" && Trimmed(id)
    case Evaluating(_, regs, _, outcomes, heard, answers) =>
      && |regs| > 0 && DistinctIds(regs) && (forall i :: 0 <= i < |regs| ==> Registered(regs[i]))
      && |heard| == |outcomes| <= |regs| && UpToFailure(outcomes)
      && (forall i :: 0 <= i < |heard| ==> Judged(regs[i], heard[i], outcomes[i]))
      && (Settled(regs, outcomes) || (Asking(f) && EvaluateRegistration(regs[|outcomes|], answers).None?))
    case _ => true
  }

  predicate Judged(r: Registration, answers: seq<Answer>, o: Outcome) {
    FittingAll(answers) && EvaluateRegistration(r, answers) == Some(o)
  }

  /** What may lie directly under a frame: a primitive runs on the call that started it, and while an
      Evaluate callback runs, no evaluation starts above it. */
  predicate LiesOn(st: seq<Frame>, f: Frame) {
    match f
    case Registering(_, _, _) => InUserCode(st)
    case Evaluating(_, _, _, _, _, _) => InUserCode(st) && Tracked(st) == None
    case InProbe => |st| > 0 && Top(st).Registering? && Top(st).stage != Ending
    case InQuestion => |st| > 0 && Asking(Top(st)) && QUESTIONS[|Top(st).answers|] != CallEvaluate
    case InEvaluate(e) =>
      |st| > 0 && Asking(Top(st)) && QUESTIONS[|Top(st).answers|] == CallEvaluate && Top(st).eval == e
  }

  predicate StackOk(st: seq<Frame>) {
    |st| == 0 || (FrameOk(Top(st)) && LiesOn(Under(st), Top(st)) && StackOk(Under(st)))
  }

  function Callback(s: State, g: nat): Option<nat> {
    if g in s.shared.callbacks then Some(s.shared.callbacks[g]) else None
  }

  /** callbackEvaluations[g] is set exactly while g is inside that evaluation's Evaluate callback. */
  ghost predicate StacksOk(s: State) {
    forall g :: OwnOk(s, g)
  }

  ghost predicate OwnOk(s: State, g: nat) {
    StackOk(Stack(s, g)) && Tracked(Stack(s, g)) == Callback(s, g)
  }

  lemma Pushed(st: seq<Frame>, f: Frame)
    ensures Top(st + [f]) == f && Under(st + [f]) == st
  {
    assert (st + [f])[..|st|] == st;
  }

  /** A refused callback would need an evaluation started inside a callback, which is impossible: the
      guard of invokePrimitiveEvaluation never fires. */
  lemma GuardUnreachable(s: State, g: nat)
    requires StacksOk(s) && |Stack(s, g)| > 0 && Top(Stack(s, g)).Evaluating?
    ensures g !in s.shared.callbacks && Enter(s.shared, g, Top(Stack(s, g)).eval).1 == Entered
  {
    assert OwnOk(s, g);
  }

  lemma HeardOk(f: Frame, a: Answer)
    requires FrameOk(f) && Asking(f) && Fitting(QUESTIONS[|f.answers|], a)
    ensures FrameOk(Heard(f, a))
  {
    var r, answers := f.snapshot[|f.outcomes|], f.answers + [a];
    var o := EvaluateRegistration(r, answers);
    if o.Some? {
      ConcludedOk(f, answers, o.value);
    } else {
      StopsShort(r, answers);
    }
  }

  lemma ConcludedOk(f: Frame, answers: seq<Answer>, o: Outcome)
    requires FrameOk(f) && Asking(f) && Judged(f.snapshot[|f.outcomes|], answers, o)
    ensures FrameOk(f.(outcomes := f.outcomes + [o], heard := f.heard + [answers], answers := []))
  {
    var h := f.(outcomes := f.outcomes + [o], heard := f.heard + [answers], answers := []);
    assert FittingAll([]);
    JudgedOneMore(f.snapshot, f.heard, f.outcomes, answers, o);
    if !Settled(h.snapshot, h.outcomes) {
      NothingHeard(h);
    }
  }

  lemma JudgedOneMore(regs: seq<Registration>, heard: seq<seq<Answer>>, outcomes: seq<Outcome>, answers: seq<Answer>,
      o: Outcome)
    requires |heard| == |outcomes| < |regs| && Judged(regs[|heard|], answers, o)
    requires UpToFailure(outcomes) && !Failed(outcomes)
    requires forall i :: 0 <= i < |heard| ==> Judged(regs[i], heard[i], outcomes[i])
    ensures UpToFailure(outcomes + [o])
    ensures forall i :: 0 <= i < |heard| + 1 ==> Judged(regs[i], (heard + [answers])[i], (outcomes + [o])[i])
  {
  }

  lemma NothingHeard(f: Frame)
    requires f.Evaluating? && f.answers == [] && |f.outcomes| <= |f.snapshot| && !Settled(f.snapshot, f.outcomes)
    ensures Asking(f) && EvaluateRegistration(f.snapshot[|f.outcomes|], f.answers).None?
  {
  }

  lemma StopsShort(r: Registration, answers: seq<Answer>)
    requires FittingAll(answers) && EvaluateRegistration(r, answers).None?
    ensures |answers| < |QUESTIONS|
  {
  }

  /** A running primitive can always return: the machine never loses a caller. */
  lemma CallbackReturns(s: State, g: nat, a: Answer)
    requires StacksOk(s) && |Stack(s, g)| > 0 && Top(Stack(s, g)).User()
    requires var st := Under(Stack(s, g)); |st| > 0 && Top(st).Evaluating? && |Top(st).answers| < |QUESTIONS| ==>
      Fitting(QUESTIONS[|Top(st).answers|], a)
    ensures Can(s, Label(g, Return(a)))
  {
    assert OwnOk(s, g);
  }

  /** Only one goroutine's stack changes in a step, and only its callback entry. */
  lemma OthersKept(s: State, l: Label, g: nat)
    requires Can(s, l) && g != l.g
    ensures Stack(Next(s, l), g) == Stack(s, g) && Callback(Next(s, l), g) == Callback(s, g)
  {
  }

  predicate RegistrationsOk(regs: seq<Registration>) {
    DistinctIds(regs) && forall i :: 0 <= i < |regs| ==> Registered(regs[i])
  }

  lemma PushOk(s: State, s': State, g: nat, f: Frame)
    requires OwnOk(s, g) && Stack(s', g) == Stack(s, g) + [f] && s'.shared.callbacks == s.shared.callbacks
    requires !f.InEvaluate? && FrameOk(f) && LiesOn(Stack(s, g), f)
    ensures OwnOk(s', g)
  {
    Pushed(Stack(s, g), f);
  }

  lemma CallOk(s: State, l: Label)
    requires OwnOk(s, l.g) && Can(s, l) && (l.action.Register? || l.action.Clear? || l.action.Probe?)
    ensures OwnOk(Next(s, l), l.g)
  {
    if l.action.Probe? {
      PushOk(s, Next(s, l), l.g, InProbe);
    } else if l.action.Register? && Stack(Next(s, l), l.g) != Stack(s, l.g) {
      PushOk(s, Next(s, l), l.g, Registering(l.action.id, l.action.primitive.value, Checking));
    }
  }

  lemma EvaluateOk(s: State, l: Label)
    requires OwnOk(s, l.g) && RegistrationsOk(s.shared.registrations) && Can(s, l) && l.action.Evaluate?
    ensures OwnOk(Next(s, l), l.g)
  {
    if l.g !in s.shared.callbacks && |s.shared.registrations| > 0 {
      var f := Evaluating(s.nextEval, s.shared.registrations, s.shared.epoch, [], [], []);
      NothingHeard(f);
      PushOk(s, Next(s, l), l.g, f);
    }
  }

  lemma RegisterStepOk(s: State, l: Label)
    requires StacksOk(s) && Can(s, l)
    requires l.action.Report? || l.action.Publish? || l.action.Abandon? || l.action.EndRegister? || l.action.Finish?
    ensures OwnOk(Next(s, l), l.g)
  {
    var st := Stack(s, l.g);
    assert OwnOk(s, l.g);
    if l.action.Report? || l.action.Publish? || l.action.Abandon? {
      Pushed(Under(st), Top(st).(stage := Ending));
      Pushed(Under(st), Top(st).(stage := Vetted));
    }
  }

  lemma AskOk(s: State, l: Label)
    requires StacksOk(s) && Can(s, l) && l.action.Ask?
    ensures OwnOk(Next(s, l), l.g)
  {
    var st := Stack(s, l.g);
    assert OwnOk(s, l.g);
    GuardUnreachable(s, l.g);
    Pushed(st, InQuestion);
    Pushed(st, InEvaluate(Top(st).eval));
  }

  /** When a primitive returns, tracking falls back to what it was below the call. */
  lemma Untracked(st: seq<Frame>, f: Frame)
    requires |st| > 1 && StackOk(st) && Top(st).User() && !f.InEvaluate?
    ensures Tracked(Under(Under(st)) + [f]) == Tracked(Under(Under(st))) == Tracked(Under(st))
    ensures Tracked(Under(st)) == if Top(st).InEvaluate? then None else Tracked(st)
  {
    assert LiesOn(Under(st), Top(st)) && StackOk(Under(st));
    Pushed(Under(Under(st)), f);
  }

  lemma SwapOk(s: State, s': State, g: nat, f: Frame)
    requires |Stack(s, g)| > 1 && OwnOk(s, g) && Top(Stack(s, g)).User() && Top(Under(Stack(s, g))).Evaluating?
    requires Stack(s', g) == Under(Under(Stack(s, g))) + [f] && FrameOk(f) && f.Evaluating?
    requires Callback(s', g) == if Top(Stack(s, g)).InEvaluate? then None else Callback(s, g)
    ensures OwnOk(s', g)
  {
    var st := Stack(s, g);
    assert StackOk(Under(st)) && StackOk(Under(Under(st)));
    Untracked(st, f);
    Pushed(Under(Under(st)), f);
  }

  lemma ReturnOk(s: State, l: Label)
    requires OwnOk(s, l.g) && Can(s, l) && l.action.Return?
    ensures OwnOk(Next(s, l), l.g)
  {
    var st := Stack(s, l.g);
    assert StackOk(Under(st));
    if !Top(st).InProbe? {
      HeardOk(Top(Under(st)), l.action.answer);
      SwapOk(s, Next(s, l), l.g, Heard(Top(Under(st)), l.action.answer));
    }
  }

  lemma StacksKept(s: State, l: Label)
    requires StacksOk(s) && RegistrationsOk(s.shared.registrations) && Can(s, l)
    ensures StacksOk(Next(s, l))
  {
    forall g ensures OwnOk(Next(s, l), g) {
      assert OwnOk(s, g);
      if g != l.g {
        OthersKept(s, l, g);
      } else {
        match l.action
        case Return(_) => ReturnOk(s, l);
        case Ask => AskOk(s, l);
        case Register(_, _) => CallOk(s, l);
        case Clear => CallOk(s, l);
        case Evaluate => EvaluateOk(s, l);
        case Probe => CallOk(s, l);
        case _ => RegisterStepOk(s, l);
      }
    }
  }
}
