/** The engine permits what it should (core/governance_engine.go): undisturbed, an evaluation whose
    primitives all answer as registered ends in a permit. */
module EngineProgress {
  import opened Frames
  import opened EvaluationRecord
  import opened EngineSections
  import opened EngineMachine
  import opened EngineRegistration
  import opened EngineRuns
  import opened Paths

  // ---------------------------------------------------------------- paths

  function Step(s: State, l: Label): Option<State> {
    if Can(s, l) then Some(Next(s, l)) else None
  }

  lemma RunStep(ss: seq<State>, ls: seq<Label>, l: Label)
    requires IsRun(ss, ls) && Can(ss[|ls|], l)
    ensures IsRun(ss + [Next(ss[|ls|], l)], ls + [l])
  {
  }

  lemma {:induction false} RunLeadsOn(ss: seq<State>, ls: seq<Label>, more: seq<Label>, t: State)
    returns (all: seq<State>)
    requires IsRun(ss, ls) && Leads(Step, ss[|ls|], more, t)
    ensures IsRun(all, ls + more) && ss <= all && all[|ls + more|] == t
    decreases |more|
  {
    if |more| == 0 {
      assert ls + more == ls;
      all := ss;
    } else {
      RunStep(ss, ls, more[0]);
      all := RunLeadsOn(ss + [Next(ss[|ls|], more[0])], ls + [more[0]], more[1..], t);
      assert ls + [more[0]] + more[1..] == ls + more;
    }
  }

  // ---------------------------------------------------------------- questions and answers

  lemma PutTwice(s: State, g: nat, a: seq<Frame>, b: seq<Frame>)
    ensures Put(Put(s, g, a), g, b) == Put(s, g, b)
  {
  }

  lemma Asked(s: State, g: nat) returns (top: Frame)
    requires |Stack(s, g)| > 0 && g !in s.shared.callbacks && Asking(Top(Stack(s, g)))
    ensures var asked, f := Next(s, Label(g, Ask)), Top(Stack(s, g));
      && top == (if QUESTIONS[|f.answers|] != CallEvaluate then InQuestion else InEvaluate(f.eval))
      && asked == Put(s, g, Stack(s, g) + [top]).(shared := asked.shared)
      && asked.shared == if top.InEvaluate? then Enter(s.shared, g, f.eval).0 else s.shared
  {
    var f := Top(Stack(s, g));
    top := if QUESTIONS[|f.answers|] != CallEvaluate then InQuestion else InEvaluate(f.eval);
  }

  lemma EnterExit(shared: Shared<nat>, g: nat, e: nat)
    requires g !in shared.callbacks
    ensures Exit(Enter(shared, g, e).0, g, e) == shared
  {
    assert shared.callbacks[g := e] - {g} == shared.callbacks;
  }

  /** One question and its answer: only the evaluation's frame has changed. */
  lemma Reply(s: State, g: nat, a: Answer)
    requires |Stack(s, g)| > 0 && g !in s.shared.callbacks && Asking(Top(Stack(s, g)))
    requires Fitting(QUESTIONS[|Top(Stack(s, g)).answers|], a)
    ensures var st := Stack(s, g);
      Leads(Step, s, [Label(g, Ask), Label(g, Return(a))], Put(s, g, Under(st) + [Heard(Top(st), a)]))
  {
    var st := Stack(s, g);
    var f, asked := Top(st), Next(s, Label(g, Ask));
    var top := Asked(s, g);
    Pushed(st, top);
    EnterExit(s.shared, g, f.eval);
    PutTwice(s, g, st + [top], Under(st) + [Heard(f, a)]);
    assert Next(asked, Label(g, Return(a))) == Put(s, g, Under(st) + [Heard(f, a)]);
    LeadsOne(Step, s, Label(g, Ask));
    LeadsOne(Step, asked, Label(g, Return(a)));
    LeadsOn(Step, s, [Label(g, Ask)], asked, [Label(g, Return(a))], Put(s, g, Under(st) + [Heard(f, a)]));
    assert [Label(g, Ask)] + [Label(g, Return(a))] == [Label(g, Ask), Label(g, Return(a))];
  }

  /** Every check passes, and the result is valid. */
  predicate Agrees(r: Registration, answers: seq<Answer>) {
    && FittingAll(answers) && |answers| == |QUESTIONS| && (forall i :: 0 <= i < |answers| ==> Passes(r, answers, i))
    && Stop(r, answers, 0) == |answers| && Result(r, answers).valid
  }

  lemma PrefixPasses(r: Registration, answers: seq<Answer>, n: nat)
    requires Agrees(r, answers) && n <= |answers|
    ensures FittingAll(answers[..n])
    ensures n < |answers| ==> EvaluateRegistration(r, answers[..n]).None?
    ensures n == |answers| ==> answers[..n] == answers
    ensures EvaluateRegistration(r, answers) == Some(Concluded(r, Result(r, answers)))
    ensures Concluded(r, Result(r, answers)).failure.None?
  {
    if n < |answers| {
      forall i | 0 <= i < n ensures Passes(r, answers[..n], i) { assert Passes(r, answers, i); }
      assert Stop(r, answers[..n], 0) == n;
    }
  }

  function Settle(f: Frame, answers: seq<Answer>): Frame
    requires f.Evaluating? && |f.outcomes| < |f.snapshot| && Agrees(f.snapshot[|f.outcomes|], answers)
  {
    var r := f.snapshot[|f.outcomes|];
    f.(outcomes := f.outcomes + [Concluded(r, Result(r, answers))], heard := f.heard + [answers], answers := [])
  }

  lemma HearNext(f: Frame, answers: seq<Answer>)
    requires Asking(f) && Agrees(f.snapshot[|f.outcomes|], answers) && f.answers == answers[..|f.answers|]
    ensures Fitting(QUESTIONS[|f.answers|], answers[|f.answers|])
    ensures var n := |f.answers| + 1;
      Heard(f, answers[n - 1]) == if n == |answers| then Settle(f, answers) else f.(answers := answers[..n])
  {
    var r, n := f.snapshot[|f.outcomes|], |f.answers| + 1;
    assert f.answers + [answers[n - 1]] == answers[..n];
    PrefixPasses(r, answers, n);
  }

  /** The rest of one registration's questions. */
  lemma {:induction false} Answered(s: State, g: nat, answers: seq<Answer>) returns (ls: seq<Label>)
    requires |Stack(s, g)| > 0 && g !in s.shared.callbacks && Asking(Top(Stack(s, g)))
    requires var f := Top(Stack(s, g)); Agrees(f.snapshot[|f.outcomes|], answers) && f.answers == answers[..|f.answers|]
    ensures Leads(Step, s, ls, Put(s, g, Under(Stack(s, g)) + [Settle(Top(Stack(s, g)), answers)]))
    decreases |answers| - |Top(Stack(s, g)).answers|
  {
    var st := Stack(s, g);
    var f, n := Top(st), |Top(st).answers| + 1;
    HearNext(f, answers);
    var first := [Label(g, Ask), Label(g, Return(answers[n - 1]))];
    var t := Put(s, g, Under(st) + [Heard(f, answers[n - 1])]);
    Reply(s, g, answers[n - 1]);
    if n == |answers| {
      ls := first;
    } else {
      Pushed(Under(st), Heard(f, answers[n - 1]));
      StillAsking(f, answers);
      var rest := Answered(t, g, answers);
      PutTwice(s, g, Stack(t, g), Under(st) + [Settle(f, answers)]);
      LeadsOn(Step, s, first, t, rest, Put(s, g, Under(st) + [Settle(f, answers)]));
      ls := first + rest;
    }
  }

  lemma StillAsking(f: Frame, answers: seq<Answer>)
    requires Asking(f) && Agrees(f.snapshot[|f.outcomes|], answers) && f.answers == answers[..|f.answers|]
    requires |f.answers| + 1 < |answers|
    ensures Asking(f.(answers := answers[..|f.answers| + 1]))
  {
    PrefixPasses(f.snapshot[|f.outcomes|], answers, |f.answers| + 1);
  }

  /** The evaluation so far found nothing wrong and waits for the next registration. */
  predicate Clear(f: Frame) {
    && f.Evaluating? && |f.outcomes| <= |f.snapshot| && f.answers == []
    && forall i :: 0 <= i < |f.outcomes| ==> f.outcomes[i].failure.None?
  }

  lemma SettleClear(f: Frame, answers: seq<Answer>)
    requires Clear(f) && |f.outcomes| < |f.snapshot| && Agrees(f.snapshot[|f.outcomes|], answers)
    ensures Clear(Settle(f, answers)) && |Settle(f, answers).outcomes| == |f.outcomes| + 1
  {
    PrefixPasses(f.snapshot[|f.outcomes|], answers, |answers|);
  }

  /** From the evaluation's frame on: all remaining registrations, and the final check. */
  lemma {:induction false} Finishes(s: State, g: nat, heard: seq<seq<Answer>>) returns (ls: seq<Label>, t: State)
    requires |Stack(s, g)| > 0 && g !in s.shared.callbacks && Clear(Top(Stack(s, g)))
    requires var f := Top(Stack(s, g));
      && |heard| == |f.snapshot| && (forall i :: 0 <= i < |heard| ==> Agrees(f.snapshot[i], heard[i]))
      && f.epoch == s.shared.epoch && f.eval !in s.recursive
    ensures Leads(Step, s, ls, t) && Permits(t, Label(g, Finish)) && t.shared == s.shared
    decreases |Top(Stack(s, g)).snapshot| - |Top(Stack(s, g)).outcomes|
  {
    var st := Stack(s, g);
    var f := Top(st);
    var n := |f.outcomes|;
    if n == |f.snapshot| {
      ls, t := [], s;
    } else {
      var h := Settle(f, heard[n]);
      var first := Answered(s, g, heard[n]);
      var u := Put(s, g, Under(st) + [h]);
      SettleClear(f, heard[n]);
      Pushed(Under(st), h);
      var rest, v := Finishes(u, g, heard);
      LeadsOn(Step, s, first, u, rest, v);
      ls, t := first + rest, v;
    }
  }

  lemma EvaluateStarts(s: State, g: nat)
    requires InUserCode(Stack(s, g)) && g !in s.shared.callbacks && |s.shared.registrations| > 0
    ensures var t := Next(s, Label(g, Evaluate));
      && |Stack(t, g)| > 0 && t.shared == s.shared && t.recursive == s.recursive
      && Top(Stack(t, g)) == Evaluating(s.nextEval, s.shared.registrations, s.shared.epoch, [], [], [])
  {
  }

  /** Any run can be continued, by one goroutine alone, through an evaluation that permits: provided the
      goroutine is not inside an Evaluate callback, something is registered, and every registered
      primitive answers as registered with one valid result. */
  lemma PermitReachable(ss: seq<State>, ls: seq<Label>, g: nat, heard: seq<seq<Answer>>)
    returns (all: seq<State>, more: seq<Label>)
    requires IsRun(ss, ls)
    requires var s := ss[|ls|];
      && InUserCode(Stack(s, g)) && g !in s.shared.callbacks && |s.shared.registrations| > 0
      && |heard| == |s.shared.registrations|
      && forall i :: 0 <= i < |heard| ==> Agrees(s.shared.registrations[i], heard[i])
    ensures IsRun(all, ls + more) && ss <= all && Permits(all[|ls + more|], Label(g, Finish))
    ensures all[|ls + more|].shared == ss[|ls|].shared
  {
    var s := ss[|ls|];
    RunGood(ss, ls, |ls|);
    EvaluateStarts(s, g);
    var t := Next(s, Label(g, Evaluate));
    var rest, u := Finishes(t, g, heard);
    LeadsOne(Step, s, Label(g, Evaluate));
    LeadsOn(Step, s, [Label(g, Evaluate)], t, rest, u);
    more := [Label(g, Evaluate)] + rest;
    all := RunLeadsOn(ss, ls, more, u);
  }
}
