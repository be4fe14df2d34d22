/** Frames over time, and the registration protocol: one registration at a time, on frozen
    registrations (core/governance_engine.go). */
module EngineRegistration {
  import opened Frames
  import opened Text
  import opened EvaluationRecord
  import opened EngineSections
  import opened EngineMachine

  // ---------------------------------------------------------------- frames from one step to the next

  /** The same call, perhaps further on. */
  predicate Continues(f: Frame, f': Frame) {
    match f
    case Registering(id, primitive, stage) =>
      && f'.Registering? && f'.id == id && f'.primitive == primitive
      && (stage == Ending ==> f'.stage == Ending) && (f'.stage == Checking ==> stage == Checking)
    case Evaluating(eval, snapshot, epoch, _, _, _) =>
      f'.Evaluating? && f'.eval == eval && f'.snapshot == snapshot && f'.epoch == epoch
    case _ => f' == f
  }

  /** An engine call that this step begins. */
  predicate Starts(s: State, l: Label, f: Frame) {
    match f
    case Registering(id, primitive, stage) =>
      l.action == Register(id, Some(primitive)) && stage == Checking && id != "" && Trimmed(id)
      && Begin(s.shared, id).1 == Begun
    case Evaluating(eval, snapshot, epoch, _, _, _) =>
      l.action == Evaluate && eval == s.nextEval && l.g !in s.shared.callbacks && |snapshot| > 0
      && snapshot == s.shared.registrations && epoch == s.shared.epoch
    case _ => true
  }

  predicate Pops(a: Action) {
    a.Return? || a.EndRegister? || a.Finish?
  }

  /** Steps that grow the stack, or leave it. */
  lemma CallHistory(s: State, l: Label, d: nat)
    requires Can(s, l) && d < |Stack(Next(s, l), l.g)|
    requires l.action.Register? || l.action.Clear? || l.action.Evaluate? || l.action.Probe? || l.action.Ask?
    ensures || (d < |Stack(s, l.g)| && Continues(Stack(s, l.g)[d], Stack(Next(s, l), l.g)[d]))
            || (d == |Stack(s, l.g)| && Starts(s, l, Stack(Next(s, l), l.g)[d]))
    ensures |Stack(s, l.g)| <= |Stack(Next(s, l), l.g)|
  {
  }

  /** Steps that shrink the stack, or change its top. */
  lemma TopHistory(s: State, l: Label, d: nat)
    requires Can(s, l) && d < |Stack(Next(s, l), l.g)|
    requires !(l.action.Register? || l.action.Clear? || l.action.Evaluate? || l.action.Probe? || l.action.Ask?)
    ensures d < |Stack(s, l.g)| && Continues(Stack(s, l.g)[d], Stack(Next(s, l), l.g)[d])
    ensures |Stack(Next(s, l), l.g)| == |Stack(s, l.g)| - if Pops(l.action) then 1 else 0
  {
  }

  lemma FrameHistory(s: State, l: Label, g: nat, d: nat)
    requires Can(s, l) && d < |Stack(Next(s, l), g)|
    ensures || (d < |Stack(s, g)| && Continues(Stack(s, g)[d], Stack(Next(s, l), g)[d]))
            || (g == l.g && d == |Stack(s, g)| && !Pops(l.action) && Starts(s, l, Stack(Next(s, l), g)[d]))
  {
    if g != l.g {
      OthersKept(s, l, g);
    } else if l.action.Register? || l.action.Clear? || l.action.Evaluate? || l.action.Probe? || l.action.Ask? {
      CallHistory(s, l, d);
    } else {
      TopHistory(s, l, d);
    }
  }

  lemma FrameFuture(s: State, l: Label, g: nat, d: nat)
    requires Can(s, l) && d < |Stack(s, g)|
    ensures || (d < |Stack(Next(s, l), g)| && Continues(Stack(s, g)[d], Stack(Next(s, l), g)[d]))
            || (g == l.g && d == |Stack(s, g)| - 1 && Pops(l.action))
  {
    if g != l.g {
      OthersKept(s, l, g);
    } else {
      StackShrinks(s, l);
      if d < |Stack(Next(s, l), g)| {
        FrameHistory(s, l, g, d);
      }
    }
  }

  lemma StackShrinks(s: State, l: Label)
    requires Can(s, l)
    ensures |Stack(Next(s, l), l.g)| >= |Stack(s, l.g)| - if Pops(l.action) then 1 else 0
  {
  }

  // ---------------------------------------------------------------- one registration at a time

  datatype Place = Place(g: nat, depth: nat)

  predicate RegisteringAt(s: State, p: Place) {
    p.depth < |Stack(s, p.g)| && Stack(s, p.g)[p.depth].Registering?
  }

  /** The one registration in progress, when there is one, set the flag; its ID is still free. */
  ghost predicate OwnedBy(s: State, o: Option<Place>) {
    && (forall p :: RegisteringAt(s, p) <==> o == Some(p))
    && (s.shared.active <==> o.Some?)
    && (o.Some? && Holder(s, o.value).stage != Ending ==> !Has(s.shared.registrations, Holder(s, o.value).id))
    && (s.shared.attempted ==> s.shared.active)
  }

  function Holder(s: State, p: Place): Frame
    requires RegisteringAt(s, p)
  {
    Stack(s, p.g)[p.depth]
  }

  predicate BeginsRegistration(s: State, l: Label) {
    l.action.Register? && l.action.id != "" && Trimmed(l.action.id) && l.action.primitive.Some?
    && Begin(s.shared, l.action.id).1 == Begun
  }

  function NextOwner(s: State, l: Label, o: Option<Place>): Option<Place> {
    if BeginsRegistration(s, l) then Some(Place(l.g, |Stack(s, l.g)|)) else if l.action.EndRegister? then None else o
  }

  lemma EndLeavesNone(s: State, l: Label, o: Option<Place>, p: Place)
    requires OwnedBy(s, o) && Can(s, l) && l.action.EndRegister?
    ensures !RegisteringAt(Next(s, l), p)
  {
    var top := Place(l.g, |Stack(s, l.g)| - 1);
    assert RegisteringAt(s, top);
    assert RegisteringAt(s, p) ==> p == top;
    if RegisteringAt(Next(s, l), p) { FrameHistory(s, l, p.g, p.depth); }
  }

  lemma PlacesKept(s: State, l: Label, o: Option<Place>, p: Place)
    requires OwnedBy(s, o) && Can(s, l)
    ensures RegisteringAt(Next(s, l), p) <==> NextOwner(s, l, o) == Some(p)
  {
    if l.action.EndRegister? {
      EndLeavesNone(s, l, o, p);
    } else if RegisteringAt(Next(s, l), p) {
      FrameHistory(s, l, p.g, p.depth);
    }
    if RegisteringAt(s, p) {
      FrameFuture(s, l, p.g, p.depth);
    }
  }

  lemma FreshKept(s: State, l: Label, o: Option<Place>)
    requires OwnedBy(s, o) && Can(s, l) && NextOwner(s, l, o).Some?
    requires RegisteringAt(Next(s, l), NextOwner(s, l, o).value)
    requires Holder(Next(s, l), NextOwner(s, l, o).value).stage != Ending
    ensures !Has(Next(s, l).shared.registrations, Holder(Next(s, l), NextOwner(s, l, o).value).id)
  {
    var p := NextOwner(s, l, o).value;
    if !BeginsRegistration(s, l) {
      assert RegisteringAt(s, p);
      FrameFuture(s, l, p.g, p.depth);
      if l.action.Publish? {
        assert RegisteringAt(s, Place(l.g, |Stack(s, l.g)| - 1));
      }
    }
  }

  lemma OwnerKept(s: State, l: Label, o: Option<Place>)
    requires OwnedBy(s, o) && Can(s, l)
    ensures OwnedBy(Next(s, l), NextOwner(s, l, o))
  {
    var o', s' := NextOwner(s, l, o), Next(s, l);
    forall p ensures RegisteringAt(s', p) <==> o' == Some(p) {
      PlacesKept(s, l, o, p);
    }
    if o'.Some? && Holder(s', o'.value).stage != Ending {
      FreshKept(s, l, o);
    }
    ActiveKept(s, l, o);
  }

  lemma ActiveKept(s: State, l: Label, o: Option<Place>)
    requires OwnedBy(s, o) && Can(s, l)
    ensures Next(s, l).shared.active <==> NextOwner(s, l, o).Some?
    ensures Next(s, l).shared.attempted ==> Next(s, l).shared.active
  {
    if l.action.Publish? || l.action.EndRegister? {
      assert RegisteringAt(s, Place(l.g, |Stack(s, l.g)| - 1));
    }
  }

  /** The duplicate check of the publish step never fires. */
  lemma NeverDuplicate(s: State, l: Label, o: Option<Place>)
    requires OwnedBy(s, o) && Can(s, l) && l.action.Publish?
    ensures o == Some(Place(l.g, |Stack(s, l.g)| - 1))
    ensures var r := Candidate(Top(Stack(s, l.g)), l.action.version, l.action.source, l.action.configuration);
      EngineSections.Publish(s.shared, r).1 == if s.shared.attempted then Interfered else Published
  {
    assert RegisteringAt(s, Place(l.g, |Stack(s, l.g)| - 1));
  }

  /** Registration or clearing while a registration is in progress: rejected, and nothing but the
      mutation flag changes, so a registration already published stays. */
  predicate Competes(l: Label) {
    l.action.Clear? || (l.action.Register? && l.action.id != "" && Trimmed(l.action.id) && l.action.primitive.Some?)
  }

  lemma CompetitorRejected(s: State, l: Label)
    requires s.shared.active && Can(s, l) && Competes(l)
    ensures Next(s, l) == s.(shared := s.shared.(attempted := true))
  {
  }

  /** While it is in progress, only the registration itself changes the registrations, by its publish
      step; the mutation flag is raised by competitors and by nothing else. */
  lemma OnlyCompetitorsInterfere(s: State, l: Label, o: Option<Place>)
    requires OwnedBy(s, o) && o.Some? && Can(s, l) && !l.action.EndRegister?
    ensures Next(s, l).shared.attempted <==> s.shared.attempted || Competes(l)
    ensures !l.action.Publish? ==> Next(s, l).shared.registrations == s.shared.registrations
    ensures l.action.Publish? ==> l.g == o.value.g
    ensures NextOwner(s, l, o) == o
  {
    if l.action.Publish? {
      NeverDuplicate(s, l, o);
    }
  }

  // ---------------------------------------------------------------- registrations

  lemma RegistrationsKept(s: State, l: Label)
    requires RegistrationsOk(s.shared.registrations) && StacksOk(s) && Can(s, l)
    ensures RegistrationsOk(Next(s, l).shared.registrations)
  {
    if l.action.Publish? {
      assert OwnOk(s, l.g);
    }
  }

  // ---------------------------------------------------------------- evaluation numbers

  predicate EvaluatingAt(s: State, p: Place) {
    p.depth < |Stack(s, p.g)| && Stack(s, p.g)[p.depth].Evaluating?
  }

  function EvalAt(s: State, p: Place): nat
    requires EvaluatingAt(s, p)
  {
    Stack(s, p.g)[p.depth].eval
  }

  /** Evaluations in progress have different numbers, all handed out before. */
  ghost predicate EvalsOk(s: State) {
    && (forall p :: EvaluatingAt(s, p) ==> EvalAt(s, p) < s.nextEval)
    && (forall p, q :: EvaluatingAt(s, p) && EvaluatingAt(s, q) && EvalAt(s, p) == EvalAt(s, q) ==> p == q)
  }

  lemma EvalHistory(s: State, l: Label, p: Place)
    requires Can(s, l) && EvaluatingAt(Next(s, l), p)
    ensures || (EvaluatingAt(s, p) && EvalAt(s, p) == EvalAt(Next(s, l), p))
            || (&& p == Place(l.g, |Stack(s, l.g)|)
                && EvalAt(Next(s, l), p) == s.nextEval && Next(s, l).nextEval == s.nextEval + 1)
  {
    FrameHistory(s, l, p.g, p.depth);
  }

  lemma EvalsKept(s: State, l: Label)
    requires EvalsOk(s) && Can(s, l)
    ensures EvalsOk(Next(s, l)) && s.nextEval <= Next(s, l).nextEval
  {
    forall p | EvaluatingAt(Next(s, l), p) ensures EvalAt(Next(s, l), p) < Next(s, l).nextEval {
      EvalHistory(s, l, p);
    }
    forall p, q | EvaluatingAt(Next(s, l), p) && EvaluatingAt(Next(s, l), q)
      && EvalAt(Next(s, l), p) == EvalAt(Next(s, l), q)
      ensures p == q
    {
      EvalHistory(s, l, p);
      EvalHistory(s, l, q);
    }
  }

  /** Flags and callback entries name evaluations that have started. */
  ghost predicate FlagsOk(s: State) {
    && (forall g :: g in s.shared.callbacks ==> s.shared.callbacks[g] < s.nextEval)
    && (forall e :: e in s.recursive ==> e < s.nextEval)
  }

  lemma FlagsKept(s: State, l: Label)
    requires FlagsOk(s) && EvalsOk(s) && Can(s, l)
    ensures FlagsOk(Next(s, l))
  {
    EvalsKept(s, l);
    if l.action.Ask? {
      assert EvaluatingAt(s, Place(l.g, |Stack(s, l.g)| - 1));
    }
  }
}
