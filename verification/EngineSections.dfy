/** The locked regions of the engine (core/governance_engine.go), each one atomic step on the fields
    it guards; E stands for evaluation states. */
module EngineSections {
  import opened Frames
  import opened EvaluationRecord

  datatype Shared<E> = Shared(
    registrations: seq<Registration>, epoch: nat, active: bool, attempted: bool, callbacks: map<nat, E>)

  predicate Has(regs: seq<Registration>, id: string) {
    exists i :: 0 <= i < |regs| && regs[i].id == id
  }

  /** configurationEpoch is a uint64. */
  function Bumped(epoch: nat): nat {
    (epoch + 1) % TWO64
  }

  /** The next number, when numbers have 64 bits. */
  predicate Follows(next: nat, epoch: nat) {
    epoch <= 0xFFFF_FFFF_FFFF_FFFF ==> next == if epoch == 0xFFFF_FFFF_FFFF_FFFF then 0 else epoch + 1
  }

  lemma BumpedFollows(epoch: nat)
    ensures Follows(Bumped(epoch), epoch)
  {
  }

  datatype Began = Busy | AlreadyThere | Begun

  function Begin<E>(s: Shared<E>, id: string): (Shared<E>, Began) {
    if s.active then (s.(attempted := true), Busy)
    else if Has(s.registrations, id) then (s, AlreadyThere)
    else (s.(active := true, attempted := false), Begun)
  }

  datatype Publication = Interfered | Duplicate | Published

  function Publish<E>(s: Shared<E>, r: Registration): (Shared<E>, Publication) {
    if s.attempted then (s, Interfered)
    else if Has(s.registrations, r.id) then (s, Duplicate)
    else (s.(registrations := s.registrations + [r], epoch := Bumped(s.epoch)), Published)
  }

  /** The deferred reset of RegisterPrimitive. */
  function End<E>(s: Shared<E>): Shared<E> {
    s.(active := false, attempted := false)
  }

  function Clear<E>(s: Shared<E>): (Shared<E>, bool) {
    if s.active then (s.(attempted := true), false)
    else (s.(registrations := [], epoch := Bumped(s.epoch)), true)
  }

  /** Nested names the evaluation whose callback is running on the goroutine. */
  datatype Start<E> = Nested(parent: E) | Taken(registrations: seq<Registration>, epoch: nat)

  function Snapshot<E>(s: Shared<E>, g: nat): Start<E> {
    if g in s.callbacks then Nested(s.callbacks[g]) else Taken(s.registrations, s.epoch)
  }

  datatype Entry<E> = Refused(parent: E) | Entered

  function Enter<E>(s: Shared<E>, g: nat, evaluation: E): (Shared<E>, Entry<E>) {
    if g in s.callbacks then (s, Refused(s.callbacks[g]))
    else (s.(callbacks := s.callbacks[g := evaluation]), Entered)
  }

  function Exit<E(==)>(s: Shared<E>, g: nat, evaluation: E): Shared<E> {
    if g in s.callbacks && s.callbacks[g] == evaluation then s.(callbacks := s.callbacks - {g}) else s
  }

  datatype Verdict = RecursionAttempted | ConfigurationChanged | Clean

  function Check<E>(s: Shared<E>, recursive: bool, epoch: nat): Verdict {
    if recursive then RecursionAttempted else if s.epoch != epoch then ConfigurationChanged else Clean
  }

  // ---------------------------------------------------------------- objects and numbers

  /** The same fields with other names for the evaluation states: the machine sees numbers where the
      engine object holds references. */
  function Named<E, F>(s: Shared<E>, f: E -> F): Shared<F> {
    Shared(s.registrations, s.epoch, s.active, s.attempted, map g | g in s.callbacks :: f(s.callbacks[g]))
  }

  /** The registration regions never look at evaluation states. */
  lemma RegistrationNamed<E, F>(s: Shared<E>, f: E -> F, id: string, r: Registration)
    ensures Begin(Named(s, f), id) == (Named(Begin(s, id).0, f), Begin(s, id).1)
    ensures Publish(Named(s, f), r) == (Named(Publish(s, r).0, f), Publish(s, r).1)
    ensures Clear(Named(s, f)) == (Named(Clear(s).0, f), Clear(s).1)
    ensures End(Named(s, f)) == Named(End(s), f)
  {
  }

  /** The evaluation regions do the same under any names; only forgetting a callback needs names that
      tell its evaluation from the one recorded. */
  lemma EvaluationNamed<E, F>(s: Shared<E>, f: E -> F, g: nat, e: E, recursive: bool, epoch: nat)
    ensures match Snapshot(s, g)
            case Nested(parent) => Snapshot(Named(s, f), g) == Nested(f(parent))
            case Taken(regs, at) => Snapshot(Named(s, f), g) == Taken(regs, at)
    ensures Enter(Named(s, f), g, f(e)).0 == Named(Enter(s, g, e).0, f)
    ensures Enter(Named(s, f), g, f(e)).1 == if g in s.callbacks then Refused(f(s.callbacks[g])) else Entered
    ensures Check(Named(s, f), recursive, epoch) == Check(s, recursive, epoch)
    ensures (g in s.callbacks && f(s.callbacks[g]) == f(e) ==> s.callbacks[g] == e) ==>
      Exit(Named(s, f), g, f(e)) == Named(Exit(s, g, e), f)
  {
    assert Enter(Named(s, f), g, f(e)).0.callbacks == Named(Enter(s, g, e).0, f).callbacks;
    if g in s.callbacks && f(s.callbacks[g]) == f(e) && s.callbacks[g] == e {
      assert Exit(Named(s, f), g, f(e)).callbacks == Named(Exit(s, g, e), f).callbacks;
    }
  }

  // ---------------------------------------------------------------- the engine object

  class EvaluationState {
    var recursive: bool
    constructor ()
      ensures !recursive
    {
      recursive := false;
    }
  }

  class GovernanceEngine {
    var registrations: seq<Registration>
    var configurationEpoch: nat
    var registrationActive: bool
    var registrationMutationAttempted: bool
    var callbackEvaluations: map<nat, EvaluationState>

    ghost function View(): Shared<EvaluationState>
      reads this
    {
      Shared(registrations, configurationEpoch, registrationActive, registrationMutationAttempted, callbackEvaluations)
    }

    /** NewGovernanceEngine */
    constructor ()
      ensures View() == Shared([], 0, false, false, map[])
      ensures registrations == [] && configurationEpoch == 0 && callbackEvaluations == map[]
      ensures !registrationActive && !registrationMutationAttempted
    {
      registrations, configurationEpoch, registrationActive := [], 0, false;
      registrationMutationAttempted, callbackEvaluations := false, map[];
    }

    /** hasPrimitiveIDLocked */
    method HasPrimitiveID(id: string) returns (found: bool)
      ensures found <==> Has(registrations, id)
      ensures found <==> exists i :: 0 <= i < |registrations| && registrations[i].id == id
    {
      for i := 0 to |registrations|
        invariant !Has(registrations[..i], id)
      {
        if registrations[i].id == id { return true; }
      }
      assert registrations[..|registrations|] == registrations;
      return false;
    }

    method BeginRegistration(id: string) returns (began: Began)
      modifies `registrationActive, `registrationMutationAttempted
      ensures (View(), began) == Begin(old(View()), id)
      ensures began == Busy <==> old(registrationActive)
      ensures began == AlreadyThere <==>
        !old(registrationActive) && exists i :: 0 <= i < |registrations| && registrations[i].id == id
      ensures began == Busy ==> registrationActive && registrationMutationAttempted
      ensures began == AlreadyThere ==>
        !registrationActive && registrationMutationAttempted == old(registrationMutationAttempted)
      ensures began == Begun ==> registrationActive && !registrationMutationAttempted
    {
      if registrationActive {
        registrationMutationAttempted := true;
        return Busy;
      }
      var there := HasPrimitiveID(id);
      if there { return AlreadyThere; }
      registrationActive := true;
      registrationMutationAttempted := false;
      return Begun;
    }

    method PublishRegistration(r: Registration) returns (publication: Publication)
      modifies `registrations, `configurationEpoch
      ensures (View(), publication) == Publish(old(View()), r)
      ensures publication == Interfered <==> registrationMutationAttempted
      ensures publication == Duplicate <==>
        !registrationMutationAttempted && exists i :: 0 <= i < |old(registrations)| && old(registrations)[i].id == r.id
      ensures publication == Published ==> registrations == old(registrations) + [r]
      ensures publication == Published ==> Follows(configurationEpoch, old(configurationEpoch))
      ensures publication != Published ==>
        registrations == old(registrations) && configurationEpoch == old(configurationEpoch)
    {
      if registrationMutationAttempted { return Interfered; }
      var there := HasPrimitiveID(r.id);
      if there { return Duplicate; }
      registrations := registrations + [r];
      BumpedFollows(configurationEpoch);
      configurationEpoch := Bumped(configurationEpoch);
      return Published;
    }

    method EndRegistration()
      modifies `registrationActive, `registrationMutationAttempted
      ensures View() == End(old(View()))
      ensures !registrationActive && !registrationMutationAttempted
    {
      registrationActive := false;
      registrationMutationAttempted := false;
    }

    method ClearRegistrations() returns (cleared: bool)
      modifies `registrations, `configurationEpoch, `registrationMutationAttempted
      ensures (View(), cleared) == Clear(old(View()))
      ensures cleared <==> !registrationActive
      ensures cleared ==> registrations == [] && Follows(configurationEpoch, old(configurationEpoch))
      ensures cleared ==> registrationMutationAttempted == old(registrationMutationAttempted)
      ensures !cleared ==> registrations == old(registrations) && configurationEpoch == old(configurationEpoch)
      ensures !cleared ==> registrationMutationAttempted
    {
      if registrationActive {
        registrationMutationAttempted := true;
        return false;
      }
      registrations := [];
      BumpedFollows(configurationEpoch);
      configurationEpoch := Bumped(configurationEpoch);
      return true;
    }

    /** A nested call flags the evaluation it is nested in, and no other. */
    method TakeSnapshot(g: nat) returns (start: Start<EvaluationState>)
      modifies if g in callbackEvaluations then {callbackEvaluations[g]} else {}
      ensures View() == old(View()) && start == Snapshot(View(), g)
      ensures start.Nested? ==> start.parent.recursive
      ensures g in callbackEvaluations ==> start == Nested(callbackEvaluations[g])
      ensures g !in callbackEvaluations ==> start == Taken(registrations, configurationEpoch)
    {
      if g in callbackEvaluations {
        callbackEvaluations[g].recursive := true;
        return Nested(callbackEvaluations[g]);
      }
      return Taken(registrations, configurationEpoch);
    }

    method EnterCallback(g: nat, evaluation: EvaluationState) returns (entry: Entry<EvaluationState>)
      modifies `callbackEvaluations, if g in callbackEvaluations then {callbackEvaluations[g]} else {}
      ensures (View(), entry) == Enter(old(View()), g, evaluation)
      ensures entry.Refused? ==> entry.parent.recursive
      ensures g in old(callbackEvaluations) ==>
        entry == Refused(old(callbackEvaluations)[g]) && callbackEvaluations == old(callbackEvaluations)
      ensures g !in old(callbackEvaluations) ==>
        entry == Entered && callbackEvaluations == old(callbackEvaluations)[g := evaluation]
    {
      if g in callbackEvaluations {
        callbackEvaluations[g].recursive := true;
        return Refused(callbackEvaluations[g]);
      }
      callbackEvaluations := callbackEvaluations[g := evaluation];
      return Entered;
    }

    method ExitCallback(g: nat, evaluation: EvaluationState)
      modifies `callbackEvaluations
      ensures View() == Exit(old(View()), g, evaluation)
      ensures forall o :: o in callbackEvaluations <==>
        o in old(callbackEvaluations) && !(o == g && old(callbackEvaluations)[o] == evaluation)
      ensures forall o :: o in callbackEvaluations ==> callbackEvaluations[o] == old(callbackEvaluations)[o]
    {
      if g in callbackEvaluations && callbackEvaluations[g] == evaluation {
        callbackEvaluations := callbackEvaluations - {g};
      }
    }

    method FinalCheck(evaluation: EvaluationState, epoch: nat) returns (verdict: Verdict)
      ensures verdict == Check(View(), evaluation.recursive, epoch)
      ensures verdict == RecursionAttempted <==> evaluation.recursive
      ensures verdict == Clean <==> !evaluation.recursive && configurationEpoch == epoch
    {
      var changed, recursive := configurationEpoch != epoch, evaluation.recursive;
      if recursive { return RecursionAttempted; }
      if changed { return ConfigurationChanged; }
      return Clean;
    }
  }
}
