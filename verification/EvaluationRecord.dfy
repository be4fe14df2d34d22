/** What one evaluation of the engine records (evaluateRegistration and the loop of evaluate in
    core/governance_engine.go), and why the proof generator accepts it. */
module EvaluationRecord {
  import opened Values
  import opened Frames
  import opened Text
  import opened PrimitiveContracts
  import opened ResultNormalizer
  import opened ProofEncoding
  import opened ProofTheory
  import CanonicalEncoding

  /** registeredPrimitive; the primitive itself is a handle. */
  datatype Registration = Registration(
    id: string, primitive: nat, version: string, source: string, configuration: string)

  // ---------------------------------------------------------------- one registration

  /** What the engine asks of a primitive, in order. */
  datatype Question = AskVersion | AskSource | AskConfiguration | CallEvaluate

  const QUESTIONS: seq<Question> :=
    [AskVersion, AskSource, AskConfiguration, CallEvaluate, CallEvaluate, AskVersion, AskSource, AskConfiguration]

  /** None stands for an error, a panic, or a result that does not normalise. */
  datatype Answer = Said(text: Option<string>) | Evaluated(result: Option<Normal>)

  predicate Fitting(q: Question, a: Answer) {
    if q == CallEvaluate then
      a.Evaluated? && (a.result.Some? ==> IsNormal(a.result.value))
    else a.Said?
  }

  predicate FittingAll(answers: seq<Answer>) {
    |answers| <= |QUESTIONS| && forall i :: 0 <= i < |answers| ==> Fitting(QUESTIONS[i], answers[i])
  }

  /** Whether the n-th answer lets the evaluation go on. */
  predicate Passes(r: Registration, answers: seq<Answer>, n: nat)
    requires n < |answers| && FittingAll(answers)
  {
    match QUESTIONS[n]
    case AskVersion => answers[n].text == Some(r.version)
    case AskSource => answers[n].text == Some(r.source)
    case AskConfiguration => answers[n].text == Some(r.configuration)
    case CallEvaluate =>
      && answers[n].result.Some?
      && (n == 4 ==> answers[3].result.Some? && SameBytes(answers[3].result.value, answers[4].result.value))
  }

  /** bytes.Equal on the canonical encodings. */
  predicate SameBytes(a: Normal, b: Normal) {
    CanonicalEncoding.ValuePreimage(NormalTree(a)) == CanonicalEncoding.ValuePreimage(NormalTree(b))
  }

  datatype Outcome = Outcome(signal: Tree, failure: Option<string>)

  function SignalTree(r: Registration, valid: bool, metadata: Tree, evidence: Tree): Tree {
    MapT(MAP_TYPE, map["primitive_id" := Iface(ScalarT("string", StrS(r.id))),
                       "version" := Iface(ScalarT("string", StrS(r.version))),
                       "valid" := Iface(ScalarT("bool", BoolS(valid))),
                       "metadata" := Iface(metadata), "evidence" := Iface(evidence)])
  }

  function FailureText(r: Registration, reason: string): string {
    "Primitive '" + r.id + "' failed: " + reason
  }

  function ReasonNote(reason: string): Tree {
    MapT(MAP_TYPE, map["reason" := Iface(ScalarT("string", StrS(reason)))])
  }

  function FailureSignal(r: Registration, reason: string): Outcome {
    Outcome(SignalTree(r, false, ReasonNote(reason), ListT(SLICE_TYPE, false, [])), Some(FailureText(r, reason)))
  }

  /** The reason a denying primitive gives, when it is a non-blank string. */
  function DenialReason(metadata: Tree): string {
    var given := Slot(metadata, "reason");
    if IsText(given) && !Blank(given.scalar.s) then given.scalar.s else "governance signal was denied"
  }

  function Concluded(r: Registration, n: Normal): Outcome {
    Outcome(SignalTree(r, n.valid, n.metadata, n.evidence),
            if n.valid then None else Some(FailureText(r, DenialReason(n.metadata))))
  }

  /** The first answer from the n-th on that stops the evaluation, or the number of answers. */
  function Stop(r: Registration, answers: seq<Answer>, n: nat): (stop: nat)
    requires FittingAll(answers) && n <= |answers|
    ensures n <= stop <= |answers| && (forall i :: n <= i < stop ==> Passes(r, answers, i))
    ensures stop < |answers| ==> !Passes(r, answers, stop)
    decreases |answers| - n
  {
    if n < |answers| && Passes(r, answers, n) then Stop(r, answers, n + 1) else n
  }

  /** evaluateRegistration, on the answers given so far; None while another question is to be asked. */
  function EvaluateRegistration(r: Registration, answers: seq<Answer>): Option<Outcome>
    requires FittingAll(answers)
  {
    if Stop(r, answers, 0) < |answers| then Some(FailureSignal(r, "evaluation check failed"))
    else if |answers| == |QUESTIONS| then Some(Concluded(r, Result(r, answers)))
    else None
  }

  /** The normalised first result. */
  function Result(r: Registration, answers: seq<Answer>): (n: Normal)
    requires FittingAll(answers) && Stop(r, answers, 0) == |answers| == |QUESTIONS|
    ensures IsNormal(n)
  {
    assert Passes(r, answers, 3) && Fitting(QUESTIONS[3], answers[3]);
    answers[3].result.value
  }

  /** Checks up to k passed and check k did not. */
  lemma StopsAt(r: Registration, answers: seq<Answer>, k: nat)
    requires FittingAll(answers) && k < |answers| && (forall i :: 0 <= i < k ==> Passes(r, answers, i))
    requires !Passes(r, answers, k)
    ensures EvaluateRegistration(r, answers[..k + 1]) == Some(FailureSignal(r, "evaluation check failed"))
  {
    StopsIn(r, answers, answers[..k + 1], k);
  }

  lemma StopsIn(r: Registration, answers: seq<Answer>, asked: seq<Answer>, k: nat)
    requires FittingAll(answers) && k < |answers| && (forall i :: 0 <= i < k ==> Passes(r, answers, i))
    requires !Passes(r, answers, k)
    requires asked == answers[..k + 1] && FittingAll(asked)
    ensures Stop(r, asked, 0) == k
  {
    forall i | 0 <= i <= k ensures Passes(r, asked, i) <==> Passes(r, answers, i) {
      assert asked[i] == answers[i];
    }
  }

  /** The eight checks, spelled out. */
  lemma EightChecks(r: Registration, answers: seq<Answer>)
    requires FittingAll(answers) && |answers| == |QUESTIONS|
    ensures answers[0].Said? && answers[1].Said? && answers[2].Said? && answers[5].Said? && answers[6].Said?
    ensures answers[7].Said?
    ensures answers[3].Evaluated? && answers[4].Evaluated?
    ensures Passes(r, answers, 0) <==> answers[0].text == Some(r.version)
    ensures Passes(r, answers, 1) <==> answers[1].text == Some(r.source)
    ensures Passes(r, answers, 2) <==> answers[2].text == Some(r.configuration)
    ensures Passes(r, answers, 3) <==> answers[3].result.Some?
    ensures Passes(r, answers, 4) <==>
      answers[4].result.Some? && answers[3].result.Some? && SameBytes(answers[3].result.value, answers[4].result.value)
    ensures Passes(r, answers, 5) <==> answers[5].text == Some(r.version)
    ensures Passes(r, answers, 6) <==> answers[6].text == Some(r.source)
    ensures Passes(r, answers, 7) <==> answers[7].text == Some(r.configuration)
  {
    forall i | 0 <= i < |answers| ensures Fitting(QUESTIONS[i], answers[i]) {}
    assert Fitting(QUESTIONS[0], answers[0]) && Fitting(QUESTIONS[1], answers[1]) && Fitting(QUESTIONS[2], answers[2]);
    assert Fitting(QUESTIONS[3], answers[3]) && Fitting(QUESTIONS[4], answers[4]);
    assert Fitting(QUESTIONS[5], answers[5]) && Fitting(QUESTIONS[6], answers[6]) && Fitting(QUESTIONS[7], answers[7]);
  }

  /** Every answer is of the kind its question asks for. */
  predicate Readable(answers: seq<Answer>) {
    && |answers| == |QUESTIONS| && answers[3].Evaluated? && answers[4].Evaluated?
    && answers[0].Said? && answers[1].Said? && answers[2].Said? && answers[5].Said? && answers[6].Said?
    && answers[7].Said?
  }

  /** The first k checks pass, and the next one does not. */
  predicate FailsAt(r: Registration, answers: seq<Answer>, k: nat)
    requires FittingAll(answers) && |answers| == |QUESTIONS|
  {
    && k <= 8 && (k < 8 ==> !Passes(r, answers, k))
    && (k > 0 ==> Passes(r, answers, 0)) && (k > 1 ==> Passes(r, answers, 1)) && (k > 2 ==> Passes(r, answers, 2))
    && (k > 3 ==> Passes(r, answers, 3)) && (k > 4 ==> Passes(r, answers, 4)) && (k > 5 ==> Passes(r, answers, 5))
    && (k > 6 ==> Passes(r, answers, 6)) && (k > 7 ==> Passes(r, answers, 7))
  }

  /** The eight checks on readable answers, as bits; `alike` is the comparison of the two results. */
  ghost predicate Spelled(r: Registration, answers: seq<Answer>, alike: bool, passes: seq<bool>) {
    && Readable(answers) && |passes| == 8
    && (passes[0] <==> answers[0].text == Some(r.version)) && (passes[1] <==> answers[1].text == Some(r.source))
    && (passes[2] <==> answers[2].text == Some(r.configuration)) && (passes[3] <==> answers[3].result.Some?)
    && (passes[4] <==> answers[4].result.Some? && answers[3].result.Some? && alike)
    && (passes[5] <==> answers[5].text == Some(r.version)) && (passes[6] <==> answers[6].text == Some(r.source))
    && (passes[7] <==> answers[7].text == Some(r.configuration))
  }

  ghost predicate RunsTo(passes: seq<bool>, n: nat, k: nat, most: nat)
    requires n + most <= |passes|
  {
    k <= most && (forall i :: n <= i < n + k ==> passes[i]) && (k < most ==> !passes[n + k])
  }

  /** Version, source and configuration against the registration, from the n-th answer on: how many
      checks pass before the first that does not. */
  method Drift(r: Registration, answers: seq<Answer>, n: nat, ghost alike: bool, ghost passes: seq<bool>)
    returns (k: nat)
    requires Spelled(r, answers, alike, passes) && (n == 0 || n == 5)
    ensures RunsTo(passes, n, k, 3)
  {
    if answers[n].text != Some(r.version) { return 0; }
    if answers[n + 1].text != Some(r.source) { return 1; }
    if answers[n + 2].text != Some(r.configuration) { return 2; }
    return 3;
  }

  /** The two evaluations, and whether they agree. */
  method Repeat(r: Registration, answers: seq<Answer>, alike: bool, ghost passes: seq<bool>) returns (k: nat)
    requires Spelled(r, answers, alike, passes)
    ensures RunsTo(passes, 3, k, 2)
  {
    if answers[3].result.None? { return 0; }
    if answers[4].result.None? { return 1; }
    if !alike { return 1; }
    return 2;
  }

  method FirstFalse(r: Registration, answers: seq<Answer>, alike: bool, ghost passes: seq<bool>) returns (k: nat)
    requires Spelled(r, answers, alike, passes)
    ensures RunsTo(passes, 0, k, 8)
  {
    k := Drift(r, answers, 0, alike, passes);
    if k < 3 { return; }
    var same := Repeat(r, answers, alike, passes);
    k := 3 + same;
    if same < 2 { return; }
    var after := Drift(r, answers, 5, alike, passes);
    k := 5 + after;
  }

  /** The checks of evaluateRegistration in the source's order: the first that fails, or 8. */
  method FirstFailure(r: Registration, answers: seq<Answer>) returns (k: nat)
    requires FittingAll(answers) && |answers| == |QUESTIONS|
    ensures FailsAt(r, answers, k)
  {
    EightChecks(r, answers);
    ghost var passes := seq(8, i requires 0 <= i < 8 => Passes(r, answers, i));
    var alike := answers[3].result.Some? && answers[4].result.Some?
      && SameBytes(answers[3].result.value, answers[4].result.value);
    k := FirstFalse(r, answers, alike, passes);
    assert forall i :: 0 <= i < k ==> passes[i];
  }

  lemma AllBefore(r: Registration, answers: seq<Answer>, k: nat)
    requires FittingAll(answers) && |answers| == |QUESTIONS| && FailsAt(r, answers, k)
    ensures k <= |answers| && (forall i :: 0 <= i < k ==> Passes(r, answers, i))
    ensures (k < |answers| ==> !Passes(r, answers, k))
  {
  }

  /** evaluateRegistration, given what the primitive would answer to each question; `asked` of them
      are asked, and no later answer matters. */
  method Judge(r: Registration, answers: seq<Answer>) returns (o: Outcome, asked: nat)
    requires FittingAll(answers) && |answers| == |QUESTIONS|
    ensures asked <= |answers| && EvaluateRegistration(r, answers[..asked]) == Some(o)
    ensures forall i :: 0 <= i < asked - 1 ==> Passes(r, answers, i)
    ensures asked < |answers| ==> !Passes(r, answers, asked - 1)
  {
    var k := FirstFailure(r, answers);
    AllBefore(r, answers, k);
    if k < |answers| {
      StopsAt(r, answers, k);
      return FailureSignal(r, "evaluation check failed"), k + 1;
    }
    AllPass(r, answers);
    o, asked := Concluded(r, answers[3].result.value), k;
  }

  lemma AllPass(r: Registration, answers: seq<Answer>)
    requires FittingAll(answers) && |answers| == |QUESTIONS|
    requires forall i :: 0 <= i < |answers| ==> Passes(r, answers, i)
    ensures answers[..|answers|] == answers && Stop(r, answers, 0) == |answers|
    ensures answers[3].Evaluated? && answers[3].result.Some?
    ensures EvaluateRegistration(r, answers) == Some(Concluded(r, answers[3].result.value))
  {
    assert Passes(r, answers, 3) && Fitting(QUESTIONS[3], answers[3]);
  }

  ghost predicate SizedNormal(n: Normal) {
    CanonicalEncoding.Sized(NormalTree(n))
  }

  /** An outcome is valid only if version, source and configuration matched the registration before
      and after two evaluations that returned one and the same valid result. */
  lemma ValidOutcome(r: Registration, answers: seq<Answer>)
    requires FittingAll(answers)
    requires EvaluateRegistration(r, answers).Some? && EvaluateRegistration(r, answers).value.failure.None?
    ensures |answers| == |QUESTIONS|
    ensures answers[0] == answers[5] == Said(Some(r.version))
    ensures answers[1] == answers[6] == Said(Some(r.source))
    ensures answers[2] == answers[7] == Said(Some(r.configuration))
    ensures answers[3].result.Some? && answers[4].result.Some? && answers[3].result.value.valid
    ensures SizedNormal(answers[3].result.value) && SizedNormal(answers[4].result.value) ==> answers[3] == answers[4]
    ensures var t, n := EvaluateRegistration(r, answers).value.signal, answers[3].result.value;
      && Slot(t, "primitive_id") == ScalarT("string", StrS(r.id))
      && Slot(t, "version") == ScalarT("string", StrS(r.version)) && Slot(t, "valid") == ScalarT("bool", BoolS(true))
      && Slot(t, "metadata") == n.metadata && Slot(t, "evidence") == n.evidence
  {
    assert Stop(r, answers, 0) == |answers| == |QUESTIONS|;
    EightChecks(r, answers);
    assert Passes(r, answers, 0) && Passes(r, answers, 1) && Passes(r, answers, 2) && Passes(r, answers, 3);
    assert Passes(r, answers, 4) && Passes(r, answers, 5) && Passes(r, answers, 6) && Passes(r, answers, 7);
    assert Fitting(QUESTIONS[3], answers[3]) && Fitting(QUESTIONS[4], answers[4]);
    var a, b := answers[3].result.value, answers[4].result.value;
    if SizedNormal(a) && SizedNormal(b) {
      SameBytesSame(a, b);
    }
    SignalSlots(r, true, a.metadata, a.evidence);
  }

  /** The byte comparison compares results. */
  lemma SameBytesSame(a: Normal, b: Normal)
    requires IsNormal(a) && IsNormal(b) && SizedNormal(a) && SizedNormal(b)
    ensures SameBytes(a, b) <==> a == b
  {
    NormalTreePlain(a);
    NormalTreePlain(b);
    BytesSame(NormalTree(a), NormalTree(b));
    if SameBytes(a, b) {
      NormalTreeInjective(a, b);
    }
  }

  lemma BytesSame(t: Tree, u: Tree)
    requires Plain(t) && Plain(u) && CanonicalEncoding.Sized(t) && CanonicalEncoding.Sized(u)
    ensures CanonicalEncoding.ValuePreimage(t) == CanonicalEncoding.ValuePreimage(u) <==> t == u
  {
    RepeatabilityExact(t, u);
  }

  // ---------------------------------------------------------------- the whole evaluation

  /** A registration the engine holds: identity and version neither empty nor padded. */
  predicate Registered(r: Registration) {
    r.id != "" && Trimmed(r.id) && r.version != "" && Trimmed(r.version)
  }

  ghost predicate OutcomeOf(r: Registration, o: Outcome) {
    || (exists reason :: o == FailureSignal(r, reason))
    || (exists n :: IsNormal(n) && o == Concluded(r, n))
  }

  lemma OutcomeFromAnswers(r: Registration, answers: seq<Answer>)
    requires FittingAll(answers) && EvaluateRegistration(r, answers).Some?
    ensures OutcomeOf(r, EvaluateRegistration(r, answers).value)
  {
    if Stop(r, answers, 0) < |answers| {
      assert EvaluateRegistration(r, answers).value == FailureSignal(r, "evaluation check failed");
    } else {
      assert EvaluateRegistration(r, answers).value == Concluded(r, Result(r, answers));
    }
  }

  /** Outcomes of the leading registrations; every one before the last is valid. */
  ghost predicate Underway(regs: seq<Registration>, outcomes: seq<Outcome>) {
    && |outcomes| <= |regs|
    && UpToFailure(outcomes)
    && forall i :: 0 <= i < |outcomes| ==> OutcomeOf(regs[i], outcomes[i])
  }

  /** The loop is over: a registration failed, or all were evaluated. */
  predicate Settled(regs: seq<Registration>, outcomes: seq<Outcome>) {
    |outcomes| == |regs| || (|outcomes| > 0 && outcomes[|outcomes| - 1].failure.Some?)
  }

  predicate Failed(outcomes: seq<Outcome>) {
    |outcomes| > 0 && outcomes[|outcomes| - 1].failure.Some?
  }

  datatype Record = Record(
    permitted: bool, signals: seq<Tree>, ids: seq<string>, versions: map<string, string>, reasons: seq<string>)

  function Ids(regs: seq<Registration>): (r: seq<string>)
    ensures |r| == |regs| && forall i :: 0 <= i < |r| ==> r[i] == regs[i].id
  {
    seq(|regs|, i requires 0 <= i < |regs| => regs[i].id)
  }

  predicate DistinctIds(regs: seq<Registration>) {
    forall i, j :: 0 <= i < j < |regs| ==> regs[i].id != regs[j].id
  }

  ghost predicate IsRecord(rec: Record, regs: seq<Registration>, outcomes: seq<Outcome>)
    requires |outcomes| <= |regs|
  {
    && rec.permitted == !Failed(outcomes)
    && |rec.signals| == |outcomes| && (forall i :: 0 <= i < |outcomes| ==> rec.signals[i] == outcomes[i].signal)
    && rec.ids == Ids(regs[..|outcomes|])
    && rec.versions.Keys == (set i | 0 <= i < |outcomes| :: regs[i].id)
    && (forall i :: 0 <= i < |outcomes| ==> regs[i].id in rec.versions && rec.versions[regs[i].id] == regs[i].version)
    && rec.reasons == if Failed(outcomes) then [outcomes[|outcomes| - 1].failure.value] else []
  }

  /** One turn of the loop: the appends, the map write, and the failure when there is one. */
  function Grow(rec: Record, r: Registration, o: Outcome): Record {
    Record(
      rec.permitted && o.failure.None?, rec.signals + [o.signal], rec.ids + [r.id], rec.versions[r.id := r.version],
      rec.reasons + if o.failure.Some? then [o.failure.value] else [])
  }

  lemma RecordGrows(regs: seq<Registration>, outcomes: seq<Outcome>, i: nat, rec: Record)
    requires DistinctIds(regs) && i < |outcomes| <= |regs| && IsRecord(rec, regs, outcomes[..i])
    requires !Failed(outcomes[..i])
    ensures IsRecord(Grow(rec, regs[i], outcomes[i]), regs, outcomes[..i + 1])
  {
    var before, after, next := outcomes[..i], outcomes[..i + 1], Grow(rec, regs[i], outcomes[i]);
    assert after == before + [outcomes[i]];
    assert regs[..|before|] == regs[..i] && regs[..|after|] == regs[..i] + [regs[i]];
    assert Ids(regs[..|after|]) == Ids(regs[..i]) + [regs[i].id];
    assert next.versions.Keys == set j | 0 <= j < |after| :: regs[j].id;
  }

  /** Every outcome before the last is valid. */
  predicate UpToFailure(outcomes: seq<Outcome>) {
    forall i :: 0 <= i < |outcomes| - 1 ==> outcomes[i].failure.None?
  }

  /** The loop of evaluate: it stops at the first failure. */
  method Collect(regs: seq<Registration>, outcomes: seq<Outcome>) returns (rec: Record)
    requires DistinctIds(regs) && |outcomes| <= |regs| && UpToFailure(outcomes) && Settled(regs, outcomes)
    ensures IsRecord(rec, regs, outcomes)
  {
    var i := 0;
    rec := Record(true, [], [], map[], []);
    while i < |regs| && rec.permitted
      invariant i <= |outcomes| && IsRecord(rec, regs, outcomes[..i])
      invariant rec.permitted <==> !Failed(outcomes[..i])
      invariant Failed(outcomes[..i]) ==> i == |outcomes|
      decreases |regs| - i
    {
      assert i > 0 ==> outcomes[..i][i - 1] == outcomes[i - 1];
      RecordGrows(regs, outcomes, i, rec);
      rec := Grow(rec, regs[i], outcomes[i]);
      assert outcomes[..i + 1][i] == outcomes[i];
      i := i + 1;
    }
    assert outcomes[..i] == outcomes;
  }

  // ---------------------------------------------------------------- the generator's view

  lemma SignalSlots(r: Registration, valid: bool, metadata: Tree, evidence: Tree)
    requires metadata != Nil && evidence != Nil
    ensures var t := SignalTree(r, valid, metadata, evidence);
      && |t.entries| == 5
      && Slot(t, "primitive_id") == ScalarT("string", StrS(r.id))
      && Slot(t, "version") == ScalarT("string", StrS(r.version))
      && Slot(t, "valid") == ScalarT("bool", BoolS(valid)) && Slot(t, "metadata") == metadata
      && Slot(t, "evidence") == evidence
  {
    var t := SignalTree(r, valid, metadata, evidence);
    assert t.entries.Keys == {"primitive_id", "version", "valid", "metadata", "evidence"};
    assert |t.entries| == |t.entries.Keys|;
    assert t.entries["primitive_id"] == Iface(ScalarT("string", StrS(r.id)));
    assert t.entries["version"] == Iface(ScalarT("string", StrS(r.version)));
    assert t.entries["valid"] == Iface(ScalarT("bool", BoolS(valid)));
  }

  /** Nothing in the signal's data lies more than 32 containers down. */
  predicate Shallow(signal: Tree) {
    Nested(Slot(signal, "metadata"), 32) && Nested(Slot(signal, "evidence"), 32)
  }

  lemma PlainRoots(metadata: Tree, evidence: Tree)
    requires Plain(metadata) && metadata.MapT? && Plain(evidence) && evidence.ListT?
    ensures RootObject(metadata).Some? <==> Nested(metadata, 32)
    ensures RootArray(evidence).Some? <==> Nested(evidence, 32)
  {
    PlainEncodable(metadata);
    PlainEncodable(evidence);
    RootFits(metadata);
    RootFits(evidence);
    PlainDepth(metadata, 32);
    PlainDepth(evidence, 32);
  }

  lemma SignalReads(r: Registration, valid: bool, metadata: Tree, evidence: Tree)
    requires Registered(r) && Plain(metadata) && metadata.MapT? && Plain(evidence) && evidence.ListT?
    ensures var t := SignalTree(r, valid, metadata, evidence);
      && (SignalInput(t).Some? <==> Shallow(t))
      && (SignalInput(t).Some? ==> SignalMatches(SignalInput(t).value, r.id, r.version))
      && (SignalInput(t).Some? ==> SignalInput(t).value.valid == valid)
  {
    SignalSlots(r, valid, metadata, evidence);
    PlainRoots(metadata, evidence);
  }

  lemma FailureReads(r: Registration, reason: string)
    requires Registered(r)
    ensures var o := FailureSignal(r, reason);
      && (SignalInput(o.signal).Some? <==> Shallow(o.signal))
      && (SignalInput(o.signal).Some? ==> SignalMatches(SignalInput(o.signal).value, r.id, r.version))
      && !InputValid(o.signal)
  {
    SignalReads(r, false, ReasonNote(reason), ListT(SLICE_TYPE, false, []));
  }

  /** The generator reads an engine signal exactly when it is shallow, and then as what it is. */
  lemma OutcomeReads(r: Registration, o: Outcome)
    requires OutcomeOf(r, o) && Registered(r)
    ensures SignalInput(o.signal).Some? <==> Shallow(o.signal)
    ensures SignalInput(o.signal).Some? ==> SignalMatches(SignalInput(o.signal).value, r.id, r.version)
    ensures InputValid(o.signal) <==> Shallow(o.signal) && o.failure.None?
    ensures o.failure.Some? ==> !Blank(o.failure.value)
  {
    if reason :| o == FailureSignal(r, reason) {
      FailureReads(r, reason);
      FailureTextShown(r, reason);
    } else {
      var n :| IsNormal(n) && o == Concluded(r, n);
      SignalReads(r, n.valid, n.metadata, n.evidence);
      FailureTextShown(r, DenialReason(n.metadata));
    }
  }

  lemma FailureTextShown(r: Registration, reason: string)
    ensures !Blank(FailureText(r, reason))
  {
    assert FailureText(r, reason)[0] == 'P';
  }

  function RequestOf(rec: Record, context: Tree, time: int): Request {
    Request(rec.permitted, rec.ids, rec.signals, rec.versions, rec.reasons, context, time)
  }

  lemma RecordSignal(regs: seq<Registration>, outcomes: seq<Outcome>, rec: Record, context: Tree, time: int, i: nat)
    requires (forall i :: 0 <= i < |regs| ==> Registered(regs[i])) && Underway(regs, outcomes)
    requires IsRecord(rec, regs, outcomes)
    requires i < |outcomes|
    ensures SignalGenerates(RequestOf(rec, context, time), i) <==> Shallow(outcomes[i].signal)
    ensures InputValid(rec.signals[i]) <==> Shallow(outcomes[i].signal) && outcomes[i].failure.None?
  {
    assert regs[..|outcomes|][i] == regs[i];
    OutcomeReads(regs[i], outcomes[i]);
    TrimmedNotBlank(regs[i].id);
    TrimmedNotBlank(regs[i].version);
  }

  lemma RecordReasons(regs: seq<Registration>, outcomes: seq<Outcome>, rec: Record)
    requires (forall i :: 0 <= i < |regs| ==> Registered(regs[i])) && Underway(regs, outcomes)
    requires IsRecord(rec, regs, outcomes)
    requires DistinctIds(regs)
    ensures ReasonsOk(rec.permitted, rec.reasons) && Distinct(rec.ids) && |rec.ids| == |rec.signals|
  {
    if Failed(outcomes) {
      OutcomeReads(regs[|outcomes| - 1], outcomes[|outcomes| - 1]);
    }
  }

  function Shallows(outcomes: seq<Outcome>): (r: seq<bool>)
    ensures |r| == |outcomes| && forall i :: 0 <= i < |r| ==> r[i] == Shallow(outcomes[i].signal)
    ensures AllShallow(outcomes) <==> forall i :: 0 <= i < |r| ==> r[i]
  {
    var r := seq(|outcomes|, i requires 0 <= i < |outcomes| => Shallow(outcomes[i].signal));
    assert AllShallow(outcomes) ==> forall i :: 0 <= i < |r| ==> r[i] by {
      forall i | AllShallow(outcomes) && 0 <= i < |r| ensures r[i] { assert Shallow(outcomes[i].signal); }
    }
    r
  }

  function Valids(outcomes: seq<Outcome>): (r: seq<bool>)
    ensures |r| == |outcomes| && forall i :: 0 <= i < |r| ==> r[i] == outcomes[i].failure.None?
    ensures UpToFailure(outcomes) ==> (Failed(outcomes) <==> !forall i :: 0 <= i < |r| ==> r[i])
  {
    seq(|outcomes|, i requires 0 <= i < |outcomes| => outcomes[i].failure.None?)
  }

  lemma RecordSignals(regs: seq<Registration>, outcomes: seq<Outcome>, rec: Record, context: Tree, time: int)
    requires (forall i :: 0 <= i < |regs| ==> Registered(regs[i])) && Underway(regs, outcomes)
    requires IsRecord(rec, regs, outcomes)
    ensures var q, shallow, valid := RequestOf(rec, context, time), Shallows(outcomes), Valids(outcomes);
      forall i {:trigger shallow[i]} :: 0 <= i < |outcomes| ==>
        (SignalGenerates(q, i) <==> shallow[i]) && (InputValid(q.signals[i]) <==> shallow[i] && valid[i])
  {
    forall i | 0 <= i < |outcomes|
      ensures SignalGenerates(RequestOf(rec, context, time), i) <==> Shallows(outcomes)[i]
      ensures InputValid(rec.signals[i]) <==> Shallows(outcomes)[i] && Valids(outcomes)[i]
    {
      RecordSignal(regs, outcomes, rec, context, time, i);
    }
  }

  lemma GeneratesWhen(q: Request, shallow: seq<bool>, valid: seq<bool>)
    requires |q.ids| == |q.signals| == |shallow| == |valid| > 0
    requires forall i {:trigger shallow[i]} :: 0 <= i < |shallow| ==>
      (SignalGenerates(q, i) <==> shallow[i]) && (InputValid(q.signals[i]) <==> shallow[i] && valid[i])
    requires q.decision <==> forall i :: 0 <= i < |valid| ==> valid[i]
    requires ReasonsOk(q.decision, q.reasons) && Distinct(q.ids) && q.context.MapT?
    ensures Generates(q) <==> RootObject(q.context).Some? && forall i :: 0 <= i < |shallow| ==> shallow[i]
  {
    if forall i :: 0 <= i < |shallow| ==> shallow[i] {
      forall i | 0 <= i < |shallow| ensures SignalGenerates(q, i) && (InputValid(q.signals[i]) <==> valid[i]) {
        assert shallow[i];
      }
    } else {
      var i :| 0 <= i < |shallow| && !shallow[i];
      assert !SignalGenerates(q, i);
    }
  }

  predicate AllShallow(outcomes: seq<Outcome>) {
    forall i :: 0 <= i < |outcomes| ==> Shallow(outcomes[i].signal)
  }

  /** The engine never hands the generator an inconsistent record.  Generation fails only when a
      signal's data lies more than 32 containers down, or the context's more than 65 steps; both are
      within what normalisation and contexts accept. */
  lemma RecordGenerates(regs: seq<Registration>, outcomes: seq<Outcome>, rec: Record, context: Tree, time: int)
    requires |regs| > 0 && DistinctIds(regs) && (forall i :: 0 <= i < |regs| ==> Registered(regs[i]))
    requires Underway(regs, outcomes) && Settled(regs, outcomes) && IsRecord(rec, regs, outcomes)
    requires context.MapT? && Encodable(context)
    ensures Generates(RequestOf(rec, context, time)) <==> AllShallow(outcomes) && Fits(context, VALUE_DEPTH + 1)
  {
    var q, shallow, valid := RequestOf(rec, context, time), Shallows(outcomes), Valids(outcomes);
    RootFits(context);
    RecordReasons(regs, outcomes, rec);
    RecordSignals(regs, outcomes, rec, context, time);
    GeneratesWhen(q, shallow, valid);
  }
}
