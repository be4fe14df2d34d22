/** Composite primitives (core/composition_operators.go): what they are called, when they are
    configured, and what they return. */
module Composition {
  import opened Values
  import opened Frames
  import opened Text
  import opened Order
  import opened PrimitiveContracts
  import opened ResultNormalizer
  import opened ProofTheory
  import opened Descriptors
  import CanonicalEncoding
  import FailureTexts

  // ---------------------------------------------------------------- primitives

  /** What evaluating and normalising gives; Failed for a panic or a result outside the contract. */
  datatype Return = Returned(n: Normal) | Failed(error: string)

  /** What a primitive that is no composite answers: a result that normalises, or something that fails
      with one of several texts, depending on the order in which maps are walked. */
  datatype Answer = Answered(n: Normal) | Broke(texts: set<string>)

  /** Name and pointer of a reference-typed primitive. */
  datatype Ref = Ref(typeName: string, pointer: nat)

  /** A primitive that is not a composite reports its name when it has that method, version, source
      fingerprint and configuration fingerprint; None stands for a panic or an error.  A Prim stands for
      one evaluation: `text` is the text this evaluation fails with, if it fails. */
  datatype Prim =
    | NilPrim(typ: string)
    | Leaf(typ: string, ref: Option<Ref>, named: bool, name: Option<string>, version: Option<string>,
           source: Option<string>, configuration: Option<string>, answer: Answer, text: string)
    | Sequential(pointer: nat, children: seq<Prim>, text: string)
    | Parallel(pointer: nat, children: seq<Prim>, text: string)
    | AtLeast(pointer: nat, k: int, children: seq<Prim>, text: string)
  {
    predicate Composite() {
      Sequential? || Parallel? || AtLeast?
    }
  }

  function Operator(p: Prim): string
    requires p.Composite()
  {
    if p.Sequential? then SEQUENTIAL else if p.Parallel? then PARALLEL else THRESHOLD
  }

  function GoType(p: Prim): string
    requires p.Composite()
  {
    if p.Sequential? then "*core.sequentialAndPrimitive"
    else if p.Parallel? then "*core.parallelAndPrimitive"
    else "*core.thresholdPrimitive"
  }

  function Type(p: Prim): string {
    if p.Composite() then GoType(p) + "@gsas/core" else p.typ
  }

  function Reference(p: Prim): Option<Ref> {
    if p.Composite() then Some(Ref(GoType(p), p.pointer)) else if p.Leaf? then p.ref else None
  }

  // ---------------------------------------------------------------- descriptors and configuration

  datatype Described = Described(d: Descriptor, ok: bool)

  function Broken(typ: string, name: string, version: string, source: string, note: string): Described {
    Described(Descriptor("invalid:" + typ, name, typ, version, source, "", note), false)
  }

  function DescribeLeaf(p: Prim): Described
    requires p.Leaf?
  {
    var name := if p.named then p.name else Some("");
    if name.None? then Broken(p.typ, "", "", "", "name_unavailable")
    else if p.named && Blank(name.value) then Broken(p.typ, "", "", "", "empty_name")
    else if p.version.None? then Broken(p.typ, name.value, "", "", "version_unavailable")
    else if Blank(p.version.value) then Broken(p.typ, name.value, "", "", "empty_version")
    else if p.source.None? then Broken(p.typ, name.value, p.version.value, "", "source_unavailable")
    else if p.configuration.None? then
      Broken(p.typ, name.value, p.version.value, p.source.value, "configuration_invalid")
    else
      Described(Descriptor(if name.value != "" then "name:" + name.value else "type:" + p.typ, name.value, p.typ,
                           p.version.value, p.source.value, p.configuration.value, ""), true)
  }

  /** describeCompositeChild; a composite has no name and no source, and its version is never blank. */
  function Describe(c: Codec, p: Prim): Described
    decreases p, 2
  {
    match p
    case NilPrim(typ) => Broken(typ, "", "", "", "nil_primitive")
    case Leaf(_, _, _, _, _, _, _, _, _) => DescribeLeaf(p)
    case _ =>
      var version := Version(c, p);
      if ConfigOk(c, p) then Described(Descriptor("type:" + Type(p), "", Type(p), version, "", version, ""), true)
      else Broken(Type(p), "", version, "", "configuration_invalid")
  }

  function DescribeAll(c: Codec, ps: seq<Prim>): (r: seq<Described>)
    ensures |r| == |ps| && forall i :: 0 <= i < |ps| ==> r[i] == Describe(c, ps[i])
    decreases ps, 0
  {
    if |ps| == 0 then [] else [Describe(c, ps[0])] + DescribeAll(c, ps[1..])
  }

  function DescriptorsOf(ds: seq<Described>): (r: seq<Descriptor>)
    ensures |r| == |ds| && forall i :: 0 <= i < |ds| ==> r[i] == ds[i].d
  {
    seq(|ds|, i requires 0 <= i < |ds| => ds[i].d)
  }

  function Bound(p: Prim): int {
    if p.AtLeast? then p.k else 0
  }

  function Version(c: Codec, p: Prim): string
    requires p.Composite()
    decreases p, 0
  {
    CompositeVersion(c, Operator(p), Bound(p), DescriptorsOf(DescribeAll(c, p.children)))
  }

  /** ValidateConfiguration of the three composites. */
  predicate ConfigOk(c: Codec, p: Prim)
    requires p.Composite()
    decreases p, 0
  {
    var ds := DescribeAll(c, p.children);
    && |p.children| > 0
    && (forall i :: 0 <= i < |ds| ==> ds[i].ok)
    && (p.AtLeast? ==> 0 < p.k <= |p.children| && DistinctRefs(p.children) && DistinctIdentities(ds))
  }

  predicate DistinctRefs(ps: seq<Prim>) {
    forall i, j :: 0 <= i < j < |ps| ==> Reference(ps[i]).None? || Reference(ps[i]) != Reference(ps[j])
  }

  predicate DistinctIdentities(ds: seq<Described>) {
    forall i, j :: 0 <= i < j < |ds| ==> ds[i].d.identity != ds[j].d.identity
  }

  // ---------------------------------------------------------------- outcomes

  /** compositeChildOutcome without its index, which is always its position in the evidence. */
  datatype Outcome = Outcome(descriptor: Descriptor, result: Normal, error: Option<string>)

  function Worded(s: string): Tree {
    Iface(ScalarT("string", StrS(s)))
  }

  function Note(name: string, text: string): Tree {
    MapT(MAP_TYPE, map[name := Worded(text)])
  }

  function FailureNote(reason: string, index: nat): Tree {
    MapT(MAP_TYPE, map["reason" := Worded(reason), "failed_index" := Iface(ScalarT("int", IntS(index)))])
  }

  /** invalidCompositeResult */
  function Rejection(reason: string): Normal {
    Normal(false, Note("reason", reason), ListT(SLICE_TYPE, false, []))
  }

  const CHANGED := "primitive identity or version changed during evaluation"

  /** evaluateCompositeChild, given what the child returned and how it describes itself afterwards. */
  function ChildOutcome(d: Descriptor, returned: Return, after: Described): Outcome {
    if returned.Failed? then Outcome(d, Rejection(returned.error), Some(returned.error))
    else if !after.ok || after.d != d then Outcome(d, Rejection(CHANGED), Some(CHANGED))
    else Outcome(d, returned.n, None)
  }

  /** The record of one outcome in the evidence. */
  function Entry(o: Outcome, index: nat): Tree {
    var base := map["index" := Iface(ScalarT("int", IntS(index))), "identity" := Worded(o.descriptor.identity),
                    "name" := Worded(o.descriptor.name), "type" := Worded(o.descriptor.typ),
                    "version" := Worded(o.descriptor.version), "result" := Iface(NormalTree(o.result))];
    MapT(MAP_TYPE, if o.error.Some? then base["error" := Worded(o.error.value)] else base)
  }

  function Bytes(n: Normal): string {
    CanonicalEncoding.ValuePreimage(NormalTree(n))
  }

  predicate OutcomeLess(a: Outcome, b: Outcome) {
    if DescriptorLess(a.descriptor, b.descriptor) then true
    else if DescriptorLess(b.descriptor, a.descriptor) then false
    else Less(Bytes(a.result), Bytes(b.result))
  }

  predicate OutcomeLessEq(a: Outcome, b: Outcome) {
    !OutcomeLess(b, a)
  }

  function Entries(os: seq<Outcome>): (r: seq<Tree>)
    ensures |r| == |os| && forall i :: 0 <= i < |os| ==> r[i] == Iface(Entry(os[i], i))
  {
    seq(|os|, i requires 0 <= i < |os| => Iface(Entry(os[i], i)))
  }

  /** outcomesAsEvidence */
  function Evidence(os: seq<Outcome>, orderFree: bool): Tree {
    ListT(SLICE_TYPE, false, Entries(if orderFree then StableSort(OutcomeLessEq, os) else os))
  }

  // ---------------------------------------------------------------- evaluation

  function Label(d: Descriptor, index: nat): string {
    if d.name != "" then d.name else if d.identity != "" then d.identity else "primitive_" + Decimal(index)
  }

  /** The outcomes up to the first that is not valid. */
  function Leading(os: seq<Outcome>): (r: seq<Outcome>)
    ensures r <= os && forall i :: 0 <= i < |r| - 1 ==> r[i].result.valid
    ensures |r| < |os| ==> |r| > 0 && !r[|r| - 1].result.valid
  {
    if |os| == 0 then [] else if !os[0].result.valid then [os[0]] else [os[0]] + Leading(os[1..])
  }

  predicate AllPassed(os: seq<Outcome>) {
    forall i :: 0 <= i < |os| ==> os[i].result.valid
  }

  /** The number of valid outcomes. */
  function Passed(os: seq<Outcome>): (n: nat)
    ensures n <= |os| && (n == |os| <==> AllPassed(os))
  {
    if |os| == 0 then 0
    else
      assert os == os[..|os| - 1] + [os[|os| - 1]];
      Passed(os[..|os| - 1]) + if os[|os| - 1].result.valid then 1 else 0
  }

  function FailedLabels(os: seq<Outcome>): seq<string> {
    if |os| == 0 then []
    else
      var front, last := FailedLabels(os[..|os| - 1]), os[|os| - 1];
      if last.result.valid then front else front + [Label(last.descriptor, |os| - 1)]
  }

  function Joined(texts: seq<string>): string {
    if |texts| == 0 then "" else if |texts| == 1 then texts[0]
    else Joined(texts[..|texts| - 1]) + " " + texts[|texts| - 1]
  }

  function Halted(os: seq<Outcome>): Normal
    requires |os| > 0
  {
    var last := |os| - 1;
    Normal(false, FailureNote("Primitive " + Label(os[last].descriptor, last) + " failed", last), Evidence(os, false))
  }

  function SequentialResult(all: seq<Outcome>): Normal {
    var os := Leading(all);
    if AllPassed(os) then Normal(true, Note("message", "All primitives passed sequentially"), Evidence(os, false))
    else Halted(os)
  }

  function ParallelResult(os: seq<Outcome>): Normal {
    if AllPassed(os) then Normal(true, Note("message", "All primitives passed in parallel"), Evidence(os, true))
    else
      Normal(false, Note("reason", "Failed primitives: [" + Joined(StableSort(LessEq, FailedLabels(os))) + "]"),
             Evidence(os, true))
  }

  function TooFew(passed: nat, total: nat, k: int): string {
    "Only " + Decimal(passed) + " of " + Decimal(total) + " primitives passed, need at least " + Decimal(k)
  }

  function Enough(passed: nat, total: nat): string {
    Decimal(passed) + " of " + Decimal(total) + " primitives passed"
  }

  function ThresholdResult(os: seq<Outcome>, k: int): Normal {
    if Passed(os) < k then Normal(false, Note("reason", TooFew(Passed(os), |os|, k)), Evidence(os, true))
    else Normal(true, Note("message", Enough(Passed(os), |os|)), Evidence(os, true))
  }

  /** What a composite's Evaluate returns, its children being deterministic and stable. */
  function Run(c: Codec, p: Prim): Normal
    requires p.Composite()
    decreases p, 0
  {
    if !ConfigOk(c, p) then Rejection("Invalid composition")
    else
      var os := Outcomes(c, p.children);
      match p
      case Sequential(_, _, _) => SequentialResult(os)
      case Parallel(_, _, _) => ParallelResult(os)
      case AtLeast(_, k, _, _) => ThresholdResult(os, k)
  }

  /** The result survives normalisation. */
  predicate Shallow(n: Normal) {
    Fits(n.metadata, VALUE_DEPTH) && Fits(n.evidence, VALUE_DEPTH)
  }

  /** What a caller observes after normalising the result. */
  function Observe(c: Codec, p: Prim): Return
    decreases p, 1
  {
    match p
    case NilPrim(_) => Failed("primitive cannot be nil")
    case Leaf(_, _, _, _, _, _, _, answer, text) => if answer.Answered? then Returned(answer.n) else Failed(text)
    case _ => if Shallow(Run(c, p)) then Returned(Run(c, p)) else Failed(p.text)
  }

  function OutcomeOf(c: Codec, p: Prim): Outcome
    decreases p, 2
  {
    ChildOutcome(Describe(c, p).d, Observe(c, p), Describe(c, p))
  }

  function Outcomes(c: Codec, ps: seq<Prim>): (r: seq<Outcome>)
    ensures |r| == |ps| && forall i :: 0 <= i < |ps| ==> r[i] == OutcomeOf(c, ps[i])
    decreases ps, 0
  {
    if |ps| == 0 then [] else [OutcomeOf(c, ps[0])] + Outcomes(c, ps[1..])
  }

  /** The answer of a leaf whose Evaluate returns this. */
  function AnswerOf(c: Codec, raw: RawResult): (a: Answer)
    requires ValidRaw(raw)
    ensures a.Answered? ==> IsNormal(a.n)
    ensures a.Broke? ==> a.texts != {}
  {
    RejectedWithText(c.printer, raw);
    match NormalizeResult(raw)
    case Some(n) =>
      NormalizeResultNormal(raw);
      Answered(n)
    case None => Broke(RawTexts(c.printer, raw))
  }

  /** Results of leaves have been normalised, and failures have a text. */
  predicate WellFormed(p: Prim) {
    match p
    case Leaf(_, _, _, _, _, _, _, Answered(n), _) => IsNormal(n)
    case Leaf(_, _, _, _, _, _, _, Broke(texts), _) => texts != {}
    case NilPrim(_) => true
    case _ => forall i :: 0 <= i < |p.children| ==> WellFormed(p.children[i])
  }

  // ---------------------------------------------------------------- results are plain

  lemma NotePlain(name: string, text: string)
    ensures Plain(Note(name, text)) && Note(name, text).MapT?
  {
  }

  lemma EntryPlain(o: Outcome, index: nat)
    requires IsNormal(o.result)
    ensures Plain(Entry(o, index))
  {
    NormalTreePlain(o.result);
  }

  ghost predicate NormalOutcomes(os: seq<Outcome>) {
    forall o :: o in os ==> IsNormal(o.result)
  }

  lemma EvidencePlain(os: seq<Outcome>, orderFree: bool)
    requires NormalOutcomes(os)
    ensures Plain(Evidence(os, orderFree))
  {
    var ordered := if orderFree then StableSort(OutcomeLessEq, os) else os;
    if orderFree {
      OutcomeTotal();
      StableSortSorts(OutcomeLessEq, os);
    }
    forall i | 0 <= i < |ordered| ensures PlainSlot(Iface(Entry(ordered[i], i))) {
      assert ordered[i] in multiset(ordered);
      assert ordered[i] in os;
      EntryPlain(ordered[i], i);
    }
  }

  lemma OutcomeOrder(a: Outcome, b: Outcome, d: Outcome)
    ensures OutcomeLessEq(a, b) || OutcomeLessEq(b, a)
    ensures OutcomeLessEq(a, b) && OutcomeLessEq(b, d) ==> OutcomeLessEq(a, d)
    ensures OutcomeLessEq(a, b) && OutcomeLessEq(b, a) <==>
      a.descriptor == b.descriptor && Bytes(a.result) == Bytes(b.result)
  {
    DescriptorOrder(a.descriptor, b.descriptor, d.descriptor);
    DescriptorOrder(b.descriptor, d.descriptor, a.descriptor);
    DescriptorOrder(d.descriptor, b.descriptor, a.descriptor);
    DescriptorOrder(d.descriptor, a.descriptor, b.descriptor);
    LessEqTotalOrder();
    var x, y, z := Bytes(a.result), Bytes(b.result), Bytes(d.result);
    LessTrichotomy(x, y);
    assert LessEq(x, y) && LessEq(y, z) ==> LessEq(x, z);
  }

  lemma OutcomeTotal()
    ensures TotalPreorder(OutcomeLessEq)
  {
    forall a, b ensures OutcomeLessEq(a, b) || OutcomeLessEq(b, a) { OutcomeOrder(a, b, a); }
    forall a, b, d | OutcomeLessEq(a, b) && OutcomeLessEq(b, d) ensures OutcomeLessEq(a, d) { OutcomeOrder(a, b, d); }
  }

  lemma RejectionNormal(reason: string)
    ensures IsNormal(Rejection(reason))
  {
    NotePlain("reason", reason);
    assert Plain(ListT(SLICE_TYPE, false, []));
  }

  lemma LeadingNormal(os: seq<Outcome>)
    requires NormalOutcomes(os)
    ensures NormalOutcomes(Leading(os))
  {
    forall o | o in Leading(os) ensures o in os {}
  }

  lemma HaltedNormal(os: seq<Outcome>)
    requires NormalOutcomes(os) && |os| > 0
    ensures IsNormal(Halted(os))
  {
    EvidencePlain(os, false);
    FailureNotePlain("Primitive " + Label(os[|os| - 1].descriptor, |os| - 1) + " failed", |os| - 1);
  }

  lemma SequentialNormal(os: seq<Outcome>)
    requires NormalOutcomes(os)
    ensures IsNormal(SequentialResult(os))
  {
    LeadingNormal(os);
    if AllPassed(Leading(os)) {
      EvidencePlain(Leading(os), false);
      NotePlain("message", "All primitives passed sequentially");
    } else {
      HaltedNormal(Leading(os));
    }
  }

  lemma FailureNotePlain(reason: string, index: nat)
    ensures Plain(FailureNote(reason, index)) && FailureNote(reason, index).MapT?
  {
  }

  lemma ParallelNormal(os: seq<Outcome>)
    requires NormalOutcomes(os)
    ensures IsNormal(ParallelResult(os))
  {
    EvidencePlain(os, true);
    NotePlain("message", "All primitives passed in parallel");
    NotePlain("reason", "Failed primitives: [" + Joined(StableSort(LessEq, FailedLabels(os))) + "]");
  }

  lemma ThresholdNormal(os: seq<Outcome>, k: int)
    requires NormalOutcomes(os)
    ensures IsNormal(ThresholdResult(os, k))
  {
    EvidencePlain(os, true);
    NotePlain("message", Enough(Passed(os), |os|));
    NotePlain("reason", TooFew(Passed(os), |os|, k));
  }

  lemma ResultsNormal(os: seq<Outcome>, k: int)
    requires NormalOutcomes(os)
    ensures IsNormal(SequentialResult(os)) && IsNormal(ParallelResult(os)) && IsNormal(ThresholdResult(os, k))
  {
    SequentialNormal(os);
    ParallelNormal(os);
    ThresholdNormal(os, k);
  }

  lemma {:induction false} RunNormal(c: Codec, p: Prim)
    requires p.Composite() && WellFormed(p)
    ensures IsNormal(Run(c, p))
    decreases p, 1
  {
    if ConfigOk(c, p) {
      OutcomesNormal(c, p.children);
      ResultsNormal(Outcomes(c, p.children), Bound(p));
    } else {
      RejectionNormal("Invalid composition");
    }
  }

  lemma {:induction false} OutcomesNormal(c: Codec, ps: seq<Prim>)
    requires forall i :: 0 <= i < |ps| ==> WellFormed(ps[i])
    ensures NormalOutcomes(Outcomes(c, ps))
    decreases ps, 0
  {
    if |ps| > 0 {
      ObserveNormal(c, ps[0]);
      ChildNormal(Describe(c, ps[0]).d, Observe(c, ps[0]), Describe(c, ps[0]));
      OutcomesNormal(c, ps[1..]);
    }
  }

  lemma {:induction false} ObserveNormal(c: Codec, p: Prim)
    requires WellFormed(p)
    ensures Observe(c, p).Returned? ==> IsNormal(Observe(c, p).n)
    decreases p, 2
  {
    if p.Composite() {
      RunNormal(c, p);
    }
  }

  lemma ChildNormal(d: Descriptor, returned: Return, after: Described)
    requires returned.Returned? ==> IsNormal(returned.n)
    ensures IsNormal(ChildOutcome(d, returned, after).result)
  {
    RejectionNormal(CHANGED);
    if returned.Failed? {
      RejectionNormal(returned.error);
    }
  }

  lemma ShallowNormalises(n: Normal)
    requires IsNormal(n)
    ensures Shallow(n) <==> Norm(n.metadata, 0) == Some(n.metadata) && Norm(n.evidence, 0) == Some(n.evidence)
    ensures !Shallow(n) <==> Norm(n.metadata, 0).None? || Norm(n.evidence, 0).None?
  {
    PlainNormalises(n.metadata);
    PlainNormalises(n.evidence);
  }

  lemma PlainNormalises(t: Tree)
    requires Plain(t)
    ensures Norm(t, 0) == if Fits(t, VALUE_DEPTH) then Some(t) else None
  {
    NormSucceeds(t, 0);
    if Fits(t, VALUE_DEPTH) {
      NormIdempotent(t, 0);
    }
  }

  /** What normalising a result fails with. */
  function NormalTexts(c: Codec, n: Normal): set<string> {
    FailureTexts.SchemaTexts(FailureTexts.TreeTexts(c.printer, n.metadata, 0), n.metadata.MapT?,
                             FailureTexts.TreeTexts(c.printer, n.evidence, 0), n.evidence.ListT?)
  }

  /** Normalising a composite's result either changes nothing or fails on depth alone, with a text. */
  lemma ObserveIsNormalisation(c: Codec, p: Prim)
    requires p.Composite() && WellFormed(p)
    ensures var n := Run(c, p);
      if Norm(n.metadata, 0).None? || Norm(n.evidence, 0).None? then
        Observe(c, p) == Failed(p.text) && NormalTexts(c, n) != {}
      else
        && Observe(c, p) == Returned(Normal(n.valid, Norm(n.metadata, 0).value, Norm(n.evidence, 0).value))
        && NormalTexts(c, n) == {}
  {
    RunNormal(c, p);
    ShallowNormalises(Run(c, p));
    FailureTexts.FailsWithText(c.printer, Run(c, p).metadata, 0);
    FailureTexts.FailsWithText(c.printer, Run(c, p).evidence, 0);
  }
}
