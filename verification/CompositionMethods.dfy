/** Configuration checks and evaluation as they run (core/composition_operators.go).  A method returns what
    some evaluation of the primitive returns; the theorems speak about all of them. */
module CompositionMethods {
  import opened Values
  import opened Frames
  import opened Order
  import opened PrimitiveContracts
  import opened ResultNormalizer
  import opened ProofTheory
  import opened Descriptors
  import opened Composition
  import opened CompositionDepth
  import opened CompositionTexts

  // ---------------------------------------------------------------- configuration

  /** No primitive is nil and no reference occurs twice. */
  method CheckReferences(ps: seq<Prim>) returns (ok: bool)
    ensures ok <==> DistinctRefs(ps) && forall i :: 0 <= i < |ps| ==> !ps[i].NilPrim?
  {
    var seen: set<Ref> := {};
    for i := 0 to |ps|
      invariant forall r :: r in seen <==> exists j :: 0 <= j < i && Reference(ps[j]) == Some(r)
      invariant DistinctRefs(ps[..i]) && forall j :: 0 <= j < i ==> !ps[j].NilPrim?
    {
      if ps[i].NilPrim? { return false; }
      var reference := Reference(ps[i]);
      if reference.Some? {
        if reference.value in seen { return false; }
        seen := seen + {reference.value};
      }
    }
    assert ps[..|ps|] == ps;
    return true;
  }

  method CheckIdentities(ds: seq<Described>) returns (ok: bool)
    ensures ok <==> DistinctIdentities(ds)
  {
    var seen: set<string> := {};
    for i := 0 to |ds|
      invariant forall s :: s in seen <==> exists j :: 0 <= j < i && ds[j].d.identity == s
      invariant DistinctIdentities(ds[..i])
    {
      if ds[i].d.identity in seen { return false; }
      seen := seen + {ds[i].d.identity};
    }
    assert ds[..|ds|] == ds;
    return true;
  }

  method DescribeAt(c: Codec, ps: seq<Prim>, i: nat, ghost all: seq<Described>) returns (d: Described)
    requires i < |all| == |ps| && forall i {:trigger Describe(c, ps[i])} :: 0 <= i < |ps| ==>
      all[i] == Describe(c, ps[i])
    ensures d == all[i]
  {
    d := Describe(c, ps[i]);
  }

  /** describeCompositeChildren */
  method DescribeChildren(c: Codec, ps: seq<Prim>, ghost all: seq<Described>) returns (r: Option<seq<Described>>)
    requires |all| == |ps| && forall i {:trigger Describe(c, ps[i])} :: 0 <= i < |ps| ==> all[i] == Describe(c, ps[i])
    ensures r.Some? <==> forall i :: 0 <= i < |ps| ==> all[i].ok
    ensures r.Some? ==> r.value == all
  {
    var ds: seq<Described> := [];
    for i := 0 to |ps|
      invariant ds == all[..i] && forall j :: 0 <= j < i ==> all[j].ok
    {
      var d := DescribeAt(c, ps, i, all);
      if !d.ok { return None; }
      ds := ds + [d];
    }
    return Some(ds);
  }

  /** validateCompositeConfiguration */
  method ValidateConfiguration(c: Codec, p: Prim) returns (r: Option<seq<Described>>)
    requires p.Composite()
    ensures r.Some? <==> ConfigOk(c, p)
    ensures r.Some? ==> r.value == DescribeAll(c, p.children)
  {
    var ps := p.children;
    if |ps| == 0 { return None; }
    if p.AtLeast? && (p.k <= 0 || p.k > |ps|) { return None; }
    if p.AtLeast? {
      var ok := CheckReferences(ps);
      if !ok {
        NilNeverOk(c, ps);
        return None;
      }
    }
    r := DescribeChildren(c, ps, DescribeAll(c, ps));
    if r.Some? && p.AtLeast? {
      var ok := CheckIdentities(r.value);
      if !ok { return None; }
    }
  }

  lemma NilNeverOk(c: Codec, ps: seq<Prim>)
    ensures (exists i :: 0 <= i < |ps| && ps[i].NilPrim?) ==> !forall i :: 0 <= i < |ps| ==> DescribeAll(c, ps)[i].ok
  {
    if i :| 0 <= i < |ps| && ps[i].NilPrim? {
      assert !DescribeAll(c, ps)[i].ok;
    }
  }

  // ---------------------------------------------------------------- evaluation

  /** outcomesAsEvidence */
  method OutcomesAsEvidence(os: seq<Outcome>, orderFree: bool) returns (evidence: Tree)
    ensures evidence == Evidence(os, orderFree)
  {
    var ordered := os;
    if orderFree {
      ordered := StableSort(OutcomeLessEq, os);
    }
    var records: seq<Tree> := [];
    for i := 0 to |ordered|
      invariant records == Entries(ordered)[..i]
    {
      records := records + [Iface(Entry(ordered[i], i))];
    }
    evidence := ListT(SLICE_TYPE, false, records);
  }

  /** Children with their descriptors. */
  ghost predicate Prepared(c: Codec, ps: seq<Prim>, ds: seq<Described>) {
    |ds| == |ps| && forall i {:trigger ps[i]} :: 0 <= i < |ps| ==>
      WellFormed(ps[i]) && ds[i].d == Describe(c, ps[i]).d
  }

  /** A caller may observe this of the primitive. */
  ghost predicate MayObserve(c: Codec, p: Prim, returned: Return) {
    exists q :: Variant(c, p, q) && Observe(c, q) == returned
  }

  /** evaluateCompositeChild.  A text is picked where the source's map iterator picks one. */
  method EvaluateChild(c: Codec, p: Prim, d: Descriptor) returns (o: Outcome)
    requires WellFormed(p) && d == Describe(c, p).d
    ensures MayOutcome(c, p, o)
    decreases p, 2
  {
    var returned;
    if p.Composite() {
      returned := EvaluateComposite(c, p);
    } else if p.NilPrim? {
      returned := Failed("primitive cannot be nil");
      assert Variant(c, p, p);
    } else if p.answer.Answered? {
      returned := Returned(p.answer.n);
      assert Variant(c, p, p);
    } else {
      var text :| text in p.answer.texts;
      returned := Failed(text);
      assert Variant(c, p, WithText(p, text));
    }
    o := ChildOutcome(d, returned, Describe(c, p));
    Observed(c, p, returned);
  }

  lemma Observed(c: Codec, p: Prim, returned: Return)
    requires MayObserve(c, p, returned)
    ensures MayOutcome(c, p, ChildOutcome(Describe(c, p).d, returned, Describe(c, p)))
  {
    var q :| Variant(c, p, q) && Observe(c, q) == returned;
    AlikeDescribes(c, p, q);
    assert OutcomeOf(c, q) == ChildOutcome(Describe(c, p).d, returned, Describe(c, p));
  }

  /** The result of a composite child, normalised. */
  method EvaluateComposite(c: Codec, p: Prim) returns (returned: Return)
    requires p.Composite() && WellFormed(p)
    ensures MayObserve(c, p, returned)
    decreases p, 1
  {
    var n := Evaluate(c, p);
    ghost var q :| Evaluation(c, p, q) && Run(c, q) == n;
    AlikeWellFormed(p, q);
    ObserveIsNormalisation(c, q);
    var metadata, evidence := Norm(n.metadata, 0), Norm(n.evidence, 0);
    if metadata.None? || evidence.None? {
      var text :| text in NormalTexts(c, n);
      returned := Failed(text);
      RunIgnoresText(c, q, text);
      assert Variant(c, p, WithText(q, text));
    } else {
      returned := Returned(Normal(n.valid, metadata.value, evidence.value));
      assert Variant(c, p, q);
    }
  }

  method EvaluateAt(c: Codec, ps: seq<Prim>, ds: seq<Described>, i: nat) returns (o: Outcome)
    requires Prepared(c, ps, ds) && i < |ps|
    ensures MayOutcome(c, ps[i], o)
    decreases ps, 0
  {
    o := EvaluateChild(c, ps[i], ds[i].d);
  }

  /** Evaluate of the three composites. */
  method Evaluate(c: Codec, p: Prim) returns (n: Normal)
    requires p.Composite() && WellFormed(p)
    ensures MayReturn(c, p, n)
    decreases p, 0
  {
    var ds := ValidateConfiguration(c, p);
    ghost var qs := ResolveAll(c, p.children);
    if ds.None? {
      RunOf(c, p, qs);
      return Rejection("Invalid composition");
    }
    match p
    case Sequential(_, ps, _) =>
      n := EvaluateInOrder(c, ps, ds.value);
      ghost var os :| MayOutcomes(c, ps, os) && n == SequentialResult(os);
      Returns(c, p, os);
    case Parallel(_, ps, _) =>
      n := EvaluateTogether(c, ps, ds.value);
      ghost var os :| MayOutcomes(c, ps, os) && n == ParallelResult(os);
      Returns(c, p, os);
    case AtLeast(_, k, ps, _) =>
      n := EvaluateThreshold(c, ps, k, ds.value);
      ghost var os :| MayOutcomes(c, ps, os) && n == ThresholdResult(os, k);
      Returns(c, p, os);
  }

  /** What the evaluation with these children returns. */
  lemma RunOf(c: Codec, p: Prim, qs: seq<Prim>)
    requires p.Composite() && VariantAll(c, p.children, qs)
    ensures Evaluation(c, p, WithChildren(p, qs))
    ensures Run(c, WithChildren(p, qs)) ==
      if ConfigOk(c, p) then Combined(p, Outcomes(c, qs)) else Rejection("Invalid composition")
  {
    var q := WithChildren(p, qs);
    AlikeParts(p, q);
    AlikeDescribes(c, p, q);
    if ConfigOk(c, q) { RunIs(c, q); }
  }

  function Combined(p: Prim, os: seq<Outcome>): Normal
    requires p.Composite()
  {
    match p
    case Sequential(_, _, _) => SequentialResult(os)
    case Parallel(_, _, _) => ParallelResult(os)
    case AtLeast(_, k, _, _) => ThresholdResult(os, k)
  }

  /** Children that may each have these outcomes may have them together. */
  lemma Returns(c: Codec, p: Prim, os: seq<Outcome>)
    requires p.Composite() && ConfigOk(c, p) && MayOutcomes(c, p.children, os)
    ensures MayReturn(c, p, Combined(p, os))
  {
    var qs := Witnesses(c, p.children, os);
    RunOf(c, p, qs);
  }

  lemma {:induction false} Witnesses(c: Codec, ps: seq<Prim>, os: seq<Outcome>) returns (qs: seq<Prim>)
    requires MayOutcomes(c, ps, os)
    ensures VariantAll(c, ps, qs) && Outcomes(c, qs) == os
  {
    if |ps| == 0 {
      qs := [];
    } else {
      var n := |ps| - 1;
      var front := Witnesses(c, ps[..n], os[..n]);
      var q := Witness(c, ps[n], os[n]);
      qs := front + [q];
      OneMore(c, ps, front, q);
      assert ps[..n + 1] == ps && os == os[..n] + [os[n]];
    }
  }

  lemma Witness(c: Codec, p: Prim, o: Outcome) returns (q: Prim)
    requires MayOutcome(c, p, o)
    ensures Variant(c, p, q) && OutcomeOf(c, q) == o
  {
    q :| Variant(c, p, q) && OutcomeOf(c, q) == o;
  }

  lemma OneMore(c: Codec, ps: seq<Prim>, qs: seq<Prim>, q: Prim)
    requires |qs| < |ps| && VariantAll(c, ps[..|qs|], qs) && Variant(c, ps[|qs|], q)
    ensures VariantAll(c, ps[..|qs| + 1], qs + [q]) && Outcomes(c, qs + [q]) == Outcomes(c, qs) + [OutcomeOf(c, q)]
  {
    forall i | 0 <= i <= |qs| ensures Variant(c, ps[..|qs| + 1][i], (qs + [q])[i]) {
      if i < |qs| { assert Variant(c, ps[..|qs|][i], qs[i]); }
    }
    OutcomesAppend(c, qs, q);
  }

  lemma OutcomesAppend(c: Codec, qs: seq<Prim>, q: Prim)
    ensures Outcomes(c, qs + [q]) == Outcomes(c, qs) + [OutcomeOf(c, q)]
  {
    var a, b := Outcomes(c, qs + [q]), Outcomes(c, qs) + [OutcomeOf(c, q)];
    forall i | 0 <= i <= |qs| ensures a[i] == b[i] {
      assert a[i] == OutcomeOf(c, (qs + [q])[i]);
    }
  }

  lemma LeadingPrefix(os: seq<Outcome>, i: nat)
    requires i <= |os| && AllPassed(os[..i])
    ensures i == |os| ==> Leading(os) == os
    ensures i < |os| && !os[i].result.valid ==> Leading(os) == os[..i + 1]
    decreases i
  {
    if i > 0 {
      assert os[..i][0] == os[0];
      assert os[1..][..i - 1] == os[..i][1..];
      LeadingPrefix(os[1..], i - 1);
      assert os == [os[0]] + os[1..];
    }
  }

  lemma SequentialIs(os: seq<Outcome>, outcomes: seq<Outcome>)
    requires outcomes == Leading(os)
    ensures var last, evidence := |outcomes| - 1, Evidence(outcomes, false);
      SequentialResult(os) ==
        if last >= 0 && !outcomes[last].result.valid then
          Normal(false, FailureNote("Primitive " + Label(outcomes[last].descriptor, last) + " failed", last), evidence)
        else Normal(true, Note("message", "All primitives passed sequentially"), evidence)
  {
    LastDecides(os);
  }

  lemma LastDecides(os: seq<Outcome>)
    ensures AllPassed(Leading(os)) <==> |Leading(os)| == 0 || Leading(os)[|Leading(os)| - 1].result.valid
  {
  }

  /** What the sequential loop leaves: outcomes the children may have, up to the first that is not valid. */
  ghost predicate MayLead(c: Codec, ps: seq<Prim>, outcomes: seq<Outcome>) {
    exists os :: MayOutcomes(c, ps, os) && Leading(os) == outcomes
  }

  /** The loop of the sequential operator: it stops at the first child that is not valid. */
  method RunUntilFailure(c: Codec, ps: seq<Prim>, ds: seq<Described>) returns (outcomes: seq<Outcome>)
    requires Prepared(c, ps, ds)
    ensures MayLead(c, ps, outcomes)
    decreases ps, 1
  {
    outcomes := [];
    for i := 0 to |ps|
      invariant MayOutcomes(c, ps[..i], outcomes) && AllPassed(outcomes)
    {
      var o := EvaluateAt(c, ps, ds, i);
      OneMoreOutcome(c, ps, outcomes, o);
      assert (outcomes + [o])[..i] == outcomes;
      outcomes := outcomes + [o];
      if !o.result.valid {
        Stopped(c, ps, outcomes);
        return;
      }
    }
    NeverStopped(outcomes);
    assert ps[..|ps|] == ps;
  }

  lemma OneMoreOutcome(c: Codec, ps: seq<Prim>, os: seq<Outcome>, o: Outcome)
    requires |os| < |ps| && MayOutcomes(c, ps[..|os|], os) && MayOutcome(c, ps[|os|], o)
    ensures MayOutcomes(c, ps[..|os| + 1], os + [o])
  {
    forall i | 0 <= i <= |os| ensures MayOutcome(c, ps[..|os| + 1][i], (os + [o])[i]) {
      if i < |os| { assert MayOutcome(c, ps[..|os|][i], os[i]); }
    }
  }

  lemma NeverStopped(outcomes: seq<Outcome>)
    requires AllPassed(outcomes)
    ensures Leading(outcomes) == outcomes
  {
    assert outcomes[..|outcomes|] == outcomes;
    LeadingPrefix(outcomes, |outcomes|);
  }

  /** The children behind the one that stopped the loop are not evaluated; whatever they may do will do. */
  lemma Stopped(c: Codec, ps: seq<Prim>, outcomes: seq<Outcome>)
    requires 0 < |outcomes| <= |ps| && forall i :: 0 <= i < |ps| ==> WellFormed(ps[i])
    requires MayOutcomes(c, ps[..|outcomes|], outcomes)
    requires AllPassed(outcomes[..|outcomes| - 1]) && !outcomes[|outcomes| - 1].result.valid
    ensures MayLead(c, ps, outcomes)
  {
    var rest := Unevaluated(c, ps[|outcomes|..]);
    OutcomesJoin(c, ps, outcomes, rest);
    LeadingStops(outcomes, rest);
  }

  lemma OutcomesJoin(c: Codec, ps: seq<Prim>, os: seq<Outcome>, rest: seq<Outcome>)
    requires |os| <= |ps| && MayOutcomes(c, ps[..|os|], os) && MayOutcomes(c, ps[|os|..], rest)
    ensures MayOutcomes(c, ps, os + rest)
  {
    var n := |os|;
    forall i | 0 <= i < |ps| ensures MayOutcome(c, ps[i], (os + rest)[i]) {
      if i < n {
        assert MayOutcome(c, ps[..n][i], os[i]);
      } else {
        assert MayOutcome(c, ps[n..][i - n], rest[i - n]);
      }
    }
  }

  lemma LeadingStops(outcomes: seq<Outcome>, rest: seq<Outcome>)
    requires |outcomes| > 0 && AllPassed(outcomes[..|outcomes| - 1]) && !outcomes[|outcomes| - 1].result.valid
    ensures Leading(outcomes + rest) == outcomes
  {
    var os, n := outcomes + rest, |outcomes|;
    assert os[..n] == outcomes && os[..n - 1] == outcomes[..n - 1];
    LeadingPrefix(os, n - 1);
  }

  lemma Unevaluated(c: Codec, ps: seq<Prim>) returns (os: seq<Outcome>)
    requires forall i :: 0 <= i < |ps| ==> WellFormed(ps[i])
    ensures MayOutcomes(c, ps, os)
  {
    var qs := ResolveAll(c, ps);
    os := Outcomes(c, qs);
    forall i | 0 <= i < |ps| ensures MayOutcome(c, ps[i], os[i]) { assert Variant(c, ps[i], qs[i]); }
  }

  method EvaluateInOrder(c: Codec, ps: seq<Prim>, ds: seq<Described>) returns (n: Normal)
    requires Prepared(c, ps, ds)
    ensures exists os :: MayOutcomes(c, ps, os) && n == SequentialResult(os)
    decreases ps, 2
  {
    var outcomes := RunUntilFailure(c, ps, ds);
    ghost var os :| MayOutcomes(c, ps, os) && Leading(os) == outcomes;
    SequentialIs(os, outcomes);
    var evidence := OutcomesAsEvidence(outcomes, false);
    var last := |outcomes| - 1;
    if last >= 0 && !outcomes[last].result.valid {
      var note := FailureNote("Primitive " + Label(outcomes[last].descriptor, last) + " failed", last);
      n := Normal(false, note, evidence);
    } else {
      n := Normal(true, Note("message", "All primitives passed sequentially"), evidence);
    }
  }

  /** The loop of the parallel operator: it runs all children and lists the failed ones. */
  method RunTogether(c: Codec, ps: seq<Prim>, ds: seq<Described>)
    returns (outcomes: seq<Outcome>, failed: seq<string>)
    requires Prepared(c, ps, ds)
    ensures MayOutcomes(c, ps, outcomes) && failed == FailedLabels(outcomes)
    decreases ps, 1
  {
    outcomes, failed := [], [];
    for i := 0 to |ps|
      invariant MayOutcomes(c, ps[..i], outcomes) && failed == FailedLabels(outcomes)
    {
      var o := EvaluateAt(c, ps, ds, i);
      OneMoreOutcome(c, ps, outcomes, o);
      LabelsOneMore(outcomes, o);
      outcomes := outcomes + [o];
      if !o.result.valid {
        failed := failed + [Label(o.descriptor, i)];
      }
    }
    assert ps[..|ps|] == ps;
  }

  lemma LabelsOneMore(os: seq<Outcome>, o: Outcome)
    ensures FailedLabels(os + [o]) == FailedLabels(os) + if o.result.valid then [] else [Label(o.descriptor, |os|)]
  {
    assert (os + [o])[..|os|] == os;
  }

  lemma {:induction false} NobodyFailed(os: seq<Outcome>)
    ensures |FailedLabels(os)| == 0 <==> AllPassed(os)
  {
    if |os| > 0 {
      NobodyFailed(os[..|os| - 1]);
      assert os == os[..|os| - 1] + [os[|os| - 1]];
    }
  }

  method EvaluateTogether(c: Codec, ps: seq<Prim>, ds: seq<Described>) returns (n: Normal)
    requires Prepared(c, ps, ds)
    ensures exists os :: MayOutcomes(c, ps, os) && n == ParallelResult(os)
    decreases ps, 2
  {
    var outcomes, failed := RunTogether(c, ps, ds);
    NobodyFailed(outcomes);
    LessEqTotalOrder();
    StableSortSorts(LessEq, failed);
    ghost var unsorted := failed;
    failed := StableSort(LessEq, failed);
    assert |multiset(failed)| == |failed| && |multiset(unsorted)| == |unsorted|;
    var evidence := OutcomesAsEvidence(outcomes, true);
    if |failed| != 0 {
      n := Normal(false, Note("reason", "Failed primitives: [" + Joined(failed) + "]"), evidence);
    } else {
      n := Normal(true, Note("message", "All primitives passed in parallel"), evidence);
    }
    assert n == ParallelResult(outcomes);
  }

  /** The loop of the threshold operator: it runs all children and counts the valid ones. */
  method RunCounting(c: Codec, ps: seq<Prim>, ds: seq<Described>) returns (outcomes: seq<Outcome>, passed: nat)
    requires Prepared(c, ps, ds)
    ensures MayOutcomes(c, ps, outcomes) && passed == Passed(outcomes)
    decreases ps, 1
  {
    outcomes, passed := [], 0;
    for i := 0 to |ps|
      invariant MayOutcomes(c, ps[..i], outcomes) && passed == Passed(outcomes)
    {
      var o := EvaluateAt(c, ps, ds, i);
      OneMoreOutcome(c, ps, outcomes, o);
      PassedOneMore(outcomes, o);
      outcomes := outcomes + [o];
      if o.result.valid {
        passed := passed + 1;
      }
    }
    assert ps[..|ps|] == ps;
  }

  lemma PassedOneMore(os: seq<Outcome>, o: Outcome)
    ensures Passed(os + [o]) == Passed(os) + if o.result.valid then 1 else 0
  {
    assert (os + [o])[..|os|] == os;
  }

  method EvaluateThreshold(c: Codec, ps: seq<Prim>, k: int, ds: seq<Described>) returns (n: Normal)
    requires Prepared(c, ps, ds)
    ensures exists os :: MayOutcomes(c, ps, os) && n == ThresholdResult(os, k)
    decreases ps, 2
  {
    var outcomes, passed := RunCounting(c, ps, ds);
    var evidence := OutcomesAsEvidence(outcomes, true);
    if passed < k {
      n := Normal(false, Note("reason", TooFew(passed, |ps|, k)), evidence);
    } else {
      n := Normal(true, Note("message", Enough(passed, |ps|)), evidence);
    }
    assert n == ThresholdResult(outcomes, k);
  }
}
