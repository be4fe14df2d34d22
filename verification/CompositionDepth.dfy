/** Exactly when depth keeps a composition tree from deciding its formula (core/composition_operators.go):
    a child's result counts only if it survives normalisation. */
module CompositionDepth {
  import opened Values
  import opened Frames
  import opened Order
  import opened PrimitiveContracts
  import opened ProofEncoding
  import opened ProofTheory
  import opened Descriptors
  import opened ResultNormalizer
  import opened Composition
  import opened CompositionMeaning

  // ---------------------------------------------------------------- depth

  /** What a leaf leaves in a parent's evidence lies within `budget` steps; a failure leaves a rejection. */
  predicate LeafFits(p: Prim, budget: int)
    requires !p.Composite()
  {
    match p
    case Leaf(_, _, _, _, _, _, _, Answered(n), _) => Fits(n.metadata, budget) && Fits(n.evidence, budget)
    case _ => budget >= 2
  }

  /** Result and parts within `budget` steps, whatever the leaves answer.  Each composite spends six:
      its evidence list, the record, the child's result, and the three boxes that hold them. */
  predicate Roomy(p: Prim, budget: int)
    decreases p
  {
    if p.Composite() then budget >= 6 && forall i :: 0 <= i < |p.children| ==> Roomy(p.children[i], budget - 6)
    else LeafFits(p, budget)
  }

  /** The verdict with depth taken into account: enough children count. */
  predicate Sound(p: Prim)
    requires p.Composite()
    decreases p, 0
  {
    Counting(p.children) >= Needed(p)
  }

  /** A child counts when it is sound and its result survives normalisation. */
  predicate Counts(p: Prim)
    decreases p, 1
  {
    if p.Composite() then Sound(p) && Compact(p, VALUE_DEPTH) else Formula(p)
  }

  function Counting(ps: seq<Prim>): nat
    decreases ps, 0
  {
    if |ps| == 0 then 0 else (if Counts(ps[0]) then 1 else 0) + Counting(ps[1..])
  }

  /** How many children the sequential operator evaluates: up to the first that does not count. */
  function Reach(ps: seq<Prim>): (n: nat)
    ensures n <= |ps| && (|ps| > 0 ==> n > 0)
    decreases ps, 0
  {
    if |ps| == 0 then 0 else if !Counts(ps[0]) then 1 else 1 + Reach(ps[1..])
  }

  function Evaluated(p: Prim): (n: nat)
    requires p.Composite()
    ensures n <= |p.children|
    decreases p.children, 1
  {
    if p.Sequential? then Reach(p.children) else |p.children|
  }

  /** The composite's own result lies within `budget` steps. */
  predicate Compact(p: Prim, budget: int)
    requires p.Composite()
    decreases p, 0
  {
    budget >= 6 && forall i :: 0 <= i < Evaluated(p) ==> Recorded(p.children[i], budget - 6)
  }

  /** What the child leaves in its parent's evidence lies within `budget` steps: a result too deep to
      be normalised is recorded as a rejection, which is shallow. */
  predicate Recorded(p: Prim, budget: int)
    decreases p, 1
  {
    if !p.Composite() then LeafFits(p, budget)
    else if Compact(p, VALUE_DEPTH) then Compact(p, budget)
    else budget >= 2
  }

  lemma NoteFits(name: string, text: string, budget: int)
    ensures Fits(Note(name, text), budget) <==> budget >= 2
  {
    var es := Note(name, text).entries;
    assert es[name] == Worded(text);
    assert Fits(es[name], budget - 1) <==> budget >= 2;
  }

  lemma FailureNoteFits(reason: string, index: nat, budget: int)
    requires budget >= 2
    ensures Fits(FailureNote(reason, index), budget)
  {
  }

  lemma NormalFits(n: Normal, budget: int)
    ensures Fits(NormalTree(n), budget) <==> budget >= 2 && Fits(n.metadata, budget - 2) && Fits(n.evidence, budget - 2)
  {
    var es := NormalTree(n).entries;
    assert es["valid"] == Iface(ScalarT("bool", BoolS(n.valid))) && es["metadata"] == Iface(n.metadata);
    assert es["evidence"] == Iface(n.evidence);
    assert Fits(es["valid"], budget - 1) <==> budget >= 2;
  }

  lemma EntryFits(o: Outcome, index: nat, budget: int)
    ensures Fits(Entry(o, index), budget) <==>
      budget >= 4 && Fits(o.result.metadata, budget - 4) && Fits(o.result.evidence, budget - 4)
  {
    var es := Entry(o, index).entries;
    NormalFits(o.result, budget - 2);
    assert es["result"] == Iface(NormalTree(o.result));
    assert Fits(es["result"], budget - 1) <==> budget >= 1 && Fits(NormalTree(o.result), budget - 2);
    if budget >= 4 {
      forall k | k in es && k != "result" ensures Fits(es[k], budget - 1) {
        assert es[k].Iface? && es[k].elem.ScalarT?;
      }
    }
  }

  predicate ResultFits(o: Outcome, budget: int) {
    Fits(o.result.metadata, budget) && Fits(o.result.evidence, budget)
  }

  lemma EntriesFit(os: seq<Outcome>, budget: int)
    requires |os| > 0
    ensures Fits(ListT(SLICE_TYPE, false, Entries(os)), budget) <==>
      budget >= 6 && forall o :: o in os ==> ResultFits(o, budget - 6)
  {
    forall i | 0 <= i < |os|
      ensures Fits(Entries(os)[i], budget - 1) <==> budget >= 6 && ResultFits(os[i], budget - 6)
    {
      EntryFits(os[i], i, budget - 2);
    }
    if Fits(ListT(SLICE_TYPE, false, Entries(os)), budget) {
      assert Fits(Entries(os)[0], budget - 1);
      forall o | o in os ensures ResultFits(o, budget - 6) {
        var i :| 0 <= i < |os| && os[i] == o;
        assert Fits(Entries(os)[i], budget - 1);
      }
    } else {
      var i :| budget < 0 || (0 <= i < |os| && !Fits(Entries(os)[i], budget - 1));
      assert budget >= 6 ==> os[i] in os && !ResultFits(os[i], budget - 6);
    }
  }

  /** Evidence of a composite is six steps deeper than its children's results. */
  lemma EvidenceFits(os: seq<Outcome>, orderFree: bool, budget: int)
    requires |os| > 0
    ensures Fits(Evidence(os, orderFree), budget) <==> budget >= 6 && forall o :: o in os ==> ResultFits(o, budget - 6)
  {
    if orderFree {
      OutcomeTotal();
      StableSortSorts(OutcomeLessEq, os);
      var ordered := StableSort(OutcomeLessEq, os);
      assert |multiset(ordered)| == |ordered| == |os|;
      assert forall o :: o in os <==> o in ordered by {
        assert forall o :: o in os <==> o in multiset(os);
        assert forall o :: o in ordered <==> o in multiset(ordered);
      }
      EntriesFit(ordered, budget);
    } else {
      EntriesFit(os, budget);
    }
  }

  predicate NormalWithin(n: Normal, budget: int) {
    Fits(n.metadata, budget) && Fits(n.evidence, budget)
  }

  predicate AllFit(os: seq<Outcome>, budget: int) {
    budget >= 6 && forall o :: o in os ==> ResultFits(o, budget - 6)
  }

  lemma ParallelFits(os: seq<Outcome>, budget: int)
    requires |os| > 0
    ensures NormalWithin(ParallelResult(os), budget) <==> AllFit(os, budget)
  {
    EvidenceFits(os, true, budget);
    NoteFits("message", "All primitives passed in parallel", budget);
    NoteFits("reason", "Failed primitives: [" + Joined(StableSort(LessEq, FailedLabels(os))) + "]", budget);
  }

  lemma ThresholdFits(os: seq<Outcome>, k: int, budget: int)
    requires |os| > 0
    ensures NormalWithin(ThresholdResult(os, k), budget) <==> AllFit(os, budget)
  {
    EvidenceFits(os, true, budget);
    NoteFits("message", Enough(Passed(os), |os|), budget);
    NoteFits("reason", TooFew(Passed(os), |os|, k), budget);
  }

  lemma SequentialFits(os: seq<Outcome>, budget: int)
    requires |os| > 0
    ensures NormalWithin(SequentialResult(os), budget) <==> AllFit(Leading(os), budget)
  {
    var lead := Leading(os);
    assert |lead| > 0;
    EvidenceFits(lead, false, budget);
    NoteFits("message", "All primitives passed sequentially", budget);
    if !AllPassed(lead) && budget >= 2 {
      FailureNoteFits("Primitive " + Label(lead[|lead| - 1].descriptor, |lead| - 1) + " failed", |lead| - 1, budget);
    }
  }

  lemma RejectionFits(reason: string, budget: int)
    ensures NormalWithin(Rejection(reason), budget) <==> budget >= 2
  {
    NoteFits("reason", reason, budget);
  }

  lemma RunIs(c: Codec, p: Prim)
    requires p.Composite() && ConfigOk(c, p)
    ensures var os := Outcomes(c, p.children);
      Run(c, p) ==
        if p.Sequential? then SequentialResult(os)
        else if p.Parallel? then ParallelResult(os)
        else ThresholdResult(os, Bound(p))
  {
  }

  /** The outcomes a composite records. */
  function Noted(p: Prim, os: seq<Outcome>): seq<Outcome>
    requires p.Composite()
  {
    if p.Sequential? then Leading(os) else os
  }

  lemma RunWithin(c: Codec, p: Prim, budget: int)
    requires p.Composite() && ConfigOk(c, p)
    ensures NormalWithin(Run(c, p), budget) <==> AllFit(Noted(p, Outcomes(c, p.children)), budget)
  {
    var os := Outcomes(c, p.children);
    RunIs(c, p);
    match p
    case Sequential(_, _, _) => SequentialFits(os, budget);
    case Parallel(_, _, _) => ParallelFits(os, budget);
    case AtLeast(_, k, _, _) => ThresholdFits(os, k, budget);
  }

  // ---------------------------------------------------------------- depth, exactly

  lemma {:induction false} LeadingReach(ps: seq<Prim>, os: seq<Outcome>)
    requires |ps| == |os| && forall i :: 0 <= i < |ps| ==> (os[i].result.valid <==> Counts(ps[i]))
    ensures Leading(os) == os[..Reach(ps)]
  {
    if |ps| > 0 && Counts(ps[0]) {
      LeadingReach(ps[1..], os[1..]);
      assert os[..Reach(ps)] == [os[0]] + os[1..][..Reach(ps[1..])];
    }
  }

  lemma {:induction false} CountingPassed(ps: seq<Prim>, os: seq<Outcome>)
    requires |ps| == |os| && forall i :: 0 <= i < |ps| ==> (os[i].result.valid <==> Counts(ps[i]))
    ensures Counting(ps) == Passed(os)
  {
    if |ps| > 0 {
      CountingPassed(ps[1..], os[1..]);
      PassedFront(os[0], os[1..]);
      assert [os[0]] + os[1..] == os;
    }
  }

  lemma NotedFits(p: Prim, os: seq<Outcome>, budget: int)
    requires p.Composite() && |p.children| == |os|
    requires forall i :: 0 <= i < |os| ==> (os[i].result.valid <==> Counts(p.children[i]))
    requires forall i :: 0 <= i < |os| ==> (ResultFits(os[i], budget - 6) <==> Recorded(p.children[i], budget - 6))
    ensures AllFit(Noted(p, os), budget) <==> Compact(p, budget)
  {
    LeadingReach(p.children, os);
    var noted := Noted(p, os);
    assert noted == os[..Evaluated(p)];
    if AllFit(noted, budget) {
      forall i | 0 <= i < Evaluated(p) ensures Recorded(p.children[i], budget - 6) { assert noted[i] in noted; }
    }
    if Compact(p, budget) {
      forall o | o in noted ensures ResultFits(o, budget - 6) {
        var i :| 0 <= i < |noted| && noted[i] == o;
        assert Recorded(p.children[i], budget - 6);
      }
    }
  }

  /** Depth and verdict of a configured composite, read off the tree alone. */
  lemma {:induction false} DepthExact(c: Codec, p: Prim, budget: int)
    requires p.Composite() && ConfigOk(c, p)
    ensures NormalWithin(Run(c, p), budget) <==> Compact(p, budget)
    ensures Run(c, p).valid <==> Sound(p)
    decreases p, 1
  {
    var os := Outcomes(c, p.children);
    ConfiguredChildren(c, p);
    forall i | 0 <= i < |os|
      ensures os[i].result.valid <==> Counts(p.children[i])
      ensures ResultFits(os[i], budget - 6) <==> Recorded(p.children[i], budget - 6)
    {
      ChildExact(c, p.children[i], budget - 6);
    }
    RunWithin(c, p, budget);
    NotedFits(p, os, budget);
    VerdictExact(c, p);
    PassedAccepting(c, p.children);
    CountingPassed(p.children, os);
  }

  lemma {:induction false} ChildExact(c: Codec, p: Prim, budget: int)
    requires Describe(c, p).ok
    ensures ResultFits(OutcomeOf(c, p), budget) <==> Recorded(p, budget)
    ensures OutcomeOf(c, p).result.valid <==> Counts(p)
    decreases p, 2
  {
    if p.Composite() {
      DepthExact(c, p, VALUE_DEPTH);
      DepthExact(c, p, budget);
      RejectionFits(p.text, budget);
    } else if p.Leaf? {
      RejectionFits(p.text, budget);
    }
  }

  // ---------------------------------------------------------------- exactly the formula

  /** Depth does not get in the way of the formula: for the conjunctions every composite child, for a
      threshold enough children with a true formula, survive normalisation and are not defeated inside. */
  predicate Survives(p: Prim)
    requires p.Composite()
    decreases p, 0
  {
    if p.AtLeast? then Lasting(p.children) >= p.k else forall i :: 0 <= i < |p.children| ==> Lasts(p.children[i])
  }

  predicate Lasts(p: Prim)
    decreases p, 1
  {
    p.Composite() ==> Compact(p, VALUE_DEPTH) && Survives(p)
  }

  function Lasting(ps: seq<Prim>): nat
    decreases ps, 0
  {
    if |ps| == 0 then 0 else (if Formula(ps[0]) && Lasts(ps[0]) then 1 else 0) + Lasting(ps[1..])
  }

  lemma {:induction false} SoundMeans(p: Prim)
    requires p.Composite()
    ensures Sound(p) <==> Formula(p) && Survives(p)
    decreases p, 1
  {
    CountingMeans(p.children);
    FormulaNeeds(p);
  }

  lemma {:induction false} CountingMeans(ps: seq<Prim>)
    ensures Counting(ps) == Lasting(ps) <= Holding(ps) <= |ps|
    ensures Counting(ps) == |ps| <==> Holding(ps) == |ps| && forall i :: 0 <= i < |ps| ==> Lasts(ps[i])
    decreases ps, 0
  {
    if |ps| > 0 {
      CountsMeans(ps[0]);
      CountingMeans(ps[1..]);
    }
  }

  lemma {:induction false} CountsMeans(p: Prim)
    ensures Counts(p) <==> Formula(p) && Lasts(p)
    decreases p, 2
  {
    if p.Composite() {
      SoundMeans(p);
    }
  }

  /** What any composition tree decides: its formula, when it is configured and survives its depth. */
  lemma Meaning(c: Codec, p: Prim)
    requires p.Composite()
    ensures Run(c, p).valid <==> ConfigOk(c, p) && Formula(p) && Survives(p)
    ensures (Run(c, p).valid <==> ConfigOk(c, p) && Formula(p)) <==> (ConfigOk(c, p) && Formula(p) ==> Survives(p))
  {
    VerdictExact(c, p);
    if ConfigOk(c, p) {
      DepthExact(c, p, VALUE_DEPTH);
      SoundMeans(p);
    }
  }

  /** A caller accepts it when, besides, the result itself survives normalisation. */
  lemma AcceptedExact(c: Codec, p: Prim)
    requires p.Composite()
    ensures Accepted(c, p) <==> ConfigOk(c, p) && Formula(p) && Lasts(p)
  {
    Meaning(c, p);
    if ConfigOk(c, p) {
      DepthExact(c, p, VALUE_DEPTH);
    }
  }

  // ---------------------------------------------------------------- trees of conjunctions

  predicate Conjunctive(p: Prim)
    decreases p
  {
    !p.AtLeast? && (p.Composite() ==> forall i :: 0 <= i < |p.children| ==> Conjunctive(p.children[i]))
  }

  lemma {:induction false} RoomyMore(p: Prim, budget: int, more: int)
    requires Roomy(p, budget) && budget <= more
    ensures Roomy(p, more)
    decreases p
  {
    match p
    case Leaf(_, _, _, _, _, _, _, Answered(n), _) =>
      FitsMore(n.metadata, budget, more);
      FitsMore(n.evidence, budget, more);
    case Leaf(_, _, _, _, _, _, _, Broke(_), _) =>
    case NilPrim(_) =>
    case _ => forall i | 0 <= i < |p.children| { RoomyMore(p.children[i], budget - 6, more - 6); }
  }

  /** A roomy tree is compact and survives, whatever its operators. */
  lemma {:induction false} RoomyCompact(p: Prim, budget: int)
    requires p.Composite() && Roomy(p, budget) && budget <= VALUE_DEPTH + 6
    ensures Compact(p, budget)
    decreases p
  {
    forall i | 0 <= i < |p.children| ensures Recorded(p.children[i], budget - 6) {
      var q := p.children[i];
      if q.Composite() {
        RoomyMore(q, budget - 6, VALUE_DEPTH);
        RoomyCompact(q, budget - 6);
        RoomyCompact(q, VALUE_DEPTH);
      }
    }
  }

  lemma {:induction false} RoomySurvives(p: Prim)
    requires p.Composite() && Roomy(p, VALUE_DEPTH + 6) && Formula(p)
    ensures Survives(p)
    decreases p, 1
  {
    RoomyLasting(p.children);
    FormulaNeeds(p);
    HoldingAll(p.children);
    CountingMeans(p.children);
  }

  lemma {:induction false} RoomyLasting(ps: seq<Prim>)
    requires forall i :: 0 <= i < |ps| ==> Roomy(ps[i], VALUE_DEPTH)
    ensures Lasting(ps) == Holding(ps)
    decreases ps, 0
  {
    if |ps| > 0 {
      if ps[0].Composite() && Formula(ps[0]) {
        RoomyCompact(ps[0], VALUE_DEPTH);
        RoomyMore(ps[0], VALUE_DEPTH, VALUE_DEPTH + 6);
        RoomySurvives(ps[0]);
      }
      RoomyLasting(ps[1..]);
    }
  }

  /** A tree that is roomy on paper decides its formula. */
  lemma RoomyMeaning(c: Codec, p: Prim)
    requires p.Composite() && Roomy(p, VALUE_DEPTH + 6)
    ensures Run(c, p).valid <==> ConfigOk(c, p) && Formula(p)
  {
    Meaning(c, p);
    if Formula(p) {
      RoomySurvives(p);
    }
  }

  /** In a sound tree of conjunctions every child is evaluated and recorded as it is. */
  lemma {:induction false} ConjunctiveCompact(p: Prim, budget: int)
    requires p.Composite() && Conjunctive(p) && Sound(p) && budget <= VALUE_DEPTH + 6
    ensures Compact(p, budget) <==> Roomy(p, budget)
    decreases p
  {
    CountingMeans(p.children);
    EveryoneReached(p.children);
    forall i | 0 <= i < |p.children| ensures Recorded(p.children[i], budget - 6) <==> Roomy(p.children[i], budget - 6) {
      var q := p.children[i];
      CountsMeans(q);
      assert Counts(q);
      if q.Composite() {
        ConjunctiveCompact(q, budget - 6);
      }
    }
  }

  lemma {:induction false} EveryoneReached(ps: seq<Prim>)
    requires Counting(ps) == |ps|
    ensures Reach(ps) == |ps| && forall i :: 0 <= i < |ps| ==> Counts(ps[i])
  {
    if |ps| > 0 {
      CountingMeans(ps[1..]);
      EveryoneReached(ps[1..]);
    }
  }

  /** Every composite below p stays within the bound its result is normalised with. */
  predicate RoomyBelow(p: Prim)
    requires p.Composite()
  {
    forall i :: 0 <= i < |p.children| && p.children[i].Composite() ==> Roomy(p.children[i], VALUE_DEPTH)
  }

  lemma {:induction false} ConjunctiveSound(p: Prim)
    requires p.Composite() && Conjunctive(p)
    ensures Sound(p) <==> Formula(p) && RoomyBelow(p)
    decreases p, 0
  {
    forall i | 0 <= i < |p.children|
      ensures var q := p.children[i]; Counts(q) <==> Formula(q) && (q.Composite() ==> Roomy(q, VALUE_DEPTH))
    {
      ConjunctiveCounts(p.children[i]);
    }
    AllCount(p.children);
    HoldingAll(p.children);
    FormulaNeeds(p);
  }

  lemma {:induction false} ConjunctiveCounts(p: Prim)
    requires Conjunctive(p)
    ensures Counts(p) <==> Formula(p) && (p.Composite() ==> Roomy(p, VALUE_DEPTH))
    decreases p, 1
  {
    if p.Composite() {
      ConjunctiveSound(p);
      if Sound(p) {
        ConjunctiveCompact(p, VALUE_DEPTH);
      } else if Roomy(p, VALUE_DEPTH) {
        RoomyChildren(p);
      }
    }
  }

  lemma RoomyChildren(p: Prim)
    requires p.Composite() && Roomy(p, VALUE_DEPTH)
    ensures RoomyBelow(p)
  {
    forall i | 0 <= i < |p.children| { RoomyMore(p.children[i], VALUE_DEPTH - 6, VALUE_DEPTH); }
  }

  lemma {:induction false} AllCount(ps: seq<Prim>)
    ensures Counting(ps) >= |ps| <==> forall i :: 0 <= i < |ps| ==> Counts(ps[i])
  {
    if |ps| > 0 {
      CountingMeans(ps[1..]);
      AllCount(ps[1..]);
    }
  }

  /** A tree of conjunctions is valid exactly when it is configured, its formula holds, and every
      composite child stays within 64 steps on paper; how deep a direct leaf's result is does not matter. */
  lemma ConjunctiveMeaning(c: Codec, p: Prim)
    requires p.Composite() && Conjunctive(p)
    ensures Run(c, p).valid <==> ConfigOk(c, p) && Formula(p) && RoomyBelow(p)
  {
    VerdictExact(c, p);
    if ConfigOk(c, p) {
      DepthExact(c, p, VALUE_DEPTH);
      ConjunctiveSound(p);
    }
  }
}
