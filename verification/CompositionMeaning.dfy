/** What a composition tree decides (core/composition_operators.go), against its Boolean formula. */
module CompositionMeaning {
  import opened Values
  import opened Frames
  import opened Order
  import opened PrimitiveContracts
  import opened ProofEncoding
  import opened ProofTheory
  import opened Descriptors
  import opened ResultNormalizer
  import opened Composition

  // ---------------------------------------------------------------- formulas

  /** The Boolean reading: a leaf is its verdict; and, and, at least k. */
  predicate Formula(p: Prim) {
    match p
    case NilPrim(_) => false
    case Leaf(_, _, _, _, _, _, _, answer, _) => answer.Answered? && answer.n.valid
    case AtLeast(_, k, ps, _) => Holding(ps) >= k
    case _ => forall i :: 0 <= i < |p.children| ==> Formula(p.children[i])
  }

  function Holding(ps: seq<Prim>): (n: nat) {
    if |ps| == 0 then 0 else (if Formula(ps[0]) then 1 else 0) + Holding(ps[1..])
  }

  /** The result a caller sees is valid. */
  predicate Accepted(c: Codec, p: Prim) {
    Observe(c, p).Returned? && Observe(c, p).n.valid
  }

  function Accepting(c: Codec, ps: seq<Prim>): (n: nat) {
    if |ps| == 0 then 0 else (if Accepted(c, ps[0]) then 1 else 0) + Accepting(c, ps[1..])
  }

  // ---------------------------------------------------------------- one level

  lemma LeadingPasses(os: seq<Outcome>)
    ensures AllPassed(Leading(os)) <==> AllPassed(os)
  {
    if |Leading(os)| == |os| {
      assert Leading(os) == os;
    }
  }

  lemma ChildValid(c: Codec, p: Prim)
    requires Describe(c, p).ok
    ensures OutcomeOf(c, p).result.valid <==> Accepted(c, p)
  {
  }

  lemma {:induction false} PassedAccepting(c: Codec, ps: seq<Prim>)
    requires forall i :: 0 <= i < |ps| ==> Describe(c, ps[i]).ok
    ensures Passed(Outcomes(c, ps)) == Accepting(c, ps)
  {
    if |ps| > 0 {
      assert Describe(c, ps[0]).ok;
      PassedAccepting(c, ps[1..]);
      ChildValid(c, ps[0]);
      PassedFront(OutcomeOf(c, ps[0]), Outcomes(c, ps[1..]));
    }
  }

  lemma {:induction false} PassedFront(o: Outcome, os: seq<Outcome>)
    ensures Passed([o] + os) == Passed(os) + if o.result.valid then 1 else 0
  {
    if |os| == 0 {
      assert ([o] + os)[..0] == [];
    } else {
      PassedFront(o, os[..|os| - 1]);
      assert ([o] + os)[..|os|] == [o] + os[..|os| - 1];
    }
  }

  lemma ConfiguredChildren(c: Codec, p: Prim)
    requires p.Composite() && ConfigOk(c, p)
    ensures forall i :: 0 <= i < |p.children| ==> Describe(c, p.children[i]).ok
  {
    forall i | 0 <= i < |p.children| ensures Describe(c, p.children[i]).ok {
      assert DescribeAll(c, p.children)[i].ok;
    }
  }

  /** How many children a composite needs. */
  function Needed(p: Prim): int
    requires p.Composite()
  {
    if p.AtLeast? then p.k else |p.children|
  }

  /** A composite is valid exactly when it is configured and enough of its children are accepted. */
  lemma VerdictExact(c: Codec, p: Prim)
    requires p.Composite()
    ensures Run(c, p).valid <==> ConfigOk(c, p) && Accepting(c, p.children) >= Needed(p)
  {
    if ConfigOk(c, p) {
      var os := Outcomes(c, p.children);
      ConfiguredChildren(c, p);
      PassedAccepting(c, p.children);
      LeadingPasses(os);
      ResultVerdicts(os, Bound(p));
    }
  }

  lemma ResultVerdicts(os: seq<Outcome>, k: int)
    ensures SequentialResult(os).valid <==> AllPassed(Leading(os))
    ensures ParallelResult(os).valid <==> AllPassed(os)
    ensures ThresholdResult(os, k).valid <==> Passed(os) >= k
  {
  }

  // ---------------------------------------------------------------- never more than the formula

  lemma {:induction false} FormulaNeeds(p: Prim)
    requires p.Composite()
    ensures Formula(p) <==> Holding(p.children) >= Needed(p)
  {
    HoldingAll(p.children);
  }

  lemma {:induction false} HoldingAll(ps: seq<Prim>)
    ensures Holding(ps) <= |ps|
    ensures Holding(ps) == |ps| <==> forall i :: 0 <= i < |ps| ==> Formula(ps[i])
  {
    if |ps| > 0 {
      HoldingAll(ps[1..]);
    }
  }

  /** However deep the tree: a composite accepts only what its formula allows, and only when it and
      everything in it is configured. */
  lemma {:induction false} NeverMoreThanFormula(c: Codec, p: Prim)
    ensures Accepted(c, p) ==> Formula(p)
    ensures p.Composite() && Run(c, p).valid ==> Formula(p)
    decreases p, 1
  {
    if p.Composite() {
      AcceptingHolds(c, p.children);
      VerdictExact(c, p);
      FormulaNeeds(p);
    }
  }

  lemma {:induction false} AcceptingHolds(c: Codec, ps: seq<Prim>)
    ensures Accepting(c, ps) <= Holding(ps)
    decreases ps, 0
  {
    if |ps| > 0 {
      NeverMoreThanFormula(c, ps[0]);
      AcceptingHolds(c, ps[1..]);
    }
  }

  // ---------------------------------------------------------------- laws

  /** A configured n-of-n threshold decides what both conjunctions decide. */
  lemma AllOfThemIsAnd(c: Codec, pointer: nat, ps: seq<Prim>, text: string)
    requires ConfigOk(c, AtLeast(pointer, |ps|, ps, text))
    ensures Run(c, AtLeast(pointer, |ps|, ps, text)).valid == Run(c, Parallel(pointer, ps, text)).valid
    ensures Run(c, AtLeast(pointer, |ps|, ps, text)).valid == Run(c, Sequential(pointer, ps, text)).valid
  {
    VerdictExact(c, AtLeast(pointer, |ps|, ps, text));
    VerdictExact(c, Parallel(pointer, ps, text));
    VerdictExact(c, Sequential(pointer, ps, text));
  }

  lemma CompositeIdentity(c: Codec, p: Prim)
    requires p.Composite() && Describe(c, p).ok
    ensures Describe(c, p).d.identity == "type:" + Type(p)
  {
  }

  /** Composites of one operator share an identity, so a threshold over two of them is never valid. */
  lemma SameOperatorClashes(c: Codec, p: Prim, i: nat, j: nat)
    requires p.AtLeast? && i < j < |p.children|
    requires p.children[i].Composite() && p.children[j].Composite()
    requires Operator(p.children[i]) == Operator(p.children[j])
    ensures !ConfigOk(c, p) && !Run(c, p).valid
  {
    var ds := DescribeAll(c, p.children);
    if ds[i].ok { CompositeIdentity(c, p.children[i]); }
    if ds[j].ok { CompositeIdentity(c, p.children[j]); }
    assert ds[i].ok && ds[j].ok ==> ds[i].d.identity == ds[j].d.identity;
  }

  /** q is p or lies somewhere below it. */
  ghost predicate Within(q: Prim, p: Prim)
    decreases p
  {
    q == p || (p.Composite() && exists i :: 0 <= i < |p.children| && Within(q, p.children[i]))
  }

  /** One misconfigured primitive, however deep, makes every composite above it invalid. */
  lemma {:induction false} MisconfiguredBelow(c: Codec, q: Prim, p: Prim)
    requires Within(q, p) && !Describe(c, q).ok
    ensures !Describe(c, p).ok
    ensures p.Composite() ==> !ConfigOk(c, p) && !Run(c, p).valid
    decreases p
  {
    if q != p {
      var i :| 0 <= i < |p.children| && Within(q, p.children[i]);
      MisconfiguredBelow(c, q, p.children[i]);
      assert !DescribeAll(c, p.children)[i].ok;
    }
  }
}
