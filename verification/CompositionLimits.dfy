/** Where the depth limit shows (core/composition_operators.go): how deep a chain may be, and when an
    improvement of the leaves loses the verdict. */
module CompositionLimits {
  import opened Values
  import opened Frames
  import opened Order
  import opened PrimitiveContracts
  import opened ProofEncoding
  import opened ProofTheory
  import opened Descriptors
  import opened ResultNormalizer
  import opened Composition
  import opened CompositionMeaning
  import opened CompositionDepth

  // ---------------------------------------------------------------- how deep is too deep

  /** Composites nested n times around one leaf. */
  function Tower(leaf: Prim, n: nat): Prim {
    if n == 0 then leaf else Sequential(n, [Tower(leaf, n - 1)], "")
  }

  predicate SoundLeaf(leaf: Prim) {
    leaf.Leaf? && DescribeLeaf(leaf).ok
    && leaf.answer == Answered(Normal(true, MapT(MAP_TYPE, map[]), ListT(SLICE_TYPE, false, [])))
  }

  lemma WrapConfigured(c: Codec, p: Prim, child: Prim)
    requires p.Sequential? && p.children == [child] && Describe(c, child).ok
    ensures ConfigOk(c, p) && (Formula(p) <==> Formula(child))
  {
    assert DescribeAll(c, p.children) == [Describe(c, child)];
  }

  lemma WrapDescribed(c: Codec, p: Prim)
    requires p.Composite() && ConfigOk(c, p)
    ensures Describe(c, p).ok
  {
  }

  lemma LeafDescribed(c: Codec, leaf: Prim)
    requires SoundLeaf(leaf)
    ensures Describe(c, leaf).ok && Formula(leaf)
  {
  }

  lemma {:induction false} TowerDescribed(c: Codec, leaf: Prim, n: nat)
    requires SoundLeaf(leaf)
    ensures Describe(c, Tower(leaf, n)).ok && Formula(Tower(leaf, n))
  {
    if n == 0 {
      LeafDescribed(c, leaf);
    } else {
      TowerDescribed(c, leaf, n - 1);
      StoreyDescribed(c, Tower(leaf, n), Tower(leaf, n - 1));
    }
  }

  lemma StoreyDescribed(c: Codec, p: Prim, child: Prim)
    requires p.Sequential? && p.children == [child] && Describe(c, child).ok && Formula(child)
    ensures Describe(c, p).ok && Formula(p)
  {
    WrapConfigured(c, p, child);
    WrapDescribed(c, p);
  }

  lemma TowerConfigured(c: Codec, leaf: Prim, n: nat)
    requires SoundLeaf(leaf)
    ensures Describe(c, Tower(leaf, n)).ok && Formula(Tower(leaf, n))
    ensures n > 0 ==> ConfigOk(c, Tower(leaf, n))
  {
    TowerDescribed(c, leaf, n);
    if n > 0 {
      TowerDescribed(c, leaf, n - 1);
      WrapConfigured(c, Tower(leaf, n), Tower(leaf, n - 1));
    }
  }

  lemma TowerStep(o: Outcome, budget: int)
    requires o.result.valid
    ensures SequentialResult([o]).valid
    ensures Fits(SequentialResult([o]).evidence, budget) <==> budget >= 6 && ResultFits(o, budget - 6)
    ensures Fits(SequentialResult([o]).metadata, budget) <==> budget >= 2
  {
    assert Leading([o]) == [o];
    assert o in [o];
    EvidenceFits([o], false, budget);
    assert SequentialResult([o]).evidence == Evidence([o], false);
    if budget >= 6 && ResultFits(o, budget - 6) {
      assert forall x :: x in [o] ==> x == o;
    }
    NoteFits("message", "All primitives passed sequentially", budget);
  }

  lemma TowerRun(c: Codec, leaf: Prim, n: nat)
    requires SoundLeaf(leaf) && n > 0
    ensures Run(c, Tower(leaf, n)) == SequentialResult([OutcomeOf(c, Tower(leaf, n - 1))])
  {
    TowerConfigured(c, leaf, n);
    assert Outcomes(c, [Tower(leaf, n - 1)]) == [OutcomeOf(c, Tower(leaf, n - 1))];
  }

  /** What the next level records of n composites. */
  predicate TowerFits(o: Outcome, n: nat, budget: int) {
    o.result.valid && (ResultFits(o, budget) <==> budget >= 6 * n)
  }

  /** The evidence of n composites is 6n steps deep. */
  lemma {:induction false} TowerDepth(c: Codec, leaf: Prim, n: nat, budget: int)
    requires SoundLeaf(leaf) && 0 < n <= 11
    ensures Run(c, Tower(leaf, n)).valid
    ensures Fits(Run(c, Tower(leaf, n)).evidence, budget) <==> budget >= 6 * n
    ensures Fits(Run(c, Tower(leaf, n)).metadata, budget) <==> budget >= 2
    decreases n, 0
  {
    TowerChild(c, leaf, n - 1, budget - 6);
    TowerRun(c, leaf, n);
    TowerStep(OutcomeOf(c, Tower(leaf, n - 1)), budget);
  }

  lemma {:induction false} TowerChild(c: Codec, leaf: Prim, n: nat, budget: int)
    requires SoundLeaf(leaf) && n <= 10
    ensures TowerFits(OutcomeOf(c, Tower(leaf, n)), n, budget)
    decreases n, 1
  {
    TowerConfigured(c, leaf, n);
    if n > 0 {
      TowerDepth(c, leaf, n, VALUE_DEPTH);
      TowerDepth(c, leaf, n, budget);
    }
  }

  /** The formula alone does not decide: around a valid leaf, composites nested up to eleven deep are
      valid, and deeper ones are not, although configured and although their formula holds. */
  lemma {:induction false} TowerExact(c: Codec, leaf: Prim, n: nat)
    requires SoundLeaf(leaf) && n > 0
    ensures Run(c, Tower(leaf, n)).valid <==> n <= 11
    ensures Accepted(c, Tower(leaf, n)) <==> n <= 10
    ensures ConfigOk(c, Tower(leaf, n)) && Formula(Tower(leaf, n))
    decreases n
  {
    TowerConfigured(c, leaf, n);
    if n <= 11 {
      TowerDepth(c, leaf, n, VALUE_DEPTH);
    } else {
      TowerExact(c, leaf, n - 1);
      VerdictExact(c, Tower(leaf, n));
      assert Accepting(c, [Tower(leaf, n - 1)]) == 0;
    }
  }

  // ---------------------------------------------------------------- improvements

  /** The same tree with some leaves turned from invalid to valid. */
  predicate Improves(p: Prim, q: Prim)
    decreases p
  {
    match (p, q)
    case (NilPrim(_), NilPrim(_)) => p == q
    case (Leaf(_, _, _, _, _, _, _, _, _), Leaf(_, _, _, _, _, _, _, answer, text)) =>
      q == p.(answer := answer, text := text) && (Formula(p) ==> Formula(q))
    case (Sequential(a, ps, _), Sequential(b, qs, _)) => a == b && ImproveAll(ps, qs)
    case (Parallel(a, ps, _), Parallel(b, qs, _)) => a == b && ImproveAll(ps, qs)
    case (AtLeast(a, k, ps, _), AtLeast(b, l, qs, _)) => a == b && k == l && ImproveAll(ps, qs)
    case _ => false
  }

  predicate ImproveAll(ps: seq<Prim>, qs: seq<Prim>)
    decreases ps
  {
    |ps| == |qs| && forall i :: 0 <= i < |ps| ==> Improves(ps[i], qs[i])
  }

  lemma {:induction false} FormulaMonotone(p: Prim, q: Prim)
    requires Improves(p, q) && Formula(p)
    ensures Formula(q)
    decreases p, 1
  {
    if p.Composite() {
      HoldingMonotone(p.children, q.children);
      FormulaNeeds(p);
      FormulaNeeds(q);
    }
  }

  lemma {:induction false} HoldingMonotone(ps: seq<Prim>, qs: seq<Prim>)
    requires ImproveAll(ps, qs)
    ensures Holding(ps) <= Holding(qs)
    decreases ps, 0
  {
    if |ps| > 0 {
      if Formula(ps[0]) { FormulaMonotone(ps[0], qs[0]); }
      HoldingMonotone(ps[1..], qs[1..]);
    }
  }

  /** What a tree is called does not depend on what its leaves return. */
  lemma {:induction false} ImprovesDescribes(c: Codec, p: Prim, q: Prim)
    requires Improves(p, q)
    ensures Describe(c, p) == Describe(c, q) && Reference(p) == Reference(q)
    ensures p.Composite() ==> (ConfigOk(c, p) <==> ConfigOk(c, q))
    decreases p, 1
  {
    if p.Composite() {
      ImproveAllDescribes(c, p.children, q.children);
      SameChildrenDescribe(c, p, q);
    }
  }

  lemma SameChildrenDescribe(c: Codec, p: Prim, q: Prim)
    requires p.Composite() && Improves(p, q) && DescribeAll(c, p.children) == DescribeAll(c, q.children)
    requires forall i :: 0 <= i < |p.children| ==> Reference(p.children[i]) == Reference(q.children[i])
    ensures Describe(c, p) == Describe(c, q) && (ConfigOk(c, p) <==> ConfigOk(c, q))
  {
    assert |p.children| == |q.children| && Type(p) == Type(q) && Bound(p) == Bound(q);
    assert DistinctRefs(p.children) <==> DistinctRefs(q.children);
    assert ConfigOk(c, p) <==> ConfigOk(c, q);
    assert Version(c, p) == Version(c, q);
  }

  lemma {:induction false} ImproveAllDescribes(c: Codec, ps: seq<Prim>, qs: seq<Prim>)
    requires ImproveAll(ps, qs)
    ensures DescribeAll(c, ps) == DescribeAll(c, qs)
    ensures forall i :: 0 <= i < |ps| ==> Reference(ps[i]) == Reference(qs[i])
    decreases ps, 0
  {
    if |ps| > 0 {
      ImprovesDescribes(c, ps[0], qs[0]);
      ImproveAllDescribes(c, ps[1..], qs[1..]);
    }
  }

  /** Improving leaves keeps a valid composite valid exactly when the improved tree survives its depth:
      a leaf that turns valid may let evidence in that is too deep for a composite above it. */
  lemma VerdictMonotone(c: Codec, p: Prim, q: Prim)
    requires p.Composite() && Improves(p, q) && Run(c, p).valid
    ensures Run(c, q).valid <==> Survives(q)
  {
    NeverMoreThanFormula(c, p);
    FormulaMonotone(p, q);
    ImprovesDescribes(c, p, q);
    VerdictExact(c, p);
    Meaning(c, q);
  }

  // ---------------------------------------------------------------- an improvement that loses the verdict

  /** A named leaf answering with that much evidence. */
  function Probe(name: string, valid: bool, nest: nat): Prim {
    Leaf("main.probe@main", None, true, Some(name), Some("1"), Some(""), Some(""),
         Answered(Normal(valid, MapT(MAP_TYPE, map[]), BoxedNest(nest))), "")
  }

  lemma ProbeFacts(c: Codec, name: string, valid: bool, nest: nat, budget: int)
    requires name in {"w", "x", "y", "z"} && nest <= 32
    ensures var p := Probe(name, valid, nest);
      && Describe(c, p).ok && Describe(c, p).d.identity == "name:" + name && WellFormed(p)
      && (Formula(p) <==> valid) && (Counts(p) <==> valid)
      && (Recorded(p, budget) <==> budget >= 2 * nest)
  {
    BoxedNestFacts(nest, budget);
    BoxedNestFacts(nest, VALUE_DEPTH);
  }

  /** A threshold that asks for one of x and q, inside a conjunction. */
  function Either(q: Prim): Prim {
    Sequential(0, [AtLeast(1, 1, [Probe("x", true, 0), q], "")], "")
  }

  lemma EitherConfigured(c: Codec, q: Prim)
    requires Describe(c, q).ok && Describe(c, q).d.identity != "name:x"
    ensures ConfigOk(c, Either(q)) && Formula(Either(q))
  {
    var a := Either(q).children[0];
    ChoiceConfigured(c, a, q);
    ChoiceFormula(a, q);
    WrapConfigured(c, Either(q), a);
  }

  lemma ChoiceConfigured(c: Codec, a: Prim, q: Prim)
    requires a == AtLeast(1, 1, [Probe("x", true, 0), q], "")
    requires Describe(c, q).ok && Describe(c, q).d.identity != "name:x"
    ensures Describe(c, a).ok
  {
    var x := Probe("x", true, 0);
    ProbeFacts(c, "x", true, 0, 0);
    ChoiceOk(c, a, x, q);
  }

  lemma ChoiceOk(c: Codec, a: Prim, x: Prim, q: Prim)
    requires a.AtLeast? && a.k == 1 && a.children == [x, q] && Reference(x).None?
    requires Describe(c, x).ok && Describe(c, q).ok && Describe(c, x).d.identity != Describe(c, q).d.identity
    ensures ConfigOk(c, a)
  {
    assert DescribeAll(c, a.children) == [Describe(c, x), Describe(c, q)];
  }

  lemma ChoiceFormula(a: Prim, q: Prim)
    requires a == AtLeast(1, 1, [Probe("x", true, 0), q], "")
    ensures Formula(a)
  {
    assert Holding(a.children) == 1 + Holding(a.children[1..]);
  }

  /** x is accepted, so the verdict hangs on whether the threshold's evidence, q's included, is normalised. */
  lemma EitherSound(c: Codec, q: Prim)
    ensures Sound(Either(q)) <==> Recorded(q, VALUE_DEPTH - 6)
  {
    var x, a := Probe("x", true, 0), Either(q).children[0];
    ProbeFacts(c, "x", true, 0, VALUE_DEPTH - 6);
    assert Counting([x, q]) == 1 + Counting([q]);
    assert a.children[0] == x && a.children[1] == q;
    assert Compact(a, VALUE_DEPTH) <==> Recorded(q, VALUE_DEPTH - 6);
    assert Counting([a]) == (if Counts(a) then 1 else 0) + Counting([]);
  }

  lemma EitherRuns(c: Codec, q: Prim)
    requires Describe(c, q).ok && Describe(c, q).d.identity != "name:x"
    ensures ConfigOk(c, Either(q)) && Formula(Either(q)) && (Run(c, Either(q)).valid <==> Recorded(q, VALUE_DEPTH - 6))
  {
    EitherConfigured(c, q);
    EitherSound(c, q);
    DepthExact(c, Either(q), VALUE_DEPTH);
  }

  lemma EitherWellFormed(q: Prim)
    requires WellFormed(q)
    ensures WellFormed(Either(q))
  {
    BoxedNestFacts(0, VALUE_DEPTH);
    assert WellFormed(Probe("x", true, 0));
    assert WellFormed(Either(q).children[0]);
  }

  lemma EitherImproves(q: Prim, r: Prim)
    requires Improves(q, r) && WellFormed(q) && WellFormed(r)
    ensures Improves(Either(q), Either(r)) && WellFormed(Either(q)) && WellFormed(Either(r))
  {
    EitherWellFormed(q);
    EitherWellFormed(r);
    var a, b := Either(q).children[0], Either(r).children[0];
    assert Improves(Probe("x", true, 0), Probe("x", true, 0));
    assert ImproveAll(a.children, b.children);
    assert Improves(a, b);
  }

  /** The improvement keeps everything but the verdict. */
  ghost predicate Loses(c: Codec, p: Prim, q: Prim)
    requires p.Composite() && q.Composite()
  {
    && Improves(p, q) && WellFormed(p) && WellFormed(q) && ConfigOk(c, q) && Formula(q)
    && Run(c, p).valid && !Run(c, q).valid
  }

  lemma EitherLoses(c: Codec, q: Prim, r: Prim)
    requires Improves(q, r) && WellFormed(q) && WellFormed(r)
    requires Describe(c, q).ok && Describe(c, q).d.identity != "name:x" && Recorded(q, VALUE_DEPTH - 6)
    requires Describe(c, r).ok && Describe(c, r).d.identity != "name:x" && !Recorded(r, VALUE_DEPTH - 6)
    ensures Loses(c, Either(q), Either(r))
  {
    EitherImproves(q, r);
    EitherRuns(c, q);
    EitherRuns(c, r);
  }

  /** One leaf turns from a shallow denial to a valid result with 64 steps of evidence: the whole stays
      configured and its formula true, and its verdict is lost. */
  lemma DeepAnswerLosesVerdict(c: Codec)
    ensures Loses(c, Either(Probe("y", false, 0)), Either(Probe("y", true, 32)))
  {
    ProbeFacts(c, "y", false, 0, VALUE_DEPTH - 6);
    ProbeFacts(c, "y", true, 32, VALUE_DEPTH - 6);
    assert "name:y"[5] != "name:x"[5];
    EitherLoses(c, Probe("y", false, 0), Probe("y", true, 32));
  }

  /** z, and w behind it: w is evaluated only when z is valid. */
  function Guarded(valid: bool): Prim {
    Sequential(2, [Probe("z", valid, 0), Probe("w", true, 29)], "")
  }

  lemma PairConfigured(c: Codec, p: Prim, x: Prim, y: Prim)
    requires p.Sequential? && p.children == [x, y] && Describe(c, x).ok && Describe(c, y).ok
    ensures Describe(c, p).ok && Describe(c, p).d.identity != "name:x"
  {
    assert DescribeAll(c, p.children) == [Describe(c, x), Describe(c, y)];
    UnnamedIdentity(c, p);
  }

  lemma UnnamedIdentity(c: Codec, p: Prim)
    requires p.Composite() && ConfigOk(c, p)
    ensures Describe(c, p).ok && Describe(c, p).d.identity != "name:x"
  {
    assert ("type:" + Type(p))[0] == 't' && "name:x"[0] == 'n';
  }

  lemma PairReach(p: Prim, x: Prim, y: Prim)
    requires p.Sequential? && p.children == [x, y]
    ensures Evaluated(p) == if Counts(x) then 2 else 1
    ensures forall b :: Compact(p, b) <==> b >= 6 && Recorded(x, b - 6) && (Counts(x) ==> Recorded(y, b - 6))
  {
    assert p.children[0] == x && p.children[1] == y && p.children[1..] == [y] && [y][1..] == [];
  }

  lemma GuardedRecorded(c: Codec, valid: bool)
    ensures Recorded(Guarded(valid), VALUE_DEPTH - 6) <==> !valid
  {
    var z, w := Probe("z", valid, 0), Probe("w", true, 29);
    PairReach(Guarded(valid), z, w);
    ProbeFacts(c, "z", valid, 0, VALUE_DEPTH - 6);
    ProbeFacts(c, "z", valid, 0, VALUE_DEPTH - 12);
    ProbeFacts(c, "w", true, 29, VALUE_DEPTH - 6);
    ProbeFacts(c, "w", true, 29, VALUE_DEPTH - 12);
    assert Compact(Guarded(valid), VALUE_DEPTH);
    assert Compact(Guarded(valid), VALUE_DEPTH - 6) <==> !valid;
  }

  lemma GuardedFacts(c: Codec, valid: bool)
    ensures Describe(c, Guarded(valid)).ok && Describe(c, Guarded(valid)).d.identity != "name:x"
    ensures WellFormed(Guarded(valid))
  {
    ProbeFacts(c, "z", valid, 0, 0);
    ProbeFacts(c, "w", true, 29, 0);
    PairConfigured(c, Guarded(valid), Probe("z", valid, 0), Probe("w", true, 29));
  }

  /** A single `valid` bit, with all data unchanged, does the same: z lets w in, whose evidence is then too
      deep for the threshold's. */
  lemma OneBitLosesVerdict(c: Codec)
    ensures Loses(c, Either(Guarded(false)), Either(Guarded(true)))
  {
    GuardedFacts(c, false);
    GuardedFacts(c, true);
    GuardedRecorded(c, false);
    GuardedRecorded(c, true);
    GuardedImproves();
    EitherLoses(c, Guarded(false), Guarded(true));
  }

  lemma GuardedImproves()
    ensures Improves(Guarded(false), Guarded(true))
  {
    assert Improves(Probe("z", false, 0), Probe("z", true, 0)) && Improves(Probe("w", true, 29), Probe("w", true, 29));
    assert ImproveAll(Guarded(false).children, Guarded(true).children);
  }
}
