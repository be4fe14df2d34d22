/** One primitive, many evaluations (core/composition_operators.go): what may differ from one to the next
    is the text of a failure, which Go's map iteration picks. */
module CompositionTexts {
  import opened Values
  import opened Frames
  import opened PrimitiveContracts
  import opened ResultNormalizer
  import opened ProofTheory
  import opened Descriptors
  import opened Composition
  import opened CompositionMeaning
  import opened CompositionDepth

  function WithText(p: Prim, text: string): Prim {
    match p
    case NilPrim(_) => p
    case Leaf(typ, ref, named, name, version, source, configuration, answer, _) =>
      Leaf(typ, ref, named, name, version, source, configuration, answer, text)
    case Sequential(pointer, ps, _) => Sequential(pointer, ps, text)
    case Parallel(pointer, ps, _) => Parallel(pointer, ps, text)
    case AtLeast(pointer, k, ps, _) => AtLeast(pointer, k, ps, text)
  }

  /** The primitive itself, without what one evaluation of it picked. */
  function Bare(p: Prim): (b: Prim)
    ensures (b.Sequential? <==> p.Sequential?) && (b.Parallel? <==> p.Parallel?) && (b.AtLeast? <==> p.AtLeast?)
    decreases p, 1
  {
    match p
    case NilPrim(_) => p
    case Leaf(_, _, _, _, _, _, _, _, _) => WithText(p, "")
    case Sequential(pointer, ps, _) => Sequential(pointer, BareAll(ps), "")
    case Parallel(pointer, ps, _) => Parallel(pointer, BareAll(ps), "")
    case AtLeast(pointer, k, ps, _) => AtLeast(pointer, k, BareAll(ps), "")
  }

  function BareAll(ps: seq<Prim>): (r: seq<Prim>)
    ensures |r| == |ps| && forall i :: 0 <= i < |ps| ==> r[i] == Bare(ps[i])
    decreases ps, 0
  {
    if |ps| == 0 then [] else [Bare(ps[0])] + BareAll(ps[1..])
  }

  function WithChildren(p: Prim, ps: seq<Prim>): (q: Prim)
    requires p.Composite()
    ensures q.Composite() && q.children == ps
  {
    match p
    case Sequential(pointer, _, text) => Sequential(pointer, ps, text)
    case Parallel(pointer, _, text) => Parallel(pointer, ps, text)
    case AtLeast(pointer, k, _, text) => AtLeast(pointer, k, ps, text)
  }

  /** Every failure in the evaluation has a text it may have. */
  ghost predicate Chosen(c: Codec, p: Prim)
    decreases p, 1
  {
    match p
    case NilPrim(_) => true
    case Leaf(_, _, _, _, _, _, _, answer, text) => answer.Broke? ==> text in answer.texts
    case _ => ChosenBelow(c, p) && (!Shallow(Run(c, p)) ==> p.text in NormalTexts(c, Run(c, p)))
  }

  ghost predicate ChosenBelow(c: Codec, p: Prim)
    requires p.Composite()
    decreases p, 0
  {
    forall i :: 0 <= i < |p.children| ==> Chosen(c, p.children[i])
  }

  /** q is an evaluation of the child p, its normalisation included. */
  ghost predicate Variant(c: Codec, p: Prim, q: Prim) {
    Bare(q) == Bare(p) && Chosen(c, q)
  }

  ghost predicate VariantAll(c: Codec, ps: seq<Prim>, qs: seq<Prim>) {
    |ps| == |qs| && forall i :: 0 <= i < |ps| ==> Variant(c, ps[i], qs[i])
  }

  /** q is an evaluation of the composite p. */
  ghost predicate Evaluation(c: Codec, p: Prim, q: Prim)
    requires p.Composite()
  {
    Bare(q) == Bare(p) && q.Composite() && ChosenBelow(c, q)
  }

  /** The composite's Evaluate may return n. */
  ghost predicate MayReturn(c: Codec, p: Prim, n: Normal)
    requires p.Composite()
  {
    exists q :: Evaluation(c, p, q) && Run(c, q) == n
  }

  /** A parent may record this of the child. */
  ghost predicate MayOutcome(c: Codec, p: Prim, o: Outcome) {
    exists q :: Variant(c, p, q) && OutcomeOf(c, q) == o
  }

  ghost predicate MayOutcomes(c: Codec, ps: seq<Prim>, os: seq<Outcome>) {
    |ps| == |os| && forall i :: 0 <= i < |ps| ==> MayOutcome(c, ps[i], os[i])
  }

  // ---------------------------------------------------------------- what all evaluations share

  lemma AlikeChildren(p: Prim, q: Prim)
    requires p.Composite() && Bare(p) == Bare(q)
    ensures q.Composite() && |p.children| == |q.children| && Type(p) == Type(q) && Bound(p) == Bound(q)
    ensures p.Sequential? == q.Sequential? && p.Parallel? == q.Parallel? && p.AtLeast? == q.AtLeast?
    ensures p.pointer == q.pointer && (p.AtLeast? ==> p.k == q.k)
    ensures forall i :: 0 <= i < |p.children| ==> Bare(p.children[i]) == Bare(q.children[i])
  {
    var ps, qs := BareAll(p.children), BareAll(q.children);
    assert ps == qs;
    forall i | 0 <= i < |p.children| ensures Bare(p.children[i]) == Bare(q.children[i]) {
      assert ps[i] == qs[i];
    }
  }

  lemma AlikeParts(p: Prim, q: Prim)
    requires p.Composite() && q.Composite() && |p.children| == |q.children| && p.pointer == q.pointer
    requires (p.Sequential? <==> q.Sequential?) && (p.Parallel? <==> q.Parallel?) && (p.AtLeast? ==> p.k == q.k)
    requires forall i :: 0 <= i < |p.children| ==> Bare(p.children[i]) == Bare(q.children[i])
    ensures Bare(p) == Bare(q)
  {
    assert BareAll(p.children) == BareAll(q.children);
  }

  /** What a primitive is called does not depend on the texts. */
  lemma {:induction false} AlikeDescribes(c: Codec, p: Prim, q: Prim)
    requires Bare(p) == Bare(q)
    ensures Describe(c, p) == Describe(c, q) && Reference(p) == Reference(q)
    ensures p.Composite() ==> (ConfigOk(c, p) <==> ConfigOk(c, q))
    decreases p
  {
    if p.Composite() {
      AlikeChildren(p, q);
      forall i | 0 <= i < |p.children|
        ensures Describe(c, p.children[i]) == Describe(c, q.children[i])
        ensures Reference(p.children[i]) == Reference(q.children[i])
      {
        AlikeDescribes(c, p.children[i], q.children[i]);
      }
      assert DescribeAll(c, p.children) == DescribeAll(c, q.children);
      SameParts(c, p, q);
    }
  }

  lemma SameParts(c: Codec, p: Prim, q: Prim)
    requires p.Composite() && q.Composite() && Bound(p) == Bound(q) && p.pointer == q.pointer
    requires p.Sequential? == q.Sequential? && p.Parallel? == q.Parallel?
    requires |p.children| == |q.children| && DescribeAll(c, p.children) == DescribeAll(c, q.children)
    requires forall i :: 0 <= i < |p.children| ==> Reference(p.children[i]) == Reference(q.children[i])
    ensures Describe(c, p) == Describe(c, q) && Reference(p) == Reference(q) && (ConfigOk(c, p) <==> ConfigOk(c, q))
  {
    SameConfig(c, p, q);
    assert Version(c, p) == Version(c, q);
    SameDescribed(c, p, q);
  }

  lemma SameConfig(c: Codec, p: Prim, q: Prim)
    requires p.Composite() && q.Composite() && Bound(p) == Bound(q) && p.AtLeast? == q.AtLeast?
    requires |p.children| == |q.children| && DescribeAll(c, p.children) == DescribeAll(c, q.children)
    requires forall i :: 0 <= i < |p.children| ==> Reference(p.children[i]) == Reference(q.children[i])
    ensures ConfigOk(c, p) <==> ConfigOk(c, q)
  {
    assert DistinctRefs(p.children) <==> DistinctRefs(q.children);
  }

  lemma SameDescribed(c: Codec, p: Prim, q: Prim)
    requires p.Composite() && q.Composite() && Type(p) == Type(q) && Version(c, p) == Version(c, q)
    requires ConfigOk(c, p) <==> ConfigOk(c, q)
    ensures Describe(c, p) == Describe(c, q)
  {
  }

  lemma {:induction false} AlikeWellFormed(p: Prim, q: Prim)
    requires Bare(p) == Bare(q) && WellFormed(p)
    ensures WellFormed(q)
  {
    if p.Composite() {
      AlikeChildren(p, q);
      forall i | 0 <= i < |q.children| { AlikeWellFormed(p.children[i], q.children[i]); }
    }
  }

  /** The text of its own failure does not change what a composite returns. */
  lemma RunIgnoresText(c: Codec, p: Prim, text: string)
    requires p.Composite()
    ensures Run(c, WithText(p, text)) == Run(c, p) && Bare(WithText(p, text)) == Bare(p)
  {
    var q := WithText(p, text);
    AlikeParts(p, q);
    AlikeDescribes(c, p, q);
  }

  /** Neither do texts change verdict or depth. */
  lemma {:induction false} AlikeDepth(p: Prim, q: Prim, budget: int)
    requires Bare(p) == Bare(q)
    ensures Counts(p) == Counts(q) && Recorded(p, budget) == Recorded(q, budget) && Formula(p) == Formula(q)
    ensures p.Composite() ==>
      Sound(p) == Sound(q) && Compact(p, budget) == Compact(q, budget) && Evaluated(p) == Evaluated(q)
    decreases p, 1
  {
    if p.Composite() {
      AlikeChildren(p, q);
      AlikeCompact(p, q, budget);
      AlikeCompact(p, q, VALUE_DEPTH);
    }
  }

  lemma {:induction false} AlikeCompact(p: Prim, q: Prim, budget: int)
    requires p.Composite() && Bare(p) == Bare(q)
    ensures Sound(p) == Sound(q) && Compact(p, budget) == Compact(q, budget) && Evaluated(p) == Evaluated(q)
    ensures Formula(p) == Formula(q)
    decreases p, 0
  {
    AlikeChildren(p, q);
    forall i | 0 <= i < |p.children|
      ensures Counts(p.children[i]) == Counts(q.children[i]) && Formula(p.children[i]) == Formula(q.children[i])
      ensures Recorded(p.children[i], budget - 6) == Recorded(q.children[i], budget - 6)
    {
      AlikeDepth(p.children[i], q.children[i], budget - 6);
    }
    SameCounting(p.children, q.children);
    FormulaNeeds(p);
    FormulaNeeds(q);
  }

  lemma {:induction false} SameCounting(ps: seq<Prim>, qs: seq<Prim>)
    requires |ps| == |qs|
    requires forall i :: 0 <= i < |ps| ==> Counts(ps[i]) == Counts(qs[i]) && Formula(ps[i]) == Formula(qs[i])
    ensures Counting(ps) == Counting(qs) && Reach(ps) == Reach(qs) && Holding(ps) == Holding(qs)
  {
    if |ps| > 0 {
      SameCounting(ps[1..], qs[1..]);
    }
  }

  /** Whatever texts the failures get, the verdict of a composite is the same, and so is whether its
      result survives normalisation. */
  lemma VerdictFixed(c: Codec, p: Prim, q: Prim)
    requires p.Composite() && Bare(p) == Bare(q)
    ensures q.Composite()
    ensures Run(c, p).valid == Run(c, q).valid && Shallow(Run(c, p)) == Shallow(Run(c, q))
  {
    AlikeDescribes(c, p, q);
    if ConfigOk(c, p) {
      AlikeDepth(p, q, VALUE_DEPTH);
      VerdictFromTree(c, p);
      VerdictFromTree(c, q);
    } else {
      assert Run(c, p) == Run(c, q);
    }
  }

  lemma VerdictFromTree(c: Codec, p: Prim)
    requires p.Composite() && ConfigOk(c, p)
    ensures Run(c, p).valid == Sound(p) && Shallow(Run(c, p)) == Compact(p, VALUE_DEPTH)
  {
    DepthExact(c, p, VALUE_DEPTH);
  }

  // ---------------------------------------------------------------- there is an evaluation

  lemma {:induction false} Resolve(c: Codec, p: Prim) returns (q: Prim)
    requires WellFormed(p)
    ensures Variant(c, p, q)
    decreases p, 1
  {
    match p
    case NilPrim(_) => q := p;
    case Leaf(_, _, _, _, _, _, _, Answered(_), _) => q := p;
    case Leaf(_, _, _, _, _, _, _, Broke(texts), _) =>
      var text :| text in texts;
      q := WithText(p, text);
    case _ =>
      var qs := ResolveAll(c, p.children);
      q := Finished(c, p, qs);
  }

  /** An evaluation of a composite gets a text if its result does not normalise. */
  lemma Finished(c: Codec, p: Prim, qs: seq<Prim>) returns (q: Prim)
    requires p.Composite() && WellFormed(p) && VariantAll(c, p.children, qs)
    ensures Variant(c, p, q) && Evaluation(c, p, WithChildren(p, qs))
  {
    var e := WithChildren(p, qs);
    AlikeParts(p, e);
    AlikeWellFormed(p, e);
    ObserveIsNormalisation(c, e);
    if Shallow(Run(c, e)) {
      q := e;
    } else {
      var text :| text in NormalTexts(c, Run(c, e));
      q := WithText(e, text);
      RunIgnoresText(c, e, text);
    }
  }

  lemma {:induction false} ResolveAll(c: Codec, ps: seq<Prim>) returns (qs: seq<Prim>)
    requires forall i :: 0 <= i < |ps| ==> WellFormed(ps[i])
    ensures VariantAll(c, ps, qs)
    decreases ps, 0
  {
    if |ps| == 0 {
      qs := [];
    } else {
      var q := Resolve(c, ps[0]);
      var rest := ResolveAll(c, ps[1..]);
      qs := [q] + rest;
    }
  }
}
