/** When a composite returns one result (core/composition_operators.go), and when the texts of its
    children's failures give it several. */
module CompositionResults {
  import opened Values
  import opened Frames
  import opened Order
  import opened PrimitiveContracts
  import opened ResultNormalizer
  import opened ProofTheory
  import opened Descriptors
  import opened Composition
  import opened CompositionMeaning
  import opened CompositionDepth
  import opened CompositionTexts
  import opened CompositionOrder

  /** All evaluations of the composite return the same. */
  ghost predicate OneResult(c: Codec, p: Prim)
    requires p.Composite()
  {
    forall e, f :: Evaluation(c, p, e) && Evaluation(c, p, f) ==> Run(c, e) == Run(c, f)
  }

  /** A parent always sees the same of the child. */
  ghost predicate OneOutcome(c: Codec, p: Prim) {
    forall q, r :: Variant(c, p, q) && Variant(c, p, r) ==> OutcomeOf(c, q) == OutcomeOf(c, r)
  }

  // ---------------------------------------------------------------- what a result tells of the children

  lemma NotedPrefix(c: Codec, e: Prim)
    requires e.Composite() && ConfigOk(c, e)
    ensures Noted(e, Outcomes(c, e.children)) == Outcomes(c, e.children)[..Evaluated(e)]
  {
    var os := Outcomes(c, e.children);
    if e.Sequential? {
      ConfiguredChildren(c, e);
      forall i | 0 <= i < |os| ensures os[i].result.valid <==> Counts(e.children[i]) {
        ChildExact(c, e.children[i], 0);
      }
      LeadingReach(e.children, os);
    }
  }

  lemma RunEvidence(c: Codec, e: Prim)
    requires e.Composite() && ConfigOk(c, e)
    ensures Run(c, e).evidence == Evidence(Noted(e, Outcomes(c, e.children)), !e.Sequential?)
  {
    RunIs(c, e);
  }

  lemma RunFromNoted(c: Codec, e: Prim, f: Prim)
    requires e.Composite() && f.Composite() && ConfigOk(c, e) && ConfigOk(c, f)
    requires e.Sequential? == f.Sequential? && e.Parallel? == f.Parallel? && Bound(e) == Bound(f)
    requires Noted(e, Outcomes(c, e.children)) == Noted(f, Outcomes(c, f.children))
    ensures Run(c, e) == Run(c, f)
  {
    RunIs(c, e);
    RunIs(c, f);
  }

  /** The descriptors noted are those of the children, whatever they return. */
  lemma NotedDescriptors(c: Codec, p: Prim, e: Prim)
    requires p.Composite() && ConfigOk(c, p) && Evaluation(c, p, e)
    ensures ConfigOk(c, e) && |e.children| == |p.children| && Evaluated(e) == Evaluated(p)
    ensures Noted(e, Outcomes(c, e.children)) == Outcomes(c, e.children)[..Evaluated(p)]
    ensures forall i :: 0 <= i < Evaluated(p) ==>
      Outcomes(c, e.children)[i].descriptor == Describe(c, p.children[i]).d
  {
    AlikeDescribes(c, p, e);
    AlikeDepth(p, e, 0);
    AlikeChildren(p, e);
    NotedPrefix(c, e);
    forall i | 0 <= i < Evaluated(p)
      ensures Outcomes(c, e.children)[i].descriptor == Describe(c, p.children[i]).d
    {
      OutcomeDescriptor(c, e.children[i]);
      AlikeDescribes(c, p.children[i], e.children[i]);
    }
  }

  lemma NotedAlike(c: Codec, p: Prim, e: Prim, f: Prim)
    requires p.Composite() && ConfigOk(c, p) && Evaluation(c, p, e) && Evaluation(c, p, f)
    ensures ConfigOk(c, e) && ConfigOk(c, f) && |e.children| == |f.children| == |p.children|
    ensures e.Sequential? == f.Sequential? && e.Parallel? == f.Parallel? && Bound(e) == Bound(f)
    ensures Noted(e, Outcomes(c, e.children)) == Outcomes(c, e.children)[..Evaluated(p)]
    ensures Noted(f, Outcomes(c, f.children)) == Outcomes(c, f.children)[..Evaluated(p)]
    ensures OutcomeDescriptors(Outcomes(c, e.children)[..Evaluated(p)])
         == OutcomeDescriptors(Outcomes(c, f.children)[..Evaluated(p)])
  {
    NotedDescriptors(c, p, e);
    NotedDescriptors(c, p, f);
    AlikeChildren(e, f);
    SamePrefix(Outcomes(c, e.children), Outcomes(c, f.children), Evaluated(p));
  }

  lemma SamePrefix(s: seq<Outcome>, t: seq<Outcome>, n: nat)
    requires n <= |s| && n <= |t| && forall i :: 0 <= i < n ==> s[i].descriptor == t[i].descriptor
    ensures OutcomeDescriptors(s[..n]) == OutcomeDescriptors(t[..n])
  {
  }

  lemma SameOutcomes(c: Codec, p: Prim, e: Prim, f: Prim, n: nat)
    requires p.Composite() && Evaluation(c, p, e) && Evaluation(c, p, f) && n <= |p.children|
    requires forall i :: 0 <= i < n ==> OneOutcome(c, p.children[i])
    ensures |e.children| == |f.children| == |p.children|
    ensures Outcomes(c, e.children)[..n] == Outcomes(c, f.children)[..n]
  {
    AlikeChildren(p, e);
    AlikeChildren(p, f);
    forall i | 0 <= i < n ensures OutcomeOf(c, e.children[i]) == OutcomeOf(c, f.children[i]) {
      assert Variant(c, p.children[i], e.children[i]) && Variant(c, p.children[i], f.children[i]);
    }
    SameImages(c, e.children, f.children, n);
  }

  lemma SameImages(c: Codec, ps: seq<Prim>, qs: seq<Prim>, n: nat)
    requires n <= |ps| && n <= |qs| && forall i :: 0 <= i < n ==> OutcomeOf(c, ps[i]) == OutcomeOf(c, qs[i])
    ensures Outcomes(c, ps)[..n] == Outcomes(c, qs)[..n]
  {
  }

  lemma SameRuns(c: Codec, p: Prim, e: Prim, f: Prim)
    requires p.Composite() && ConfigOk(c, p) && Evaluation(c, p, e) && Evaluation(c, p, f)
    requires forall i :: 0 <= i < Evaluated(p) ==> OneOutcome(c, p.children[i])
    ensures Run(c, e) == Run(c, f)
  {
    NotedAlike(c, p, e, f);
    SameOutcomes(c, p, e, f, Evaluated(p));
    RunFromNoted(c, e, f);
  }

  lemma OneChanged<A>(s: seq<A>, i: nat, x: A)
    requires i < |s| && multiset(s) == multiset(s[i := x])
    ensures s[i] == x
  {
    assert multiset(s[i := x]) == multiset(s) - multiset{s[i]} + multiset{x};
  }

  lemma NotedTell(c: Codec, e: Prim, f: Prim, s: seq<Outcome>, t: seq<Outcome>)
    requires e.Composite() && f.Composite() && ConfigOk(c, e) && ConfigOk(c, f) && e.Sequential? == f.Sequential?
    requires s == Noted(e, Outcomes(c, e.children)) && t == Noted(f, Outcomes(c, f.children))
    requires OutcomeDescriptors(s) == OutcomeDescriptors(t) && Run(c, e) == Run(c, f)
    ensures multiset(s) == multiset(t) && (e.Sequential? ==> s == t)
  {
    RunEvidence(c, e);
    RunEvidence(c, f);
    if e.Sequential? {
      EntriesTell(s, t);
    } else {
      EvidenceTellsOrder(s, t);
    }
  }

  /** Two evaluations that return the same noted the same, up to order. */
  lemma NotedTold(c: Codec, p: Prim, e: Prim, f: Prim)
    requires p.Composite() && ConfigOk(c, p) && Evaluation(c, p, e) && Evaluation(c, p, f) && Run(c, e) == Run(c, f)
    ensures |e.children| == |f.children| == |p.children|
    ensures multiset(Outcomes(c, e.children)[..Evaluated(p)]) == multiset(Outcomes(c, f.children)[..Evaluated(p)])
  {
    NotedAlike(c, p, e, f);
    NotedTell(c, e, f, Outcomes(c, e.children)[..Evaluated(p)], Outcomes(c, f.children)[..Evaluated(p)]);
  }

  lemma OutcomesUpdated(c: Codec, qs: seq<Prim>, i: nat, q: Prim)
    requires i < |qs|
    ensures Outcomes(c, qs[i := q]) == Outcomes(c, qs)[i := OutcomeOf(c, q)]
  {
    var a, b := Outcomes(c, qs[i := q]), Outcomes(c, qs)[i := OutcomeOf(c, q)];
    forall j | 0 <= j < |qs| ensures a[j] == b[j] {
      assert a[j] == OutcomeOf(c, qs[i := q][j]);
    }
  }

  /** One child evaluated as q, and the others as in qs. */
  lemma ReplacedEvaluation(c: Codec, p: Prim, qs: seq<Prim>, i: nat, q: Prim)
    requires p.Composite() && VariantAll(c, p.children, qs) && i < |qs| && Variant(c, p.children[i], q)
    ensures Evaluation(c, p, WithChildren(p, qs[i := q]))
  {
    AlikeParts(p, WithChildren(p, qs[i := q]));
  }

  lemma SameReplaced(c: Codec, p: Prim, qs: seq<Prim>, i: nat, q: Prim, r: Prim)
    requires p.Composite() && ConfigOk(c, p) && OneResult(c, p) && VariantAll(c, p.children, qs) && i < Evaluated(p)
    requires Variant(c, p.children[i], q) && Variant(c, p.children[i], r)
    ensures OutcomeOf(c, q) == OutcomeOf(c, r)
  {
    ReplacedEvaluation(c, p, qs, i, q);
    ReplacedEvaluation(c, p, qs, i, r);
    NotedTold(c, p, WithChildren(p, qs[i := q]), WithChildren(p, qs[i := r]));
    OutcomesUpdated(c, qs, i, q);
    OutcomesUpdated(c, qs, i, r);
    PrefixChanged(Outcomes(c, qs), Evaluated(p), i, OutcomeOf(c, q), OutcomeOf(c, r));
  }

  lemma PrefixChanged<A>(s: seq<A>, n: nat, i: nat, x: A, y: A)
    requires i < n <= |s| && multiset(s[i := x][..n]) == multiset(s[i := y][..n])
    ensures x == y
  {
    assert s[i := y][..n] == s[i := x][..n][i := y];
    OneChanged(s[i := x][..n], i, y);
  }

  lemma ResultTellsChild(c: Codec, p: Prim, i: nat)
    requires p.Composite() && ConfigOk(c, p) && WellFormed(p) && OneResult(c, p) && i < Evaluated(p)
    ensures OneOutcome(c, p.children[i])
  {
    var qs := ResolveAll(c, p.children);
    forall q, r | Variant(c, p.children[i], q) && Variant(c, p.children[i], r)
      ensures OutcomeOf(c, q) == OutcomeOf(c, r)
    {
      SameReplaced(c, p, qs, i, q, r);
    }
  }

  /** A configured composite returns one result exactly when a parent sees one outcome of every child it
      evaluates. */
  lemma OneResultExact(c: Codec, p: Prim)
    requires p.Composite() && ConfigOk(c, p) && WellFormed(p)
    ensures OneResult(c, p) <==> forall i :: 0 <= i < Evaluated(p) ==> OneOutcome(c, p.children[i])
  {
    if OneResult(c, p) {
      forall i | 0 <= i < Evaluated(p) { ResultTellsChild(c, p, i); }
    }
    if forall i :: 0 <= i < Evaluated(p) ==> OneOutcome(c, p.children[i]) {
      forall e, f | Evaluation(c, p, e) && Evaluation(c, p, f) ensures Run(c, e) == Run(c, f) { SameRuns(c, p, e, f); }
    }
  }

  // ---------------------------------------------------------------- children

  ghost predicate AtMostOne(texts: set<string>) {
    forall s, t :: s in texts && t in texts ==> s == t
  }

  lemma LeafSeen(c: Codec, p: Prim, q: Prim)
    requires p.Leaf? && Describe(c, p).ok && Bare(q) == Bare(p)
    ensures q == WithText(p, q.text)
    ensures OutcomeOf(c, q) ==
      if p.answer.Answered? then Outcome(Describe(c, p).d, p.answer.n, None)
      else Outcome(Describe(c, p).d, Rejection(q.text), Some(q.text))
  {
    AlikeDescribes(c, p, q);
  }

  /** A leaf is seen one way exactly when its result normalises or fails with one text. */
  lemma LeafOneOutcome(c: Codec, p: Prim)
    requires p.Leaf? && Describe(c, p).ok
    ensures OneOutcome(c, p) <==> p.answer.Answered? || AtMostOne(p.answer.texts)
  {
    forall q | Variant(c, p, q)
      ensures q.Leaf? && OutcomeOf(c, q) ==
        if p.answer.Answered? then Outcome(Describe(c, p).d, p.answer.n, None)
        else Outcome(Describe(c, p).d, Rejection(q.text), Some(q.text))
      ensures p.answer.Broke? ==> q.text in p.answer.texts
    {
      LeafSeen(c, p, q);
    }
    if p.answer.Broke? {
      forall s | s in p.answer.texts ensures Variant(c, p, WithText(p, s)) && WithText(p, s).text == s {}
    }
  }

  /** The composite's own result may fail to normalise with this text. */
  ghost predicate MayFailWith(c: Codec, p: Prim, text: string)
    requires p.Composite()
  {
    exists e :: Evaluation(c, p, e) && text in NormalTexts(c, Run(c, e))
  }

  ghost predicate OneText(c: Codec, p: Prim)
    requires p.Composite()
  {
    forall s, t :: MayFailWith(c, p, s) && MayFailWith(c, p, t) ==> s == t
  }

  /** A composite child is seen one way exactly when it returns one result, or, when that is too deep to
      normalise, fails with one text. */
  lemma CompositeOneOutcome(c: Codec, p: Prim)
    requires p.Composite() && ConfigOk(c, p)
    ensures OneOutcome(c, p) <==> if Compact(p, VALUE_DEPTH) then OneResult(c, p) else OneText(c, p)
  {
    VerdictFromTree(c, p);
    if Compact(p, VALUE_DEPTH) {
      CompactSeen(c, p);
    } else {
      TextSeen(c, p);
    }
  }

  lemma Seen(c: Codec, p: Prim, q: Prim)
    requires p.Composite() && ConfigOk(c, p) && Bare(q) == Bare(p)
    ensures q.Composite() && Shallow(Run(c, q)) == Shallow(Run(c, p))
    ensures OutcomeOf(c, q) == ChildOutcome(Describe(c, p).d,
      if Shallow(Run(c, p)) then Returned(Run(c, q)) else Failed(q.text), Describe(c, p))
  {
    AlikeDescribes(c, p, q);
    VerdictFixed(c, p, q);
  }

  lemma CompactSeen(c: Codec, p: Prim)
    requires p.Composite() && ConfigOk(c, p) && Shallow(Run(c, p))
    ensures OneOutcome(c, p) <==> OneResult(c, p)
  {
    forall e | Evaluation(c, p, e)
      ensures Variant(c, p, e) && OutcomeOf(c, e) == Outcome(Describe(c, p).d, Run(c, e), None)
    {
      Seen(c, p, e);
    }
    forall q | Variant(c, p, q)
      ensures Evaluation(c, p, q) && OutcomeOf(c, q) == Outcome(Describe(c, p).d, Run(c, q), None)
    {
      Seen(c, p, q);
    }
  }

  lemma TextSeen(c: Codec, p: Prim)
    requires p.Composite() && ConfigOk(c, p) && !Shallow(Run(c, p))
    ensures OneOutcome(c, p) <==> OneText(c, p)
  {
    forall s | MayFailWith(c, p, s)
      ensures exists q :: Variant(c, p, q) && OutcomeOf(c, q) == Outcome(Describe(c, p).d, Rejection(s), Some(s))
    {
      var q := FailsAs(c, p, s);
    }
    forall q | Variant(c, p, q)
      ensures OutcomeOf(c, q) == Outcome(Describe(c, p).d, Rejection(q.text), Some(q.text))
      ensures MayFailWith(c, p, q.text)
    {
      Seen(c, p, q);
      assert Evaluation(c, p, q);
    }
  }

  lemma FailsAs(c: Codec, p: Prim, s: string) returns (q: Prim)
    requires p.Composite() && ConfigOk(c, p) && !Shallow(Run(c, p)) && MayFailWith(c, p, s)
    ensures Variant(c, p, q) && OutcomeOf(c, q) == Outcome(Describe(c, p).d, Rejection(s), Some(s))
  {
    var e :| Evaluation(c, p, e) && s in NormalTexts(c, Run(c, e));
    q := WithText(e, s);
    RunIgnoresText(c, e, s);
    Seen(c, p, q);
  }

  /** Every leaf normalises or fails at one place, and every composite below normalises. */
  ghost predicate Settled(p: Prim)
    decreases p
  {
    match p
    case NilPrim(_) => true
    case Leaf(_, _, _, _, _, _, _, answer, _) =>
      answer.Answered? || AtMostOne(answer.texts)
    case _ => Compact(p, VALUE_DEPTH) && forall i :: 0 <= i < |p.children| ==> Settled(p.children[i])
  }

  /** Then a composite returns one result. */
  lemma {:induction false} SettledOneResult(c: Codec, p: Prim)
    requires p.Composite() && ConfigOk(c, p) && WellFormed(p)
    requires forall i :: 0 <= i < |p.children| ==> Settled(p.children[i])
    ensures OneResult(c, p)
    decreases p
  {
    ConfiguredChildren(c, p);
    forall i | 0 <= i < |p.children| ensures OneOutcome(c, p.children[i]) {
      var q := p.children[i];
      if q.Composite() {
        SettledOneResult(c, q);
        CompositeOneOutcome(c, q);
      } else {
        LeafOneOutcome(c, q);
      }
    }
    OneResultExact(c, p);
  }

  // ---------------------------------------------------------------- ties, child by child

  /** A parent may see the child fail with this text. */
  ghost predicate MayShow(c: Codec, p: Prim, text: string) {
    exists q :: Variant(c, p, q) && OutcomeOf(c, q).error == Some(text)
  }

  /** The child always returns what a failure with this text is recorded with. */
  predicate Denies(p: Prim, text: string) {
    p.Leaf? && p.answer == Answered(Rejection(text))
  }

  ghost predicate MayTie(c: Codec, x: Prim, y: Prim, text: string) {
    Describe(c, x).d == Describe(c, y).d && Denies(y, text) && MayShow(c, x, text)
  }

  /** What ParallelOrderExact asks of all evaluations, asked of the children one by one. */
  lemma NeverTiesExact(c: Codec, p: Prim)
    requires p.Composite() && ConfigOk(c, p) && WellFormed(p)
    ensures NeverTies(c, p) <==> forall x, y, text :: x in p.children && y in p.children ==> !MayTie(c, x, y, text)
  {
    if x, y, text :| x in p.children && y in p.children && MayTie(c, x, y, text) {
      TieReached(c, p, x, y, text);
    } else {
      forall e | Evaluation(c, p, e) ensures NoMixedTie(Outcomes(c, e.children)) { NoTieReached(c, p, e); }
    }
  }

  lemma TieReached(c: Codec, p: Prim, x: Prim, y: Prim, text: string)
    requires p.Composite() && ConfigOk(c, p) && WellFormed(p)
    requires x in p.children && y in p.children && MayTie(c, x, y, text)
    ensures !NeverTies(c, p)
  {
    var i :| 0 <= i < |p.children| && p.children[i] == x;
    var j :| 0 <= j < |p.children| && p.children[j] == y;
    var q :| Variant(c, x, q) && OutcomeOf(c, q).error == Some(text);
    var qs := ResolveAll(c, p.children);
    ReplacedEvaluation(c, p, qs, i, q);
    ConfiguredChildren(c, p);
    var r := WithChildren(p, qs[i := q]).children[j];
    assert Variant(c, y, r);
    VariantsTie(c, x, q, y, r, text);
    PlacesTie(c, WithChildren(p, qs[i := q]), i, j);
  }

  lemma VariantsTie(c: Codec, x: Prim, q: Prim, y: Prim, r: Prim, text: string)
    requires MayTie(c, x, y, text) && Variant(c, x, q) && OutcomeOf(c, q).error == Some(text)
    requires Variant(c, y, r) && Describe(c, y).ok
    ensures MixedTie(OutcomeOf(c, q), OutcomeOf(c, r))
  {
    AlikeDescribes(c, x, q);
    LeafSeen(c, y, r);
    TieOf(c, x, q, y, r, text);
  }

  lemma PlacesTie(c: Codec, e: Prim, i: nat, j: nat)
    requires e.Composite() && i < |e.children| && j < |e.children|
    requires MixedTie(OutcomeOf(c, e.children[i]), OutcomeOf(c, e.children[j]))
    ensures !NoMixedTie(Outcomes(c, e.children))
  {
    var os := Outcomes(c, e.children);
    assert os[i] in os && os[j] in os;
  }

  lemma TieOf(c: Codec, x: Prim, q: Prim, y: Prim, r: Prim, text: string)
    requires Describe(c, x).d == Describe(c, y).d && Describe(c, q) == Describe(c, x)
    requires OutcomeOf(c, q).error == Some(text)
    requires OutcomeOf(c, r) == Outcome(Describe(c, y).d, Rejection(text), None)
    ensures MixedTie(OutcomeOf(c, q), OutcomeOf(c, r))
  {
  }

  lemma NoTieReached(c: Codec, p: Prim, e: Prim)
    requires p.Composite() && ConfigOk(c, p) && Evaluation(c, p, e)
    requires forall x, y, text :: x in p.children && y in p.children ==> !MayTie(c, x, y, text)
    ensures NoMixedTie(Outcomes(c, e.children))
  {
    var os := Outcomes(c, e.children);
    if !NoMixedTie(os) {
      ErrorRejects(c, e.children);
      var i, j := TiedPlaces(os);
      AlikeDescribes(c, p, e);
      ConfiguredChildren(c, e);
      TieHasLeaf(c, e.children[i], e.children[j]);
      AlikeChildren(p, e);
      assert p.children[i] in p.children && p.children[j] in p.children;
      TieSeen(c, p.children[i], p.children[j], e.children[i], e.children[j]);
    }
  }

  lemma TieSeen(c: Codec, x: Prim, y: Prim, q: Prim, r: Prim)
    requires Variant(c, x, q) && Variant(c, y, r) && Describe(c, r).ok && r.Leaf? && r.answer.Answered?
    requires MixedTie(OutcomeOf(c, q), OutcomeOf(c, r)) && OutcomeOf(c, q).error.Some?
    requires OutcomeOf(c, q).result == Rejection(OutcomeOf(c, q).error.value)
    ensures MayTie(c, x, y, OutcomeOf(c, q).error.value)
  {
    AlikeDescribes(c, x, q);
    AlikeDescribes(c, y, r);
    OutcomeDescriptor(c, q);
    OutcomeDescriptor(c, r);
    LeafSeen(c, r, r);
  }
}
