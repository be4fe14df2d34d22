/** Order-independent composites (core/composition_operators.go): which results a threshold may return
    never depends on the order of its children, and for a parallel composite only through one kind of tie. */
module CompositionOrder {
  import opened Values
  import opened Frames
  import opened Order
  import opened Bags
  import opened PrimitiveContracts
  import opened ResultNormalizer
  import opened ProofTheory
  import opened Descriptors
  import opened Composition
  import opened CompositionDepth
  import opened CompositionTexts
  import EvaluationRecord

  /** The same operator over the same evaluations of its children, in some order. */
  predicate Permuted(p: Prim, q: Prim) {
    && ((p.Parallel? && q.Parallel?) || (p.AtLeast? && q.AtLeast? && p.k == q.k))
    && multiset(p.children) == multiset(q.children)
  }

  /** The same operator over the same children, in some order. */
  predicate Reordered(p: Prim, q: Prim) {
    Permuted(Bare(p), Bare(q))
  }

  // ---------------------------------------------------------------- what permutations keep

  lemma OutcomesPermute(c: Codec, ps: seq<Prim>, qs: seq<Prim>)
    requires multiset(ps) == multiset(qs)
    ensures multiset(Outcomes(c, ps)) == multiset(Outcomes(c, qs)) && |ps| == |qs|
  {
    MapPermutes((p: Prim) => OutcomeOf(c, p), ps, qs, Outcomes(c, ps), Outcomes(c, qs));
  }

  ghost function PassBag(): Outcome -> multiset<bool> {
    (o: Outcome) => if o.result.valid then multiset{true} else multiset{}
  }

  lemma {:induction false} PassedBag(os: seq<Outcome>)
    ensures Passed(os) == |Bag(PassBag(), os)|
  {
    if |os| > 0 {
      PassedBag(os[..|os| - 1]);
    }
  }

  ghost function LabelBag(): Outcome -> multiset<string> {
    (o: Outcome) => if o.result.valid then multiset{} else multiset{Label(o.descriptor, 0)}
  }

  predicate Identified(os: seq<Outcome>) {
    forall i :: 0 <= i < |os| ==> os[i].descriptor.identity != ""
  }

  lemma {:induction false} LabelsBag(os: seq<Outcome>)
    requires Identified(os)
    ensures multiset(FailedLabels(os)) == Bag(LabelBag(), os)
  {
    if |os| > 0 {
      LabelsBag(os[..|os| - 1]);
    }
  }

  // ---------------------------------------------------------------- configuration

  lemma ConfigReordered(c: Codec, p: Prim, q: Prim)
    requires Permuted(p, q) && ConfigOk(c, p)
    ensures ConfigOk(c, q)
  {
    var ps, qs, ds := p.children, q.children, DescribeAll(c, q.children);
    assert |multiset(ps)| == |ps| && |multiset(qs)| == |qs|;
    forall i | 0 <= i < |ds| ensures ds[i].ok {
      assert qs[i] in multiset(ps);
      var j :| 0 <= j < |ps| && ps[j] == qs[i];
      assert DescribeAll(c, ps)[j].ok;
    }
    if p.AtLeast? {
      PairsReordered(c, ps, qs);
    }
  }

  lemma PairsReordered(c: Codec, ps: seq<Prim>, qs: seq<Prim>)
    requires multiset(ps) == multiset(qs) && DistinctRefs(ps) && DistinctIdentities(DescribeAll(c, ps))
    ensures DistinctRefs(qs) && DistinctIdentities(DescribeAll(c, qs))
  {
    if !DistinctRefs(qs) {
      var i, j :| 0 <= i < j < |qs| && !(Reference(qs[i]).None? || Reference(qs[i]) != Reference(qs[j]));
      var k, l := PairPermutes((a: Prim, b: Prim) => Reference(a).Some? && Reference(a) == Reference(b), qs, ps, i, j);
      assert false;
    }
    if !DistinctIdentities(DescribeAll(c, qs)) {
      var i, j :| 0 <= i < j < |qs| && DescribeAll(c, qs)[i].d.identity == DescribeAll(c, qs)[j].d.identity;
      var clash := (a: Prim, b: Prim) => Describe(c, a).d.identity == Describe(c, b).d.identity;
      var k, l := PairPermutes(clash, qs, ps, i, j);
      assert false;
    }
  }

  lemma DescribedIdentity(c: Codec, p: Prim)
    requires Describe(c, p).ok
    ensures Describe(c, p).d.identity != ""
  {
  }

  lemma OutcomesIdentified(c: Codec, p: Prim)
    requires p.Composite() && ConfigOk(c, p)
    ensures Identified(Outcomes(c, p.children))
  {
    forall i | 0 <= i < |p.children| ensures Outcomes(c, p.children)[i].descriptor.identity != "" {
      assert DescribeAll(c, p.children)[i].ok;
      DescribedIdentity(c, p.children[i]);
    }
  }

  // ---------------------------------------------------------------- ties

  /** Two outcomes the sort cannot tell apart, of which one failed and the other returned the very
      result a failure is recorded with. */
  predicate MixedTie(a: Outcome, b: Outcome) {
    a.descriptor == b.descriptor && a.result == b.result && a.error != b.error
  }

  ghost predicate NoMixedTie(os: seq<Outcome>) {
    forall a, b :: a in os && b in os ==> !MixedTie(a, b)
  }

  ghost predicate Comparable(os: seq<Outcome>) {
    forall o :: o in os ==> IsNormal(o.result) && EvaluationRecord.SizedNormal(o.result)
  }

  /** A tie of the sort is equality of descriptors and results. */
  lemma TieMeans(a: Outcome, b: Outcome)
    requires IsNormal(a.result) && EvaluationRecord.SizedNormal(a.result) && IsNormal(b.result)
    requires EvaluationRecord.SizedNormal(b.result)
    ensures OutcomeLessEq(a, b) && OutcomeLessEq(b, a) <==> a.descriptor == b.descriptor && a.result == b.result
  {
    OutcomeOrder(a, b, a);
    EvaluationRecord.SameBytesSame(a.result, b.result);
  }

  lemma SortsAgree(os: seq<Outcome>, os': seq<Outcome>)
    requires multiset(os) == multiset(os') && Comparable(os) && NoMixedTie(os)
    ensures StableSort(OutcomeLessEq, os) == StableSort(OutcomeLessEq, os')
  {
    OutcomeTotal();
    StableSortSorts(OutcomeLessEq, os);
    StableSortSorts(OutcomeLessEq, os');
    var s := StableSort(OutcomeLessEq, os);
    forall i, j | 0 <= i < |s| && 0 <= j < |s| && OutcomeLessEq(s[i], s[j]) && OutcomeLessEq(s[j], s[i])
      ensures s[i] == s[j]
    {
      assert s[i] in multiset(os) && s[j] in multiset(os);
      TieMeans(s[i], s[j]);
      assert !MixedTie(s[i], s[j]);
    }
    SortedUnique(OutcomeLessEq, s, StableSort(OutcomeLessEq, os'));
  }

  lemma LabelsAgree(os: seq<Outcome>, os': seq<Outcome>)
    requires multiset(os) == multiset(os') && Identified(os) && Identified(os')
    ensures StableSort(LessEq, FailedLabels(os)) == StableSort(LessEq, FailedLabels(os'))
  {
    LabelsBag(os);
    LabelsBag(os');
    BagPermutes(LabelBag(), os, os');
    LessEqTotalOrder();
    StableSortSorts(LessEq, FailedLabels(os));
    StableSortSorts(LessEq, FailedLabels(os'));
    SortedUnique(LessEq, StableSort(LessEq, FailedLabels(os)), StableSort(LessEq, FailedLabels(os')));
  }

  lemma PassedAgree(os: seq<Outcome>, os': seq<Outcome>)
    requires multiset(os) == multiset(os')
    ensures Passed(os) == Passed(os') && |os| == |os'| && (AllPassed(os) <==> AllPassed(os'))
  {
    PassedBag(os);
    PassedBag(os');
    BagPermutes(PassBag(), os, os');
    assert |multiset(os)| == |os| && |multiset(os')| == |os'|;
  }

  /** The children's results can be compared: lengths are below 2^63, as Go's are. */
  ghost predicate SizedChildren(c: Codec, p: Prim)
    requires p.Composite()
  {
    forall o :: o in Outcomes(c, p.children) ==> EvaluationRecord.SizedNormal(o.result)
  }

  lemma ChildrenComparable(c: Codec, p: Prim)
    requires p.Composite() && WellFormed(p) && SizedChildren(c, p)
    ensures Comparable(Outcomes(c, p.children))
  {
    OutcomesNormal(c, p.children);
  }

  /** No two children of a configured threshold share a descriptor, so its sort has no ties. */
  lemma ThresholdNoTies(c: Codec, p: Prim)
    requires p.AtLeast? && ConfigOk(c, p)
    ensures NoMixedTie(Outcomes(c, p.children))
  {
    var os := Outcomes(c, p.children);
    IdentitiesApart(c, p);
    ApartNoTies(os);
  }

  lemma ApartNoTies(os: seq<Outcome>)
    requires forall i, j :: 0 <= i < |os| && 0 <= j < |os| && os[i].descriptor == os[j].descriptor ==> i == j
    ensures NoMixedTie(os)
  {
  }

  lemma IdentitiesApart(c: Codec, p: Prim)
    requires p.AtLeast? && ConfigOk(c, p)
    ensures var os := Outcomes(c, p.children);
      forall i, j :: 0 <= i < |os| && 0 <= j < |os| && os[i].descriptor == os[j].descriptor ==> i == j
  {
    var os, ds := Outcomes(c, p.children), DescribeAll(c, p.children);
    forall i | 0 <= i < |os| ensures os[i].descriptor == ds[i].d {
      OutcomeDescriptor(c, p.children[i]);
    }
  }

  lemma OutcomeDescriptor(c: Codec, p: Prim)
    ensures OutcomeOf(c, p).descriptor == Describe(c, p).d
  {
  }

  lemma ResultsAgree(os: seq<Outcome>, os': seq<Outcome>, k: int)
    requires multiset(os) == multiset(os') && Comparable(os) && NoMixedTie(os) && Identified(os) && Identified(os')
    ensures ParallelResult(os) == ParallelResult(os') && ThresholdResult(os, k) == ThresholdResult(os', k)
  {
    SortsAgree(os, os');
    PassedAgree(os, os');
    LabelsAgree(os, os');
  }

  lemma ReorderedRuns(c: Codec, p: Prim, q: Prim)
    requires Permuted(p, q) && ConfigOk(c, p) && WellFormed(p) && SizedChildren(c, p)
    requires NoMixedTie(Outcomes(c, p.children))
    ensures ConfigOk(c, q) && Run(c, p) == Run(c, q)
  {
    ConfigReordered(c, p, q);
    OutcomesPermute(c, p.children, q.children);
    ChildrenComparable(c, p);
    OutcomesIdentified(c, p);
    OutcomesIdentified(c, q);
    ResultsAgree(Outcomes(c, p.children), Outcomes(c, q.children), Bound(p));
  }

  // ---------------------------------------------------------------- the same children, evaluated anywhere

  /** Items with the given images, in the given order. */
  lemma {:induction false} Follow<A(!new), B(!new)>(f: A -> B, s: seq<A>, fs: seq<B>, ft: seq<B>)
    returns (t: seq<A>)
    requires |fs| == |s| && (forall i :: 0 <= i < |s| ==> fs[i] == f(s[i])) && multiset(fs) == multiset(ft)
    ensures multiset(t) == multiset(s) && |t| == |ft| == |s| && forall i :: 0 <= i < |t| ==> f(t[i]) == ft[i]
    decreases |ft|
  {
    SameLength(fs, ft);
    if |ft| == 0 {
      t := [];
    } else {
      var j := FirstPlace(fs, ft);
      WithoutImage(f, s, fs, j);
      var rest := Follow(f, Without(s, j), Without(fs, j), ft[1..]);
      t := Ahead(s, j, rest);
      AheadImage(f, s[j], rest, ft);
    }
  }

  lemma SameLength<B>(s: seq<B>, t: seq<B>)
    requires multiset(s) == multiset(t)
    ensures |s| == |t|
  {
    assert |multiset(s)| == |s| && |multiset(t)| == |t|;
  }

  lemma FirstPlace<B>(fs: seq<B>, ft: seq<B>) returns (j: nat)
    requires multiset(fs) == multiset(ft) && |ft| > 0
    ensures j < |fs| && fs[j] == ft[0] && multiset(Without(fs, j)) == multiset(ft[1..])
  {
    assert ft[0] in multiset(fs);
    j :| j < |fs| && fs[j] == ft[0];
    WithoutBag(fs, j);
    WithoutBag(ft, 0);
    assert Without(ft, 0) == ft[1..];
  }

  lemma WithoutImage<A, B>(f: A -> B, s: seq<A>, fs: seq<B>, j: nat)
    requires |fs| == |s| && j < |s| && forall i :: 0 <= i < |s| ==> fs[i] == f(s[i])
    ensures forall i :: 0 <= i < |s| - 1 ==> Without(fs, j)[i] == f(Without(s, j)[i])
  {
  }

  lemma AheadImage<A, B>(f: A -> B, x: A, rest: seq<A>, ft: seq<B>)
    requires |ft| == |rest| + 1 && f(x) == ft[0] && forall i :: 0 <= i < |rest| ==> f(rest[i]) == ft[1..][i]
    ensures forall i :: 0 <= i < |ft| ==> f(([x] + rest)[i]) == ft[i]
  {
    forall i | 0 <= i < |ft| ensures f(([x] + rest)[i]) == ft[i] {
      if i > 0 { assert ft[i] == ft[1..][i - 1]; }
    }
  }

  lemma Ahead<A>(s: seq<A>, j: nat, rest: seq<A>) returns (t: seq<A>)
    requires j < |s| && multiset(rest) == multiset(Without(s, j))
    ensures t == [s[j]] + rest && multiset(t) == multiset(s)
  {
    WithoutBag(s, j);
    t := [s[j]] + rest;
    assert s[j] in multiset(s);
  }

  /** What the children of one order did, the children of another may do. */
  lemma Transport(c: Codec, p: Prim, q: Prim, e: Prim) returns (f: Prim)
    requires p.Composite() && q.Composite() && Reordered(p, q) && Evaluation(c, p, e)
    ensures Evaluation(c, q, f) && Permuted(e, f)
  {
    AlikeChildren(p, e);
    assert BareAll(e.children) == BareAll(p.children);
    var children := Follow((a: Prim) => Bare(a), e.children, BareAll(e.children), BareAll(q.children));
    f := WithChildren(q, children);
    AlikeParts(q, f);
    ChosenAmong(c, e, children);
  }

  lemma ChosenAmong(c: Codec, e: Prim, children: seq<Prim>)
    requires e.Composite() && ChosenBelow(c, e) && multiset(children) == multiset(e.children)
    ensures forall i :: 0 <= i < |children| ==> Chosen(c, children[i])
  {
    forall i | 0 <= i < |children| ensures Chosen(c, children[i]) {
      assert children[i] in multiset(e.children);
    }
  }

  /** All evaluations have comparable results. */
  ghost predicate AlwaysSized(c: Codec, p: Prim)
    requires p.Composite()
  {
    forall e :: Evaluation(c, p, e) ==> SizedChildren(c, e)
  }

  /** No evaluation ends in a mixed tie. */
  ghost predicate NeverTies(c: Codec, p: Prim)
    requires p.Composite()
  {
    forall e :: Evaluation(c, p, e) ==> NoMixedTie(Outcomes(c, e.children))
  }

  lemma EvaluationKeeps(c: Codec, p: Prim, e: Prim)
    requires p.Composite() && ConfigOk(c, p) && WellFormed(p) && Evaluation(c, p, e)
    ensures ConfigOk(c, e) && WellFormed(e)
  {
    AlikeDescribes(c, p, e);
    AlikeWellFormed(p, e);
  }

  lemma SameReturns(c: Codec, p: Prim, q: Prim, n: Normal)
    requires p.Composite() && q.Composite() && Reordered(p, q)
    requires ConfigOk(c, p) && WellFormed(p) && AlwaysSized(c, p) && NeverTies(c, p)
    ensures MayReturn(c, p, n) <==> MayReturn(c, q, n)
  {
    if MayReturn(c, p, n) {
      var e :| Evaluation(c, p, e) && Run(c, e) == n;
      var f := Transport(c, p, q, e);
      EvaluationKeeps(c, p, e);
      ReorderedRuns(c, e, f);
    }
    if MayReturn(c, q, n) {
      var f :| Evaluation(c, q, f) && Run(c, f) == n;
      var e := Transport(c, q, p, f);
      EvaluationKeeps(c, p, e);
      ReorderedRuns(c, e, f);
    }
  }

  /** A configured threshold may return the same results whatever the order of its children, and given
      what its children do it returns one result. */
  lemma ThresholdOrderFree(c: Codec, p: Prim, q: Prim)
    requires p.AtLeast? && Reordered(p, q) && ConfigOk(c, p) && WellFormed(p) && AlwaysSized(c, p)
    ensures q.AtLeast?
    ensures forall n :: MayReturn(c, p, n) <==> MayReturn(c, q, n)
    ensures forall e, f :: Evaluation(c, p, e) && Permuted(e, f) ==> f.AtLeast? && Run(c, e) == Run(c, f)
  {
    forall e | Evaluation(c, p, e) ensures NoMixedTie(Outcomes(c, e.children)) {
      EvaluationKeeps(c, p, e);
      ThresholdNoTies(c, e);
    }
    forall n ensures MayReturn(c, p, n) <==> MayReturn(c, q, n) { SameReturns(c, p, q, n); }
    forall e, f | Evaluation(c, p, e) && Permuted(e, f) ensures f.AtLeast? && Run(c, e) == Run(c, f) {
      EvaluationKeeps(c, p, e);
      ReorderedRuns(c, e, f);
    }
  }

  // ---------------------------------------------------------------- the tie that is left

  function Select<A>(keep: A -> bool, s: seq<A>): seq<A> {
    if |s| == 0 then [] else Select(keep, s[..|s| - 1]) + if keep(s[|s| - 1]) then [s[|s| - 1]] else []
  }

  /** Elements of `keep` are all tied. */
  ghost predicate Tied<A(!new)>(le: (A, A) -> bool, keep: A -> bool) {
    forall a, b :: keep(a) && keep(b) ==> le(a, b)
  }

  lemma {:induction false} InsertKeepsOrder<A(!new)>(le: (A, A) -> bool, keep: A -> bool, s: seq<A>, x: A)
    requires Tied(le, keep)
    ensures Select(keep, Insert(le, s, x)) == Select(keep, s) + if keep(x) then [x] else []
  {
    if |s| == 0 || le(s[|s| - 1], x) {
      assert (s + [x])[..|s|] == s;
    } else {
      var front, last := s[..|s| - 1], s[|s| - 1];
      InsertKeepsOrder(le, keep, front, x);
      var t := Insert(le, front, x);
      assert (t + [last])[..|t|] == t;
    }
  }

  /** A stable sort leaves tied elements in their order. */
  lemma {:induction false} SortKeepsOrder<A(!new)>(le: (A, A) -> bool, keep: A -> bool, s: seq<A>)
    requires Tied(le, keep)
    ensures Select(keep, StableSort(le, s)) == Select(keep, s)
  {
    if |s| > 0 {
      SortKeepsOrder(le, keep, s[..|s| - 1]);
      InsertKeepsOrder(le, keep, StableSort(le, s[..|s| - 1]), s[|s| - 1]);
    }
  }

  lemma {:induction false} SelectAppend<A>(keep: A -> bool, s: seq<A>, t: seq<A>)
    ensures Select(keep, s + t) == Select(keep, s) + Select(keep, t)
  {
    if |t| == 0 {
      assert s + t == s;
    } else {
      SelectAppend(keep, s, t[..|t| - 1]);
      assert (s + t)[..|s + t| - 1] == s + t[..|t| - 1];
    }
  }

  function OutcomeDescriptors(os: seq<Outcome>): (r: seq<Descriptor>)
    ensures |r| == |os| && forall i :: 0 <= i < |r| ==> r[i] == os[i].descriptor
  {
    seq(|os|, i requires 0 <= i < |os| => os[i].descriptor)
  }

  /** Sorted outcomes of the same primitives are those of the same primitive, place by place. */
  lemma DescriptorsAgree(s: seq<Outcome>, t: seq<Outcome>)
    requires multiset(OutcomeDescriptors(s)) == multiset(OutcomeDescriptors(t))
    requires Sorted(OutcomeLessEq, s) && Sorted(OutcomeLessEq, t)
    ensures OutcomeDescriptors(s) == OutcomeDescriptors(t)
  {
    var ds, dt := OutcomeDescriptors(s), OutcomeDescriptors(t);
    forall i, j | 0 <= i < j < |ds| ensures DescriptorLessEq(ds[i], ds[j]) { assert OutcomeLessEq(s[i], s[j]); }
    forall i, j | 0 <= i < j < |dt| ensures DescriptorLessEq(dt[i], dt[j]) { assert OutcomeLessEq(t[i], t[j]); }
    DescriptorTotal();
    SortedUnique(DescriptorLessEq, ds, dt);
  }

  lemma EntryError(a: Outcome, b: Outcome, index: nat)
    requires Entry(a, index) == Entry(b, index)
    ensures a.error == b.error && NormalTree(a.result) == NormalTree(b.result)
  {
    var f, g := Entry(a, index).entries, Entry(b, index).entries;
    assert "error" in f <==> "error" in g;
    if "error" in f {
      assert f["error"] == g["error"];
    }
    assert f["result"] == g["result"];
  }

  /** Evidence tells everything about the outcomes but which primitives of one descriptor they are. */
  lemma EvidenceTellsOrder(os: seq<Outcome>, os': seq<Outcome>)
    requires multiset(OutcomeDescriptors(os)) == multiset(OutcomeDescriptors(os'))
    requires Evidence(os, true) == Evidence(os', true)
    ensures StableSort(OutcomeLessEq, os) == StableSort(OutcomeLessEq, os') && multiset(os) == multiset(os')
  {
    var s, t := StableSort(OutcomeLessEq, os), StableSort(OutcomeLessEq, os');
    OutcomeTotal();
    StableSortSorts(OutcomeLessEq, os);
    StableSortSorts(OutcomeLessEq, os');
    MapPermutes((o: Outcome) => o.descriptor, s, os, OutcomeDescriptors(s), OutcomeDescriptors(os));
    MapPermutes((o: Outcome) => o.descriptor, t, os', OutcomeDescriptors(t), OutcomeDescriptors(os'));
    DescriptorsAgree(s, t);
    EntriesTell(s, t);
  }

  lemma EntriesTell(s: seq<Outcome>, t: seq<Outcome>)
    requires OutcomeDescriptors(s) == OutcomeDescriptors(t) && Entries(s) == Entries(t)
    ensures s == t
  {
    assert |OutcomeDescriptors(s)| == |s| && |OutcomeDescriptors(t)| == |t|;
    forall i | 0 <= i < |s| ensures s[i] == t[i] {
      assert Entries(s)[i] == Entries(t)[i] && OutcomeDescriptors(s)[i] == OutcomeDescriptors(t)[i];
      EntryError(s[i], t[i], i);
      NormalTreeInjective(s[i].result, t[i].result);
    }
  }

  lemma {:induction false} SelectFirst<A>(keep: A -> bool, s: seq<A>)
    requires |s| > 0 && keep(s[0])
    ensures |Select(keep, s)| > 0 && Select(keep, s)[0] == s[0]
  {
    if |s| > 1 {
      SelectFirst(keep, s[..|s| - 1]);
    } else {
      assert s[..|s| - 1] == [];
    }
  }

  /** Of two tied outcomes, the evidence shows which came first. */
  lemma FirstOfTieShows(os: seq<Outcome>, os': seq<Outcome>)
    requires |os| > 0 && |os'| > 0 && MixedTie(os[0], os'[0])
    requires multiset(OutcomeDescriptors(os)) == multiset(OutcomeDescriptors(os'))
    ensures Evidence(os, true) != Evidence(os', true)
  {
    var x := os[0];
    var keep := (o: Outcome) => o.descriptor == x.descriptor && o.result == x.result;
    TiesTied(x);
    SortKeepsOrder(OutcomeLessEq, keep, os);
    SortKeepsOrder(OutcomeLessEq, keep, os');
    SelectFirst(keep, os);
    SelectFirst(keep, os');
    if Evidence(os, true) == Evidence(os', true) {
      EvidenceTellsOrder(os, os');
    }
  }

  lemma TiesTied(x: Outcome)
    ensures Tied(OutcomeLessEq, (o: Outcome) => o.descriptor == x.descriptor && o.result == x.result)
  {
    forall a: Outcome, b: Outcome | a.descriptor == b.descriptor == x.descriptor && a.result == b.result == x.result
      ensures OutcomeLessEq(a, b)
    {
      OutcomeOrder(a, b, a);
    }
  }

  lemma RunShows(c: Codec, p: Prim)
    requires p.Parallel? && ConfigOk(c, p)
    ensures Run(c, p).evidence == Evidence(Outcomes(c, p.children), true)
  {
  }

  /** Only a leaf returns what a failure is recorded with, and then always: composites leave evidence. */
  lemma TieHasLeaf(c: Codec, x: Prim, y: Prim)
    requires Describe(c, y).ok && MixedTie(OutcomeOf(c, x), OutcomeOf(c, y)) && OutcomeOf(c, y).error.None?
    ensures y.Leaf? && y.answer.Answered?
  {
    var o := OutcomeOf(c, x);
    assert o.error.Some? && o.result == Rejection(o.error.value);
    if y.Composite() {
      LeavesEvidence(c, y);
    }
  }

  lemma LeavesEvidence(c: Codec, p: Prim)
    requires p.Composite() && ConfigOk(c, p)
    ensures Run(c, p).evidence.ListT? && |Run(c, p).evidence.items| > 0
  {
    var os := Outcomes(c, p.children);
    RunIs(c, p);
    EvidenceItems(os, true);
    EvidenceItems(Leading(os), false);
    assert |Leading(os)| > 0;
  }

  lemma EvidenceItems(os: seq<Outcome>, orderFree: bool)
    ensures Evidence(os, orderFree).ListT? && |Evidence(os, orderFree).items| == |os|
  {
    OutcomeTotal();
    StableSortSorts(OutcomeLessEq, os);
    assert |multiset(StableSort(OutcomeLessEq, os))| == |StableSort(OutcomeLessEq, os)| && |multiset(os)| == |os|;
  }

  lemma TiedPlaces(os: seq<Outcome>) returns (i: nat, j: nat)
    requires !NoMixedTie(os) && forall o :: o in os && o.error.Some? ==> o.result == Rejection(o.error.value)
    ensures i < |os| && j < |os| && MixedTie(os[i], os[j]) && os[j].error.None?
  {
    var a, b :| a in os && b in os && MixedTie(a, b);
    if a.error.Some? && b.error.Some? { RejectionTells(a.error.value, b.error.value); }
    var failed, fine := if a.error.Some? then a else b, if a.error.Some? then b else a;
    i :| i < |os| && os[i] == failed;
    j :| j < |os| && os[j] == fine;
  }

  lemma RejectionTells(s: string, t: string)
    requires Rejection(s) == Rejection(t)
    ensures s == t
  {
    assert Rejection(s).metadata.entries["reason"] == Worded(s);
    assert Rejection(t).metadata.entries["reason"] == Worded(t);
  }

  lemma ErrorRejects(c: Codec, ps: seq<Prim>)
    ensures forall o :: o in Outcomes(c, ps) && o.error.Some? ==> o.result == Rejection(o.error.value)
  {
  }

  // ---------------------------------------------------------------- orders of one parallel composite

  /** Every order of the children may return the same results. */
  ghost predicate OrderNeverShows(c: Codec, p: Prim)
    requires p.Parallel?
  {
    forall q, n :: Reordered(p, q) ==> (MayReturn(c, p, n) <==> MayReturn(c, q, n))
  }

  lemma PermutedReordered(p: Prim, e: Prim, a: Prim)
    requires p.Parallel? && Bare(e) == Bare(p) && Permuted(e, a)
    ensures Reordered(p, a)
  {
    MapPermutes((r: Prim) => Bare(r), e.children, a.children, BareAll(e.children), BareAll(a.children));
  }

  lemma ReordersItself(c: Codec, p: Prim, e: Prim, a: Prim)
    requires p.Parallel? && Evaluation(c, p, e) && Permuted(e, a) && ConfigOk(c, p)
    ensures Reordered(p, a) && Evaluation(c, a, a) && ConfigOk(c, a)
  {
    PermutedReordered(p, e, a);
    AlikeDescribes(c, p, e);
    ConfigReordered(c, e, a);
    forall i | 0 <= i < |a.children| ensures Chosen(c, a.children[i]) {
      assert a.children[i] in multiset(e.children);
    }
  }

  lemma ChildDescriptors(c: Codec, ps: seq<Prim>, qs: seq<Prim>)
    requires multiset(BareAll(ps)) == multiset(BareAll(qs))
    ensures multiset(OutcomeDescriptors(Outcomes(c, ps))) == multiset(OutcomeDescriptors(Outcomes(c, qs)))
  {
    var described := (r: Prim) => Describe(c, r).d;
    BareDescriptors(c, ps);
    BareDescriptors(c, qs);
    MapPermutes(described, BareAll(ps), BareAll(qs),
                OutcomeDescriptors(Outcomes(c, ps)), OutcomeDescriptors(Outcomes(c, qs)));
  }

  lemma BareDescriptors(c: Codec, ps: seq<Prim>)
    ensures forall i :: 0 <= i < |ps| ==> Describe(c, ps[i]) == Describe(c, BareAll(ps)[i])
    ensures forall i :: 0 <= i < |ps| ==>
      OutcomeDescriptors(Outcomes(c, ps))[i] == Describe(c, BareAll(ps)[i]).d
  {
    forall i | 0 <= i < |ps|
      ensures Describe(c, ps[i]) == Describe(c, BareAll(ps)[i])
      ensures OutcomeDescriptors(Outcomes(c, ps))[i] == Describe(c, ps[i]).d
    {
      OutcomeDescriptor(c, ps[i]);
      BareTwice(ps[i]);
      AlikeDescribes(c, ps[i], Bare(ps[i]));
    }
  }

  lemma {:induction false} BareTwice(p: Prim)
    ensures Bare(Bare(p)) == Bare(p)
  {
    if p.Composite() {
      forall i | 0 <= i < |p.children| { BareTwice(p.children[i]); }
      assert BareAll(BareAll(p.children)) == BareAll(p.children);
    }
  }

  /** With x, which failed, in front, something is returned that cannot be with y in front. */
  lemma FrontShows(c: Codec, a: Prim, b: Prim, x: Prim, y: Prim)
    requires a.Parallel? && b.Parallel? && |a.children| > 0 && |b.children| > 0
    requires a.children[0] == x && Bare(b.children[0]) == Bare(y) && y.Leaf? && y.answer.Answered?
    requires ConfigOk(c, a) && ConfigOk(c, b) && multiset(BareAll(a.children)) == multiset(BareAll(b.children))
    requires MixedTie(OutcomeOf(c, x), OutcomeOf(c, y))
    ensures Run(c, a) != Run(c, b)
  {
    RunShows(c, a);
    RunShows(c, b);
    AlikeDescribes(c, y, b.children[0]);
    assert OutcomeOf(c, b.children[0]) == OutcomeOf(c, y);
    ChildDescriptors(c, a.children, b.children);
    FirstOfTieShows(Outcomes(c, a.children), Outcomes(c, b.children));
  }

  lemma NeverBehind(c: Codec, a: Prim, b: Prim, x: Prim, y: Prim)
    requires a.Parallel? && b.Parallel? && |a.children| > 0 && |b.children| > 0
    requires a.children[0] == x && b.children[0] == y && y.Leaf? && y.answer.Answered?
    requires ConfigOk(c, a) && ConfigOk(c, b) && Reordered(a, b) && MixedTie(OutcomeOf(c, x), OutcomeOf(c, y))
    ensures !MayReturn(c, b, Run(c, a))
  {
    if MayReturn(c, b, Run(c, a)) {
      var f :| Evaluation(c, b, f) && Run(c, f) == Run(c, a);
      AlikeChildren(b, f);
      AlikeDescribes(c, b, f);
      assert BareAll(f.children) == BareAll(b.children);
      FrontShows(c, a, f, x, y);
    }
  }

  lemma TieShows(c: Codec, p: Prim, e: Prim, i: nat, j: nat)
    requires p.Parallel? && ConfigOk(c, p) && Evaluation(c, p, e) && i < |e.children| && j < |e.children|
    requires MixedTie(OutcomeOf(c, e.children[i]), OutcomeOf(c, e.children[j]))
    requires e.children[j].Leaf? && e.children[j].answer.Answered?
    ensures !OrderNeverShows(c, p)
  {
    var x, y := e.children[i], e.children[j];
    var rest := Fronted(e.children, i, j);
    var a, b := Parallel(0, [x, y] + rest, ""), Parallel(0, [y, x] + rest, "");
    PairBag(x, y, rest);
    PairBag(y, x, rest);
    BothOrders(c, p, e, a, b, x, y);
  }

  lemma BothOrders(c: Codec, p: Prim, e: Prim, a: Prim, b: Prim, x: Prim, y: Prim)
    requires p.Parallel? && ConfigOk(c, p) && Evaluation(c, p, e) && Permuted(e, a) && Permuted(e, b)
    requires |a.children| > 0 && |b.children| > 0 && a.children[0] == x && b.children[0] == y
    requires MixedTie(OutcomeOf(c, x), OutcomeOf(c, y)) && y.Leaf? && y.answer.Answered?
    ensures !OrderNeverShows(c, p)
  {
    ReordersItself(c, p, e, a);
    ReordersItself(c, p, e, b);
    NeverBehind(c, a, b, x, y);
    assert MayReturn(c, a, Run(c, a));
  }

  /** Whatever the order of its children, a configured parallel composite may return the same results
      exactly when no evaluation has two of them tie with one failed and the other not. */
  lemma ParallelOrderExact(c: Codec, p: Prim)
    requires p.Parallel? && ConfigOk(c, p) && WellFormed(p) && AlwaysSized(c, p)
    ensures OrderNeverShows(c, p) <==> NeverTies(c, p)
  {
    if NeverTies(c, p) {
      forall q, n | Reordered(p, q) ensures MayReturn(c, p, n) <==> MayReturn(c, q, n) { SameReturns(c, p, q, n); }
    } else {
      TiesShow(c, p);
    }
  }

  lemma TiesShow(c: Codec, p: Prim)
    requires p.Parallel? && ConfigOk(c, p) && !NeverTies(c, p)
    ensures !OrderNeverShows(c, p)
  {
    var e :| Evaluation(c, p, e) && !NoMixedTie(Outcomes(c, e.children));
    var os := Outcomes(c, e.children);
    ErrorRejects(c, e.children);
    var i, j := TiedPlaces(os);
    AlikeDescribes(c, p, e);
    assert DescribeAll(c, e.children)[j].ok;
    TieHasLeaf(c, e.children[i], e.children[j]);
    TieShows(c, p, e, i, j);
  }

  // ---------------------------------------------------------------- the tie, at an input

  /** Two primitives that describe themselves alike; one fails with a text, the other denies with it. */
  function Twin(answer: Answer): Prim {
    Leaf("main.twin@main", None, true, Some("t"), Some("1"), Some(""), Some(""), answer, "e")
  }

  function Twins(): Prim {
    Parallel(0, [Twin(Broke({"e"})), Twin(Answered(Rejection("e")))], "")
  }

  lemma TwinOutcome(c: Codec, answer: Answer)
    ensures Describe(c, Twin(answer)).ok
    ensures OutcomeOf(c, Twin(answer))
      == ChildOutcome(DescribeLeaf(Twin(answer)).d, Observe(c, Twin(answer)), DescribeLeaf(Twin(answer)))
    ensures DescribeLeaf(Twin(answer)) == DescribeLeaf(Twin(Broke({"e"})))
  {
  }

  lemma PairOk(c: Codec, p: Prim, a: Prim, b: Prim)
    requires p.Parallel? && p.children == [a, b] && Describe(c, a).ok && Describe(c, b).ok
    ensures ConfigOk(c, p)
  {
    var ds := DescribeAll(c, p.children);
    forall i | 0 <= i < |ds| ensures ds[i].ok { assert p.children[i] == a || p.children[i] == b; }
  }

  lemma TwinsConfigured(c: Codec)
    ensures WellFormed(Twins()) && ConfigOk(c, Twins()) && Evaluation(c, Twins(), Twins())
  {
    RejectionNormal("e");
    TwinOutcome(c, Broke({"e"}));
    TwinOutcome(c, Answered(Rejection("e")));
    PairOk(c, Twins(), Twin(Broke({"e"})), Twin(Answered(Rejection("e"))));
  }

  lemma TwinsTie(c: Codec)
    ensures MixedTie(OutcomeOf(c, Twin(Broke({"e"}))), OutcomeOf(c, Twin(Answered(Rejection("e")))))
  {
    TwinOutcome(c, Broke({"e"}));
    TwinOutcome(c, Answered(Rejection("e")));
  }

  /** A configured parallel composite for which order shows. */
  lemma TwinsShowOrder(c: Codec)
    ensures WellFormed(Twins()) && ConfigOk(c, Twins())
    ensures !NeverTies(c, Twins()) && !OrderNeverShows(c, Twins())
  {
    TwinsConfigured(c);
    TwinsTie(c);
    var os := Outcomes(c, Twins().children);
    assert os[0] in os && os[1] in os;
    TieShows(c, Twins(), Twins(), 0, 1);
  }

  /** Versions of the two order-independent composites do not depend on the order either. */
  lemma VersionOrderFree(c: Codec, p: Prim, q: Prim)
    requires Reordered(p, q)
    ensures Version(c, p) == Version(c, q)
  {
    var ds, ds' := DescriptorsOf(DescribeAll(c, p.children)), DescriptorsOf(DescribeAll(c, q.children));
    BareDescriptors(c, p.children);
    BareDescriptors(c, q.children);
    MapPermutes((r: Prim) => Describe(c, r).d, BareAll(p.children), BareAll(q.children), ds, ds');
    VersionPreimageExact(Operator(p), Bound(p), DescriptorsOf(DescribeAll(c, p.children)),
                         Operator(q), Bound(q), DescriptorsOf(DescribeAll(c, q.children)));
  }
}
