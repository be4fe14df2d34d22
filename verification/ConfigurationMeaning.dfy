/** When a composite is configured, how it describes its children and what it records of them, in terms
    of the primitives themselves. */
module ConfigurationMeaning {
  import opened Values
  import opened Frames
  import opened Text
  import opened Order
  import opened PrimitiveContracts
  import opened ProofEncoding
  import opened ProofTheory
  import opened Descriptors
  import opened ResultNormalizer
  import opened Composition
  import opened CompositionMeaning
  import CanonicalEncoding

  // ---------------------------------------------------------------- configuration

  /** Every question about itself gets an answer, and name and version say something. */
  predicate LeafConfigured(p: Prim)
    requires p.Leaf?
  {
    && p.version.Some? && !Blank(p.version.value) && p.source.Some? && p.configuration.Some?
    && (p.named ==> p.name.Some? && !Blank(p.name.value))
  }

  /** The identity of a configured primitive: its name, or its type. */
  function IdentityOf(p: Prim): string {
    match p
    case Leaf(typ, _, named, name, _, _, _, _, _) =>
      if named && name.Some? then "name:" + name.value else "type:" + typ
    case Sequential(_, _, _) => "type:" + "*core.sequentialAndPrimitive@gsas/core"
    case Parallel(_, _, _) => "type:" + "*core.parallelAndPrimitive@gsas/core"
    case AtLeast(_, _, _, _) => "type:" + "*core.thresholdPrimitive@gsas/core"
    case NilPrim(typ) => "invalid:" + typ
  }

  /** The object a primitive is: its Go type and address, if it has one. */
  function ObjectOf(p: Prim): Option<(string, nat)> {
    match p
    case Leaf(_, ref, _, _, _, _, _, _, _) => if ref.Some? then Some((ref.value.typeName, ref.value.pointer)) else None
    case Sequential(pointer, _, _) => Some(("*core.sequentialAndPrimitive", pointer))
    case Parallel(pointer, _, _) => Some(("*core.parallelAndPrimitive", pointer))
    case AtLeast(pointer, _, _, _) => Some(("*core.thresholdPrimitive", pointer))
    case NilPrim(_) => None
  }

  predicate SameObject(p: Prim, q: Prim) {
    ObjectOf(p).Some? && ObjectOf(p) == ObjectOf(q)
  }

  /** What a primitive itself contributes to being configured, its children apart. */
  predicate Locally(p: Prim) {
    match p
    case NilPrim(_) => false
    case Leaf(_, _, _, _, _, _, _, _, _) => LeafConfigured(p)
    case Sequential(_, ps, _) => |ps| > 0
    case Parallel(_, ps, _) => |ps| > 0
    case AtLeast(_, k, ps, _) => 0 < k <= |ps| && Distinguished(ps)
  }

  /** No two children are one object or share an identity. */
  predicate Distinguished(ps: seq<Prim>) {
    forall i, j :: 0 <= i < j < |ps| ==> !SameObject(ps[i], ps[j]) && IdentityOf(ps[i]) != IdentityOf(ps[j])
  }

  /** A leaf is configured exactly when it answers for itself. */
  lemma LeafExact(c: Codec, p: Prim)
    requires p.Leaf?
    ensures Describe(c, p).ok <==> LeafConfigured(p)
    ensures Describe(c, p).ok ==>
      var name := if p.named then p.name.value else "";
      Describe(c, p).d ==
        Descriptor(IdentityOf(p), name, p.typ, p.version.value, p.source.value, p.configuration.value, "")
    ensures !Describe(c, p).ok ==> Describe(c, p).d.identity == "invalid:" + p.typ && Describe(c, p).d.invalid != ""
  {
    if p.named && p.name == Some("") { assert Blank(""); }
  }

  /** The note on a leaf that is not: the first question it does not answer well. */
  lemma LeafNote(c: Codec, p: Prim)
    requires p.Leaf? && !LeafConfigured(p)
    ensures var unnamed := p.named && (p.name.None? || Blank(p.name.value));
      Describe(c, p).d.invalid ==
        if unnamed then (if p.name.None? then "name_unavailable" else "empty_name")
        else if p.version.None? then "version_unavailable"
        else if Blank(p.version.value) then "empty_version"
        else if p.source.None? then "source_unavailable"
        else "configuration_invalid"
  {
  }

  lemma SequentialText()
    ensures "*core.sequentialAndPrimitive" + "@gsas/core" == "*core.sequentialAndPrimitive@gsas/core"
  {
  }

  lemma ParallelText()
    ensures "*core.parallelAndPrimitive" + "@gsas/core" == "*core.parallelAndPrimitive@gsas/core"
  {
  }

  lemma ThresholdText()
    ensures "*core.thresholdPrimitive" + "@gsas/core" == "*core.thresholdPrimitive@gsas/core"
  {
  }

  lemma CompositeIdentity(p: Prim)
    requires p.Composite()
    ensures "type:" + Type(p) == IdentityOf(p)
  {
    if p.Sequential? { SequentialText(); } else if p.Parallel? { ParallelText(); } else { ThresholdText(); }
  }

  lemma CompositeDescribed(c: Codec, p: Prim)
    requires p.Composite()
    ensures Describe(c, p).d.typ == Type(p)
    ensures Describe(c, p).ok ==>
      Describe(c, p).d == Descriptor("type:" + Type(p), "", Type(p), Version(c, p), "", Version(c, p), "")
    ensures !Describe(c, p).ok ==> Describe(c, p).d.invalid == "configuration_invalid"
  {
  }

  lemma IdentityExact(c: Codec, p: Prim)
    requires Describe(c, p).ok
    ensures Describe(c, p).d.identity == IdentityOf(p)
  {
    if p.Leaf? { LeafExact(c, p); } else if p.Composite() { CompositeIdentity(p); CompositeDescribed(c, p); }
  }

  lemma ObjectsExact(p: Prim, q: Prim)
    ensures (Reference(p).None? || Reference(p) != Reference(q)) <==> !SameObject(p, q)
  {
  }

  lemma ReferencesExact(ps: seq<Prim>)
    ensures DistinctRefs(ps) <==> forall i, j :: 0 <= i < j < |ps| ==> !SameObject(ps[i], ps[j])
  {
    forall i, j | 0 <= i < j < |ps|
      ensures (Reference(ps[i]).None? || Reference(ps[i]) != Reference(ps[j])) <==> !SameObject(ps[i], ps[j])
    {
      ObjectsExact(ps[i], ps[j]);
    }
  }

  lemma IdentitiesExact(c: Codec, ps: seq<Prim>)
    requires forall i :: 0 <= i < |ps| ==> Describe(c, ps[i]).ok
    ensures DistinctIdentities(DescribeAll(c, ps)) <==>
      forall i, j :: 0 <= i < j < |ps| ==> IdentityOf(ps[i]) != IdentityOf(ps[j])
  {
    var ds := DescribeAll(c, ps);
    forall i | 0 <= i < |ps| ensures ds[i].d.identity == IdentityOf(ps[i]) {
      assert Describe(c, ps[i]).ok;
      IdentityExact(c, ps[i]);
    }
  }

  lemma DistinguishedExact(c: Codec, ps: seq<Prim>)
    requires forall i :: 0 <= i < |ps| ==> Describe(c, ps[i]).ok
    ensures Distinguished(ps) <==> DistinctRefs(ps) && DistinctIdentities(DescribeAll(c, ps))
  {
    ReferencesExact(ps);
    IdentitiesExact(c, ps);
  }

  /** One level: a composite is configured exactly when it is so by itself and its children are. */
  lemma ConfigOkByParts(c: Codec, p: Prim)
    requires p.Composite()
    ensures ConfigOk(c, p) <==> Locally(p) && forall i :: 0 <= i < |p.children| ==> Describe(c, p.children[i]).ok
  {
    var ds, ps := DescribeAll(c, p.children), p.children;
    if forall i :: 0 <= i < |ps| ==> Describe(c, ps[i]).ok {
      forall i | 0 <= i < |ps| ensures ds[i].ok { assert Describe(c, ps[i]).ok; }
      DistinguishedExact(c, ps);
    } else {
      var i :| 0 <= i < |ps| && !Describe(c, ps[i]).ok;
      assert !ds[i].ok;
    }
  }

  /** A primitive is configured exactly when it and everything below it is, each by itself. */
  lemma {:induction false} ConfiguredExactly(c: Codec, p: Prim)
    ensures Describe(c, p).ok <==> forall q :: Within(q, p) ==> Locally(q)
    decreases p
  {
    assert Within(p, p);
    if p.Leaf? {
      LeafExact(c, p);
    } else if p.Composite() {
      forall i | 0 <= i < |p.children| { ConfiguredExactly(c, p.children[i]); }
      ConfigOkByParts(c, p);
      if Describe(c, p).ok {
        forall q | Within(q, p) && q != p ensures Locally(q) {
          var i :| 0 <= i < |p.children| && Within(q, p.children[i]);
        }
      } else if Locally(p) {
        var i :| 0 <= i < |p.children| && !Describe(c, p.children[i]).ok;
        var q :| Within(q, p.children[i]) && !Locally(q);
        assert Within(q, p);
      }
    }
  }

  /** A valid composite has no leaf below it that does not answer for itself, and no misbuilt composite. */
  lemma ValidIsConfigured(c: Codec, p: Prim, q: Prim)
    requires p.Composite() && Run(c, p).valid && Within(q, p)
    ensures Locally(q)
    ensures q.Leaf? ==>
      && q.version.Some? && !Blank(q.version.value) && q.source.Some? && q.configuration.Some?
      && (q.named ==> q.name.Some? && !Blank(q.name.value))
  {
    ConfiguredExactly(c, p);
  }

  // ---------------------------------------------------------------- one child

  function TextValue(s: string): Tree {
    ScalarT("string", StrS(s))
  }

  /** A rejection that gives its reason and holds no evidence. */
  predicate Rejects(n: Normal, reason: string) {
    !n.valid && Slot(n.metadata, "reason") == TextValue(reason) && n.evidence == ListT("[]interface {}", false, [])
  }

  const CHANGED_TEXT := "primitive identity or version changed during evaluation"

  /** What a child is recorded as: its result; or a rejection that gives its error, or says that its
      description is another one afterwards. */
  lemma ChildMeans(d: Descriptor, r: Return, after: Described)
    ensures var o := ChildOutcome(d, r, after);
      && o.descriptor == d
      && (r.Failed? ==> Rejects(o.result, r.error) && o.error == Some(r.error))
      && (r.Returned? && after == Described(d, true) ==> o.result == r.n && o.error == None)
      && (r.Returned? && after != Described(d, true) ==> !o.result.valid && o.error.Some?)
      && (r.Returned? && after.ok && after.d != d ==> Rejects(o.result, CHANGED_TEXT) && o.error == Some(CHANGED_TEXT))
  {
  }

  /** A child with a stable description. */
  lemma OutcomeMeans(c: Codec, p: Prim)
    requires Describe(c, p).ok
    ensures OutcomeOf(c, p) == ChildOutcome(Describe(c, p).d, Observe(c, p), Described(Describe(c, p).d, true))
  {
  }

  /** The fields of a record in the evidence. */
  lemma EntryFields(o: Outcome, index: nat)
    ensures var e := Entry(o, index);
      && e.MapT? && e.tid == "map[string]interface {}"
      && e.entries.Keys - {"error"} == {"index", "identity", "name", "type", "version", "result"}
      && ("error" in e.entries <==> o.error.Some?)
      && Slot(e, "index") == ScalarT("int", IntS(index))
      && Slot(e, "identity") == TextValue(o.descriptor.identity)
      && Slot(e, "name") == TextValue(o.descriptor.name)
      && Slot(e, "type") == TextValue(o.descriptor.typ)
      && Slot(e, "version") == TextValue(o.descriptor.version)
      && (o.error.Some? ==> Slot(e, "error") == TextValue(o.error.value))
  {
  }

  lemma EntryResult(o: Outcome, index: nat)
    ensures var r := Slot(Entry(o, index), "result");
      && r.MapT? && r.entries.Keys == {"valid", "metadata", "evidence"}
      && Slot(r, "valid") == ScalarT("bool", BoolS(o.result.valid))
      && Slot(r, "metadata") == o.result.metadata && Slot(r, "evidence") == o.result.evidence
  {
  }

  // ---------------------------------------------------------------- the three results

  lemma NoteSlot(name: string, text: string)
    ensures Slot(Note(name, text), name) == TextValue(text)
  {
  }

  lemma FailureSlots(reason: string, index: nat)
    ensures Slot(FailureNote(reason, index), "reason") == TextValue(reason)
    ensures Slot(FailureNote(reason, index), "failed_index") == ScalarT("int", IntS(index))
  {
  }

  lemma LabelExact(d: Descriptor, index: nat)
    ensures Label(d, index) == LabelOf(d, index)
  {
  }

  /** Evidence is one record for each outcome, numbered, in the order given or in the one sorted order. */
  ghost predicate Records(evidence: Tree, os: seq<Outcome>) {
    && evidence.ListT? && evidence.tid == "[]interface {}" && !evidence.isArray && |evidence.items| == |os|
    && forall i :: 0 <= i < |os| ==> evidence.items[i] == Iface(Entry(os[i], i))
  }

  predicate Worth(os: seq<Outcome>, i: nat) {
    i < |os| && os[i].result.valid
  }

  /** The first outcome that is not valid, or their number. */
  ghost predicate FirstInvalid(os: seq<Outcome>, n: nat) {
    n <= |os| && (forall i :: 0 <= i < n ==> Worth(os, i)) && (n < |os| ==> !Worth(os, n))
  }

  lemma {:induction false} LeadingExact(os: seq<Outcome>, n: nat)
    requires FirstInvalid(os, n)
    ensures Leading(os) == if n < |os| then os[..n + 1] else os
  {
    if |os| > 0 && n > 0 {
      assert Worth(os, 0);
      forall i | 0 <= i < n - 1 ensures Worth(os[1..], i) { assert Worth(os, i + 1); }
      assert n < |os| ==> !Worth(os[1..], n - 1);
      LeadingExact(os[1..], n - 1);
    }
  }

  function LabelOf(d: Descriptor, index: nat): string {
    if d.name == "" && d.identity == "" then "primitive_" + Decimal(index)
    else if d.name == "" then d.identity else d.name
  }

  /** A verdict with the text that goes with it. */
  predicate Tells(n: Normal, valid: bool, text: string) {
    n.valid == valid && Slot(n.metadata, if valid then "message" else "reason") == TextValue(text)
  }

  /** The sequential operator stops at the first invalid child, names it and its index, and records the
      children up to it; otherwise all of them. */
  lemma SequentialFails(os: seq<Outcome>, n: nat)
    requires FirstInvalid(os, n) && n < |os|
    ensures var r := SequentialResult(os);
      && Tells(r, false, "Primitive " + LabelOf(os[n].descriptor, n) + " failed")
      && Slot(r.metadata, "failed_index") == ScalarT("int", IntS(n)) && Records(r.evidence, os[..n + 1])
  {
    LeadingExact(os, n);
    var r, name := SequentialResult(os), LabelOf(os[n].descriptor, n);
    LabelExact(os[n].descriptor, n);
    assert !Worth(os, n) && !os[..n + 1][n].result.valid;
    assert r == Halted(os[..n + 1]);
    FailureSlots("Primitive " + name + " failed", n);
  }

  lemma SequentialPasses(os: seq<Outcome>)
    requires FirstInvalid(os, |os|)
    ensures Tells(SequentialResult(os), true, "All primitives passed sequentially")
    ensures Records(SequentialResult(os).evidence, os)
  {
    LeadingExact(os, |os|);
    forall i | 0 <= i < |os| ensures os[i].result.valid { assert Worth(os, i); }
    NoteSlot("message", "All primitives passed sequentially");
  }

  lemma {:induction false} FailedLabelsExact(os: seq<Outcome>, l: string)
    ensures l in FailedLabels(os) <==>
      exists i :: 0 <= i < |os| && !Worth(os, i) && l == LabelOf(os[i].descriptor, i)
    ensures |FailedLabels(os)| + Passed(os) == |os|
  {
    if |os| > 0 {
      var n := |os| - 1;
      FailedLabelsExact(os[..n], l);
      assert os == os[..n] + [os[n]];
      forall i | 0 <= i < n ensures Worth(os[..n], i) <==> Worth(os, i) {}
      if !Worth(os, n) && l == LabelOf(os[n].descriptor, n) {
        assert l in FailedLabels(os);
      }
    }
  }

  lemma {:induction false} PassedExact(os: seq<Outcome>)
    ensures Passed(os) == |set i | 0 <= i < |os| && Worth(os, i)|
  {
    if |os| > 0 {
      var n := |os| - 1;
      PassedExact(os[..n]);
      assert os == os[..n] + [os[n]];
      var before, all := set i | 0 <= i < n && Worth(os[..n], i), set i | 0 <= i < |os| && Worth(os, i);
      forall i | 0 <= i < n ensures Worth(os[..n], i) <==> Worth(os, i) {}
      assert all == if Worth(os, n) then before + {n} else before;
    }
  }

  /** Descriptors are compared by these seven fields, in this order. */
  function Seven(d: Descriptor): seq<string> {
    [d.identity, d.name, d.typ, d.version, d.source, d.configuration, d.invalid]
  }

  /** The first k fields agree and the next is smaller. */
  predicate SmallerAt(f: seq<string>, g: seq<string>, k: int) {
    0 <= k < |f| == |g| && f[..k] == g[..k] && Less(f[k], g[k])
  }

  lemma DescriptorLessExact(a: Descriptor, b: Descriptor)
    ensures DescriptorLess(a, b) <==> exists k :: SmallerAt(Seven(a), Seven(b), k)
  {
    FieldsLess(a, b);
    ListLessExact(Seven(a), Seven(b));
  }

  lemma SmallerLater(f: seq<string>, g: seq<string>, k: int)
    requires |f| == |g| > 0 && f[0] == g[0]
    ensures SmallerAt(f, g, k) <==> SmallerAt(f[1..], g[1..], k - 1)
  {
    LessTrichotomy(f[0], f[0]);
    if 0 < k < |f| {
      assert f[..k] == [f[0]] + f[1..][..k - 1] && g[..k] == [g[0]] + g[1..][..k - 1];
    }
  }

  lemma {:induction false} ListLessExact(f: seq<string>, g: seq<string>)
    requires |f| == |g|
    ensures ListLess(f, g) <==> exists k :: SmallerAt(f, g, k)
  {
    if |f| > 0 && f[0] == g[0] {
      ListLessExact(f[1..], g[1..]);
      forall k { SmallerLater(f, g, k); }
      if k :| SmallerAt(f[1..], g[1..], k) { assert SmallerAt(f, g, k + 1) by { SmallerLater(f, g, k + 1); } }
    } else if |f| > 0 {
      assert f[..0] == g[..0] && (Less(f[0], g[0]) ==> SmallerAt(f, g, 0));
      forall k | 0 < k < |f| ensures f[..k] != g[..k] { assert f[..k][0] == f[0] && g[..k][0] == g[0]; }
    }
  }

  /** Outcomes are compared by descriptor, and then by the bytes of their results. */
  lemma OutcomeLessExact(a: Outcome, b: Outcome)
    ensures OutcomeLess(a, b) <==>
      || DescriptorLess(a.descriptor, b.descriptor)
      || (a.descriptor == b.descriptor
          && Less(CanonicalEncoding.ValuePreimage(NormalTree(a.result)),
                  CanonicalEncoding.ValuePreimage(NormalTree(b.result))))
  {
    DescriptorOrder(a.descriptor, b.descriptor, a.descriptor);
  }

  /** The evidence of the two order-free operators: the outcomes in sorted order. */
  ghost predicate SortedRecords(evidence: Tree, os: seq<Outcome>) {
    exists sorted :: multiset(sorted) == multiset(os) && Sorted(OutcomeLessEq, sorted) && Records(evidence, sorted)
  }

  lemma EvidenceSorted(os: seq<Outcome>)
    ensures SortedRecords(Evidence(os, true), os)
  {
    OutcomeTotal();
    StableSortSorts(OutcomeLessEq, os);
    assert Records(Evidence(os, true), StableSort(OutcomeLessEq, os));
  }

  /** The parallel operator is valid when all its children are; otherwise it names the others, sorted. */
  lemma ParallelMeans(os: seq<Outcome>)
    ensures SortedRecords(ParallelResult(os).evidence, os)
    ensures (forall i :: 0 <= i < |os| ==> Worth(os, i)) ==>
      Tells(ParallelResult(os), true, "All primitives passed in parallel")
    ensures (exists i :: 0 <= i < |os| && !Worth(os, i)) ==>
      Tells(ParallelResult(os), false, "Failed primitives: [" + Joined(StableSort(LessEq, FailedLabels(os))) + "]")
  {
    EvidenceSorted(os);
    PassesExact(os);
    NoteSlot("message", "All primitives passed in parallel");
    NoteSlot("reason", "Failed primitives: [" + Joined(StableSort(LessEq, FailedLabels(os))) + "]");
  }

  lemma PassesExact(os: seq<Outcome>)
    ensures AllPassed(os) <==> forall i :: 0 <= i < |os| ==> Worth(os, i)
  {
    if AllPassed(os) {
      forall i | 0 <= i < |os| ensures Worth(os, i) {}
    } else {
      var i :| 0 <= i < |os| && !os[i].result.valid;
      assert !Worth(os, i);
    }
  }

  /** The threshold operator counts. */
  lemma ThresholdMeans(os: seq<Outcome>, k: int)
    ensures SortedRecords(ThresholdResult(os, k).evidence, os)
    ensures var n := |set i | 0 <= i < |os| && Worth(os, i)|;
      var passed := Decimal(n) + " of " + Decimal(|os|) + " primitives passed";
      if n >= k then Tells(ThresholdResult(os, k), true, passed)
      else Tells(ThresholdResult(os, k), false, "Only " + (passed + (", need at least " + Decimal(k))))
  {
    EvidenceSorted(os);
    PassedExact(os);
    var n := Passed(os);
    NoteSlot("message", Enough(n, |os|));
    NoteSlot("reason", TooFew(n, |os|, k));
    TooFewText(Decimal(n), Decimal(|os|), Decimal(k));
  }

  lemma TooFewText(n: string, of: string, k: string)
    ensures "Only " + n + " of " + of + " primitives passed, need at least " + k
         == "Only " + ((n + " of " + of + " primitives passed") + (", need at least " + k))
  {
    assert " primitives passed, need at least " == " primitives passed" + ", need at least ";
  }

  // ---------------------------------------------------------------- versions

  /** The field of an optional text, which is left out when it is empty. */
  predicate Optional(fields: map<string, Json>, name: string, text: string) {
    if text == "" then name !in fields else name in fields && fields[name] == JStr(text)
  }

  /** The fields of a descriptor's document. */
  lemma DescriptorFields(d: Descriptor)
    ensures DescriptorDoc(d).JObj?
    ensures var f := DescriptorDoc(d).fields;
      && {"identity", "name", "type", "version"} <= f.Keys
      && f["identity"] == JStr(d.identity) && f["name"] == JStr(d.name) && f["type"] == JStr(d.typ)
      && f["version"] == JStr(d.version)
      && Optional(f, "source_fingerprint", d.source) && Optional(f, "configuration_fingerprint", d.configuration)
      && Optional(f, "invalid", d.invalid)
      && f.Keys <= {"identity", "name", "type", "version", "source_fingerprint", "configuration_fingerprint", "invalid"}
  {
  }

  /** A composite's version: its operator and the digest of a document of operator, threshold and children,
      the latter sorted by the two operators that do not care about their order. */
  lemma VersionMeans(c: Codec, p: Prim) returns (doc: Json, listed: seq<Descriptor>)
    requires p.Composite()
    ensures VersionText(c, p, doc) && |listed| == |p.children| && VersionFields(p, doc, listed) && Listed(c, p, listed)
  {
    var ds := DescriptorsOf(DescribeAll(c, p.children));
    listed, doc := Arranged(Operator(p), ds), VersionPreimage(Operator(p), Bound(p), ds);
    ArrangedExact(Operator(p), ds);
    OperatorTexts();
  }

  lemma OperatorTexts()
    ensures SEQUENTIAL + "-sha256-" == "sequential-and-sha256-" && PARALLEL + "-sha256-" == "parallel-and-sha256-"
    ensures THRESHOLD + "-sha256-" == "threshold-sha256-"
    ensures SEQUENTIAL == "sequential-and" && PARALLEL == "parallel-and" && THRESHOLD == "threshold"
    ensures !OrderFree(SEQUENTIAL) && OrderFree(PARALLEL) && OrderFree(THRESHOLD)
  {
    assert SEQUENTIAL[0] == 's' && PARALLEL[0] == 'p' && THRESHOLD[0] == 't';
  }

  lemma ArrangedExact(operator: string, ds: seq<Descriptor>)
    ensures |Arranged(operator, ds)| == |ds|
    ensures !OrderFree(operator) ==> Arranged(operator, ds) == ds
    ensures OrderFree(operator) ==>
      Sorted(DescriptorLessEq, Arranged(operator, ds)) && multiset(Arranged(operator, ds)) == multiset(ds)
  {
    DescriptorTotal();
    StableSortSorts(DescriptorLessEq, ds);
    assert |multiset(StableSort(DescriptorLessEq, ds))| == |multiset(ds)|;
  }

  ghost predicate VersionText(c: Codec, p: Prim, doc: Json) {
    && (p.Sequential? ==> Version(c, p) == "sequential-and-sha256-" + Hash(c, doc))
    && (p.Parallel? ==> Version(c, p) == "parallel-and-sha256-" + Hash(c, doc))
    && (p.AtLeast? ==> Version(c, p) == "threshold-sha256-" + Hash(c, doc))
  }

  ghost predicate VersionFields(p: Prim, doc: Json, listed: seq<Descriptor>)
    requires p.Composite()
  {
    && doc.JObj? && {"operator", "children"} <= doc.fields.Keys <= {"operator", "children", "threshold"}
    && doc.fields["operator"] ==
       JStr(if p.Sequential? then "sequential-and" else if p.Parallel? then "parallel-and" else "threshold")
    && (if p.AtLeast? && p.k != 0 then "threshold" in doc.fields && doc.fields["threshold"] == JNum(p.k)
        else "threshold" !in doc.fields)
    && doc.fields["children"].JArr? && |doc.fields["children"].items| == |listed| == |p.children|
    && forall i :: 0 <= i < |listed| ==> doc.fields["children"].items[i] == DescriptorDoc(listed[i])
  }

  ghost predicate Listed(c: Codec, p: Prim, listed: seq<Descriptor>)
    requires p.Composite() && |listed| == |p.children|
  {
    if p.Sequential? then forall i :: 0 <= i < |listed| ==> listed[i] == Describe(c, p.children[i]).d
    else
      && Sorted(DescriptorLessEq, listed)
      && multiset(listed) == multiset(DescriptorsOf(DescribeAll(c, p.children)))
  }
}
