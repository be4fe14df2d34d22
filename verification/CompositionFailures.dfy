/** Configured composites that return different results from one evaluation to the next, their children and
    the order of these being the same (core/composition_operators.go, core/primitive_contracts.go). */
module CompositionFailures {
  import opened Values
  import opened Frames
  import opened ObjectGraph
  import opened PrimitiveContracts
  import opened FailureTexts
  import opened ResultNormalizer
  import opened ProofEncoding
  import opened ProofTheory
  import opened Descriptors
  import opened Composition
  import opened CompositionDepth
  import opened CompositionTexts
  import opened CompositionResults

  /** A threshold over one child: it shows whatever the child shows. */
  function Sole(x: Prim): Prim {
    AtLeast(0, 1, [x], "")
  }

  lemma SoleShows(c: Codec, x: Prim)
    requires Describe(c, x).ok && WellFormed(x)
    ensures ConfigOk(c, Sole(x)) && WellFormed(Sole(x)) && (OneResult(c, Sole(x)) <==> OneOutcome(c, x))
  {
    var p := Sole(x);
    assert DescribeAll(c, p.children) == [Describe(c, x)];
    OneResultExact(c, p);
    assert p.children[0] == x && Evaluated(p) == 1;
  }

  /** What Evaluate returns: two channels in the metadata. */
  function TwoChannels(): RawResult {
    Fields(map[0 := MapCell(map["a" := VIface(VOpaque("chan int")), "b" := VIface(VOpaque("chan int"))])],
           map["valid" := VIface(VScalar("bool", BoolS(true))), "metadata" := VIface(VMap(MAP_TYPE, Some(0))),
               "evidence" := VIface(VSlice(SLICE_TYPE, None, 0))])
  }

  function ChannelText(pr: Printer, k: string): string {
    "invalid metadata: " + (FieldLead(pr, k) + ("unsupported value type " + pr.typeText("chan int")))
  }

  lemma ChannelHeap()
    ensures ValidRaw(TwoChannels())
  {
    var h := TwoChannels().h;
    assert ValidCell(h, h[0]);
  }

  lemma MetadataTexts(pr: Printer, k: string)
    requires (k == "a" || k == "b") && ValidRaw(TwoChannels())
    ensures FieldLead(pr, k) + ("unsupported value type " + pr.typeText("chan int"))
      in GraphTexts(pr, TwoChannels().h, VMap(MAP_TYPE, Some(0)), 0)
  {
    var h, v, text := TwoChannels().h, VMap(MAP_TYPE, Some(0)), "unsupported value type " + pr.typeText("chan int");
    PartsValid(h, v);
    var es := ObjectGraph.Entries(h, v);
    assert es[k] == VIface(VOpaque("chan int"));
    ChannelAlone(pr, h);
    FieldText(pr, GraphEntryTexts(pr, h, es, 1), k, text);
  }

  lemma ChannelAlone(pr: Printer, h: Heap)
    requires Closed(h)
    ensures GraphTexts(pr, h, VIface(VOpaque("chan int")), 1) == {"unsupported value type " + pr.typeText("chan int")}
  {
    assert GraphTexts(pr, h, VOpaque("chan int"), 2) == LeafTexts(pr, Opaque("chan int"));
  }

  lemma ChannelTexts(pr: Printer, k: string)
    requires (k == "a" || k == "b") && ValidRaw(TwoChannels())
    ensures ChannelText(pr, k) in RawTexts(pr, TwoChannels())
  {
    MetadataTexts(pr, k);
    ChannelFields();
    MetadataRejected(pr, TwoChannels(), FieldLead(pr, k) + ("unsupported value type " + pr.typeText("chan int")));
  }

  lemma ChannelFields()
    ensures HasVerdict(TwoChannels().fields) && {"metadata", "evidence"} <= TwoChannels().fields.Keys
    ensures Open(TwoChannels().fields["metadata"]) == VMap(MAP_TYPE, Some(0))
  {
  }

  /** Texts that name different fields are different. */
  lemma FieldsDiffer(lead: string, pr: Printer, j: string, k: string, s: string, t: string)
    requires |j| > 0 && |k| > 0 && j[0] != k[0]
    requires (forall i :: 0 <= i < |j| ==> Printable(j[i])) && forall i :: 0 <= i < |k| ==> Printable(k[i])
    ensures lead + (FieldLead(pr, j) + s) != lead + (FieldLead(pr, k) + t)
  {
    assert (lead + (FieldLead(pr, j) + s))[|lead| + 7] == j[0] && (lead + (FieldLead(pr, k) + t))[|lead| + 7] == k[0];
  }

  function Faulty(answer: Answer): Prim {
    Leaf("main.faulty@main", None, true, Some("faulty"), Some("1"), Some(""), Some(""), answer, "")
  }

  /** A deterministic leaf with two channels in its metadata: a configured threshold over it, its one child
      in its one order, returns different results. */
  lemma TwoChannelsTwoResults(c: Codec)
    ensures ValidRaw(TwoChannels())
    ensures var p := Sole(Faulty(AnswerOf(c, TwoChannels())));
      WellFormed(p) && ConfigOk(c, p) && !OneResult(c, p)
  {
    var pr := c.printer;
    ChannelHeap();
    ChannelTexts(pr, "a");
    ChannelTexts(pr, "b");
    ChannelsDiffer(pr);
    RejectedWithText(pr, TwoChannels());
    FaultyShows(c, RawTexts(pr, TwoChannels()), ChannelText(pr, "a"), ChannelText(pr, "b"));
  }

  lemma ChannelsDiffer(pr: Printer)
    ensures ChannelText(pr, "a") != ChannelText(pr, "b")
  {
    var text := "unsupported value type " + pr.typeText("chan int");
    FieldsDiffer("invalid metadata: ", pr, "a", "b", text, text);
  }

  /** A threshold over a leaf that may fail with two texts returns different results. */
  lemma FaultyShows(c: Codec, texts: set<string>, s: string, t: string)
    requires s in texts && t in texts && s != t
    ensures var p := Sole(Faulty(Broke(texts))); WellFormed(p) && ConfigOk(c, p) && !OneResult(c, p)
  {
    LeafOneOutcome(c, Faulty(Broke(texts)));
    SoleShows(c, Faulty(Broke(texts)));
  }

  /** A leaf whose metadata and evidence are both too deep for the composite above it to be normalised. */
  function DeepTwice(): Prim {
    Leaf("main.deep@main", None, true, Some("deep"), Some("1"), Some(""), Some(""),
         Answered(Normal(true, DeepContext(29), BoxedNest(30))), "")
  }

  lemma DeepText(pr: Printer, t: Tree, depth: nat)
    requires !Fits(t, VALUE_DEPTH - depth)
    ensures TreeTexts(pr, t, depth) != {}
  {
    FailsWithText(pr, t, depth);
    NormSucceeds(t, depth);
  }

  lemma DeepFacts(pr: Printer)
    ensures TreeTexts(pr, DeepContext(29), 6) != {} && TreeTexts(pr, BoxedNest(30), 6) != {}
  {
    DeepContextFacts(29, VALUE_DEPTH - 6);
    BoxedNestFacts(30, VALUE_DEPTH - 6);
    DeepText(pr, DeepContext(29), 6);
    DeepText(pr, BoxedNest(30), 6);
  }

  lemma DeepNormal()
    ensures IsNormal(Normal(true, DeepContext(29), BoxedNest(30)))
  {
    BoxedNestFacts(30, 0);
    BoxedNestFacts(29, 0);
    OneFieldPlain("deep", BoxedNest(29));
  }

  lemma OneFieldPlain(name: string, t: Tree)
    requires Plain(t) && t != Nil
    ensures Plain(MapT(MAP_TYPE, map[name := Iface(t)]))
  {
  }

  /** Where a part of a recorded result is too deep. */
  function Lead(pr: Printer, k: string, s: string): string {
    "item " + Decimal(0) + ": " + (FieldLead(pr, "result") + (FieldLead(pr, k) + s))
  }

  lemma PartText(pr: Printer, o: Outcome, k: string, s: string)
    requires (k == "metadata" && s in TreeTexts(pr, o.result.metadata, 6))
          || (k == "evidence" && s in TreeTexts(pr, o.result.evidence, 6))
    ensures FieldLead(pr, "result") + (FieldLead(pr, k) + s) in TreeTexts(pr, Entry(o, 0), 2)
  {
    var n, entry := NormalTree(o.result), Entry(o, 0);
    assert s in EntryTexts(pr, n, 5)[k];
    FieldText(pr, EntryTexts(pr, n, 5), k, s);
    assert entry.entries["result"] == Iface(n);
    assert TreeTexts(pr, entry.entries["result"], 3) == TreeTexts(pr, n, 4) == FieldTexts(pr, EntryTexts(pr, n, 5));
    FieldText(pr, EntryTexts(pr, entry, 3), "result", FieldLead(pr, k) + s);
  }

  lemma EvidenceText(pr: Printer, o: Outcome, s: string)
    requires s in TreeTexts(pr, Entry(o, 0), 2)
    ensures "item " + Decimal(0) + ": " + s in TreeTexts(pr, Evidence([o], false), 0)
  {
    var list := Evidence([o], false);
    var parts := AllTexts(pr, list, 1);
    assert list.items[0] == Iface(Entry(o, 0)) && parts[0] == TreeTexts(pr, Entry(o, 0), 2);
    FirstBadItem(pr, parts, 0, 0, s);
  }

  /** The composite around the leaf. */
  function Around(): Prim {
    Sequential(1, [DeepTwice()], "")
  }

  lemma AroundRuns(c: Codec)
    ensures Describe(c, DeepTwice()).ok && ConfigOk(c, Around()) && WellFormed(Around())
    ensures Run(c, Around()) == SequentialResult([OutcomeOf(c, DeepTwice())])
    ensures OutcomeOf(c, DeepTwice()).result == DeepTwice().answer.n
  {
    DeepNormal();
    assert DescribeAll(c, Around().children) == [Describe(c, DeepTwice())];
    assert Outcomes(c, Around().children) == [OutcomeOf(c, DeepTwice())];
    RunIs(c, Around());
  }

  lemma AroundText(c: Codec, k: string, s: string)
    requires var n := DeepTwice().answer.n;
      || (k == "metadata" && s in TreeTexts(c.printer, n.metadata, 6))
      || (k == "evidence" && s in TreeTexts(c.printer, n.evidence, 6))
    ensures MayFailWith(c, Around(), "invalid evidence: " + Lead(c.printer, k, s)) && !Shallow(Run(c, Around()))
  {
    var o := OutcomeOf(c, DeepTwice());
    AroundResult(c);
    PartText(c.printer, o, k, s);
    EvidenceText(c.printer, o, FieldLead(c.printer, "result") + (FieldLead(c.printer, k) + s));
    AroundFails(c, Run(c, Around()), Lead(c.printer, k, s));
    AroundItself(c);
  }

  lemma AroundResult(c: Codec)
    ensures Run(c, Around()).metadata == Note("message", "All primitives passed sequentially")
    ensures Run(c, Around()).evidence == Evidence([OutcomeOf(c, DeepTwice())], false)
    ensures Plain(Run(c, Around()).evidence)
    ensures OutcomeOf(c, DeepTwice()).result == DeepTwice().answer.n
  {
    AroundRuns(c);
    RunNormal(c, Around());
    assert Leading([OutcomeOf(c, DeepTwice())]) == [OutcomeOf(c, DeepTwice())];
  }

  lemma AroundItself(c: Codec)
    ensures Evaluation(c, Around(), Around())
  {
  }

  lemma NoteTexts(pr: Printer, text: string)
    ensures TreeTexts(pr, Note("message", text), 0) == {}
  {
    NoteFits("message", text, VALUE_DEPTH);
    NotePlain("message", text);
    PlainNormalises(Note("message", text));
    FailsWithText(pr, Note("message", text), 0);
  }

  lemma TextMeansDeep(pr: Printer, t: Tree)
    requires Plain(t) && TreeTexts(pr, t, 0) != {}
    ensures !Fits(t, VALUE_DEPTH)
  {
    PlainNormalises(t);
    FailsWithText(pr, t, 0);
  }

  lemma AroundFails(c: Codec, n: Normal, s: string)
    requires n.metadata == Note("message", "All primitives passed sequentially") && n.evidence.ListT?
    requires Plain(n.evidence) && s in TreeTexts(c.printer, n.evidence, 0)
    ensures "invalid evidence: " + s in NormalTexts(c, n) && !Shallow(n)
  {
    NoteTexts(c.printer, "All primitives passed sequentially");
    TextMeansDeep(c.printer, n.evidence);
    PrefixedText("invalid evidence: ", TreeTexts(c.printer, n.evidence, 0), s);
  }

  /** So does one over a composite that is too deep in two places, though its leaf answers normally. */
  lemma DeepTwiceTwoResults(c: Codec)
    ensures var p := Sole(Around()); WellFormed(p) && ConfigOk(c, p) && !OneResult(c, p)
  {
    var pr, n := c.printer, DeepTwice().answer.n;
    AroundRuns(c);
    DeepFacts(pr);
    var s :| s in TreeTexts(pr, n.metadata, 6);
    var t :| t in TreeTexts(pr, n.evidence, 6);
    AroundText(c, "metadata", s);
    AroundText(c, "evidence", t);
    LeadsDiffer(pr, s, t);
    TextSeen(c, Around());
    SoleShows(c, Around());
  }

  lemma Regroup(a: string, b: string, f: string, rest: string)
    ensures a + (b + (f + rest)) == (a + (b + f)) + rest
  {
  }

  lemma LeadsDiffer(pr: Printer, s: string, t: string)
    ensures "invalid evidence: " + Lead(pr, "metadata", s) != "invalid evidence: " + Lead(pr, "evidence", t)
  {
    var first, item, field := "invalid evidence: ", "item " + Decimal(0) + ": ", FieldLead(pr, "result");
    Regroup(first, item, field, FieldLead(pr, "metadata") + s);
    Regroup(first, item, field, FieldLead(pr, "evidence") + t);
    FieldsDiffer(first + (item + field), pr, "metadata", "evidence", s, t);
  }
}
