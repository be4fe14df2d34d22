/** Composite child descriptors, their order, and composite versions (core/composition_operators.go). */
module Descriptors {
  import opened Frames
  import opened Order
  import opened ProofEncoding
  import opened ProofTheory

  datatype Descriptor = Descriptor(identity: string, name: string, typ: string, version: string,
                                   source: string, configuration: string, invalid: string)

  // ---------------------------------------------------------------- order

  predicate DescriptorLess(a: Descriptor, b: Descriptor) {
    if a.identity != b.identity then Less(a.identity, b.identity)
    else if a.name != b.name then Less(a.name, b.name)
    else if a.typ != b.typ then Less(a.typ, b.typ)
    else if a.version != b.version then Less(a.version, b.version)
    else if a.source != b.source then Less(a.source, b.source)
    else if a.configuration != b.configuration then Less(a.configuration, b.configuration)
    else Less(a.invalid, b.invalid)
  }

  function Fields(d: Descriptor): seq<string> {
    [d.identity, d.name, d.typ, d.version, d.source, d.configuration, d.invalid]
  }

  /** Lexicographic order on equally long lists of strings. */
  predicate ListLess(a: seq<string>, b: seq<string>)
    requires |a| == |b|
  {
    |a| > 0 && if a[0] != b[0] then Less(a[0], b[0]) else ListLess(a[1..], b[1..])
  }

  lemma {:induction false} ListTrichotomy(a: seq<string>, b: seq<string>)
    requires |a| == |b|
    ensures ListLess(a, b) || a == b || ListLess(b, a)
    ensures !(ListLess(a, b) && ListLess(b, a))
    ensures !ListLess(a, a)
  {
    if |a| > 0 {
      LessTrichotomy(a[0], b[0]);
      ListTrichotomy(a[1..], b[1..]);
      ListTrichotomy(a[1..], a[1..]);
      assert a == [a[0]] + a[1..] && b == [b[0]] + b[1..];
    }
  }

  lemma {:induction false} ListTransitive(a: seq<string>, b: seq<string>, c: seq<string>)
    requires |a| == |b| == |c| && ListLess(a, b) && ListLess(b, c)
    ensures ListLess(a, c)
  {
    if a[0] == b[0] == c[0] {
      ListTransitive(a[1..], b[1..], c[1..]);
    } else {
      LessTrichotomy(a[0], b[0]);
      LessTrichotomy(b[0], c[0]);
      if a[0] != b[0] && b[0] != c[0] {
        LessTransitive(a[0], b[0], c[0]);
        LessTrichotomy(a[0], c[0]);
      }
    }
  }

  lemma FieldsLess(a: Descriptor, b: Descriptor)
    ensures DescriptorLess(a, b) <==> ListLess(Fields(a), Fields(b))
    ensures Fields(a) == Fields(b) ==> a == b
  {
    var f, g := Fields(a), Fields(b);
    TailLess(f, g, 0);
    LessTrichotomy(a.invalid, a.invalid);
    assert TailOrder(f, g, 6) <==> Less(a.invalid, b.invalid);
    assert TailOrder(f, g, 4) <==>
      if f[4] != g[4] then Less(f[4], g[4]) else if f[5] != g[5] then Less(f[5], g[5]) else TailOrder(f, g, 6);
    assert TailOrder(f, g, 2) <==>
      if f[2] != g[2] then Less(f[2], g[2]) else if f[3] != g[3] then Less(f[3], g[3]) else TailOrder(f, g, 4);
    if f == g {
      assert f[0] == g[0] && f[1] == g[1] && f[2] == g[2] && f[3] == g[3] && f[4] == g[4] && f[5] == g[5];
      assert f[6] == g[6];
    }
  }

  lemma TailLess(f: seq<string>, g: seq<string>, k: nat)
    requires |f| == |g| == 7 && k <= 7
    ensures ListLess(f[k..], g[k..]) <==> TailOrder(f, g, k)
    decreases 7 - k
  {
    if k < 7 {
      TailLess(f, g, k + 1);
      assert f[k..][1..] == f[k + 1..] && g[k..][1..] == g[k + 1..];
    }
    assert f[0..] == f && g[0..] == g;
  }

  predicate TailOrder(f: seq<string>, g: seq<string>, k: nat)
    requires |f| == |g| == 7 && k <= 7
    decreases 7 - k
  {
    k < 7 && if f[k] != g[k] then Less(f[k], g[k]) else TailOrder(f, g, k + 1)
  }

  /** descriptorLess is a strict total order whose ties are full equality. */
  lemma DescriptorOrder(a: Descriptor, b: Descriptor, c: Descriptor)
    ensures DescriptorLess(a, b) || a == b || DescriptorLess(b, a)
    ensures !(DescriptorLess(a, b) && DescriptorLess(b, a)) && !DescriptorLess(a, a)
    ensures DescriptorLess(a, b) && DescriptorLess(b, c) ==> DescriptorLess(a, c)
  {
    var f, g, h := Fields(a), Fields(b), Fields(c);
    FieldsLess(a, b);
    FieldsLess(b, a);
    FieldsLess(a, a);
    FieldsLess(b, c);
    FieldsLess(a, c);
    ListTrichotomy(f, g);
    if ListLess(f, g) && ListLess(g, h) {
      ListTransitive(f, g, h);
    }
  }

  predicate DescriptorLessEq(a: Descriptor, b: Descriptor) {
    !DescriptorLess(b, a)
  }

  lemma DescriptorTotal()
    ensures TotalPreorder(DescriptorLessEq)
    ensures forall a, b :: DescriptorLessEq(a, b) && DescriptorLessEq(b, a) ==> a == b
  {
    forall a, b ensures DescriptorLessEq(a, b) || DescriptorLessEq(b, a)
      ensures DescriptorLessEq(a, b) && DescriptorLessEq(b, a) ==> a == b
    {
      DescriptorOrder(a, b, a);
    }
    forall a, b, c | DescriptorLessEq(a, b) && DescriptorLessEq(b, c) ensures DescriptorLessEq(a, c) {
      DescriptorOrder(a, b, c);
      DescriptorOrder(b, c, a);
      DescriptorOrder(c, a, b);
    }
  }

  // ---------------------------------------------------------------- versions

  function Kept(entries: map<string, Json>, name: string, text: string): map<string, Json> {
    if text == "" then entries else entries[name := JStr(text)]
  }

  /** A descriptor's JSON document; empty fingerprints and notes are omitted. */
  function DescriptorDoc(d: Descriptor): Json {
    var base := map["identity" := JStr(d.identity), "name" := JStr(d.name), "type" := JStr(d.typ),
                    "version" := JStr(d.version)];
    var bound := Kept(Kept(base, "source_fingerprint", d.source), "configuration_fingerprint", d.configuration);
    JObj(Kept(bound, "invalid", d.invalid))
  }

  lemma DescriptorDocInjective(a: Descriptor, b: Descriptor)
    requires DescriptorDoc(a) == DescriptorDoc(b)
    ensures a == b
  {
    var f, g := DescriptorDoc(a).fields, DescriptorDoc(b).fields;
    assert f["identity"] == g["identity"] && f["name"] == g["name"] && f["type"] == g["type"];
    assert f["version"] == g["version"];
    assert "source_fingerprint" in f <==> "source_fingerprint" in g;
    assert "configuration_fingerprint" in f <==> "configuration_fingerprint" in g;
    assert "invalid" in f <==> "invalid" in g;
    if "source_fingerprint" in f { assert f["source_fingerprint"] == g["source_fingerprint"]; }
    if "configuration_fingerprint" in f { assert f["configuration_fingerprint"] == g["configuration_fingerprint"]; }
    if "invalid" in f { assert f["invalid"] == g["invalid"]; }
  }

  function DescriptorDocs(ds: seq<Descriptor>): (r: seq<Json>)
    ensures |r| == |ds| && forall i :: 0 <= i < |r| ==> r[i] == DescriptorDoc(ds[i])
  {
    seq(|ds|, i requires 0 <= i < |ds| => DescriptorDoc(ds[i]))
  }

  /** The document compositeVersion hashes, given its children's descriptors in the order it lists them;
      a zero threshold is omitted. */
  function VersionDoc(operator: string, threshold: int, ds: seq<Descriptor>): Json {
    var base := map["operator" := JStr(operator), "children" := JArr(DescriptorDocs(ds))];
    JObj(if threshold == 0 then base else base["threshold" := JNum(threshold)])
  }

  lemma VersionDocInjective(o: string, k: int, ds: seq<Descriptor>, o': string, k': int, ds': seq<Descriptor>)
    requires VersionDoc(o, k, ds) == VersionDoc(o', k', ds')
    ensures o == o' && k == k' && ds == ds'
  {
    var f, g := VersionDoc(o, k, ds).fields, VersionDoc(o', k', ds').fields;
    assert f["operator"] == g["operator"] && f["children"] == g["children"];
    assert "threshold" in f <==> "threshold" in g;
    if "threshold" in f { assert f["threshold"] == g["threshold"]; }
    var a, b := DescriptorDocs(ds), DescriptorDocs(ds');
    forall i | 0 <= i < |ds| ensures ds[i] == ds'[i] {
      assert a[i] == b[i];
      DescriptorDocInjective(ds[i], ds'[i]);
    }
  }

  const SEQUENTIAL := "sequential-and"
  const PARALLEL := "parallel-and"
  const THRESHOLD := "threshold"

  predicate OrderFree(operator: string) {
    operator == PARALLEL || operator == THRESHOLD
  }

  function Arranged(operator: string, ds: seq<Descriptor>): seq<Descriptor> {
    if OrderFree(operator) then StableSort(DescriptorLessEq, ds) else ds
  }

  function VersionPreimage(operator: string, threshold: int, ds: seq<Descriptor>): Json {
    VersionDoc(operator, threshold, Arranged(operator, ds))
  }

  /** Go's unstable sort has one possible result here. */
  lemma AnySortAgrees(ds: seq<Descriptor>, sorted: seq<Descriptor>)
    requires multiset(sorted) == multiset(ds) && Sorted(DescriptorLessEq, sorted)
    ensures sorted == StableSort(DescriptorLessEq, ds)
  {
    DescriptorTotal();
    StableSortSorts(DescriptorLessEq, ds);
    SortedUnique(DescriptorLessEq, sorted, StableSort(DescriptorLessEq, ds));
  }

  /** Two composites hash the same document exactly when operator, threshold and children agree: as a
      sequence for the sequential operator, as a multiset for the other two. */
  lemma VersionPreimageExact(o: string, k: int, ds: seq<Descriptor>, o': string, k': int, ds': seq<Descriptor>)
    ensures VersionPreimage(o, k, ds) == VersionPreimage(o', k', ds')
      <==> o == o' && k == k' && if OrderFree(o) then multiset(ds) == multiset(ds') else ds == ds'
  {
    DescriptorTotal();
    StableSortSorts(DescriptorLessEq, ds);
    StableSortSorts(DescriptorLessEq, ds');
    if VersionPreimage(o, k, ds) == VersionPreimage(o', k', ds') {
      VersionDocInjective(o, k, Arranged(o, ds), o', k', Arranged(o', ds'));
    } else if o == o' && OrderFree(o) && multiset(ds) == multiset(ds') {
      AnySortAgrees(ds, StableSort(DescriptorLessEq, ds'));
    }
  }

  /** compositeVersion */
  function CompositeVersion(c: Codec, operator: string, threshold: int, ds: seq<Descriptor>): string {
    operator + "-sha256-" + Hash(c, VersionPreimage(operator, threshold, ds))
  }

  /** Equal versions of two composites of one operator mean equal children, or a collision. */
  lemma VersionBinds(c: Codec, o: string, k: int, ds: seq<Descriptor>, k': int, ds': seq<Descriptor>)
    requires CompositeVersion(c, o, k, ds) == CompositeVersion(c, o, k', ds')
    ensures || (k == k' && if OrderFree(o) then multiset(ds) == multiset(ds') else ds == ds')
            || Collide(c, VersionPreimage(o, k, ds), VersionPreimage(o, k', ds'))
  {
    var h, h' := Hash(c, VersionPreimage(o, k, ds)), Hash(c, VersionPreimage(o, k', ds'));
    var lead := o + "-sha256-";
    assert (lead + h)[|lead|..] == h && (lead + h')[|lead|..] == h';
    VersionPreimageExact(o, k, ds, o, k', ds');
  }
}
