/** The canonical bytes spelled out: what is written for each kind of value, and in which order. */
module ByteFormats {
  import opened Values
  import opened Frames
  import opened CanonicalEncoding
  import opened Order
  import TI = TypeIdentifiers

  const ZERO: char := 0 as char
  const ONE: char := 1 as char

  // ---------------------------------------------------------------- numbers and frames

  lemma {:induction false} BigEndianDigit(n: nat, k: nat, i: nat)
    requires i < k
    ensures Pow256(k - 1 - i) > 0 && BigEndian(n, k)[i] as int == n / Pow256(k - 1 - i) % 256
    decreases k
  {
    PowPositive(k - 1 - i);
    if i < k - 1 {
      BigEndianDigit(n / 256, k - 1, i);
      PowPositive(k - 2 - i);
      DivideTwice(n, Pow256(k - 2 - i));
    }
  }

  lemma {:induction false} PowPositive(k: nat)
    ensures Pow256(k) > 0
  {
    if k > 0 { PowPositive(k - 1); }
  }

  /** A frame is the length in eight bytes, the most significant first, and the text. */
  lemma FrameBytes(s: string, i: nat)
    requires i < 8
    ensures |Frame(s)| == 8 + |s| && Frame(s)[8..] == s
    ensures Pow256(7 - i) > 0 && Frame(s)[i] as int == |s| / Pow256(7 - i) % 256
  {
    BigEndianDigit(|s|, 8, i);
  }

  /** Decimal numbers have no leading zero, and a minus sign exactly when they are negative. */
  lemma {:induction false} DecimalLead(n: nat)
    ensures DecimalNat(n)[0] == '0' ==> DecimalNat(n) == "0"
    ensures DecimalNat(n) == "0" ==> n == 0
  {
    if n >= 10 {
      DecimalLead(n / 10);
      ParseDecimalNat(n / 10);
      assert |DecimalNat(n)| > 1;
    }
  }

  lemma DecimalSign(i: int)
    ensures i < 0 <==> Decimal(i)[0] == '-'
    ensures i >= 0 ==> Decimal(i)[0] == '0' ==> Decimal(i) == "0"
    ensures i < 0 ==> |Decimal(i)| > 1 && Decimal(i)[1] != '0'
  {
    DecimalLead(if i < 0 then -i else i);
  }

  // ---------------------------------------------------------------- values

  /** One byte of the value's kind after the type, and what distinguishes values of that kind. */
  lemma LeafBytes(tid: string)
    ensures Encode(Nil) == "n"
    ensures Encode(NilMap(tid)) == Frame(tid) + ("m" + [ZERO]) && Encode(NilSlice(tid)) == Frame(tid) + ("l" + [ZERO])
    ensures forall s :: Encode(ScalarT(tid, StrS(s))) == Frame(tid) + ("s" + Frame(s))
    ensures forall i :: Encode(ScalarT(tid, IntS(i))) == Frame(tid) + ("i" + Frame(Decimal(i)))
    ensures forall u: nat, p :: Encode(ScalarT(tid, UintS(u, p))) == Frame(tid) + ("u" + Frame(Decimal(u)))
    ensures forall f :: Encode(ScalarT(tid, FloatS(f))) == Frame(tid) + ("f" + Frame(f))
    ensures Encode(ScalarT(tid, BoolS(true))) == Frame(tid) + ("b" + [ONE])
    ensures Encode(ScalarT(tid, BoolS(false))) == Frame(tid) + ("b" + [ZERO])
  {
    assert "m" + [ZERO] == ['m', ZERO] && "l" + [ZERO] == ['l', ZERO];
    assert "b" + [ONE] == ['b', ONE] && "b" + [ZERO] == ['b', ZERO];
  }

  function Concat(parts: seq<string>): string {
    if |parts| == 0 then "" else parts[0] + Concat(parts[1..])
  }

  function Pairs(es: map<string, Tree>, keys: seq<string>): (r: seq<string>)
    requires forall k :: k in keys ==> k in es
    ensures |r| == |keys| && forall i :: 0 <= i < |r| ==> r[i] == Frame(keys[i]) + Encode(es[keys[i]])
  {
    seq(|keys|, i requires 0 <= i < |keys| => Frame(keys[i]) + Encode(es[keys[i]]))
  }

  lemma {:induction false} EntriesConcat(t: Tree, keys: seq<string>)
    requires t.MapT? && forall k :: k in keys ==> k in t.entries
    ensures EncodeEntries(t, keys) == Concat(Pairs(t.entries, keys))
    decreases |keys|
  {
    if |keys| > 0 {
      EntriesConcat(t, keys[1..]);
      assert Pairs(t.entries, keys)[1..] == Pairs(t.entries, keys[1..]);
      assert (Frame(keys[0]) + Encode(t.entries[keys[0]])) + EncodeEntries(t, keys[1..]) == EncodeEntries(t, keys);
    }
  }

  /** keys lists the keys of a map in ascending order. */
  ghost predicate Ascending(keys: seq<string>, es: map<string, Tree>) {
    && (forall k :: k in keys <==> k in es)
    && forall i, j :: 0 <= i < j < |keys| ==> Less(keys[i], keys[j])
  }

  lemma AscendingUnique(keys: seq<string>, es: map<string, Tree>)
    requires Ascending(keys, es)
    ensures keys == SortedKeys(es.Keys)
  {
    DistinctAscending(keys, es.Keys);
    SortedKeysUnique(es.Keys, keys);
    forall i, j | 0 <= i < j < |keys| ensures LessEq(keys[i], keys[j]) { LessTrichotomy(keys[i], keys[j]); }
    LessEqTotalOrder();
    StableSortSorts(LessEq, keys);
    SortedUnique(LessEq, keys, StableSort(LessEq, keys));
  }

  lemma {:induction false} DistinctAscending(s: seq<string>, keys: set<string>)
    requires forall k :: k in s <==> k in keys
    requires forall i, j :: 0 <= i < j < |s| ==> Less(s[i], s[j])
    ensures multiset(s) == multiset(keys)
  {
    if |s| > 0 {
      var rest := s[1..];
      assert s == [s[0]] + rest;
      LessTrichotomy(s[0], s[0]);
      assert s[0] !in rest;
      DistinctAscending(rest, keys - {s[0]});
    }
  }

  /** A map: its type, 'm' and 1, the number of entries, and the framed keys in ascending order, each with
      its value. */
  lemma MapBytes(tid: string, es: map<string, Tree>, keys: seq<string>)
    requires Ascending(keys, es)
    ensures Encode(MapT(tid, es)) == Frame(tid) + (("m" + [ONE]) + (Length8(|es|) + Concat(Pairs(es, keys))))
  {
    AscendingUnique(keys, es);
    EntriesConcat(MapT(tid, es), keys);
    assert "m" + [ONE] == ['m', ONE];
  }

  function Encodings(items: seq<Tree>): (r: seq<string>)
    ensures |r| == |items| && forall i :: 0 <= i < |r| ==> r[i] == Encode(items[i])
  {
    seq(|items|, i requires 0 <= i < |items| => Encode(items[i]))
  }

  lemma {:induction false} ItemsConcat(items: seq<Tree>)
    ensures EncodeItems(items) == Concat(Encodings(items))
    decreases |items|
  {
    if |items| > 0 {
      ItemsConcat(items[1..]);
      assert Encodings(items)[1..] == Encodings(items[1..]);
    }
  }

  /** A slice or an array: its type, 'l' and 1, or 'a', the number of items, and the items in order. */
  lemma ListBytes(tid: string, items: seq<Tree>)
    ensures Encode(ListT(tid, false, items)) ==
      Frame(tid) + (("l" + [ONE]) + (Length8(|items|) + Concat(Encodings(items))))
    ensures Encode(ListT(tid, true, items)) == Frame(tid) + ("a" + (Length8(|items|) + Concat(Encodings(items))))
  {
    ItemsConcat(items);
    assert "l" + [ONE] == ['l', ONE];
  }

  /** What is hashed of a context and compared of a result. */
  lemma PreimageBytes(t: Tree, time: int)
    ensures ContextPreimage(t, time) == Frame("GSAS-DETERMINISTIC-CONTEXT-v1") + (Frame(Decimal(time)) + Encode(t))
    ensures ValuePreimage(t) == Frame("GSAS-PRIMITIVE-VALUE-v1") + Encode(t)
  {
  }

  // ---------------------------------------------------------------- type identifiers

  /** The identifiers of the plain containers and of json.Number. */
  lemma PlainTypeIds()
    ensures TI.TypeId(TI.MapOf(TI.Named("", "string"), TI.AnyInterface)) == MAP_TYPE == "map[string]interface {}"
    ensures TI.TypeId(TI.SliceOf(TI.AnyInterface)) == SLICE_TYPE == "[]interface {}"
    ensures TI.TypeId(TI.Named("encoding/json", "Number")) == NUMBER_TYPE == "encoding/json.Number"
  {
    assert "encoding/json" + "." == "encoding/json.";
  }

  lemma ArrayTypeId(n: nat, elem: TI.GoType)
    ensures TI.TypeId(TI.ArrayOf(n, elem)) == "[" + Decimal(n) + "]" + TI.TypeId(elem)
  {
  }
}
