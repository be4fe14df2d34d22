/** The encoder of core/deterministic_context.go as it runs: it appends to a buffer, and meets map
    keys in whatever order the runtime yields them. */
module CanonicalWriter {
  import opened Values
  import opened Frames
  import opened CanonicalEncoding
  import Order

  /** bytes.Buffer, as far as the encoder uses it. */
  class Buffer {
    var data: string

    constructor ()
      ensures data == ""
    {
      data := "";
    }

    method Write(s: string)
      modifies this
      ensures data == old(data) + s
    {
      data := data + s;
    }

    /** writeFrame */
    method WriteFrame(s: string)
      modifies this
      ensures data == old(data) + Frame(s)
    {
      Write(Length8(|s|));
      Write(s);
    }
  }

  /** reflect's MapKeys: every key once, in no particular order. */
  method MapKeys<V>(m: map<string, V>) returns (keys: seq<string>)
    ensures multiset(keys) == multiset(m.Keys)
    ensures Order.StableSort(Order.LessEq, keys) == Order.SortedKeys(m.Keys)
  {
    keys := [];
    var left := m.Keys;
    while left != {}
      invariant left <= m.Keys
      invariant multiset(keys) == multiset(m.Keys - left)
    {
      var k :| k in left;
      left := left - {k};
      assert m.Keys - left == (m.Keys - (left + {k})) + {k};
      keys := keys + [k];
    }
    assert m.Keys - {} == m.Keys;
    Order.SortedKeysUnique(m.Keys, keys);
  }

  /** The writer only meets clones and normalised values, whose maps all have string keys. */
  predicate StringKeyed(t: Tree) {
    match t
    case Iface(elem) => StringKeyed(elem)
    case MapT(_, entries) => forall k :: k in entries ==> StringKeyed(entries[k])
    case ListT(_, _, items) => forall i :: 0 <= i < |items| ==> StringKeyed(items[i])
    case NonStringMap(_, _) => false
    case _ => true
  }

  lemma Join(a: string, b: string, c: string)
    ensures (a + b) + c == a + (b + c)
  {
  }

  method WriteTagged(output: Buffer, tag: char, text: string)
    modifies output
    ensures output.data == old(output.data) + ([tag] + Frame(text))
  {
    output.Write([tag]);
    output.WriteFrame(text);
    Join(old(output.data), [tag], Frame(text));
  }

  method WriteScalar(output: Buffer, s: Scalar)
    modifies output
    ensures output.data == old(output.data) + EncodeScalar(s)
  {
    match s {
      case BoolS(b) => output.Write(['b', (if b then 1 else 0) as char]);
      case StrS(text) => WriteTagged(output, 's', text);
      case IntS(i) => WriteTagged(output, 'i', Decimal(i));
      case UintS(u, _) => WriteTagged(output, 'u', Decimal(u));
      case FloatS(token) => WriteTagged(output, 'f', token);
    }
  }

  /** writeCanonicalValue: fails exactly on unsupported values, and otherwise appends the encoding. */
  method WriteCanonicalValue(output: Buffer, value: Tree) returns (ok: bool)
    requires StringKeyed(value)
    modifies output
    ensures ok <==> Supported(value)
    ensures ok ==> output.data == old(output.data) + Encode(value)
    decreases value, 2
  {
    match value {
      case Nil =>
        output.Write("n");
        return true;
      case Iface(elem) =>
        ok := WriteCanonicalValue(output, elem);
        return;
      case _ =>
    }
    output.WriteFrame(value.tid);
    ghost var start, head := old(output.data), Frame(value.tid);
    match value {
      case ScalarT(_, s) =>
        WriteScalar(output, s);
        Join(start, head, EncodeScalar(s));
      case NilMap(_) => output.Write(['m', 0 as char]); Join(start, head, ['m', 0 as char]);
      case NilSlice(_) => output.Write(['l', 0 as char]); Join(start, head, ['l', 0 as char]);
      case MapT(_, entries) =>
        output.Write(['m', 1 as char]);
        ok := WriteEntries(output, value);
        if !ok { return; }
        ghost var e := Length8(|entries|) + EncodeEntries(value, Order.SortedKeys(entries.Keys));
        Join(start + head, ['m', 1 as char], e);
        Join(start, head, ['m', 1 as char] + e);
      case ListT(_, isArray, items) =>
        var tag := if isArray then "a" else ['l', 1 as char];
        output.Write(tag);
        ok := WriteItems(output, items);
        if !ok { return; }
        ghost var e := Length8(|items|) + EncodeItems(items);
        Join(start + head, tag, e);
        Join(start, head, tag + e);
      case Opaque(_) => return false;
    }
    return true;
  }

  method WriteEntries(output: Buffer, value: Tree) returns (ok: bool)
    requires value.MapT? && StringKeyed(value)
    modifies output
    ensures ok <==> Supported(value)
    ensures ok ==> output.data == old(output.data)
                   + (Length8(|value.entries|) + EncodeEntries(value, Order.SortedKeys(value.entries.Keys)))
    decreases value, 1
  {
    var entries := value.entries;
    var unordered := MapKeys(entries);
    var keys := Order.StableSort(Order.LessEq, unordered);
    assert |keys| == |entries.Keys| == |entries|;
    output.Write(Length8(|keys|));
    ghost var goal := output.data + EncodeEntries(value, keys);
    Join(old(output.data), Length8(|keys|), EncodeEntries(value, keys));
    for i := 0 to |keys|
      invariant output.data + EncodeEntries(value, keys[i..]) == goal
      invariant forall j :: 0 <= j < i ==> Supported(entries[keys[j]])
    {
      ghost var before, rest := output.data, EncodeEntries(value, keys[i + 1..]);
      output.WriteFrame(keys[i]);
      ok := WriteCanonicalValue(output, entries[keys[i]]);
      if !ok { return; }
      assert keys[i..][1..] == keys[i + 1..];
      Join(before + Frame(keys[i]), Encode(entries[keys[i]]), rest);
      Join(before, Frame(keys[i]), Encode(entries[keys[i]]) + rest);
    }
    assert forall k :: k in entries ==> k in keys;
    return true;
  }

  method WriteItems(output: Buffer, items: seq<Tree>) returns (ok: bool)
    requires forall i :: 0 <= i < |items| ==> StringKeyed(items[i])
    modifies output
    ensures ok <==> forall i :: 0 <= i < |items| ==> Supported(items[i])
    ensures ok ==> output.data == old(output.data) + (Length8(|items|) + EncodeItems(items))
    decreases items, 1
  {
    output.Write(Length8(|items|));
    ghost var goal := output.data + EncodeItems(items);
    Join(old(output.data), Length8(|items|), EncodeItems(items));
    for i := 0 to |items|
      invariant output.data + EncodeItems(items[i..]) == goal
      invariant forall j :: 0 <= j < i ==> Supported(items[j])
    {
      ghost var before := output.data;
      ok := WriteCanonicalValue(output, items[i]);
      if !ok { return; }
      assert items[i..][1..] == items[i + 1..];
      Join(before, Encode(items[i]), EncodeItems(items[i + 1..]));
    }
    return true;
  }

  /** canonicalPrimitiveJSON */
  method CanonicalPrimitiveJson(value: Tree) returns (r: Option<string>)
    requires StringKeyed(value)
    ensures r == if Supported(value) then Some(ValuePreimage(value)) else None
  {
    var canonical := new Buffer();
    canonical.WriteFrame(VALUE_TAG);
    var ok := WriteCanonicalValue(canonical, value);
    assert "" + Frame(VALUE_TAG) == Frame(VALUE_TAG);
    return if ok then Some(canonical.data) else None;
  }

  /** computeContextCommitment; sha stands for hex-encoded SHA-256. */
  method ComputeContextCommitment(sha: string -> string, data: Tree, time: int) returns (r: Option<string>)
    requires StringKeyed(data)
    ensures r == if Supported(data) then Some("sha256:" + sha(ContextPreimage(data, time))) else None
  {
    var canonical := new Buffer();
    canonical.WriteFrame(CONTEXT_TAG);
    canonical.WriteFrame(Decimal(time));
    var ok := WriteCanonicalValue(canonical, data);
    if !ok { return None; }
    assert canonical.data == ContextPreimage(data, time);
    return Some("sha256:" + sha(canonical.data));
  }
}
