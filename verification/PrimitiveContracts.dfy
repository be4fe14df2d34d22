/** Result normalisation of core/primitive_contracts.go, and the depth arithmetic of the walkers. */
module PrimitiveContracts {
  import opened Values
  import opened Frames
  import opened CanonicalEncoding
  import opened ObjectGraph
  import DC = DeterministicContext

  const VALUE_DEPTH := 64

  // ---------------------------------------------------------------- clonePrimitiveValue

  /** A value stored in an interface{} slot. */
  function Box(t: Tree): Tree {
    if t == Nil then Nil else Iface(t)
  }

  /** Go's rule: an interface never holds another interface, nor an invalid value. */
  predicate WellBoxed(t: Tree) {
    match t
    case Iface(u) => !u.Iface? && !u.Nil? && WellBoxed(u)
    case MapT(_, es) => forall k :: k in es ==> WellBoxed(es[k])
    case ListT(_, _, ts) => forall i :: 0 <= i < |ts| ==> WellBoxed(ts[i])
    case _ => true
  }

  predicate PlainScalar(tid: string, s: Scalar) {
    GoodScalar(tid, s) && (s.UintS? ==> !s.uintptr)
  }

  /** clonePrimitiveValue: a snapshot in which every container is a plain object or array. */
  function Norm(t: Tree, depth: nat): Option<Tree>
    decreases t, 1
  {
    if depth > VALUE_DEPTH then None
    else
      match t
      case Iface(u) => Norm(u, depth + 1)
      case MapT(_, _) => AsObject(NormEntries(t, depth + 1))
      case ListT(_, _, ts) => AsArray(NormAll(ts, depth + 1))
      case _ => NormLeaf(t)
  }

  /** Values without parts; nil containers become empty ones. */
  function NormLeaf(t: Tree): Option<Tree> {
    match t
    case Nil => Some(Nil)
    case ScalarT(tid, s) => if PlainScalar(tid, s) then Some(t) else None
    case NilMap(_) => Some(MapT(MAP_TYPE, map[]))
    case NonStringMap(_, isNil) => if isNil then Some(MapT(MAP_TYPE, map[])) else None
    case NilSlice(_) => Some(ListT(SLICE_TYPE, false, []))
    case _ => None
  }

  function AsObject(m: Option<map<string, Tree>>): Option<Tree> {
    if m.Some? then Some(MapT(MAP_TYPE, m.value)) else None
  }

  function AsArray(s: Option<seq<Tree>>): Option<Tree> {
    if s.Some? then Some(ListT(SLICE_TYPE, false, s.value)) else None
  }

  function NormEntries(t: Tree, depth: nat): (r: Option<map<string, Tree>>)
    requires t.MapT?
    ensures r.Some? <==> forall k :: k in t.entries ==> Norm(t.entries[k], depth).Some?
    ensures r.Some? ==> r.value.Keys == t.entries.Keys
    ensures r.Some? ==> forall k :: k in t.entries ==> r.value[k] == Box(Norm(t.entries[k], depth).value)
    decreases t, 0
  {
    if forall k :: k in t.entries ==> Norm(t.entries[k], depth).Some? then
      Some(map k | k in t.entries :: Box(Norm(t.entries[k], depth).value))
    else None
  }

  function NormAll(ts: seq<Tree>, depth: nat): (r: Option<seq<Tree>>)
    ensures r.Some? <==> forall i :: 0 <= i < |ts| ==> Norm(ts[i], depth).Some?
    ensures r.Some? ==> |r.value| == |ts|
    ensures r.Some? ==> forall i :: 0 <= i < |ts| ==> r.value[i] == Box(Norm(ts[i], depth).value)
    decreases ts, 0
  {
    if |ts| == 0 then Some([])
    else
      var first, rest := Norm(ts[0], depth), NormAll(ts[1..], depth);
      if first.Some? && rest.Some? then Some([Box(first.value)] + rest.value)
      else
        assert first.None? || exists i :: 1 <= i < |ts| && Norm(ts[i], depth).None? by {
          if rest.None? {
            var i :| 0 <= i < |ts[1..]| && Norm(ts[1..][i], depth).None?;
            assert ts[i + 1] == ts[1..][i];
          }
        }
        None
  }

  // ---------------------------------------------------------------- normal forms

  /** Plain data: objects and arrays of interface{} slots. */
  predicate Plain(t: Tree) {
    match t
    case Nil => true
    case ScalarT(tid, s) => PlainScalar(tid, s)
    case MapT(tid, es) => tid == MAP_TYPE && forall k :: k in es ==> PlainSlot(es[k])
    case ListT(tid, isArray, ts) => tid == SLICE_TYPE && !isArray && forall i :: 0 <= i < |ts| ==> PlainSlot(ts[i])
    case _ => false
  }

  predicate PlainSlot(t: Tree) {
    t == Nil || (t.Iface? && t.elem != Nil && Plain(t.elem))
  }

  lemma {:induction false} NormIsPlain(t: Tree, depth: nat)
    requires Norm(t, depth).Some?
    ensures Plain(Norm(t, depth).value)
    decreases t
  {
    match t
    case Iface(u) => NormIsPlain(u, depth + 1);
    case MapT(_, es) => forall k | k in es { NormIsPlain(es[k], depth + 1); }
    case ListT(_, _, ts) => forall i | 0 <= i < |ts| { NormIsPlain(ts[i], depth + 1); }
    case _ =>
  }

  lemma {:induction false} PlainSupported(t: Tree)
    requires Plain(t)
    ensures Supported(t) && WellBoxed(t)
  {
    match t
    case MapT(_, es) =>
      forall k | k in es ensures Supported(es[k]) && WellBoxed(es[k]) {
        if es[k].Iface? { PlainSupported(es[k].elem); }
      }
    case ListT(_, _, ts) =>
      forall i | 0 <= i < |ts| ensures Supported(ts[i]) && WellBoxed(ts[i]) {
        if ts[i].Iface? { PlainSupported(ts[i].elem); }
      }
    case _ =>
  }

  /** Plain data has its boxes where they must be: erasing them loses nothing. */
  lemma {:induction false} PlainErase(t: Tree, u: Tree)
    requires Plain(t) && Plain(u)
    ensures Erase(t) == Erase(u) <==> t == u
  {
    if Erase(t) == Erase(u) {
      match t
      case MapT(_, es) =>
        assert es.Keys == Erase(t).entries.Keys == Erase(u).entries.Keys == u.entries.Keys;
        forall k | k in es ensures es[k] == u.entries[k] {
          assert Erase(es[k]) == Erase(t).entries[k] == Erase(u).entries[k] == Erase(u.entries[k]);
          PlainSlotErase(es[k], u.entries[k]);
          if es[k].Iface? && u.entries[k].Iface? { PlainErase(es[k].elem, u.entries[k].elem); }
        }
        assert es == u.entries;
      case ListT(_, _, ts) =>
        forall i | 0 <= i < |ts| ensures ts[i] == u.items[i] {
          assert Erase(ts[i]) == Erase(t).items[i] == Erase(u).items[i] == Erase(u.items[i]);
          PlainSlotErase(ts[i], u.items[i]);
          if ts[i].Iface? && u.items[i].Iface? { PlainErase(ts[i].elem, u.items[i].elem); }
        }
        assert ts == u.items;
      case _ =>
    }
  }

  lemma PlainSlotErase(a: Tree, b: Tree)
    requires PlainSlot(a) && PlainSlot(b) && Erase(a) == Erase(b)
    ensures a.Iface? <==> b.Iface?
    ensures a.Iface? ==> Erase(a.elem) == Erase(b.elem)
  {
  }

  /** Repeatability is exact: two snapshots have the same canonical bytes exactly when they are the
      same data, scalar types included. */
  lemma RepeatabilityExact(a: Tree, b: Tree)
    requires Plain(a) && Plain(b) && Sized(a) && Sized(b)
    ensures ValuePreimage(a) == ValuePreimage(b) <==> a == b
  {
    PlainSupported(a);
    PlainSupported(b);
    ValuePreimageInjective(a, b);
    PlainErase(a, b);
  }

  // ---------------------------------------------------------------- depth

  /** Every value inside is at most `budget` steps down; a step into a container or through an
      interface counts one. */
  predicate Fits(t: Tree, budget: int)
    decreases t
  {
    budget >= 0
    && match t
       case Iface(u) => Fits(u, budget - 1)
       case MapT(_, es) => forall k :: k in es ==> Fits(es[k], budget - 1)
       case ListT(_, _, ts) => forall i :: 0 <= i < |ts| ==> Fits(ts[i], budget - 1)
       case _ => true
  }

  /** Every value but nil is at most `levels` containers down, whatever the boxes. */
  predicate Nested(t: Tree, levels: int)
    decreases t
  {
    match t
    case Nil => true
    case Iface(u) => Nested(u, levels)
    case MapT(_, es) => levels >= 0 && forall k :: k in es ==> Nested(es[k], levels - 1)
    case ListT(_, _, ts) => levels >= 0 && forall i :: 0 <= i < |ts| ==> Nested(ts[i], levels - 1)
    case _ => levels >= 0
  }

  predicate Acceptable(t: Tree) {
    match t
    case Iface(u) => Acceptable(u)
    case ScalarT(tid, s) => PlainScalar(tid, s)
    case MapT(_, es) => forall k :: k in es ==> Acceptable(es[k])
    case ListT(_, _, ts) => forall i :: 0 <= i < |ts| ==> Acceptable(ts[i])
    case NonStringMap(_, isNil) => isNil
    case Opaque(_) => false
    case _ => true
  }

  /** Normalisation succeeds exactly on acceptable values within the depth bound. */
  lemma {:induction false} NormSucceeds(t: Tree, depth: nat)
    ensures Norm(t, depth).Some? <==> Acceptable(t) && Fits(t, VALUE_DEPTH - depth)
    decreases t
  {
    match t
    case Iface(u) => NormSucceeds(u, depth + 1);
    case MapT(_, es) => forall k | k in es { NormSucceeds(es[k], depth + 1); }
    case ListT(_, _, ts) => forall i | 0 <= i < |ts| { NormSucceeds(ts[i], depth + 1); }
    case _ =>
  }

  /** Values a context or a proof can hold: good scalars, string keys, nothing unsupported. */
  predicate Encodable(t: Tree) {
    match t
    case Iface(u) => Encodable(u)
    case ScalarT(tid, s) => GoodScalar(tid, s)
    case MapT(_, es) => forall k :: k in es ==> Encodable(es[k])
    case ListT(_, _, ts) => forall i :: 0 <= i < |ts| ==> Encodable(ts[i])
    case NonStringMap(_, _) => false
    case Opaque(_) => false
    case _ => true
  }

  /** A context accepts exactly the encodable values within its own, larger bound. */
  lemma {:induction false} ClonableIffFits(t: Tree, depth: nat)
    ensures DC.Clonable(t, depth) <==> Encodable(t) && Fits(t, MAX_DEPTH - depth)
    decreases t
  {
    match t
    case Iface(u) => ClonableIffFits(u, depth + 1);
    case MapT(_, es) => forall k | k in es { ClonableIffFits(es[k], depth + 1); }
    case ListT(_, _, ts) => forall i | 0 <= i < |ts| { ClonableIffFits(ts[i], depth + 1); }
    case _ =>
  }

  lemma {:induction false} PlainEncodable(t: Tree)
    requires Plain(t)
    ensures Encodable(t)
  {
    match t
    case MapT(_, es) => forall k | k in es ensures Encodable(es[k]) { if es[k].Iface? { PlainEncodable(es[k].elem); } }
    case ListT(_, _, ts) =>
      forall i | 0 <= i < |ts| ensures Encodable(ts[i]) { if ts[i].Iface? { PlainEncodable(ts[i].elem); } }
    case _ =>
  }

  /** In plain data every level costs two steps. */
  lemma {:induction false} PlainDepth(t: Tree, levels: int)
    requires Plain(t) && t != Nil && levels >= -1
    ensures Fits(t, 2 * levels + 1) <==> Nested(t, levels)
    decreases t
  {
    if levels >= 0 {
      match t
      case MapT(_, es) =>
        forall k | k in es ensures Fits(es[k], 2 * levels) <==> Nested(es[k], levels - 1) {
          if es[k].Iface? { PlainDepth(es[k].elem, levels - 1); }
        }
      case ListT(_, _, ts) =>
        forall i | 0 <= i < |ts| ensures Fits(ts[i], 2 * levels) <==> Nested(ts[i], levels - 1) {
          if ts[i].Iface? { PlainDepth(ts[i].elem, levels - 1); }
        }
      case _ =>
    }
  }

  /** Normalising keeps the nesting of every value. */
  lemma {:induction false} NormKeepsNesting(t: Tree, depth: nat, levels: int)
    requires Norm(t, depth).Some?
    ensures Nested(Norm(t, depth).value, levels) <==> Nested(t, levels)
    decreases t
  {
    match t
    case Iface(u) => NormKeepsNesting(u, depth + 1, levels);
    case MapT(_, es) =>
      var r := Norm(t, depth).value.entries;
      forall k | k in es ensures Nested(r[k], levels - 1) <==> Nested(es[k], levels - 1) {
        NormKeepsNesting(es[k], depth + 1, levels - 1);
      }
      SameNesting(Norm(t, depth).value, t, levels);
    case ListT(_, _, ts) =>
      var r := NormAll(ts, depth + 1).value;
      forall i | 0 <= i < |ts| ensures Nested(r[i], levels - 1) <==> Nested(ts[i], levels - 1) {
        NormKeepsNesting(ts[i], depth + 1, levels - 1);
      }
      SameNesting(Norm(t, depth).value, t, levels);
    case _ =>
  }

  lemma SameNesting(t: Tree, u: Tree, levels: int)
    requires (t.MapT? && u.MapT?) || (t.ListT? && u.ListT?)
    requires t.MapT? ==> t.entries.Keys == u.entries.Keys
    requires t.MapT? ==> forall k :: k in u.entries ==>
      (Nested(t.entries[k], levels - 1) <==> Nested(u.entries[k], levels - 1))
    requires t.ListT? ==> |t.items| == |u.items|
    requires t.ListT? ==> forall i :: 0 <= i < |u.items| ==>
      (Nested(t.items[i], levels - 1) <==> Nested(u.items[i], levels - 1))
    ensures Nested(t, levels) <==> Nested(u, levels)
  {
  }

  /** Plain data within the bound is its own snapshot. */
  lemma {:induction false} NormIdempotent(t: Tree, depth: nat)
    requires Plain(t) && Fits(t, VALUE_DEPTH - depth)
    ensures Norm(t, depth) == Some(t)
    decreases t
  {
    match t
    case MapT(_, es) =>
      forall k | k in es ensures Norm(es[k], depth + 1).Some? && Box(Norm(es[k], depth + 1).value) == es[k] {
        if es[k].Iface? { NormIdempotent(es[k].elem, depth + 2); }
      }
      assert NormEntries(t, depth + 1).value == es;
    case ListT(_, _, ts) =>
      forall i | 0 <= i < |ts| ensures Norm(ts[i], depth + 1).Some? && Box(Norm(ts[i], depth + 1).value) == ts[i] {
        if ts[i].Iface? { NormIdempotent(ts[i].elem, depth + 2); }
      }
      assert NormAll(ts, depth + 1).value == ts;
    case _ =>
  }
}
