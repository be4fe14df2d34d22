/** DeterministicContext of core/deterministic_context.go: a frozen copy of the caller's graph, its
    commitment, and the defensive copies it hands out. */
module DeterministicContext {
  import opened Values
  import opened Frames
  import opened ObjectGraph
  import opened ContextCloner
  import CanonicalEncoding
  import CanonicalWriter
  import Order

  // ---------------------------------------------------------------- cloning a clone

  /** A tree the cloner accepts when it meets it at the given depth. */
  predicate Clonable(t: Tree, depth: nat) {
    depth <= MAX_DEPTH
    && match t
       case Iface(u) => Clonable(u, depth + 1)
       case ScalarT(tid, s) => GoodScalar(tid, s)
       case MapT(_, es) => forall k :: k in es ==> Clonable(es[k], depth + 1)
       case ListT(_, _, ts) => forall i :: 0 <= i < |ts| ==> Clonable(ts[i], depth + 1)
       case NonStringMap(_, _) => false
       case Opaque(_) => false
       case _ => true
  }

  lemma {:induction false} ClonableDeeper(t: Tree, depth: nat, depth': nat)
    requires Clonable(t, depth) && depth' <= depth
    ensures Clonable(t, depth') && CanonicalEncoding.Supported(t) && CanonicalWriter.StringKeyed(t)
  {
    match t
    case Iface(u) => ClonableDeeper(u, depth + 1, depth' + 1);
    case MapT(_, es) => forall k | k in es { ClonableDeeper(es[k], depth + 1, depth' + 1); }
    case ListT(_, _, ts) => forall i | 0 <= i < |ts| { ClonableDeeper(ts[i], depth + 1, depth' + 1); }
    case _ =>
  }

  /** A value cloned without issues leaves a tree that can be cloned again. */
  lemma {:induction false} CleanIsClonable(h: Heap, n: Node, path: Path)
    requires ValidNode(h, n) && NodeFaults(h, n, path) == []
    ensures Kept(h, n).Some? && Clonable(Kept(h, n).value, n.depth)
    decreases MAX_DEPTH + 1 - n.depth, 1
  {
    CleanUnfolds(h, n, path);
    var t := Kept(h, n).value;
    forall s | Child(h, n, s).Some? ensures Part(t, s).Some? && Clonable(Part(t, s).value, n.depth + 1) {
      CleanPart(h, n, path, s);
    }
    PartsClonable(h, n, t);
  }

  lemma {:induction false} CleanPart(h: Heap, n: Node, path: Path, s: Step)
    requires ValidNode(h, n) && NodeFaults(h, n, path) == [] && Child(h, n, s).Some? && n.depth <= MAX_DEPTH
    ensures Kept(h, n).Some? && Part(Kept(h, n).value, s).Some?
    ensures Clonable(Part(Kept(h, n).value, s).value, n.depth + 1)
    decreases MAX_DEPTH + 1 - n.depth, 0
  {
    var child := Child(h, n, s).value;
    ChildDeeper(h, n, s);
    CleanChild(h, n, path, s);
    CleanIsClonable(h, child, path + Shown([s]));
    KeptPart(h, n, s);
  }

  lemma ChildDeeper(h: Heap, n: Node, s: Step)
    requires ValidNode(h, n) && Child(h, n, s).Some?
    ensures ValidNode(h, Child(h, n, s).value) && Child(h, n, s).value.depth == n.depth + 1
  {
  }

  lemma PartsClonable(h: Heap, n: Node, t: Tree)
    requires ValidNode(h, n) && NodeFault(n).None? && Kept(h, n) == Some(t)
    requires forall s :: Child(h, n, s).Some? ==> Part(t, s).Some? && Clonable(Part(t, s).value, n.depth + 1)
    ensures Clonable(t, n.depth)
  {
    PartsValid(h, n.val);
    match t
    case Iface(u) => assert Part(t, Unbox) == Some(u) && Child(h, n, Unbox).Some?;
    case MapT(_, es) =>
      forall k | k in es ensures Clonable(es[k], n.depth + 1) {
        assert Part(t, Key(k)) == Some(es[k]) && Child(h, n, Key(k)).Some?;
      }
    case ListT(_, _, ts) =>
      forall i | 0 <= i < |ts| ensures Clonable(ts[i], n.depth + 1) {
        assert Part(t, Index(i)) == Some(ts[i]) && Child(h, n, Index(i)).Some?;
      }
    case _ =>
  }

  /** Cloning a copy gives the same tree. */
  lemma {:induction false} FrozenKept(h: Heap, v: Val, t: Tree, lo: Addr, hi: Addr, active: set<Visit>, depth: nat)
    requires Closed(h) && Frozen(h, v, t, lo, hi) && Clonable(t, depth)
    requires forall w :: w in active ==> !(lo <= w.ptr < hi)
    ensures ValidVal(h, v) && Cloned(h, v, active, depth) == Some(t)
    decreases t
  {
    FrozenValid(h, v, t, lo, hi);
    PartsValid(h, v);
    var inside := active + Visits(v);
    match t
    case Iface(u) => FrozenKept(h, v.elem, u, lo, hi, active, depth + 1);
    case MapT(_, es) =>
      forall k | k in es
        ensures ValidVal(h, Entries(h, v)[k]) && Cloned(h, Entries(h, v)[k], inside, depth + 1) == Some(es[k])
      {
        FrozenKept(h, Entries(h, v)[k], es[k], lo, v.ptr.value, inside, depth + 1);
      }
      assert ClonedEntries(h, Entries(h, v), inside, depth + 1) == es;
    case ListT(_, isArray, ts) =>
      forall i | 0 <= i < |ts|
        ensures ValidVal(h, Elements(h, v)[i]) && Cloned(h, Elements(h, v)[i], inside, depth + 1) == Some(ts[i])
      {
        FrozenKept(h, Elements(h, v)[i], ts[i], lo, if isArray then hi else v.ptr.value, inside, depth + 1);
      }
      assert ClonedItems(h, Elements(h, v), ElementZero(h, v), inside, depth + 1) == ts;
    case _ =>
  }

  lemma {:induction false} NoEntryFaults(h: Heap, entries: map<string, Val>, keys: seq<string>, path: Path,
                                         active: set<Visit>, depth: nat)
    requires Closed(h) && (forall k :: k in entries ==> ValidVal(h, entries[k])) && forall k :: k in keys ==>
      k in entries
    requires forall k :: k in entries ==> Faults(h, entries[k], path + [Key(k)], active, depth) == []
    ensures EntryFaults(h, entries, keys, path, active, depth) == []
  {
    if |keys| > 0 {
      NoEntryFaults(h, entries, keys[1..], path, active, depth);
    }
  }

  lemma {:induction false} NoItemFaults(h: Heap, items: seq<Val>, from: nat, path: Path, active: set<Visit>, depth: nat)
    requires Closed(h) && from <= |items| && forall i :: 0 <= i < |items| ==> ValidVal(h, items[i])
    requires forall i :: 0 <= i < |items| ==> Faults(h, items[i], path + [Index(i)], active, depth) == []
    ensures ItemFaults(h, items, from, path, active, depth) == []
    decreases |items| - from
  {
    if from < |items| {
      NoItemFaults(h, items, from + 1, path, active, depth);
    }
  }

  lemma {:induction false} FrozenFaultless(h: Heap, v: Val, t: Tree, lo: Addr, hi: Addr, path: Path,
                                           active: set<Visit>, depth: nat)
    requires Closed(h) && Frozen(h, v, t, lo, hi) && Clonable(t, depth)
    requires forall w :: w in active ==> !(lo <= w.ptr < hi)
    ensures ValidVal(h, v) && Faults(h, v, path, active, depth) == []
    decreases t
  {
    FrozenValid(h, v, t, lo, hi);
    PartsValid(h, v);
    var inside := active + Visits(v);
    match t
    case Iface(u) => FrozenFaultless(h, v.elem, u, lo, hi, path, active, depth + 1);
    case MapT(_, es) =>
      var entries := Entries(h, v);
      forall k | k in entries ensures Faults(h, entries[k], path + [Key(k)], inside, depth + 1) == [] {
        FrozenFaultless(h, entries[k], es[k], lo, v.ptr.value, path + [Key(k)], inside, depth + 1);
      }
      NoEntryFaults(h, entries, Order.SortedKeys(entries.Keys), path, inside, depth + 1);
    case ListT(_, isArray, ts) =>
      var items, top := Elements(h, v), if isArray then hi else v.ptr.value;
      forall i | 0 <= i < |items| ensures Faults(h, items[i], path + [Index(i)], inside, depth + 1) == [] {
        FrozenFaultless(h, items[i], ts[i], lo, top, path + [Index(i)], inside, depth + 1);
      }
      NoItemFaults(h, items, 0, path, inside, depth + 1);
    case _ =>
  }

  /** Cloning a copy gives the same tree and reports nothing. */
  lemma FrozenClones(h: Heap, v: Val, t: Tree, lo: Addr, hi: Addr, path: Path, active: set<Visit>, depth: nat)
    requires Closed(h) && Frozen(h, v, t, lo, hi) && Clonable(t, depth)
    requires forall w :: w in active ==> !(lo <= w.ptr < hi)
    ensures ValidVal(h, v) && Cloned(h, v, active, depth) == Some(t) && Faults(h, v, path, active, depth) == []
  {
    FrozenKept(h, v, t, lo, hi, active, depth);
    FrozenFaultless(h, v, t, lo, hi, path, active, depth);
  }

  lemma MapReads(h: Heap, h': Heap, v: Val, active: set<Visit>, depth: nat)
    requires Closed(h) && Closed(h') && ValidVal(h, v) && ValidVal(h', v) && IsMap(v) && Entries(h', v) == Entries(h, v)
    requires forall k :: k in Entries(h, v) ==> SameClone(h, h', Entries(h, v)[k], active + Visits(v), depth + 1)
    ensures Cloned(h', v, active, depth) == Cloned(h, v, active, depth)
  {
    var entries, inside := Entries(h, v), active + Visits(v);
    PartsValid(h, v);
    PartsValid(h', v);
    assert ClonedEntries(h', entries, inside, depth + 1) == ClonedEntries(h, entries, inside, depth + 1);
  }

  lemma ListReads(h: Heap, h': Heap, v: Val, active: set<Visit>, depth: nat)
    requires Closed(h) && Closed(h') && ValidVal(h, v) && ValidVal(h', v) && IsList(v)
    requires Elements(h', v) == Elements(h, v) && ElementZero(h', v) == ElementZero(h, v)
    requires forall i :: 0 <= i < |Elements(h, v)| ==>
      SameClone(h, h', Elements(h, v)[i], active + Visits(v), depth + 1)
    ensures Cloned(h', v, active, depth) == Cloned(h, v, active, depth)
  {
    var items, zero, inside := Elements(h, v), ElementZero(h, v), active + Visits(v);
    PartsValid(h, v);
    PartsValid(h', v);
    assert ClonedItems(h', items, zero, inside, depth + 1) == ClonedItems(h, items, zero, inside, depth + 1);
  }

  ghost predicate SameClone(h: Heap, h': Heap, v: Val, active: set<Visit>, depth: nat)
    requires Closed(h) && Closed(h')
  {
    ValidVal(h, v) && ValidVal(h', v) && Cloned(h', v, active, depth) == Cloned(h, v, active, depth)
  }

  lemma SameParts(h: Heap, h': Heap, v: Val, t: Tree, lo: Addr, hi: Addr)
    requires Closed(h) && Closed(h') && Frozen(h, v, t, lo, hi)
    requires forall a :: a in h && lo <= a < hi ==> a in h' && h'[a] == h[a]
    ensures ValidVal(h, v) && ValidVal(h', v)
    ensures IsMap(v) ==> Entries(h', v) == Entries(h, v)
    ensures IsList(v) ==> Elements(h', v) == Elements(h, v) && ElementZero(h', v) == ElementZero(h, v)
  {
    FrozenFrame(h, h', v, t, lo, hi, lo, hi);
    FrozenValid(h, v, t, lo, hi);
    FrozenValid(h', v, t, lo, hi);
  }

  /** Reading a copy depends on its own cells alone, valid context or not. */
  lemma {:induction false} ReadFrame(h: Heap, h': Heap, v: Val, t: Tree, lo: Addr, hi: Addr, active: set<Visit>,
      depth: nat)
    requires Closed(h) && Closed(h') && Frozen(h, v, t, lo, hi)
    requires forall a :: a in h && lo <= a < hi ==> a in h' && h'[a] == h[a]
    ensures ValidVal(h, v) && ValidVal(h', v) && Cloned(h', v, active, depth) == Cloned(h, v, active, depth)
    decreases t
  {
    SameParts(h, h', v, t, lo, hi);
    var inside := active + Visits(v);
    match t
    case Iface(u) => ReadFrame(h, h', v.elem, u, lo, hi, active, depth + 1);
    case MapT(_, es) =>
      forall k | k in es ensures SameClone(h, h', Entries(h, v)[k], inside, depth + 1) {
        ReadFrame(h, h', Entries(h, v)[k], es[k], lo, v.ptr.value, inside, depth + 1);
      }
      MapReads(h, h', v, active, depth);
    case ListT(_, isArray, ts) =>
      forall i | 0 <= i < |ts| ensures SameClone(h, h', Elements(h, v)[i], inside, depth + 1) {
        ReadFrame(h, h', Elements(h, v)[i], ts[i], lo, if isArray then hi else v.ptr.value, inside, depth + 1);
      }
      ListReads(h, h', v, active, depth);
    case _ =>
  }

  // ---------------------------------------------------------------- keeping the caller out

  /** No address held directly by the value lies in [lo, hi). */
  predicate Outside(v: Val, lo: Addr, hi: Addr) {
    match v
    case VIface(elem) => Outside(elem, lo, hi)
    case VMap(_, Some(a)) => !(lo <= a < hi)
    case VSlice(_, Some(a), _) => !(lo <= a < hi)
    case VArray(_, items, _) => forall i :: 0 <= i < |items| ==> Outside(items[i], lo, hi)
    case _ => true
  }

  predicate CellOutside(c: Cell, lo: Addr, hi: Addr) {
    match c
    case MapCell(entries) => forall k :: k in entries ==> Outside(entries[k], lo, hi)
    case SliceCell(items, _) => forall i :: 0 <= i < |items| ==> Outside(items[i], lo, hi)
  }

  /** No cell outside [lo, hi) leads into it. */
  ghost predicate Isolated(h: Heap, lo: Addr, hi: Addr) {
    forall a :: a in h && !(lo <= a < hi) ==> CellOutside(h[a], lo, hi)
  }

  lemma {:induction false} OldOutside(h: Heap, v: Val, lo: Addr, hi: Addr)
    requires ValidVal(h, v) && forall a :: a in h ==> a < lo
    ensures Outside(v, lo, hi)
  {
    match v
    case VIface(elem) => OldOutside(h, elem, lo, hi);
    case VArray(_, items, _) => forall i | 0 <= i < |items| { OldOutside(h, items[i], lo, hi); }
    case _ =>
  }

  lemma {:induction false} LaterOutside(v: Val, from: Addr, lo: Addr, hi: Addr)
    requires From(v, from) && hi <= from
    ensures Outside(v, lo, hi)
  {
    match v
    case VIface(elem) => LaterOutside(elem, from, lo, hi);
    case VArray(_, items, _) => forall i | 0 <= i < |items| { LaterOutside(items[i], from, lo, hi); }
    case _ =>
  }

  /** Allocation by the cloner after the context was built keeps the context isolated. */
  lemma FreshIsolated(h: Heap, h': Heap, from: Addr, lo: Addr, hi: Addr)
    requires OnlyFresh(h, h', from) && hi <= from && Isolated(h, lo, hi)
    ensures Isolated(h', lo, hi)
  {
    forall a | a in h' && !(lo <= a < hi) ensures CellOutside(h'[a], lo, hi) {
      if a !in h {
        match h'[a]
        case MapCell(entries) => forall k | k in entries { LaterOutside(entries[k], from, lo, hi); }
        case SliceCell(items, _) => forall i | 0 <= i < |items| { LaterOutside(items[i], from, lo, hi); }
      }
    }
  }

  // ---------------------------------------------------------------- the context

  /** What `Get` copies out of a stored interface value: nil when the copy is dropped. */
  function ReadBack(h: Heap, stored: Val): Tree
    requires Closed(h) && ValidVal(h, stored)
  {
    if !stored.VIface? then Nil
    else
      match Cloned(h, stored.elem, {}, 0)
      case None => Nil
      case Some(t) => Iface(t)
  }

  /** A map[string]interface{} value: each entry is nil or a boxed value. */
  predicate IsObject(h: Heap, v: Val) {
    ValidVal(h, v) && v.VMap? && v.tid == MAP_TYPE
    && (IsMap(v) ==> forall k :: k in Entries(h, v) ==> Entries(h, v)[k] == VNil || Entries(h, v)[k].VIface?)
  }

  /** cloneContextData: a missing map becomes a fresh empty one. */
  method CloneContextData(memory: Memory, input: Val) returns (copy: Val, issues: seq<Issue>, ghost t: Tree)
    requires memory.Valid() && IsObject(memory.heap, input)
    modifies memory
    ensures memory.Valid() && old(memory.next) <= memory.next && t.MapT?
    ensures OnlyFresh(old(memory.heap), memory.heap, old(memory.next))
    ensures Frozen(memory.heap, copy, t, old(memory.next), memory.next) && IsObject(memory.heap, copy) && IsMap(copy)
    ensures Isolated(memory.heap, old(memory.next), memory.next)
    ensures issues == if input.ptr == None then [] else Faults(old(memory.heap), input, [], {}, 0)
    ensures if input.ptr == None then t == MapT(MAP_TYPE, map[]) else Cloned(old(memory.heap), input, {}, 0) == Some(t)
    ensures issues == [] ==> Clonable(t, 0) && (input.ptr.Some? ==> Unfolds(old(memory.heap), input, t))
  {
    ghost var h0, base := memory.heap, memory.next;
    if input.ptr == None {
      t, issues := MapT(MAP_TYPE, map[]), [];
      var a := memory.Alloc(MapCell(map[]));
      copy := VMap(MAP_TYPE, Some(a));
    } else {
      var cloner := new ContextCloner(memory);
      var keep;
      copy, keep := cloner.CloneValue(input, [], 0);
      issues, t := cloner.issues, Cloned(h0, input, {}, 0).value;
      assert NodeFaults(h0, Node(input, {}, 0), []) == issues;
      if issues == [] {
        CleanUnfolds(h0, Node(input, {}, 0), []);
        CleanIsClonable(h0, Node(input, {}, 0), []);
      }
      ObjectCopied(h0, input, memory.heap, copy, t, base, memory.next);
    }
    forall a | a in memory.heap && !(base <= a < memory.next) ensures CellOutside(memory.heap[a], base, memory.next) {
      OldCellOutside(h0, memory.heap[a], base, memory.next);
    }
  }

  class DeterministicContext {
    const memory: Memory
    const data: Val
    const time: int
    const issues: seq<Issue>
    const commitment: string
    ghost const tree: Tree
    ghost const lo: Addr
    ghost const hi: Addr

    ghost predicate Valid()
      reads memory
    {
      memory.Valid() && hi <= memory.next && Stands(memory.heap)
    }

    /** The context's part of a heap is the tree it was built as, and nothing else leads into it. */
    ghost predicate Stands(h: Heap) {
      && Closed(h) && lo <= hi && tree.MapT?
      && Frozen(h, data, tree, lo, hi) && IsObject(h, data) && IsMap(data)
      && Isolated(h, lo, hi)
      && (issues == [] ==> Clonable(tree, 0))
    }

    /** buildDeterministicContext: the context holds the exact unfolding of its input and commits to
        it, or it reports what is wrong and commits to nothing. */
    constructor (memory: Memory, input: Val, time: int, sha: string -> string)
      requires memory.Valid() && IsObject(memory.heap, input)
      modifies memory
      ensures Valid() && this.memory == memory && this.time == time && lo == old(memory.next)
      ensures OnlyFresh(old(memory.heap), memory.heap, lo)
      ensures issues == if input.ptr == None then [] else Faults(old(memory.heap), input, [], {}, 0)
      ensures if input.ptr == None then tree == MapT(MAP_TYPE, map[])
        else Cloned(old(memory.heap), input, {}, 0) == Some(tree)
      ensures issues == [] && input.ptr.Some? ==> Unfolds(old(memory.heap), input, tree)
      ensures issues != [] ==> commitment == ""
      ensures issues == [] ==> commitment == "sha256:" + sha(CanonicalEncoding.ContextPreimage(tree, time))
    {
      ghost var base := memory.next;
      var copy, found, t := CloneContextData(memory, input);
      var committed := "";
      if found == [] {
        FrozenKept(memory.heap, copy, t, base, memory.next, {}, 0);
        ClonableDeeper(t, 0, 0);
        var written := CanonicalWriter.ComputeContextCommitment(sha, Cloned(memory.heap, copy, {}, 0).value, time);
        committed := written.value;
      }
      this.memory, this.time, this.data, this.issues, this.commitment := memory, time, copy, found, committed;
      this.tree, this.lo, this.hi := t, base, memory.next;
    }

    /** Get and GetItem on a present key: a fresh copy, exact in a valid context, so that a present
        non-nil entry never reads back as nil. */
    method Get(key: string, default: Val) returns (r: Val)
      requires Valid()
      modifies memory
      ensures Valid() && OnlyFresh(old(memory.heap), memory.heap, old(memory.next)) && old(memory.next) <= memory.next
      ensures key !in old(Entries(memory.heap, data)) ==> r == default && unchanged(memory)
      ensures key in old(Entries(memory.heap, data)) ==>
        var stored := old(Entries(memory.heap, data))[key];
        && ValidVal(old(memory.heap), stored)
        && Frozen(memory.heap, r, ReadBack(old(memory.heap), stored), old(memory.next), memory.next)
        && (issues == [] ==> ReadBack(old(memory.heap), stored) == tree.entries[key])
    {
      if key !in Entries(memory.heap, data) { return default; }
      PartsValid(memory.heap, data);
      var stored := Entries(memory.heap, data)[key];
      if issues == [] {
        StoredReads(memory.heap, key);
      }
      if !stored.VIface? { return VNil; }
      var cloner := new ContextCloner(memory);
      var copy, keep := cloner.CloneValue(stored.elem, [], 0);
      r := if keep then VIface(copy) else VNil;
      StaysValid(cloner.source);
    }

    /** Data: a fresh copy of the whole map. */
    method Data() returns (r: Val)
      requires Valid()
      modifies memory
      ensures Valid() && OnlyFresh(old(memory.heap), memory.heap, old(memory.next)) && old(memory.next) <= memory.next
      ensures var copied := Cloned(old(memory.heap), data, {}, 0);
        copied.Some? && Frozen(memory.heap, r, copied.value, old(memory.next), memory.next)
      ensures issues == [] ==> Frozen(memory.heap, r, tree, old(memory.next), memory.next)
    {
      if issues == [] {
        FrozenKept(memory.heap, data, tree, lo, hi, {}, 0);
      }
      var cloner := new ContextCloner(memory);
      var keep;
      r, keep := cloner.CloneValue(data, [], 0);
      StaysValid(cloner.source);
    }

    lemma StoredReads(h: Heap, key: string)
      requires Closed(h) && Frozen(h, data, tree, lo, hi) && IsMap(data) && tree.MapT? && IsObject(h, data)
      requires Clonable(tree, 0) && key in Entries(h, data)
      ensures ValidVal(h, Entries(h, data)[key]) && ReadBack(h, Entries(h, data)[key]) == tree.entries[key]
    {
      PartsValid(h, data);
      var stored := Entries(h, data)[key];
      if stored.VIface? {
        var u := tree.entries[key].elem;
        ClonableDeeper(u, 2, 0);
        FrozenKept(h, stored.elem, u, lo, data.ptr.value, {}, 0);
      }
    }

    lemma StaysValid(before: Heap)
      requires memory.Valid() && lo <= hi <= memory.next && tree.MapT? && Closed(before)
      requires Frozen(before, data, tree, lo, hi) && IsObject(before, data) && IsMap(data)
      requires Isolated(before, lo, hi) && (issues == [] ==> Clonable(tree, 0))
      requires exists from :: hi <= from && OnlyFresh(before, memory.heap, from)
      ensures Valid()
    {
      var from :| hi <= from && OnlyFresh(before, memory.heap, from);
      FrozenFrame(before, memory.heap, data, tree, lo, hi, lo, hi);
      FrozenValid(memory.heap, data, tree, lo, hi);
      FreshIsolated(before, memory.heap, from, lo, hi);
    }
  }

  lemma OldCellOutside(h: Heap, c: Cell, lo: Addr, hi: Addr)
    requires ValidCell(h, c) && forall a :: a in h ==> a < lo
    ensures CellOutside(c, lo, hi)
  {
    match c
    case MapCell(entries) => forall k | k in entries { OldOutside(h, entries[k], lo, hi); }
    case SliceCell(items, _) => forall i | 0 <= i < |items| { OldOutside(h, items[i], lo, hi); }
  }

  /** The copy of an object is an object. */
  lemma ObjectCopied(h: Heap, v: Val, h': Heap, copy: Val, t: Tree, lo: Addr, hi: Addr)
    requires Closed(h) && IsObject(h, v) && IsMap(v) && Cloned(h, v, {}, 0) == Some(t) && Frozen(h', copy, t, lo, hi)
    ensures t.MapT? && IsObject(h', copy) && IsMap(copy)
  {
    PartsValid(h, v);
    FrozenValid(h', copy, t, lo, hi);
    forall k | k in t.entries ensures Entries(h', copy)[k] == VNil || Entries(h', copy)[k].VIface? {
      assert k in Entries(h, v);
    }
  }
}
