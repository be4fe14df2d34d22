/** contextCloner of core/deterministic_context.go: it walks the graph with a set of containers it is
    inside and a list of issues, and builds the copy out of fresh cells. */
module ContextCloner {
  import opened Values
  import opened Frames
  import opened ObjectGraph
  import Order
  import CanonicalWriter

  // ---------------------------------------------------------------- memory

  /** Allocated cells.  Addresses are handed out in increasing order. */
  class Memory {
    var heap: Heap
    var next: Addr

    constructor ()
      ensures Valid() && heap == map[]
    {
      heap, next := map[], 0;
    }

    ghost predicate Valid()
      reads this
    {
      Closed(heap) && forall a :: a in heap ==> a < next
    }

    method Alloc(c: Cell) returns (a: Addr)
      requires Valid() && ValidCell(heap, c)
      modifies this
      ensures Valid() && a == old(next) && next == a + 1 && heap == old(heap)[a := c]
    {
      a := next;
      var before := heap;
      heap, next := heap[a := c], a + 1;
      assert Extends(before, heap);
      forall b | b in heap ensures ValidCell(heap, heap[b]) {
        CellExtends(before, heap, heap[b]);
      }
    }
  }

  ghost predicate Extends(h: Heap, h': Heap) {
    forall a :: a in h ==> a in h' && h'[a] == h[a]
  }

  lemma {:induction false} ValExtends(h: Heap, h': Heap, v: Val)
    requires Extends(h, h') && ValidVal(h, v)
    ensures ValidVal(h', v)
  {
    match v
    case VIface(elem) => ValExtends(h, h', elem);
    case VArray(_, items, _) => forall i | 0 <= i < |items| { ValExtends(h, h', items[i]); }
    case _ =>
  }

  lemma CellExtends(h: Heap, h': Heap, c: Cell)
    requires Extends(h, h') && ValidCell(h, c)
    ensures ValidCell(h', c)
  {
    match c
    case MapCell(entries) => forall k | k in entries { ValExtends(h, h', entries[k]); }
    case SliceCell(items, _) => forall i | 0 <= i < |items| { ValExtends(h, h', items[i]); }
  }

  lemma PartsExtend(h: Heap, h': Heap, v: Val)
    requires Extends(h, h') && Closed(h) && ValidVal(h, v)
    ensures ValidVal(h', v)
    ensures IsMap(v) ==> Entries(h', v) == Entries(h, v)
    ensures IsList(v) ==> Elements(h', v) == Elements(h, v) && ElementZero(h', v) == ElementZero(h, v)
  {
    ValExtends(h, h', v);
  }

  // ---------------------------------------------------------------- copies

  /** v is the tree t, and every container of it lies in [lo, hi), below the container holding it. */
  ghost predicate Frozen(h: Heap, v: Val, t: Tree, lo: Addr, hi: Addr)
    decreases t
  {
    match t
    case Nil => v == VNil
    case Iface(u) => v.VIface? && Frozen(h, v.elem, u, lo, hi)
    case ScalarT(tid, s) => v == VScalar(tid, s)
    case NilMap(tid) => v == VMap(tid, None)
    case MapT(tid, es) =>
      && ValidVal(h, v) && IsMap(v) && v.tid == tid && Entries(h, v).Keys == es.Keys && lo <= v.ptr.value < hi
      && forall k :: k in es ==> Frozen(h, Entries(h, v)[k], es[k], lo, v.ptr.value)
    case NilSlice(tid) => v.VSlice? && v.tid == tid && v.ptr == None
    case ListT(tid, isArray, ts) =>
      && ValidVal(h, v) && IsList(v) && v.tid == tid && v.VArray? == isArray && |Elements(h, v)| == |ts|
      && (!isArray ==> lo <= v.ptr.value < hi)
      && forall i :: 0 <= i < |ts| ==> Frozen(h, Elements(h, v)[i], ts[i], lo, if isArray then hi else v.ptr.value)
    case NonStringMap(tid, isNil) => v == VNonStringMap(tid, isNil)
    case Opaque(tid) => v == VOpaque(tid)
  }

  lemma {:induction false} FrozenValid(h: Heap, v: Val, t: Tree, lo: Addr, hi: Addr)
    requires Frozen(h, v, t, lo, hi)
    ensures ValidVal(h, v)
    decreases t
  {
    match t
    case Iface(u) => FrozenValid(h, v.elem, u, lo, hi);
    case _ =>
  }

  /** A copy stays a copy while its own cells do. */
  lemma {:induction false} FrozenFrame(h: Heap, h': Heap, v: Val, t: Tree, lo: Addr, hi: Addr, lo': Addr, hi': Addr)
    requires Frozen(h, v, t, lo, hi) && lo' <= lo && hi <= hi'
    requires forall a :: a in h && lo <= a < hi ==> a in h' && h'[a] == h[a]
    requires Closed(h) && Closed(h')
    ensures Frozen(h', v, t, lo', hi')
    decreases t
  {
    FrozenValid(h, v, t, lo, hi);
    PartsValid(h, v);
    match t
    case Iface(u) => FrozenFrame(h, h', v.elem, u, lo, hi, lo', hi');
    case MapT(_, es) =>
      forall k | k in es ensures Frozen(h', Entries(h, v)[k], es[k], lo', v.ptr.value) {
        FrozenFrame(h, h', Entries(h, v)[k], es[k], lo, v.ptr.value, lo', v.ptr.value);
      }
    case ListT(_, isArray, ts) =>
      var top, top' := if isArray then hi else v.ptr.value, if isArray then hi' else v.ptr.value;
      forall i | 0 <= i < |ts|
        ensures Frozen(h', Elements(h, v)[i], ts[i], lo', top') && ValidVal(h', Elements(h, v)[i])
      {
        FrozenFrame(h, h', Elements(h, v)[i], ts[i], lo, top, lo', top');
        FrozenValid(h', Elements(h, v)[i], ts[i], lo', top');
      }
    case _ =>
  }

  lemma {:induction false} FlatFrozen(h: Heap, v: Val, lo: Addr, hi: Addr)
    requires Flat(v)
    ensures ValidVal(h, v) && Frozen(h, v, FlatTree(v), lo, hi)
    decreases v
  {
    match v
    case VArray(_, items, _) =>
      forall i | 0 <= i < |items| ensures ValidVal(h, items[i]) && Frozen(h, items[i], FlatTree(v).items[i], lo, hi) {
        FlatFrozen(h, items[i], lo, hi);
      }
    case _ =>
  }

  /** Every address held directly by the value is at least lo. */
  predicate From(v: Val, lo: Addr) {
    match v
    case VIface(elem) => From(elem, lo)
    case VMap(_, Some(a)) => a >= lo
    case VSlice(_, Some(a), _) => a >= lo
    case VArray(_, items, _) => forall i :: 0 <= i < |items| ==> From(items[i], lo)
    case _ => true
  }

  predicate CellFrom(c: Cell, lo: Addr) {
    match c
    case MapCell(entries) => forall k :: k in entries ==> From(entries[k], lo)
    case SliceCell(items, _) => forall i :: 0 <= i < |items| ==> From(items[i], lo)
  }

  lemma {:induction false} FrozenFrom(h: Heap, v: Val, t: Tree, lo: Addr, hi: Addr)
    requires Frozen(h, v, t, lo, hi)
    ensures From(v, lo)
    decreases t
  {
    match t
    case Iface(u) => FrozenFrom(h, v.elem, u, lo, hi);
    case ListT(_, isArray, ts) =>
      if isArray { forall i | 0 <= i < |ts| { FrozenFrom(h, v.items[i], ts[i], lo, hi); } }
    case _ =>
  }

  /** The cells added since h hold no address of h: nothing new leads into what was there. */
  ghost predicate OnlyFresh(h: Heap, h': Heap, lo: Addr) {
    Extends(h, h') && forall a :: a in h' && a !in h ==> a >= lo && CellFrom(h'[a], lo)
  }

  lemma Join(a: seq<Issue>, b: seq<Issue>, c: seq<Issue>)
    ensures (a + b) + c == a + (b + c)
  {
  }

  // ---------------------------------------------------------------- the cloner

  /** `source` is the graph as it was when cloning began; `base` is the first address after it. */
  class ContextCloner {
    const memory: Memory
    ghost const source: Heap
    ghost const base: Addr
    var active: set<Visit>
    var issues: seq<Issue>

    constructor (memory: Memory)
      requires memory.Valid()
      ensures Ready() && this.memory == memory && source == memory.heap && base == memory.next
      ensures active == {} && issues == []
    {
      this.memory, source, base := memory, memory.heap, memory.next;
      active, issues := {}, [];
    }

    ghost predicate Ready()
      reads memory
    {
      memory.Valid() && Closed(source) && base <= memory.next && OnlyFresh(source, memory.heap, base)
    }

    /** cloneValue.  The copy is the tree `Cloned` says, made of fresh cells alone; the issues of
        `Faults` are appended; `active` is what it was. */
    method CloneValue(v: Val, path: Path, depth: nat) returns (r: Val, keep: bool)
      requires Ready() && ValidVal(source, v)
      modifies this, memory
      ensures Ready() && Extends(old(memory.heap), memory.heap) && old(memory.next) <= memory.next
      ensures active == old(active)
      ensures issues == old(issues) + Faults(source, v, path, active, depth)
      ensures keep <==> Cloned(source, v, active, depth).Some?
      ensures keep ==> Frozen(memory.heap, r, Cloned(source, v, active, depth).value, base, memory.next)
      decreases MAX_DEPTH + 1 - depth, 1
    {
      var fault := Fault(v, active, depth);
      PartsValid(source, v);
      if fault.Some? {
        issues := issues + [Issue(path, fault.value)];
        return VNil, false;
      }
      if v.VIface? {
        var elem;
        elem, keep := CloneValue(v.elem, path, depth + 1);
        r := if keep then VIface(elem) else VNil;
      } else if IsMap(v) {
        r := CloneMap(v, path, depth);
        keep := true;
      } else if IsList(v) {
        r := CloneList(v, path, depth);
        keep := true;
      } else {
        r, keep := v, true;
      }
    }

    /** What cloning a map or slice comes to, in terms of its parts. */
    lemma MapCloned(v: Val, path: Path, active: set<Visit>, depth: nat)
      requires Closed(source) && ValidVal(source, v) && IsMap(v) && Fault(v, active, depth).None?
      ensures forall k :: k in Entries(source, v) ==> ValidVal(source, Entries(source, v)[k])
      ensures var entries, inside := Entries(source, v), active + Visits(v);
        && Faults(source, v, path, active, depth)
           == EntryFaults(source, entries, Order.SortedKeys(entries.Keys), path, inside, depth + 1)
        && Cloned(source, v, active, depth) == Some(MapT(v.tid, ClonedEntries(source, entries, inside, depth + 1)))
    {
      MapFaults(source, Node(v, active, depth), path);
    }

    lemma ListCloned(v: Val, path: Path, active: set<Visit>, depth: nat)
      requires Closed(source) && ValidVal(source, v) && IsList(v) && Fault(v, active, depth).None?
      ensures forall i :: 0 <= i < |Elements(source, v)| ==> ValidVal(source, Elements(source, v)[i])
      ensures Flat(ElementZero(source, v))
      ensures var items, zero, inside := Elements(source, v), ElementZero(source, v), active + Visits(v);
        && Faults(source, v, path, active, depth) == ItemFaults(source, items, 0, path, inside, depth + 1)
        && Cloned(source, v, active, depth)
           == Some(ListT(v.tid, v.VArray?, ClonedItems(source, items, zero, inside, depth + 1)))
    {
      PartsValid(source, v);
      ListFaults(source, Node(v, active, depth), path);
    }

    /** cloneMap on a non-nil map: entries are met in key order, and dropped ones are left out. */
    method CloneMap(v: Val, path: Path, depth: nat) returns (r: Val)
      requires Ready() && ValidVal(source, v) && IsMap(v) && Fault(v, active, depth).None?
      modifies this, memory
      ensures Ready() && Extends(old(memory.heap), memory.heap) && old(memory.next) <= memory.next
      ensures active == old(active)
      ensures issues == old(issues) + Faults(source, v, path, active, depth)
      ensures Frozen(memory.heap, r, Cloned(source, v, active, depth).value, base, memory.next)
      decreases MAX_DEPTH + 1 - depth, 0
    {
      MapCloned(v, path, active, depth);
      PartsExtend(source, memory.heap, v);
      var entries := Entries(memory.heap, v);
      var unordered := CanonicalWriter.MapKeys(entries);
      ghost var trees := ClonedEntries(source, entries, active + Visits(v), depth + 1);
      var cloned := EntriesWithin(Visits(v), entries, Order.StableSort(Order.LessEq, unordered), path, depth + 1);
      r := Store(v.tid, cloned, trees);
    }

    /** The entries of a map, with its visit in the active set meanwhile. */
    method EntriesWithin(visits: set<Visit>, entries: map<string, Val>, keys: seq<string>, path: Path, depth: nat)
      returns (cloned: map<string, Val>)
      requires Ready() && visits !! active
      requires (forall k :: k in entries ==> ValidVal(source, entries[k])) && forall k :: k in keys <==> k in entries
      modifies this, memory
      ensures Ready() && Extends(old(memory.heap), memory.heap) && old(memory.next) <= memory.next
      ensures active == old(active)
      ensures issues == old(issues) + EntryFaults(source, entries, keys, path, active + visits, depth)
      ensures cloned.Keys == ClonedEntries(source, entries, active + visits, depth).Keys
      ensures Copies(cloned, ClonedEntries(source, entries, active + visits, depth))
      decreases MAX_DEPTH + 1 - depth, 4
    {
      active := active + visits;
      cloned := CloneEntries(entries, keys, path, depth);
      active := active - visits;
      assert active == old(active);
    }

    /** One entry: kept under its key, or left out. */
    method CloneEntry(v: Val, key: string, cloned: map<string, Val>, path: Path, depth: nat,
        ghost trees: map<string, Tree>)
      returns (more: map<string, Val>)
      requires Ready() && ValidVal(source, v) && Copies(cloned, trees)
      requires key in trees <==> Cloned(source, v, active, depth).Some?
      requires key in trees ==> trees[key] == Cloned(source, v, active, depth).value
      modifies this, memory
      ensures Ready() && Extends(old(memory.heap), memory.heap) && old(memory.next) <= memory.next
      ensures active == old(active)
      ensures issues == old(issues) + Faults(source, v, path, active, depth)
      ensures more.Keys == cloned.Keys + (if key in trees then {key} else {}) && Copies(more, trees)
      decreases MAX_DEPTH + 1 - depth, 2
    {
      ghost var before, top := memory.heap, memory.next;
      var child, keep := CloneValue(v, path, depth);
      CopiesPush(before, top, cloned, if keep then map[key := child] else map[], trees);
      more := cloned + if keep then map[key := child] else map[];
    }

    method CloneEntries(entries: map<string, Val>, keys: seq<string>, path: Path, depth: nat)
      returns (cloned: map<string, Val>)
      requires Ready() && (forall k :: k in entries ==> ValidVal(source, entries[k])) && forall k :: k in keys <==>
        k in entries
      modifies this, memory
      ensures Ready() && Extends(old(memory.heap), memory.heap) && old(memory.next) <= memory.next
      ensures active == old(active)
      ensures issues == old(issues) + EntryFaults(source, entries, keys, path, active, depth)
      ensures cloned.Keys == ClonedEntries(source, entries, active, depth).Keys
      ensures Copies(cloned, ClonedEntries(source, entries, active, depth))
      decreases MAX_DEPTH + 1 - depth, 3
    {
      ghost var trees := ClonedEntries(source, entries, active, depth);
      cloned := map[];
      for i := 0 to |keys|
        invariant Ready() && Extends(old(memory.heap), memory.heap) && old(memory.next) <= memory.next
        invariant active == old(active)
        invariant issues + EntryFaults(source, entries, keys[i..], path, active, depth)
               == old(issues) + EntryFaults(source, entries, keys, path, active, depth)
        invariant forall k :: k in cloned <==> k in keys[..i] && k in trees
        invariant Copies(cloned, trees)
      {
        ghost var reported := issues;
        Join(reported, Faults(source, entries[keys[i]], path + [Key(keys[i])], active, depth),
             EntryFaults(source, entries, keys[i + 1..], path, active, depth));
        assert keys[i..][1..] == keys[i + 1..] && keys[..i + 1] == keys[..i] + [keys[i]];
        cloned := CloneEntry(entries[keys[i]], keys[i], cloned, path + [Key(keys[i])], depth, trees);
      }
      assert keys[..|keys|] == keys;
    }

    ghost predicate Copies(cloned: map<string, Val>, trees: map<string, Tree>)
      reads memory
    {
      forall k :: k in cloned ==> k in trees && Frozen(memory.heap, cloned[k], trees[k], base, memory.next)
    }

    lemma CopiesPush(before: Heap, top: Addr, cloned: map<string, Val>, added: map<string, Val>,
        trees: map<string, Tree>)
      requires memory.Valid() && Closed(before) && Extends(before, memory.heap) && top <= memory.next
      requires forall k :: k in cloned ==> k in trees && Frozen(before, cloned[k], trees[k], base, top)
      requires Copies(added, trees)
      ensures Copies(cloned + added, trees)
    {
      forall k | k in cloned ensures Frozen(memory.heap, cloned[k], trees[k], base, memory.next) {
        FrozenFrame(before, memory.heap, cloned[k], trees[k], base, top, base, memory.next);
      }
    }

    method Store(tid: string, cloned: map<string, Val>, ghost trees: map<string, Tree>) returns (r: Val)
      requires Ready() && cloned.Keys == trees.Keys && Copies(cloned, trees)
      modifies memory
      ensures Ready() && Extends(old(memory.heap), memory.heap) && old(memory.next) <= memory.next
      ensures Frozen(memory.heap, r, MapT(tid, trees), base, memory.next)
    {
      ghost var before, top := memory.heap, memory.next;
      forall k | k in cloned ensures ValidVal(before, cloned[k]) && From(cloned[k], base) {
        FrozenValid(before, cloned[k], trees[k], base, top);
        FrozenFrom(before, cloned[k], trees[k], base, top);
      }
      var a := memory.Alloc(MapCell(cloned));
      r := VMap(tid, Some(a));
      forall k | k in trees ensures Frozen(memory.heap, cloned[k], trees[k], base, a) {
        FrozenFrame(before, memory.heap, cloned[k], trees[k], base, top, base, a);
      }
    }

    /** cloneSlice on a non-nil slice, and cloneArray: dropped items keep their zero value. */
    method CloneList(v: Val, path: Path, depth: nat) returns (r: Val)
      requires Ready() && ValidVal(source, v) && IsList(v) && Fault(v, active, depth).None?
      modifies this, memory
      ensures Ready() && Extends(old(memory.heap), memory.heap) && old(memory.next) <= memory.next
      ensures active == old(active)
      ensures issues == old(issues) + Faults(source, v, path, active, depth)
      ensures Frozen(memory.heap, r, Cloned(source, v, active, depth).value, base, memory.next)
      decreases MAX_DEPTH + 1 - depth, 0
    {
      ListCloned(v, path, active, depth);
      PartsExtend(source, memory.heap, v);
      var items, zero := Elements(memory.heap, v), ElementZero(memory.heap, v);
      ghost var trees := ClonedItems(source, items, zero, active + Visits(v), depth + 1);
      var cloned := CloneWithin(Visits(v), items, zero, path, depth + 1);
      r := StoreList(v, cloned, zero, trees);
    }

    /** The items of a container, with its visit in the active set meanwhile. */
    method CloneWithin(visits: set<Visit>, items: seq<Val>, zero: Val, path: Path, depth: nat)
      returns (cloned: seq<Val>)
      requires Ready() && Flat(zero) && visits !! active && forall i :: 0 <= i < |items| ==> ValidVal(source, items[i])
      modifies this, memory
      ensures Ready() && Extends(old(memory.heap), memory.heap) && old(memory.next) <= memory.next
      ensures active == old(active)
      ensures issues == old(issues) + ItemFaults(source, items, 0, path, active + visits, depth)
      ensures |cloned| == |items| && ListCopies(cloned, ClonedItems(source, items, zero, active + visits, depth))
      decreases MAX_DEPTH + 1 - depth, 3
    {
      active := active + visits;
      cloned := CloneItems(items, zero, path, depth);
      active := active - visits;
      assert active == old(active);
    }

    method CloneItems(items: seq<Val>, zero: Val, path: Path, depth: nat) returns (cloned: seq<Val>)
      requires Ready() && Flat(zero) && forall i :: 0 <= i < |items| ==> ValidVal(source, items[i])
      modifies this, memory
      ensures Ready() && Extends(old(memory.heap), memory.heap) && old(memory.next) <= memory.next
      ensures active == old(active)
      ensures issues == old(issues) + ItemFaults(source, items, 0, path, active, depth)
      ensures |cloned| == |items| && ListCopies(cloned, ClonedItems(source, items, zero, active, depth))
      decreases MAX_DEPTH + 1 - depth, 2
    {
      ghost var trees := ClonedItems(source, items, zero, active, depth);
      cloned := [];
      for i := 0 to |items|
        invariant Ready() && Extends(old(memory.heap), memory.heap) && old(memory.next) <= memory.next
        invariant active == old(active) && |cloned| == i
        invariant issues + ItemFaults(source, items, i, path, active, depth)
               == old(issues) + ItemFaults(source, items, 0, path, active, depth)
        invariant ListCopies(cloned, trees)
      {
        ghost var before, top, reported := memory.heap, memory.next, issues;
        var child, keep := CloneValue(items[i], path + [Index(i)], depth);
        Join(reported, Faults(source, items[i], path + [Index(i)], active, depth),
             ItemFaults(source, items, i + 1, path, active, depth));
        if !keep {
          FlatFrozen(memory.heap, zero, base, memory.next);
          child := zero;
        }
        ListCopiesPush(before, top, cloned, child, trees);
        cloned := cloned + [child];
      }
    }

    ghost predicate ListCopies(cloned: seq<Val>, trees: seq<Tree>)
      reads memory
    {
      && |cloned| <= |trees|
      && forall i :: 0 <= i < |cloned| ==> Frozen(memory.heap, cloned[i], trees[i], base, memory.next)
    }

    lemma ListCopiesPush(before: Heap, top: Addr, cloned: seq<Val>, child: Val, trees: seq<Tree>)
      requires memory.Valid() && Closed(before) && Extends(before, memory.heap) && top <= memory.next
      requires |cloned| < |trees| && forall i :: 0 <= i < |cloned| ==> Frozen(before, cloned[i], trees[i], base, top)
      requires Frozen(memory.heap, child, trees[|cloned|], base, memory.next)
      ensures ListCopies(cloned + [child], trees)
    {
      forall i | 0 <= i < |cloned| ensures Frozen(memory.heap, cloned[i], trees[i], base, memory.next) {
        FrozenFrame(before, memory.heap, cloned[i], trees[i], base, top, base, memory.next);
      }
    }

    method StoreList(v: Val, cloned: seq<Val>, zero: Val, ghost trees: seq<Tree>) returns (r: Val)
      requires Ready() && IsList(v) && Flat(zero) && |cloned| == |trees| && ListCopies(cloned, trees)
      modifies memory
      ensures Ready() && Extends(old(memory.heap), memory.heap) && old(memory.next) <= memory.next
      ensures Frozen(memory.heap, r, ListT(v.tid, v.VArray?, trees), base, memory.next)
    {
      ghost var before, top := memory.heap, memory.next;
      forall i | 0 <= i < |cloned| ensures ValidVal(before, cloned[i]) && From(cloned[i], base) {
        FrozenValid(before, cloned[i], trees[i], base, top);
        FrozenFrom(before, cloned[i], trees[i], base, top);
      }
      if v.VArray? {
        r := VArray(v.tid, cloned, zero);
      } else {
        var a := memory.Alloc(SliceCell(cloned, zero));
        r := VSlice(v.tid, Some(a), |cloned|);
        forall i | 0 <= i < |trees| ensures Frozen(memory.heap, cloned[i], trees[i], base, a) {
          FrozenFrame(before, memory.heap, cloned[i], trees[i], base, top, base, a);
        }
        assert cloned[..|cloned|] == cloned;
      }
    }
  }
}
