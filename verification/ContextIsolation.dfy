/** A caller that reads, writes and allocates with every reference it holds, and asks a context for
    copies in between, never changes what the context answers. */
module ContextIsolation {
  import opened Values
  import opened Frames
  import opened ObjectGraph
  import opened ContextCloner
  import opened DC = DeterministicContext

  /** The memory, and the values the caller has got hold of. */
  datatype Caller = Caller(heap: Heap, held: set<Val>)

  predicate PartOfCell(v: Val, c: Cell) {
    match c
    case MapCell(entries) => exists k :: k in entries && entries[k] == v
    case SliceCell(items, _) => v in items
  }

  /** Another length from the same start: s[:k] for k within the capacity. */
  predicate SliceOf(v: Val, w: Val) {
    v.VSlice? && w.VSlice? && v.tid == w.tid && v.ptr == w.ptr
  }

  /** A value put together from held values. */
  predicate Made(v: Val, held: set<Val>) {
    || v in held || Flat(v) || (exists w :: w in held && SliceOf(v, w))
    || (v.VIface? && Made(v.elem, held))
    || (v.VArray? && forall i :: 0 <= i < |v.items| ==> Made(v.items[i], held))
  }

  predicate MadeCell(c: Cell, held: set<Val>) {
    match c
    case MapCell(entries) => forall k :: k in entries ==> Made(entries[k], held)
    case SliceCell(items, _) => forall i :: 0 <= i < |items| ==> Made(items[i], held)
  }

  predicate Points(v: Val, a: Addr) {
    (v.VMap? || v.VSlice?) && v.ptr == Some(a)
  }

  datatype Action =
    | Load(from: Val, a: Addr, got: Val)       // read a part of a held map or slice
    | Unpack(from: Val, got: Val)              // open a held box or array
    | Reslice(from: Val, got: Val)             // s[:k] of a held slice
    | Store(into: Val, a: Addr, cell: Cell)    // overwrite a held map or slice
    | New(a: Addr, cell: Cell, got: Val)       // allocate
    | Ask(base: Addr, got: Val)                // receive a fresh copy from Get, GetItem or Data

  ghost predicate Does(c: Caller, act: Action, c': Caller, hi: Addr) {
    Closed(c'.heap)
    && match act
       case Load(from, a, got) =>
         from in c.held && Points(from, a) && a in c.heap && PartOfCell(got, c.heap[a])
         && c' == Caller(c.heap, c.held + {got})
       case Unpack(from, got) =>
         from in c.held && (from == VIface(got) || (from.VArray? && got in from.items))
         && c' == Caller(c.heap, c.held + {got})
       case Reslice(from, got) =>
         from in c.held && SliceOf(got, from) && ValidVal(c.heap, got) && c' == Caller(c.heap, c.held + {got})
       case Store(into, a, cell) =>
         into in c.held && Points(into, a) && MadeCell(cell, c.held) && c' == Caller(c.heap[a := cell], c.held)
       case New(a, cell, got) =>
         a !in c.heap && hi <= a && MadeCell(cell, c.held) && Points(got, a)
         && c' == Caller(c.heap[a := cell], c.held + {got})
       case Ask(base, got) =>
         hi <= base && OnlyFresh(c.heap, c'.heap, base) && From(got, base) && c'.held == c.held + {got}
  }

  ghost predicate Safe(c: Caller, lo: Addr, hi: Addr) {
    Closed(c.heap) && Isolated(c.heap, lo, hi) && forall v :: v in c.held ==> Outside(v, lo, hi)
  }

  lemma {:induction false} FlatOutside(v: Val, lo: Addr, hi: Addr)
    requires Flat(v)
    ensures Outside(v, lo, hi)
  {
    if v.VArray? { forall i | 0 <= i < |v.items| { FlatOutside(v.items[i], lo, hi); } }
  }

  lemma {:induction false} MadeOutside(v: Val, held: set<Val>, lo: Addr, hi: Addr)
    requires Made(v, held) && forall w :: w in held ==> Outside(w, lo, hi)
    ensures Outside(v, lo, hi)
  {
    if v !in held {
      if exists w :: w in held && SliceOf(v, w) {
        var w :| w in held && SliceOf(v, w);
      } else if Flat(v) {
        FlatOutside(v, lo, hi);
      } else if v.VIface? {
        MadeOutside(v.elem, held, lo, hi);
      } else {
        forall i | 0 <= i < |v.items| { MadeOutside(v.items[i], held, lo, hi); }
      }
    }
  }

  lemma MadeCellOutside(c: Cell, held: set<Val>, lo: Addr, hi: Addr)
    requires MadeCell(c, held) && forall w :: w in held ==> Outside(w, lo, hi)
    ensures CellOutside(c, lo, hi)
  {
    match c
    case MapCell(entries) => forall k | k in entries { MadeOutside(entries[k], held, lo, hi); }
    case SliceCell(items, _) => forall i | 0 <= i < |items| { MadeOutside(items[i], held, lo, hi); }
  }

  /** No action reaches a cell of the context, and none gains a reference to one. */
  lemma ActionIsSafe(c: Caller, act: Action, c': Caller, lo: Addr, hi: Addr)
    requires Safe(c, lo, hi) && Does(c, act, c', hi)
    ensures Safe(c', lo, hi)
    ensures forall a :: a in c.heap && lo <= a < hi ==> a in c'.heap && c'.heap[a] == c.heap[a]
  {
    match act
    case Load(_, a, got) => assert CellOutside(c.heap[a], lo, hi);
    case Unpack(_, _) =>
    case Reslice(_, _) =>
    case Store(_, a, cell) => MadeCellOutside(cell, c.held, lo, hi);
    case New(a, cell, _) => MadeCellOutside(cell, c.held, lo, hi);
    case Ask(base, got) =>
      FreshIsolated(c.heap, c'.heap, base, lo, hi);
      LaterOutside(got, base, lo, hi);
  }

  /** The caller is not held back: it can overwrite any key of a map it holds with anything it holds, read
      any key, and put held values together in new memory. */
  lemma CallerWrites(c: Caller, into: Val, a: Addr, k: string, v: Val, hi: Addr)
    requires Closed(c.heap) && into in c.held && Points(into, a) && a in c.heap && c.heap[a].MapCell?
    requires v in c.held && ValidVal(c.heap, v) && forall j :: j in c.heap[a].entries ==> c.heap[a].entries[j] in c.held
    ensures var cell := MapCell(c.heap[a].entries[k := v]);
      Does(c, Store(into, a, cell), Caller(c.heap[a := cell], c.held), hi)
    ensures forall j :: j in c.heap[a].entries ==>
      var got := c.heap[a].entries[j]; Does(c, Load(into, a, got), Caller(c.heap, c.held + {got}), hi)
  {
    var cell := MapCell(c.heap[a].entries[k := v]);
    var heap := c.heap[a := cell];
    assert ValidCell(c.heap, c.heap[a]);
    forall w | ValidVal(c.heap, w) ensures ValidVal(heap, w) { StillValid(c.heap, heap, w); }
    forall b | b in heap ensures ValidCell(heap, heap[b]) { assert b in c.heap && ValidCell(c.heap, c.heap[b]); }
  }

  lemma {:induction false} StillValid(h: Heap, h': Heap, w: Val)
    requires ValidVal(h, w)
    requires forall b :: b in h ==> b in h' && (h[b].MapCell? ==> h'[b].MapCell?) && (h[b].SliceCell? ==> h'[b] == h[b])
    ensures ValidVal(h', w)
  {
    match w
    case VIface(elem) => StillValid(h, h', elem);
    case VArray(_, items, _) => forall i | 0 <= i < |items| { StillValid(h, h', items[i]); }
    case _ =>
  }

  lemma CallerMakes(c: Caller, tid: string, a: Addr, k: string, v: Val, hi: Addr)
    requires Closed(c.heap) && a !in c.heap && hi <= a && v in c.held && ValidVal(c.heap, v)
    ensures var cell, got := MapCell(map[k := v]), VMap(tid, Some(a));
      Does(c, New(a, cell, got), Caller(c.heap[a := cell], c.held + {got}), hi)
  {
    var heap := c.heap[a := MapCell(map[k := v])];
    forall w | ValidVal(c.heap, w) ensures ValidVal(heap, w) { StillValid(c.heap, heap, w); }
    forall b | b in heap ensures ValidCell(heap, heap[b]) { assert b in c.heap ==> ValidCell(c.heap, c.heap[b]); }
  }

  /** Right after construction the caller may hold anything it could reach before. */
  lemma StartsSafe(before: Heap, c: Caller, lo: Addr, hi: Addr)
    requires Closed(c.heap) && Isolated(c.heap, lo, hi) && forall a :: a in before ==> a < lo
    requires forall v :: v in c.held ==> ValidVal(before, v)
    ensures Safe(c, lo, hi)
  {
    forall v | v in c.held { OldOutside(before, v, lo, hi); }
  }

  /** What a key reads depends on the context's own cells alone. */
  lemma ReadsSame(h: Heap, h': Heap, data: Val, t: Tree, lo: Addr, hi: Addr)
    requires Closed(h) && Closed(h') && Frozen(h, data, t, lo, hi) && IsMap(data)
    requires forall a :: a in h && lo <= a < hi ==> a in h' && h'[a] == h[a]
    ensures ValidVal(h, data) && ValidVal(h', data) && Entries(h', data) == Entries(h, data)
    ensures forall k :: k in Entries(h, data) ==>
      var stored := Entries(h, data)[k];
      ValidVal(h, stored) && ValidVal(h', stored) && ReadBack(h', stored) == ReadBack(h, stored)
  {
    FrozenFrame(h, h', data, t, lo, hi, lo, hi);
    FrozenValid(h, data, t, lo, hi);
    FrozenValid(h', data, t, lo, hi);
    PartsValid(h, data);
    PartsValid(h', data);
    forall k | k in Entries(h, data)
      ensures ReadBack(h', Entries(h, data)[k]) == ReadBack(h, Entries(h, data)[k])
    {
      var stored := Entries(h, data)[k];
      if stored.VIface? {
        ReadFrame(h, h', stored.elem, t.entries[k].elem, lo, data.ptr.value, {}, 0);
      }
    }
  }

  lemma {:induction false} CellsSame(run: seq<Caller>, acts: seq<Action>, lo: Addr, hi: Addr, n: nat)
    requires |run| == |acts| + 1 && n < |run|
    requires forall i :: 0 <= i < |acts| ==> Does(run[i], acts[i], run[i + 1], hi)
    requires Safe(run[0], lo, hi)
    ensures Safe(run[n], lo, hi)
    ensures forall a :: a in run[0].heap && lo <= a < hi ==> a in run[n].heap && run[n].heap[a] == run[0].heap[a]
  {
    if n > 0 {
      CellsSame(run, acts, lo, hi, n - 1);
      ActionIsSafe(run[n - 1], acts[n - 1], run[n], lo, hi);
    }
  }

  /** Over any run, the context still is the tree it was built as, and every key reads the same. */
  lemma NoInterference(run: seq<Caller>, acts: seq<Action>, data: Val, t: Tree, lo: Addr, hi: Addr, n: nat)
    requires |run| == |acts| + 1 && n < |run|
    requires forall i :: 0 <= i < |acts| ==> Does(run[i], acts[i], run[i + 1], hi)
    requires Safe(run[0], lo, hi) && Frozen(run[0].heap, data, t, lo, hi) && IsMap(data)
    ensures Safe(run[n], lo, hi) && Frozen(run[n].heap, data, t, lo, hi)
    ensures ValidVal(run[0].heap, data) && ValidVal(run[n].heap, data)
    ensures Entries(run[n].heap, data) == Entries(run[0].heap, data)
    ensures forall k :: k in Entries(run[0].heap, data) ==>
      var stored := Entries(run[0].heap, data)[k];
      && ValidVal(run[0].heap, stored) && ValidVal(run[n].heap, stored)
      && ReadBack(run[n].heap, stored) == ReadBack(run[0].heap, stored)
  {
    CellsSame(run, acts, lo, hi, n);
    FrozenFrame(run[0].heap, run[n].heap, data, t, lo, hi, lo, hi);
    ReadsSame(run[0].heap, run[n].heap, data, t, lo, hi);
  }

  // ---------------------------------------------------------------- a context and its callers

  /** A run of callers from the moment the context was built. */
  ghost predicate Session(ctx: DC.DeterministicContext, run: seq<Caller>, acts: seq<Action>) {
    && |run| == |acts| + 1 && (forall i :: 0 <= i < |acts| ==> Does(run[i], acts[i], run[i + 1], ctx.hi))
    && ctx.Stands(run[0].heap) && Safe(run[0], ctx.lo, ctx.hi)
  }

  /** Construction starts a session, for a caller holding anything that existed before. */
  method Build(memory: Memory, input: Val, time: int, sha: string -> string, ghost held: set<Val>)
    returns (ctx: DC.DeterministicContext, ghost start: Caller)
    requires memory.Valid() && DC.IsObject(memory.heap, input) && forall v :: v in held ==> ValidVal(memory.heap, v)
    modifies memory
    ensures fresh(ctx) && ctx.memory == memory && ctx.Valid() && start == Caller(memory.heap, held)
    ensures Session(ctx, [start], [])
    ensures input.ptr.Some? ==> Cloned(old(memory.heap), input, {}, 0) == Some(ctx.tree)
    ensures input.ptr.Some? && ctx.issues == [] ==> Unfolds(old(memory.heap), input, ctx.tree)
  {
    ghost var before := memory.heap;
    ctx := new DC.DeterministicContext(memory, input, time, sha);
    start := Caller(memory.heap, held);
    StartsSafe(before, start, ctx.lo, ctx.hi);
  }

  /** Get is the action Ask, or hands the caller its own default back. */
  method AskGet(ctx: DC.DeterministicContext, key: string, default: Val, ghost c: Caller)
    returns (r: Val, ghost c': Caller)
    requires ctx.Valid() && c.heap == ctx.memory.heap && default in c.held
    modifies ctx.memory
    ensures ctx.Valid() && c'.heap == ctx.memory.heap && r in c'.held
    ensures c' == c || Does(c, Ask(old(ctx.memory.next), r), c', ctx.hi)
  {
    ghost var h, base := ctx.memory.heap, ctx.memory.next;
    r := ctx.Get(key, default);
    if key in Entries(h, ctx.data) {
      FrozenFrom(ctx.memory.heap, r, ReadBack(h, Entries(h, ctx.data)[key]), base, ctx.memory.next);
      c' := Caller(ctx.memory.heap, c.held + {r});
    } else {
      c' := c;
    }
  }

  /** Data is the action Ask. */
  method AskData(ctx: DC.DeterministicContext, ghost c: Caller) returns (r: Val, ghost c': Caller)
    requires ctx.Valid() && c.heap == ctx.memory.heap
    modifies ctx.memory
    ensures ctx.Valid() && c'.heap == ctx.memory.heap && r in c'.held
    ensures Does(c, Ask(old(ctx.memory.next), r), c', ctx.hi)
  {
    ghost var t, base := Cloned(ctx.memory.heap, ctx.data, {}, 0), ctx.memory.next;
    r := ctx.Data();
    FrozenFrom(ctx.memory.heap, r, t.value, base, ctx.memory.next);
    c' := Caller(ctx.memory.heap, c.held + {r});
  }

  /** The context stands at the end of every session, and its keys read as they did when it was built. */
  lemma SessionKeeps(ctx: DC.DeterministicContext, run: seq<Caller>, acts: seq<Action>)
    requires Session(ctx, run, acts)
    ensures ctx.Stands(run[|acts|].heap) && Safe(run[|acts|], ctx.lo, ctx.hi)
    ensures Entries(run[|acts|].heap, ctx.data) == Entries(run[0].heap, ctx.data)
  {
    NoInterference(run, acts, ctx.data, ctx.tree, ctx.lo, ctx.hi, |acts|);
  }

  /** A new read of a context, after any session: the entry the context was built with, in fresh cells. */
  method ReadAfter(ctx: DC.DeterministicContext, ghost run: seq<Caller>, ghost acts: seq<Action>, key: string,
      default: Val)
    returns (r: Val)
    requires Session(ctx, run, acts)
    requires ctx.memory.Valid() && ctx.hi <= ctx.memory.next && ctx.memory.heap == run[|acts|].heap
    requires ctx.issues == []
    modifies ctx.memory
    ensures ctx.Valid()
    ensures key in ctx.tree.entries ==>
      Frozen(ctx.memory.heap, r, ctx.tree.entries[key], old(ctx.memory.next), ctx.memory.next)
    ensures key !in ctx.tree.entries ==> r == default
  {
    SessionKeeps(ctx, run, acts);
    r := ctx.Get(key, default);
  }
}
