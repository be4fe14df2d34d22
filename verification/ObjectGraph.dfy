/** The object graph a context is built from: Go maps and slices are shared by address and may be
    cyclic.  `Cloned` and `Faults` say what the cloner of core/deterministic_context.go keeps and
    what it reports; the paths of the graph say, independently, what it should. */
module ObjectGraph {
  import opened Values
  import opened Frames
  import Order

  type Addr = nat

  datatype Val =
    | VNil
    | VIface(elem: Val)
    | VScalar(tid: string, scalar: Scalar)
    | VMap(tid: string, ptr: Option<Addr>)
    | VSlice(tid: string, ptr: Option<Addr>, len: nat)   // len items from the address ptr on
    | VArray(tid: string, items: seq<Val>, zero: Val)    // arrays are values, held in place
    | VNonStringMap(tid: string, isNil: bool)
    | VOpaque(tid: string)

  /** A slice cell also knows the zero value of its element type. */
  datatype Cell = MapCell(entries: map<string, Val>) | SliceCell(items: seq<Val>, zero: Val)

  type Heap = map<Addr, Cell>

  /** contextVisit */
  datatype Visit = Visit(isMap: bool, tid: string, ptr: Addr)

  datatype Step = Key(key: string) | Index(i: nat) | Unbox
  type Path = seq<Step>

  datatype Reason = TooDeep | BadNumber | NonFinite | BadKeys | Cycle | Unsupported
  datatype Issue = Issue(path: Path, reason: Reason)

  const MAX_DEPTH := 256

  // ---------------------------------------------------------------- well-formed graphs

  /** No addresses inside: what a Go zero value looks like. */
  predicate Flat(v: Val) {
    match v
    case VIface(_) => false
    case VMap(_, ptr) => ptr == None
    case VSlice(_, ptr, len) => ptr == None && len == 0
    case VArray(_, items, zero) => (forall i :: 0 <= i < |items| ==> Flat(items[i])) && Flat(zero)
    case _ => true
  }

  predicate ValidVal(h: Heap, v: Val) {
    match v
    case VIface(elem) => ValidVal(h, elem)
    case VMap(_, Some(a)) => a in h && h[a].MapCell?
    case VSlice(_, Some(a), len) => a in h && h[a].SliceCell? && len <= |h[a].items|
    case VArray(_, items, zero) => (forall i :: 0 <= i < |items| ==> ValidVal(h, items[i])) && Flat(zero)
    case _ => true
  }

  predicate ValidCell(h: Heap, c: Cell) {
    match c
    case MapCell(entries) => forall k :: k in entries ==> ValidVal(h, entries[k])
    case SliceCell(items, zero) => (forall i :: 0 <= i < |items| ==> ValidVal(h, items[i])) && Flat(zero)
  }

  /** Go's memory safety: every address in use leads to a cell of the right kind. */
  ghost predicate Closed(h: Heap) {
    forall a :: a in h ==> ValidCell(h, h[a])
  }

  // ---------------------------------------------------------------- what the cloner computes

  /** The checks of cloneValue, cloneMap and cloneSlice on one value, in their order. */
  function Fault(v: Val, active: set<Visit>, depth: nat): Option<Reason> {
    if depth > MAX_DEPTH then Some(TooDeep)
    else
      match v
      case VScalar(tid, s) =>
        if GoodScalar(tid, s) then None else Some(if s.StrS? then BadNumber else NonFinite)
      case VNonStringMap(_, _) => Some(BadKeys)
      case VOpaque(_) => Some(Unsupported)
      case _ => if Visits(v) <= active && Visits(v) != {} then Some(Cycle) else None
  }

  /** The visit under which a non-nil map or slice is recorded while its parts are cloned. */
  function Visits(v: Val): set<Visit> {
    match v
    case VMap(tid, Some(a)) => {Visit(true, tid, a)}
    case VSlice(tid, Some(a), _) => {Visit(false, tid, a)}
    case _ => {}
  }

  predicate IsMap(v: Val) {
    v.VMap? && v.ptr.Some?
  }

  predicate IsList(v: Val) {
    v.VArray? || (v.VSlice? && v.ptr.Some?)
  }

  function Entries(h: Heap, v: Val): (r: map<string, Val>)
    requires ValidVal(h, v) && IsMap(v)
  {
    h[v.ptr.value].entries
  }

  function Elements(h: Heap, v: Val): (r: seq<Val>)
    requires ValidVal(h, v) && IsList(v)
  {
    if v.VArray? then v.items else h[v.ptr.value].items[..v.len]
  }

  /** The zero value of the element type. */
  function ElementZero(h: Heap, v: Val): Val
    requires ValidVal(h, v) && IsList(v)
  {
    if v.VArray? then v.zero else h[v.ptr.value].zero
  }

  lemma PartsValid(h: Heap, v: Val)
    requires Closed(h) && ValidVal(h, v)
    ensures IsMap(v) ==> forall k :: k in Entries(h, v) ==> ValidVal(h, Entries(h, v)[k])
    ensures IsList(v) ==> Flat(ElementZero(h, v))
    ensures IsList(v) ==> forall i :: 0 <= i < |Elements(h, v)| ==> ValidVal(h, Elements(h, v)[i])
  {
    if (v.VMap? || v.VSlice?) && v.ptr.Some? {
      assert ValidCell(h, h[v.ptr.value]);
    }
  }

  /** The tree of a value without addresses. */
  function FlatTree(v: Val): Tree
    decreases v, 1
  {
    match v
    case VNil => Nil
    case VIface(elem) => Iface(FlatTree(elem))
    case VScalar(tid, s) => ScalarT(tid, s)
    case VMap(tid, _) => NilMap(tid)
    case VSlice(tid, _, _) => NilSlice(tid)
    case VArray(tid, items, _) => ListT(tid, true, FlatTrees(items))
    case VNonStringMap(tid, isNil) => Tree.NonStringMap(tid, isNil)
    case VOpaque(tid) => Opaque(tid)
  }

  function FlatTrees(items: seq<Val>): (r: seq<Tree>)
    ensures |r| == |items| && forall i :: 0 <= i < |items| ==> r[i] == FlatTree(items[i])
    decreases items, 0
  {
    if |items| == 0 then [] else [FlatTree(items[0])] + FlatTrees(items[1..])
  }

  /** What cloneValue returns: nothing when the value is dropped. */
  function Cloned(h: Heap, v: Val, active: set<Visit>, depth: nat): Option<Tree>
    requires Closed(h) && ValidVal(h, v)
    decreases MAX_DEPTH + 1 - depth, 0
  {
    PartsValid(h, v);
    if Fault(v, active, depth).Some? then None
    else if v.VIface? then
      match Cloned(h, v.elem, active, depth + 1)
      case None => None
      case Some(t) => Some(Iface(t))
    else if IsMap(v) then
      Some(MapT(v.tid, ClonedEntries(h, Entries(h, v), active + Visits(v), depth + 1)))
    else if IsList(v) then
      Some(ListT(v.tid, v.VArray?, ClonedItems(h, Elements(h, v), ElementZero(h, v), active + Visits(v), depth + 1)))
    else Some(FlatTree(v))
  }

  /** Dropped map entries are left out. */
  function ClonedEntries(h: Heap, entries: map<string, Val>, active: set<Visit>, depth: nat): (r: map<string, Tree>)
    requires Closed(h) && forall k :: k in entries ==> ValidVal(h, entries[k])
    ensures forall k :: k in r <==> k in entries && Cloned(h, entries[k], active, depth).Some?
    ensures forall k :: k in r ==> Some(r[k]) == Cloned(h, entries[k], active, depth)
    decreases MAX_DEPTH + 1 - depth, 1
  {
    map k | k in entries && Cloned(h, entries[k], active, depth).Some? :: Cloned(h, entries[k], active, depth).value
  }

  /** Dropped items keep the zero value of the element type. */
  function ClonedItems(h: Heap, items: seq<Val>, zero: Val, active: set<Visit>, depth: nat): (r: seq<Tree>)
    requires Closed(h) && forall i :: 0 <= i < |items| ==> ValidVal(h, items[i])
    ensures |r| == |items|
    ensures forall i :: 0 <= i < |items| ==> r[i] == Slot(Cloned(h, items[i], active, depth), zero)
    decreases MAX_DEPTH + 1 - depth, 1, |items|
  {
    if |items| == 0 then []
    else [Slot(Cloned(h, items[0], active, depth), zero)] + ClonedItems(h, items[1..], zero, active, depth)
  }

  function Slot(t: Option<Tree>, zero: Val): Tree {
    if t.Some? then t.value else FlatTree(zero)
  }

  /** The issues cloneValue adds, in the order it adds them. */
  function Faults(h: Heap, v: Val, path: Path, active: set<Visit>, depth: nat): seq<Issue>
    requires Closed(h) && ValidVal(h, v)
    decreases MAX_DEPTH + 1 - depth, 0
  {
    PartsValid(h, v);
    var f := Fault(v, active, depth);
    if f.Some? then [Issue(path, f.value)]
    else if v.VIface? then Faults(h, v.elem, path, active, depth + 1)
    else if IsMap(v) then
      var entries := Entries(h, v);
      EntryFaults(h, entries, Order.SortedKeys(entries.Keys), path, active + Visits(v), depth + 1)
    else if IsList(v) then ItemFaults(h, Elements(h, v), 0, path, active + Visits(v), depth + 1)
    else []
  }

  function EntryFaults(h: Heap, entries: map<string, Val>, keys: seq<string>, path: Path,
                       active: set<Visit>, depth: nat): seq<Issue>
    requires Closed(h) && (forall k :: k in entries ==> ValidVal(h, entries[k])) && forall k :: k in keys ==>
      k in entries
    decreases MAX_DEPTH + 1 - depth, 1, |keys|
  {
    if |keys| == 0 then []
    else
      Faults(h, entries[keys[0]], path + [Key(keys[0])], active, depth)
      + EntryFaults(h, entries, keys[1..], path, active, depth)
  }

  function ItemFaults(h: Heap, items: seq<Val>, from: nat, path: Path, active: set<Visit>, depth: nat): seq<Issue>
    requires Closed(h) && from <= |items| && forall i :: 0 <= i < |items| ==> ValidVal(h, items[i])
    decreases MAX_DEPTH + 1 - depth, 1, |items| - from
  {
    if from == |items| then []
    else
      Faults(h, items[from], path + [Index(from)], active, depth)
      + ItemFaults(h, items, from + 1, path, active, depth)
  }

  // ---------------------------------------------------------------- the graph's own paths

  /** A place in the graph: the value there, the containers entered on the way, and the depth. */
  datatype Node = Node(val: Val, active: set<Visit>, depth: nat)

  ghost predicate ValidNode(h: Heap, n: Node) {
    Closed(h) && ValidVal(h, n.val)
  }

  function Child(h: Heap, n: Node, s: Step): (r: Option<Node>)
    requires Closed(h) && ValidVal(h, n.val)
    ensures r.Some? ==> ValidVal(h, r.value.val)
  {
    var v := n.val;
    PartsValid(h, v);
    match s
    case Unbox => if v.VIface? then Some(Node(v.elem, n.active, n.depth + 1)) else None
    case Key(k) =>
      if IsMap(v) && k in Entries(h, v) then Some(Node(Entries(h, v)[k], n.active + Visits(v), n.depth + 1)) else None
    case Index(i) =>
      if IsList(v) && i < |Elements(h, v)| then Some(Node(Elements(h, v)[i], n.active + Visits(v), n.depth + 1))
      else None
  }

  /** Following a path through the graph, cyclic or not. */
  function Walk(h: Heap, n: Node, path: Path): (r: Option<Node>)
    requires Closed(h) && ValidVal(h, n.val)
    ensures r.Some? ==> ValidVal(h, r.value.val)
    decreases |path|
  {
    if |path| == 0 then Some(n)
    else
      match Child(h, n, path[0])
      case None => None
      case Some(c) => Walk(h, c, path[1..])
  }

  function NodeFault(n: Node): Option<Reason> {
    Fault(n.val, n.active, n.depth)
  }

  /** The same, but not past a faulty value. */
  function Visited(h: Heap, n: Node, path: Path): (r: Option<Node>)
    requires Closed(h) && ValidVal(h, n.val)
    ensures r.Some? ==> ValidVal(h, r.value.val)
    decreases |path|
  {
    if |path| == 0 then Some(n)
    else if NodeFault(n).Some? then None
    else
      match Child(h, n, path[0])
      case None => None
      case Some(c) => Visited(h, c, path[1..])
  }

  /** Interface boxes have no part in a reported path. */
  function Shown(path: Path): Path {
    if |path| == 0 then []
    else if path[0].Unbox? then Shown(path[1..])
    else [path[0]] + Shown(path[1..])
  }

  function NodeFaults(h: Heap, n: Node, path: Path): seq<Issue>
    requires Closed(h) && ValidVal(h, n.val)
  {
    Faults(h, n.val, path, n.active, n.depth)
  }

  lemma {:induction false} EntryFaultsMember(h: Heap, entries: map<string, Val>, keys: seq<string>, path: Path,
                                             active: set<Visit>, depth: nat, x: Issue)
    requires Closed(h) && (forall k :: k in entries ==> ValidVal(h, entries[k])) && forall k :: k in keys ==>
      k in entries
    ensures x in EntryFaults(h, entries, keys, path, active, depth)
       <==> exists k :: k in keys && x in Faults(h, entries[k], path + [Key(k)], active, depth)
    decreases |keys|
  {
    if |keys| > 0 {
      EntryFaultsMember(h, entries, keys[1..], path, active, depth, x);
      assert keys == [keys[0]] + keys[1..];
    }
  }

  lemma {:induction false} ItemFaultsMember(h: Heap, items: seq<Val>, from: nat, path: Path,
                                            active: set<Visit>, depth: nat, x: Issue)
    requires Closed(h) && from <= |items| && forall i :: 0 <= i < |items| ==> ValidVal(h, items[i])
    ensures x in ItemFaults(h, items, from, path, active, depth)
       <==> exists i: nat :: from <= i < |items| && x in Faults(h, items[i], path + [Index(i)], active, depth)
    decreases |items| - from
  {
    if from < |items| {
      var here := Faults(h, items[from], path + [Index(from)], active, depth);
      var rest := ItemFaults(h, items, from + 1, path, active, depth);
      ItemFaultsMember(h, items, from + 1, path, active, depth, x);
      assert x in here + rest <==> x in here || x in rest;
    }
  }

  lemma BoxFaults(h: Heap, n: Node, path: Path)
    requires ValidNode(h, n) && NodeFault(n).None? && Child(h, n, Unbox).Some?
    ensures NodeFaults(h, n, path) == NodeFaults(h, Child(h, n, Unbox).value, path + Shown([Unbox]))
  {
    assert path + Shown([Unbox]) == path;
  }

  /** The issues below a faultless node are those of its children. */
  lemma FaultFromChild(h: Heap, n: Node, path: Path, s: Step, x: Issue)
    requires ValidNode(h, n) && NodeFault(n).None?
    requires Child(h, n, s).Some? && x in NodeFaults(h, Child(h, n, s).value, path + Shown([s]))
    ensures x in NodeFaults(h, n, path)
  {
    if s.Unbox? {
      BoxFaults(h, n, path);
    } else {
      PartFaults(h, n, path, s, x);
    }
  }

  lemma PartFaults(h: Heap, n: Node, path: Path, s: Step, x: Issue)
    requires ValidNode(h, n) && NodeFault(n).None? && !s.Unbox?
    requires Child(h, n, s).Some? && x in NodeFaults(h, Child(h, n, s).value, path + Shown([s]))
    ensures x in NodeFaults(h, n, path)
  {
    assert Shown([s]) == [s];
    match s
    case Key(k) => KeyFaults(h, n, path, k, x);
    case Index(i) => IndexFaults(h, n, path, i, x);
  }

  lemma MapFaults(h: Heap, n: Node, path: Path)
    requires ValidNode(h, n) && NodeFault(n).None? && IsMap(n.val)
    ensures forall k :: k in Entries(h, n.val) ==> ValidVal(h, Entries(h, n.val)[k])
    ensures NodeFaults(h, n, path)
      == EntryFaults(h, Entries(h, n.val), Order.SortedKeys(Entries(h, n.val).Keys),
                     path, n.active + Visits(n.val), n.depth + 1)
  {
    PartsValid(h, n.val);
  }

  lemma ListFaults(h: Heap, n: Node, path: Path)
    requires ValidNode(h, n) && NodeFault(n).None? && IsList(n.val)
    ensures forall i :: 0 <= i < |Elements(h, n.val)| ==> ValidVal(h, Elements(h, n.val)[i])
    ensures NodeFaults(h, n, path) == ItemFaults(h, Elements(h, n.val), 0, path, n.active + Visits(n.val), n.depth + 1)
  {
    PartsValid(h, n.val);
  }

  lemma KeyFaults(h: Heap, n: Node, path: Path, k: string, x: Issue)
    requires ValidNode(h, n) && NodeFault(n).None? && Child(h, n, Key(k)).Some?
    requires x in NodeFaults(h, Child(h, n, Key(k)).value, path + [Key(k)])
    ensures x in NodeFaults(h, n, path)
  {
    MapFaults(h, n, path);
    KeyChild(h, n, k);
    EntryFaultKept(h, Entries(h, n.val), k, path, n.active + Visits(n.val), n.depth + 1, x);
  }

  lemma IndexFaults(h: Heap, n: Node, path: Path, i: nat, x: Issue)
    requires ValidNode(h, n) && NodeFault(n).None? && Child(h, n, Index(i)).Some?
    requires x in NodeFaults(h, Child(h, n, Index(i)).value, path + [Index(i)])
    ensures x in NodeFaults(h, n, path)
  {
    ListFaults(h, n, path);
    ItemFaultKept(h, Elements(h, n.val), i, path, n.active + Visits(n.val), n.depth + 1, x);
  }

  lemma EntryFaultKept(h: Heap, entries: map<string, Val>, k: string, path: Path, active: set<Visit>, depth: nat,
      x: Issue)
    requires Closed(h) && (forall k :: k in entries ==> ValidVal(h, entries[k])) && k in entries
    requires x in Faults(h, entries[k], path + [Key(k)], active, depth)
    ensures x in EntryFaults(h, entries, Order.SortedKeys(entries.Keys), path, active, depth)
  {
    EntryFaultsMember(h, entries, Order.SortedKeys(entries.Keys), path, active, depth, x);
  }

  lemma ItemFaultKept(h: Heap, items: seq<Val>, i: nat, path: Path, active: set<Visit>, depth: nat, x: Issue)
    requires Closed(h) && i < |items| && forall i :: 0 <= i < |items| ==> ValidVal(h, items[i])
    requires x in Faults(h, items[i], path + [Index(i)], active, depth)
    ensures x in ItemFaults(h, items, 0, path, active, depth)
  {
    ItemFaultsMember(h, items, 0, path, active, depth, x);
  }

  lemma FaultInChild(h: Heap, n: Node, path: Path, x: Issue) returns (s: Step)
    requires ValidNode(h, n) && NodeFault(n).None? && x in NodeFaults(h, n, path)
    ensures Child(h, n, s).Some? && x in NodeFaults(h, Child(h, n, s).value, path + Shown([s]))
  {
    if n.val.VIface? {
      BoxFaults(h, n, path);
      s := Unbox;
    } else if IsMap(n.val) {
      var k := FaultAtKey(h, n, path, x);
      s := Key(k);
      assert Shown([s]) == [s];
    } else {
      var i := FaultAtIndex(h, n, path, x);
      s := Index(i);
      assert Shown([s]) == [s];
    }
  }

  lemma FaultAtKey(h: Heap, n: Node, path: Path, x: Issue) returns (k: string)
    requires ValidNode(h, n) && NodeFault(n).None? && IsMap(n.val) && x in NodeFaults(h, n, path)
    ensures Child(h, n, Key(k)).Some? && x in NodeFaults(h, Child(h, n, Key(k)).value, path + [Key(k)])
  {
    MapFaults(h, n, path);
    k := EntryAtFault(h, Entries(h, n.val), path, n.active + Visits(n.val), n.depth + 1, x);
    KeyChild(h, n, k);
  }

  lemma KeyChild(h: Heap, n: Node, k: string)
    requires ValidNode(h, n) && IsMap(n.val) && k in Entries(h, n.val)
    ensures Child(h, n, Key(k)) == Some(Node(Entries(h, n.val)[k], n.active + Visits(n.val), n.depth + 1))
  {
  }

  lemma EntryAtFault(h: Heap, entries: map<string, Val>, path: Path, active: set<Visit>, depth: nat, x: Issue)
    returns (k: string)
    requires Closed(h) && forall k :: k in entries ==> ValidVal(h, entries[k])
    requires x in EntryFaults(h, entries, Order.SortedKeys(entries.Keys), path, active, depth)
    ensures k in entries && x in Faults(h, entries[k], path + [Key(k)], active, depth)
  {
    EntryFaultsMember(h, entries, Order.SortedKeys(entries.Keys), path, active, depth, x);
    k :| k in entries && x in Faults(h, entries[k], path + [Key(k)], active, depth);
  }

  lemma FaultAtIndex(h: Heap, n: Node, path: Path, x: Issue) returns (i: nat)
    requires ValidNode(h, n) && NodeFault(n).None? && !n.val.VIface? && !IsMap(n.val) && x in NodeFaults(h, n, path)
    ensures Child(h, n, Index(i)).Some? && x in NodeFaults(h, Child(h, n, Index(i)).value, path + [Index(i)])
  {
    ListFaults(h, n, path);
    var items, active := Elements(h, n.val), n.active + Visits(n.val);
    i := ItemAtFault(h, items, path, active, n.depth + 1, x);
  }

  lemma ItemAtFault(h: Heap, items: seq<Val>, path: Path, active: set<Visit>, depth: nat, x: Issue) returns (i: nat)
    requires Closed(h) && forall i :: 0 <= i < |items| ==> ValidVal(h, items[i])
    requires x in ItemFaults(h, items, 0, path, active, depth)
    ensures i < |items| && x in Faults(h, items[i], path + [Index(i)], active, depth)
  {
    ItemFaultsMember(h, items, 0, path, active, depth, x);
    i :| i < |items| && x in Faults(h, items[i], path + [Index(i)], active, depth);
  }

  lemma ShownStep(path: Path, s: Step, rest: Path)
    ensures path + Shown([s]) + Shown(rest) == path + Shown([s] + rest)
  {
    assert ([s] + rest)[1..] == rest;
  }

  /** Every faulty value the cloner reaches is reported, under its path. */
  lemma {:induction false} FaultReported(h: Heap, n: Node, path: Path, p: Path)
    requires ValidNode(h, n) && Visited(h, n, p).Some? && NodeFault(Visited(h, n, p).value).Some?
    ensures Issue(path + Shown(p), NodeFault(Visited(h, n, p).value).value) in NodeFaults(h, n, path)
    decreases |p|
  {
    if |p| == 0 {
      assert path + Shown(p) == path;
    } else {
      var c := Child(h, n, p[0]).value;
      FaultReported(h, c, path + Shown([p[0]]), p[1..]);
      ShownStep(path, p[0], p[1..]);
      assert [p[0]] + p[1..] == p;
      FaultFromChild(h, n, path, p[0], Issue(path + Shown(p), NodeFault(Visited(h, n, p).value).value));
    }
  }

  /** Every report is a faulty value the cloner reaches. */
  lemma {:induction false} ReportIsFault(h: Heap, n: Node, path: Path, x: Issue) returns (p: Path)
    requires ValidNode(h, n) && x in NodeFaults(h, n, path)
    ensures Visited(h, n, p).Some? && NodeFault(Visited(h, n, p).value) == Some(x.reason) && x.path == path + Shown(p)
    decreases MAX_DEPTH + 1 - n.depth
  {
    if NodeFault(n).Some? {
      p := [];
      assert path + Shown(p) == path;
    } else {
      var s := FaultInChild(h, n, path, x);
      var rest := ReportIsFault(h, Child(h, n, s).value, path + Shown([s]), x);
      p := [s] + rest;
      ShownStep(path, s, rest);
      assert p[1..] == rest;
    }
  }

  /** If any path of the graph leads to a faulty value, the cloner meets a faulty value. */
  lemma {:induction false} FirstFault(h: Heap, n: Node, p: Path) returns (q: Path)
    requires ValidNode(h, n) && Walk(h, n, p).Some? && NodeFault(Walk(h, n, p).value).Some?
    ensures Visited(h, n, q).Some? && NodeFault(Visited(h, n, q).value).Some?
    decreases |p|
  {
    if NodeFault(n).Some? {
      q := [];
    } else {
      var rest := FirstFault(h, Child(h, n, p[0]).value, p[1..]);
      q := [p[0]] + rest;
      assert q[1..] == rest;
    }
  }

  lemma {:induction false} VisitedIsWalked(h: Heap, n: Node, p: Path)
    requires ValidNode(h, n) && Visited(h, n, p).Some?
    ensures Walk(h, n, p) == Visited(h, n, p)
    decreases |p|
  {
    if |p| > 0 {
      VisitedIsWalked(h, Child(h, n, p[0]).value, p[1..]);
    }
  }

  /** Nothing is reported exactly when every path of the graph, of any length, stays within the depth
      bound, meets no container it is already inside, and leads to a supported value. */
  lemma CleanIffAllPathsGood(h: Heap, n: Node, path: Path)
    requires ValidNode(h, n)
    ensures NodeFaults(h, n, path) == [] <==> forall p :: Walk(h, n, p).Some? ==> NodeFault(Walk(h, n, p).value).None?
  {
    if NodeFaults(h, n, path) == [] {
      forall p | Walk(h, n, p).Some? ensures NodeFault(Walk(h, n, p).value).None? {
        if NodeFault(Walk(h, n, p).value).Some? {
          var q := FirstFault(h, n, p);
          FaultReported(h, n, path, q);
        }
      }
    } else {
      var p := ReportIsFault(h, n, path, NodeFaults(h, n, path)[0]);
      VisitedIsWalked(h, n, p);
    }
  }

  // ---------------------------------------------------------------- the result

  /** t is v written out as a finite tree. */
  ghost predicate Unfolds(h: Heap, v: Val, t: Tree)
    decreases t
  {
    match t
    case Nil => v == VNil
    case Iface(u) => v.VIface? && Unfolds(h, v.elem, u)
    case ScalarT(tid, s) => v == VScalar(tid, s)
    case NilMap(tid) => v == VMap(tid, None)
    case MapT(tid, es) =>
      && ValidVal(h, v) && IsMap(v) && v.tid == tid && Entries(h, v).Keys == es.Keys
      && forall k :: k in es ==> Unfolds(h, Entries(h, v)[k], es[k])
    case NilSlice(tid) => v.VSlice? && v.tid == tid && v.ptr == None
    case ListT(tid, isArray, ts) =>
      && ValidVal(h, v) && IsList(v) && v.tid == tid && v.VArray? == isArray && |Elements(h, v)| == |ts|
      && forall i :: 0 <= i < |ts| ==> Unfolds(h, Elements(h, v)[i], ts[i])
    case NonStringMap(tid, isNil) => v == VNonStringMap(tid, isNil)
    case Opaque(tid) => v == VOpaque(tid)
  }

  lemma {:induction false} UnfoldsUnique(h: Heap, v: Val, t: Tree, u: Tree)
    requires Unfolds(h, v, t) && Unfolds(h, v, u)
    ensures t == u
    decreases t
  {
    match t
    case Iface(e) => UnfoldsUnique(h, v.elem, e, u.elem);
    case MapT(_, es) =>
      forall k | k in es ensures es[k] == u.entries[k] {
        UnfoldsUnique(h, Entries(h, v)[k], es[k], u.entries[k]);
      }
      assert es == u.entries;
    case ListT(_, _, ts) =>
      forall i | 0 <= i < |ts| ensures ts[i] == u.items[i] {
        UnfoldsUnique(h, Elements(h, v)[i], ts[i], u.items[i]);
      }
      assert ts == u.items;
    case _ =>
  }

  ghost function Kept(h: Heap, n: Node): Option<Tree>
    requires ValidNode(h, n)
  {
    Cloned(h, n.val, n.active, n.depth)
  }

  function Part(t: Tree, s: Step): Option<Tree> {
    match s
    case Unbox => if t.Iface? then Some(t.elem) else None
    case Key(k) => if t.MapT? && k in t.entries then Some(t.entries[k]) else None
    case Index(i) => if t.ListT? && i < |t.items| then Some(t.items[i]) else None
  }

  lemma KeptPart(h: Heap, n: Node, s: Step)
    requires ValidNode(h, n) && NodeFault(n).None? && Child(h, n, s).Some?
    requires Kept(h, Child(h, n, s).value).Some?
    ensures Kept(h, n).Some? && Part(Kept(h, n).value, s) == Kept(h, Child(h, n, s).value)
  {
    PartsValid(h, n.val);
  }

  lemma CleanChild(h: Heap, n: Node, path: Path, s: Step)
    requires ValidNode(h, n) && NodeFaults(h, n, path) == [] && Child(h, n, s).Some?
    ensures NodeFault(n).None? && NodeFaults(h, Child(h, n, s).value, path + Shown([s])) == []
  {
    var below := NodeFaults(h, Child(h, n, s).value, path + Shown([s]));
    if below != [] {
      FaultFromChild(h, n, path, s, below[0]);
    }
  }

  lemma UnfoldsByParts(h: Heap, n: Node)
    requires ValidNode(h, n) && NodeFault(n).None? && Kept(h, n).Some?
    requires forall s :: Child(h, n, s).Some? ==>
      var u := Part(Kept(h, n).value, s); u.Some? && Unfolds(h, Child(h, n, s).value.val, u.value)
    ensures Unfolds(h, n.val, Kept(h, n).value)
  {
    PartsValid(h, n.val);
    var t := Kept(h, n).value;
    if n.val.VIface? {
      assert Child(h, n, Unbox).Some?;
    } else if IsMap(n.val) {
      forall k | k in Entries(h, n.val) ensures k in t.entries && Unfolds(h, Entries(h, n.val)[k], t.entries[k]) {
        assert Child(h, n, Key(k)).Some?;
      }
    } else if IsList(n.val) {
      forall i: nat | i < |t.items| ensures Unfolds(h, Elements(h, n.val)[i], t.items[i]) {
        assert Child(h, n, Index(i)).Some?;
      }
    }
  }

  /** A clean value is cloned to its exact unfolding. */
  lemma {:induction false} CleanUnfolds(h: Heap, n: Node, path: Path)
    requires ValidNode(h, n) && NodeFaults(h, n, path) == []
    ensures Kept(h, n).Some? && Unfolds(h, n.val, Kept(h, n).value)
    decreases MAX_DEPTH + 1 - n.depth
  {
    assert NodeFault(n).None?;
    forall s | Child(h, n, s).Some?
      ensures Kept(h, n).Some?
      ensures var u := Part(Kept(h, n).value, s); u.Some? && Unfolds(h, Child(h, n, s).value.val, u.value)
    {
      CleanChild(h, n, path, s);
      CleanUnfolds(h, Child(h, n, s).value, path + Shown([s]));
      KeptPart(h, n, s);
    }
    if n.val.VIface? {
      assert Child(h, n, Unbox).Some?;
    }
    UnfoldsByParts(h, n);
  }

  // ---------------------------------------------------------------- what a faulty graph becomes

  /** The part of a tree at a path. */
  function At(t: Tree, path: Path): Option<Tree> {
    if |path| == 0 then Some(t)
    else
      match Part(t, path[0])
      case None => None
      case Some(u) => At(u, path[1..])
  }

  /** Whatever is wrong elsewhere, a kept value is found in the result under its own path, as its own
      clone: valid siblings are retained. */
  lemma {:induction false} KeptInPlace(h: Heap, n: Node, p: Path)
    requires ValidNode(h, n) && Visited(h, n, p).Some? && Kept(h, Visited(h, n, p).value).Some?
    ensures Kept(h, n).Some? && At(Kept(h, n).value, p) == Kept(h, Visited(h, n, p).value)
    decreases |p|
  {
    if |p| > 0 {
      KeptInPlace(h, Child(h, n, p[0]).value, p[1..]);
      KeptPart(h, n, p[0]);
    }
  }

  /** A dropped map entry is absent from its map; a dropped item leaves its element type's zero. */
  lemma DroppedParts(h: Heap, n: Node, s: Step)
    requires ValidNode(h, n) && Kept(h, n).Some? && Child(h, n, s).Some? && Kept(h, Child(h, n, s).value).None?
    ensures s.Key? || s.Index?
    ensures s.Key? ==> Part(Kept(h, n).value, s).None?
    ensures s.Index? ==> Part(Kept(h, n).value, s) == Some(FlatTree(ElementZero(h, n.val)))
  {
    PartsValid(h, n.val);
  }
}
