/** When a graph is finite, and when the cloner of core/deterministic_context.go agrees. */
module FiniteGraphs {
  import opened Values
  import opened Frames
  import opened ObjectGraph
  import opened DC = DeterministicContext

  /** Some path meets a container it is inside, by type and start address. */
  ghost predicate Reenters(h: Heap, v: Val)
    requires Closed(h) && ValidVal(h, v)
  {
    exists p :: Walk(h, Node(v, {}, 0), p).Some? && Met(Walk(h, Node(v, {}, 0), p).value)
  }

  predicate Met(n: Node) {
    Visits(n.val) != {} && Visits(n.val) <= n.active
  }

  /** v has an unfolding the cloner accepts at this depth. */
  ghost predicate Finite(h: Heap, v: Val, depth: nat) {
    exists t :: Unfolds(h, v, t) && Clonable(t, depth)
  }

  lemma PartUnfolds(h: Heap, n: Node, t: Tree, s: Step)
    requires ValidNode(h, n) && Unfolds(h, n.val, t) && Clonable(t, n.depth) && Child(h, n, s).Some?
    ensures Part(t, s).Some? && Part(t, s).value < t
    ensures Unfolds(h, Child(h, n, s).value.val, Part(t, s).value) && Clonable(Part(t, s).value, n.depth + 1)
  {
  }

  lemma {:induction false} WalkedFinite(h: Heap, n: Node, t: Tree, p: Path)
    requires ValidNode(h, n) && Unfolds(h, n.val, t) && Clonable(t, n.depth) && Walk(h, n, p).Some?
    ensures Finite(h, Walk(h, n, p).value.val, Walk(h, n, p).value.depth)
    decreases |p|
  {
    if |p| > 0 {
      PartUnfolds(h, n, t, p[0]);
      WalkedFinite(h, Child(h, n, p[0]).value, Part(t, p[0]).value, p[1..]);
    }
  }

  lemma FiniteFault(h: Heap, n: Node)
    requires ValidNode(h, n) && Finite(h, n.val, n.depth)
    ensures NodeFault(n).Some? <==> Met(n)
  {
    var t :| Unfolds(h, n.val, t) && Clonable(t, n.depth);
  }

  /** The cloner reports nothing exactly on values with a finite unfolding of supported data within its
      depth, no path of which re-enters a container. */
  lemma CleanIffFinite(h: Heap, v: Val)
    requires Closed(h) && ValidVal(h, v)
    ensures Faults(h, v, [], {}, 0) == [] <==> Finite(h, v, 0) && !Reenters(h, v)
  {
    var n := Node(v, {}, 0);
    CleanIffAllPathsGood(h, n, []);
    if NodeFaults(h, n, []) == [] {
      CleanUnfolds(h, n, []);
      CleanIsClonable(h, n, []);
      forall p | Walk(h, n, p).Some? ensures !Met(Walk(h, n, p).value) {
        assert NodeFault(Walk(h, n, p).value).None?;
      }
    } else if Finite(h, v, 0) {
      var t :| Unfolds(h, v, t) && Clonable(t, 0);
      var p :| Walk(h, n, p).Some? && NodeFault(Walk(h, n, p).value).Some?;
      WalkedFinite(h, n, t, p);
      FiniteFault(h, Walk(h, n, p).value);
    }
  }

  /** Every slice reaches to the end of its memory. */
  predicate Whole(h: Heap, v: Val) {
    match v
    case VIface(elem) => Whole(h, elem)
    case VSlice(_, Some(a), len) => a in h && h[a].SliceCell? && len == |h[a].items|
    case VArray(_, items, _) => forall i :: 0 <= i < |items| ==> Whole(h, items[i])
    case _ => true
  }

  ghost predicate WholeHeap(h: Heap) {
    forall a :: a in h ==>
      match h[a]
      case MapCell(entries) => forall k :: k in entries ==> Whole(h, entries[k])
      case SliceCell(items, _) => forall i :: 0 <= i < |items| ==> Whole(h, items[i])
  }

  /** t lies strictly inside whatever the path has entered. */
  ghost predicate Inside(h: Heap, active: set<Visit>, t: Tree) {
    forall V, T {:trigger Unfolds(h, V, T)} ::
      Whole(h, V) && Visits(V) != {} && Visits(V) <= active && Unfolds(h, V, T) ==> t < T
  }

  lemma PartInside(h: Heap, n: Node, t: Tree, s: Step)
    requires ValidNode(h, n) && WholeHeap(h) && Whole(h, n.val) && Unfolds(h, n.val, t) && Clonable(t, n.depth)
    requires Inside(h, n.active, t) && Child(h, n, s).Some?
    ensures Whole(h, Child(h, n, s).value.val)
    ensures Part(t, s).Some? && Inside(h, Child(h, n, s).value.active, Part(t, s).value)
  {
    PartUnfolds(h, n, t, s);
    var active, u := Child(h, n, s).value.active, Part(t, s).value;
    forall V, T | Whole(h, V) && Visits(V) != {} && Visits(V) <= active && Unfolds(h, V, T) ensures u < T {
      if !(Visits(V) <= n.active) {
        SameVisitSame(h, V, n.val);
        UnfoldsUnique(h, V, T, t);
      }
    }
  }

  lemma SameVisitSame(h: Heap, v: Val, w: Val)
    requires Whole(h, v) && Whole(h, w) && Visits(v) == Visits(w) != {}
    ensures v == w
  {
    var x :| x in Visits(v);
  }

  lemma {:induction false} WholeNeverMet(h: Heap, n: Node, t: Tree, p: Path)
    requires ValidNode(h, n) && WholeHeap(h) && Whole(h, n.val) && Unfolds(h, n.val, t) && Clonable(t, n.depth)
    requires Inside(h, n.active, t) && Walk(h, n, p).Some?
    ensures !Met(Walk(h, n, p).value)
    decreases |p|
  {
    if |p| > 0 {
      PartUnfolds(h, n, t, p[0]);
      PartInside(h, n, t, p[0]);
      WholeNeverMet(h, Child(h, n, p[0]).value, Part(t, p[0]).value, p[1..]);
    }
  }

  /** Without partial slices, having such an unfolding is all it takes. */
  lemma WholeCleanIffFinite(h: Heap, v: Val)
    requires Closed(h) && ValidVal(h, v) && WholeHeap(h) && Whole(h, v)
    ensures Faults(h, v, [], {}, 0) == [] <==> Finite(h, v, 0)
  {
    CleanIffFinite(h, v);
    if Finite(h, v, 0) {
      var t :| Unfolds(h, v, t) && Clonable(t, 0);
      forall p | Walk(h, Node(v, {}, 0), p).Some? ensures !Met(Walk(h, Node(v, {}, 0), p).value) {
        WholeNeverMet(h, Node(v, {}, 0), t, p);
      }
    }
  }

  /** A slice whose one item is its own empty prefix. */
  function OwnPrefix(): Val {
    VSlice(SLICE_TYPE, Some(0), 1)
  }

  function PrefixHeap(): (h: Heap)
    ensures Closed(h) && ValidVal(h, OwnPrefix())
  {
    var h: Heap := map[0 := SliceCell([VIface(VSlice(SLICE_TYPE, Some(0), 0))], VNil)];
    assert ValidCell(h, h[0]);
    h
  }

  lemma OwnPrefixFinite()
    ensures Finite(PrefixHeap(), OwnPrefix(), 0)
  {
    var h, prefix, empty := PrefixHeap(), VSlice(SLICE_TYPE, Some(0), 0), ListT(SLICE_TYPE, false, []);
    var t := ListT(SLICE_TYPE, false, [Iface(empty)]);
    assert Unfolds(h, prefix, empty) && Unfolds(h, VIface(prefix), Iface(empty));
    assert Unfolds(h, OwnPrefix(), t) && Clonable(t, 0);
  }

  lemma OwnPrefixReenters()
    ensures Reenters(PrefixHeap(), OwnPrefix())
  {
    var h, v, prefix := PrefixHeap(), OwnPrefix(), VSlice(SLICE_TYPE, Some(0), 0);
    var n, inner := Node(v, {}, 0), Node(VIface(prefix), Visits(v), 1);
    assert Elements(h, v) == [VIface(prefix)] && {} + Visits(v) == Visits(v);
    assert Child(h, n, Index(0)) == Some(inner) && Child(h, inner, Unbox) == Some(Node(prefix, Visits(v), 2));
    var p := [Index(0), Unbox];
    assert p[1..] == [Unbox] && p[1..][1..] == [];
    assert Walk(h, inner, [Unbox]) == Some(Node(prefix, Visits(v), 2));
    assert Walk(h, n, p) == Some(Node(prefix, Visits(v), 2));
  }

  /** With one it is not: a slice that holds its own empty prefix is finite and is reported as a cycle. */
  lemma OwnPrefixReported()
    ensures Finite(PrefixHeap(), OwnPrefix(), 0) && Faults(PrefixHeap(), OwnPrefix(), [], {}, 0) != []
  {
    OwnPrefixFinite();
    OwnPrefixReenters();
    CleanIffFinite(PrefixHeap(), OwnPrefix());
  }
}
