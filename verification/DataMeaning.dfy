/** What the walkers accept, report and keep, read off the paths of a value: no predicate of the walkers
    is named in what is accepted. */
module DataMeaning {
  import opened Values
  import opened Frames
  import opened ScalarMeaning
  import opened ObjectGraph
  import opened PrimitiveContracts
  import opened ResultNormalizer
  import DC = DeterministicContext
  import PE = ProofEncoding

  // ---------------------------------------------------------------- object graphs

  /** The value one step further. */
  function Below(h: Heap, v: Val, s: Step): Option<Val> {
    match s
    case Unbox => if v.VIface? then Some(v.elem) else None
    case Key(k) =>
      if v.VMap? && v.ptr.Some? && v.ptr.value in h && h[v.ptr.value].MapCell? && k in h[v.ptr.value].entries then
        Some(h[v.ptr.value].entries[k])
      else None
    case Index(i) =>
      if v.VArray? then if i < |v.items| then Some(v.items[i]) else None
      else if v.VSlice? && v.ptr.Some? && v.ptr.value in h && h[v.ptr.value].SliceCell?
        && i < v.len <= |h[v.ptr.value].items| then
        Some(h[v.ptr.value].items[i])
      else None
  }

  function Follow(h: Heap, v: Val, p: Path): Option<Val>
    decreases |p|
  {
    if |p| == 0 then Some(v)
    else
      match Below(h, v, p[0])
      case None => None
      case Some(w) => Follow(h, w, p[1..])
  }

  /** The same map, or slices of one type that start at one address. */
  predicate SameContainer(a: Val, b: Val) {
    || (a.VMap? && b.VMap? && a.tid == b.tid && a.ptr.Some? && a.ptr == b.ptr)
    || (a.VSlice? && b.VSlice? && a.tid == b.tid && a.ptr.Some? && a.ptr == b.ptr)
  }

  /** The container that p leads to has been entered on the way. */
  ghost predicate Reentered(h: Heap, v: Val, p: Path)
    requires Follow(h, v, p).Some?
  {
    exists k :: 0 <= k < |p| && Entered(h, v, p[..k], Follow(h, v, p).value)
  }

  predicate Entered(h: Heap, v: Val, p: Path, w: Val) {
    Follow(h, v, p).Some? && SameContainer(Follow(h, v, p).value, w)
  }

  /** Why the place a path leads to is refused. */
  ghost predicate Refused(h: Heap, v: Val, p: Path, reason: Reason)
    requires Follow(h, v, p).Some?
  {
    var w := Follow(h, v, p).value;
    match reason
    case TooDeep => |p| > 256
    case BadNumber =>
      |p| <= 256 && w.VScalar? && w.scalar.StrS? && w.tid == "encoding/json.Number"
      && w.scalar.s != "" && !JsonNumber(w.scalar.s)
    case NonFinite => |p| <= 256 && w.VScalar? && w.scalar.FloatS? && w.scalar.token in {"NaN", "+Inf", "-Inf"}
    case BadKeys => |p| <= 256 && w.VNonStringMap?
    case Unsupported => |p| <= 256 && w.VOpaque?
    case Cycle => |p| <= 256 && Reentered(h, v, p)
  }

  lemma BelowChild(h: Heap, n: Node, s: Step)
    requires ValidNode(h, n)
    ensures Child(h, n, s).Some? <==> Below(h, n.val, s).Some?
    ensures Child(h, n, s).Some? ==>
      Child(h, n, s).value == Node(Below(h, n.val, s).value, n.active + Visits(n.val), n.depth + 1)
    ensures Child(h, n, s).Some? ==> ValidNode(h, Child(h, n, s).value)
  {
    if n.val.VIface? {
      assert n.active + Visits(n.val) == n.active;
    }
  }

  lemma VisitsContainer(a: Val, b: Val)
    ensures (Visits(b) <= Visits(a) && Visits(b) != {}) <==> SameContainer(a, b)
    ensures Visits(b) == {} || exists x :: Visits(b) == {x}
  {
  }

  ghost predicate VisitedOn(h: Heap, v: Val, p: Path, x: Visit) {
    exists k :: 0 <= k < |p| && Passed(h, v, p[..k], x)
  }

  predicate Passed(h: Heap, v: Val, p: Path, x: Visit) {
    Follow(h, v, p).Some? && x in Visits(Follow(h, v, p).value)
  }

  lemma {:induction false} WalkFollows(h: Heap, n: Node, p: Path)
    requires ValidNode(h, n)
    ensures Walk(h, n, p).Some? <==> Follow(h, n.val, p).Some?
    ensures Walk(h, n, p).Some? ==>
      && Walk(h, n, p).value.val == Follow(h, n.val, p).value && Walk(h, n, p).value.depth == n.depth + |p|
      && forall x :: x in Walk(h, n, p).value.active <==> x in n.active || VisitedOn(h, n.val, p, x)
    decreases |p|
  {
    if |p| > 0 {
      BelowChild(h, n, p[0]);
      if Child(h, n, p[0]).Some? {
        var c := Child(h, n, p[0]).value;
        WalkFollows(h, c, p[1..]);
        forall x ensures VisitedOn(h, n.val, p, x) <==> x in Visits(n.val) || VisitedOn(h, c.val, p[1..], x) {
          VisitedFrom(h, n.val, p, x);
        }
      }
    }
  }

  lemma FollowPrefix(h: Heap, v: Val, p: Path, k: nat)
    requires 0 < k < |p| && Below(h, v, p[0]).Some?
    ensures Follow(h, v, p[..k]) == Follow(h, Below(h, v, p[0]).value, p[1..][..k - 1])
  {
    assert p[..k][1..] == p[1..][..k - 1];
  }

  lemma VisitedFrom(h: Heap, v: Val, p: Path, x: Visit)
    requires |p| > 0 && Below(h, v, p[0]).Some?
    ensures VisitedOn(h, v, p, x) <==> x in Visits(v) || VisitedOn(h, Below(h, v, p[0]).value, p[1..], x)
  {
    var w := Below(h, v, p[0]).value;
    assert Passed(h, v, p[..0], x) <==> x in Visits(v);
    forall k | 0 < k < |p| ensures Passed(h, v, p[..k], x) <==> Passed(h, w, p[1..][..k - 1], x) {
      FollowPrefix(h, v, p, k);
    }
    if k :| 0 <= k < |p| - 1 && Passed(h, w, p[1..][..k], x) {
      assert Passed(h, v, p[..k + 1], x);
    }
  }

  lemma ReenteredExact(h: Heap, v: Val, p: Path, active: set<Visit>)
    requires Follow(h, v, p).Some? && forall x :: x in active <==> VisitedOn(h, v, p, x)
    ensures var w := Follow(h, v, p).value; Visits(w) <= active && Visits(w) != {} <==> Reentered(h, v, p)
  {
    var w := Follow(h, v, p).value;
    if x :| x in Visits(w) {
      assert Visits(w) == {x};
      forall k | 0 <= k < |p| ensures Passed(h, v, p[..k], x) <==> Entered(h, v, p[..k], w) {
        if Follow(h, v, p[..k]).Some? {
          VisitsContainer(Follow(h, v, p[..k]).value, w);
        }
      }
    } else {
      forall k | 0 <= k < |p| ensures !Entered(h, v, p[..k], w) {
        if Follow(h, v, p[..k]).Some? {
          VisitsContainer(Follow(h, v, p[..k]).value, w);
        }
      }
    }
  }

  /** The fault found at a place is the reason it is refused for. */
  lemma FaultMeans(h: Heap, v: Val, p: Path, reason: Reason)
    requires Closed(h) && ValidVal(h, v) && Follow(h, v, p).Some?
    ensures Walk(h, Node(v, {}, 0), p).Some?
    ensures NodeFault(Walk(h, Node(v, {}, 0), p).value) == Some(reason) <==> Refused(h, v, p, reason)
  {
    var n := Node(v, {}, 0);
    WalkFollows(h, n, p);
    var m := Walk(h, n, p).value;
    ReenteredExact(h, v, p, m.active);
    if m.val.VScalar? {
      GoodScalarExact(m.val.tid, m.val.scalar);
    }
  }

  /** What the cloner reports at the end of a path it follows that far. */
  lemma RefusedReported(h: Heap, v: Val, path: Path, p: Path, reason: Reason)
    requires Closed(h) && ValidVal(h, v) && Follow(h, v, p).Some? && Refused(h, v, p, reason)
    ensures Faults(h, v, path, {}, 0) != []
  {
    FaultMeans(h, v, p, reason);
    var q := FirstFault(h, Node(v, {}, 0), p);
    FaultReported(h, Node(v, {}, 0), path, q);
  }

  /** Every report names a place of the graph and the reason it is refused for. */
  lemma ReportMeans(h: Heap, v: Val, path: Path, x: Issue) returns (p: Path)
    requires Closed(h) && ValidVal(h, v) && x in Faults(h, v, path, {}, 0)
    ensures Follow(h, v, p).Some? && Refused(h, v, p, x.reason) && x.path == path + Shown(p)
  {
    var n := Node(v, {}, 0);
    p := ReportIsFault(h, n, path, x);
    VisitedIsWalked(h, n, p);
    WalkFollows(h, n, p);
    FaultMeans(h, v, p, x.reason);
  }

  /** The cloner reports nothing exactly when no place of the graph is refused. */
  lemma CleanExactly(h: Heap, v: Val, path: Path)
    requires Closed(h) && ValidVal(h, v)
    ensures Faults(h, v, path, {}, 0) == [] <==>
      forall p, reason :: Follow(h, v, p).Some? ==> !Refused(h, v, p, reason)
  {
    if Faults(h, v, path, {}, 0) == [] {
      forall p, reason | Follow(h, v, p).Some? ensures !Refused(h, v, p, reason) {
        if Refused(h, v, p, reason) { RefusedReported(h, v, path, p, reason); }
      }
    } else {
      var p := ReportMeans(h, v, path, Faults(h, v, path, {}, 0)[0]);
    }
  }

  /** The first refused place on a path is reported under that path. */
  lemma FirstRefusedReported(h: Heap, v: Val, path: Path, p: Path, reason: Reason)
    requires Closed(h) && ValidVal(h, v) && Follow(h, v, p).Some? && Refused(h, v, p, reason)
    requires forall k, r :: 0 <= k < |p| && Follow(h, v, p[..k]).Some? ==> !Refused(h, v, p[..k], r)
    ensures Issue(path + Shown(p), reason) in Faults(h, v, path, {}, 0)
  {
    var n := Node(v, {}, 0);
    FaultMeans(h, v, p, reason);
    forall k | 0 <= k < |p| ensures Walk(h, n, p[..k]).Some? && NodeFault(Walk(h, n, p[..k]).value).None? {
      FollowsFront(h, v, p, k);
      WalkFollows(h, n, p[..k]);
      if NodeFault(Walk(h, n, p[..k]).value).Some? {
        FaultMeans(h, v, p[..k], NodeFault(Walk(h, n, p[..k]).value).value);
      }
    }
    VisitedThrough(h, n, p);
    FaultReported(h, n, path, p);
  }

  lemma {:induction false} FollowsFront(h: Heap, v: Val, p: Path, k: nat)
    requires Follow(h, v, p).Some? && k <= |p|
    ensures Follow(h, v, p[..k]).Some?
    decreases k
  {
    if k > 0 {
      FollowsFront(h, Below(h, v, p[0]).value, p[1..], k - 1);
      assert p[..k][1..] == p[1..][..k - 1];
    }
  }

  lemma {:induction false} VisitedThrough(h: Heap, n: Node, p: Path)
    requires ValidNode(h, n) && Walk(h, n, p).Some?
    requires forall k :: 0 <= k < |p| ==> Walk(h, n, p[..k]).Some? && NodeFault(Walk(h, n, p[..k]).value).None?
    ensures Visited(h, n, p) == Walk(h, n, p)
    decreases |p|
  {
    if |p| > 0 {
      assert Walk(h, n, p[..0]) == Some(n);
      var c := Child(h, n, p[0]).value;
      forall k | 0 <= k < |p| - 1 ensures Walk(h, c, p[1..][..k]) == Walk(h, n, p[..k + 1]) {
        assert p[..k + 1][1..] == p[1..][..k];
      }
      VisitedThrough(h, c, p[1..]);
    }
  }

  // ---------------------------------------------------------------- trees

  /** What may stand in a context or a proof, parts apart. */
  ghost predicate Fine(t: Tree) {
    (t.ScalarT? ==> SoundScalar(t.tid, t.scalar)) && !t.NonStringMap? && !t.Opaque?
  }

  /** What a primitive may return, parts apart. */
  ghost predicate FineResult(t: Tree) {
    && (t.ScalarT? ==> SoundScalar(t.tid, t.scalar) && !(t.scalar.UintS? && t.scalar.uintptr))
    && (t.NonStringMap? ==> t.isNil) && !t.Opaque?
  }

  /** Every place at most `limit` steps down, and fine. */
  ghost predicate FineWithin(t: Tree, limit: int, returned: bool) {
    forall p :: At(t, p).Some? ==> |p| <= limit && FineFor(At(t, p).value, returned)
  }

  ghost predicate FineFor(t: Tree, returned: bool) {
    if returned then FineResult(t) else Fine(t)
  }

  lemma FineParts(t: Tree, limit: int, returned: bool)
    ensures FineWithin(t, limit, returned) <==>
      && 0 <= limit && FineFor(t, returned)
      && forall s :: Part(t, s).Some? ==> FineWithin(Part(t, s).value, limit - 1, returned)
  {
    assert At(t, []) == Some(t);
    if FineWithin(t, limit, returned) {
      forall s, q | Part(t, s).Some? && At(Part(t, s).value, q).Some?
        ensures |q| <= limit - 1
        ensures FineFor(At(Part(t, s).value, q).value, returned)
      {
        assert ([s] + q)[1..] == q;
        assert At(t, [s] + q) == At(Part(t, s).value, q);
      }
    } else {
      var p :| At(t, p).Some? && !(|p| <= limit && FineFor(At(t, p).value, returned));
      if |p| > 0 {
        assert At(t, p) == At(Part(t, p[0]).value, p[1..]);
      }
    }
  }

  lemma TreeParts(t: Tree)
    ensures t.Iface? ==> Part(t, Unbox) == Some(t.elem)
    ensures t.MapT? ==> forall k :: k in t.entries ==> Part(t, Key(k)) == Some(t.entries[k])
    ensures t.ListT? ==> forall i: nat :: i < |t.items| ==> Part(t, Index(i)) == Some(t.items[i])
    ensures forall s :: Part(t, s).Some? ==> (t.Iface? || t.MapT? || t.ListT?) && Part(t, s).value < t
  {
  }

  /** One level of normalisation. */
  lemma NormByParts(t: Tree, depth: nat)
    ensures Norm(t, depth).Some? <==>
      && depth <= 64 && FineResult(t)
      && forall s :: Part(t, s).Some? ==> Norm(Part(t, s).value, depth + 1).Some?
  {
    TreeParts(t);
    if t.ScalarT? { GoodScalarExact(t.tid, t.scalar); }
  }

  lemma {:induction false} NormWithin(t: Tree, depth: nat, limit: int)
    requires depth + limit == 64
    ensures Norm(t, depth).Some? <==> FineWithin(t, limit, true)
    decreases t
  {
    TreeParts(t);
    forall s | Part(t, s).Some?
      ensures Norm(Part(t, s).value, depth + 1).Some? <==> FineWithin(Part(t, s).value, limit - 1, true)
    {
      NormWithin(Part(t, s).value, depth + 1, limit - 1);
    }
    NormByParts(t, depth);
    FineParts(t, limit, true);
  }

  /** Normalisation succeeds exactly when every place is at most 64 steps down, and fine. */
  lemma NormExact(t: Tree)
    ensures Norm(t, 0).Some? <==> FineWithin(t, 64, true)
  {
    NormWithin(t, 0, 64);
  }

  lemma EncodableByParts(t: Tree, limit: int)
    ensures Encodable(t) && Fits(t, limit) <==>
      && limit >= 0 && Fine(t)
      && forall s :: Part(t, s).Some? ==> Encodable(Part(t, s).value) && Fits(Part(t, s).value, limit - 1)
  {
    TreeParts(t);
    if t.ScalarT? { GoodScalarExact(t.tid, t.scalar); }
  }

  lemma {:induction false} EncodableExact(t: Tree, limit: int)
    ensures Encodable(t) && Fits(t, limit) <==> FineWithin(t, limit, false)
    decreases t
  {
    TreeParts(t);
    forall s | Part(t, s).Some?
      ensures var u := Part(t, s).value; Encodable(u) && Fits(u, limit - 1) <==> FineWithin(u, limit - 1, false)
    {
      EncodableExact(Part(t, s).value, limit - 1);
    }
    EncodableByParts(t, limit);
    FineParts(t, limit, false);
  }

  /** Every value but nil at most `levels` keys and indices down, boxes not counted. */
  ghost predicate WithinLevels(t: Tree, levels: int) {
    forall p :: At(t, p).Some? && At(t, p).value != Nil && !At(t, p).value.Iface? ==> |Shown(p)| <= levels
  }

  function Cost(s: Step): (n: nat)
    ensures n == |Shown([s])|
  {
    assert [s][1..] == [];
    if s.Unbox? then 0 else 1
  }

  lemma LevelsByParts(t: Tree, levels: int)
    ensures WithinLevels(t, levels) <==>
      && (t == Nil || t.Iface? || levels >= 0)
      && forall s :: Part(t, s).Some? ==> WithinLevels(Part(t, s).value, levels - Cost(s))
  {
    assert At(t, []) == Some(t);
    if WithinLevels(t, levels) {
      forall s, q | Part(t, s).Some? && At(Part(t, s).value, q).Some? && At(Part(t, s).value, q).value != Nil
        && !At(Part(t, s).value, q).value.Iface?
        ensures |Shown(q)| <= levels - Cost(s)
      {
        assert ([s] + q)[1..] == q;
        assert At(t, [s] + q) == At(Part(t, s).value, q);
        ShownStep([], s, q);
      }
    } else {
      var p :| At(t, p).Some? && At(t, p).value != Nil && !At(t, p).value.Iface? && |Shown(p)| > levels;
      if |p| > 0 {
        assert At(t, p) == At(Part(t, p[0]).value, p[1..]);
        ShownStep([], p[0], p[1..]);
        assert [p[0]] + p[1..] == p;
      }
    }
  }

  /** Nesting counts the containers on the way to a value. */
  lemma {:induction false} NestedExact(t: Tree, levels: int)
    ensures Nested(t, levels) <==> WithinLevels(t, levels)
    decreases t
  {
    TreeParts(t);
    forall s | Part(t, s).Some?
      ensures Nested(Part(t, s).value, levels - Cost(s)) <==> WithinLevels(Part(t, s).value, levels - Cost(s))
    {
      NestedExact(Part(t, s).value, levels - Cost(s));
    }
    LevelsByParts(t, levels);
    NestedByParts(t, levels);
  }

  lemma NestedByParts(t: Tree, levels: int)
    ensures Nested(t, levels) <==>
      && (t == Nil || t.Iface? || levels >= 0)
      && forall s :: Part(t, s).Some? ==> Nested(Part(t, s).value, levels - Cost(s))
  {
    TreeParts(t);
  }

  /** A context can hold exactly the trees all of whose places are fine and at most 256 steps down. */
  lemma ClonableExact(t: Tree)
    ensures DC.Clonable(t, 0) <==> FineWithin(t, 256, false)
  {
    ClonableIffFits(t, 0);
    EncodableExact(t, 256);
  }

  /** The proof encoder takes exactly the containers all of whose places are fine and at most 65 steps down. */
  lemma RootExact(t: Tree)
    ensures PE.RootObject(t).Some? <==> (t.MapT? || t.NilMap?) && FineWithin(t, 65, false)
    ensures PE.RootArray(t).Some? <==> (t.ListT? || t.NilSlice?) && FineWithin(t, 65, false)
  {
    EncodableExact(t, 65);
    if (t.MapT? || t.ListT?) && Encodable(t) {
      PE.RootFits(t);
    }
  }

  // ---------------------------------------------------------------- what is kept

  function Bare(t: Tree): (r: Tree)
    ensures !r.Iface?
  {
    if t.Iface? then Bare(t.elem) else t
  }

  /** The value at a path of keys and indices, whatever the boxes. */
  function Look(t: Tree, p: Path): Option<Tree>
    decreases |p|
  {
    if |p| == 0 then Some(Bare(t))
    else
      match Part(Bare(t), p[0])
      case None => None
      case Some(u) => Look(u, p[1..])
  }

  /** b is what is kept of the value a itself, its parts apart: a scalar with its type, or a plain
      container with the same keys or as many items. */
  predicate Snapshot(a: Tree, b: Tree) {
    match a
    case Nil => b == Nil
    case ScalarT(_, _) => b == a
    case NilMap(_) => b == MapT("map[string]interface {}", map[])
    case NonStringMap(_, isNil) => isNil && b == MapT("map[string]interface {}", map[])
    case MapT(_, es) => b.MapT? && b.tid == "map[string]interface {}" && b.entries.Keys == es.Keys
    case NilSlice(_) => b == ListT("[]interface {}", false, [])
    case ListT(_, _, ts) => b.ListT? && b.tid == "[]interface {}" && !b.isArray && |b.items| == |ts|
    case _ => false
  }

  lemma LookBoxed(t: Tree, p: Path)
    ensures Look(Box(t), p) == Look(t, p)
  {
  }

  /** u holds at p what is kept of what t holds there, and something there only if t does. */
  ghost predicate KeptAt(t: Tree, u: Tree, p: Path) {
    && (Look(t, p).Some? <==> Look(u, p).Some?)
    && (Look(t, p).Some? ==> Snapshot(Look(t, p).value, Look(u, p).value))
  }

  lemma KeptByParts(t: Tree, u: Tree, p: Path)
    requires !t.Iface? && Snapshot(t, u)
    requires |p| > 0 && Part(t, p[0]).Some? ==>
      Part(u, p[0]).Some? && KeptAt(Part(t, p[0]).value, Part(u, p[0]).value, p[1..])
    ensures KeptAt(t, u, p)
  {
    assert Bare(t) == t && Bare(u) == u;
    if |p| > 0 && Part(t, p[0]).None? {
      assert Part(u, p[0]).None?;
    }
  }

  /** A snapshot holds, at every path of keys and indices, what the result held there: the same scalars,
      and plain containers of the same keys and lengths; and nothing else. */
  lemma {:induction false} NormKeeps(t: Tree, depth: nat, p: Path)
    requires Norm(t, depth).Some?
    ensures KeptAt(t, Norm(t, depth).value, p)
    decreases t
  {
    var u := Norm(t, depth).value;
    if t.Iface? {
      NormKeeps(t.elem, depth + 1, p);
    } else {
      if |p| > 0 && Part(t, p[0]).Some? {
        TreeParts(t);
        NormPart(t, depth, p[0]);
        NormKeeps(Part(t, p[0]).value, depth + 1, p[1..]);
        LookBoxed(Norm(Part(t, p[0]).value, depth + 1).value, p[1..]);
      }
      NormSnapshot(t, depth);
      KeptByParts(t, u, p);
    }
  }

  lemma NormPart(t: Tree, depth: nat, s: Step)
    requires Norm(t, depth).Some? && !t.Iface? && Part(t, s).Some?
    ensures Norm(Part(t, s).value, depth + 1).Some?
    ensures Part(Norm(t, depth).value, s) == Some(Box(Norm(Part(t, s).value, depth + 1).value))
  {
  }

  lemma NormSnapshot(t: Tree, depth: nat)
    requires Norm(t, depth).Some? && !t.Iface?
    ensures Snapshot(t, Norm(t, depth).value)
  {
  }

  /** What a field holds, without its box, is finite and has r for its snapshot. */
  ghost predicate Snaps(h: Heap, field: Val, r: Tree) {
    exists t :: Unfolds(h, Open(field), t) && Norm(t, 0) == Some(r)
  }

  lemma OpenExact(v: Val)
    ensures Open(v) == if v.VIface? then v.elem else v
  {
  }

  lemma SnapsExact(h: Heap, field: Val, r: Tree)
    requires Closed(h) && ValidVal(h, Open(field))
    ensures GraphNorm(h, Open(field), 0) == Some(r) <==> Snaps(h, field, r)
  {
    var v := Open(field);
    if GraphNorm(h, v, 0) == Some(r) {
      var t := NormalisedUnfolds(h, v, 0);
      GraphNormUnfolds(h, v, t, 0);
      assert Unfolds(h, v, t) && Norm(t, 0) == Some(r);
    } else {
      forall t | Unfolds(h, v, t) ensures Norm(t, 0) != Some(r) { GraphNormUnfolds(h, v, t, 0); }
    }
  }

  lemma ResultByFields(raw: RawResult, n: Normal)
    requires ValidRaw(raw)
    ensures NormalizeResult(raw) == Some(n) ==> ReturnsFields(raw, n)
    ensures ReturnsFields(raw, n) ==> NormalizeResult(raw).Some? && NormalizeResult(raw).value == n
  {
  }

  ghost predicate ReturnsFields(raw: RawResult, n: Normal)
    requires ValidRaw(raw)
  {
    && raw.Fields? && {"valid", "metadata", "evidence"} <= raw.fields.Keys
    && raw.fields["valid"] == VIface(VScalar("bool", BoolS(n.valid)))
    && GraphNorm(raw.h, Open(raw.fields["metadata"]), 0) == Some(n.metadata) && n.metadata.MapT?
    && GraphNorm(raw.h, Open(raw.fields["evidence"]), 0) == Some(n.evidence) && n.evidence.ListT?
  }

  /** normalizeEvaluationResult, in full: three fields, a verdict of type bool, and the snapshots of what
      the other two hold, written out as trees. */
  lemma ResultExact(raw: RawResult, n: Normal)
    requires ValidRaw(raw)
    ensures NormalizeResult(raw) == Some(n) <==>
      && raw.Fields? && {"valid", "metadata", "evidence"} <= raw.fields.Keys
      && raw.fields["valid"] == VIface(VScalar("bool", BoolS(n.valid)))
      && Snaps(raw.h, raw.fields["metadata"], n.metadata) && n.metadata.MapT?
      && Snaps(raw.h, raw.fields["evidence"], n.evidence) && n.evidence.ListT?
  {
    ResultByFields(raw, n);
    if raw.Fields? && {"valid", "metadata", "evidence"} <= raw.fields.Keys {
      SnapsExact(raw.h, raw.fields["metadata"], n.metadata);
      SnapsExact(raw.h, raw.fields["evidence"], n.evidence);
    }
  }

  // ---------------------------------------------------------------- stored values

  /** What may stand in stored canonical data, parts apart. */
  predicate Storable(t: Tree) {
    match t
    case Nil => true
    case Iface(_) => true
    case ScalarT(tid, s) => (tid == "bool" && s.BoolS?) || (tid == "string" && s.StrS?)
    case NilMap(tid) => tid == "map[string]interface {}"
    case MapT(tid, _) => tid == "map[string]interface {}"
    case NilSlice(tid) => tid == "[]interface {}"
    case ListT(tid, isArray, _) => tid == "[]interface {}" && !isArray
    case _ => false
  }

  ghost predicate StorableThroughout(t: Tree) {
    forall p :: At(t, p).Some? ==> Storable(At(t, p).value)
  }

  lemma StorableParts(t: Tree)
    ensures StorableThroughout(t) <==>
      Storable(t) && forall s :: Part(t, s).Some? ==> StorableThroughout(Part(t, s).value)
  {
    assert At(t, []) == Some(t);
    if StorableThroughout(t) {
      forall s, q | Part(t, s).Some? && At(Part(t, s).value, q).Some? ensures Storable(At(Part(t, s).value, q).value) {
        assert ([s] + q)[1..] == q;
        assert At(t, [s] + q) == At(Part(t, s).value, q);
      }
    } else {
      var p :| At(t, p).Some? && !Storable(At(t, p).value);
      if |p| > 0 {
        assert At(t, p) == At(Part(t, p[0]).value, p[1..]);
      }
    }
  }

  lemma StoredByParts(t: Tree)
    ensures PE.CloneStored(t).Some? <==>
      Storable(t) && forall s :: Part(t, s).Some? ==> PE.CloneStored(Part(t, s).value).Some?
  {
    TreeParts(t);
  }

  /** Stored data is cloned exactly when it is made of booleans, strings and plain containers. */
  lemma {:induction false} StoredExact(t: Tree)
    ensures PE.CloneStored(t).Some? <==> StorableThroughout(t)
    decreases t
  {
    TreeParts(t);
    forall s | Part(t, s).Some?
      ensures PE.CloneStored(Part(t, s).value).Some? <==> StorableThroughout(Part(t, s).value)
    {
      StoredExact(Part(t, s).value);
    }
    StoredByParts(t);
    StorableParts(t);
  }

  /** The clone holds what the stored value held, at every path of keys and indices. */
  lemma {:induction false} StoredKeeps(t: Tree, p: Path)
    requires PE.CloneStored(t).Some?
    ensures KeptAt(t, PE.ToGo(PE.CloneStored(t).value), p)
    decreases t
  {
    var u := PE.ToGo(PE.CloneStored(t).value);
    if t.Iface? {
      StoredKeeps(t.elem, p);
    } else {
      if |p| > 0 && Part(t, p[0]).Some? {
        TreeParts(t);
        StoredPart(t, p[0]);
        StoredKeeps(Part(t, p[0]).value, p[1..]);
        LookBoxed(PE.ToGo(PE.CloneStored(Part(t, p[0]).value).value), p[1..]);
      }
      StoredSnapshot(t);
      KeptByParts(t, u, p);
    }
  }

  lemma StoredPart(t: Tree, s: Step)
    requires PE.CloneStored(t).Some? && !t.Iface? && Part(t, s).Some?
    ensures PE.CloneStored(Part(t, s).value).Some?
    ensures Part(PE.ToGo(PE.CloneStored(t).value), s) == Some(Box(PE.ToGo(PE.CloneStored(Part(t, s).value).value)))
  {
  }

  lemma StoredSnapshot(t: Tree)
    requires PE.CloneStored(t).Some? && !t.Iface?
    ensures Snapshot(t, PE.ToGo(PE.CloneStored(t).value))
  {
  }
}
