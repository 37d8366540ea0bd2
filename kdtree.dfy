/** The 2-D KD-tree of KDTree.py: alternating-axis insertion without
    rebalancing and branch-and-bound nearest-neighbour search. The tree's
    shape is a value (`Tree`); the `KDTree` object holds it and the count of
    inserted nodes, and its `AddNode` walks down like the source and then
    writes the new leaf into the empty child slot it reached. */
module KDTrees {
  import opened Common

  /** A stored node: its coordinates and the `alpha` payload carried along. */
  datatype Entry = Entry(key: Pt, alpha: Option<real>)

  datatype Tree = Nil | Node(entry: Entry, left: Tree, right: Tree)

  function Leaf(e: Entry): Tree
  {
    Node(e, Nil, Nil)
  }

  /** Every stored node, once per `Node` object. */
  function Elems(t: Tree): multiset<Entry>
  {
    match t
    case Nil => multiset{}
    case Node(e, l, r) => multiset{e} + Elems(l) + Elems(r)
  }

  function Keys(t: Tree): set<Pt>
  {
    set e | e in Elems(t) :: e.key
  }

  /** Every node of `t` has `axis` coordinate below `v`. */
  predicate AllBelow(t: Tree, axis: Axis, v: real)
  {
    match t
    case Nil => true
    case Node(c, l, r) => Coord(c.key, axis) < v && AllBelow(l, axis, v) && AllBelow(r, axis, v)
  }

  /** Every node of `t` has `axis` coordinate at least `v`. */
  predicate AllAtLeast(t: Tree, axis: Axis, v: real)
  {
    match t
    case Nil => true
    case Node(c, l, r) => Coord(c.key, axis) >= v && AllAtLeast(l, axis, v) && AllAtLeast(r, axis, v)
  }

  lemma {:induction false} AllBelowMeans(t: Tree, axis: Axis, v: real)
    ensures AllBelow(t, axis, v) <==> forall e :: e in Elems(t) ==> Coord(e.key, axis) < v
  {
    match t
    case Nil =>
    case Node(c, l, r) =>
      AllBelowMeans(l, axis, v);
      AllBelowMeans(r, axis, v);
      assert forall x :: x in Elems(t) <==> x == c || x in Elems(l) || x in Elems(r);
  }

  lemma {:induction false} AllAtLeastMeans(t: Tree, axis: Axis, v: real)
    ensures AllAtLeast(t, axis, v) <==> forall e :: e in Elems(t) ==> Coord(e.key, axis) >= v
  {
    match t
    case Nil =>
    case Node(c, l, r) =>
      AllAtLeastMeans(l, axis, v);
      AllAtLeastMeans(r, axis, v);
      assert forall x :: x in Elems(t) <==> x == c || x in Elems(l) || x in Elems(r);
  }

  /** The search-tree invariant at a node splitting on `axis`: the left
      subtree holds strictly smaller coordinates, the right subtree the rest,
      and the children split on the other axis. */
  predicate Ordered(t: Tree, axis: Axis)
  {
    match t
    case Nil => true
    case Node(c, l, r) =>
      AllBelow(l, axis, Coord(c.key, axis)) && AllAtLeast(r, axis, Coord(c.key, axis)) &&
      Ordered(l, 1 - axis) && Ordered(r, 1 - axis)
  }

  /** `Ordered` in terms of the stored nodes. */
  lemma OrderedMeans(t: Tree, axis: Axis)
    requires t.Node?
    ensures Ordered(t, axis) <==>
      (forall e :: e in Elems(t.left) ==> Coord(e.key, axis) < Coord(t.entry.key, axis)) &&
      (forall e :: e in Elems(t.right) ==> Coord(e.key, axis) >= Coord(t.entry.key, axis)) &&
      Ordered(t.left, 1 - axis) && Ordered(t.right, 1 - axis)
  {
    AllBelowMeans(t.left, axis, Coord(t.entry.key, axis));
    AllAtLeastMeans(t.right, axis, Coord(t.entry.key, axis));
  }

  /** The tree `addNode` builds: descend left on a strictly smaller
      coordinate, right otherwise, and hang the new node in the empty slot. */
  function Insert(t: Tree, e: Entry, axis: Axis): (r: Tree)
    ensures r.Node?
  {
    match t
    case Nil => Leaf(e)
    case Node(c, l, rt) =>
      if Coord(e.key, axis) < Coord(c.key, axis) then Node(c, Insert(l, e, 1 - axis), rt)
      else Node(c, l, Insert(rt, e, 1 - axis))
  }

  lemma {:induction false} InsertElems(t: Tree, e: Entry, axis: Axis)
    ensures Elems(Insert(t, e, axis)) == Elems(t) + multiset{e}
  {
    match t
    case Nil =>
    case Node(c, l, r) =>
      if Coord(e.key, axis) < Coord(c.key, axis) {
        InsertElems(l, e, 1 - axis);
        assert Insert(t, e, axis) == Node(c, Insert(l, e, 1 - axis), r);
      } else {
        InsertElems(r, e, 1 - axis);
        assert Insert(t, e, axis) == Node(c, l, Insert(r, e, 1 - axis));
      }
  }

  lemma {:induction false} InsertBounds(t: Tree, e: Entry, axis: Axis, b: Axis, v: real)
    ensures AllBelow(t, b, v) && Coord(e.key, b) < v ==> AllBelow(Insert(t, e, axis), b, v)
    ensures AllAtLeast(t, b, v) && Coord(e.key, b) >= v ==> AllAtLeast(Insert(t, e, axis), b, v)
  {
    match t
    case Nil =>
    case Node(c, l, r) =>
      if Coord(e.key, axis) < Coord(c.key, axis) {
        InsertBounds(l, e, 1 - axis, b, v);
      } else {
        InsertBounds(r, e, 1 - axis, b, v);
      }
  }

  /** Insertion keeps the ordering invariant. */
  lemma {:induction false} InsertOrdered(t: Tree, e: Entry, axis: Axis)
    requires Ordered(t, axis)
    ensures Ordered(Insert(t, e, axis), axis)
  {
    match t
    case Nil =>
    case Node(c, l, r) =>
      if Coord(e.key, axis) < Coord(c.key, axis) {
        InsertOrdered(l, e, 1 - axis);
        InsertBounds(l, e, 1 - axis, axis, Coord(c.key, axis));
      } else {
        InsertOrdered(r, e, 1 - axis);
        InsertBounds(r, e, 1 - axis, axis, Coord(c.key, axis));
      }
  }

  // Positions in a tree: a sequence of left/right turns from the root.

  datatype Dir = Left | Right

  function Child(t: Tree, d: Dir): Tree
    requires t.Node?
  {
    if d == Left then t.left else t.right
  }

  /** Every turn of `path` is taken at a `Node`. */
  predicate Reaches(t: Tree, path: seq<Dir>)
    decreases |path|
  {
    |path| == 0 || (t.Node? && Reaches(Child(t, path[0]), path[1..]))
  }

  function At(t: Tree, path: seq<Dir>): Tree
    requires Reaches(t, path)
    decreases |path|
  {
    if |path| == 0 then t else At(Child(t, path[0]), path[1..])
  }

  /** `t` with the subtree at `path` replaced by `s`; everything off the
      path is kept. */
  function Graft(t: Tree, path: seq<Dir>, s: Tree): (r: Tree)
    requires Reaches(t, path)
    ensures Reaches(r, path) && At(r, path) == s
    decreases |path|
  {
    if |path| == 0 then s
    else if path[0] == Left then Node(t.entry, Graft(t.left, path[1..], s), t.right)
    else Node(t.entry, t.left, Graft(t.right, path[1..], s))
  }

  lemma {:induction false} ReachesExtend(t: Tree, path: seq<Dir>, d: Dir)
    requires Reaches(t, path) && At(t, path).Node?
    ensures Reaches(t, path + [d]) && At(t, path + [d]) == Child(At(t, path), d)
    decreases |path|
  {
    if |path| > 0 {
      assert (path + [d])[1..] == path[1..] + [d];
      ReachesExtend(Child(t, path[0]), path[1..], d);
    }
  }

  /** The turns `addNode`'s loop takes for a node at `key`; only the first
      two coordinates decide them, never `alpha`. */
  function InsertPath(t: Tree, key: Pt, axis: Axis): seq<Dir>
  {
    match t
    case Nil => []
    case Node(c, l, r) =>
      if Coord(key, axis) < Coord(c.key, axis) then [Left] + InsertPath(l, key, 1 - axis)
      else [Right] + InsertPath(r, key, 1 - axis)
  }

  /** Insertion fills exactly one previously empty slot with a new leaf and
      leaves the rest of the tree as it was. */
  lemma {:induction false} InsertIsGraft(t: Tree, e: Entry, axis: Axis)
    ensures var path := InsertPath(t, e.key, axis);
      Reaches(t, path) && At(t, path) == Nil && Insert(t, e, axis) == Graft(t, path, Leaf(e))
  {
    match t
    case Nil =>
    case Node(c, l, r) =>
      var path := InsertPath(t, e.key, axis);
      if Coord(e.key, axis) < Coord(c.key, axis) {
        InsertIsGraft(l, e, 1 - axis);
        assert path[1..] == InsertPath(l, e.key, 1 - axis);
      } else {
        InsertIsGraft(r, e, 1 - axis);
        assert path[1..] == InsertPath(r, e.key, 1 - axis);
      }
  }

  // Nearest-neighbour search.

  /** `minNode`/`minDist` agree: no node exactly when the distance is still
      infinite, otherwise the distance is the node's. */
  predicate Consistent(q: Pt, best: Option<Entry>, m: Dist)
  {
    (best.None? <==> m.Inf?) && (best.Some? ==> m.sq == SqDist(q, best.value.key))
  }

  /** `gap < minDist` for a non-negative gap, compared through squares. */
  predicate GapBelow(gap: real, m: Dist)
  {
    m.Inf? || Sq(gap) < m.sq
  }

  /** The pruning test `gap < minDist` on a non-negative gap and distance
      gives the same answer on their squares. */
  lemma GapBelowSquared(gap: real, d: real)
    requires 0.0 <= gap && 0.0 <= d
    ensures gap < d <==> GapBelow(gap, Fin(Sq(d)))
  {
    if gap < d {
      SqStrictMonotone(gap, d);
    } else {
      SqMonotone(d, gap);
    }
  }

  /** A termination measure for the two mutually recursive search steps. */
  function Size(t: Tree): nat
  {
    match t
    case Nil => 1
    case Node(_, l, r) => 1 + Size(l) + Size(r)
  }

  /** `if dist < minDist: minNode, minDist = cur, dist`: the best moves to
      `c` exactly when `c` is strictly closer, and is then at most as far as
      `c` in every case. */
  function Visit(q: Pt, c: Entry, best: Option<Entry>, m: Dist): (r: (Option<Entry>, Dist))
    requires Consistent(q, best, m)
    ensures Consistent(q, r.0, r.1)
    ensures AtMost(r.1, m) && r.1.Fin? && r.1.sq <= SqDist(q, c.key)
    ensures r != (best, m) <==> Below(SqDist(q, c.key), m)
    ensures r != (best, m) ==> r.0 == Some(c)
  {
    var d := SqDist(q, c.key);
    if Below(d, m) then (Some(c), Fin(d)) else (best, m)
  }

  /** `_nearestNode` at node `t`: take it on a strict improvement (KDTree.py
      lines 44-46), then continue on the side of the split the query falls on
      (`Descend`). The result never gets worse than the incoming best. */
  function Search(q: Pt, t: Tree, axis: Axis, best: Option<Entry>, m: Dist): (r: (Option<Entry>, Dist))
    requires Consistent(q, best, m)
    ensures Consistent(q, r.0, r.1)
    ensures AtMost(r.1, m)
    decreases Size(t), 1
  {
    match t
    case Nil => (best, m)
    case Node(c, l, rt) =>
      var v := Visit(q, c, best, m);
      if Coord(q, axis) < Coord(c.key, axis) then
        Descend(q, l, rt, axis, Coord(c.key, axis) - Coord(q, axis), v.0, v.1)
      else
        Descend(q, rt, l, axis, Coord(q, axis) - Coord(c.key, axis), v.0, v.1)
  }

  /** The two recursive calls of `_nearestNode`: search the near subtree if
      there is one, then the far one unless the gap to the split already
      reaches the best distance found. */
  function Descend(q: Pt, near: Tree, far: Tree, axis: Axis, gap: real, best: Option<Entry>, m: Dist): (r: (Option<Entry>, Dist))
    requires Consistent(q, best, m)
    ensures Consistent(q, r.0, r.1)
    ensures AtMost(r.1, m)
    decreases Size(near) + Size(far), 0
  {
    var n := if near.Node? then Search(q, near, 1 - axis, best, m) else (best, m);
    if far.Node? && GapBelow(gap, n.1) then Search(q, far, 1 - axis, n.0, n.1) else n
  }

  /** The best changes only on strict improvement: `Search` returns the
      incoming best, or a node of `t` strictly closer than it. */
  lemma {:induction false} SearchImproves(q: Pt, t: Tree, axis: Axis, best: Option<Entry>, m: Dist)
    requires Consistent(q, best, m)
    ensures var r := Search(q, t, axis, best, m);
      r == (best, m) || (r.0.Some? && r.0.value in Elems(t) && Below(r.1.sq, m))
    decreases Size(t), 1
  {
    if t.Node? && Coord(q, axis) < Coord(t.entry.key, axis) {
      SearchLowImproves(q, t, axis, best, m);
    } else if t.Node? {
      SearchHighImproves(q, t, axis, best, m);
    }
  }

  lemma {:induction false} SearchLowImproves(q: Pt, t: Tree, axis: Axis, best: Option<Entry>, m: Dist)
    requires t.Node? && Consistent(q, best, m)
    requires Coord(q, axis) < Coord(t.entry.key, axis)
    ensures var r := Search(q, t, axis, best, m);
      r == (best, m) || (r.0.Some? && r.0.value in Elems(t) && Below(r.1.sq, m))
    decreases Size(t), 0
  {
    var Node(c, l, rt) := t;
    var v := Visit(q, c, best, m);
    var gap := Coord(c.key, axis) - Coord(q, axis);
    var r := Descend(q, l, rt, axis, gap, v.0, v.1);
    DescendImproves(q, l, rt, axis, gap, v.0, v.1);
    assert Search(q, t, axis, best, m) == r;
    ImproveChain(best, m, v, r, c, l, rt);
  }

  lemma {:induction false} SearchHighImproves(q: Pt, t: Tree, axis: Axis, best: Option<Entry>, m: Dist)
    requires t.Node? && Consistent(q, best, m)
    requires Coord(q, axis) >= Coord(t.entry.key, axis)
    ensures var r := Search(q, t, axis, best, m);
      r == (best, m) || (r.0.Some? && r.0.value in Elems(t) && Below(r.1.sq, m))
    decreases Size(t), 0
  {
    var Node(c, l, rt) := t;
    var v := Visit(q, c, best, m);
    var gap := Coord(q, axis) - Coord(c.key, axis);
    var r := Descend(q, rt, l, axis, gap, v.0, v.1);
    DescendImproves(q, rt, l, axis, gap, v.0, v.1);
    assert Search(q, t, axis, best, m) == r;
    ImproveChain(best, m, v, r, c, rt, l);
  }

  /** Two improvement steps in a row are one improvement step. */
  lemma ImproveChain(best: Option<Entry>, m: Dist, v: (Option<Entry>, Dist), r: (Option<Entry>, Dist),
                     c: Entry, near: Tree, far: Tree)
    requires v.1.Fin? && r.1.Fin? && AtMost(v.1, m)
    requires v == (best, m) || (v.0 == Some(c) && Below(v.1.sq, m))
    requires r == v || (r.0.Some? && r.0.value in Elems(near) + Elems(far) && Below(r.1.sq, v.1))
    ensures r == (best, m) || (r.0.Some? && r.0.value in Elems(Node(c, near, far)) && Below(r.1.sq, m))
  {
  }

  lemma {:induction false} DescendImproves(q: Pt, near: Tree, far: Tree, axis: Axis, gap: real, best: Option<Entry>, m: Dist)
    requires Consistent(q, best, m)
    ensures var r := Descend(q, near, far, axis, gap, best, m);
      r == (best, m) || (r.0.Some? && r.0.value in Elems(near) + Elems(far) && Below(r.1.sq, m))
    decreases Size(near) + Size(far), 0
  {
    var n := if near.Node? then Search(q, near, 1 - axis, best, m) else (best, m);
    if near.Node? {
      SearchImproves(q, near, 1 - axis, best, m);
    }
    if far.Node? && GapBelow(gap, n.1) {
      SearchImproves(q, far, 1 - axis, n.0, n.1);
    }
  }

  /** No node of `t` is closer to `q` than the distance `m`. */
  predicate Minimal(q: Pt, t: Tree, m: Dist)
  {
    match t
    case Nil => true
    case Node(c, l, r) => m.Fin? && m.sq <= SqDist(q, c.key) && Minimal(q, l, m) && Minimal(q, r, m)
  }

  lemma {:induction false} MinimalMeans(q: Pt, t: Tree, m: Dist)
    ensures Minimal(q, t, m) <==> forall e :: e in Elems(t) ==> m.Fin? && m.sq <= SqDist(q, e.key)
  {
    match t
    case Nil =>
    case Node(c, l, r) =>
      MinimalMeans(q, l, m);
      MinimalMeans(q, r, m);
      assert forall x :: x in Elems(t) <==> x == c || x in Elems(l) || x in Elems(r);
  }

  lemma {:induction false} MinimalMonotone(q: Pt, t: Tree, m: Dist, m': Dist)
    requires Minimal(q, t, m) && AtMost(m', m) && (t.Node? ==> m'.Fin?)
    ensures Minimal(q, t, m')
  {
    match t
    case Nil =>
    case Node(c, l, r) =>
      if l.Node? {
        MinimalMonotone(q, l, m, m');
      }
      if r.Node? {
        MinimalMonotone(q, r, m, m');
      }
  }

  /** Every node of `t` is at least `gap` from `q` along `axis`. */
  predicate Beyond(q: Pt, t: Tree, axis: Axis, gap: real)
  {
    match t
    case Nil => true
    case Node(c, l, r) =>
      gap <= Abs(Coord(q, axis) - Coord(c.key, axis)) && Beyond(q, l, axis, gap) && Beyond(q, r, axis, gap)
  }

  /** The subtree across the split from the query lies at least the gap to
      the split away. */
  lemma {:induction false} FarSideBeyond(q: Pt, t: Tree, axis: Axis, split: real)
    ensures Coord(q, axis) < split && AllAtLeast(t, axis, split) ==> Beyond(q, t, axis, split - Coord(q, axis))
    ensures Coord(q, axis) >= split && AllBelow(t, axis, split) ==> Beyond(q, t, axis, Coord(q, axis) - split)
  {
    match t
    case Nil =>
    case Node(c, l, r) =>
      FarSideBeyond(q, l, axis, split);
      FarSideBeyond(q, r, axis, split);
  }

  /** Pruning is sound: a subtree whose nodes are all at least `gap` away
      along one axis, with `gap` not below the best distance, cannot hold a
      strictly closer node. */
  lemma {:induction false} PruneSound(q: Pt, t: Tree, axis: Axis, gap: real, m: Dist)
    requires 0.0 <= gap && m.Fin? && !GapBelow(gap, m) && Beyond(q, t, axis, gap)
    ensures Minimal(q, t, m)
  {
    match t
    case Nil =>
    case Node(c, l, r) =>
      PruneSound(q, l, axis, gap, m);
      PruneSound(q, r, axis, gap, m);
      var g := Coord(q, axis) - Coord(c.key, axis);
      SqMonotone(gap, Abs(g));
      assert Sq(Abs(g)) == Sq(g);
      AxisGapBound(q, c.key, axis);
  }

  /** `_nearestNode` on an ordered tree: no node of the tree is closer than
      the returned distance. */
  lemma {:induction false} SearchMinimal(q: Pt, t: Tree, axis: Axis, best: Option<Entry>, m: Dist)
    requires Ordered(t, axis) && Consistent(q, best, m)
    ensures Minimal(q, t, Search(q, t, axis, best, m).1)
    decreases Size(t), 1
  {
    if t.Node? && Coord(q, axis) < Coord(t.entry.key, axis) {
      SearchLowMinimal(q, t, axis, best, m);
    } else if t.Node? {
      SearchHighMinimal(q, t, axis, best, m);
    }
  }

  /** The branch at KDTree.py lines 48-53: the query is below the split, so
      the left subtree is searched first and the right one may be pruned. */
  lemma {:induction false} SearchLowMinimal(q: Pt, t: Tree, axis: Axis, best: Option<Entry>, m: Dist)
    requires t.Node? && Ordered(t, axis) && Consistent(q, best, m)
    requires Coord(q, axis) < Coord(t.entry.key, axis)
    ensures Minimal(q, t, Search(q, t, axis, best, m).1)
    decreases Size(t), 0
  {
    var Node(c, l, rt) := t;
    var v := Visit(q, c, best, m);
    var gap := Coord(c.key, axis) - Coord(q, axis);
    var r := Descend(q, l, rt, axis, gap, v.0, v.1);
    FarSideBeyond(q, rt, axis, Coord(c.key, axis));
    DescendMinimal(q, l, rt, axis, gap, v.0, v.1);
    assert Search(q, t, axis, best, m) == r;
    NodeMinimal(q, c, l, rt, v.1, r.1);
  }

  /** The branch at KDTree.py lines 55-60: the query is at or above the
      split, so the right subtree is searched first and the left one may be
      pruned. */
  lemma {:induction false} SearchHighMinimal(q: Pt, t: Tree, axis: Axis, best: Option<Entry>, m: Dist)
    requires t.Node? && Ordered(t, axis) && Consistent(q, best, m)
    requires Coord(q, axis) >= Coord(t.entry.key, axis)
    ensures Minimal(q, t, Search(q, t, axis, best, m).1)
    decreases Size(t), 0
  {
    var Node(c, l, rt) := t;
    var v := Visit(q, c, best, m);
    var gap := Coord(q, axis) - Coord(c.key, axis);
    var r := Descend(q, rt, l, axis, gap, v.0, v.1);
    FarSideBeyond(q, l, axis, Coord(c.key, axis));
    DescendMinimal(q, rt, l, axis, gap, v.0, v.1);
    assert Search(q, t, axis, best, m) == r;
    NodeMinimal(q, c, l, rt, v.1, r.1);
  }

  lemma NodeMinimal(q: Pt, c: Entry, l: Tree, r: Tree, m1: Dist, m: Dist)
    requires m1.Fin? && m1.sq <= SqDist(q, c.key) && AtMost(m, m1)
    requires Minimal(q, l, m) && Minimal(q, r, m)
    ensures Minimal(q, Node(c, l, r), m)
  {
  }

  lemma {:induction false} DescendMinimal(q: Pt, near: Tree, far: Tree, axis: Axis, gap: real, best: Option<Entry>, m: Dist)
    requires Ordered(near, 1 - axis) && Ordered(far, 1 - axis) && Consistent(q, best, m)
    requires 0.0 <= gap && Beyond(q, far, axis, gap)
    ensures var r := Descend(q, near, far, axis, gap, best, m);
      Minimal(q, near, r.1) && Minimal(q, far, r.1)
    decreases Size(near) + Size(far), 2
  {
    var (b2, m2) := if near.Node? then Search(q, near, 1 - axis, best, m) else (best, m);
    if near.Node? {
      SearchMinimal(q, near, 1 - axis, best, m);
    }
    var r := Descend(q, near, far, axis, gap, best, m);
    if far.Node? && GapBelow(gap, m2) {
      SearchMinimal(q, far, 1 - axis, b2, m2);
      if near.Node? {
        MinimalMonotone(q, near, m2, r.1);
      }
    } else if far.Node? {
      PruneSound(q, far, axis, gap, m2);
    }
  }

  /** The state of `addNode`'s loop: `cur` is the node reached from the root
      along `path`, at depth parity `axis`, and the rest of the descent
      continues from `cur`. */
  predicate Descent(t: Tree, key: Pt, path: seq<Dir>, cur: Tree, axis: Axis)
  {
    Reaches(t, path) && At(t, path) == cur && axis == |path| % 2 &&
    InsertPath(t, key, 0) == path + InsertPath(cur, key, axis)
  }

  lemma DescendStep(t: Tree, key: Pt, path: seq<Dir>, cur: Tree, axis: Axis, d: Dir)
    requires cur.Node? && Descent(t, key, path, cur, axis)
    requires d == (if Coord(key, axis) < Coord(cur.entry.key, axis) then Left else Right)
    ensures Descent(t, key, path + [d], Child(cur, d), 1 - axis)
  {
    ReachesExtend(t, path, d);
    assert InsertPath(cur, key, axis) == [d] + InsertPath(Child(cur, d), key, 1 - axis);
    assert path + ([d] + InsertPath(Child(cur, d), key, 1 - axis)) == (path + [d]) + InsertPath(Child(cur, d), key, 1 - axis);
  }

  /** Writing the leaf into the empty slot the loop stopped at builds
      `Insert`, which is ordered and holds one more node. */
  lemma FillSlot(t: Tree, e: Entry, path: seq<Dir>, cur: Tree, axis: Axis, d: Dir)
    requires Ordered(t, 0)
    requires cur.Node? && Descent(t, e.key, path, cur, axis)
    requires d == (if Coord(e.key, axis) < Coord(cur.entry.key, axis) then Left else Right)
    requires Child(cur, d).Nil?
    ensures Reaches(t, path + [d]) && At(t, path + [d]) == Nil && InsertPath(t, e.key, 0) == path + [d]
    ensures Graft(t, path + [d], Leaf(e)) == Insert(t, e, 0)
    ensures Ordered(Insert(t, e, 0), 0)
    ensures Elems(Insert(t, e, 0)) == Elems(t) + multiset{e}
  {
    assert InsertPath(cur, e.key, axis) == [d];
    ReachesExtend(t, path, d);
    InsertIsGraft(t, e, 0);
    InsertOrdered(t, e, 0);
    InsertElems(t, e, 0);
  }

  /** `_nearestNode(new, root, 0, None, inf)` on an ordered, non-empty tree:
      a stored node and its distance, which no stored node beats. */
  lemma NearestFromRoot(q: Pt, t: Tree)
    requires t.Node? && Ordered(t, 0)
    ensures var r := Search(q, t, 0, None, Inf);
      r.0.Some? && r.0.value in Elems(t) && r.1 == Fin(SqDist(q, r.0.value.key)) &&
      forall e :: e in Elems(t) ==> r.1.sq <= SqDist(q, e.key)
  {
    var r := Search(q, t, 0, None, Inf);
    SearchMinimal(q, t, 0, None, Inf);
    SearchImproves(q, t, 0, None, Inf);
    MinimalMeans(q, t, r.1);
    assert t.entry in Elems(t);
  }

  /** The KD-tree object: the root node (never empty) and `length`, the
      number of nodes added after the root. */
  class KDTree {
    var root: Tree
    var length: nat

    predicate Valid()
      reads this
    {
      root.Node? && Ordered(root, 0) && length + 1 == |Elems(root)|
    }

    /** `KDTree(root, alpha)`: only the root node, nothing added yet. */
    constructor (r: Pt, alpha: Option<real>)
      ensures root == Leaf(Entry(r, alpha)) && length == 0
      ensures Valid()
    {
      root := Leaf(Entry(r, alpha));
      length := 0;
    }

    /** `addNode`: descend from the root, flipping the axis at every level,
        until the child slot to take is empty, and put the new leaf there. */
    method AddNode(p: Pt, alpha: Option<real>)
      requires Valid()
      modifies this
      ensures Valid()
      ensures root == Insert(old(root), Entry(p, alpha), 0)
      ensures length == old(length) + 1
      ensures Elems(root) == old(Elems(root)) + multiset{Entry(p, alpha)}
      ensures var path := InsertPath(old(root), p, 0);
        Reaches(old(root), path) && At(old(root), path) == Nil &&
        root == Graft(old(root), path, Leaf(Entry(p, alpha)))
    {
      var e := Entry(p, alpha);
      var path, cur, axis, slot := FindSlot(p);
      FillSlot(root, e, path, cur, axis, slot);
      root := Graft(root, path + [slot], Leaf(e));
      length := length + 1;
    }

    /** The descent loop of `addNode`: from the root, flipping the axis at
        every level, go left when the key is below the node's coordinate and
        right otherwise, until the child slot to take is empty. The slot
        reached is the end of the insertion path. */
    method FindSlot(p: Pt) returns (path: seq<Dir>, cur: Tree, axis: Axis, slot: Dir)
      requires Valid()
      ensures cur.Node? && Descent(root, p, path, cur, axis)
      ensures slot == (if Coord(p, axis) < Coord(cur.entry.key, axis) then Left else Right)
      ensures Child(cur, slot).Nil?
      ensures InsertPath(root, p, 0) == path + [slot]
    {
      axis := 0;
      cur := root;
      path := [];
      while true
        invariant cur.Node? && Descent(root, p, path, cur, axis)
        decreases cur
      {
        if Coord(p, axis) < Coord(cur.entry.key, axis) {
          if cur.left.Nil? {
            slot := Left;
            break;
          }
          DescendStep(root, p, path, cur, axis, Left);
          path, cur := path + [Left], cur.left;
        } else {
          if cur.right.Nil? {
            slot := Right;
            break;
          }
          DescendStep(root, p, path, cur, axis, Right);
          path, cur := path + [Right], cur.right;
        }
        axis := 1 - axis;
      }
      assert InsertPath(cur, p, axis) == [slot];
    }

    /** `nearestNode(new, return_node=True)`: a stored node and its squared
        distance to the query, which no stored node beats. */
    function NearestNode(q: Pt): (r: (Entry, real))
      reads this
      requires Valid()
      ensures r.0 in Elems(root) && r.1 == SqDist(q, r.0.key)
      ensures forall e :: e in Elems(root) ==> r.1 <= SqDist(q, e.key)
      ensures q in Keys(root) ==> r.1 == 0.0
    {
      NearestFromRoot(q, root);
      var (n, d) := Search(q, root, 0, None, Inf);
      assert q in Keys(root) ==> d.sq == 0.0 by {
        if q in Keys(root) {
          var e :| e in Elems(root) && e.key == q;
          assert SqDist(q, e.key) == 0.0;
        }
      }
      (n.value, d.sq)
    }
  }
}
