/** The planner's steering step and the path tree of utilities.py: a tree of
    parent-linked nodes indexed by a dictionary from coordinates to node. */
module Paths {
  import opened Common

  /** The step length `gen_next` uses when none is given. */
  const DefaultScale: real := 20.0

  /** `gen_next(q_near, q_rand, scale)`: the point `scale` units from
      `q_near` towards `q_rand`. `norm` is the length of `q_rand - q_near`
      (`math.hypot`), given with the property that defines it. When the two
      points coincide the norm is zero and the source divides by zero; the
      model returns `None` there. */
  function GenNext(qNear: Pt, qRand: Pt, scale: real, norm: real): (r: Option<Pt>)
    requires norm >= 0.0 && Sq(norm) == SqDist(qRand, qNear)
    ensures r.None? <==> qNear == qRand
    ensures r.Some? ==> (r.value.0 - qNear.0) * norm == (qRand.0 - qNear.0) * scale
    ensures r.Some? ==> (r.value.1 - qNear.1) * norm == (qRand.1 - qNear.1) * scale
    ensures r.Some? ==> SqDist(r.value, qNear) == Sq(scale)
    ensures r.Some? && scale == norm ==> r.value == qRand
  {
    SqPositive(norm);
    if norm == 0.0 then None
    else
      StepFacts(qNear, qRand, scale, norm);
      Some(Step(qNear, qRand, scale, norm))
  }

  /** `gen_next(q_near, q_rand)` with the default step: the point 20 units
      from `q_near` towards `q_rand`. */
  function GenNextDefault(qNear: Pt, qRand: Pt, norm: real): (r: Option<Pt>)
    requires norm >= 0.0 && Sq(norm) == SqDist(qRand, qNear)
    ensures r.None? <==> qNear == qRand
    ensures r.Some? ==> SqDist(r.value, qNear) == 400.0
  {
    GenNext(qNear, qRand, DefaultScale, norm)
  }

  /** `q_near + vec * scale / norm` with `vec = q_rand - q_near`. */
  function Step(qNear: Pt, qRand: Pt, scale: real, norm: real): Pt
    requires norm != 0.0
  {
    (qNear.0 + (qRand.0 - qNear.0) * scale / norm, qNear.1 + (qRand.1 - qNear.1) * scale / norm)
  }

  /** The step points from `qNear` along `qRand - qNear`, has length
      `scale`, and lands on `qRand` when `scale` is the whole distance. */
  lemma StepFacts(qNear: Pt, qRand: Pt, scale: real, norm: real)
    requires norm > 0.0 && Sq(norm) == SqDist(qRand, qNear)
    ensures (Step(qNear, qRand, scale, norm).0 - qNear.0) * norm == (qRand.0 - qNear.0) * scale
    ensures (Step(qNear, qRand, scale, norm).1 - qNear.1) * norm == (qRand.1 - qNear.1) * scale
    ensures SqDist(Step(qNear, qRand, scale, norm), qNear) == Sq(scale)
    ensures scale == norm ==> Step(qNear, qRand, scale, norm) == qRand
  {
    var dx, dy := qRand.0 - qNear.0, qRand.1 - qNear.1;
    var p := Step(qNear, qRand, scale, norm);
    assert p.0 - qNear.0 == dx * scale / norm && p.1 - qNear.1 == dy * scale / norm;
    StepDirection(dx, scale, norm);
    StepDirection(dy, scale, norm);
    StepLength(dx, dy, scale, norm);
  }

  /** One coordinate of the step: `d * scale / norm`, scaled back by `norm`,
      is `d * scale`, and is `d` itself when `scale` is `norm`. */
  lemma StepDirection(d: real, scale: real, norm: real)
    requires norm != 0.0
    ensures (d * scale / norm) * norm == d * scale
    ensures scale == norm ==> d * scale / norm == d
  {
  }

  lemma StepLength(dx: real, dy: real, scale: real, norm: real)
    requires norm > 0.0 && Sq(norm) == Sq(dx) + Sq(dy)
    ensures Sq(dx * scale / norm) + Sq(dy * scale / norm) == Sq(scale)
  {
    var u := scale / norm;
    assert dx * scale / norm == dx * u && dy * scale / norm == dy * u;
    assert Sq(dx * u) + Sq(dy * u) == Sq(u) * (Sq(dx) + Sq(dy));
    assert Sq(u) * Sq(norm) == Sq(u * norm);
    assert u * norm == scale;
  }

  /** `PathNode`: a point of the planner's tree with its parent link and the
      list of children it has been given. */
  class PathNode {
    const coords: Pt
    var children: seq<PathNode>
    const parent: PathNode?
    /** The number of parent links up to the root. */
    ghost const depth: nat

    constructor (coords: Pt, parent: PathNode?)
      ensures this.coords == coords && this.parent == parent && children == []
      ensures depth == if parent == null then 0 else parent.depth + 1
    {
      this.coords := coords;
      this.parent := parent;
      children := [];
      depth := if parent == null then 0 else parent.depth + 1;
    }

    /** `addChild`: append to the children list. */
    method AddChild(x: PathNode)
      modifies this
      ensures children == old(children) + [x]
    {
      children := children + [x];
    }
  }

  /** `PathTree`: the root node, the dictionary from coordinates to node, and
      `length`, which nothing updates. `Nodes` is every node ever created in
      the tree, including nodes whose key was later overwritten. */
  class PathTree {
    const root: PathNode
    var dict: map<Pt, PathNode>
    var length: int
    ghost var Nodes: set<PathNode>

    /** The tree invariant: every key maps to a node of the tree carrying that
        key; parent links and children lists agree; the root is the only node
        without a parent, and every other node is one level below its
        parent. */
    ghost predicate Valid()
      reads this, Nodes
    {
      root in Nodes && root.parent == null && root.depth == 0 && length == 0 &&
      KeysHeld() && ParentLinked() && ChildrenLinked()
    }

    /** Every key maps to a node of the tree carrying that key. */
    ghost predicate KeysHeld()
      reads this, Nodes
    {
      forall k :: k in dict ==> dict[k] in Nodes && dict[k].coords == k
    }

    /** Only the root lacks a parent; every other node sits one level below
        its parent, in the parent's children list. */
    ghost predicate ParentLinked()
      reads this, Nodes
    {
      (forall n :: n in Nodes && n.parent == null ==> n == root) &&
      (forall n :: n in Nodes && n.parent != null ==>
        n.parent in Nodes && n.depth == n.parent.depth + 1 && n in n.parent.children)
    }

    /** Every child listed by a node of the tree is a node of the tree whose
        parent is that node. */
    ghost predicate ChildrenLinked()
      reads this, Nodes
    {
      forall n, c :: n in Nodes && c in n.children ==> c in Nodes && c.parent == n
    }

    /** `PathTree(root)`: the root key maps to a fresh node with no parent and
        no children. */
    constructor (rootKey: Pt)
      ensures Valid() && fresh(root) && fresh(Nodes)
      ensures dict == map[rootKey := root] && Nodes == {root}
      ensures root.coords == rootKey && root.parent == null && root.children == []
      ensures length == 0
    {
      root := new PathNode(rootKey, null);
      new;
      dict := map[rootKey := root];
      length := 0;
      Nodes := {root};
    }

    /** `addPath(start, end)`: a fresh node at `end` whose parent is the node
        at `start`, appended to that node's children and registered under
        `end`. Only the key `end` is written: a node it held before stays in
        the tree, attached to its parent. `start` must be a key (the source's
        lookup raises otherwise). */
    method AddPath(start: Pt, end: Pt)
      requires Valid() && start in dict
      modifies this, dict[start]
      ensures Valid()
      ensures end in dict && fresh(dict[end]) && dict == old(dict)[end := dict[end]]
      ensures dict[end].coords == end && dict[end].parent == old(dict[start]) && dict[end].children == []
      ensures old(dict[start]).children == old(dict[start].children) + [dict[end]]
      ensures Nodes == old(Nodes) + {dict[end]}
      ensures length == old(length)
      ensures forall k :: Contains(k) <==> k in old(dict) || k == end
    {
      var parentNode := dict[start];
      var newNode := new PathNode(end, parentNode);
      parentNode.AddChild(newNode);
      dict := dict[end := newNode];
      Nodes := Nodes + {newNode};
      ParentsKept(parentNode, newNode);
      ChildrenKept(parentNode, newNode);
    }

    /** Adding `nn` below `p` keeps every parent link of the tree. */
    twostate lemma ParentsKept(p: PathNode, new nn: PathNode)
      requires old(Valid()) && p in old(Nodes) && fresh(nn)
      requires nn.parent == p && nn.depth == p.depth + 1
      requires Nodes == old(Nodes) + {nn} && p.children == old(p.children) + [nn]
      requires forall n :: n in old(Nodes) && n != p ==> n.children == old(n.children)
      ensures ParentLinked()
    {
      forall n | n in Nodes && n.parent != null
        ensures n.parent in Nodes && n.depth == n.parent.depth + 1 && n in n.parent.children
      {
        if n != nn {
          assert n in old(n.parent.children);
        }
      }
    }

    /** Adding `nn`, childless, below `p` keeps every children list of the
        tree pointing back at its owner. */
    twostate lemma ChildrenKept(p: PathNode, new nn: PathNode)
      requires old(Valid()) && p in old(Nodes) && fresh(nn)
      requires nn.parent == p && nn.children == []
      requires Nodes == old(Nodes) + {nn} && p.children == old(p.children) + [nn]
      requires forall n :: n in old(Nodes) && n != p ==> n.children == old(n.children)
      ensures ChildrenLinked()
    {
      forall n, c | n in Nodes && c in n.children
        ensures c in Nodes && c.parent == n
      {
        if n != nn && c != nn {
          assert c in old(n.children);
        }
      }
    }

    /** `tree[x]`: the node registered under `x`, which carries `x`. */
    function Get(x: Pt): (n: PathNode)
      reads this, Nodes
      requires Valid() && x in dict
      ensures n in Nodes && n.coords == x
    {
      dict[x]
    }

    /** `x in tree`: `x` is a key. */
    predicate Contains(x: Pt)
      reads this
    {
      x in dict
    }

    /** A key the tree contains can be looked up, and the node found carries
        that key. */
    lemma ContainsMeansGet(x: Pt)
      requires Valid() && Contains(x)
      ensures Get(x) in Nodes && Get(x).coords == x && Get(x) == dict[x]
    {
    }

    /** The node registered under a key is a node of the tree carrying it. */
    lemma KeyNode(k: Pt)
      requires Valid() && k in dict
      ensures dict[k] in Nodes && dict[k].coords == k
    {
    }

    /** A node of the tree with a parent sits one level below it, inside the tree. */
    lemma ParentStep(n: PathNode)
      requires Valid() && n in Nodes && n.parent != null
      ensures n.parent in Nodes && n.depth == n.parent.depth + 1
    {
    }

    /** The root is the only node of the tree without a parent. */
    lemma ParentlessIsRoot(n: PathNode)
      requires Valid() && n in Nodes && n.parent == null
      ensures n == root
    {
    }

    /** The planners' `while cur.parent: cur = cur.parent` walk from the node
        at `key`: it ends at the root after `depth` steps. `nodes` are the
        nodes visited, each the parent of the one before, and `path` lists
        their coordinates. */
    method PathTo(key: Pt) returns (path: seq<Pt>, ghost nodes: seq<PathNode>)
      requires Valid() && key in dict
      ensures |path| == dict[key].depth + 1 && |nodes| == |path|
      ensures nodes[0] == dict[key] && nodes[|nodes| - 1] == root
      ensures forall i :: 0 <= i < |nodes| - 1 ==> nodes[i].parent == nodes[i + 1]
      ensures forall i :: 0 <= i < |path| ==> nodes[i] in Nodes && path[i] == nodes[i].coords
      ensures path[0] == key && path[|path| - 1] == root.coords
    {
      var cur := dict[key];
      path := [cur.coords];
      nodes := [cur];
      KeyNode(key);
      while cur.parent != null
        invariant cur in Nodes
        invariant |path| + cur.depth == dict[key].depth + 1 && |nodes| == |path|
        invariant nodes[0] == dict[key] && nodes[|nodes| - 1] == cur
        invariant forall i :: 0 <= i < |nodes| - 1 ==> nodes[i].parent == nodes[i + 1]
        invariant forall i :: 0 <= i < |path| ==> nodes[i] in Nodes && path[i] == nodes[i].coords
        decreases cur.depth
      {
        ParentStep(cur);
        ghost var prev := nodes;
        cur := cur.parent;
        path := path + [cur.coords];
        nodes := nodes + [cur];
        forall i | 0 <= i < |nodes| - 1
          ensures nodes[i].parent == nodes[i + 1]
        {
          if i < |prev| - 1 {
            assert nodes[i] == prev[i] && nodes[i + 1] == prev[i + 1];
          }
        }
      }
      ParentlessIsRoot(cur);
    }
  }
}
