/** The brute-force nearest neighbour of tests/unittest_other.py, a linear
    scan that keeps the first strictly closest point, and its agreement with
    the KD-tree search over the same points. */
module BruteForce {
  import opened Common
  import opened KDTrees

  /** The smallest squared distance from `p` to a point of `V`; `Inf` for
      no points. */
  function MinDist(V: seq<Pt>, p: Pt): (m: Dist)
    ensures m.Inf? <==> |V| == 0
    ensures m.Fin? ==> exists k :: 0 <= k < |V| && m.sq == SqDist(p, V[k])
    ensures forall v :: v in V ==> m.Fin? && m.sq <= SqDist(p, v)
  {
    if |V| == 0 then Inf
    else
      var m := MinDist(V[..|V| - 1], p);
      var d := SqDist(p, V[|V| - 1]);
      assert V == V[..|V| - 1] + [V[|V| - 1]];
      if Below(d, m) then Fin(d) else m
  }

  /** Among the first `n` points of `V`, `V[k]` is a closest one to `p`
      and every point before it is strictly farther. */
  predicate FirstClosest(V: seq<Pt>, p: Pt, k: int, n: int)
  {
    0 <= k < n <= |V| &&
    (forall j :: 0 <= j < n ==> SqDist(p, V[k]) <= SqDist(p, V[j])) &&
    (forall j :: 0 <= j < k ==> SqDist(p, V[k]) < SqDist(p, V[j]))
  }

  /** `find_nearest(V, p)`: scan `V` in order and move to a point only when
      it is strictly closer. The result is the first point at the minimum
      distance, with that distance; for no points, nothing at infinity. */
  method FindNearest(V: seq<Pt>, p: Pt) returns (minq: Option<Pt>, mindist: Dist)
    ensures mindist == MinDist(V, p)
    ensures |V| == 0 ==> minq == None && mindist == Inf
    ensures |V| > 0 ==> exists k :: FirstClosest(V, p, k, |V|) && minq == Some(V[k]) && mindist == Fin(SqDist(p, V[k]))
  {
    mindist, minq := Inf, None;
    ghost var k := 0;
    for i := 0 to |V|
      invariant mindist == MinDist(V[..i], p)
      invariant i == 0 ==> minq == None
      invariant i > 0 ==> FirstClosest(V, p, k, i) && minq == Some(V[k]) && mindist == Fin(SqDist(p, V[k]))
    {
      var v := V[i];
      var dist := SqDist(p, v);
      assert V[..i + 1] == V[..i] + [v];
      if Below(dist, mindist) {
        forall j | 0 <= j < i
          ensures dist < SqDist(p, V[j])
        {
          assert V[j] in V[..i];
        }
        mindist := Fin(dist);
        minq := Some((v.0, v.1));
        k := i;
      }
    }
    assert V[..|V|] == V;
  }

  /** The KD-tree search from the root finds the brute-force minimum over
      the same set of points. */
  lemma SearchAgreesWithBruteForce(t: Tree, V: seq<Pt>, q: Pt)
    requires t.Node? && Ordered(t, 0)
    requires (set v | v in V) == Keys(t)
    ensures Search(q, t, 0, None, Inf).1 == MinDist(V, q)
  {
    var r := Search(q, t, 0, None, Inf);
    NearestFromRoot(q, t);
    var m := MinDist(V, q);
    assert t.entry in Elems(t);
    assert t.entry.key in Keys(t);
    assert m.Fin?;
    var k :| 0 <= k < |V| && m.sq == SqDist(q, V[k]);
    assert V[k] in Keys(t);
    var e :| e in Elems(t) && e.key == V[k];
    assert r.1.sq <= m.sq;
    assert r.0.value.key in Keys(t);
    assert r.0.value.key in V;
    assert m.sq <= r.1.sq;
  }

  /** `nearestNode(q)` and `find_nearest(V, q)` report the same distance
      when `V` holds exactly the tree's points. */
  lemma NearestNodeAgreesWithBruteForce(tree: KDTree, V: seq<Pt>, q: Pt)
    requires tree.Valid()
    requires (set v | v in V) == Keys(tree.root)
    ensures MinDist(V, q) == Fin(tree.NearestNode(q).1)
  {
    SearchAgreesWithBruteForce(tree.root, V, q);
  }
}
