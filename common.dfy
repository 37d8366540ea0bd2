/** Shared vocabulary of the planner model: optional values, coordinate pairs,
    squared Euclidean distance and the "distance so far" that starts at infinity. */
module Common {

  datatype Option<T> = None | Some(value: T)

  /** A configuration key: the first two coordinates of a planner point. */
  type Pt = (real, real)

  /** Split axis of the KD-tree: 0 for x, 1 for y. */
  type Axis = a: int | 0 <= a <= 1

  function Coord(p: Pt, axis: Axis): real
  {
    if axis == 0 then p.0 else p.1
  }

  function Sq(a: real): real
  {
    a * a
  }

  /** `abs`. */
  function Abs(a: real): real
  {
    if a < 0.0 then -a else a
  }

  /** A product kept behind a function symbol, so that a fact `Mul(x, y) > 0`
      reaches the solver as stated rather than simplified. */
  function Mul(x: real, y: real): real
  {
    x * y
  }

  lemma MulPositive(x: real, y: real)
    requires x > 0.0 && y > 0.0
    ensures Mul(x, y) > 0.0
  {
  }

  lemma SqPositive(a: real)
    ensures Sq(a) >= 0.0
    ensures Sq(a) == 0.0 <==> a == 0.0
  {
    if a > 0.0 {
      MulPositive(a, a);
    } else if a < 0.0 {
      MulPositive(-a, -a);
      assert Mul(-a, -a) == Sq(a);
    }
  }

  /** Squaring is monotone on non-negative reals, so comparing squared gaps
      against squared distances keeps every strict and non-strict test. */
  lemma SqMonotone(a: real, b: real)
    requires 0.0 <= a <= b
    ensures Sq(a) <= Sq(b)
  {
  }

  lemma SqStrictMonotone(a: real, b: real)
    requires 0.0 <= a < b
    ensures Sq(a) < Sq(b)
  {
    MulPositive(b - a, b + a);
    assert Mul(b - a, b + a) == Sq(b) - Sq(a);
  }

  /** The square of the Euclidean distance between the first two coordinates,
      the quantity `hypot(p[0]-q[0], p[1]-q[1])` squared. */
  function SqDist(p: Pt, q: Pt): (d: real)
    ensures d >= 0.0
    ensures d == 0.0 <==> p == q
  {
    SqPositive(p.0 - q.0);
    SqPositive(p.1 - q.1);
    Sq(p.0 - q.0) + Sq(p.1 - q.1)
  }

  /** The gap along one axis bounds the distance: a point whose coordinate on
      `axis` differs from the query's by `gap` is at least `gap` away. */
  lemma AxisGapBound(p: Pt, q: Pt, axis: Axis)
    ensures Sq(Coord(p, axis) - Coord(q, axis)) <= SqDist(p, q)
  {
    SqPositive(p.0 - q.0);
    SqPositive(p.1 - q.1);
  }

  /** A best-so-far distance: `Inf` is `float('inf')`, `Fin(sq)` a finite
      squared distance. */
  datatype Dist = Inf | Fin(sq: real)

  /** `d < minDist`, with `d` and `minDist` both squared. */
  predicate Below(d: real, m: Dist)
  {
    m.Inf? || d < m.sq
  }

  /** `a <= b` on best-so-far distances. */
  predicate AtMost(a: Dist, b: Dist)
  {
    b.Inf? || (a.Fin? && a.sq <= b.sq)
  }

  /** The strict test `dist < minDist` on non-negative distances gives the
      same answer on their squares. */
  lemma BelowSquared(d: real, m: real)
    requires 0.0 <= d && 0.0 <= m
    ensures d < m <==> Below(Sq(d), Fin(Sq(m)))
  {
    if d < m {
      SqStrictMonotone(d, m);
    } else {
      SqMonotone(m, d);
    }
  }

  /** The non-strict comparison of non-negative distances gives the same
      answer on their squares. */
  lemma AtMostSquared(a: real, b: real)
    requires 0.0 <= a && 0.0 <= b
    ensures a <= b <==> AtMost(Fin(Sq(a)), Fin(Sq(b)))
  {
    if a <= b {
      SqMonotone(a, b);
    } else {
      SqStrictMonotone(b, a);
    }
  }
}
