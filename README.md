# RRT planner core in Dafny

A model of the geometric and data-structure core of a 2-D Rapidly-exploring
Random Tree (RRT) path planner, with proofs about it. It covers four parts:

- **Obstacles** (`obstacles.dfy`, module `Geometry`) models `obstacles.py`:
  - value types: half-open ranges, points and segments;
  - the segment intersection test, which splits on horizontal and vertical
    segments;
  - `point_on_line`;
  - polygonal obstacles, with a box-rejected collision test and a ray-casting
    containment test;
  - the obstacle field, which truncates vertices to integers and answers
    `point_is_valid` and `check_collisions`.
- **KD-tree** (`kdtree.dfy`, module `KDTrees`) models `KDTree.py`:
  - insertion that alternates the split axis and never rebalances;
  - branch-and-bound nearest-neighbour search.

  The tree's shape is a datatype. The `KDTree` class holds it and the count
  of added nodes. Its `AddNode` runs the source's descent loop, then writes a
  leaf into the empty child slot it reached.
- **Path tree and steering** (`utilities.dfy`, module `Paths`) models
  `utilities.py`:
  - `gen_next`, the fixed-length step toward a sample;
  - `PathNode`/`PathTree` as heap classes with parent links, children lists
    and a dictionary from coordinates to nodes;
  - the planners' walk from the goal up to the root.
- **Brute-force nearest** (`find_nearest.dfy`, module `BruteForce`) models
  `find_nearest` from `tests/unittest_other.py`, and proves that the KD-tree
  search agrees with it.

`common.dfy` holds the shared vocabulary:
- `Pt`, a coordinate pair;
- `SqDist`, the squared Euclidean distance;
- `Dist`, a best-so-far distance that starts at `Inf` (`float('inf')`).

Main results:
- **Segments.** Intersection is symmetric, sound (a reported crossing is a
  common point of both closed segments) and never holds for parallel
  segments.
- **Obstacles.**
  - Box rejection in `check_collisions` never changes the answer.
  - On an axis-aligned rectangle, ray casting reports exactly the closed
    rectangle minus its top-right corner.
  - On slanted edges `point_on_line` has no range check. A concrete convex
    quadrilateral and a point outside it, beyond one such edge, show the
    obstacle reporting that point inside.
- **KD-tree.**
  - Insertion keeps the ordering invariant.
  - Insertion adds exactly one element, in a previously empty slot, and stays
    on the path the descent loop takes.
  - The nearest search returns a stored node that no stored node beats,
    including under the source's pruning.
  - Its distance equals the brute-force minimum over the same points.
- **Path tree.** `addPath` keeps the tree invariant:
  - dictionary entries carry their own key;
  - parent and children links agree;
  - depth grows by one per level.

  The walk up the parent links reaches the root.

Modelling choices:
- **Distances are squared.** Every distance is compared squared (`SqDist`),
  with no square roots. This keeps every strict test of the source:
  `Common.BelowSquared` and `KDTrees.GapBelowSquared` prove that comparing
  two non-negative values and comparing their squares give the same answer,
  for `dist < minDist` and the pruning test `gap < minDist`. The source has
  no non-strict test on distances. The model's own `AtMost` ("the best
  distance never grows"), used in the `ensures` of `KDTrees.Search` and
  `KDTrees.Descend`, is read as plain `<=` by `Common.AtMostSquared`.

  `GenNext` takes `norm`, the value of `math.hypot`, as a parameter, together
  with the property that defines it.
- **Floats are exact reals.** Integer truncation (`astype(int)`) is written
  out as truncation toward zero.
- **Ring closure.** The code builds one edge per pair of consecutive
  vertices and no closing edge (obstacles.py:70). The model follows the code:
  a ring is closed only when its caller repeats the first vertex.

## Model

| member | source | states |
|---|---|---|
| Common.SqDist | KDTree.py:44 | the squared distance is non-negative and zero exactly when the two points coincide |
| Common.BelowSquared | KDTree.py:45 | for non-negative distances, `dist < minDist` holds iff the squared comparison `Below` does |
| Common.AtMostSquared | KDTree.py:44-46 | for non-negative distances, `a <= b` holds iff the model's squared `AtMost` does; `AtMost` is not a test of the source but the "distance never grows" clause of `Search` and `Descend`, which follows from the strict update at lines 45-46 |
| Common.AxisGapBound | KDTree.py:52-59 | the squared gap along one axis never exceeds the squared distance, the fact the pruning tests rely on |
| Geometry.MinOf | obstacles.py:5 | the minimum is one of the values and at most every value |
| Geometry.MaxOf | obstacles.py:5 | the maximum is one of the values and at least every value |
| Geometry.RangeOf | obstacles.py:5 | `Range(vals)` ends at values of the list and spans every value |
| Geometry.RangeOfBounds | obstacles.py:5 | a list containing `lo` and `hi` with every value between them has range `[lo, hi)` |
| Geometry.Range.Contains | obstacles.py:6 | `min <= val < max`, the half-open membership test; no contract of its own |
| Geometry.Line.YBar | obstacles.py:19 | `y_bar`: the segment is vertical, `start.x == end.x`; no contract of its own (every branch of `Intersects` and `PointOnLine` splits on it) |
| Geometry.Line.XBar | obstacles.py:20 | `x_bar`: the segment is horizontal, `start.y == end.y`; no contract of its own (every branch of `Intersects` and `PointOnLine` splits on it) |
| Geometry.Line.XRange | obstacles.py:24 | `xrange`, the range `Span(start.x, end.x)` of the two x coordinates; no contract of its own (its properties are `Span`'s) |
| Geometry.Line.YRange | obstacles.py:25 | `yrange`, the range `Span(start.y, end.y)` of the two y coordinates; no contract of its own (its properties are `Span`'s) |
| Geometry.Span | obstacles.py:24-25 | a segment's range runs between its two coordinates in order, and is empty when they are equal |
| Geometry.Line.Slope | obstacles.py:27 | on a non-vertical segment the slope times the x extent is the y extent; it is zero exactly for horizontal segments |
| Geometry.Line.Intercept | obstacles.py:23 | `end.y - slope*end.x`, defined only when the segment is not vertical; no contract of its own (its meaning is `OnLineIffSlopeForm`) |
| Geometry.Line.YAt | obstacles.py:41-53 | `slope*x + intercept`, the height the branches at lines 41, 48 and 53 compute; no contract of its own (its meaning is `OnLineIffSlopeForm`) |
| Geometry.Line.XAt | obstacles.py:45 | the x computed as `(y - intercept)/slope` lies on the line at height `y` |
| Geometry.Line.CrossingX | obstacles.py:52 | at the computed x the two lines have the same height |
| Geometry.Line.Intersects | obstacles.py:31-56 | the source's branch structure: horizontal `self` (lines 33-37), vertical `self` (38-42), horizontal or vertical `other` (44-49), equal slopes (51), and the slanted crossing (52-56), with the same half-open range checks; no contract of its own (its properties are `ParallelNeverIntersect`, `IntersectsSymmetric` and `IntersectsSound`) |
| Geometry.Line.PointOnLine | obstacles.py:58-62 | exact match with a half-open range on horizontal (line 60) and vertical (line 61) segments, the `0.001` tolerance on the line otherwise (line 62); no contract of its own (its properties are `PointOnAxisSegment` and `PointOnSlantedLine`) |
| Geometry.OnLineIffSlopeForm | obstacles.py:21-23 | on a non-vertical segment, a point is on the line through it iff `y = slope*x + intercept` |
| Geometry.ParallelNeverIntersect | obstacles.py:31-56 | two horizontal, two vertical, or two slanted segments of equal slope never intersect, overlapping or not |
| Geometry.IntersectsSymmetric | obstacles.py:31-56 | `a.intersects(b) == b.intersects(a)` for all segments |
| Geometry.AxisCasesSymmetric | obstacles.py:33-49 | symmetry in every branch where one segment is horizontal or vertical |
| Geometry.SlantedCrossingSymmetric | obstacles.py:51-56 | symmetry of the slanted/slanted branch: both orders compute the same crossing |
| Geometry.UniqueCrossing | obstacles.py:52 | two lines of different slopes meet at a single x |
| Geometry.IntersectionPoint | obstacles.py:31-56 | a reported intersection has a witness point on both closed segments, inside both half-open ranges in the slanted case |
| Geometry.AxisIntersectionPoint | obstacles.py:33-49 | the witness for the branches with a horizontal or vertical segment lies on both closed segments |
| Geometry.SlantedAxisPoint | obstacles.py:36-48 | the crossing of a slanted segment with an axis-parallel one lies on both closed segments |
| Geometry.AxisSlantedOnBoth | obstacles.py:36-48 | a point on the slanted line and in both boxes lies on both closed segments |
| Geometry.IntersectsSound | obstacles.py:31-56 | whenever `intersects` is true the two closed segments share a point |
| Geometry.PointOnAxisSegment | obstacles.py:60-61 | on a horizontal or vertical segment, `point_on_line` holds iff the point is on the closed segment and not at its upper end |
| Geometry.PointOnSlantedLine | obstacles.py:62 | on a slanted segment, `point_on_line` holds at every point of the infinite line, with no range check |
| Geometry.Obstacle.InBounds | obstacles.py:86 | the closed box test `x.min <= pt.x <= x.max and y.min <= pt.y <= y.max`; no contract of its own (used by `Contains`, `WellFormed` and `NewObstacle`) |
| Geometry.Obstacle.BoxMisses | obstacles.py:76-77 | the box rejection: the segment's ranges lie strictly outside the obstacle's on one axis; no contract of its own (`BoxRejectIsSound` proves it never hides an intersecting edge) |
| Geometry.Obstacle.Projection | obstacles.py:89 | the horizontal ray from the point to 5 units past the box's `x.max`; no contract of its own |
| Geometry.Obstacle.Collides | obstacles.py:76-81 | what `check_collisions` decides: no box miss, and some edge intersects the segment; no contract of its own (the predicate `CheckCollisions` is proved equal to) |
| Geometry.Obstacle.Contains | obstacles.py:86-97 | what `point_in_obstacle` decides: inside the closed box, and on some edge or an odd crossing count; no contract of its own (the predicate `PointInObstacle` is proved equal to) |
| Geometry.Obstacle.CheckCollisions | obstacles.py:72-82 | the result is true iff the boxes overlap and some edge intersects the segment; a box miss always gives false |
| Geometry.Obstacle.PointInObstacle | obstacles.py:84-97 | the result is true iff the point is in the closed box and either lies on an edge or the edges cross the projection an odd number of times |
| Geometry.Crossings | obstacles.py:92-95 | the crossing count is at most the number of edges |
| Geometry.NewObstacle | obstacles.py:66-70 | no obstacle for an empty vertex list; otherwise one edge per consecutive vertex pair, every vertex and edge endpoint inside the box, and each end of each range is a vertex coordinate, so the box is exactly the smallest and largest x and y of the vertices (built with the helpers `Xs`, `Ys` and `Edges`, the coordinate lists and the consecutive-pair segments) |
| Geometry.BoxRejectIsSound | obstacles.py:76-81 | on a well-formed obstacle the box rejection never hides a collision: the result is "some edge intersects the segment" |
| Geometry.CrossingsOfFour | obstacles.py:92-95 | the crossing count of four edges is the sum of their individual tests |
| Geometry.RectangleObstacle | obstacles.py:66-70 | a closed rectangle ring gives the rectangle's ranges and its four sides as edges |
| Geometry.RectangleContainment | obstacles.py:84-97 | a rectangle obstacle contains exactly the points of the closed rectangle other than its top-right corner |
| Geometry.QuadrilateralObstacle | obstacles.py:66-70 | the ring (0,0),(10,0),(9,9),(0,10),(0,0) gives box [0,10)×[0,10) and its four edges |
| Geometry.TopEdgeSeparates | obstacles.py:62 | every vertex of that quadrilateral is on or below the line of its top edge, and (8.9, 9.9) is strictly above it |
| Geometry.SideEdgeExtended | obstacles.py:62 | (8.9, 9.9) passes `point_on_line` for the edge (10,0)-(9,9) while lying outside that edge's box |
| Geometry.SlantedEdgeExtensionInside | obstacles.py:84-97 | the quadrilateral obstacle contains (8.9, 9.9), a point outside the polygon |
| Geometry.Obstacles.PointIsValid | obstacles.py:104-109 | the point is valid iff no obstacle contains it |
| Geometry.Obstacles.CheckCollisions | obstacles.py:111-117 | the segment collides iff some obstacle reports a collision with it |
| Geometry.Truncate | obstacles.py:102 | `int(v)` truncates toward zero: the result is within one of `v`, on the side toward zero |
| Geometry.NewObstacles | obstacles.py:101-102 | the field exists iff no ring is empty; then obstacle `i` is built from ring `i` truncated vertex by vertex (helper `Truncated`), and every obstacle is well formed |
| Geometry.TruncatePoint | obstacles.py:102 | `tuple(pt.astype(int))` for one vertex: both coordinates truncated toward zero by `Truncate`; no contract of its own |
| Geometry.SegmentOf | obstacles.py:112 | `Line(Point(*line[0]), Point(*line[1]))` from a pair of configurations; no contract of its own |
| KDTrees.AllBelowMeans | KDTree.py:23-27 | the recursive "all below" bound means every stored node has its coordinate below the split |
| KDTrees.AllAtLeastMeans | KDTree.py:29-33 | the recursive "all at least" bound means every stored node has its coordinate at or above the split |
| KDTrees.OrderedMeans | KDTree.py:22-35 | the ordering invariant, in terms of stored nodes: strictly smaller on the left, the rest on the right, the axis alternating |
| KDTrees.Insert | KDTree.py:17-36 | an insertion always yields a non-empty tree |
| KDTrees.InsertElems | KDTree.py:17-36 | insertion adds exactly the new node to the stored multiset |
| KDTrees.InsertBounds | KDTree.py:22-35 | insertion keeps a subtree's one-sided bound when the new key satisfies it |
| KDTrees.InsertOrdered | KDTree.py:17-36 | insertion keeps the ordering invariant |
| KDTrees.Graft | KDTree.py:24-32 | the grafted subtree is at the given path |
| KDTrees.ReachesExtend | KDTree.py:27-33 | one more step from a node reached along a path reaches its child |
| KDTrees.InsertPath | KDTree.py:22-35 | the turns the descent loop takes: left on a strictly smaller coordinate, right otherwise, alternating the axis; no contract of its own (its properties are `InsertIsGraft` and `KDTree.FindSlot`) |
| KDTrees.InsertIsGraft | KDTree.py:22-35 | the descent path ends at an empty slot, and insertion puts a new leaf there and changes nothing else |
| KDTrees.DescendStep | KDTree.py:23-35 | one iteration of the descent loop keeps the loop state: position, axis parity and remaining path |
| KDTrees.FillSlot | KDTree.py:24-32 | writing the leaf at the empty slot the loop found is the insertion: ordered, one more element |
| KDTrees.GapBelowSquared | KDTree.py:52-59 | for a non-negative gap and distance, `gap < minDist` holds iff the squared test `GapBelow` does |
| KDTrees.Visit | KDTree.py:44-46 | the best improves only on a strictly smaller distance, to this node; the result is at most this node's distance |
| KDTrees.Search | KDTree.py:43-62 | the best node and best distance stay consistent and the distance never grows |
| KDTrees.Descend | KDTree.py:48-60 | consistency and no growth across the near and far recursive calls |
| KDTrees.SearchImproves | KDTree.py:43-62 | the search returns the incoming best, or a node of the subtree strictly closer than it |
| KDTrees.SearchLowImproves | KDTree.py:48-53 | the same, in the branch where the query is below the split |
| KDTrees.SearchHighImproves | KDTree.py:55-60 | the same, in the branch where the query is at or above the split |
| KDTrees.ImproveChain | KDTree.py:44-60 | two strict improvements in a row form one strict improvement |
| KDTrees.DescendImproves | KDTree.py:48-60 | the near/far calls return the incoming best or a strictly closer node of either subtree |
| KDTrees.MinimalMeans | KDTree.py:43-62 | "no node closer than m" in terms of the stored nodes |
| KDTrees.MinimalMonotone | KDTree.py:50-60 | lowering the best distance keeps the "nothing closer" property of a searched subtree |
| KDTrees.FarSideBeyond | KDTree.py:52-59 | the subtree across the split lies at least the gap to the split away along the axis |
| KDTrees.PruneSound | KDTree.py:52-59 | skipping a subtree because the gap is not below the best distance never skips a closer node |
| KDTrees.SearchMinimal | KDTree.py:43-62 | on an ordered tree, no stored node is closer than the distance the search returns |
| KDTrees.SearchLowMinimal | KDTree.py:48-53 | the same, in the branch where the query is below the split |
| KDTrees.SearchHighMinimal | KDTree.py:55-60 | the same, in the branch where the query is at or above the split |
| KDTrees.NodeMinimal | KDTree.py:44-46 | a node whose own distance and whose subtrees respect m respects m |
| KDTrees.DescendMinimal | KDTree.py:48-60 | after the near and far calls, neither subtree holds a node closer than the result |
| KDTrees.NearestFromRoot | KDTree.py:40 | from the root with `None`/infinity, the search finds a stored node at its own distance that no node beats |
| KDTrees.KDTree.constructor | KDTree.py:13-15 | a fresh tree holds only the root node and has count 0 |
| KDTrees.KDTree.AddNode | KDTree.py:17-36 | the new root is the insertion of the new node: the ordering is kept, the count grows by one, one element is added at the slot the descent reaches |
| KDTrees.KDTree.FindSlot | KDTree.py:18-35 | the descent loop stops at the node whose empty child slot ends the insertion path |
| KDTrees.KDTree.NearestNode | KDTree.py:38-41 | the reported node is stored, its distance is its own, no stored node is closer, and a stored query is at distance 0 |
| BruteForce.MinDist | tests/unittest_other.py:5-11 | infinite iff no points; otherwise the distance of some point, and at most every point's distance |
| BruteForce.FindNearest | tests/unittest_other.py:3-16 | the result is the distance minimum, reached at the first point attaining it; no point and infinity for an empty list |
| BruteForce.SearchAgreesWithBruteForce | KDTree.py:43-62 | on an ordered tree holding exactly the listed points, the search distance equals the brute-force minimum |
| BruteForce.NearestNodeAgreesWithBruteForce | KDTree.py:38-41 | `nearestNode` and `find_nearest` report the same distance for the same point set |
| Paths.GenNext | utilities.py:32-38 | no step when the two points coincide; otherwise the step goes along `q_rand - q_near`, is `scale` long, and lands on `q_rand` when `scale` is the whole distance |
| Paths.DefaultScale | utilities.py:32 | the default step `scale=20` |
| Paths.GenNextDefault | utilities.py:32-38 | `gen_next` with the default scale: no step for coinciding points, otherwise a step of squared length 400 (20 units) |
| Paths.Step | utilities.py:34-37 | the point `q_near + vec*scale/norm`; no contract of its own (its properties are `StepFacts`) |
| Paths.StepFacts | utilities.py:34-37 | the computed point points along the direction, has length `scale`, and is `q_rand` at full scale |
| Paths.StepDirection | utilities.py:36-37 | one coordinate `d*scale/norm`, times `norm`, is `d*scale` |
| Paths.StepLength | utilities.py:35-37 | the scaled vector has squared length `scale²` |
| Paths.PathNode.constructor | utilities.py:42-45 | a node carries its coordinates and parent and has no children |
| Paths.PathNode.AddChild | utilities.py:49 | the child is appended to the children list |
| Paths.PathTree.constructor | utilities.py:53-56 | the dictionary maps the root key to a fresh root node with no parent and no children; the tree invariant holds |
| Paths.PathTree.AddPath | utilities.py:58-61 | a fresh node at `end`, child of the node at `start`, is appended to that node's children and registered under `end`; only that key changes (the keys contained afterwards are the old ones plus `end`) and the invariant is kept |
| Paths.PathTree.ParentsKept | utilities.py:59-60 | adding a node below a tree node keeps every parent link and depth |
| Paths.PathTree.ChildrenKept | utilities.py:59-60 | adding a childless node below a tree node keeps every children list pointing back at its owner |
| Paths.PathTree.Get | utilities.py:63 | `tree[x]` is a node of the tree carrying `x` |
| Paths.PathTree.Contains | utilities.py:64 | `x in tree` is `x in self.dict`; no contract of its own (its partner is `ContainsMeansGet`) |
| Paths.PathTree.ContainsMeansGet | utilities.py:63-64 | a contained key can be looked up, and `tree[x]` is the tree node registered under it, carrying `x` |
| Paths.PathTree.KeyNode | utilities.py:61-63 | the node registered under a key is a tree node carrying that key |
| Paths.PathTree.ParentStep | utilities.py:59 | a tree node with a parent sits one level below it, and the parent is in the tree |
| Paths.PathTree.ParentlessIsRoot | utilities.py:54 | the root is the only tree node without a parent |
| Paths.PathTree.PathTo | unidirectionalrrt.py:75-78 | the walk up the parent links from the node at a key ends at the root after `depth` steps; the (ghost) sequence of nodes visited starts at the node at the key, each is the parent of the one before, the last is the root, and `path[i]` is the coordinates of the `i`-th |

## Left out

- Reading obstacle and start/goal files (`get_obstacle_course`, `get_start_and_goal`), plotting, `printTree` and every `print`: these are I/O.
- The planners (`unidirectionalrrt.py`, `bidirectionalrrt.py`, `extra_credit.py`), `main.py` and `ImageGenerator.py`: they are outside this core. Only their parent walk is modelled, as `PathTo`.
- Random sampling in the planners: it is outside this core.
- Floating point: values are exact reals, so rounding (and, for example, the exact behaviour of the `0.001` tolerance near rounding boundaries) is not modelled.
- `math.hypot`: the model compares squared distances. The search and the brute-force scan therefore return squared distances; the minimum point is the same.
- Paths.GenNext: takes `norm` as a parameter defined by `norm² = |q_rand - q_near|²`, `norm >= 0`, instead of computing a square root. For coinciding points the source divides by zero: with plain Python numbers that raises `ZeroDivisionError`, and with the numpy arrays the planners pass as `q_rand` (unidirectionalrrt.py:36, 47) it yields `nan` with a warning. The model returns `None` there. No planner reaches this case: the step is taken only when `dist` is at least `step_size` (unidirectionalrrt.py:43-47), and with `goal_distance > 0` (unidirectionalrrt.py:62).
- Points as numpy arrays with more than two coordinates: only the first two coordinates are modelled. They are the only ones the source compares.
- KDTrees.KDTree.AddNode: the source writes a `Node` object into a child field in place. The model rebuilds the tree value along the descent path, so aliasing of `Node` objects is not modelled.
- Passing an existing `Node` object to `addNode` (KDTree.py:20): only a fresh `(point, alpha)` entry is modelled.
- The query's `alpha` in `nearestNode`: it is never read.
- The `return_node` switch of `nearestNode`: the model returns the stored entry, which carries the tuple.
- KDTrees.SearchImproves: among equally distant nodes, it does not say which one the search keeps; it states only that the best changes on a strict improvement.
- `find_nearest` calls `math.hypot` although its file has no `import math`. The model is the evidently intended behaviour, and its `verbose` output is left out.
- Geometry.NewObstacle: an empty vertex list makes the source's `min` fail (`ValueError`); the model returns `None`. A one-vertex ring gives an obstacle with no edges, as in the source.
- Paths.PathTree.AddPath and Paths.PathTree.Get require the key to be present. The source raises `KeyError` otherwise, and no caller relies on that exception.
- `__str__` and `__getitem__` on `Point`, `Line`, `Node` and `PathNode`: they format values or index coordinates, which the model reads directly.
