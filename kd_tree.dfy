/**
 * A 2-d tree over points in the plane (ps/KDTree.java).
 *
 * Nodes are heap objects whose `left`/`right` fields `Insert` rewrites in
 * place, as the Java code does. Each node carries a ghost footprint `Repr`
 * and a ghost value `T`, the immutable tree it currently roots; `Valid()`
 * ties the fields to that value. What insertion and the ordering invariant
 * mean is then stated once, on the value (`TreeInsert`, `KdOrdered`), and
 * proved there.
 */
module KdTree {

  /** A point with exact coordinates; equality is coordinate equality. */
  datatype Point = Point(x: int, y: int)

  /** The splitting axis of a node: Horizontal compares x, Vertical compares y. */
  datatype Orientation = Horizontal | Vertical {
    /** The axis of the children of a node with this axis. */
    function Flip(): (o: Orientation)
      ensures o != this
    {
      if this == Horizontal then Vertical else Horizontal
    }
  }

  /** The coordinate a node with axis `o` splits on. */
  function Key(p: Point, o: Orientation): int {
    if o == Horizontal then p.x else p.y
  }

  /** Three-way comparison of two coordinates, -1, 0 or 1 as `Double.compare` gives. */
  function Compare(a: int, b: int): (c: int)
    ensures c == -1 || c == 0 || c == 1
    ensures c < 0 <==> a < b
    ensures c == 0 <==> a == b
    ensures c > 0 <==> a > b
  {
    if a < b then -1 else if a == b then 0 else 1
  }

  /** Compares `a` against `b` on the x axis for Horizontal, on the y axis for Vertical. */
  function ComparePoints(a: Point, b: Point, o: Orientation): (c: int)
    ensures o == Horizontal ==> (c < 0 <==> a.x < b.x) && (c == 0 <==> a.x == b.x) && (c > 0 <==> a.x > b.x)
    ensures o == Vertical ==> (c < 0 <==> a.y < b.y) && (c == 0 <==> a.y == b.y) && (c > 0 <==> a.y > b.y)
  {
    Compare(Key(a, o), Key(b, o))
  }

  /** Squared Euclidean distance; only comparisons of distances matter. It is never negative. */
  function Dist(a: Point, b: Point): (r: int)
    ensures r >= 0
  {
    var dx, dy := a.x - b.x, a.y - b.y;
    assert dx * dx >= 0 && dy * dy >= 0;
    dx * dx + dy * dy
  }

  /** A point is at distance zero from exactly itself. */
  lemma DistZero(a: Point, b: Point)
    ensures Dist(a, b) == 0 <==> a == b
  {
    var dx, dy := a.x - b.x, a.y - b.y;
    if dx != 0 {
      assert dx * dx > 0;
    }
    if dy != 0 {
      assert dy * dy > 0;
    }
  }

  // ---------------------------------------------------------------------
  // The tree as a value
  // ---------------------------------------------------------------------

  /** The shape and points of a subtree, as a value. */
  datatype Tree = Empty | Node(left: Tree, point: Point, right: Tree)

  /** The points stored in a tree. */
  function Points(t: Tree): set<Point> {
    match t
    case Empty => {}
    case Node(l, q, r) => Points(l) + {q} + Points(r)
  }

  /** Every point of `s` lies strictly below `k` on axis `o`. */
  ghost predicate AllBelow(s: set<Point>, o: Orientation, k: int) {
    forall q :: q in s ==> Key(q, o) < k
  }

  /** Every point of `s` lies at or above `k` on axis `o`. */
  ghost predicate AllAtOrAbove(s: set<Point>, o: Orientation, k: int) {
    forall q :: q in s ==> k <= Key(q, o)
  }

  /**
   * The kd ordering invariant for a subtree whose root splits on `o`: every
   * point on the left is strictly below the root's point on that axis, every
   * point on the right is at or above it, and the children split on the
   * other axis.
   */
  ghost predicate KdOrdered(t: Tree, o: Orientation) {
    match t
    case Empty => true
    case Node(l, q, r) =>
      && AllBelow(Points(l), o, Key(q, o))
      && AllAtOrAbove(Points(r), o, Key(q, o))
      && KdOrdered(l, o.Flip())
      && KdOrdered(r, o.Flip())
  }

  /**
   * What `insert` does to a subtree whose root splits on `o`: descend left
   * on strictly-less, right otherwise, stop at a node holding `p` already,
   * and hang a new leaf where the descent falls off the tree.
   */
  function TreeInsert(t: Tree, p: Point, o: Orientation): (r: Tree)
    ensures r != Empty
  {
    match t
    case Empty => Node(Empty, p, Empty)
    case Node(l, q, rt) =>
      if q == p then t
      else if ComparePoints(p, q, o) < 0 then Node(TreeInsert(l, p, o.Flip()), q, rt)
      else Node(l, q, TreeInsert(rt, p, o.Flip()))
  }

  /** Insertion adds exactly `p` to the stored points. */
  lemma {:induction false} InsertPoints(t: Tree, p: Point, o: Orientation)
    ensures Points(TreeInsert(t, p, o)) == Points(t) + {p}
  {
    match t
    case Empty =>
    case Node(l, q, r) =>
      if q == p {
      } else if ComparePoints(p, q, o) < 0 {
        InsertPoints(l, p, o.Flip());
      } else {
        InsertPoints(r, p, o.Flip());
      }
  }

  /** Insertion keeps the kd ordering invariant. */
  lemma {:induction false} InsertKeepsOrder(t: Tree, p: Point, o: Orientation)
    requires KdOrdered(t, o)
    ensures KdOrdered(TreeInsert(t, p, o), o)
  {
    match t
    case Empty =>
    case Node(l, q, r) =>
      if q == p {
      } else if ComparePoints(p, q, o) < 0 {
        InsertKeepsOrder(l, p, o.Flip());
        InsertPoints(l, p, o.Flip());
      } else {
        InsertKeepsOrder(r, p, o.Flip());
        InsertPoints(r, p, o.Flip());
      }
  }

  /**
   * Inserting a point the tree already holds changes nothing: the ordering
   * sends the descent down the one path that leads to the stored copy.
   */
  lemma {:induction false} InsertDuplicate(t: Tree, p: Point, o: Orientation)
    requires KdOrdered(t, o) && p in Points(t)
    ensures TreeInsert(t, p, o) == t
  {
    match t
    case Node(l, q, r) =>
      if q == p {
      } else if ComparePoints(p, q, o) < 0 {
        assert p !in Points(r);
        InsertDuplicate(l, p, o.Flip());
      } else {
        assert p !in Points(l);
        InsertDuplicate(r, p, o.Flip());
      }
  }

  /**
   * The tree obtained by inserting `points` in order into an empty tree
   * split on x: it holds exactly the input points and is kd ordered.
   */
  function BuildTree(points: seq<Point>): (r: Tree)
    ensures Points(r) == set p | p in points
    ensures KdOrdered(r, Horizontal)
  {
    if points == [] then Empty
    else
      var init, last := points[..|points| - 1], points[|points| - 1];
      var t := BuildTree(init);
      InsertKeepsOrder(t, last, Horizontal);
      InsertPoints(t, last, Horizontal);
      assert points == init + [last];
      TreeInsert(t, last, Horizontal)
  }

  // ---------------------------------------------------------------------
  // The tree in the heap
  // ---------------------------------------------------------------------

  class KDTreeNode {
    var point: Point
    var left: KDTreeNode?
    var right: KDTreeNode?
    var orientation: Orientation

    /** The subtree rooted here, as a value. */
    ghost var T: Tree
    ghost var Repr: set<object>

    /**
     * The node invariant: the subtrees' footprints are disjoint and exclude
     * this node, the children split on the other axis, and `T` is this
     * node's point between the values of its two subtrees.
     */
    ghost predicate Valid()
      reads this, Repr
      decreases Repr
    {
      && this in Repr
      && (left != null ==>
            && left in Repr && left.Repr <= Repr && this !in left.Repr
            && left.Valid() && left.orientation == orientation.Flip())
      && (right != null ==>
            && right in Repr && right.Repr <= Repr && this !in right.Repr
            && right.Valid() && right.orientation == orientation.Flip())
      && (left != null && right != null ==> left.Repr !! right.Repr)
      && T == Node(Shape(left), point, Shape(right))
    }

    /** Re-establishes the ghost state after a child link has been rewritten. */
    ghost method Relink()
      requires this !in SubtreeRepr(left) && this !in SubtreeRepr(right)
      requires left != null ==> left.Valid() && left.orientation == orientation.Flip()
      requires right != null ==> right.Valid() && right.orientation == orientation.Flip()
      requires SubtreeRepr(left) !! SubtreeRepr(right)
      modifies this
      ensures Valid()
      ensures Repr == {this} + SubtreeRepr(left) + SubtreeRepr(right)
      ensures left == old(left) && right == old(right)
      ensures point == old(point) && orientation == old(orientation)
    {
      T := Node(Shape(left), point, Shape(right));
      Repr := {this} + SubtreeRepr(left) + SubtreeRepr(right);
    }

    constructor (p: Point, o: Orientation)
      ensures Valid() && fresh(Repr)
      ensures point == p && orientation == o && left == null && right == null
      ensures T == Node(Empty, p, Empty)
    {
      point := p;
      orientation := o;
      left := null;
      right := null;
      T := Node(Empty, p, Empty);
      Repr := {this};
    }
  }

  /** The value of a possibly empty subtree. */
  ghost function Shape(n: KDTreeNode?): Tree
    reads n
  {
    if n == null then Empty else n.T
  }

  /** The footprint of a possibly empty subtree. */
  ghost function SubtreeRepr(n: KDTreeNode?): set<object>
    reads n
  {
    if n == null then {} else n.Repr
  }

  class KDTree {
    var root: KDTreeNode?

    /** The whole tree, as a value. */
    ghost var T: Tree
    ghost var Repr: set<object>

    /** The tree invariant: the root splits on x, and the tree is kd ordered. */
    ghost predicate Valid()
      reads this, Repr
    {
      && this in Repr
      && (root != null ==>
            && root in Repr && root.Repr <= Repr && this !in root.Repr
            && root.Valid() && root.orientation == Horizontal)
      && T == Shape(root)
      && KdOrdered(T, Horizontal)
    }

    /** Builds the tree by inserting the points one at a time, starting on the x axis. */
    constructor (points: seq<Point>)
      ensures Valid() && fresh(Repr)
      ensures T == BuildTree(points)
      ensures Points(T) == set p | p in points
    {
      var r: KDTreeNode? := null;
      for i := 0 to |points|
        invariant r != null ==> r.Valid() && r.orientation == Horizontal && fresh(r.Repr)
        invariant Shape(r) == BuildTree(points[..i])
      {
        r := Insert(r, points[i], Horizontal);
        assert points[..i + 1][..i] == points[..i];
      }
      assert points[..|points|] == points;
      root := r;
      T := Shape(r);
      Repr := {this} + SubtreeRepr(r);
    }

    /**
     * Inserts `p` below `node`, whose axis is `o`, and returns the subtree's
     * root: a fresh leaf for an empty subtree, otherwise `node` itself with
     * one child link rewritten.
     */
    static method Insert(node: KDTreeNode?, p: Point, o: Orientation) returns (r: KDTreeNode)
      requires node != null ==> node.Valid() && node.orientation == o
      modifies SubtreeRepr(node)
      ensures r.Valid() && r.orientation == o
      ensures r.T == TreeInsert(old(Shape(node)), p, o)
      ensures node == null ==> fresh(r.Repr)
      ensures node != null ==> r == node && fresh(r.Repr - old(node.Repr))

      decreases SubtreeRepr(node)
    {
      if node == null {
        r := new KDTreeNode(p, o);
        return;
      }
      if node.point == p {
        return node;
      }
      var comparison := ComparePoints(p, node.point, o);
      if comparison < 0 {
        node.left := Insert(node.left, p, o.Flip());
      } else {
        node.right := Insert(node.right, p, o.Flip());
      }
      node.Relink();
      r := node;
    }

    /**
     * The stored point closest to (x, y), starting the search from the
     * root's point; the tree must not be empty.
     */
    function Nearest(x: int, y: int): (r: Point)
      requires Valid() && root != null
      reads this, Repr
      ensures r in Points(T)
      ensures forall q :: q in Points(T) ==> Dist(r, Point(x, y)) <= Dist(q, Point(x, y))
    {
      NearestInCorrect(T, Point(x, y), root.point, Horizontal);
      NearestHelper(root, Point(x, y), root.point, Horizontal)
    }

    /**
     * Searches subtree `n`, whose axis is `o`, for a point closer to `goal`
     * than `best`: the good side (the one `goal` falls on) first, then the
     * other side, with no pruning.
     */
    static function NearestHelper(n: KDTreeNode?, goal: Point, best: Point, o: Orientation): (r: Point)
      requires n != null ==> n.Valid()
      reads if n != null then {n} + n.Repr else {}
      ensures r == NearestIn(Shape(n), goal, best, o)
      decreases SubtreeRepr(n)
    {
      if n == null then best
      else
        var best1 := if Dist(n.point, goal) < Dist(best, goal) then n.point else best;
        var goodSide := if ComparePoints(goal, n.point, o) < 0 then n.left else n.right;
        var badSide := if ComparePoints(goal, n.point, o) < 0 then n.right else n.left;
        NearestHelper(badSide, goal, NearestHelper(goodSide, goal, best1, o.Flip()), o.Flip())
    }
  }

  /**
   * What `nearestHelper` computes on a subtree value: `best` is replaced
   * only by a strictly closer point, and both children are searched. The
   * answer is `best` or a point of the subtree, and no farther than `best`.
   */
  function NearestIn(t: Tree, goal: Point, best: Point, o: Orientation): (r: Point)
    ensures r == best || r in Points(t)
    ensures Dist(r, goal) <= Dist(best, goal)
  {
    match t
    case Empty => best
    case Node(l, q, rt) =>
      var best1 := if Dist(q, goal) < Dist(best, goal) then q else best;
      var goodSide := if ComparePoints(goal, q, o) < 0 then l else rt;
      var badSide := if ComparePoints(goal, q, o) < 0 then rt else l;
      var best2 := NearestIn(goodSide, goal, best1, o.Flip());
      NearestIn(badSide, goal, best2, o.Flip())
  }

  /** The search is exact: its answer is no farther than any point of the tree. */
  lemma {:induction false} NearestInCorrect(t: Tree, goal: Point, best: Point, o: Orientation)
    ensures forall q :: q in Points(t) ==> Dist(NearestIn(t, goal, best, o), goal) <= Dist(q, goal)
  {
    match t
    case Empty =>
    case Node(l, q, rt) =>
      var best1 := if Dist(q, goal) < Dist(best, goal) then q else best;
      var goodSide := if ComparePoints(goal, q, o) < 0 then l else rt;
      var badSide := if ComparePoints(goal, q, o) < 0 then rt else l;
      var best2 := NearestIn(goodSide, goal, best1, o.Flip());
      NearestInCorrect(goodSide, goal, best1, o.Flip());
      NearestInCorrect(badSide, goal, best2, o.Flip());
      assert Points(t) == Points(goodSide) + {q} + Points(badSide);
  }

  /**
   * When `best` is already as close as every point of the tree, the search
   * keeps it, so ties go to the point seen first.
   */
  lemma {:induction false} NearestInKeepsBest(t: Tree, goal: Point, best: Point, o: Orientation)
    requires forall q :: q in Points(t) ==> Dist(best, goal) <= Dist(q, goal)
    ensures NearestIn(t, goal, best, o) == best
  {
    match t
    case Empty =>
    case Node(l, q, rt) =>
      var goodSide := if ComparePoints(goal, q, o) < 0 then l else rt;
      var badSide := if ComparePoints(goal, q, o) < 0 then rt else l;
      assert Points(t) == Points(goodSide) + {q} + Points(badSide);
      NearestInKeepsBest(goodSide, goal, best, o.Flip());
      NearestInKeepsBest(badSide, goal, best, o.Flip());
  }

  /**
   * The six-point sample tree that `main` builds; a query at (3, 3), one of
   * the stored points, returns that point.
   */
  method SampleTree() returns (r: Point)
    ensures r == Point(3, 3)
  {
    var points := [Point(2, 3), Point(4, 2), Point(4, 5), Point(3, 3), Point(1, 5), Point(4, 4)];
    var kd := new KDTree(points);
    assert Point(3, 3) in Points(kd.T) by {
      assert points[3] in points;
    }
    r := kd.Nearest(3, 3);
    DistZero(Point(3, 3), Point(3, 3));
    DistZero(r, Point(3, 3));
  }
}
