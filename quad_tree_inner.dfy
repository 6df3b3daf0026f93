/**
 * `QuadTreeInner` (src/lib.rs:99-305): the recursive node. A node owns its
 * region, its configuration, a sorted list of handles and, once split, four
 * exclusively owned children. The Rust methods mutate the node in place;
 * since nothing else can reference a boxed child, each one is modelled as a
 * function that returns the updated node together with the method's result.
 */
module QuadTreeInner {
  import opened Wrappers
  import opened Geometry
  import opened SortedVec

  /** The fields of the Rust struct: `nodes`, `max_nodes`, `min_size`, `top_left`, `bot_right`, `quads`. */
  datatype Node = Node(
    nodes: seq<nat>,
    maxNodes: nat,
    minSize: real,
    topLeft: Point,
    botRight: Point,
    quads: Option<Quads>)

  /**
   * `Box<[Self; 4]>`. `split` fills it as [top-left, top-right, bottom-left,
   * bottom-right]; routing reads index 1 as bottom-left and 2 as top-right.
   */
  datatype Quads = Quads(q0: Node, q1: Node, q2: Node, q3: Node) {

    function At(i: nat): (c: Node)
      requires i < 4
      ensures c == q0 || c == q1 || c == q2 || c == q3
    {
      if i == 0 then q0 else if i == 1 then q1 else if i == 2 then q2 else q3
    }

    /** The array with child `i` replaced by `c`. */
    function With(i: nat, c: Node): (r: Quads)
      requires i < 4
      ensures r.At(i) == c
      ensures forall j :: 0 <= j < 4 && j != i ==> r.At(j) == At(j)
      ensures c == At(i) ==> r == this
    {
      if i == 0 then this.(q0 := c)
      else if i == 1 then this.(q1 := c)
      else if i == 2 then this.(q2 := c)
      else this.(q3 := c)
    }
  }

  // ---------------------------------------------------------------------------
  // Views used by the contracts
  // ---------------------------------------------------------------------------

  /** Every handle the node and its descendants hold, children in index order. */
  function Handles(n: Node): seq<nat>
  {
    match n.quads
    case None => n.nodes
    case Some(qs) =>
      n.nodes + Handles(qs.q0) + Handles(qs.q1) + Handles(qs.q2) + Handles(qs.q3)
  }

  /** Number of nodes in the tree rooted at `n`. */
  function Count(n: Node): nat
  {
    match n.quads
    case None => 1
    case Some(qs) => 1 + Count(qs.At(0)) + Count(qs.At(1)) + Count(qs.At(2)) + Count(qs.At(3))
  }

  /** Region, thresholds and the leaf/internal state are the same, or the node went from leaf to internal. */
  predicate SameFrame(a: Node, b: Node)
  {
    && a.maxNodes == b.maxNodes && a.minSize == b.minSize
    && a.topLeft == b.topLeft && a.botRight == b.botRight
    && (a.quads.Some? ==> b.quads.Some?)
  }

  /** Every node's handle list is ascending. */
  ghost predicate AllSorted(n: Node)
  {
    && Sorted(n.nodes)
    && match n.quads
       case None => true
       case Some(qs) => forall i :: 0 <= i < 4 ==> AllSorted(qs.At(i))
  }

  /**
   * A leaf holds at most `max_nodes` handles unless an edge of its region is
   * at most `min_size`; an internal node holds none of its own.
   */
  ghost predicate WithinCapacity(n: Node)
  {
    match n.quads
    case None => |n.nodes| <= n.maxNodes || SmallRegion(n)
    case Some(qs) => n.nodes == [] && forall i :: 0 <= i < 4 ==> WithinCapacity(qs.At(i))
  }

  ghost predicate Valid(n: Node)
  {
    AllSorted(n) && WithinCapacity(n)
  }

  // ---------------------------------------------------------------------------
  // Geometry of a node
  // ---------------------------------------------------------------------------

  /**
   * `in_boundary` (src/lib.rs:164-169): the closed rectangle test. A point is
   * inside exactly when the clamp of `contains_circle` leaves it where it is.
   */
  function InBoundary(n: Node, pos: Point): (b: bool)
    ensures b <==> ClampInto(n, pos) == pos
  {
    && pos.x >= n.topLeft.x && pos.x <= n.botRight.x
    && pos.y >= n.topLeft.y && pos.y <= n.botRight.y
  }

  /** The midpoint `((tl + br) / 2.0)` used by `split`, `insert` and `remove`. */
  function Mid(n: Node): Point
  {
    Point((n.topLeft.x + n.botRight.x) / 2.0, (n.topLeft.y + n.botRight.y) / 2.0)
  }

  /**
   * One edge of the region is no longer than `min_size`, so the leaf never
   * splits (src/lib.rs:131-132). A zero-width region, such as the top-right
   * child `split` builds, is small unless `min_size` is negative; a negative
   * `min_size` makes no region small.
   */
  function SmallRegion(n: Node): (b: bool)
    ensures 0.0 <= n.minSize && (n.topLeft.x == n.botRight.x || n.topLeft.y == n.botRight.y) ==> b
    ensures n.minSize < 0.0 ==> !b
  {
    Abs(n.topLeft.x - n.botRight.x) <= n.minSize || Abs(n.topLeft.y - n.botRight.y) <= n.minSize
  }

  /**
   * A leaf takes another handle without splitting (src/lib.rs:130-132): a
   * small region always does, whatever it holds; otherwise only below
   * `max_nodes`, so a leaf that already holds `max_nodes` handles splits.
   */
  function HasRoom(n: Node): (b: bool)
    ensures SmallRegion(n) ==> b
    ensures !SmallRegion(n) ==> (b <==> |n.nodes| < n.maxNodes)
  {
    |n.nodes| < n.maxNodes || SmallRegion(n)
  }

  /**
   * The child index `insert` and `remove` pick (src/lib.rs:145-159,
   * 265-279): 0 for `x <= midX, y <= midY`, 1 for `x <= midX, y > midY`,
   * 2 for `x > midX, y <= midY`, 3 otherwise.
   */
  function Route(n: Node, pos: Point): (i: nat)
    ensures i < 4
    ensures (i == 0 || i == 1) <==> pos.x <= Mid(n).x
    ensures (i == 0 || i == 2) <==> pos.y <= Mid(n).y
  {
    var m := Mid(n);
    if m.x >= pos.x then (if m.y >= pos.y then 0 else 1)
    else if m.y >= pos.y then 2
    else 3
  }

  /** The nearest point of the region to `pos`, as `contains_circle` computes it. */
  function ClampInto(n: Node, pos: Point): Point
  {
    Point(Clamp(pos.x, n.topLeft.x, n.botRight.x), Clamp(pos.y, n.topLeft.y, n.botRight.y))
  }

  /**
   * `contains_circle` (src/lib.rs:234-249): the clamped point lies within `r`
   * of `pos`. A centre inside the region passes for every radius.
   */
  function ContainsCircle(n: Node, pos: Point, r: real): (b: bool)
    ensures InBoundary(n, pos) ==> b
  {
    SqNonNegative(r);
    Dist2(ClampInto(n, pos), pos) <= Sq(r)
  }

  // ---------------------------------------------------------------------------
  // Operations
  // ---------------------------------------------------------------------------

  /** `QuadTreeInner::new` (src/lib.rs:113-122): an empty leaf. */
  function New(maxNodes: nat, minSize: real, topLeft: Point, botRight: Point): (n: Node)
    ensures n.quads.None? && Handles(n) == [] && Valid(n)
    ensures n.maxNodes == maxNodes && n.minSize == minSize
    ensures n.topLeft == topLeft && n.botRight == botRight
  {
    Node([], maxNodes, minSize, topLeft, botRight, None)
  }

  /**
   * `split` (src/lib.rs:171-217): four empty children with the parent's
   * thresholds, in the order [top-left, top-right, bottom-left, bottom-right];
   * the node's own list is drained and returned.
   */
  function Split(n: Node): (r: (Node, seq<nat>))
    ensures r.1 == n.nodes
    ensures r.0.nodes == [] && r.0.quads.Some?
    ensures SameFrame(n, r.0)
    ensures forall i :: 0 <= i < 4 ==>
      var c := r.0.quads.value.At(i);
      c.nodes == [] && c.quads.None? && c.maxNodes == n.maxNodes && c.minSize == n.minSize
    ensures Handles(r.0) == []
  {
    var m := Mid(n);
    var topLeftQuad := New(n.maxNodes, n.minSize, n.topLeft, m);
    var topRightQuad := New(n.maxNodes, n.minSize, Point(m.x, n.topLeft.y), m);
    var botLeftQuad := New(n.maxNodes, n.minSize, Point(n.topLeft.x, m.y), Point(m.x, n.botRight.y));
    var botRightQuad := New(n.maxNodes, n.minSize, m, n.botRight);
    (n.(nodes := [], quads := Some(Quads(topLeftQuad, topRightQuad, botLeftQuad, botRightQuad))), n.nodes)
  }

  /**
   * `insert` (src/lib.rs:124-162). Returns the updated node and either the
   * handles a split left behind or the error for a position outside the
   * region. A leaf with room stores the handle in sorted position; a full
   * leaf splits and returns its former handles, and the handle being inserted
   * is neither stored nor returned. An internal node passes the call to the
   * routed child, keeps the child as the call left it, and answers the
   * child's error or `Ok([])`, whatever list the child returned.
   */
  function Insert(n: Node, pos: Point, h: nat): (r: (Node, Result<seq<nat>>))
    ensures !InBoundary(n, pos) ==> r.1.Err?
    ensures r.1.Err? ==> r.0 == n
    ensures SameFrame(n, r.0)
    ensures r.1.Ok? && r.1.value != [] ==> n.quads.None? && r.0.quads.Some? && r.1.value == n.nodes
    ensures n.quads.Some? ==> r.0.quads.Some?
  {
    if !InBoundary(n, pos) then (n, Err)
    else
      match n.quads
      case None =>
        if HasRoom(n) then (n.(nodes := InsertSorted(n.nodes, h)), Ok([]))
        else
          var (split, drained) := Split(n);
          (split, Ok(drained))
      case Some(qs) =>
        var i := Route(n, pos);
        var (child, res) := Insert(qs.At(i), pos, h);
        (n.(quads := Some(qs.With(i, child))), if res.Err? then Err else Ok([]))
  }

  /**
   * `remove` (src/lib.rs:251-284). Outside the region: `None`. At a leaf:
   * binary search, and on a match the handle is taken out and returned. At an
   * internal node: the same routing as `insert`.
   */
  function Remove(n: Node, h: nat, pos: Point): (r: (Node, Option<nat>))
    ensures r.1.None? ==> r.0 == n
    ensures r.1.Some? ==> r.1.value == h && InBoundary(n, pos)
    ensures SameFrame(n, r.0) && SameFrame(r.0, n)
  {
    if !InBoundary(n, pos) then (n, None)
    else
      match n.quads
      case None =>
        (match BinarySearch(n.nodes, h)
         case Found(k) => (n.(nodes := RemoveAt(n.nodes, k)), Some(n.nodes[k]))
         case NotFound(_) => (n, None))
      case Some(qs) =>
        var i := Route(n, pos);
        var (child, res) := Remove(qs.At(i), h, pos);
        (n.(quads := Some(qs.With(i, child))), res)
  }

  /**
   * `search_radius` (src/lib.rs:219-232): a leaf answers its whole list; an
   * internal node concatenates, in child order, the answers of the children
   * whose region passes `contains_circle`. Every answer is a handle the tree
   * holds.
   */
  function SearchRadius(n: Node, pos: Point, r: real): (res: seq<nat>)
    ensures multiset(res) <= multiset(Handles(n))
    ensures n.quads.None? ==> res == n.nodes
    decreases n, 0
  {
    match n.quads
    case None => n.nodes
    case Some(qs) =>
      SearchChild(qs.At(0), pos, r) + SearchChild(qs.At(1), pos, r)
      + SearchChild(qs.At(2), pos, r) + SearchChild(qs.At(3), pos, r)
  }

  /** One step of the `for_each` in `search_radius`: a child's answer if its region meets the circle. */
  function SearchChild(c: Node, pos: Point, r: real): (res: seq<nat>)
    ensures multiset(res) <= multiset(Handles(c))
    ensures !ContainsCircle(c, pos, r) ==> res == []
    decreases c, 1
  {
    if ContainsCircle(c, pos, r) then SearchRadius(c, pos, r) else []
  }

  /** The four edges `lines` emits for one node (src/lib.rs:287-292). */
  function Edges(n: Node): seq<(Point, Point)>
  {
    [ (n.topLeft, Point(n.topLeft.x, n.botRight.y)),
      (n.topLeft, Point(n.botRight.x, n.topLeft.y)),
      (n.botRight, Point(n.topLeft.x, n.botRight.y)),
      (n.botRight, Point(n.botRight.x, n.topLeft.y)) ]
  }

  /** `lines` (src/lib.rs:286-304): the node's four edges, then each child's lines in order. */
  function Lines(n: Node): (ls: seq<(Point, Point)>)
    ensures |ls| == 4 * Count(n)
    ensures ls[..4] == Edges(n)
  {
    match n.quads
    case None => Edges(n)
    case Some(qs) =>
      Edges(n) + Lines(qs.At(0)) + Lines(qs.At(1)) + Lines(qs.At(2)) + Lines(qs.At(3))
  }
}
