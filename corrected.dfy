/**
 * The node insertion as evidently intended, next to the one written in
 * src/lib.rs:124-217, with the inputs that tell them apart.
 *
 * As written, three things lose or refuse handles:
 *  - a full leaf splits and hands back its old handles, but not the one
 *    being inserted (src/lib.rs:140);
 *  - an internal node throws away what its child hands back, so a split
 *    below the root loses the handles it drained (src/lib.rs:148-161);
 *  - `split` gives the top-right child a zero-width region and stores it
 *    at index 1, while routing sends bottom-left points to index 1 and
 *    top-right points to index 2 (src/lib.rs:182-190, 209-214, 145-159),
 *    so every point of those two quadrants is refused after a split.
 *
 * Here a split stores [top-left, bottom-left, top-right, bottom-right] with
 * the top-right region spanning the right half, a full leaf hands back its
 * handles together with the new one, and an internal node passes its child's
 * list up. Nothing is then lost, and an in-bounds insertion never fails.
 */
module Corrected {
  import opened Wrappers
  import opened Geometry
  import opened SortedVec
  import QuadTreeInner
  import opened QuadTreeInnerProps

  type Node = QuadTreeInner.Node

  /** The region of child `i` that routing expects: the quadrant `Route` picks for its points. */
  function Quadrant(n: Node, i: nat): (corners: (Point, Point))
    requires i < 4
  {
    var m := QuadTreeInner.Mid(n);
    if i == 0 then (n.topLeft, m)
    else if i == 1 then (Point(n.topLeft.x, m.y), Point(m.x, n.botRight.y))
    else if i == 2 then (Point(m.x, n.topLeft.y), Point(n.botRight.x, m.y))
    else (m, n.botRight)
  }

  /** Every in-bounds point lies in the quadrant it is routed to. */
  lemma RouteInQuadrant(n: Node, pos: Point)
    requires QuadTreeInner.InBoundary(n, pos)
    ensures var (tl, br) := Quadrant(n, QuadTreeInner.Route(n, pos));
      tl.x <= pos.x <= br.x && tl.y <= pos.y <= br.y
  {
  }

  /** Each child's region is the quadrant routing sends points to, all the way down. */
  ghost predicate Tiled(n: Node)
  {
    match n.quads
    case None => true
    case Some(qs) =>
      && TiledChild(n, qs.q0, 0) && TiledChild(n, qs.q1, 1)
      && TiledChild(n, qs.q2, 2) && TiledChild(n, qs.q3, 3)
      && Tiled(qs.q0) && Tiled(qs.q1) && Tiled(qs.q2) && Tiled(qs.q3)
  }

  /** Child `c` at index `i` of `n` covers the quadrant routing sends there. */
  predicate TiledChild(n: Node, c: Node, i: nat)
    requires i < 4
  {
    (c.topLeft, c.botRight) == Quadrant(n, i)
  }

  /** `split` with each child at the index routing uses and the right top-right region. */
  function Split(n: Node): (r: (Node, seq<nat>))
    ensures r.1 == n.nodes
    ensures QuadTreeInner.Handles(r.0) == [] && QuadTreeInner.SameFrame(n, r.0)
    ensures r.0.quads.Some? && Tiled(r.0)
    ensures forall i :: 0 <= i < 4 ==> r.0.quads.value.At(i).quads.None?
  {
    var m := QuadTreeInner.Mid(n);
    var children := QuadTreeInner.Quads(
      QuadTreeInner.New(n.maxNodes, n.minSize, Quadrant(n, 0).0, Quadrant(n, 0).1),
      QuadTreeInner.New(n.maxNodes, n.minSize, Quadrant(n, 1).0, Quadrant(n, 1).1),
      QuadTreeInner.New(n.maxNodes, n.minSize, Quadrant(n, 2).0, Quadrant(n, 2).1),
      QuadTreeInner.New(n.maxNodes, n.minSize, Quadrant(n, 3).0, Quadrant(n, 3).1));
    (n.(nodes := [], quads := Some(children)), n.nodes)
  }

  /**
   * `insert` as intended: a full leaf splits and hands back its handles and
   * the new one; an internal node passes its child's answer up.
   */
  function Insert(n: Node, pos: Point, h: nat): (r: (Node, Result<seq<nat>>))
    ensures !QuadTreeInner.InBoundary(n, pos) ==> r.1.Err?
    ensures r.1.Err? ==> r.0 == n
    ensures QuadTreeInner.SameFrame(n, r.0)
  {
    if !QuadTreeInner.InBoundary(n, pos) then (n, Err)
    else
      match n.quads
      case None =>
        if QuadTreeInner.HasRoom(n) then (n.(nodes := InsertSorted(n.nodes, h)), Ok([]))
        else
          var (split, drained) := Split(n);
          (split, Ok(drained + [h]))
      case Some(qs) =>
        var i := QuadTreeInner.Route(n, pos);
        var (child, res) := Insert(qs.At(i), pos, h);
        (n.(quads := Some(qs.With(i, child))), res)
  }

  /** Nothing is lost: what the tree holds plus what it hands back is what it held plus `h`. */
  lemma {:induction false} InsertConserves(n: Node, pos: Point, h: nat)
    ensures var (n', res) := Insert(n, pos, h);
      res.Ok? ==> multiset(QuadTreeInner.Handles(n')) + multiset(res.value)
                  == multiset(QuadTreeInner.Handles(n)) + multiset{h}
  {
    if QuadTreeInner.InBoundary(n, pos) {
      match n.quads
      case None =>
        if QuadTreeInner.HasRoom(n) {
          assert QuadTreeInner.Handles(Insert(n, pos, h).0) == InsertSorted(n.nodes, h);
        } else {
          assert multiset(n.nodes + [h]) == multiset(n.nodes) + multiset{h};
        }
      case Some(qs) =>
        var i := QuadTreeInner.Route(n, pos);
        InsertConserves(qs.At(i), pos, h);
        var (c, res) := Insert(qs.At(i), pos, h);
        if res.Ok? {
          HandlesWith(n, qs, i, c);
          ChildHandles(n, qs, i);
          ReplaceConserves(multiset(QuadTreeInner.Handles(n)), multiset(QuadTreeInner.Handles(qs.At(i))),
            multiset(QuadTreeInner.Handles(c)), multiset(res.value), h);
        }
    }
  }

  /** Multiset bookkeeping for swapping a child whose handles plus `p` grew by one `h`. */
  lemma ReplaceConserves(a: multiset<nat>, x: multiset<nat>, y: multiset<nat>, p: multiset<nat>, h: nat)
    requires x <= a && y + p == x + multiset{h}
    ensures a - x + y + p == a + multiset{h}
  {
    forall e ensures (a - x + y + p)[e] == (a + multiset{h})[e] {
      assert (y + p)[e] == (x + multiset{h})[e];
    }
  }

  /** On a tiled tree an in-bounds insertion always succeeds, and the tree stays tiled. */
  lemma {:induction false} InsertTiled(n: Node, pos: Point, h: nat)
    requires Tiled(n) && QuadTreeInner.InBoundary(n, pos)
    ensures Insert(n, pos, h).1.Ok? && Tiled(Insert(n, pos, h).0)
  {
    match n.quads
    case None =>
    case Some(qs) =>
      var i := QuadTreeInner.Route(n, pos);
      RouteInQuadrant(n, pos);
      InsertTiled(qs.At(i), pos, h);
      var c := Insert(qs.At(i), pos, h).0;
      var n' := n.(quads := Some(qs.With(i, c)));
      assert Insert(n, pos, h).0 == n';
      RouteFrame(n', n, pos);
      assert QuadTreeInner.Mid(n') == QuadTreeInner.Mid(n);
      forall j | 0 <= j < 4 ensures Quadrant(n', j) == Quadrant(n, j) {
      }
  }

  /** The result of running the corrected worklist. */
  datatype Outcome = Settled(tree: Node) | Refused | OutOfFuel

  /**
   * The worklist of `insert` and `reinsert` over the corrected node insertion:
   * pop the last handle, insert it at its item's position, append what comes
   * back. With nested splits handing handles back, the list can grow;
   * coincident points with `min_size <= 0` would split without end, so
   * `fuel` bounds the number of turns.
   */
  function Reroute(t: Node, work: seq<nat>, position: nat -> Point, fuel: nat): (o: Outcome)
    ensures o.Settled? ==> QuadTreeInner.SameFrame(t, o.tree)
    decreases fuel
  {
    if work == [] then Settled(t)
    else if fuel == 0 then OutOfFuel
    else
      if Insert(t, position(work[|work| - 1]), work[|work| - 1]).1.Err? then Refused
      else Reroute(Next(t, work, position).0, Next(t, work, position).1, position, fuel - 1)
  }

  /** A settled worklist holds exactly the tree's handles and every handle that was pending. */
  lemma {:induction false} RerouteConserves(t: Node, work: seq<nat>, position: nat -> Point, fuel: nat)
    ensures var o := Reroute(t, work, position, fuel);
      o.Settled? ==> multiset(QuadTreeInner.Handles(o.tree)) == multiset(QuadTreeInner.Handles(t)) + multiset(work)
    decreases fuel
  {
    if work != [] && fuel != 0 {
      var id := work[|work| - 1];
      var rest := work[..|work| - 1];
      assert work == rest + [id];
      var (t', res) := Insert(t, position(id), id);
      InsertConserves(t, position(id), id);
      if res.Ok? {
        RerouteConserves(t', rest + res.value, position, fuel - 1);
        var o := Reroute(t', rest + res.value, position, fuel - 1);
        if o.Settled? {
          assert multiset(rest + res.value) == multiset(rest) + multiset(res.value);
          assert multiset(work) == multiset(rest) + multiset{id};
          Regroup(multiset(QuadTreeInner.Handles(o.tree)), multiset(QuadTreeInner.Handles(t')),
            multiset(rest), multiset(res.value), multiset(QuadTreeInner.Handles(t)), id);
        }
      }
    }
  }

  /** Multiset bookkeeping for one turn: the popped handle is traded for what comes back. */
  lemma Regroup(final: multiset<nat>, next: multiset<nat>, rest: multiset<nat>, back: multiset<nat>, start: multiset<nat>, id: nat)
    requires final == next + (rest + back) && next + back == start + multiset{id}
    ensures final == start + (rest + multiset{id})
  {
    forall e ensures final[e] == (start + (rest + multiset{id}))[e] {
      assert (next + back)[e] == (start + multiset{id})[e];
    }
  }

  /**
   * On a tiled tree, with every item inside the root's region, the corrected
   * worklist is never refused: it settles or runs out of fuel.
   */
  lemma {:induction false} RerouteNeverRefused(t: Node, work: seq<nat>, position: nat -> Point, fuel: nat)
    requires Ready(t, position)
    ensures !Reroute(t, work, position, fuel).Refused?
    decreases fuel
  {
    if work != [] && fuel != 0 {
      TiledStep(t, work[|work| - 1], position);
      RerouteNeverRefused(Next(t, work, position).0, Next(t, work, position).1, position, fuel - 1);
    }
  }

  /** The tree and worklist after one successful turn. */
  function Next(t: Node, work: seq<nat>, position: nat -> Point): (Node, seq<nat>)
    requires work != [] && Insert(t, position(work[|work| - 1]), work[|work| - 1]).1.Ok?
  {
    var step := Insert(t, position(work[|work| - 1]), work[|work| - 1]);
    (step.0, work[..|work| - 1] + step.1.value)
  }

  /** The tree is tiled and every item's position lies inside its region. */
  ghost predicate Ready(t: Node, position: nat -> Point)
  {
    Tiled(t) && AllInside(t, position)
  }

  /** Every item's position lies inside the root's region. */
  ghost predicate AllInside(t: Node, position: nat -> Point)
  {
    forall h :: QuadTreeInner.InBoundary(t, position(h))
  }

  /** One corrected insertion on a tiled tree holding every item's position succeeds and keeps both. */
  lemma TiledStep(t: Node, id: nat, position: nat -> Point)
    requires Ready(t, position)
    ensures Insert(t, position(id), id).1.Ok? && Ready(Insert(t, position(id), id).0, position)
  {
    InsertTiled(t, position(id), id);
  }

  // ---------------------------------------------------------------------------
  // The inputs that show the code as written losing or refusing handles
  // ---------------------------------------------------------------------------

  /** The unit square with room for one handle and `min_size` 0.01. */
  function UnitLeaf(): Node
  {
    QuadTreeInner.New(1, 0.01, Point(0.0, 0.0), Point(1.0, 1.0))
  }

  /** The top-left quarter of the unit square, empty: the first child of either split. */
  function HalfLeaf(): Node
  {
    QuadTreeInner.New(1, 0.01, Point(0.0, 0.0), Point(0.5, 0.5))
  }

  /** An empty leaf with room takes a handle the same way in both versions. */
  lemma LeafTakes(n: Node, pos: Point, h: nat)
    requires n.quads.None? && n.nodes == [] && 0 < n.maxNodes && QuadTreeInner.InBoundary(n, pos)
    ensures QuadTreeInner.Insert(n, pos, h) == (n.(nodes := [h]), Ok([]))
    ensures Insert(n, pos, h) == (n.(nodes := [h]), Ok([]))
  {
    assert InsertSorted([], h) == [h];
  }

  /** A full leaf of one handle `g`: as written it answers `[g]`, corrected `[g, h]`. */
  lemma FullLeafSplits(n: Node, pos: Point, g: nat, h: nat)
    requires n.quads.None? && n.nodes == [g] && n.maxNodes == 1 && QuadTreeInner.InBoundary(n, pos)
    requires n.minSize < Abs(n.topLeft.x - n.botRight.x)
    requires n.minSize < Abs(n.topLeft.y - n.botRight.y)
    ensures QuadTreeInner.Insert(n, pos, h) == (QuadTreeInner.Split(n).0, Ok([g]))
    ensures Insert(n, pos, h) == (Split(n).0, Ok([g, h]))
  {
    assert !QuadTreeInner.HasRoom(n);
    assert [g] + [h] == [g, h];
  }

  /** The root after the split as written: its first child is the empty top-left quarter. */
  lemma WrittenRoot()
    ensures var root := QuadTreeInner.Split(UnitLeaf()).0;
      && root.quads == Some(root.quads.value.(q0 := HalfLeaf()))
      && QuadTreeInner.Route(root, Point(0.1, 0.1)) == 0
      && QuadTreeInner.Route(root, Point(0.2, 0.2)) == 0
      && QuadTreeInner.Handles(root.quads.value.q1) == []
      && QuadTreeInner.Handles(root.quads.value.q2) == []
      && QuadTreeInner.Handles(root.quads.value.q3) == []
  {
    var root := QuadTreeInner.Split(UnitLeaf()).0;
    assert QuadTreeInner.Mid(UnitLeaf()) == Point(0.5, 0.5);
    assert root.quads.value.At(0) == root.quads.value.q0;
    assert root.quads.value.At(1) == root.quads.value.q1;
    assert root.quads.value.At(2) == root.quads.value.q2;
    assert root.quads.value.At(3) == root.quads.value.q3;
  }

  /** The root after the corrected split: its first child is the same empty quarter. */
  lemma CorrectedRoot()
    ensures var root := Split(UnitLeaf()).0;
      && root.quads == Some(root.quads.value.(q0 := HalfLeaf()))
      && QuadTreeInner.Route(root, Point(0.1, 0.1)) == 0
      && QuadTreeInner.Route(root, Point(0.2, 0.2)) == 0
  {
    assert QuadTreeInner.Mid(UnitLeaf()) == Point(0.5, 0.5);
  }

  /**
   * A at (0.1, 0.1) under handle 0, then B at (0.2, 0.2) under handle 1, as
   * `QuadTree::insert` drives it: the second insertion splits the root and
   * hands back only A, whose reinsertion lands in the top-left child. B is
   * in no node, although `insert` returned `Ok`. The corrected insertion
   * hands back both.
   */
  lemma SplitDropsHandle()
    ensures var t1 := QuadTreeInner.Insert(UnitLeaf(), Point(0.1, 0.1), 0);
      var t2 := QuadTreeInner.Insert(t1.0, Point(0.2, 0.2), 1);
      var t3 := QuadTreeInner.Insert(t2.0, Point(0.1, 0.1), 0);
      && t1.1 == Ok([]) && t2.1 == Ok([0]) && t3.1 == Ok([])
      && QuadTreeInner.Handles(t3.0) == [0]
    ensures Insert(Insert(UnitLeaf(), Point(0.1, 0.1), 0).0, Point(0.2, 0.2), 1).1 == Ok([0, 1])
  {
    LeafTakes(UnitLeaf(), Point(0.1, 0.1), 0);
    var full := UnitLeaf().(nodes := [0]);
    FullLeafSplits(full, Point(0.2, 0.2), 0, 1);
    assert QuadTreeInner.Split(full).0 == QuadTreeInner.Split(UnitLeaf()).0;
    WrittenTakesFirst();
  }

  /** As written, A goes into the top-left child of the split root, and that is all the tree holds. */
  lemma WrittenTakesFirst()
    ensures var root := QuadTreeInner.Split(UnitLeaf()).0;
      var t := QuadTreeInner.Insert(root, Point(0.1, 0.1), 0);
      && t == (root.(quads := Some(root.quads.value.(q0 := HalfLeaf().(nodes := [0])))), Ok([]))
      && QuadTreeInner.Handles(t.0) == [0]
  {
    var root := QuadTreeInner.Split(UnitLeaf()).0;
    WrittenRoot();
    LeafTakes(HalfLeaf(), Point(0.1, 0.1), 0);
    var qs := root.quads.value;
    var t0 := root.(quads := Some(qs.(q0 := HalfLeaf().(nodes := [0]))));
    assert QuadTreeInner.Handles(t0) == [] + [0] + [] + [] + [];
  }

  /**
   * After the root has split, two handles for the same quadrant: the second
   * splits the top-left child, which hands back the first, and the root
   * answers `Ok([])`. The tree then holds nothing. The corrected insertion
   * passes the child's list up.
   */
  lemma NestedSplitLoses()
    ensures var root := QuadTreeInner.Split(UnitLeaf()).0;
      var t1 := QuadTreeInner.Insert(root, Point(0.1, 0.1), 0);
      var t2 := QuadTreeInner.Insert(t1.0, Point(0.2, 0.2), 1);
      && QuadTreeInner.Handles(t1.0) == [0] && t2.1 == Ok([]) && QuadTreeInner.Handles(t2.0) == []
    ensures var root := Split(UnitLeaf()).0;
      var t1 := Insert(root, Point(0.1, 0.1), 0);
      Insert(t1.0, Point(0.2, 0.2), 1).1 == Ok([0, 1])
  {
    WrittenTakesFirst();
    WrittenNestedSplit();
    CorrectedNestedSplit();
  }

  /** As written, B splits the top-left child of the tree holding A, and the root answers `Ok([])`. */
  lemma WrittenNestedSplit()
    ensures var root := QuadTreeInner.Split(UnitLeaf()).0;
      var t1 := root.(quads := Some(root.quads.value.(q0 := HalfLeaf().(nodes := [0]))));
      var t2 := QuadTreeInner.Insert(t1, Point(0.2, 0.2), 1);
      t2.1 == Ok([]) && QuadTreeInner.Handles(t2.0) == []
  {
    var root := QuadTreeInner.Split(UnitLeaf()).0;
    WrittenRoot();
    var qs := root.quads.value;
    var t1 := root.(quads := Some(qs.(q0 := HalfLeaf().(nodes := [0]))));
    assert QuadTreeInner.Route(t1, Point(0.2, 0.2)) == 0;
    var c := HalfLeaf().(nodes := [0]);
    assert QuadTreeInner.Mid(c) == Point(0.25, 0.25);
    FullLeafSplits(c, Point(0.2, 0.2), 0, 1);
    var t2 := t1.(quads := Some(qs.(q0 := QuadTreeInner.Split(c).0)));
    assert QuadTreeInner.Insert(t1, Point(0.2, 0.2), 1) == (t2, Ok([]));
    assert QuadTreeInner.Handles(t2) == [] + [] + [] + [] + [];
  }

  /** Corrected, the same two insertions leave A and B on the list the root hands back. */
  lemma CorrectedNestedSplit()
    ensures var root := Split(UnitLeaf()).0;
      var t1 := Insert(root, Point(0.1, 0.1), 0);
      Insert(t1.0, Point(0.2, 0.2), 1).1 == Ok([0, 1])
  {
    var root := Split(UnitLeaf()).0;
    CorrectedRoot();
    var qs := root.quads.value;
    LeafTakes(HalfLeaf(), Point(0.1, 0.1), 0);
    var c := HalfLeaf().(nodes := [0]);
    var t1 := root.(quads := Some(qs.(q0 := c)));
    assert Insert(root, Point(0.1, 0.1), 0) == (t1, Ok([]));
    assert QuadTreeInner.Route(t1, Point(0.2, 0.2)) == 0;
    FullLeafSplits(c, Point(0.2, 0.2), 0, 1);
  }

  /**
   * After a split, (0.25, 0.75) lies in the region but is routed to index 1,
   * the zero-width top-right child, and is refused. The corrected split
   * stores the bottom-left child there and the point is taken.
   */
  lemma SplitRefusesBottomLeft()
    ensures var root := QuadTreeInner.Split(UnitLeaf()).0;
      QuadTreeInner.InBoundary(root, Point(0.25, 0.75))
      && QuadTreeInner.Insert(root, Point(0.25, 0.75), 0).1.Err?
    ensures Insert(Split(UnitLeaf()).0, Point(0.25, 0.75), 0).1 == Ok([])
  {
    var root := QuadTreeInner.Split(UnitLeaf()).0;
    assert QuadTreeInner.Route(root, Point(0.25, 0.75)) == 1;
    var root' := Split(UnitLeaf()).0;
    assert QuadTreeInner.Route(root', Point(0.25, 0.75)) == 1;
    InsertTiled(root', Point(0.25, 0.75), 0);
  }
}
