/**
 * What the node operations of `QuadTreeInner` guarantee, and what they do
 * not: invariants that `insert` and `remove` keep, where a handle ends up,
 * the insert/remove round trip, and the completeness of the region-pruned
 * radius search.
 */
module QuadTreeInnerProps {
  import opened Wrappers
  import opened Geometry
  import opened SortedVec
  import opened QuadTreeInner

  /** Routing `pos` from `n` stays inside every region on the way and ends at a leaf with room. */
  ghost predicate PlacesAt(n: Node, pos: Point)
  {
    && InBoundary(n, pos)
    && match n.quads
       case None => HasRoom(n)
       case Some(qs) => PlacesAt(qs.At(Route(n, pos)), pos)
  }

  /** Routing `pos` from `n` stays inside every region on the way and ends at a leaf that holds `h`. */
  ghost predicate Holds(n: Node, h: nat, pos: Point)
  {
    && InBoundary(n, pos)
    && match n.quads
       case None => h in n.nodes
       case Some(qs) => Holds(qs.At(Route(n, pos)), h, pos)
  }

  /** The multiset of an internal node's handles, child by child. */
  lemma HandlesOfInternal(n: Node, qs: Quads)
    requires n.quads == Some(qs)
    ensures multiset(Handles(n)) == multiset(n.nodes)
      + multiset(Handles(qs.q0)) + multiset(Handles(qs.q1)) + multiset(Handles(qs.q2)) + multiset(Handles(qs.q3))
  {
    var s01 := n.nodes + Handles(qs.q0);
    var s012 := s01 + Handles(qs.q1);
    var s0123 := s012 + Handles(qs.q2);
    assert Handles(n) == s0123 + Handles(qs.q3);
    assert multiset(s01) == multiset(n.nodes) + multiset(Handles(qs.q0));
    assert multiset(s012) == multiset(s01) + multiset(Handles(qs.q1));
    assert multiset(s0123) == multiset(s012) + multiset(Handles(qs.q2));
  }

  /** Multiset bookkeeping for replacing a part `x` of `a` by `y`. */
  lemma ReplacePart(a: multiset<nat>, x: multiset<nat>, y: multiset<nat>, z: multiset<nat>)
    requires x <= a && y <= x + z
    ensures a - x + y <= a + z
  {
    forall e ensures (a - x + y)[e] <= (a + z)[e] {
    }
  }

  /** Multiset bookkeeping for replacing a part `x` of `a` by exactly `x + z`. */
  lemma ReplacePartExact(a: multiset<nat>, x: multiset<nat>, z: multiset<nat>)
    requires x <= a
    ensures a - x + (x + z) == a + z
  {
    forall e ensures (a - x + (x + z))[e] == (a + z)[e] {
    }
  }

  /** Multiset bookkeeping for replacing a part `x` of `a` by `x` less one `h`. */
  lemma ReplacePartLess(a: multiset<nat>, x: multiset<nat>, h: nat)
    requires x <= a && h in x
    ensures a - x + (x - multiset{h}) == a - multiset{h}
  {
    forall e ensures (a - x + (x - multiset{h}))[e] == (a - multiset{h})[e] {
    }
  }

  /** The handles a child holds are among its parent's. */
  lemma ChildHandles(n: Node, qs: Quads, i: nat)
    requires n.quads == Some(qs) && i < 4
    ensures multiset(Handles(qs.At(i))) <= multiset(Handles(n))
  {
    HandlesOfInternal(n, qs);
  }

  /** Routing and the boundary test read only the region. */
  lemma RouteFrame(a: Node, b: Node, pos: Point)
    requires a.topLeft == b.topLeft && a.botRight == b.botRight
    ensures Route(a, pos) == Route(b, pos)
    ensures InBoundary(a, pos) <==> InBoundary(b, pos)
  {
    assert Mid(a) == Mid(b);
  }

  /** Replacing child `i` replaces its handles in the node's multiset of handles. */
  lemma HandlesWith(n: Node, qs: Quads, i: nat, c: Node)
    requires n.quads == Some(qs) && i < 4
    ensures multiset(Handles(n.(quads := Some(qs.With(i, c)))))
            == multiset(Handles(n)) - multiset(Handles(qs.At(i))) + multiset(Handles(c))
  {
    var w := qs.With(i, c);
    var n' := n.(quads := Some(w));
    HandlesOfInternal(n, qs);
    HandlesOfInternal(n', w);
    var m := multiset(n.nodes);
    var h0, h1, h2, h3 := multiset(Handles(qs.q0)), multiset(Handles(qs.q1)), multiset(Handles(qs.q2)), multiset(Handles(qs.q3));
    var hc := multiset(Handles(c));
    var rest;
    if i == 0 {
      assert w == Quads(c, qs.q1, qs.q2, qs.q3);
      rest := m + h1 + h2 + h3;
    } else if i == 1 {
      assert w == Quads(qs.q0, c, qs.q2, qs.q3);
      rest := m + h0 + h2 + h3;
    } else if i == 2 {
      assert w == Quads(qs.q0, qs.q1, c, qs.q3);
      rest := m + h0 + h1 + h3;
    } else {
      assert w == Quads(qs.q0, qs.q1, qs.q2, c);
      rest := m + h0 + h1 + h2;
    }
    assert multiset(Handles(n)) == rest + multiset(Handles(qs.At(i)));
    assert multiset(Handles(n')) == rest + hc;
    SwapPart(rest, multiset(Handles(qs.At(i))), hc);
  }

  /** Taking out a part that was just added and adding another in its place. */
  lemma SwapPart(rest: multiset<nat>, x: multiset<nat>, y: multiset<nat>)
    ensures rest + x - x + y == rest + y
  {
    forall e ensures (rest + x - x + y)[e] == (rest + y)[e] {
    }
  }

  /** `insert` keeps every handle list ascending (src/lib.rs:135-136). */
  lemma {:induction false} InsertKeepsSorted(n: Node, pos: Point, h: nat)
    requires AllSorted(n)
    ensures AllSorted(Insert(n, pos, h).0)
  {
    if InBoundary(n, pos) {
      match n.quads
      case None =>
      case Some(qs) =>
        var i := Route(n, pos);
        InsertKeepsSorted(qs.At(i), pos, h);
        var w := qs.With(i, Insert(qs.At(i), pos, h).0);
        assert forall j :: 0 <= j < 4 ==> AllSorted(w.At(j)) by {
          assert forall j :: 0 <= j < 4 && j != i ==> w.At(j) == qs.At(j);
        }
    }
  }

  /**
   * `insert` keeps every leaf at or below `max_nodes`, unless its region is
   * too small to split (src/lib.rs:130-141).
   */
  lemma {:induction false} InsertKeepsCapacity(n: Node, pos: Point, h: nat)
    requires WithinCapacity(n)
    ensures WithinCapacity(Insert(n, pos, h).0)
  {
    if InBoundary(n, pos) {
      match n.quads
      case None =>
      case Some(qs) =>
        var i := Route(n, pos);
        InsertKeepsCapacity(qs.At(i), pos, h);
        var w := qs.With(i, Insert(qs.At(i), pos, h).0);
        assert forall j :: 0 <= j < 4 ==> WithinCapacity(w.At(j)) by {
          assert forall j :: 0 <= j < 4 && j != i ==> w.At(j) == qs.At(j);
        }
    }
  }

  /**
   * `insert` never invents a handle: what the tree holds afterwards plus what
   * it hands back is contained in what it held before plus the new handle.
   */
  lemma {:induction false} InsertHandles(n: Node, pos: Point, h: nat)
    ensures var (n', res) := Insert(n, pos, h);
      multiset(Handles(n')) + (if res.Ok? then multiset(res.value) else multiset{})
      <= multiset(Handles(n)) + multiset{h}
  {
    if InBoundary(n, pos) {
      match n.quads
      case None =>
      case Some(qs) =>
        var i := Route(n, pos);
        InsertHandles(qs.At(i), pos, h);
        var (c, res) := Insert(qs.At(i), pos, h);
        if res.Ok? {
          HandlesWith(n, qs, i, c);
          ChildHandles(n, qs, i);
          ReplacePart(multiset(Handles(n)), multiset(Handles(qs.At(i))), multiset(Handles(c)), multiset{h});
        }
    }
  }

  /**
   * When routing reaches a leaf with room, `insert` answers `Ok([])`, the
   * tree gains exactly the handle, and routing for the same position finds
   * it there.
   */
  lemma {:induction false} InsertStores(n: Node, pos: Point, h: nat)
    requires PlacesAt(n, pos)
    ensures Insert(n, pos, h).1 == Ok([])
    ensures multiset(Handles(Insert(n, pos, h).0)) == multiset(Handles(n)) + multiset{h}
    ensures Holds(Insert(n, pos, h).0, h, pos)
  {
    match n.quads
    case None =>
      var n' := n.(nodes := InsertSorted(n.nodes, h));
      assert Insert(n, pos, h) == (n', Ok([]));
      assert h in multiset(n'.nodes);
      assert Holds(n', h, pos);
    case Some(qs) =>
      var i := Route(n, pos);
      InsertStores(qs.At(i), pos, h);
      var c := Insert(qs.At(i), pos, h).0;
      var n' := n.(quads := Some(qs.With(i, c)));
      assert Insert(n, pos, h) == (n', Ok([]));
      HandlesWith(n, qs, i, c);
      ChildHandles(n, qs, i);
      ReplacePartExact(multiset(Handles(n)), multiset(Handles(qs.At(i))), multiset{h});
      RouteFrame(n', n, pos);
      assert n'.quads.value.At(i) == c;
      assert InBoundary(n', pos);
      assert Holds(n', h, pos);
  }

  /**
   * When routing does not reach a leaf with room, the tree gains nothing:
   * the handle is dropped, whether by a boundary error or by a split, and a
   * split below the root also drops the handles it drained, since the
   * parent answers `Ok([])` (src/lib.rs:140, 148-161).
   */
  lemma {:induction false} InsertDrops(n: Node, pos: Point, h: nat)
    requires !PlacesAt(n, pos)
    ensures var (n', res) := Insert(n, pos, h);
      multiset(Handles(n')) + (if res.Ok? then multiset(res.value) else multiset{}) <= multiset(Handles(n))
  {
    if InBoundary(n, pos) {
      match n.quads
      case None =>
      case Some(qs) =>
        var i := Route(n, pos);
        InsertDrops(qs.At(i), pos, h);
        var (c, res) := Insert(qs.At(i), pos, h);
        if res.Ok? {
          HandlesWith(n, qs, i, c);
          ChildHandles(n, qs, i);
          ReplacePart(multiset(Handles(n)), multiset(Handles(qs.At(i))), multiset(Handles(c)), multiset{});
        }
    }
  }

  /**
   * Round trip (src/lib.rs:124-162, 251-279): when `insert` stores the
   * handle, an immediate `remove` at the same position returns it and gives
   * back the node exactly as it was.
   */
  lemma {:induction false} InsertThenRemove(n: Node, pos: Point, h: nat)
    requires AllSorted(n) && PlacesAt(n, pos)
    ensures Insert(n, pos, h).1 == Ok([])
    ensures Remove(Insert(n, pos, h).0, h, pos) == (n, Some(h))
  {
    InsertStores(n, pos, h);
    match n.quads
    case None =>
      RemoveUndoesInsert(n.nodes, h);
    case Some(qs) =>
      var i := Route(n, pos);
      InsertThenRemove(qs.At(i), pos, h);
      var c := Insert(qs.At(i), pos, h).0;
      var n' := n.(quads := Some(qs.With(i, c)));
      RouteFrame(n', n, pos);
      assert n'.quads.value.At(i) == c;
      assert qs.With(i, c).With(i, qs.At(i)) == qs;
  }

  /**
   * `remove` succeeds exactly when routing reaches a leaf holding the handle;
   * binary search needs the list sorted for this.
   */
  lemma {:induction false} RemoveFindsIffHolds(n: Node, h: nat, pos: Point)
    requires AllSorted(n)
    ensures Remove(n, h, pos).1.Some? <==> Holds(n, h, pos)
  {
    if InBoundary(n, pos) {
      match n.quads
      case None =>
      case Some(qs) =>
        var i := Route(n, pos);
        RemoveFindsIffHolds(qs.At(i), h, pos);
        assert Remove(n, h, pos).1 == Remove(qs.At(i), h, pos).1;
    }
  }

  /** A successful `remove` takes out exactly one copy of the handle; a failed one changes nothing. */
  lemma {:induction false} RemoveHandles(n: Node, h: nat, pos: Point)
    ensures var (n', res) := Remove(n, h, pos);
      && (res.Some? ==> h in multiset(Handles(n)))
      && multiset(Handles(n')) == multiset(Handles(n)) - (if res.Some? then multiset{h} else multiset{})
  {
    if InBoundary(n, pos) {
      match n.quads
      case None =>
        var b := BinarySearch(n.nodes, h);
        if b.Found? {
          assert Remove(n, h, pos) == (n.(nodes := RemoveAt(n.nodes, b.index)), Some(h));
        }
      case Some(qs) =>
        var i := Route(n, pos);
        RemoveHandles(qs.At(i), h, pos);
        var (c, res) := Remove(qs.At(i), h, pos);
        assert Remove(n, h, pos) == (n.(quads := Some(qs.With(i, c))), res);
        if res.Some? {
          HandlesWith(n, qs, i, c);
          ChildHandles(n, qs, i);
          ReplacePartLess(multiset(Handles(n)), multiset(Handles(qs.At(i))), h);
        }
    }
  }

  /** `remove` keeps the handle lists ascending and the leaves within capacity. */
  lemma {:induction false} RemoveKeepsValid(n: Node, h: nat, pos: Point)
    requires Valid(n)
    ensures Valid(Remove(n, h, pos).0)
  {
    if InBoundary(n, pos) {
      match n.quads
      case None =>
      case Some(qs) =>
        var i := Route(n, pos);
        RemoveKeepsValid(qs.At(i), h, pos);
        var w := qs.With(i, Remove(qs.At(i), h, pos).0);
        assert forall j :: 0 <= j < 4 ==> Valid(w.At(j)) by {
          assert forall j :: 0 <= j < 4 && j != i ==> w.At(j) == qs.At(j);
        }
    }
  }

  /**
   * `contains_circle` never prunes a region that meets the circle: if some
   * point of the closed region lies within `r` of `pos`, the test passes.
   */
  lemma ContainsCircleSound(n: Node, pos: Point, r: real, q: Point)
    requires InBoundary(n, q) && Dist2(q, pos) <= Sq(r)
    ensures ContainsCircle(n, pos, r)
  {
    ClampNearest(pos.x, n.topLeft.x, n.botRight.x, q.x);
    ClampNearest(pos.y, n.topLeft.y, n.botRight.y, q.y);
  }

  /**
   * For a region with `top_left <= bot_right`, `contains_circle` holds
   * exactly when some point of the closed region is within `r` of `pos`.
   */
  lemma ContainsCircleExact(n: Node, pos: Point, r: real)
    requires n.topLeft.x <= n.botRight.x && n.topLeft.y <= n.botRight.y
    ensures ContainsCircle(n, pos, r) <==> exists q :: InBoundary(n, q) && Dist2(q, pos) <= Sq(r)
  {
    if ContainsCircle(n, pos, r) {
      assert InBoundary(n, ClampInto(n, pos));
    }
    if exists q :: InBoundary(n, q) && Dist2(q, pos) <= Sq(r) {
      var q :| InBoundary(n, q) && Dist2(q, pos) <= Sq(r);
      ContainsCircleSound(n, pos, r, q);
    }
  }

  /**
   * Region pruning loses nothing: a handle that routing for `q` finds, with
   * `q` within `r` of the query centre, is in the answer of `search_radius`.
   */
  lemma {:induction false} SearchFindsHeld(n: Node, h: nat, q: Point, pos: Point, r: real)
    requires Holds(n, h, q) && Dist2(q, pos) <= Sq(r)
    ensures h in SearchRadius(n, pos, r)
  {
    match n.quads
    case None =>
    case Some(qs) =>
      var i := Route(n, q);
      var c := qs.At(i);
      SearchFindsHeld(c, h, q, pos, r);
      ContainsCircleSound(c, pos, r, q);
      assert h in SearchChild(c, pos, r);
  }

  /**
   * `h` sits in a leaf that the radius search can reach: a path from `n`
   * down to that leaf on which every child passes `contains_circle`.
   */
  ghost predicate Reached(n: Node, h: nat, pos: Point, r: real)
    decreases n
  {
    match n.quads
    case None => h in n.nodes
    case Some(qs) =>
      exists i :: 0 <= i < 4 && ContainsCircle(qs.At(i), pos, r) && Reached(qs.At(i), h, pos, r)
  }

  /**
   * The pruning of `search_radius` (src/lib.rs:219-232), both ways: a handle
   * is answered exactly when some leaf holding it is reached through
   * children that all pass the circle test. A child that fails it adds
   * nothing, however many handles it holds.
   */
  lemma {:induction false} SearchPrunes(n: Node, h: nat, pos: Point, r: real)
    ensures h in SearchRadius(n, pos, r) <==> Reached(n, h, pos, r)
    decreases n, 0
  {
    match n.quads
    case None =>
    case Some(qs) =>
      ChildPrunes(qs.At(0), h, pos, r);
      ChildPrunes(qs.At(1), h, pos, r);
      ChildPrunes(qs.At(2), h, pos, r);
      ChildPrunes(qs.At(3), h, pos, r);
      SearchInternal(n, qs, h, pos, r);
      ReachedInternal(n, qs, h, pos, r);
  }

  /** `SearchPrunes` for one child of the `for_each`: the child's answer passes through only if its region meets the circle. */
  lemma {:induction false} ChildPrunes(c: Node, h: nat, pos: Point, r: real)
    ensures h in SearchChild(c, pos, r) <==> ContainsCircle(c, pos, r) && Reached(c, h, pos, r)
    decreases c, 1
  {
    SearchPrunes(c, h, pos, r);
  }

  /** An internal node's answer is the four children's answers, concatenated. */
  lemma SearchInternal(n: Node, qs: Quads, h: nat, pos: Point, r: real)
    requires n.quads == Some(qs)
    ensures h in SearchRadius(n, pos, r) <==>
      || h in SearchChild(qs.At(0), pos, r) || h in SearchChild(qs.At(1), pos, r)
      || h in SearchChild(qs.At(2), pos, r) || h in SearchChild(qs.At(3), pos, r)
  {
  }

  /** `Reached` at an internal node, written out over its four children. */
  lemma ReachedInternal(n: Node, qs: Quads, h: nat, pos: Point, r: real)
    requires n.quads == Some(qs)
    ensures Reached(n, h, pos, r) <==>
      || (ContainsCircle(qs.At(0), pos, r) && Reached(qs.At(0), h, pos, r))
      || (ContainsCircle(qs.At(1), pos, r) && Reached(qs.At(1), h, pos, r))
      || (ContainsCircle(qs.At(2), pos, r) && Reached(qs.At(2), h, pos, r))
      || (ContainsCircle(qs.At(3), pos, r) && Reached(qs.At(3), h, pos, r))
  {
    if Reached(n, h, pos, r) {
      var i :| 0 <= i < 4 && ContainsCircle(qs.At(i), pos, r) && Reached(qs.At(i), h, pos, r);
      assert i == 0 || i == 1 || i == 2 || i == 3;
    }
  }

  /**
   * Right after a split, `insert` fails for exactly the in-bounds positions
   * whose side of the midpoint in x differs from their side in y: index 1
   * holds the zero-width top-right region and index 2 the bottom-left one,
   * while routing sends bottom-left points to 1 and top-right points to 2
   * (src/lib.rs:145-159, 182-190, 209-214).
   */
  lemma SplitRoutingMismatch(n: Node, pos: Point, h: nat)
    requires InBoundary(n, pos)
    ensures Insert(Split(n).0, pos, h).1.Err? <==> ((pos.x <= Mid(n).x) != (pos.y <= Mid(n).y))
  {
    var s := Split(n).0;
    assert Mid(s) == Mid(n);
    var i := Route(s, pos);
    var c := s.quads.value.At(i);
    if (pos.x <= Mid(n).x) == (pos.y <= Mid(n).y) {
      assert InBoundary(c, pos);
    } else {
      assert !InBoundary(c, pos);
    }
  }

  /** `SearchFindsHeld` for every handle and position at once. */
  lemma SearchFindsAll(n: Node, pos: Point, r: real)
    ensures forall h, q :: Holds(n, h, q) && Dist2(q, pos) <= Sq(r) ==> h in SearchRadius(n, pos, r)
  {
    forall h, q | Holds(n, h, q) && Dist2(q, pos) <= Sq(r) ensures h in SearchRadius(n, pos, r) {
      SearchFindsHeld(n, h, q, pos, r);
    }
  }
}
