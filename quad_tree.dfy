/**
 * `QuadTree<T>` (src/lib.rs:10-97): the facade that binds items to handles.
 * It owns the item map (the public `nodes` field), the handle counter and
 * the root node, and drives insertion to completion with a worklist.
 */
module QuadTree {
  import opened Wrappers
  import opened Geometry
  import opened QuadTreeInner
  import opened QuadTreeInnerProps

  /**
   * The candidates whose item lies within `r` of `pos`, in candidate order:
   * the exact filter `search_radius` applies to the tree's answer
   * (src/lib.rs:60-67).
   */
  function WithinRadius<T>(cands: seq<nat>, items: map<nat, T>, position: T -> Point, pos: Point, r: real)
    : (ms: seq<nat>)
    ensures multiset(ms) <= multiset(cands)
    ensures forall k :: k in ms ==> k in items && Dist2(position(items[k]), pos) <= Sq(r)
    ensures forall k :: k in cands && k in items && Dist2(position(items[k]), pos) <= Sq(r) ==> k in ms
  {
    if cands == [] then []
    else
      var k := cands[|cands| - 1];
      assert cands == cands[..|cands| - 1] + [k];
      WithinRadius(cands[..|cands| - 1], items, position, pos, r)
      + (if k in items && Dist2(position(items[k]), pos) <= Sq(r) then [k] else [])
  }

  /** The items under the handles `ms`, in the same order: the `get(&k).unwrap()` of each. */
  function Resolve<T>(ms: seq<nat>, items: map<nat, T>): (res: seq<T>)
    requires forall k :: k in ms ==> k in items
    ensures |res| == |ms| && forall j :: 0 <= j < |ms| ==> res[j] == items[ms[j]]
  {
    if ms == [] then []
    else Resolve(ms[..|ms| - 1], items) + [items[ms[|ms| - 1]]]
  }

  /** Resolving one more handle appends its item. */
  lemma ResolveSnoc<T>(ms: seq<nat>, k: nat, items: map<nat, T>)
    requires forall h :: h in ms ==> h in items
    requires k in items
    ensures forall h :: h in ms + [k] ==> h in items
    ensures Resolve(ms + [k], items) == Resolve(ms, items) + [items[k]]
  {
    assert (ms + [k])[..|ms|] == ms;
  }

  /**
   * The next candidate adds itself to the answer exactly when its item lies
   * within `r` of `pos`.
   */
  lemma WithinRadiusStep<T>(cands: seq<nat>, i: nat, items: map<nat, T>, position: T -> Point, pos: Point, r: real)
    requires i < |cands| && cands[i] in items
    ensures WithinRadius(cands[..i + 1], items, position, pos, r)
      == WithinRadius(cands[..i], items, position, pos, r)
         + (if Dist2(position(items[cands[i]]), pos) <= Sq(r) then [cands[i]] else [])
  {
    assert cands[..i + 1][..i] == cands[..i];
  }

  /**
   * The test `search_radius` writes out (src/lib.rs:65): the absolute
   * differences squared and summed, against `r * r`. It is the squared
   * distance bound.
   */
  function WithinReach(p: Point, pos: Point, r: real): (b: bool)
    ensures b <==> Dist2(p, pos) <= Sq(r)
  {
    SqAbs(p.x - pos.x);
    SqAbs(p.y - pos.y);
    Sq(Abs(p.x - pos.x)) + Sq(Abs(p.y - pos.y)) <= r * r
  }

  /**
   * What holds of the tree and the pending handles while the worklist runs:
   * the tree keeps its invariants, a leaf root holds only handles in `keys`,
   * every pending handle is in `keys`, and tree plus worklist stay within
   * `base`.
   */
  ghost predicate WorkInv(t: Node, work: seq<nat>, keys: set<nat>, base: multiset<nat>)
  {
    && QuadTreeInner.Valid(t)
    && (t.quads.None? ==> forall h :: h in t.nodes ==> h in keys)
    && (forall h :: h in work ==> h in keys)
    && multiset(Handles(t)) + multiset(work) <= base
  }

  /** The measure that makes the worklist finite: only a leaf root's split hands handles back. */
  function WorkMeasure(t: Node, work: seq<nat>): (nat, nat)
  {
    (if t.quads.None? then 1 else 0, |work|)
  }

  /** Lexicographic "smaller" on `WorkMeasure`. */
  predicate Smaller(a: (nat, nat), b: (nat, nat))
  {
    a.0 < b.0 || (a.0 == b.0 && a.1 < b.1)
  }

  /**
   * One turn of the worklist: pop the last handle and insert it. On `Ok`
   * the invariant holds of the new tree and worklist and the measure drops;
   * on `Err` the tree is unchanged.
   */
  lemma WorkStep(t: Node, work: seq<nat>, keys: set<nat>, base: multiset<nat>, p: Point)
    requires WorkInv(t, work, keys, base) && work != []
    ensures var id := work[|work| - 1];
      var rest := work[..|work| - 1];
      var (t', res) := QuadTreeInner.Insert(t, p, id);
      res.Ok? ==>
        && WorkInv(t', rest + res.value, keys, base)
        && Smaller(WorkMeasure(t', rest + res.value), WorkMeasure(t, work))
  {
    var id := work[|work| - 1];
    var rest := work[..|work| - 1];
    assert work == rest + [id];
    var next := QuadTreeInner.Insert(t, p, id);
    InsertKeepsSorted(t, p, id);
    InsertKeepsCapacity(t, p, id);
    InsertHandles(t, p, id);
    if next.1.Ok? {
      WorkNext(t, next.0, rest, id, next.1.value, keys, base);
    }
  }

  /**
   * The invariant carries over from `rest + [id]` to `rest + pending` when
   * `t'` is `t` with `id` inserted and `pending` handed back.
   */
  lemma WorkNext(t: Node, t': Node, rest: seq<nat>, id: nat, pending: seq<nat>, keys: set<nat>, base: multiset<nat>)
    requires WorkInv(t, rest + [id], keys, base)
    requires QuadTreeInner.Valid(t')
    requires multiset(Handles(t')) + multiset(pending) <= multiset(Handles(t)) + multiset{id}
    requires pending != [] ==> t.quads.None? && t'.quads.Some? && pending == t.nodes
    requires t.quads.Some? ==> t'.quads.Some?
    ensures WorkInv(t', rest + pending, keys, base)
    ensures Smaller(WorkMeasure(t', rest + pending), WorkMeasure(t, rest + [id]))
  {
    assert id in rest + [id];
    RequeueBound(Handles(t), Handles(t'), rest, id, pending, base);
    if t'.quads.None? {
      assert t.nodes == Handles(t);
      assert t'.nodes == Handles(t');
      SubOfAddIn(t'.nodes, t.nodes, id, keys);
    }
    forall h | h in rest + pending ensures h in keys {
      if h !in rest {
        assert h in pending;
      }
    }
  }

  /** Requeueing what an insertion of `id` hands back keeps tree plus worklist within `base`. */
  lemma RequeueBound(held: seq<nat>, held': seq<nat>, rest: seq<nat>, id: nat, pending: seq<nat>, base: multiset<nat>)
    requires multiset(held) + multiset(rest + [id]) <= base
    requires multiset(held') + multiset(pending) <= multiset(held) + multiset{id}
    ensures multiset(held') + multiset(rest + pending) <= base
  {
    assert multiset(rest + [id]) == multiset(rest) + multiset{id};
    assert multiset(rest + pending) == multiset(pending) + multiset(rest);
    calc <= {
      multiset(held') + multiset(rest + pending);
      == multiset(held') + multiset(pending) + multiset(rest);
      { AddBothSides(multiset(held') + multiset(pending), multiset(held) + multiset{id}, multiset(rest)); }
      multiset(held) + multiset{id} + multiset(rest);
      == multiset(held) + multiset(rest + [id]);
      base;
    }
  }

  /** Adding the same multiset to both sides keeps `<=`. */
  lemma AddBothSides(a: multiset<nat>, b: multiset<nat>, c: multiset<nat>)
    requires a <= b
    ensures a + c <= b + c
  {
    forall x ensures (a + c)[x] <= (b + c)[x] {
      assert a[x] <= b[x];
    }
  }

  /** What lies within `b` plus one more element, all in `keys`, is in `keys`. */
  lemma SubOfAddIn(a: seq<nat>, b: seq<nat>, extra: nat, keys: set<nat>)
    requires multiset(a) <= multiset(b) + multiset{extra}
    requires (forall h :: h in b ==> h in keys) && extra in keys
    ensures forall h :: h in a ==> h in keys
  {
    forall h | h in a ensures h in keys {
      assert multiset(a)[h] > 0;
      if h != extra {
        assert multiset(b)[h] > 0;
        assert h in b;
      }
    }
  }

  /**
   * The first insertion of `insert` and `reinsert`: on `Ok` the worklist
   * starts with the invariant over `base`, the tree plus the new handle, which
   * stays below the counter and within the map's keys whenever the tree's
   * handles were; when the tree has room along the route nothing is handed
   * back and the handle is held.
   */
  lemma FirstStep(t: Node, p: Point, id: nat, keys: set<nat>, c: nat)
    requires QuadTreeInner.Valid(t) && id in keys && id < c
    requires (forall h :: h in Handles(t) ==> h < c) && (t.quads.None? ==> forall h :: h in t.nodes ==> h in keys)
    ensures var next := QuadTreeInner.Insert(t, p, id);
      var base := multiset(Handles(t)) + multiset{id};
      && (next.1.Ok? ==> WorkInv(next.0, next.1.value, keys, base))
      && (forall h :: h in base ==> h < c)
      && ((forall h :: h in Handles(t) ==> h in keys) ==> forall h :: h in base ==> h in keys)
      && (PlacesAt(t, p) ==> next.1 == Ok([]) && Holds(next.0, id, p))
  {
    var base := multiset(Handles(t)) + multiset{id};
    assert WorkInv(t, [id], keys, base);
    WorkStep(t, [id], keys, base, p);
    BaseBelow(t, id, c);
    BaseIn(t, id, keys);
    if PlacesAt(t, p) {
      InsertStores(t, p, id);
    }
  }

  /**
   * `reinsert`'s removal at the old position keeps what the facade needs of
   * the tree: its invariants, handles below the counter, a leaf root's
   * handles in `keys`, and all handles in `keys` if they were before.
   */
  lemma RemoveStep(t: Node, id: nat, oldPos: Point, keys: set<nat>, c: nat)
    requires QuadTreeInner.Valid(t)
    requires (forall h :: h in Handles(t) ==> h < c) && (t.quads.None? ==> forall h :: h in t.nodes ==> h in keys)
    ensures var t' := QuadTreeInner.Remove(t, id, oldPos).0;
      && QuadTreeInner.Valid(t')
      && (forall h :: h in Handles(t') ==> h < c)
      && (t'.quads.None? ==> forall h :: h in t'.nodes ==> h in keys)
      && ((forall h :: h in Handles(t) ==> h in keys) ==> forall h :: h in Handles(t') ==> h in keys)
  {
    var t' := QuadTreeInner.Remove(t, id, oldPos).0;
    RemoveBelow(t, id, oldPos, c);
    assert multiset(Handles(t')) <= multiset(Handles(t));
    RootAfterRemove(t, t');
    if forall h :: h in Handles(t) ==> h in keys {
      SubIn(Handles(t'), Handles(t), keys);
    }
  }

  /** Everything the tree holds at the end lies in any set that contains `base`. */
  lemma WorkDone(t: Node, work: seq<nat>, keys: set<nat>, base: multiset<nat>, bound: set<nat>)
    requires WorkInv(t, work, keys, base)
    ensures (forall h :: h in base ==> h in bound) ==> forall h :: h in Handles(t) ==> h in bound
  {
    if forall h :: h in base ==> h in bound {
      forall h | h in Handles(t) ensures h in bound {
        assert h in multiset(Handles(t));
      }
    }
  }

  /** Handles in `keys`, plus one more in `keys`, are all in `keys`. */
  lemma BaseIn(t: Node, extra: nat, keys: set<nat>)
    requires extra in keys
    ensures (forall h :: h in Handles(t) ==> h in keys) ==>
      forall h :: h in multiset(Handles(t)) + multiset{extra} ==> h in keys
  {
    if forall h :: h in Handles(t) ==> h in keys {
      forall h | h in multiset(Handles(t)) + multiset{extra} ensures h in keys {
        if h != extra {
          assert h in multiset(Handles(t));
          assert h in Handles(t);
        }
      }
    }
  }

  /** A sub-multiset of handles in `keys` is in `keys`. */
  lemma SubIn(a: seq<nat>, b: seq<nat>, keys: set<nat>)
    requires multiset(a) <= multiset(b)
    requires forall h :: h in b ==> h in keys
    ensures forall h :: h in a ==> h in keys
  {
    forall h | h in a ensures h in keys {
      assert multiset(a)[h] > 0;
      assert multiset(b)[h] > 0;
      assert h in b;
    }
  }

  /** Handles below `c`, plus one more below `c`, are all below `c`. */
  lemma BaseBelow(t: Node, extra: nat, c: nat)
    requires forall h :: h in Handles(t) ==> h < c
    requires extra < c
    ensures forall h :: h in multiset(Handles(t)) + multiset{extra} ==> h < c
  {
    forall h | h in multiset(Handles(t)) + multiset{extra} ensures h < c {
      if h != extra {
        assert h in multiset(Handles(t));
        assert h in Handles(t);
      }
    }
  }

  /** A sub-multiset of the handles below `c` is below `c`. */
  lemma SubBelow(a: seq<nat>, b: seq<nat>, c: nat)
    requires multiset(a) <= multiset(b)
    requires forall h :: h in b ==> h < c
    ensures forall h :: h in a ==> h < c
  {
    forall h | h in a ensures h < c {
      assert multiset(a)[h] > 0;
      assert multiset(b)[h] > 0;
      assert h in b;
    }
  }

  /** A root that stays a leaf after losing handles holds a subset of what it held. */
  lemma RootAfterRemove(t: Node, t': Node)
    requires multiset(Handles(t')) <= multiset(Handles(t))
    requires t'.quads.None? ==> t.quads.None?
    ensures t'.quads.None? ==> forall h :: h in t'.nodes ==> h in t.nodes
  {
    if t'.quads.None? {
      forall h | h in t'.nodes ensures h in t.nodes {
        assert h in multiset(Handles(t'));
      }
    }
  }

  /** Every handle the tree holds at the end is below any bound on `base`. */
  lemma WorkDoneBelow(t: Node, work: seq<nat>, keys: set<nat>, base: multiset<nat>, c: nat)
    requires WorkInv(t, work, keys, base)
    requires forall h :: h in base ==> h < c
    ensures forall h :: h in Handles(t) ==> h < c
  {
    forall h | h in Handles(t) ensures h < c {
      assert h in multiset(Handles(t));
      assert multiset(Handles(t)) <= base;
      assert base[h] > 0;
    }
  }

  /**
   * Every handle the worklist may look up has an item: the pending ones and,
   * at a leaf root, the root's own, which a split would hand back.
   */
  ghost predicate Pending(t: Node, work: seq<nat>, keys: set<nat>)
  {
    && (t.quads.None? ==> forall h :: h in t.nodes ==> h in keys)
    && (forall h :: h in work ==> h in keys)
  }

  /** One turn of the worklist keeps every handle it may look up resolvable. */
  lemma PendingStep(t: Node, work: seq<nat>, keys: set<nat>, p: Point)
    requires Pending(t, work, keys) && work != []
    ensures var next := QuadTreeInner.Insert(t, p, work[|work| - 1]);
      next.1.Ok? ==> Pending(next.0, work[..|work| - 1] + next.1.value, keys)
  {
    var id := work[|work| - 1];
    var rest := work[..|work| - 1];
    assert work == rest + [id];
    var next := QuadTreeInner.Insert(t, p, id);
    InsertHandles(t, p, id);
    if next.1.Ok? && next.0.quads.None? {
      assert multiset(next.0.nodes) <= multiset(t.nodes) + multiset{id};
      SubOfAddIn(next.0.nodes, t.nodes, id, keys);
    }
  }

  /**
   * What the worklist of `insert` and `reinsert` computes (src/lib.rs:44-49,
   * 88-93): pop the last handle, insert it at its item's position, append
   * what comes back; the first refusal stops it with the tree as it then is.
   * It ends because only a leaf root's split hands handles back.
   */
  function Rerouted<T>(t: Node, work: seq<nat>, items: map<nat, T>, position: T -> Point): (o: (Node, Result<()>))
    requires Pending(t, work, items.Keys)
    ensures SameFrame(t, o.0)
    decreases if t.quads.None? then 1 else 0, |work|
  {
    if work == [] then (t, Ok(()))
    else
      var id := work[|work| - 1];
      var next := QuadTreeInner.Insert(t, position(items[id]), id);
      if next.1.Err? then (t, Err)
      else
        PendingStep(t, work, items.Keys, position(items[id]));
        var rest := work[..|work| - 1];
        if next.1.value == [] then
          assert rest + next.1.value == rest;
          assert t.quads.Some? ==> next.0.quads.Some?;
          Rerouted(next.0, rest, items, position)
        else
          assert t.quads.None? && next.0.quads.Some?;
          Rerouted(next.0, rest + next.1.value, items, position)
  }

  /** One turn of the worklist, unfolded: a refusal stops it, otherwise it goes on from the new tree. */
  lemma ReroutedStep<T>(t: Node, work: seq<nat>, items: map<nat, T>, position: T -> Point)
    requires Pending(t, work, items.Keys) && work != []
    ensures var next := QuadTreeInner.Insert(t, position(items[work[|work| - 1]]), work[|work| - 1]);
      && (next.1.Err? ==> Rerouted(t, work, items, position) == (t, Err))
      && (next.1.Ok? ==>
        && Pending(next.0, work[..|work| - 1] + next.1.value, items.Keys)
        && Rerouted(t, work, items, position) == Rerouted(next.0, work[..|work| - 1] + next.1.value, items, position))
  {
    var id := work[|work| - 1];
    var next := QuadTreeInner.Insert(t, position(items[id]), id);
    PendingStep(t, work, items.Keys, position(items[id]));
    if next.1.Ok? && next.1.value == [] {
      assert work[..|work| - 1] + next.1.value == work[..|work| - 1];
    }
  }

  /** The pending handles inserted one after the other, last first, with nothing handed back. */
  function InsertAll<T>(t: Node, work: seq<nat>, items: map<nat, T>, position: T -> Point): (Node, Result<()>)
    requires forall h :: h in work ==> h in items
    decreases |work|
  {
    if work == [] then (t, Ok(()))
    else
      var id := work[|work| - 1];
      var next := QuadTreeInner.Insert(t, position(items[id]), id);
      if next.1.Err? then (t, Err)
      else InsertAll(next.0, work[..|work| - 1], items, position)
  }

  /**
   * Once the root is internal, no insertion hands anything back: the
   * worklist inserts the pending handles in turn, and it answers `Err`
   * exactly when one of them is refused.
   */
  lemma {:induction false} ReroutedInternal<T>(t: Node, work: seq<nat>, items: map<nat, T>, position: T -> Point)
    requires t.quads.Some? && Pending(t, work, items.Keys)
    ensures Rerouted(t, work, items, position) == InsertAll(t, work, items, position)
    decreases |work|
  {
    if work != [] {
      var id := work[|work| - 1];
      var rest := work[..|work| - 1];
      var next := QuadTreeInner.Insert(t, position(items[id]), id);
      if next.1.Ok? {
        PendingStep(t, work, items.Keys, position(items[id]));
        assert rest + next.1.value == rest;
        ReroutedInternal(next.0, rest, items, position);
      }
    }
  }

  /**
   * Removing from a valid tree keeps it valid, drops exactly the one entry
   * the position holds, and adds no handle.
   */
  lemma RemoveBelow(t: Node, id: nat, pos: Point, c: nat)
    requires QuadTreeInner.Valid(t) && forall h :: h in Handles(t) ==> h < c
    ensures var t' := QuadTreeInner.Remove(t, id, pos).0;
      && QuadTreeInner.Valid(t')
      && (forall h :: h in Handles(t') ==> h < c)
      && multiset(Handles(t')) == multiset(Handles(t)) - (if Holds(t, id, pos) then multiset{id} else multiset{})
  {
    RemoveKeepsValid(t, id, pos);
    RemoveHandles(t, id, pos);
    RemoveFindsIffHolds(t, id, pos);
    SubBelow(Handles(QuadTreeInner.Remove(t, id, pos).0), Handles(t), c);
  }

  class QuadTree<T> {
    /** `nodes: HashMap<u64, T>`: each item under its handle. */
    var items: map<nat, T>
    /** `handle_counter`: the next handle to hand out. */
    var handleCounter: nat
    var tree: Node
    /** `Position::position`, the item's current position. */
    const position: T -> Point

    /**
     * The tree keeps its invariants, and every handle in use, in the map or
     * in the tree, is below the counter, so the next handle is fresh.
     */
    ghost predicate Valid()
      reads this
    {
      && QuadTreeInner.Valid(tree)
      && (forall h :: h in items ==> h < handleCounter)
      && (forall h :: h in Handles(tree) ==> h < handleCounter)
    }

    /**
     * Every handle a split of a leaf root would hand back has an item, so
     * the reinsertion's `unwrap` (src/lib.rs:47, 91) cannot panic.
     */
    ghost predicate RootResolvable()
      reads this
    {
      tree.quads.None? ==> forall h :: h in tree.nodes ==> h in items
    }

    /** Every handle in the tree has an item. `remove` at a wrong position can break this. */
    ghost predicate Resolvable()
      reads this
    {
      forall h :: h in Handles(tree) ==> h in items
    }

    /** `QuadTree::new` (src/lib.rs:25-36). */
    constructor (maxNodes: nat, minSize: real, topLeft: Point, botRight: Point, position: T -> Point)
      ensures Valid() && RootResolvable() && Resolvable()
      ensures items == map[] && handleCounter == 0
      ensures tree == New(maxNodes, minSize, topLeft, botRight)
      ensures this.position == position
    {
      items := map[];
      handleCounter := 0;
      tree := New(maxNodes, minSize, topLeft, botRight);
      this.position := position;
    }

    /**
     * The worklist of `insert` and `reinsert` (src/lib.rs:44-49, 88-93): pop
     * the last handle, insert it at its item's current position, append what
     * that insertion hands back; the first error abandons the rest.
     */
    method Reroute(splits: seq<nat>, ghost base: multiset<nat>) returns (r: Result<()>)
      requires WorkInv(tree, splits, items.Keys, base)
      requires (forall h :: h in items ==> h < handleCounter) && (forall h :: h in base ==> h < handleCounter)
      modifies this`tree
      ensures Valid() && RootResolvable()
      ensures multiset(Handles(tree)) <= base
      ensures (forall h :: h in base ==> h in items) ==> Resolvable()
      ensures splits == [] ==> r.Ok? && tree == old(tree)
      ensures (tree, r) == Rerouted(old(tree), splits, items, position)
    {
      r := Ok(());
      var work := splits;
      ghost var goal := Rerouted(tree, splits, items, position);
      while work != []
        invariant WorkInv(tree, work, items.Keys, base)
        invariant splits == [] ==> tree == old(tree)
        invariant Rerouted(tree, work, items, position) == goal
        invariant r == Ok(())
        decreases WorkMeasure(tree, work).0, WorkMeasure(tree, work).1
      {
        var id := work[|work| - 1];
        var p := position(items[id]);
        WorkStep(tree, work, items.Keys, base, p);
        ReroutedStep(tree, work, items, position);
        var next := QuadTreeInner.Insert(tree, p, id);
        if next.1.Err? {
          r := Err;
          assert goal == (tree, Err);
          break;
        }
        tree := next.0;
        work := work[..|work| - 1] + next.1.value;
      }
      WorkDoneBelow(tree, work, items.Keys, base, handleCounter);
      WorkDone(tree, work, items.Keys, base, items.Keys);
    }

    /**
     * `insert` (src/lib.rs:38-52). If the tree refuses the position nothing
     * changes. Otherwise the item is stored under the old counter, the
     * counter rises by one, and the handles a split hands back are rerouted;
     * an error there is returned after the item and counter were updated.
     */
    method Insert(item: T, pos: Point) returns (r: Result<()>)
      requires Valid() && RootResolvable()
      modifies this
      ensures Valid() && RootResolvable()
      ensures old(Resolvable()) ==> Resolvable()
      ensures QuadTreeInner.Insert(old(tree), pos, old(handleCounter)).1.Err? ==>
        r.Err? && items == old(items) && handleCounter == old(handleCounter) && tree == old(tree)
      ensures QuadTreeInner.Insert(old(tree), pos, old(handleCounter)).1.Ok? ==>
        items == old(items)[old(handleCounter) := item] && handleCounter == old(handleCounter) + 1
      ensures old(handleCounter) !in old(items)
      ensures multiset(Handles(tree)) <= multiset(Handles(old(tree))) + multiset{old(handleCounter)}
      ensures PlacesAt(old(tree), pos) ==> r.Ok? && Holds(tree, old(handleCounter), pos)
      ensures PlacesAt(old(tree), pos) ==>
        multiset(Handles(tree)) == multiset(Handles(old(tree))) + multiset{old(handleCounter)}
      ensures var first := QuadTreeInner.Insert(old(tree), pos, old(handleCounter));
        first.1.Ok? ==>
          && Pending(first.0, first.1.value, items.Keys)
          && (tree, r) == Rerouted(first.0, first.1.value, items, position)
    {
      var handle := handleCounter;
      var first := QuadTreeInner.Insert(tree, pos, handle);
      if first.1.Err? {
        if PlacesAt(tree, pos) {
          InsertStores(tree, pos, handle);
        }
        assert multiset(Handles(tree)) <= multiset(Handles(tree)) + multiset{handle};
        r := Err;
        return;
      }
      items := items[handle := item];
      handleCounter := handleCounter + 1;
      ghost var after := items;
      assert after == old(items)[old(handleCounter) := item];
      r := Settle(handle, pos, first);
      assert items == after;
    }

    /**
     * `reinsert` (src/lib.rs:82-96) for an item that moved: take the handle
     * out at its old position (ignoring whether that worked), insert it at the
     * item's current position, and reroute what a split hands back. The map
     * and the counter do not change.
     */
    method Reinsert(id: nat, oldPos: Point) returns (r: Result<()>)
      requires Valid() && RootResolvable()
      requires id in items
      modifies this`tree
      ensures Valid() && RootResolvable()
      ensures old(Resolvable()) ==> Resolvable()
      ensures var removed := QuadTreeInner.Remove(old(tree), id, oldPos).0;
        && (QuadTreeInner.Insert(removed, position(items[id]), id).1.Err? ==> r.Err? && tree == removed)
        && multiset(Handles(tree)) <= multiset(Handles(removed)) + multiset{id}
        && (PlacesAt(removed, position(items[id])) ==> r.Ok? && Holds(tree, id, position(items[id])))
        && (PlacesAt(removed, position(items[id])) ==>
              multiset(Handles(tree)) == multiset(Handles(removed)) + multiset{id})
      ensures var removed := QuadTreeInner.Remove(old(tree), id, oldPos).0;
        var first := QuadTreeInner.Insert(removed, position(items[id]), id);
        first.1.Ok? ==>
          && Pending(first.0, first.1.value, items.Keys)
          && (tree, r) == Rerouted(first.0, first.1.value, items, position)
    {
      RemoveStep(tree, id, oldPos, items.Keys, handleCounter);
      tree := QuadTreeInner.Remove(tree, id, oldPos).0;
      var p := position(items[id]);
      var first := QuadTreeInner.Insert(tree, p, id);
      if first.1.Err? {
        if PlacesAt(tree, p) {
          InsertStores(tree, p, id);
        }
        assert multiset(Handles(tree)) <= multiset(Handles(tree)) + multiset{id};
        r := Err;
        return;
      }
      r := Settle(id, p, first);
    }

    /**
     * The rest of `insert` and `reinsert` once the first insertion of `id` at
     * `p` succeeded (src/lib.rs:43-51, 87-95): take the new root, then reroute
     * the handles it handed back.
     */
    method Settle(id: nat, p: Point, first: (Node, Result<seq<nat>>)) returns (r: Result<()>)
      requires Valid() && RootResolvable() && id in items
      requires first == QuadTreeInner.Insert(tree, p, id) && first.1.Ok?
      modifies this`tree
      ensures Valid() && RootResolvable()
      ensures old(Resolvable()) ==> Resolvable()
      ensures multiset(Handles(tree)) <= multiset(Handles(old(tree))) + multiset{id}
      ensures PlacesAt(old(tree), p) ==> r.Ok? && Holds(tree, id, p)
      ensures PlacesAt(old(tree), p) ==> multiset(Handles(tree)) == multiset(Handles(old(tree))) + multiset{id}
      ensures Pending(first.0, first.1.value, items.Keys) && (tree, r) == Rerouted(first.0, first.1.value, items, position)
    {
      FirstStep(tree, p, id, items.Keys, handleCounter);
      if PlacesAt(tree, p) {
        InsertStores(tree, p, id);
      }
      ghost var base := multiset(Handles(tree)) + multiset{id};
      tree := first.0;
      r := Reroute(first.1.value, base);
    }

    /**
     * `remove` (src/lib.rs:77-80): the tree removal's answer is ignored; the
     * map's entry for `id` is taken out and returned.
     */
    method Remove(id: nat, pos: Point) returns (r: Option<T>)
      requires Valid()
      modifies this`items, this`tree
      ensures Valid()
      ensures r == if id in old(items) then Some(old(items)[id]) else None
      ensures items == old(items) - {id}
      ensures tree == QuadTreeInner.Remove(old(tree), id, pos).0
      ensures multiset(Handles(tree))
        == multiset(Handles(old(tree))) - (if Holds(old(tree), id, pos) then multiset{id} else multiset{})
    {
      RemoveBelow(tree, id, pos, handleCounter);
      tree := QuadTreeInner.Remove(tree, id, pos).0;
      r := if id in items then Some(items[id]) else None;
      items := items - {id};
    }

    /**
     * `search_radius` (src/lib.rs:58-71): the tree's region-pruned candidates,
     * kept when their item lies within `r` of `pos`, resolved to items.
     */
    method SearchRadius(pos: Point, r: real) returns (result: seq<T>)
      requires forall h :: h in QuadTreeInner.SearchRadius(tree, pos, r) ==> h in items
      ensures result == Resolve(WithinRadius(QuadTreeInner.SearchRadius(tree, pos, r), items, position, pos, r), items)
    {
      var candidates := QuadTreeInner.SearchRadius(tree, pos, r);
      result := Filter(candidates, pos, r);
    }

    /** The loop of `search_radius` (src/lib.rs:60-68) over the tree's candidates. */
    method Filter(candidates: seq<nat>, pos: Point, r: real) returns (result: seq<T>)
      requires forall h :: h in candidates ==> h in items
      ensures result == Resolve(WithinRadius(candidates, items, position, pos, r), items)
    {
      ghost var ms: seq<nat> := [];
      result := [];
      for i := 0 to |candidates|
        invariant ms == WithinRadius(candidates[..i], items, position, pos, r)
        invariant result == Resolve(ms, items)
      {
        var k := candidates[i];
        WithinRadiusStep(candidates, i, items, position, pos, r);
        if WithinReach(position(items[k]), pos, r) {
          ResolveSnoc(ms, k, items);
          result := result + [items[k]];
          ms := ms + [k];
        }
      }
      assert candidates[..|candidates|] == candidates;
    }

    /** `search_radius_ids` (src/lib.rs:73-75): the tree's candidates, unfiltered. */
    function SearchRadiusIds(pos: Point, r: real): (ids: seq<nat>)
      reads this
      ensures multiset(ids) <= multiset(Handles(tree))
      ensures forall h, q :: Holds(tree, h, q) && Dist2(q, pos) <= Sq(r) ==> h in ids
    {
      SearchFindsAll(tree, pos, r);
      QuadTreeInner.SearchRadius(tree, pos, r)
    }

    /** `lines` (src/lib.rs:54-56). */
    function Lines(): (ls: seq<(Point, Point)>)
      reads this
      ensures |ls| == 4 * Count(tree)
    {
      QuadTreeInner.Lines(tree)
    }
  }
}
