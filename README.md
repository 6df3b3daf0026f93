# quadtree — a Dafny model of the point quadtree in `src/lib.rs`

The library is a point quadtree that stores items behind stable integer
handles. Its two layers are modelled here, each in the form the Rust code
takes.

- **`QuadTreeInner`** (`quad_tree_inner.dfy`) is the recursive node. It holds:
  - a closed rectangular region `top_left`/`bot_right`;
  - a sorted list of `u64` handles;
  - the thresholds `max_nodes` and `min_size`;
  - once split, four exclusively owned children.

  Each method that mutates the boxed node in place is a function. The function
  returns the updated node and the method's result. Because no child is ever
  shared, this value form is exact.

  The node operations are:
  - `new`;
  - `in_boundary`;
  - `insert`: sorted insertion at a leaf with room, or a split, or routing by
    the midpoint;
  - `split`;
  - `search_radius` and `contains_circle`, the clamp-and-compare circle test;
  - `remove`: binary search at a leaf, the same routing at internal nodes;
  - `lines`.

  The sorted-vector primitives the node uses are in `sorted_vec.dfy`:
  `partition_point`, `Vec::insert`, `binary_search` and `Vec::remove`.
- **`QuadTree<T>`** (`quad_tree.dfy`) is the facade, a class with four fields:
  - the item map (the public `nodes` `HashMap`);
  - the handle counter;
  - the root node;
  - the item's `position`.

  `insert` and `reinsert` run the split worklist as a `while` loop in
  `Reroute`. The loop pops the last pending handle, reinserts it at its item's
  position and appends what comes back. The first error abandons the rest.
  The loop is proved to terminate. Only a split of a leaf root hands handles
  back, because an internal node discards its child's list, so the pair
  (root is a leaf, pending count) decreases. `search_radius` filters the tree's
  candidates by exact squared distance, and `remove` drops the map entry.
- **Properties** are in `quad_tree_inner_props.dfy`:
  - `insert` keeps leaves sorted and within capacity;
  - where an inserted handle ends up;
  - what `insert` and `remove` do to the multiset of handles;
  - the insert/remove round trip;
  - `remove` succeeds exactly when the routed leaf holds the handle;
  - the circle test is exact;
  - the pruned radius search is complete.
- **`corrected.dfy`** puts the node insertion as evidently intended next to
  the code as written. It also holds the concrete inputs that tell the two
  apart (see "## Findings").

Coordinates are exact reals. An `f32` pair becomes `Point(x, y)`.

Where the evident intent and the code differ, the model follows the code,
and `corrected.dfy` states the intent. "## Findings" lists three such
places. For example, a split that the second of two items triggers loses
that item: with `max_nodes` 1, A at
(0.1, 0.1) and then B at (0.2, 0.2) leaves only A in the tree
(`Corrected.SplitDropsHandle`). Also, the four children of a split do not
cover the four quadrants. The top-right child has zero width and sits at
the index that routing uses for bottom-left points.

## Model

| member | source | states |
|---|---|---|
| `Geometry.ClampNearest` | src/lib.rs:237-246 | the clamped coordinate is at least as close to `v` as any point of `[lo, hi]` |
| `SortedVec.Bisect` | src/lib.rs:135 | the binary search narrows `[lo, hi]` to the boundary between the entries below `h` and the rest of a sorted list |
| `SortedVec.PartitionPoint` | src/lib.rs:135 | on a sorted list, every entry before the result is below `h` and every entry from it on is at least `h` |
| `SortedVec.PartitionPointUnique` | src/lib.rs:135 | on a sorted list, that split point is unique |
| `SortedVec.InsertSorted` | src/lib.rs:135-136 | inserting at the partition point adds exactly `h` to the multiset and keeps a sorted list sorted |
| `SortedVec.BinarySearch` | src/lib.rs:258-261 | `Found(k)` points at an entry equal to `h`; on a sorted list, `Found` holds exactly when `h` is in the list |
| `SortedVec.RemoveAt` | src/lib.rs:259 | removing index `i` takes exactly that entry out of the multiset, shortens the list by one and keeps it sorted |
| `SortedVec.RemoveUndoesInsert` | src/lib.rs:258-259 | after a sorted insertion, the binary search finds `h` where it was put, and removing it there gives back the original list |
| `QuadTreeInner.New` | src/lib.rs:113-122 | an empty leaf with the given thresholds and region, satisfying the node invariants |
| `QuadTreeInner.InBoundary` | src/lib.rs:164-169 | a point is inside the closed region exactly when clamping it into the region leaves it where it is |
| `QuadTreeInner.SmallRegion` | src/lib.rs:131-132 | with a non-negative `min_size`, a region of zero width or zero height counts as small; a negative `min_size` makes no region small |
| `QuadTreeInner.HasRoom` | src/lib.rs:130-132 | a small region always has room; otherwise a leaf has room exactly when it holds fewer than `max_nodes` handles |
| `QuadTreeInner.ContainsCircle` | src/lib.rs:234-249 | a `pos` inside the region always passes the circle test |
| `QuadTreeInner.Route` | src/lib.rs:145-159 | the child index is 0 or 1 exactly when `x <= midX`, and 0 or 2 exactly when `y <= midY` |
| `QuadTreeInner.Split` | src/lib.rs:171-217 | the node turns internal and its list is emptied; it returns its former handles in order; each of the four children is an empty leaf with the parent's `max_nodes` and `min_size`; region and thresholds are unchanged |
| `QuadTreeInner.Insert` | src/lib.rs:124-162 | a position outside the region gives `Err`; any `Err`, including a child's, leaves the node unchanged; region and thresholds are kept; a non-empty list comes back only when a leaf splits, and it is that leaf's former handles |
| `QuadTreeInner.Remove` | src/lib.rs:251-284 | `None` leaves the node unchanged; `Some` carries the requested handle and needs the position inside the region; region, thresholds and the leaf/internal state are kept |
| `QuadTreeInner.SearchRadius` | src/lib.rs:219-232 | a leaf answers its whole list; every handle returned is held by the tree, with no more copies than the tree holds |
| `QuadTreeInner.SearchChild` | src/lib.rs:223-226 | a child failing the circle test contributes nothing; one passing it contributes only handles it holds |
| `QuadTreeInner.Lines` | src/lib.rs:286-304 | four segments per node of the tree, the node's own four edges first |
| `QuadTreeInnerProps.RouteFrame` | src/lib.rs:145-159 | routing and the boundary test depend only on the region's corners |
| `QuadTreeInnerProps.InsertKeepsSorted` | src/lib.rs:134-136 | `insert` keeps every leaf's handle list ascending |
| `QuadTreeInnerProps.InsertKeepsCapacity` | src/lib.rs:129-141 | after `insert`, a leaf holds at most `max_nodes` handles unless one of its edges is at most `min_size`, and an internal node holds none of its own |
| `QuadTreeInnerProps.InsertHandles` | src/lib.rs:124-162 | the handles the tree holds after `insert`, plus those it hands back, are at most the old handles plus `h`; nothing is invented |
| `QuadTreeInnerProps.InsertStores` | src/lib.rs:129-138 | when routing reaches a leaf with room, `insert` answers `Ok([])`, adds exactly `h` and leaves it where routing finds it again |
| `QuadTreeInnerProps.InsertDrops` | src/lib.rs:139-161 | when routing does not reach a leaf with room, `insert` stores nothing new: the handles kept plus those handed back are at most the old handles, so `h` is lost |
| `QuadTreeInnerProps.InsertThenRemove` | src/lib.rs:256-261 | on a sorted tree, an `insert` that reaches a leaf with room, followed by `remove` of the same handle at the same position, gives back the original node and `Some(h)` |
| `QuadTreeInnerProps.RemoveFindsIffHolds` | src/lib.rs:251-279 | on a sorted tree, `remove` returns `Some` exactly when the leaf that routing reaches holds the handle |
| `QuadTreeInnerProps.RemoveHandles` | src/lib.rs:251-284 | `remove` takes out exactly one copy of `h` when it answers `Some`, and nothing otherwise |
| `QuadTreeInnerProps.RemoveKeepsValid` | src/lib.rs:256-261 | `remove` keeps leaves sorted and within capacity |
| `QuadTreeInnerProps.ContainsCircleSound` | src/lib.rs:234-249 | if some point of the region lies within `r` of `pos`, the circle test passes |
| `QuadTreeInnerProps.ContainsCircleExact` | src/lib.rs:234-249 | on a well-formed region, the circle test passes exactly when some point of the region lies within `r` of `pos` |
| `QuadTreeInnerProps.SearchPrunes` | src/lib.rs:219-232 | a handle is answered exactly when a leaf holding it is reached through children that all pass the circle test |
| `QuadTreeInnerProps.ChildPrunes` | src/lib.rs:223-226 | a child's handle passes into the answer exactly when the child passes the circle test and reaches it |
| `QuadTreeInnerProps.SearchFindsHeld` | src/lib.rs:219-232 | a handle held at a position within `r` of `pos` is among the radius search's answers |
| `QuadTreeInnerProps.SearchFindsAll` | src/lib.rs:219-232 | the pruned radius search misses no handle whose position lies within `r` of `pos` |
| `QuadTreeInnerProps.SplitRoutingMismatch` | src/lib.rs:209-214 | after a split, an in-bounds point is refused exactly when `x <= midX` and `y <= midY` disagree |
| `QuadTree.WithinRadius` | src/lib.rs:60-67 | the candidates kept are a sub-multiset of the candidates; each has an item within `r` of `pos`, and every candidate with such an item is kept |
| `QuadTree.Resolve` | src/lib.rs:66 | one item per handle, in order, each the item the map holds for that handle |
| `QuadTree.WithinReach` | src/lib.rs:65 | the written test, with absolute differences squared against `r * r`, holds exactly when the squared distance is at most `r` squared |
| `QuadTree.WorkStep` | src/lib.rs:44-49 | one turn of the worklist keeps the worklist invariant and makes the termination measure smaller |
| `QuadTree.FirstStep` | src/lib.rs:39 | the first tree insertion sets up the worklist invariant; when routing reaches a leaf with room, the new handle is stored and nothing is pending |
| `QuadTree.PendingStep` | src/lib.rs:44-49 | one turn of the worklist keeps every handle it may look up in the item map |
| `QuadTree.Rerouted` | src/lib.rs:44-49 | what the worklist computes: pop the last handle, insert it at its item's position, append what comes back, stop with the tree as it is at the first refusal; it ends, and region and thresholds are kept |
| `QuadTree.ReroutedStep` | src/lib.rs:44-49 | one turn of that worklist: a refusal answers `Err` with the tree unchanged, otherwise the rest is rerouted from the new tree |
| `QuadTree.ReroutedInternal` | src/lib.rs:44-49 | once the root is internal nothing is handed back: the worklist inserts the pending handles one after the other, last first, and answers `Err` exactly when one of them is refused |
| `QuadTree.RemoveBelow` | src/lib.rs:79 | removing from a valid tree keeps it valid, takes out exactly the entry the routed leaf holds, and adds no handle |
| `QuadTree.RemoveStep` | src/lib.rs:83 | the removal that starts `reinsert` keeps the tree's invariants and the bounds on its handles |
| `QuadTree.QuadTree.constructor` | src/lib.rs:25-36 | empty map, counter 0 and an empty leaf root over the given region |
| `QuadTree.QuadTree.Reroute` | src/lib.rs:44-49 | the loop ends with the tree and answer that `Rerouted` gives for the old tree and the worklist; the tree keeps its invariants and holds no handle outside what was held or pending; if every such handle has an item, every handle in the tree has one; an empty worklist is `Ok` and changes nothing |
| `QuadTree.QuadTree.Insert` | src/lib.rs:38-52 | if the first tree insertion fails, nothing changes; otherwise the item is stored under the old counter, which was unused, and the counter rises by one, even if a later reinsertion fails; when routing reaches a leaf with room, the tree then holds the new handle and exactly one more handle than before; after a first insertion that succeeded, the tree and answer are what `Rerouted` gives for the handles it handed back |
| `QuadTree.QuadTree.Settle` | src/lib.rs:85-93 | after a first insertion that succeeded, the tree and answer are what `Rerouted` gives for the handles it handed back; the invariants are kept and no handle but `id` is added; when routing reaches a leaf with room, `id` is held and the tree holds exactly one more handle |
| `QuadTree.QuadTree.Reinsert` | src/lib.rs:82-96 | the handle is first removed at the old position; if inserting it at its item's position fails, the tree stays as the removal left it; the tree gains no handle but `id`; when routing reaches a leaf with room, `id` is held there and the tree holds exactly one more handle than after the removal; otherwise the tree and answer are what `Rerouted` gives for the handles the first insertion handed back |
| `QuadTree.QuadTree.Remove` | src/lib.rs:77-80 | returns what the map held for `id` and deletes that key; the tree is the node removal's result, which is otherwise ignored, and it loses `id` exactly when the routed leaf held it |
| `QuadTree.QuadTree.SearchRadius` | src/lib.rs:58-71 | exactly the items of the tree's candidates whose position lies within `r` of `pos`, in candidate order |
| `QuadTree.QuadTree.Filter` | src/lib.rs:59-68 | the loop over the candidates yields the items of the candidates within `r` of `pos`, in order |
| `QuadTree.QuadTree.SearchRadiusIds` | src/lib.rs:73-75 | only handles the tree holds, and every handle held within `r` of `pos` |
| `QuadTree.QuadTree.Lines` | src/lib.rs:54-56 | four segments per node of the tree |
| `Corrected.RouteInQuadrant` | src/lib.rs:145-159 | every in-bounds point lies inside the quadrant that routing picks for it |
| `Corrected.Split` | src/lib.rs:171-217 | the intended split returns the former handles; each child's region is the quadrant that routing sends points to |
| `Corrected.Insert` | src/lib.rs:124-162 | the intended insertion: a position outside the region gives `Err`, any `Err` leaves the node unchanged, and region and thresholds are kept |
| `Corrected.InsertConserves` | src/lib.rs:139-161 | after the intended insertion, the handles held plus those handed back are exactly the old handles plus `h` |
| `Corrected.InsertTiled` | src/lib.rs:182-214 | on a tree whose children cover the routed quadrants, an in-bounds insertion never fails and the covering is kept |
| `Corrected.Reroute` | src/lib.rs:44-49 | the worklist over the intended insertion, bounded by `fuel`: when it settles, region and thresholds are kept |
| `Corrected.RerouteConserves` | src/lib.rs:44-49 | a worklist over the intended insertion that settles holds exactly the tree's handles plus every pending handle |
| `Corrected.RerouteNeverRefused` | src/lib.rs:44-49 | with every item inside the root's region, that worklist is never refused |
| `Corrected.LeafTakes` | src/lib.rs:129-138 | an empty leaf with room stores the handle the same way in both versions |
| `Corrected.FullLeafSplits` | src/lib.rs:139-141 | a full leaf splits; as written it hands back only its old handle, while the intended version also hands back the new one |
| `Corrected.SplitDropsHandle` | src/lib.rs:140 | A at (0.1, 0.1), then B at (0.2, 0.2), with the reinsertion of A: every call answers `Ok`, yet the tree holds only A; the intended insertion hands back both |
| `Corrected.NestedSplitLoses` | src/lib.rs:148-161 | after the root has split, A then B in the top-left quadrant: the root answers `Ok([])` and the tree holds nothing; the intended insertion passes `[A, B]` up |
| `Corrected.SplitRefusesBottomLeft` | src/lib.rs:182-190 | after a split, the in-bounds point (0.25, 0.75) is refused; after the intended split it is stored |

## Left out

- The code uses `f32` arithmetic. The model uses exact reals, so rounding, NaN and infinities are not modelled, and `abs().powi(2)` is exact squaring.
- The `u64` handle counter is unbounded here: overflow after 2^64 insertions is not modelled.
- The `HashMap` is a Dafny `map`. Hashing, capacity and iteration order play no part in the code.
- `Box`, the `Debug`/`Default`/`Clone` derives and the `QuadTreeInsertError` type are left out. The error is the payload-free `Err`.
- The `Position` trait is the class's `position` function from an item to a point. Callers move an item by assigning a new value in the public `items` map, then calling `Reinsert`.
- `unwrap()` on a handle missing from the map (src/lib.rs:47, 61, 66, 87, 91) would panic. Here it is a precondition instead:
  - `Reinsert` requires `id in items`;
  - `SearchRadius` requires every candidate to have an item;
  - `Insert`, `Reinsert` and `Reroute` require and keep `RootResolvable`: every handle in a leaf root has an item. That makes every lookup of the worklist safe, since only a split of a leaf root hands handles back.
- `SortedVec.BinarySearch`: Rust's `binary_search` may return any index among equal entries. The model returns the first one. A leaf can hold a handle twice (a `reinsert` whose old position lies outside the root keeps the old entry), but removing any one of several equal entries of a sorted list leaves the same list, so `remove` gives the same tree either way.
- The test module (src/lib.rs:307-354) is not part of this model.
- Corrected.Reroute: the corrected worklist takes a `fuel` bound. With both corrections, coincident points with `min_size <= 0` could split without end. Its lemmas therefore speak of "settles" and "never refused", not of termination.
- The corrected insertion is not wired into the `QuadTree` class. The class models the code as written.
- QuadTree.QuadTree.Insert: `RootResolvable` is required even where no split happens. A leaf root that still holds a handle whose item was removed (a `remove` at a position that missed it) is excluded, although the code inserts into such a root with room without any lookup and answers `Ok`. The model does not cover that state.
- QuadTree.QuadTree.Reinsert: `RootResolvable` is required in the same way as for `Insert`, so a leaf root holding a handle without an item is excluded even when no split happens.
- QuadTree.QuadTree.Insert: the exact count (one handle more) is stated only when routing reaches a leaf with room. After a split, the tree can lose handles as written (see "## Findings"), so there the contract bounds the handles from above and ties the result to `Rerouted`.
- QuadTree.QuadTree.Reinsert: the exact count is limited in the same way as for `Insert`.
- QuadTree.QuadTree.Remove: the contract keeps `Valid` but not `Resolvable`. A `remove` at a position that does not reach the handle's leaf deletes the item but leaves the handle in the tree. The code then panics on a later split that hands that handle back.
- QuadTreeInner.SearchRadius: the contract states soundness and the leaf case. The pruning is `QuadTreeInnerProps.SearchPrunes`, and completeness is `QuadTreeInnerProps.SearchFindsAll`.

## Findings

| source | as written | input that shows it | evidently intended | confidence | as-written member | corrected member |
|---|---|---|---|---|---|---|
| src/lib.rs:140 | a full leaf returns `self.split()`: only its former handles; the handle being inserted is neither stored nor returned | unit square, `max_nodes` 1, `min_size` 0.01: A at (0.1, 0.1), then B at (0.2, 0.2); every call answers `Ok`, and afterwards the tree holds only A | hand back the former handles together with the new one, so the worklist places all of them | not executed | `Corrected.SplitDropsHandle` | `Corrected.InsertConserves` |
| src/lib.rs:148-161 | an internal node discards what its child's `insert` returns and answers `Ok(Vec::new())`, so the handles drained by a split below the root are lost | the root already split; A at (0.1, 0.1), then B at (0.2, 0.2): the top-left child splits, the root answers `Ok([])`, and the tree holds nothing | pass the child's list up to the worklist | not executed | `Corrected.NestedSplitLoses` | `Corrected.RerouteConserves` |
| src/lib.rs:182-190 | the top-right child spans zero width (`x` from midX to midX) and is stored at index 1, which routing uses for bottom-left points; index 2, which routing uses for top-right points, holds the bottom-left region | after one split of the unit square, inserting (0.25, 0.75) answers `Err`; every in-bounds point with `x <= midX` and `y <= midY` disagreeing is refused | store [top-left, bottom-left, top-right, bottom-right], with top-right spanning the right half | not executed | `QuadTreeInnerProps.SplitRoutingMismatch` | `Corrected.RerouteNeverRefused` |
