/**
 * The sorted `Vec<u64>` of handles a leaf keeps: `partition_point` and
 * `Vec::insert` to add (src/lib.rs:135-136), `binary_search` and `Vec::remove`
 * to take away (src/lib.rs:258-259).
 */
module SortedVec {

  /** Ascending, duplicates allowed (`partition_point` admits them). */
  ghost predicate Sorted(s: seq<nat>)
  {
    forall i, j :: 0 <= i < j < |s| ==> s[i] <= s[j]
  }

  /**
   * `s.partition_point(|&x| x < h)`: the bisection over `[lo, hi)` that
   * `partition_point` runs. On a sorted slice the result is the first index
   * whose element is not below `h`.
   */
  function Bisect(s: seq<nat>, h: nat, lo: nat, hi: nat): (k: nat)
    requires lo <= hi <= |s|
    ensures lo <= k <= hi
    ensures Sorted(s) && (forall i :: 0 <= i < lo ==> s[i] < h) && (forall i :: hi <= i < |s| ==> h <= s[i])
            ==> (forall i :: 0 <= i < k ==> s[i] < h) && (forall i :: k <= i < |s| ==> h <= s[i])
    decreases hi - lo
  {
    if lo == hi then lo
    else
      var mid := (lo + hi) / 2;
      if s[mid] < h then Bisect(s, h, mid + 1, hi) else Bisect(s, h, lo, mid)
  }

  function PartitionPoint(s: seq<nat>, h: nat): (k: nat)
    ensures k <= |s|
    ensures Sorted(s) ==> (forall i :: 0 <= i < k ==> s[i] < h) && (forall i :: k <= i < |s| ==> h <= s[i])
  {
    Bisect(s, h, 0, |s|)
  }

  /** What `binary_search` returns: `Ok(index)` of a match, or `Err(index)` where `h` would go. */
  datatype Search = Found(index: nat) | NotFound(index: nat)

  /**
   * `s.binary_search(&h)`. With duplicates Rust may report any matching
   * index; this one reports the first, and removing any copy of `h` leaves
   * the same sequence.
   */
  function BinarySearch(s: seq<nat>, h: nat): (r: Search)
    ensures r.index <= |s|
    ensures r.Found? ==> r.index < |s| && s[r.index] == h
    ensures Sorted(s) ==> (r.Found? <==> h in s)
  {
    var k := PartitionPoint(s, h);
    if k < |s| && s[k] == h then Found(k) else NotFound(k)
  }

  /** `Vec::insert(idx, h)` at the partition point. */
  function InsertSorted(s: seq<nat>, h: nat): (t: seq<nat>)
    ensures multiset(t) == multiset(s) + multiset{h}
    ensures Sorted(s) ==> Sorted(t)
  {
    var k := PartitionPoint(s, h);
    InsertAtCounts(s, k, h);
    InsertAtSorted(s, k, h);
    s[..k] + [h] + s[k..]
  }

  /** Putting `h` anywhere adds one copy of `h`. */
  lemma InsertAtCounts(s: seq<nat>, k: nat, h: nat)
    requires k <= |s|
    ensures multiset(s[..k] + [h] + s[k..]) == multiset(s) + multiset{h}
  {
    assert s == s[..k] + s[k..];
  }

  /** Putting `h` at an index that splits `s` into "below h" and "not below h" keeps it sorted. */
  lemma InsertAtSorted(s: seq<nat>, k: nat, h: nat)
    requires k <= |s|
    ensures Sorted(s) && (forall i :: 0 <= i < k ==> s[i] < h) && (forall i :: k <= i < |s| ==> h <= s[i])
            ==> Sorted(s[..k] + [h] + s[k..])
  {
    var t := s[..k] + [h] + s[k..];
    if Sorted(s) && (forall i :: 0 <= i < k ==> s[i] < h) && (forall i :: k <= i < |s| ==> h <= s[i]) {
      forall i, j | 0 <= i < j < |t| ensures t[i] <= t[j] {
        var a := if i < k then s[i] else if i == k then h else s[i - 1];
        var b := if j < k then s[j] else if j == k then h else s[j - 1];
        assert t[i] == a && t[j] == b;
        if i < k && j > k {
          assert s[i] < h <= s[j - 1];
        }
      }
    }
  }

  /** `Vec::remove(i)`: the element at `i` leaves, the order of the rest is kept. */
  function RemoveAt(s: seq<nat>, i: nat): (t: seq<nat>)
    requires i < |s|
    ensures |t| == |s| - 1
    ensures multiset(t) == multiset(s) - multiset{s[i]}
    ensures Sorted(s) ==> Sorted(t)
  {
    RemoveAtCounts(s, i);
    RemoveAtSorted(s, i);
    s[..i] + s[i + 1..]
  }

  /** Dropping the element at `i` removes one copy of it. */
  lemma RemoveAtCounts(s: seq<nat>, i: nat)
    requires i < |s|
    ensures multiset(s[..i] + s[i + 1..]) == multiset(s) - multiset{s[i]}
  {
    assert s == s[..i] + [s[i]] + s[i + 1..];
  }

  /** Dropping one element keeps the rest's order, so a sorted sequence stays sorted. */
  lemma RemoveAtSorted(s: seq<nat>, i: nat)
    requires i < |s|
    ensures Sorted(s) ==> Sorted(s[..i] + s[i + 1..])
  {
    var t := s[..i] + s[i + 1..];
    if Sorted(s) {
      forall a, b | 0 <= a < b < |t| ensures t[a] <= t[b] {
        var a' := if a < i then a else a + 1;
        var b' := if b < i then b else b + 1;
        assert t[a] == s[a'] && t[b] == s[b'];
      }
    }
  }

  /** Removing a handle right after inserting it gives back the very same sequence. */
  lemma RemoveUndoesInsert(s: seq<nat>, h: nat)
    requires Sorted(s)
    ensures BinarySearch(InsertSorted(s, h), h) == Found(PartitionPoint(s, h))
    ensures RemoveAt(InsertSorted(s, h), PartitionPoint(s, h)) == s
  {
    var k := PartitionPoint(s, h);
    var t := InsertSorted(s, h);
    assert t == s[..k] + [h] + s[k..];
    assert t[k] == h;
    forall i | 0 <= i < k ensures t[i] < h {
      assert t[i] == s[i];
    }
    PartitionPointUnique(t, h, k);
    assert t[..k] + t[k + 1..] == s[..k] + s[k..];
    assert s[..k] + s[k..] == s;
  }

  /** On a sorted sequence the partition point is the only index that splits it into "below h" and "not below h". */
  lemma PartitionPointUnique(s: seq<nat>, h: nat, k: nat)
    requires Sorted(s) && k <= |s|
    requires forall i :: 0 <= i < k ==> s[i] < h
    requires forall i :: k <= i < |s| ==> h <= s[i]
    ensures PartitionPoint(s, h) == k
  {
    var k' := PartitionPoint(s, h);
    assert k < |s| ==> h <= s[k];
    assert k' < |s| ==> h <= s[k'];
  }
}
