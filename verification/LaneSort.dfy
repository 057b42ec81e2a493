/** Duplicate detection: an in-place heap sort of key numbers by their lane vectors. */
module LaneSort {
  import opened Numbers

  // ---------------------------------------------------------------- the order

  /** Lexicographic order of lane vectors, from lane l on. */
  predicate Less(a: seq<nat>, b: seq<nat>, l: nat)
    requires |a| == |b| && l <= |a|
    decreases |a| - l
  {
    l < |a| && if a[l] != b[l] then a[l] < b[l] else Less(a, b, l + 1)
  }

  lemma {:induction false} LessIsTotal(a: seq<nat>, b: seq<nat>, l: nat)
    requires |a| == |b| && l <= |a|
    ensures !(Less(a, b, l) && Less(b, a, l))
    ensures !Less(a, b, l) && !Less(b, a, l) ==> a[l..] == b[l..]
    decreases |a| - l
  {
    if l < |a| && a[l] == b[l] {
      LessIsTotal(a, b, l + 1);
      assert a[l..] == [a[l]] + a[l + 1..] && b[l..] == [b[l]] + b[l + 1..];
    }
  }

  lemma {:induction false} NotLessIsTransitive(a: seq<nat>, b: seq<nat>, c: seq<nat>, l: nat)
    requires |a| == |b| == |c| && l <= |a|
    requires !Less(b, a, l) && !Less(c, b, l)
    ensures !Less(c, a, l)
    decreases |a| - l
  {
    if l < |a| && a[l] == b[l] == c[l] {
      NotLessIsTransitive(a, b, c, l + 1);
    }
  }

  /** All lane vectors have one length. */
  ghost predicate Uniform(lanes: seq<seq<nat>>, width: nat) {
    forall i: nat | i < |lanes| :: |lanes[i]| == width
  }

  /** Key i does not come after key j. */
  ghost predicate AtMost(lanes: seq<seq<nat>>, i: nat, j: nat)
    requires i < |lanes| && j < |lanes| && |lanes[i]| == |lanes[j]|
  {
    !Less(lanes[j], lanes[i], 0)
  }

  lemma AtMostTransitive(lanes: seq<seq<nat>>, width: nat, i: nat, j: nat, k: nat)
    requires Uniform(lanes, width) && i < |lanes| && j < |lanes| && k < |lanes|
    requires AtMost(lanes, i, j) && AtMost(lanes, j, k)
    ensures AtMost(lanes, i, k)
  {
    NotLessIsTransitive(lanes[i], lanes[j], lanes[k], 0);
  }

  // ---------------------------------------------------------------- heaps

  /** All entries are key numbers. */
  ghost predicate Indices(idx: seq<nat>, lanes: seq<seq<nat>>, width: nat) {
    Uniform(lanes, width) && forall x: nat | x < |idx| :: idx[x] < |lanes|
  }

  /** Neither child of position p, among the first `end` positions, comes after it. */
  ghost predicate Dominates(idx: seq<nat>, lanes: seq<seq<nat>>, width: nat, p: nat, end: nat)
    requires Indices(idx, lanes, width) && end <= |idx|
  {
    && (2 * p + 1 < end ==> AtMost(lanes, idx[2 * p + 1], idx[p]))
    && (2 * p + 2 < end ==> AtMost(lanes, idx[2 * p + 2], idx[p]))
  }

  ghost predicate Heap(idx: seq<nat>, lanes: seq<seq<nat>>, width: nat, lo: nat, end: nat)
    requires Indices(idx, lanes, width) && end <= |idx|
  {
    forall p: nat | lo <= p < end :: Dominates(idx, lanes, width, p, end)
  }

  /** The root of a heap comes last. */
  lemma {:induction false} RootIsLast(idx: seq<nat>, lanes: seq<seq<nat>>, width: nat, end: nat, c: nat)
    requires Indices(idx, lanes, width) && c < end <= |idx| && Heap(idx, lanes, width, 0, end)
    ensures AtMost(lanes, idx[c], idx[0])
  {
    if c == 0 {
      LessIsTotal(lanes[idx[0]], lanes[idx[0]], 0);
    } else {
      var p := (c - 1) / 2;
      assert Dominates(idx, lanes, width, p, end);
      assert c == 2 * p + 1 || c == 2 * p + 2;
      RootIsLast(idx, lanes, width, end, p);
      AtMostTransitive(lanes, width, idx[c], idx[p], idx[0]);
    }
  }

  /** Sifting from lo, currently at `root`: the heap is right everywhere else, and would be right
      across root if root were removed. */
  ghost predicate Sifting(idx: seq<nat>, lanes: seq<seq<nat>>, width: nat, lo: nat, root: nat, end: nat)
    requires Indices(idx, lanes, width) && root < end <= |idx|
  {
    && lo <= root
    && (forall p: nat | lo <= p < end && p != root :: Dominates(idx, lanes, width, p, end))
    && (root > lo ==>
          var g := (root - 1) / 2;
          && g >= lo
          && (2 * root + 1 < end ==> AtMost(lanes, idx[2 * root + 1], idx[g]))
          && (2 * root + 2 < end ==> AtMost(lanes, idx[2 * root + 2], idx[g])))
  }

  /** Swapping the root with its later child moves the only defect down to the child. */
  lemma SiftDown(idx: seq<nat>, idx': seq<nat>, lanes: seq<seq<nat>>, width: nat, lo: nat, root: nat, child: nat,
      end: nat)
    requires Indices(idx, lanes, width) && root < end <= |idx| && Sifting(idx, lanes, width, lo, root, end)
    requires child < end && (child == 2 * root + 1 || child == 2 * root + 2)
    requires AtMost(lanes, idx[root], idx[child])
    requires forall c: nat | c < end && (c == 2 * root + 1 || c == 2 * root + 2) :: AtMost(lanes, idx[c], idx[child])
    requires idx' == idx[root := idx[child]][child := idx[root]]
    ensures Indices(idx', lanes, width) && Sifting(idx', lanes, width, lo, child, end)
  {
    forall p: nat | lo <= p < end && p != child ensures Dominates(idx', lanes, width, p, end) {
      if p != root {
        assert Dominates(idx, lanes, width, p, end);
      }
    }
    assert Dominates(idx, lanes, width, child, end);
    assert (child - 1) / 2 == root;
  }

  method Sift(idx: array<nat>, lanes: seq<seq<nat>>, width: nat, lo: nat, end: nat)
    requires Indices(idx[..], lanes, width) && lo < end <= idx.Length
    requires Heap(idx[..], lanes, width, lo + 1, end)
    modifies idx
    ensures Indices(idx[..], lanes, width) && Heap(idx[..], lanes, width, lo, end)
    ensures multiset(idx[..end]) == multiset(old(idx[..end]))
    ensures idx[end..] == old(idx[end..])
  {
    var root := lo;
    while true
      invariant Indices(idx[..], lanes, width) && root < end && Sifting(idx[..], lanes, width, lo, root, end)
      invariant multiset(idx[..end]) == multiset(old(idx[..end]))
      invariant idx[end..] == old(idx[end..])
      decreases end - root
    {
      var child := 2 * root + 1;
      if child >= end {
        break;
      }
      if child + 1 < end && Less(lanes[idx[child]], lanes[idx[child + 1]], 0) {
        LessIsTotal(lanes[idx[child]], lanes[idx[child + 1]], 0);
        child := child + 1;
      }
      LessIsTotal(lanes[idx[child]], lanes[idx[child]], 0);
      if !Less(lanes[idx[root]], lanes[idx[child]], 0) {
        SiftStops(idx[..], lanes, width, lo, root, child, end);
        break;
      }
      LessIsTotal(lanes[idx[root]], lanes[idx[child]], 0);
      ghost var before := idx[..];
      idx[root], idx[child] := idx[child], idx[root];
      SiftDown(before, idx[..], lanes, width, lo, root, child, end);
      SwapPermutes(before, idx[..], root, child, end);
      root := child;
    }
  }

  /** When the later child does not come after the root, the heap is complete. */
  lemma SiftStops(idx: seq<nat>, lanes: seq<seq<nat>>, width: nat, lo: nat, root: nat, child: nat, end: nat)
    requires Indices(idx, lanes, width) && root < end <= |idx| && Sifting(idx, lanes, width, lo, root, end)
    requires child < end && (child == 2 * root + 1 || child == 2 * root + 2)
    requires AtMost(lanes, idx[child], idx[root])
    requires forall c: nat | c < end && (c == 2 * root + 1 || c == 2 * root + 2) :: AtMost(lanes, idx[c], idx[child])
    ensures Heap(idx, lanes, width, lo, end)
  {
    forall c: nat | c < end && (c == 2 * root + 1 || c == 2 * root + 2) ensures AtMost(lanes, idx[c], idx[root]) {
      AtMostTransitive(lanes, width, idx[c], idx[child], idx[root]);
    }
  }

  lemma SwapPermutes(s: seq<nat>, t: seq<nat>, i: nat, j: nat, end: nat)
    requires i < end && j < end <= |s| && t == s[i := s[j]][j := s[i]]
    ensures multiset(t[..end]) == multiset(s[..end])
    ensures t[end..] == s[end..]
  {
  }

  // ---------------------------------------------------------------- the sort

  /** Positions from `end` on are in order, and nothing before them comes after them. */
  ghost predicate SortedFrom(idx: seq<nat>, lanes: seq<seq<nat>>, width: nat, end: nat)
    requires Indices(idx, lanes, width)
  {
    forall x: nat, y: nat | x < y < |idx| && end <= y :: AtMost(lanes, idx[x], idx[y])
  }

  /** Rearranging the first `end` positions does not disturb the sorted rest. */
  lemma RearrangeKeepsSorted(idx: seq<nat>, idx': seq<nat>, lanes: seq<seq<nat>>, width: nat, end: nat)
    requires Indices(idx, lanes, width) && Indices(idx', lanes, width) && end <= |idx| == |idx'|
    requires multiset(idx'[..end]) == multiset(idx[..end]) && idx'[end..] == idx[end..]
    requires SortedFrom(idx, lanes, width, end)
    ensures SortedFrom(idx', lanes, width, end)
  {
    assert forall y: nat | end <= y < |idx| :: idx'[y] == idx'[end..][y - end] == idx[y];
    forall x: nat, y: nat | x < y < |idx| && end <= y ensures AtMost(lanes, idx'[x], idx'[y]) {
      if x < end {
        assert idx'[x] == idx'[..end][x];
        assert idx'[x] in multiset(idx'[..end]);
        assert idx'[x] in idx[..end];
        var z: nat :| z < end && idx[..end][z] == idx'[x];
        assert AtMost(lanes, idx[z], idx[y]);
      }
    }
  }

  /** Moving the root of the heap to the end extends the sorted part by one. */
  lemma ExtractKeepsSorted(idx: seq<nat>, idx': seq<nat>, lanes: seq<seq<nat>>, width: nat, end: nat)
    requires Indices(idx, lanes, width) && end < |idx| && Heap(idx, lanes, width, 0, end + 1)
    requires SortedFrom(idx, lanes, width, end + 1)
    requires idx' == idx[0 := idx[end]][end := idx[0]]
    ensures Indices(idx', lanes, width)
    ensures SortedFrom(idx', lanes, width, end) && Heap(idx', lanes, width, 1, end)
  {
    forall c: nat | c <= end ensures AtMost(lanes, idx[c], idx[0]) {
      RootIsLast(idx, lanes, width, end + 1, c);
    }
    forall x: nat, y: nat | x < y < |idx| && end <= y ensures AtMost(lanes, idx'[x], idx'[y]) {
      if end < y {
        var z: nat := if x == 0 then end else if x == end then 0 else x;
        assert AtMost(lanes, idx[z], idx[y]);
      }
    }
    forall p: nat | 1 <= p < end ensures Dominates(idx', lanes, width, p, end) {
      assert Dominates(idx, lanes, width, p, end + 1);
    }
  }

  /** The heap sort: a permutation of the entries, in lane order. */
  method HeapSort(idx: array<nat>, lanes: seq<seq<nat>>, width: nat)
    requires Indices(idx[..], lanes, width)
    modifies idx
    ensures Indices(idx[..], lanes, width)
    ensures multiset(idx[..]) == multiset(old(idx[..]))
    ensures SortedFrom(idx[..], lanes, width, 0)
  {
    var n := idx.Length;
    var s: nat := n / 2;
    while s > 0
      invariant s <= n / 2 && Indices(idx[..], lanes, width) && Heap(idx[..], lanes, width, s, n)
      invariant multiset(idx[..]) == multiset(old(idx[..]))
    {
      s := s - 1;
      assert idx[..n] == idx[..];
      Sift(idx, lanes, width, s, n);
      assert idx[..n] == idx[..];
    }
    var end: nat := n;
    while end > 1
      invariant end <= n && Indices(idx[..], lanes, width) && Heap(idx[..], lanes, width, 0, end)
      invariant SortedFrom(idx[..], lanes, width, end)
      invariant multiset(idx[..]) == multiset(old(idx[..]))
    {
      end := end - 1;
      ExtractLast(idx, lanes, width, end);
    }
  }

  /** One extraction: the root goes to position `end`, and the rest becomes a heap again. */
  method ExtractLast(idx: array<nat>, lanes: seq<seq<nat>>, width: nat, end: nat)
    requires Indices(idx[..], lanes, width) && 0 < end < idx.Length
    requires Heap(idx[..], lanes, width, 0, end + 1) && SortedFrom(idx[..], lanes, width, end + 1)
    modifies idx
    ensures Indices(idx[..], lanes, width) && Heap(idx[..], lanes, width, 0, end)
    ensures SortedFrom(idx[..], lanes, width, end)
    ensures multiset(idx[..]) == multiset(old(idx[..]))
  {
    ghost var before := idx[..];
    idx[0], idx[end] := idx[end], idx[0];
    ghost var swapped := idx[..];
    ExtractKeepsSorted(before, swapped, lanes, width, end);
    SwapPermutes(before, swapped, 0, end, idx.Length);
    assert before[..idx.Length] == before && swapped[..idx.Length] == swapped;
    Sift(idx, lanes, width, 0, end);
    assert swapped[..end] + swapped[end..] == swapped && idx[..end] + idx[end..] == idx[..];
    RearrangeKeepsSorted(swapped, idx[..], lanes, width, end);
  }

  // ---------------------------------------------------------------- the duplicate scan

  /** In sorted order, equal lane vectors would be neighbours: no equal neighbours, no duplicates. */
  lemma NeighboursSuffice(idx: seq<nat>, lanes: seq<seq<nat>>, width: nat, x: nat, y: nat)
    requires Indices(idx, lanes, width) && SortedFrom(idx, lanes, width, 0)
    requires x < y < |idx| && lanes[idx[x]] == lanes[idx[y]]
    ensures lanes[idx[y - 1]] == lanes[idx[y]]
  {
    if x < y - 1 {
      assert AtMost(lanes, idx[x], idx[y - 1]) && AtMost(lanes, idx[y - 1], idx[y]);
      LessIsTotal(lanes[idx[y - 1]], lanes[idx[y]], 0);
      assert lanes[idx[y - 1]][0..] == lanes[idx[y - 1]] && lanes[idx[y]][0..] == lanes[idx[y]];
    }
  }

  /** Sort the key numbers, then compare neighbours: finds two keys with equal lanes exactly when there are any. */
  method FindEqualLanes(lanes: seq<seq<nat>>, width: nat) returns (found: bool, i: nat, j: nat)
    requires Uniform(lanes, width) && lanes != []
    ensures found ==> i < |lanes| && j < |lanes| && i != j && lanes[i] == lanes[j]
    ensures !found ==> Distinct(lanes)
  {
    var n := |lanes|;
    var idx := new nat[n](x => x);
    ghost var start := idx[..];
    assert forall v: nat | v < n :: start[v] == v;
    HeapSort(idx, lanes, width);
    ghost var sorted := idx[..];
    PermutationOfBelow(start, sorted, n);
    i, j := 0, 0;
    for x := 1 to n
      invariant idx[..] == sorted
      invariant forall y: nat | 1 <= y < x :: lanes[sorted[y - 1]] != lanes[sorted[y]]
    {
      if lanes[idx[x - 1]] == lanes[idx[x]] {
        return true, idx[x - 1], idx[x];
      }
    }
    forall k: nat, l: nat | k < l < n ensures lanes[k] != lanes[l] {
      assert k in sorted && l in sorted;
      var x: nat :| x < n && sorted[x] == k;
      var y: nat :| y < n && sorted[y] == l;
      if lanes[k] == lanes[l] {
        NeighboursSuffice(sorted, lanes, width, if x < y then x else y, if x < y then y else x);
      }
    }
    found := false;
  }

  /** A rearrangement of 0 .. n-1 still has every number once. */
  lemma PermutationOfBelow(s: seq<nat>, t: seq<nat>, n: nat)
    requires |s| == |t| == n && multiset(s) == multiset(t)
    requires forall v: nat | v < n :: s[v] == v
    ensures forall v: nat | v < n :: v in t
    ensures Distinct(t)
  {
    forall v: nat | v < n ensures v in t {
      assert s[v] in multiset(s);
    }
    ElementCount(t);
    assert Below(n) <= Elements(t);
    SubsetSize(Below(n), Elements(t));
  }
}
