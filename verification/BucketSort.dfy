/** Grouping keys by bucket: a counting sort, and the order in which buckets are placed. */
module BucketSort {
  import opened Numbers

  /** The keys of bucket b, in declaration order. */
  function KeysOf(bucket: seq<nat>, b: nat): (keys: seq<nat>)
  {
    if bucket == [] then []
    else
      var n := |bucket| - 1;
      var before := KeysOf(bucket[..n], b);
      if bucket[n] == b then before + [n] else before
  }

  /** KeysOf lists exactly the keys of the bucket, each once and ascending. */
  lemma {:induction false} KeysOfMembers(bucket: seq<nat>, b: nat)
    ensures forall x: nat | x < |KeysOf(bucket, b)| ::
      KeysOf(bucket, b)[x] < |bucket| && bucket[KeysOf(bucket, b)[x]] == b
    ensures forall i: nat | i < |bucket| && bucket[i] == b :: i in KeysOf(bucket, b)
    ensures forall x: nat, y: nat | x < y < |KeysOf(bucket, b)| :: KeysOf(bucket, b)[x] < KeysOf(bucket, b)[y]
  {
    if bucket != [] {
      var n := |bucket| - 1;
      KeysOfMembers(bucket[..n], b);
      var before := KeysOf(bucket[..n], b);
      forall i: nat | i < |bucket| && bucket[i] == b ensures i in KeysOf(bucket, b) {
        if i < n {
          assert bucket[..n][i] == b;
          assert i in before;
        }
      }
    }
  }

  lemma {:induction false} NobodyThere(bucket: seq<nat>, b: nat)
    requires forall k: nat | k < |bucket| :: bucket[k] != b
    ensures KeysOf(bucket, b) == []
  {
    if bucket != [] { NobodyThere(bucket[..|bucket| - 1], b); }
  }

  lemma KeysOfStep(bucket: seq<nat>, i: nat, b: nat)
    requires i < |bucket|
    ensures KeysOf(bucket[..i + 1], b) ==
      if bucket[i] == b then KeysOf(bucket[..i], b) + [i] else KeysOf(bucket[..i], b)
  {
    assert bucket[..i + 1][..i] == bucket[..i];
  }

  /** A prefix of the keys holds a prefix of each bucket. */
  lemma {:induction false} KeysOfPrefix(bucket: seq<nat>, i: nat, b: nat)
    requires i <= |bucket|
    ensures KeysOf(bucket[..i], b) <= KeysOf(bucket, b)
    decreases |bucket| - i
  {
    if i == |bucket| {
      assert bucket[..i] == bucket;
    } else {
      KeysOfStep(bucket, i, b);
      KeysOfPrefix(bucket, i + 1, b);
    }
  }

  /** Keys in buckets below b: where bucket b starts in the sorted order. */
  function Start(bucket: seq<nat>, b: nat): nat {
    if b == 0 then 0 else Start(bucket, b - 1) + |KeysOf(bucket, b - 1)|
  }

  lemma {:induction false} StartMonotone(bucket: seq<nat>, b: nat, c: nat)
    requires b < c
    ensures Start(bucket, b) + |KeysOf(bucket, b)| <= Start(bucket, c)
  {
    if b + 1 < c {
      StartMonotone(bucket, b, c - 1);
    }
  }

  lemma {:induction false} StartStep(bucket: seq<nat>, x: nat, b: nat)
    ensures Start(bucket + [x], b) == Start(bucket, b) + if x < b then 1 else 0
  {
    if b > 0 {
      StartStep(bucket, x, b - 1);
      assert (bucket + [x])[..|bucket|] == bucket;
    }
  }

  /** Every key is in some bucket. */
  lemma {:induction false} StartTotal(bucket: seq<nat>, count: nat)
    requires forall i: nat | i < |bucket| :: bucket[i] < count
    ensures Start(bucket, count) == |bucket|
  {
    if bucket == [] {
      StartOfNothing(count);
    } else {
      var n := |bucket| - 1;
      StartTotal(bucket[..n], count);
      StartStep(bucket[..n], bucket[n], count);
      assert bucket == bucket[..n] + [bucket[n]];
    }
  }

  lemma {:induction false} StartOfNothing(b: nat)
    ensures Start([], b) == 0
  {
    if b > 0 { StartOfNothing(b - 1); }
  }

  /** start[b] is the first place of bucket b, and order lists bucket after bucket. */
  ghost predicate Sorted(bucket: seq<nat>, count: nat, start: seq<nat>, order: seq<nat>) {
    && |start| == count + 1 && |order| == |bucket|
    && (forall b: nat | b <= count :: start[b] == Start(bucket, b))
    && (forall b: nat, x: nat | b < count && x < |KeysOf(bucket, b)| ::
          Start(bucket, b) + x < |order| && order[Start(bucket, b) + x] == KeysOf(bucket, b)[x])
  }

  /** The slice of the order between two starts is the bucket. */
  lemma BucketSlice(bucket: seq<nat>, count: nat, start: seq<nat>, order: seq<nat>, b: nat)
    requires Sorted(bucket, count, start, order) && b < count
    requires forall i: nat | i < |bucket| :: bucket[i] < count
    ensures |start| == count + 1 && start[b] <= start[b + 1] <= |order|
    ensures order[start[b]..start[b + 1]] == KeysOf(bucket, b)
  {
    hide KeysOf;
    StartTotal(bucket, count);
    if b + 1 < count { StartMonotone(bucket, b + 1, count); }
    var slice := order[start[b]..start[b + 1]];
    assert |slice| == |KeysOf(bucket, b)|;
    forall x: nat | x < |slice| ensures slice[x] == KeysOf(bucket, b)[x] {
      assert order[Start(bucket, b) + x] == KeysOf(bucket, b)[x];
    }
  }

  /** The order is a permutation of the keys. */
  lemma SortedIsPermutation(bucket: seq<nat>, count: nat, start: seq<nat>, order: seq<nat>, i: nat)
    requires Sorted(bucket, count, start, order) && i < |bucket|
    requires forall j: nat | j < |bucket| :: bucket[j] < count
    ensures i in order && (forall v: nat | v < |order| :: order[v] < |bucket|)
    ensures Distinct(order)
  {
    forall k: nat | k < |bucket| ensures k in order {
      KeysOfMembers(bucket, bucket[k]);
      var x :| 0 <= x < |KeysOf(bucket, bucket[k])| && KeysOf(bucket, bucket[k])[x] == k;
      assert order[Start(bucket, bucket[k]) + x] == k;
    }
    Surjection(order, |bucket|);
  }

  /** n entries that cover all numbers below n are distinct and below n. */
  lemma {:induction false} Surjection(s: seq<nat>, n: nat)
    requires |s| == n && forall v: nat | v < n :: v in s
    ensures Distinct(s) && forall i: nat | i < n :: s[i] < n
  {
    var elements := Elements(s);
    ElementCount(s);
    assert Below(n) <= elements;
    SubsetSize(Below(n), elements);
    forall i: nat | i < n ensures s[i] < n {
      assert s[i] in elements;
    }
  }

  method CountingSort(bucket: seq<nat>, count: nat) returns (start: array<nat>, order: array<nat>)
    requires forall i: nat | i < |bucket| :: bucket[i] < count
    ensures fresh(start) && fresh(order)
    ensures Sorted(bucket, count, start[..], order[..])
  {
    start := BucketStarts(bucket, count);
    order := FillOrder(bucket, count, start);
  }

  /** Counts shifted by one, then prefix sums in place. */
  lemma NextStart(bucket: seq<nat>, b: nat)
    ensures Start(bucket, 0) == 0 && Start(bucket, b + 1) == Start(bucket, b) + |KeysOf(bucket, b)|
  {
  }

  method BucketStarts(bucket: seq<nat>, count: nat) returns (start: array<nat>)
    requires forall i: nat | i < |bucket| :: bucket[i] < count
    ensures fresh(start) && start.Length == count + 1
    ensures forall b: nat | b <= count :: start[b] == Start(bucket, b)
  {
    hide *;
    start := CountBuckets(bucket, count);
    NextStart(bucket, 0);
    for b := 0 to count
      invariant forall c: nat | c <= b :: start[c] == Start(bucket, c)
      invariant forall c: nat | b <= c < count :: start[c + 1] == |KeysOf(bucket, c)|
    {
      NextStart(bucket, b);
      start[b + 1] := start[b + 1] + start[b];
    }
  }

  method CountBuckets(bucket: seq<nat>, count: nat) returns (tally: array<nat>)
    requires forall i: nat | i < |bucket| :: bucket[i] < count
    ensures fresh(tally) && tally.Length == count + 1
    ensures tally[0] == 0 && forall b: nat | b < count :: tally[b + 1] == |KeysOf(bucket, b)|
  {
    tally := new nat[count + 1](_ => 0);
    for i := 0 to |bucket|
      invariant tally[0] == 0
      invariant forall b: nat | b < count :: tally[b + 1] == |KeysOf(bucket[..i], b)|
    {
      label before:
      tally[bucket[i] + 1] := tally[bucket[i] + 1] + 1;
      forall b: nat {:trigger KeysOf(bucket[..i + 1], b)} | b < count
        ensures tally[b + 1] == |KeysOf(bucket[..i + 1], b)|
      {
        KeysOfStep(bucket, i, b);
        assert old@before(tally[b + 1]) == |KeysOf(bucket[..i], b)|;
      }
    }
    assert bucket[..|bucket|] == bucket;
  }

  /** Each key, in declaration order, to the next free place of its bucket. */
  method FillOrder(bucket: seq<nat>, count: nat, start: array<nat>) returns (order: array<nat>)
    requires forall i: nat | i < |bucket| :: bucket[i] < count
    requires start.Length == count + 1 && forall b: nat | b <= count :: start[b] == Start(bucket, b)
    ensures fresh(order)
    ensures Sorted(bucket, count, start[..], order[..])
  {
    hide KeysOf, Start, Filled;
    order := new nat[|bucket|];
    var fill := new nat[count](_ => 0);
    NothingFilled(bucket, count, fill[..], order[..]);
    for i := 0 to |bucket|
      invariant Filled(bucket, count, fill[..], order[..], i)
    {
      var bk := bucket[i];
      NextPlace(bucket, count, fill[..], order[..], i);
      order[start[bk] + fill[bk]] := i;
      fill[bk] := fill[bk] + 1;
    }
    AllFilled(bucket, count, start[..], fill[..], order[..]);
  }

  /** The list is in the array, from `first` on. */
  ghost predicate Stored(order: seq<nat>, first: nat, keys: seq<nat>) {
    forall x: nat | x < |keys| :: first + x < |order| && order[first + x] == keys[x]
  }

  /** The first i keys are in place, and fill counts them. */
  ghost predicate Filled(bucket: seq<nat>, count: nat, fill: seq<nat>, order: seq<nat>, i: nat) {
    && |fill| == count && |order| == |bucket| && i <= |bucket|
    && forall b: nat | b < |fill| ::
         fill[b] == |KeysOf(bucket[..i], b)| && Stored(order, Start(bucket, b), KeysOf(bucket[..i], b))
  }

  lemma NothingFilled(bucket: seq<nat>, count: nat, fill: seq<nat>, order: seq<nat>)
    requires |fill| == count && |order| == |bucket| && forall b: nat | b < count :: fill[b] == 0
    ensures Filled(bucket, count, fill, order, 0)
  {
  }

  /** Key i goes to the next free place of its bucket. */
  lemma NextPlace(bucket: seq<nat>, count: nat, fill: seq<nat>, order: seq<nat>, i: nat)
    requires i < |bucket| && Filled(bucket, count, fill, order, i)
    requires forall k: nat | k < |bucket| :: bucket[k] < count
    ensures |fill| == count && |order| == |bucket| && Start(bucket, bucket[i]) + fill[bucket[i]] < |bucket|
    ensures Filled(bucket, count, fill[bucket[i] := fill[bucket[i]] + 1],
      order[Start(bucket, bucket[i]) + fill[bucket[i]] := i], i + 1)
  {
    hide KeysOf, Start, Stored;
    RoomInBucket(bucket, i, count);
    var place, fill' := Start(bucket, bucket[i]) + fill[bucket[i]], fill[bucket[i] := fill[bucket[i]] + 1];
    forall b: nat | b < |fill'|
      ensures fill'[b] == |KeysOf(bucket[..i + 1], b)|
      ensures Stored(order[place := i], Start(bucket, b), KeysOf(bucket[..i + 1], b))
    {
      assert fill[b] == |KeysOf(bucket[..i], b)|;
      OneBucket(bucket, order, i, b, place);
    }
  }

  /** What key i's going there means for bucket b. */
  lemma OneBucket(bucket: seq<nat>, order: seq<nat>, i: nat, b: nat, place: nat)
    requires i < |bucket| && place == Start(bucket, bucket[i]) + |KeysOf(bucket[..i], bucket[i])| < |order|
    requires Stored(order, Start(bucket, b), KeysOf(bucket[..i], b))
    ensures |KeysOf(bucket[..i + 1], b)| == |KeysOf(bucket[..i], b)| + if bucket[i] == b then 1 else 0
    ensures Stored(order[place := i], Start(bucket, b), KeysOf(bucket[..i + 1], b))
  {
    hide KeysOf, Start, Stored;
    KeysOfStep(bucket, i, b);
    OtherPlace(bucket, i, b);
    PutOne(order, Start(bucket, b), place, KeysOf(bucket[..i], b), KeysOf(bucket[..i + 1], b), i);
  }

  /** A stored list survives a write outside it, and grows by one that is just behind it. */
  lemma PutOne(order: seq<nat>, first: nat, place: nat, before: seq<nat>, after: seq<nat>, i: nat)
    requires place < |order| && (place < first || place >= first + |before|)
    requires Stored(order, first, before)
    requires after == before || (after == before + [i] && place == first + |before|)
    ensures Stored(order[place := i], first, after)
  {
    assert forall x: nat | x < |before| :: after[x] == before[x];
  }

  lemma AllFilled(bucket: seq<nat>, count: nat, start: seq<nat>, fill: seq<nat>, order: seq<nat>)
    requires Filled(bucket, count, fill, order, |bucket|)
    requires |start| == count + 1 && forall b: nat | b <= count :: start[b] == Start(bucket, b)
    ensures Sorted(bucket, count, start, order)
  {
    assert bucket[..|bucket|] == bucket;
  }

  /** The next free place of key i's bucket is inside the order array. */
  lemma RoomInBucket(bucket: seq<nat>, i: nat, count: nat)
    requires i < |bucket| && forall j: nat | j < |bucket| :: bucket[j] < count
    ensures Start(bucket, bucket[i]) + |KeysOf(bucket[..i], bucket[i])| < |bucket|
  {
    KeysOfStep(bucket, i, bucket[i]);
    KeysOfPrefix(bucket, i + 1, bucket[i]);
    StartTotal(bucket, count);
    StartMonotone(bucket, bucket[i], count);
  }

  /** The place key i goes to is not one that earlier keys, of its own bucket or another, were put in. */
  lemma OtherPlace(bucket: seq<nat>, i: nat, b: nat)
    requires i < |bucket|
    ensures var place := Start(bucket, bucket[i]) + |KeysOf(bucket[..i], bucket[i])|;
      place < Start(bucket, b) || place >= Start(bucket, b) + |KeysOf(bucket[..i], b)|
  {
    var bk := bucket[i];
    if b != bk {
      KeysOfStep(bucket, i, bk);
      KeysOfPrefix(bucket, i + 1, bk);
      KeysOfPrefix(bucket, i, b);
      if b < bk { StartMonotone(bucket, b, bk); } else { StartMonotone(bucket, bk, b); }
    }
  }

  // ---------------------------------------------------------------- largest bucket first

  /** entries lists bucket numbers below |size|, each once, largest bucket first, those of one size in ascending
      order. */
  ghost predicate LargestFirst(size: seq<nat>, entries: seq<nat>) {
    && Distinct(entries)
    && (forall p: nat | p < |entries| :: entries[p] < |size|)
    && (forall p: nat, q: nat | p < q < |entries| ::
          size[entries[p]] > size[entries[q]] || (size[entries[p]] == size[entries[q]] && entries[p] < entries[q]))
  }

  /** Buckets of more than sz keys, and those of exactly sz keys with a number below upTo, are the ones listed. */
  ghost predicate Listed(size: seq<nat>, entries: seq<nat>, sz: nat, upTo: nat) {
    && LargestFirst(size, entries)
    && (forall b: nat | b < |size| :: b in entries <==> size[b] > sz || (size[b] == sz && b < upTo))
  }

  /** The largest size. */
  function Largest(size: seq<nat>): (max: nat)
    ensures forall b: nat | b < |size| :: size[b] <= max
  {
    if size == [] then 0
    else
      var before := Largest(size[..|size| - 1]);
      assert forall b: nat | b < |size| - 1 :: size[b] == size[..|size| - 1][b];
      if size[|size| - 1] > before then size[|size| - 1] else before
  }

  /** The bucket numbers of size sz, ascending, then those of size sz - 1, and so on down to the empty ones. */
  function BySize(size: seq<nat>, sz: nat): seq<nat> {
    KeysOf(size, sz) + if sz == 0 then [] else BySize(size, sz - 1)
  }

  /** The order in which buckets are placed. */
  function Border(size: seq<nat>): seq<nat> {
    BySize(size, Largest(size))
  }

  /** Every bucket of at most sz keys is in the list, once, and larger ones come first. */
  lemma {:induction false} BySizeListed(size: seq<nat>, sz: nat)
    ensures LargestFirst(size, BySize(size, sz))
    ensures forall b: nat :: b in BySize(size, sz) <==> b < |size| && size[b] <= sz
  {
    hide *;
    KeysOfMembers(size, sz);
    BySizeStep(size, sz);
    if sz > 0 {
      BySizeListed(size, sz - 1);
      JoinBySize(size, KeysOf(size, sz), BySize(size, sz - 1), sz);
    } else {
      JoinBySize(size, KeysOf(size, sz), [], sz);
    }
  }

  lemma BySizeStep(size: seq<nat>, sz: nat)
    ensures BySize(size, sz) == KeysOf(size, sz) + if sz == 0 then [] else BySize(size, sz - 1)
    ensures LargestFirst(size, []) && Border(size) == BySize(size, Largest(size))
  {
    hide KeysOf, Largest;
  }

  lemma JoinBySize(size: seq<nat>, larger: seq<nat>, rest: seq<nat>, sz: nat)
    requires Distinct(larger) && (forall b: nat :: b in larger <==> b < |size| && size[b] == sz)
    requires forall p: nat, q: nat | p < q < |larger| :: larger[p] < larger[q]
    requires LargestFirst(size, rest) && (forall b: nat :: b in rest <==> b < |size| && size[b] < sz)
    ensures LargestFirst(size, larger + rest)
    ensures forall b: nat :: b in larger + rest <==> b < |size| && size[b] <= sz
  {
    assert forall p: nat | p < |larger| :: larger[p] in larger;
    assert forall p: nat | p < |rest| :: rest[p] in rest;
  }

  /** The order lists every bucket. */
  lemma BorderListsAll(size: seq<nat>)
    ensures LargestFirst(size, Border(size)) && |Border(size)| == |size|
    ensures forall b: nat | b < |size| :: b in Border(size)
    ensures forall j: nat | j < |size| :: Border(size)[j] < |size|
  {
    BySizeListed(size, Largest(size));
    hide BySize;
    DistinctBelow(Border(size), |size|);
    Surjected(Border(size), |size|);
  }

  /** One pass over the buckets appends those of exactly sz keys. */
  method AppendBucketsOfSize(size: seq<nat>, sz: nat, border: array<nat>, from: nat) returns (pos: nat)
    requires border.Length == |size| && from <= |size| && Listed(size, border[..from], sz, 0)
    modifies border
    ensures pos <= |size| && Listed(size, border[..pos], sz, |size|)
    ensures border[..pos] == old(border[..from]) + KeysOf(size, sz)
  {
    hide KeysOf;
    pos := from;
    assert KeysOf(size[..0], sz) == [] by { NoKeys(sz); }
    for b := 0 to |size|
      invariant pos <= |size| && Listed(size, border[..pos], sz, b)
      invariant border[..pos] == old(border[..from]) + KeysOf(size[..b], sz)
    {
      KeysOfStep(size, b, sz);
      if size[b] == sz {
        pos := AppendOne(size, sz, border, pos, b);
      }
    }
    assert size[..|size|] == size;
  }

  lemma NoKeys(b: nat)
    ensures KeysOf([], b) == []
  {
  }

  method AppendOne(size: seq<nat>, sz: nat, border: array<nat>, pos: nat, b: nat) returns (pos': nat)
    requires border.Length == |size| && pos <= |size| && Listed(size, border[..pos], sz, b)
    requires b < |size| && size[b] == sz
    modifies border
    ensures pos' <= |size| && border[..pos'] == old(border[..pos]) + [b]
    ensures Listed(size, border[..pos'], sz, b + 1)
  {
    var listed := border[..pos];
    assert forall p: nat | p < pos :: listed[p] in listed;
    assert Distinct(listed + [b]);
    DistinctBelow(listed + [b], |size|);
    border[pos] := b;
    pos' := pos + 1;
    assert border[..pos'] == listed + [b];
  }

  /** Buckets by descending size, by one pass per size; the empty ones come last. */
  method BucketsLargestFirst(size: seq<nat>) returns (border: array<nat>)
    ensures fresh(border) && border.Length == |size| && border[..] == Border(size)
    ensures LargestFirst(size, border[..])
    ensures forall b: nat | b < |size| :: b in border[..]
  {
    hide *;
    var max := FindLargest(size);
    BySizeStep(size, max);
    border := new nat[|size|];
    var pos: nat, sz: nat := 0, max;
    assert border[..0] == [];
    assert Listed(size, [], max, 0) by { NothingListed(size, max); }
    while sz > 0
      invariant pos <= |size| && Listed(size, border[..pos], sz, 0)
      invariant border[..pos] + BySize(size, sz) == Border(size)
    {
      ghost var before := border[..pos];
      pos := AppendBucketsOfSize(size, sz, border, pos);
      NextSize(size, before, border[..pos], sz);
      sz := sz - 1;
    }
    BySizeStep(size, 0);
    pos := AppendBucketsOfSize(size, 0, border, pos);
    AllListed(size, border[..pos]);
    assert border[..] == border[..pos];
  }

  method FindLargest(size: seq<nat>) returns (max: nat)
    ensures max == Largest(size)
  {
    max := 0;
    for b := 0 to |size|
      invariant max == Largest(size[..b])
    {
      assert size[..b + 1][..b] == size[..b];
      if size[b] > max { max := size[b]; }
    }
    assert size[..|size|] == size;
  }

  lemma NothingListed(size: seq<nat>, max: nat)
    requires forall b: nat | b < |size| :: size[b] <= max
    ensures Listed(size, [], max, 0)
  {
  }

  lemma NextSize(size: seq<nat>, before: seq<nat>, after: seq<nat>, sz: nat)
    requires sz > 0 && after == before + KeysOf(size, sz) && Listed(size, after, sz, |size|)
    ensures Listed(size, after, sz - 1, 0)
    ensures before + BySize(size, sz) == after + BySize(size, sz - 1)
  {
    hide KeysOf;
  }

  lemma AllListed(size: seq<nat>, listed: seq<nat>)
    requires Listed(size, listed, 0, |size|) && |listed| <= |size|
    ensures LargestFirst(size, listed) && |listed| == |size| && forall b: nat | b < |size| :: b in listed
  {
    assert forall b: nat | b < |size| :: b in listed;
    Surjected(listed, |size|);
  }

  /** A distinct list that covers all n numbers below n has n entries. */
  lemma Surjected(s: seq<nat>, n: nat)
    requires |s| <= n && forall v: nat | v < n :: v in s
    ensures |s| == n
  {
    ElementCount(s);
    assert Below(n) <= Elements(s);
    SubsetSize(Below(n), Elements(s));
  }
}
