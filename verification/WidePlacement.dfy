/** Pilot placement: give every bucket a displacement that puts its keys on free slots.
    Nothing here depends on how buckets and bases were computed. */
module WidePlacement {
  import opened Wrappers
  import opened Numbers
  import opened BucketSort
  import opened SlotTable
  import opened Greedy

  /** The slots keys with these bases land on at displacement d. */
  function SlotsAt(bases: seq<nat>, d: nat, m: nat): (slots: seq<nat>)
    requires m > 0
    ensures |slots| == |bases| && forall x: nat | x < |bases| :: slots[x] == (bases[x] + d) % m < m
  {
    seq(|bases|, x requires 0 <= x < |bases| => (bases[x] + d) % m)
  }

  /** Where each key lands: its base displaced by the pilot of its bucket. */
  function Slots(bucket: seq<nat>, base: seq<nat>, m: nat, pilots: seq<nat>): (slots: seq<nat>)
    requires m > 0 && |bucket| == |base| && forall i: nat | i < |bucket| :: bucket[i] < |pilots|
    ensures |slots| == |bucket|
    ensures forall i: nat | i < |bucket| :: slots[i] == (base[i] + pilots[bucket[i]]) % m < m
  {
    seq(|bucket|, i requires 0 <= i < |bucket| => (base[i] + pilots[bucket[i]]) % m)
  }

  /** The instance: n keys, each with a bucket below `count` and a base below m, and room for all of them. */
  ghost predicate Instance(bucket: seq<nat>, base: seq<nat>, count: nat, m: nat) {
    && |bucket| == |base| <= m && m > 0
    && (forall i: nat | i < |bucket| :: bucket[i] < count && base[i] < m)
  }

  /** Two keys that no pilot table separates. */
  ghost predicate DeadPair(bucket: seq<nat>, base: seq<nat>)
    requires |bucket| == |base|
  {
    exists i: nat, j: nat :: i < j < |bucket| && bucket[i] == bucket[j] && base[i] == base[j]
  }

  /** A dead pair defeats every pilot table, not only the ones the search tries. */
  lemma DeadPairIsHopeless(bucket: seq<nat>, base: seq<nat>, m: nat, pilots: seq<nat>, table: seq<nat>)
    requires m > 0 && |bucket| == |base| && forall i: nat | i < |bucket| :: bucket[i] < |pilots|
    requires DeadPair(bucket, base)
    ensures !Perfect(Slots(bucket, base, m, pilots), table)
  {
  }

  // ---------------------------------------------------------------- when a bucket finds a pilot

  /** Displacements that put one key on a taken slot: at most one per taken slot. */
  lemma {:induction false} BlockedByOne(base: nat, m: nat, taken: set<nat>, blocked: set<nat>)
    requires m > 0
    requires forall d | d in blocked :: d < m && (base + d) % m in taken
    ensures |blocked| <= |taken|
    decreases |blocked|
  {
    if d :| d in blocked {
      var slot := (base + d) % m;
      forall e | e in blocked - {d} ensures (base + e) % m in taken - {slot} {
        if (e + base) % m == (d + base) % m {
          DisplacementInjective(e, d, base, m);
        }
      }
      BlockedByOne(base, m, taken - {slot}, blocked - {d});
    }
  }

  /** The displacements that put a key with this base on a taken slot. */
  ghost function BlockedBy(base: nat, m: nat, taken: set<nat>): (blocked: set<nat>)
    requires m > 0
    ensures |blocked| <= |taken|
    ensures forall d: nat :: d in blocked <==> d < m && (base + d) % m in taken
  {
    var blocked := set d | d in Below(m) && (base + d) % m in taken;
    BlockedByOne(base, m, taken, blocked);
    blocked
  }

  /** Sets of at most `size` members each cover at most (number of sets) * size members. */
  lemma {:induction false} CoverSize(parts: seq<set<nat>>, size: nat, covered: set<nat>)
    requires forall x: nat | x < |parts| :: |parts[x]| <= size
    requires forall d | d in covered :: exists x: nat :: x < |parts| && d in parts[x]
    ensures |covered| <= |parts| * size
  {
    if parts == [] {
      assert covered == {};
    } else {
      var k := |parts| - 1;
      var last, rest := parts[k], covered - parts[k];
      forall d | d in rest ensures exists x: nat :: x < k && d in parts[..k][x] {
        var x: nat :| x < |parts| && d in parts[x];
        assert parts[..k][x] == parts[x];
      }
      CoverSize(parts[..k], size, rest);
      SubsetSize(covered, rest + last);
      OneMoreRow(k, size);
    }
  }

  lemma SomeKeyIsBlocked(bases: seq<nat>, m: nat, d: nat, taken: set<nat>) returns (x: nat)
    requires d < m && !Fits(SlotsAt(bases, d, m), taken)
    ensures x < |bases| && d in BlockedBy(bases[x], m, taken)
  {
    x := TakenSlot(SlotsAt(bases, d, m), taken);
    hide BlockedBy, SlotsAt, Fits;
    assert (bases[x] + d) % m in taken;
  }

  lemma TakenSlot(slots: seq<nat>, taken: set<nat>) returns (x: nat)
    requires !Fits(slots, taken)
    ensures x < |slots| && slots[x] in taken
  {
    x :| x < |slots| && slots[x] in taken;
  }

  /** Pigeonhole: a bucket always finds one of the first `limit` displacements when its size times the taken slots
      is below that limit. */
  lemma SmallBucketFits(bases: seq<nat>, m: nat, limit: nat, taken: set<nat>)
    requires |bases| * |taken| < limit <= m
    ensures exists d: nat :: d < limit && Fits(SlotsAt(bases, d, m), taken)
  {
    hide Fits, BlockedBy, SlotsAt;
    if forall d: nat | d < limit :: !Fits(SlotsAt(bases, d, m), taken) {
      var parts := seq(|bases|, x requires 0 <= x < |bases| => BlockedBy(bases[x], m, taken));
      forall d | d in Below(limit) ensures exists x: nat :: x < |parts| && d in parts[x] {
        var x := SomeKeyIsBlocked(bases, m, d, taken);
        assert d in parts[x];
      }
      CoverSize(parts, |taken|, Below(limit));
    }
  }

  /** The keys of the buckets listed so far. */
  ghost function KeysIn(bucket: seq<nat>, buckets: seq<nat>): (keys: set<nat>)
  {
    set i: nat | i < |bucket| && bucket[i] in buckets
  }

  /** Bucket number bi of the order has k keys, and k times the number of keys in the buckets before it is at least
      the limit: only such a bucket can find none of `limit` displacements. */
  ghost predicate StuckBucket(bucket: seq<nat>, limit: nat, order: seq<nat>, bi: nat) {
    bi < |order| && |KeysOf(bucket, order[bi])| * |KeysIn(bucket, order[..bi])| >= limit
  }

  /** Where there are no more keys than displacements, a stuck bucket has at least two keys: singletons always
      find a place. */
  lemma SingletonsAreNeverStuck(bucket: seq<nat>, limit: nat, order: seq<nat>, bi: nat)
    requires 0 < |bucket| <= limit && Distinct(order) && StuckBucket(bucket, limit, order, bi)
    ensures |KeysOf(bucket, order[bi])| >= 2
  {
    KeysGrow(bucket, order, bi);
    assert KeysIn(bucket, order[..bi + 1]) <= Below(|bucket|);
    SubsetSize(KeysIn(bucket, order[..bi + 1]), Below(|bucket|));
    AtLeastTwo(|KeysOf(bucket, order[bi])|, |KeysIn(bucket, order[..bi])|, |bucket|, limit);
  }

  lemma AtLeastTwo(k: nat, before: nat, n: nat, limit: nat)
    requires k + before <= n <= limit && 0 < n && k * before >= limit
    ensures k >= 2
  {
    assert 0 * before == 0 && 1 * before == before;
  }

  /** The keys of one more bucket. */
  lemma KeysGrow(bucket: seq<nat>, order: seq<nat>, k: nat)
    requires Distinct(order) && k < |order|
    ensures |KeysIn(bucket, order[..k + 1])| == |KeysIn(bucket, order[..k])| + |KeysOf(bucket, order[k])|
  {
    var keys, before := KeysOf(bucket, order[k]), KeysIn(bucket, order[..k]);
    KeysOfMembers(bucket, order[k]);
    DistinctSize(keys);
    NextDistinct(order, k);
    hide KeysOf;
    assert before !! Elements(keys);
    assert KeysIn(bucket, order[..k + 1]) == before + Elements(keys);
  }

  /** A placement takes no more slots than it has keys. */
  lemma {:induction false} TakenBound(bucket: seq<nat>, choices: Choices, order: seq<nat>, disps: seq<nat>)
    requires Placement(choices, order, disps) && Distinct(order)
    requires forall b: nat, d: nat | b < |choices| && d < |choices[b]| :: |choices[b][d]| <= |KeysOf(bucket, b)|
    ensures |Taken(choices, order, disps)| <= |KeysIn(bucket, order[..|disps|])|
    decreases |disps|
  {
    hide KeysOf, KeysIn, Distinct;
    if disps != [] {
      var k := |disps| - 1;
      TakenBound(bucket, choices, order, disps[..k]);
      KeysGrow(bucket, order, k);
      ElementCount(choices[order[k]][disps[k]]);
      UnionSize(Taken(choices, order, disps[..k]), Elements(choices[order[k]][disps[k]]));
    }
  }

  lemma UnionSize<T>(a: set<T>, b: set<T>)
    ensures |a + b| <= |a| + |b|
  {
    assert a + b == a + (b - a) && |b - a| <= |b| by { SubsetSize(b - a, b); }
  }

  /** A bucket of which some keys fit at none of the first `limit` displacements, beside slots no more than the keys
      before it. */
  lemma NoFitIsStuck(bucket: seq<nat>, keys: seq<nat>, base: seq<nat>, m: nat, limit: nat, order: seq<nat>, bi: nat,
                     taken: set<nat>)
    requires limit <= m && m > 0 && bi < |order| && |taken| <= |KeysIn(bucket, order[..bi])|
    requires |keys| <= |KeysOf(bucket, order[bi])| && forall x: nat | x < |keys| :: keys[x] < |base|
    requires forall d: nat | d < limit :: !Fits(SlotsAt(BasesOf(base, keys), d, m), taken)
    ensures StuckBucket(bucket, limit, order, bi)
  {
    hide KeysOf, Fits, KeysIn;
    if |keys| * |taken| < limit {
      SmallBucketFits(BasesOf(base, keys), m, limit, taken);
    }
    Multiply(|keys|, |taken|, |KeysIn(bucket, order[..bi])|);
    Multiply(|KeysIn(bucket, order[..bi])|, |keys|, |KeysOf(bucket, order[bi])|);
  }

  lemma Multiply(k: nat, a: nat, b: nat)
    requires a <= b
    ensures k * a <= k * b
  {
  }

  // ---------------------------------------------------------------- the search

  /** The bases of the keys listed. */
  function BasesOf(base: seq<nat>, keys: seq<nat>): (bases: seq<nat>)
    requires forall x: nat | x < |keys| :: keys[x] < |base|
    ensures |bases| == |keys| && forall x: nat | x < |keys| :: bases[x] == base[keys[x]]
  {
    seq(|keys|, x requires 0 <= x < |keys| => base[keys[x]])
  }

  lemma MembersAreKeys(bucket: seq<nat>, base: seq<nat>, b: nat)
    requires |bucket| == |base|
    ensures forall x: nat | x < |KeysOf(bucket, b)| :: KeysOf(bucket, b)[x] < |base|
  {
    KeysOfMembers(bucket, b);
  }

  /** All displacements of one bucket. */
  ghost function RowOf(bucket: seq<nat>, base: seq<nat>, m: nat, b: nat): (row: seq<seq<nat>>)
    requires m > 0 && |bucket| == |base|
    ensures |row| == m
  {
    MembersAreKeys(bucket, base, b);
    seq(m, d requires 0 <= d < m => SlotsAt(BasesOf(base, KeysOf(bucket, b)), d, m))
  }

  /** All displacements of all buckets. */
  ghost function ChoicesOf(bucket: seq<nat>, base: seq<nat>, count: nat, m: nat): (choices: Choices)
    requires m > 0 && |bucket| == |base|
    ensures |choices| == count && forall b: nat | b < count :: choices[b] == RowOf(bucket, base, m, b)
  {
    seq(count, b requires 0 <= b < count => RowOf(bucket, base, m, b))
  }

  /** Some bucket finds no displacement when each takes its least one, in this order. */
  ghost predicate SearchFails(bucket: seq<nat>, base: seq<nat>, count: nat, m: nat, order: seq<nat>)
    requires m > 0 && |bucket| == |base| && forall j: nat | j < |order| :: order[j] < count
  {
    Run(ChoicesOf(bucket, base, count, m), order, false, |order|).None?
  }

  /** Pigeonhole over the whole search: it fails only on a stuck bucket. */
  lemma SearchFailureMeans(bucket: seq<nat>, base: seq<nat>, count: nat, m: nat, order: seq<nat>)
    requires m > 0 && |bucket| == |base| && Distinct(order) && forall j: nat | j < |order| :: order[j] < count
    requires SearchFails(bucket, base, count, m, order)
    ensures exists bi: nat :: StuckBucket(bucket, m, order, bi)
  {
    var choices := ChoicesOf(bucket, base, count, m);
    var bi, disps := FailureIsStuck(choices, order, false, |order|);
    TakenBound(bucket, choices, order, disps);
    MembersAreKeys(bucket, base, order[bi]);
    hide KeysOf, KeysIn, Distinct, Taken, Run;
    var taken := Taken(choices, order, disps);
    forall d: nat | d < m ensures !Fits(SlotsAt(BasesOf(base, KeysOf(bucket, order[bi])), d, m), taken) {
      assert !Good(choices[order[bi]][d], taken, false);
    }
    NoFitIsStuck(bucket, KeysOf(bucket, order[bi]), base, m, m, order, bi, taken);
  }

  method CheckFits(slots: seq<nat>, taken: array<bool>, ghost used: set<nat>) returns (ok: bool)
    requires forall x: nat | x < |slots| :: slots[x] < taken.Length
    requires forall s: nat | s < taken.Length :: taken[s] <==> s in used
    ensures ok == Fits(slots, used)
  {
    for x := 0 to |slots|
      invariant forall y: nat | y < x :: slots[y] !in used
    {
      if taken[slots[x]] {
        return false;
      }
    }
    ok := true;
  }

  /** Compares all pairs of one bucket. */
  method FindDeadPairInBucket(base: seq<nat>, keys: seq<nat>, order: array<nat>, lo: nat, hi: nat) returns (dead: bool)
    requires lo <= hi <= order.Length && order[lo..hi] == keys
    requires forall x: nat | x < |keys| :: keys[x] < |base|
    ensures dead <==> exists y: nat, z: nat :: y < z < |keys| && base[keys[y]] == base[keys[z]]
  {
    assert forall x: nat | x < |keys| :: order[lo + x] == keys[x];
    for x := lo to hi
      invariant forall y: nat, z: nat | y < z < |keys| && y < x - lo :: base[keys[y]] != base[keys[z]]
    {
      for y := x + 1 to hi
        invariant forall z: nat | x - lo < z < y - lo :: base[keys[x - lo]] != base[keys[z]]
      {
        assert order[x] == keys[x - lo] && order[y] == keys[y - lo];
        if base[order[x]] == base[order[y]] {
          return true;
        }
      }
    }
    dead := false;
  }

  /** The check finds a dead pair exactly when there is one. */
  method FindDeadPair(bucket: seq<nat>, base: seq<nat>, count: nat, start: array<nat>, order: array<nat>)
    returns (dead: bool)
    requires |bucket| == |base| && forall i: nat | i < |bucket| :: bucket[i] < count
    requires Sorted(bucket, count, start[..], order[..])
    ensures dead == DeadPair(bucket, base)
  {
    for b := 0 to count
      invariant forall i: nat, j: nat | i < j < |bucket| && bucket[i] == bucket[j] < b :: base[i] != base[j]
    {
      BucketSlice(bucket, count, start[..], order[..], b);
      KeysOfMembers(bucket, b);
      dead := FindDeadPairInBucket(base, order[start[b]..start[b + 1]], order, start[b], start[b + 1]);
      DeadInBucket(bucket, base, b);
      if dead {
        return;
      }
    }
    dead := false;
  }

  /** A dead pair of bucket b is a pair of places in the bucket's list. */
  lemma DeadInBucket(bucket: seq<nat>, base: seq<nat>, b: nat)
    requires |bucket| == |base|
    ensures forall x: nat | x < |KeysOf(bucket, b)| :: KeysOf(bucket, b)[x] < |base|
    ensures (exists y: nat, z: nat ::
               y < z < |KeysOf(bucket, b)| && base[KeysOf(bucket, b)[y]] == base[KeysOf(bucket, b)[z]])
      <==> (exists i: nat, j: nat :: i < j < |bucket| && bucket[i] == bucket[j] == b && base[i] == base[j])
  {
    KeysOfMembers(bucket, b);
    var keys := KeysOf(bucket, b);
    if i: nat, j: nat :| i < j < |bucket| && bucket[i] == bucket[j] == b && base[i] == base[j] {
      var y: nat :| y < |keys| && keys[y] == i;
      var z: nat :| z < |keys| && keys[z] == j;
      assert y < z && base[keys[y]] == base[keys[z]];
    }
  }

  /** The write loop of one bucket. */
  method PutDownBucket(keys: seq<nat>, slots: seq<nat>, table: array<nat>, taken: array<bool>)
    requires |keys| == |slots| && Distinct(slots) && taken.Length <= table.Length
    requires forall x: nat | x < |slots| :: slots[x] < taken.Length
    modifies table, taken
    ensures Written(keys, slots, old(table[..]), table[..])
    ensures forall s: nat | s < taken.Length :: taken[s] == (old(taken[s]) || s in slots)
  {
    for x := 0 to |keys|
      invariant forall y: nat | y < x :: table[slots[y]] == keys[y] && taken[slots[y]]
      invariant forall s: nat | s < table.Length && s !in slots :: table[s] == old(table[s])
      invariant forall s: nat | s < taken.Length && taken[s] :: old(taken[s]) || s in slots
      invariant forall s: nat | s < taken.Length && old(taken[s]) :: taken[s]
    {
      taken[slots[x]] := true;
      table[slots[x]] := keys[x];
    }
  }

  /** Without a dead pair, one displacement keeps the keys of a bucket apart: the search need not check it. */
  lemma BucketStaysApart(bucket: seq<nat>, base: seq<nat>, m: nat, b: nat, d: nat)
    requires m > 0 && |bucket| == |base| && (forall i: nat | i < |base| :: base[i] < m) && !DeadPair(bucket, base)
    ensures forall x: nat | x < |KeysOf(bucket, b)| :: KeysOf(bucket, b)[x] < |base|
    ensures Distinct(SlotsAt(BasesOf(base, KeysOf(bucket, b)), d, m))
  {
    KeysOfMembers(bucket, b);
    var keys := KeysOf(bucket, b);
    var slots := SlotsAt(BasesOf(base, keys), d, m);
    forall x: nat, y: nat | x < y < |keys| ensures slots[x] != slots[y] {
      assert keys[x] < keys[y];
      if slots[x] == slots[y] {
        DisplacementInjective(base[keys[x]], base[keys[y]], d, m);
      }
    }
  }

  /** Putting down one bucket at a displacement that fits keeps the table exact. */
  lemma PutDownKeepsHolds(bucket: seq<nat>, base: seq<nat>, count: nat, m: nat, pilots: seq<nat>, buckets: seq<nat>,
                          b: nat, d: nat, table: seq<nat>, table': seq<nat>)
    requires Instance(bucket, base, count, m) && |pilots| == count && b < count && b !in buckets
    requires Holds(Slots(bucket, base, m, pilots), KeysIn(bucket, buckets), m, table)
    requires forall x: nat | x < |KeysOf(bucket, b)| :: KeysOf(bucket, b)[x] < |base|
    requires Fits(SlotsAt(BasesOf(base, KeysOf(bucket, b)), d, m), UsedSlots(table[..m], |bucket|))
    requires Written(KeysOf(bucket, b), SlotsAt(BasesOf(base, KeysOf(bucket, b)), d, m), table, table')
    ensures Holds(Slots(bucket, base, m, pilots[b := d]), KeysIn(bucket, buckets + [b]), m, table')
  {
    KeysOfMembers(bucket, b);
    var keys, slots := KeysOf(bucket, b), SlotsAt(BasesOf(base, KeysOf(bucket, b)), d, m);
    var slot, slot' := Slots(bucket, base, m, pilots), Slots(bucket, base, m, pilots[b := d]);
    NewPilot(bucket, base, m, pilots, b, d);
    var done := KeysIn(bucket, buckets);
    assert forall x: nat | x < |keys| :: table[slots[x]] == |bucket| by {
      assert forall x: nat | x < |keys| :: slots[x] !in UsedSlots(table[..m], |bucket|);
    }
    WrittenKeepsHolds(slot, slot', done, keys, slots, m, table, table');
    assert KeysIn(bucket, buckets + [b]) == done + Elements(keys);
  }

  /** A new pilot for bucket b moves the keys of b, to where SlotsAt says, and no others. */
  lemma NewPilot(bucket: seq<nat>, base: seq<nat>, m: nat, pilots: seq<nat>, b: nat, d: nat)
    requires m > 0 && |bucket| == |base| && forall i: nat | i < |bucket| :: bucket[i] < |pilots|
    requires b < |pilots|
    requires forall x: nat | x < |KeysOf(bucket, b)| :: KeysOf(bucket, b)[x] < |base|
    ensures forall i: nat | i < |bucket| && bucket[i] != b ::
      Slots(bucket, base, m, pilots[b := d])[i] == Slots(bucket, base, m, pilots)[i]
    ensures forall x: nat | x < |KeysOf(bucket, b)| ::
      Slots(bucket, base, m, pilots[b := d])[KeysOf(bucket, b)[x]] == SlotsAt(BasesOf(base, KeysOf(bucket, b)), d, m)[x]
  {
    KeysOfMembers(bucket, b);
  }

  /** Displacements 0, 1, 2, ... until one puts the bucket on free slots. */
  method FindPilot(bases: seq<nat>, m: nat, taken: array<bool>, ghost used: set<nat>) returns (found: bool, pilot: nat)
    requires m > 0 && taken.Length == m
    requires forall s: nat | s < m :: taken[s] <==> s in used
    ensures found ==> pilot < m && Fits(SlotsAt(bases, pilot, m), used)
    ensures found ==> forall e: nat | e < pilot :: !Fits(SlotsAt(bases, e, m), used)
    ensures !found ==> forall e: nat | e < m :: !Fits(SlotsAt(bases, e, m), used)
  {
    pilot := 0;
    for d := 0 to m
      invariant forall e: nat | e < d :: !Fits(SlotsAt(bases, e, m), used)
    {
      var ok := CheckFits(SlotsAt(bases, d, m), taken, used);
      if ok {
        return true, d;
      }
    }
    found := false;
  }

  /** Mid-search, the table: exactly the keys of the buckets listed are in it, and `taken` marks their slots. */
  ghost predicate OnTable(bucket: seq<nat>, base: seq<nat>, count: nat, m: nat, buckets: seq<nat>,
                          pilots: seq<nat>, table: seq<nat>, taken: seq<bool>)
    requires Instance(bucket, base, count, m) && |pilots| == count
  {
    && |taken| == m <= |table|
    && Holds(Slots(bucket, base, m, pilots), KeysIn(bucket, buckets), m, table)
    && (forall s: nat | s < m :: taken[s] <==> s in UsedSlots(table[..m], |bucket|))
    && (forall s: nat | m <= s < |table| :: table[s] == |bucket|)
    && (forall b: nat | b < count :: pilots[b] < m)
  }

  /** Mid-search, the pilots: each the least displacement that fits, and together they use the slots in use. */
  ghost predicate Greedily(bucket: seq<nat>, base: seq<nat>, count: nat, m: nat, order: seq<nat>, disps: seq<nat>,
                           pilots: seq<nat>, used: set<nat>)
    requires m > 0 && |bucket| == |base| && forall j: nat | j < |order| :: order[j] < count
  {
    && |disps| <= |order| && |pilots| == count
    && Run(ChoicesOf(bucket, base, count, m), order, false, |disps|) == Some(disps)
    && used == Taken(ChoicesOf(bucket, base, count, m), order, disps)
    && Recorded(order, disps, pilots)
  }

  /** The pilots of the first buckets; the others are still zero. */
  ghost predicate Recorded(order: seq<nat>, disps: seq<nat>, pilots: seq<nat>) {
    && |disps| <= |order|
    && (forall j: nat | j < |disps| :: order[j] < |pilots| && pilots[order[j]] == disps[j])
    && (forall b: nat | b < |pilots| && b !in order[..|disps|] :: pilots[b] == 0)
  }

  lemma NewPilotRecorded(order: seq<nat>, disps: seq<nat>, pilot: nat, pilots: seq<nat>)
    requires Distinct(order) && |disps| < |order| && order[|disps|] < |pilots| && Recorded(order, disps, pilots)
    ensures Recorded(order, disps + [pilot], pilots[order[|disps|] := pilot])
  {
    var k := |disps|;
    assert order[..k + 1] == order[..k] + [order[k]];
  }

  /** One bucket: find a pilot and put the bucket down. */
  method PlaceBucket(bucket: seq<nat>, base: seq<nat>, count: nat, m: nat, ghost order: seq<nat>, ghost disps: seq<nat>,
                     b: nat, keys: seq<nat>, pilots: array<nat>, table: array<nat>, taken: array<bool>)
    returns (found: bool, ghost disps': seq<nat>)
    requires Instance(bucket, base, count, m) && !DeadPair(bucket, base)
    requires Distinct(order) && (forall j: nat | j < |order| :: order[j] < count)
    requires pilots.Length == count && pilots != table && |disps| < |order| && b == order[|disps|]
    requires keys == KeysOf(bucket, b)
    requires OnTable(bucket, base, count, m, order[..|disps|], pilots[..], table[..], taken[..])
    requires Greedily(bucket, base, count, m, order, disps, pilots[..], UsedSlots(table[..m], |bucket|))
    modifies pilots, table, taken
    ensures found ==> |disps'| == |disps| + 1 && taken.Length == m <= table.Length
    ensures found ==> OnTable(bucket, base, count, m, order[..|disps'|], pilots[..], table[..], taken[..])
    ensures found ==> Greedily(bucket, base, count, m, order, disps', pilots[..], UsedSlots(table[..m], |bucket|))
    ensures !found ==> SearchFails(bucket, base, count, m, order)
  {
    hide KeysOf, Distinct, DeadPair, Greedily, Holds, Slots;
    MembersAreKeys(bucket, base, b);
    var bases := BasesOf(base, keys);
    ghost var table0, pilots0, taken0 := table[..], pilots[..], taken[..];
    ghost var used := UsedSlots(table0[..m], |bucket|);
    var pilot;
    found, pilot := FindPilot(bases, m, taken, used);
    disps' := disps;
    if !found {
      NoPilotIsFailure(bucket, base, count, m, order, disps, pilots0, used);
      return;
    }
    disps' := disps + [pilot];
    BucketStaysApart(bucket, base, m, b, pilot);
    PutDownBucket(keys, SlotsAt(bases, pilot, m), table, taken);
    pilots[b] := pilot;
    assert pilots[..] == pilots0[b := pilot];
    NextDistinct(order, |disps|);
    TableGoesOn(bucket, base, count, m, order[..|disps|], b, pilot, pilots0, table0, taken0, table[..], taken[..]);
    GreedyGoesOn(bucket, base, count, m, order, disps, pilot, pilots0, used);
    assert order[..|disps'|] == order[..|disps| + 1];
  }

  lemma NoPilotIsFailure(bucket: seq<nat>, base: seq<nat>, count: nat, m: nat, order: seq<nat>, disps: seq<nat>,
                         pilots: seq<nat>, used: set<nat>)
    requires m > 0 && |bucket| == |base| && |disps| < |order| && forall j: nat | j < |order| :: order[j] < count
    requires Greedily(bucket, base, count, m, order, disps, pilots, used)
    requires forall x: nat | x < |KeysOf(bucket, order[|disps|])| :: KeysOf(bucket, order[|disps|])[x] < |base|
    requires forall e: nat | e < m :: !Fits(SlotsAt(BasesOf(base, KeysOf(bucket, order[|disps|])), e, m), used)
    ensures SearchFails(bucket, base, count, m, order)
  {
    hide KeysOf, Fits, Taken, Run;
    var choices := ChoicesOf(bucket, base, count, m);
    assert StuckAt(choices, order, false, |disps|, disps);
    StuckEndsIt(choices, order, false, |disps|, disps);
  }

  lemma TableGoesOn(bucket: seq<nat>, base: seq<nat>, count: nat, m: nat, buckets: seq<nat>, b: nat, pilot: nat,
                    pilots: seq<nat>, table: seq<nat>, taken: seq<bool>, table': seq<nat>, taken': seq<bool>)
    requires Instance(bucket, base, count, m) && |pilots| == count && b < count && b !in buckets
    requires OnTable(bucket, base, count, m, buckets, pilots, table, taken)
    requires forall x: nat | x < |KeysOf(bucket, b)| :: KeysOf(bucket, b)[x] < |base|
    requires var slots := SlotsAt(BasesOf(base, KeysOf(bucket, b)), pilot, m);
      && pilot < m && Fits(slots, UsedSlots(table[..m], |bucket|)) && Written(KeysOf(bucket, b), slots, table, table')
      && |taken'| == m && forall s: nat | s < m :: taken'[s] == (taken[s] || s in slots)
    ensures OnTable(bucket, base, count, m, buckets + [b], pilots[b := pilot], table', taken')
    ensures UsedSlots(table'[..m], |bucket|) ==
      UsedSlots(table[..m], |bucket|) + Elements(SlotsAt(BasesOf(base, KeysOf(bucket, b)), pilot, m))
  {
    KeysOfMembers(bucket, b);
    hide KeysOf, Holds, Slots, Fits, KeysIn;
    PutDownKeepsHolds(bucket, base, count, m, pilots, buckets, b, pilot, table, table');
    TakenStaysExact(KeysOf(bucket, b), SlotsAt(BasesOf(base, KeysOf(bucket, b)), pilot, m), |bucket|, m, table, table');
  }

  lemma GreedyGoesOn(bucket: seq<nat>, base: seq<nat>, count: nat, m: nat, order: seq<nat>, disps: seq<nat>, pilot: nat,
                     pilots: seq<nat>, used: set<nat>)
    requires m > 0 && |bucket| == |base| && |disps| < |order| && pilot < m && Distinct(order)
    requires forall j: nat | j < |order| :: order[j] < count
    requires forall x: nat | x < |KeysOf(bucket, order[|disps|])| :: KeysOf(bucket, order[|disps|])[x] < |base|
    requires Greedily(bucket, base, count, m, order, disps, pilots, used)
    requires var bases := BasesOf(base, KeysOf(bucket, order[|disps|]));
      Fits(SlotsAt(bases, pilot, m), used) && forall e: nat | e < pilot :: !Fits(SlotsAt(bases, e, m), used)
    ensures Greedily(bucket, base, count, m, order, disps + [pilot], pilots[order[|disps|] := pilot],
      used + Elements(SlotsAt(BasesOf(base, KeysOf(bucket, order[|disps|])), pilot, m)))
  {
    hide KeysOf, Run, Taken, Fits, SlotsAt, Recorded, Distinct;
    var b, choices := order[|disps|], ChoicesOf(bucket, base, count, m);
    forall e: nat | e < pilot ensures !Good(choices[b][e], used, false) {
      assert choices[b][e] == SlotsAt(BasesOf(base, KeysOf(bucket, b)), e, m);
    }
    RunGoesOn(choices, order, false, |disps|, disps, pilot);
    NewPilotRecorded(order, disps, pilot, pilots);
  }

  /** Writing keys, none of which is the empty marker, takes exactly their slots. */
  lemma TakenStaysExact(keys: seq<nat>, slots: seq<nat>, n: nat, m: nat, table: seq<nat>, table': seq<nat>)
    requires Written(keys, slots, table, table') && m <= |table|
    requires forall x: nat | x < |keys| :: keys[x] < n && slots[x] < m
    ensures |table'| == |table| && UsedSlots(table'[..m], n) == UsedSlots(table[..m], n) + Elements(slots)
    ensures forall s: nat | m <= s < |table| :: table'[s] == table[s]
  {
  }

  lemma NothingPlacedYet(bucket: seq<nat>, base: seq<nat>, count: nat, m: nat, order: seq<nat>,
                         pilots: seq<nat>, table: seq<nat>, taken: seq<bool>)
    requires Instance(bucket, base, count, m) && |pilots| == count && |taken| == m <= |table|
    requires forall j: nat | j < |order| :: order[j] < count
    requires forall s: nat | s < |table| :: table[s] == |bucket|
    requires forall s: nat | s < m :: !taken[s]
    requires forall b: nat | b < count :: pilots[b] == 0
    ensures OnTable(bucket, base, count, m, order[..0], pilots, table, taken)
    ensures Greedily(bucket, base, count, m, order, [], pilots, UsedSlots(table[..m], |bucket|))
  {
  }

  /** The buckets after the early break have no keys: the table is complete, and the search as a whole succeeds. */
  lemma EverythingPlaced(bucket: seq<nat>, base: seq<nat>, count: nat, m: nat, order: seq<nat>, disps: seq<nat>,
                         pilots: seq<nat>, table: seq<nat>, taken: seq<bool>)
    requires Instance(bucket, base, count, m) && |pilots| == count && |disps| <= |order| && m <= |table|
    requires Distinct(order) && forall j: nat | j < |order| :: order[j] < count
    requires OnTable(bucket, base, count, m, order[..|disps|], pilots, table, taken)
    requires Greedily(bucket, base, count, m, order, disps, pilots, UsedSlots(table[..m], |bucket|))
    requires forall i: nat | i < |bucket| :: bucket[i] in order[..|disps|]
    ensures Perfect(Slots(bucket, base, m, pilots), table)
    ensures forall b: nat | b < count :: pilots[b] < m
    ensures !SearchFails(bucket, base, count, m, order) && PilotsAreLeast(bucket, base, count, m, order, pilots)
  {
    FullTableIsPerfect(Slots(bucket, base, m, pilots), KeysIn(bucket, order[..|disps|]), m, table);
    RestIsEmpty(bucket, base, count, m, order, disps, pilots, UsedSlots(table[..m], |bucket|));
  }

  lemma RestIsEmpty(bucket: seq<nat>, base: seq<nat>, count: nat, m: nat, order: seq<nat>, disps: seq<nat>,
                    pilots: seq<nat>, used: set<nat>)
    requires m > 0 && |bucket| == |base| && |disps| <= |order|
    requires Distinct(order) && forall j: nat | j < |order| :: order[j] < count
    requires Greedily(bucket, base, count, m, order, disps, pilots, used)
    requires forall i: nat | i < |bucket| :: bucket[i] in order[..|disps|]
    ensures !SearchFails(bucket, base, count, m, order) && PilotsAreLeast(bucket, base, count, m, order, pilots)
  {
    var k, choices := |disps|, ChoicesOf(bucket, base, count, m);
    forall j: nat | k <= j < |order|
      ensures choices[order[j]] != [] && choices[order[j]][0] == [] && pilots[order[j]] == 0
    {
      LaterIsNotBefore(order, k, j);
      NobodyThere(bucket, order[j]);
    }
    hide KeysOf, Distinct, Run, Taken, KeysIn;
    EmptyBucketsFit(choices, order, false, k, |order|);
  }

  lemma LaterIsNotBefore(order: seq<nat>, k: nat, j: nat)
    requires Distinct(order) && k <= j < |order|
    ensures order[j] !in order[..k]
  {
  }

  /** Every pilot is the least displacement that fits beside the buckets before. */
  ghost predicate PilotsAreLeast(bucket: seq<nat>, base: seq<nat>, count: nat, m: nat, order: seq<nat>,
                                 pilots: seq<nat>)
    requires m > 0 && |bucket| == |base| && forall j: nat | j < |order| :: order[j] < count
  {
    var run := Run(ChoicesOf(bucket, base, count, m), order, false, |order|);
    && run.Some? && |pilots| == count
    && forall j: nat | j < |order| :: pilots[order[j]] == run.value[j]
  }

  /** The keys of one bucket, cut out of the sorted order. */
  function SliceOf(ghost bucket: seq<nat>, ghost count: nat, start: seq<nat>, order: seq<nat>, b: nat): (keys: seq<nat>)
    requires Sorted(bucket, count, start, order) && b < count
    requires forall i: nat | i < |bucket| :: bucket[i] < count
    ensures keys == KeysOf(bucket, b)
  {
    BucketSlice(bucket, count, start, order, b);
    order[start[b]..start[b + 1]]
  }

  /** All buckets, largest first. */
  ghost predicate PlacementOrder(bucket: seq<nat>, count: nat, border: seq<nat>) {
    && |border| == count && LargestFirst(Sizes(bucket, count), border)
    && forall b: nat | b < count :: b in border
  }

  lemma BorderIsOrder(bucket: seq<nat>, count: nat, border: seq<nat>)
    requires PlacementOrder(bucket, count, border)
    ensures |border| == count && Distinct(border) && forall j: nat | j < |border| :: border[j] < count
  {
  }

  /** The loop over the buckets, up to the first that has no keys. */
  method PlaceInOrder(bucket: seq<nat>, base: seq<nat>, count: nat, m: nat, start: seq<nat>, order: seq<nat>,
                      border: seq<nat>, pilots: array<nat>, table: array<nat>, taken: array<bool>)
    returns (ok: bool, ghost disps: seq<nat>)
    requires Instance(bucket, base, count, m) && !DeadPair(bucket, base)
    requires Sorted(bucket, count, start, order)
    requires PlacementOrder(bucket, count, border) && Distinct(border)
    requires forall j: nat | j < |border| :: border[j] < count
    requires pilots.Length == count && taken.Length == m <= table.Length && pilots != table
    requires OnTable(bucket, base, count, m, border[..0], pilots[..], table[..], taken[..])
    requires Greedily(bucket, base, count, m, border, [], pilots[..], UsedSlots(table[..m], |bucket|))
    modifies pilots, table, taken
    ensures !ok ==> SearchFails(bucket, base, count, m, border)
    ensures ok ==> |disps| <= count
    ensures ok ==> OnTable(bucket, base, count, m, border[..|disps|], pilots[..], table[..], taken[..])
    ensures ok ==> Greedily(bucket, base, count, m, border, disps, pilots[..], UsedSlots(table[..m], |bucket|))
    ensures ok ==> forall i: nat | i < |bucket| :: bucket[i] in border[..|disps|]
  {
    assert |border| == count && m > 0 && forall i: nat | i < |bucket| :: bucket[i] < count;
    hide *;
    var bi := 0;
    disps := [];
    while bi < count
      invariant bi == |disps| <= count
      invariant OnTable(bucket, base, count, m, border[..|disps|], pilots[..], table[..], taken[..])
      invariant Greedily(bucket, base, count, m, border, disps, pilots[..], UsedSlots(table[..m], |bucket|))
    {
      var b := border[bi];
      var keys := SliceOf(bucket, count, start, order, b);
      if keys == [] {
        EmptyFromHere(bucket, count, border, bi);
        return true, disps;
      }
      var found;
      found, disps := PlaceBucket(bucket, base, count, m, border, disps, b, keys, pilots, table, taken);
      if !found {
        return false, disps;
      }
      bi := bi + 1;
    }
    AllOfBorder(bucket, count, border);
    ok := true;
  }

  /** Largest bucket first, each at the first displacement that fits. */
  method PlaceBuckets(bucket: seq<nat>, base: seq<nat>, count: nat, m: nat, start: seq<nat>, order: seq<nat>,
                      border: seq<nat>, pilots: array<nat>, table: array<nat>) returns (ok: bool)
    requires Instance(bucket, base, count, m) && !DeadPair(bucket, base)
    requires Sorted(bucket, count, start, order)
    requires PlacementOrder(bucket, count, border) && forall j: nat | j < |border| :: border[j] < count
    requires pilots.Length == count && m <= table.Length && pilots != table
    requires forall s: nat | s < table.Length :: table[s] == |bucket|
    requires forall b: nat | b < count :: pilots[b] == 0
    modifies pilots, table
    ensures ok <==> !SearchFails(bucket, base, count, m, border)
    ensures ok ==> Perfect(Slots(bucket, base, m, pilots[..]), table[..]) && forall b: nat | b < count :: pilots[b] < m
    ensures ok ==> PilotsAreLeast(bucket, base, count, m, border, pilots[..])
  {
    BorderIsOrder(bucket, count, border);
    assert m > 0 && forall i: nat | i < |bucket| :: bucket[i] < count;
    hide *;
    var taken := new bool[m](_ => false);
    NothingPlacedYet(bucket, base, count, m, border, pilots[..], table[..], taken[..]);
    ghost var disps;
    ok, disps := PlaceInOrder(bucket, base, count, m, start, order, border, pilots, table, taken);
    if ok {
      EverythingPlaced(bucket, base, count, m, border, disps, pilots[..], table[..], taken[..]);
    }
  }

  lemma AllOfBorder(bucket: seq<nat>, count: nat, border: seq<nat>)
    requires PlacementOrder(bucket, count, border) && forall i: nat | i < |bucket| :: bucket[i] < count
    ensures forall i: nat | i < |bucket| :: bucket[i] in border[..count]
  {
    assert border[..count] == border;
  }

  /** The number of keys in each bucket. */
  ghost function Sizes(bucket: seq<nat>, count: nat): (sizes: seq<nat>)
    ensures |sizes| == count && forall b: nat | b < count :: sizes[b] == |KeysOf(bucket, b)|
  {
    seq(count, b requires 0 <= b => |KeysOf(bucket, b)|)
  }

  /** Once an empty bucket comes up, every key is already in a bucket that was placed. */
  lemma EmptyFromHere(bucket: seq<nat>, count: nat, border: seq<nat>, bi: nat)
    requires forall i: nat | i < |bucket| :: bucket[i] < count
    requires PlacementOrder(bucket, count, border)
    requires bi < count && KeysOf(bucket, border[bi]) == []
    ensures forall i: nat | i < |bucket| :: bucket[i] in border[..bi]
  {
    forall i: nat | i < |bucket| ensures bucket[i] in border[..bi] {
      KeysOfMembers(bucket, bucket[i]);
      assert |KeysOf(bucket, bucket[i])| > 0;
      EmptiesComeLast(Sizes(bucket, count), border, bi, bucket[i]);
    }
  }

  /** A bucket with keys is listed before any bucket without. */
  lemma EmptiesComeLast(sizes: seq<nat>, border: seq<nat>, bi: nat, b: nat)
    requires LargestFirst(sizes, border) && bi < |border| && sizes[border[bi]] == 0
    requires b in border && sizes[b] > 0
    ensures b in border[..bi]
  {
  }
}
