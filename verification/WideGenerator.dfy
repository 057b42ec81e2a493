/** The wide generator: try seeds until every key has a slot of its own. */
module WideGenerator {
  import opened Wrappers
  import opened Words
  import opened Numbers
  import opened WideHash
  import opened BucketSort
  import opened SlotTable
  import opened WidePlacement
  import opened LaneSort

  datatype BuildError = KeyTooLong | DuplicateKey | OnlyTrailingNulsDiffer | NoAssignment

  /** What a search hands to the container. */
  datatype Plan = Plan(tableSize: nat, seed: nat, strong: bool, pilots: seq<nat>, slotToKey: seq<nat>)

  // ---------------------------------------------------------------- hashing the keys

  /** The hash of every key. */
  function Hashes(lanes: seq<seq<nat>>, seed: nat, strong: bool): (h: seq<nat>)
    requires forall i: nat | i < |lanes| :: lanes[i] != []
    ensures |h| == |lanes|
    ensures forall i: nat | i < |lanes| :: h[i] == LaneHash(lanes[i], seed, strong) < TWO_TO_THE_64
  {
    seq(|lanes|, i requires 0 <= i < |lanes| => LaneHash(lanes[i], seed, strong))
  }

  ghost predicate Words64(hashes: seq<nat>) {
    forall i: nat | i < |hashes| :: hashes[i] < TWO_TO_THE_64
  }

  /** The program keeps bucket and base in 32 bits; nothing is lost. */
  function Narrow32(x: nat): (r: nat)
    ensures x < TWO_TO_THE_32 ==> r == x
  {
    x % TWO_TO_THE_32
  }

  function Buckets(hashes: seq<nat>, g: Geometry): (b: seq<nat>)
    requires g.Valid() && Words64(hashes)
    ensures |b| == |hashes|
    ensures forall i: nat | i < |hashes| :: b[i] == BucketOf(hashes[i], g)
  {
    seq(|hashes|, i requires 0 <= i < |hashes| => Narrow32(BucketOf(hashes[i], g)))
  }

  function Bases(hashes: seq<nat>, g: Geometry): (b: seq<nat>)
    requires g.Valid()
    ensures |b| == |hashes|
    ensures forall i: nat | i < |hashes| :: b[i] == BaseOf(hashes[i], g)
  {
    seq(|hashes|, i requires 0 <= i < |hashes| => Narrow32(BaseOf(hashes[i], g)))
  }

  /** The slots the container will compute for these hashes. */
  function HashSlots(hashes: seq<nat>, g: Geometry, pilots: seq<nat>): (s: seq<nat>)
    requires g.Valid() && Words64(hashes) && |pilots| == g.buckets
    ensures |s| == |hashes|
    ensures forall i: nat | i < |hashes| :: s[i] == SlotOfHash(hashes[i], g, pilots)
  {
    seq(|hashes|, i requires 0 <= i < |hashes| => SlotOfHash(hashes[i], g, pilots))
  }

  /** The placement and the container agree on where every key goes. */
  lemma SlotsAgree(hashes: seq<nat>, g: Geometry, pilots: seq<nat>)
    requires g.Valid() && Words64(hashes) && |pilots| == g.buckets
    ensures Slots(Buckets(hashes, g), Bases(hashes, g), g.m, pilots) == HashSlots(hashes, g, pilots)
  {
  }

  /** The order in which the buckets of these hashes are placed. */
  ghost function OrderOf(hashes: seq<nat>, g: Geometry): (order: seq<nat>)
    requires g.Valid() && Words64(hashes)
    ensures PlacementOrder(Buckets(hashes, g), g.buckets, order)
    ensures |order| == g.buckets && Distinct(order) && forall j: nat | j < |order| :: order[j] < g.buckets
  {
    BorderListsAll(Sizes(Buckets(hashes, g), g.buckets));
    Border(Sizes(Buckets(hashes, g), g.buckets))
  }

  /** What it is for a seed to fail: two keys share bucket and base, or the placement, largest bucket first and each
      at its least pilot, comes to a bucket that fits nowhere. */
  ghost predicate SeedFails(hashes: seq<nat>, g: Geometry)
    requires g.Valid() && Words64(hashes)
  {
    || DeadPair(Buckets(hashes, g), Bases(hashes, g))
    || SearchFails(Buckets(hashes, g), Bases(hashes, g), g.buckets, g.m, OrderOf(hashes, g))
  }

  /** Pigeonhole: without a dead pair, a seed fails only on a bucket whose size times the keys placed before it is
      at least the table size. */
  lemma SeedFailureMeans(hashes: seq<nat>, g: Geometry)
    requires g.Valid() && Words64(hashes) && SeedFails(hashes, g)
    ensures DeadPair(Buckets(hashes, g), Bases(hashes, g)) ||
      exists bi: nat :: StuckBucket(Buckets(hashes, g), g.m, OrderOf(hashes, g), bi)
  {
    hide StuckBucket;
    if !DeadPair(Buckets(hashes, g), Bases(hashes, g)) {
      SearchFailureMeans(Buckets(hashes, g), Bases(hashes, g), g.buckets, g.m, OrderOf(hashes, g));
    }
  }

  /** Every pilot is the least one that fits, in the order of placement. */
  ghost predicate LeastPilots(hashes: seq<nat>, g: Geometry, pilots: seq<nat>)
    requires g.Valid() && Words64(hashes)
  {
    PilotsAreLeast(Buckets(hashes, g), Bases(hashes, g), g.buckets, g.m, OrderOf(hashes, g), pilots)
  }

  // ---------------------------------------------------------------- one attempt

  /** A plan whose table holds every key at the slot its hash leads to. */
  ghost predicate PlanFits(plan: Plan, g: Geometry, lanes: seq<seq<nat>>) {
    && g.Valid() && plan.tableSize == g.m && |lanes| <= g.m <= |plan.slotToKey|
    && |plan.pilots| == g.buckets && (forall b: nat | b < g.buckets :: plan.pilots[b] < g.m)
    && (forall i: nat | i < |lanes| :: lanes[i] != [])
    && Perfect(HashSlots(Hashes(lanes, plan.seed, plan.strong), g, plan.pilots), plan.slotToKey)
  }

  /** The result structure, filled in place. */
  class WideResult {
    var tableSize: nat
    var seed: nat
    var strong: bool
    var seedsTried: nat
    const pilots: array<nat>
    const slotToKey: array<nat>

    constructor (n: nat)
      ensures fresh(pilots) && fresh(slotToKey) && pilots != slotToKey && seedsTried == 0
      ensures pilots.Length == BucketCount(n) && slotToKey.Length == 2 * NextPowerOf2(n)
    {
      tableSize, seed, strong, seedsTried := 0, 0, false, 0;
      pilots := new nat[BucketCount(n)];
      slotToKey := new nat[2 * NextPowerOf2(n)];
    }

    ghost predicate Shaped(g: Geometry) {
      pilots != slotToKey && pilots.Length == g.buckets && g.m <= slotToKey.Length
    }

    function ToPlan(): Plan
      reads this, pilots, slotToKey
    {
      Plan(tableSize, seed, strong, pilots[..], slotToKey[..])
    }

    /** Every slot empty, every pilot zero: whatever an earlier seed left behind is gone. */
    method Reset(n: nat)
      requires pilots != slotToKey
      modifies pilots, slotToKey
      ensures forall s: nat | s < slotToKey.Length :: slotToKey[s] == n
      ensures forall b: nat | b < pilots.Length :: pilots[b] == 0
    {
      for s := 0 to slotToKey.Length
        invariant forall t: nat | t < s :: slotToKey[t] == n
      {
        slotToKey[s] := n;
      }
      for b := 0 to pilots.Length
        invariant forall c: nat | c < b :: pilots[c] == 0
        invariant forall t: nat | t < slotToKey.Length :: slotToKey[t] == n
      {
        pilots[b] := 0;
      }
    }
  }

  /** What a search needs: a valid geometry with room for the keys, and a result structure of that shape. */
  ghost predicate Ready(lanes: seq<seq<nat>>, g: Geometry, out: WideResult) {
    && g.Valid() && |lanes| <= g.m && out.Shaped(g)
    && forall i: nat | i < |lanes| :: lanes[i] != []
  }

  /** One (table size, seed, hash variant): false on a dead pair or a bucket that cannot be placed. */
  method TryPlace(lanes: seq<seq<nat>>, g: Geometry, seed: nat, strong: bool, out: WideResult) returns (ok: bool)
    requires Ready(lanes, g, out)
    modifies out, out.pilots, out.slotToKey
    ensures out.seedsTried == old(out.seedsTried)
    ensures ok <==> !SeedFails(Hashes(lanes, seed, strong), g)
    ensures ok ==> PlanFits(out.ToPlan(), g, lanes) && out.seed == seed && out.strong == strong
    ensures ok ==> LeastPilots(Hashes(lanes, seed, strong), g, out.pilots[..])
  {
    hide Perfect, SearchFails, PilotsAreLeast;
    var hashes := Hashes(lanes, seed, strong);
    var bucket, base := Buckets(hashes, g), Bases(hashes, g);
    var start, order := CountingSort(bucket, g.buckets);
    var dead := FindDeadPair(bucket, base, g.buckets, start, order);
    if dead {
      return false;
    }
    ok := PlaceAll(hashes, g, start, order, out);
    if ok {
      SlotsAgree(hashes, g, out.pilots[..]);
      out.tableSize := g.m;
      out.seed := seed;
      out.strong := strong;
    }
  }

  /** Orders the buckets and places them into an empty table. */
  method PlaceAll(hashes: seq<nat>, g: Geometry, start: array<nat>, order: array<nat>, out: WideResult)
    returns (ok: bool)
    requires g.Valid() && Words64(hashes) && |hashes| <= g.m && out.Shaped(g)
    requires Sorted(Buckets(hashes, g), g.buckets, start[..], order[..])
    requires !DeadPair(Buckets(hashes, g), Bases(hashes, g))
    modifies out.pilots, out.slotToKey
    ensures ok <==> !SeedFails(hashes, g)
    ensures ok ==> Perfect(Slots(Buckets(hashes, g), Bases(hashes, g), g.m, out.pilots[..]), out.slotToKey[..])
    ensures ok ==> LeastPilots(hashes, g, out.pilots[..]) && forall b: nat | b < g.buckets :: out.pilots[b] < g.m
  {
    hide KeysOf, Sorted, DeadPair, SearchFails, Perfect, PilotsAreLeast, PlacementOrder;
    var bucket, base := Buckets(hashes, g), Bases(hashes, g);
    var size := seq(g.buckets, b requires 0 <= b < g.buckets => |KeysOf(bucket, b)|);
    assert size == Sizes(bucket, g.buckets);
    var border := BucketsLargestFirst(size);
    var starts, sorted, entries := start[..], order[..], border[..];
    assert entries == OrderOf(hashes, g);
    out.Reset(|hashes|);
    ok := PlaceBuckets(bucket, base, g.buckets, g.m, starts, sorted, entries, out.pilots, out.slotToKey);
  }

  /** Every seed below maxSeeds fails. */
  ghost predicate SeedsFail(lanes: seq<seq<nat>>, g: Geometry, strong: bool, maxSeeds: nat)
    requires g.Valid() && forall i: nat | i < |lanes| :: lanes[i] != []
  {
    forall s: nat | s < maxSeeds :: SeedFails(Hashes(lanes, s, strong), g)
  }

  /** The plan's seed is the least one that does not fail, and its pilots are the ones that seed leads to. */
  ghost predicate FirstSeed(lanes: seq<seq<nat>>, g: Geometry, plan: Plan)
    requires g.Valid() && forall i: nat | i < |lanes| :: lanes[i] != []
  {
    && SeedsFail(lanes, g, plan.strong, plan.seed) && !SeedFails(Hashes(lanes, plan.seed, plan.strong), g)
    && LeastPilots(Hashes(lanes, plan.seed, plan.strong), g, plan.pilots)
  }

  /** Seeds 0, 1, 2, ... until one works. */
  method TrySeeds(lanes: seq<seq<nat>>, g: Geometry, strong: bool, maxSeeds: nat, out: WideResult) returns (ok: bool)
    requires Ready(lanes, g, out)
    modifies out, out.pilots, out.slotToKey
    ensures ok <==> !SeedsFail(lanes, g, strong, maxSeeds)
    ensures ok ==> PlanFits(out.ToPlan(), g, lanes) && out.strong == strong && out.seed < maxSeeds
    ensures ok ==> FirstSeed(lanes, g, out.ToPlan()) && out.seedsTried == old(out.seedsTried) + out.seed + 1
  {
    hide PlanFits, SeedFails, LeastPilots;
    for si := 0 to maxSeeds
      invariant out.seedsTried == old(out.seedsTried) + si
      invariant SeedsFail(lanes, g, strong, si)
    {
      out.seedsTried := out.seedsTried + 1;
      ok := TryPlace(lanes, g, si, strong, out);
      if ok {
        return;
      }
    }
    ok := false;
  }

  // ---------------------------------------------------------------- the whole search

  const FAST_SEEDS: nat := 48
  const STRONG_SEEDS: nat := 48

  /** The lanes of one key. */
  function LanesOf(maxKeyLen: nat, key: Bytes): (lanes: seq<nat>)
    ensures |lanes| == LaneCount(maxKeyLen)
  {
    RowOfLanes(LaneCount(maxKeyLen));
    LaneValues(KeyRow(maxKeyLen, key))
  }

  lemma RowOfLanes(count: nat)
    ensures (8 * count) % 8 == 0 && (8 * count) / 8 == count
  {
  }

  /** The lanes of every key. */
  function KeyLanes(maxKeyLen: nat, keys: seq<Bytes>): (lanes: seq<seq<nat>>)
    ensures |lanes| == |keys|
    ensures forall i: nat | i < |keys| :: lanes[i] == LanesOf(maxKeyLen, keys[i])
  {
    seq(|keys|, i requires 0 <= i < |keys| => LanesOf(maxKeyLen, keys[i]))
  }

  lemma KeyLanesUniform(maxKeyLen: nat, keys: seq<Bytes>)
    requires maxKeyLen >= 1
    ensures Uniform(KeyLanes(maxKeyLen, keys), LaneCount(maxKeyLen)) && LaneCount(maxKeyLen) >= 1
  {
  }

  /** Nothing the search tries works for these keys. */
  ghost predicate NothingWorks(lanes: seq<seq<nat>>, g: Geometry) {
    && g.Valid() && (forall i: nat | i < |lanes| :: lanes[i] != [])
    && SeedsFail(lanes, g, false, FAST_SEEDS) && SeedsFail(lanes, g, true, STRONG_SEEDS)
  }

  /** This plan is the first that works: it does not fail, and everything tried before it does: smaller seeds, the
      fast hash before the strong one, and both of them in the tight table before the doubled one. */
  ghost predicate FirstThatWorks(lanes: seq<seq<nat>>, plan: Plan) {
    var g := GeometryOf(|lanes|, plan.tableSize);
    && g.Valid() && (forall i: nat | i < |lanes| :: lanes[i] != [])
    && FirstSeed(lanes, g, plan)
    && (plan.strong ==> SeedsFail(lanes, g, false, FAST_SEEDS))
    && (plan.tableSize != NextPowerOf2(|lanes|) ==> NothingWorks(lanes, GeometryOf(|lanes|, NextPowerOf2(|lanes|))))
  }

  /** Every search fails, in both tables. */
  ghost predicate NoPlan(lanes: seq<seq<nat>>) {
    forall m: nat | TableSizeFor(|lanes|, m) :: NothingWorks(lanes, GeometryOf(|lanes|, m))
  }

  /** 48 seeds of either hash, at the least power of two of slots that holds all keys and at twice that. */
  lemma NoPlanMeans(lanes: seq<seq<nat>>)
    requires 1 <= |lanes| <= TWO_TO_THE_31 && forall i: nat | i < |lanes| :: lanes[i] != []
    ensures var p := NextPowerOf2(|lanes|);
      && GeometryOf(|lanes|, p).Valid() && GeometryOf(|lanes|, 2 * p).Valid()
      && (NoPlan(lanes) <==> forall s: nat, strong: bool | s < 48 ::
            && SeedFails(Hashes(lanes, s, strong), GeometryOf(|lanes|, p))
            && SeedFails(Hashes(lanes, s, strong), GeometryOf(|lanes|, 2 * p)))
  {
    hide SeedFails, Hashes;
    var p := NextPowerOf2(|lanes|);
    GeometryFits(|lanes|, p);
    GeometryFits(|lanes|, 2 * p);
    assert TableSizeFor(|lanes|, p) && TableSizeFor(|lanes|, 2 * p);
  }

  /** Tight table first, fast hash before the strong one, then one doubling. Keys of admissible length that the hash
      tells apart get no plan exactly where every search fails. */
  method Build(keys: seq<Bytes>, maxKeyLen: nat) returns (r: Result<Plan, BuildError>)
    requires 1 <= |keys| <= TWO_TO_THE_31 && 1 <= maxKeyLen <= 4080
    ensures r == Err(KeyTooLong) <==> exists i: nat :: i < |keys| && |keys[i]| > maxKeyLen
    ensures r != Err(KeyTooLong) ==> (r == Err(DuplicateKey) || r == Err(OnlyTrailingNulsDiffer) <==>
      exists i: nat, j: nat :: i < j < |keys| && SameLanes(maxKeyLen, keys[i], keys[j]))
    ensures r == Err(DuplicateKey) ==> !Distinct(keys)
    ensures r == Err(OnlyTrailingNulsDiffer) ==> maxKeyLen >= 16 && exists i: nat, j: nat ::
      i < |keys| && j < |keys| && keys[i] != keys[j] && Padded(keys[i], maxKeyLen) == Padded(keys[j], maxKeyLen)
    ensures r.Ok? ==> TableSizeFor(|keys|, r.value.tableSize)
    ensures r.Ok? ==> PlanFits(r.value, GeometryOf(|keys|, r.value.tableSize), KeyLanes(maxKeyLen, keys))
    ensures r.Ok? ==> FirstThatWorks(KeyLanes(maxKeyLen, keys), r.value)
    ensures r.Ok? ==> !NoPlan(KeyLanes(maxKeyLen, keys))
    ensures r == Err(NoAssignment) ==> NoPlan(KeyLanes(maxKeyLen, keys))
  {
    for i := 0 to |keys|
      invariant forall j: nat | j < i :: |keys[j]| <= maxKeyLen
    {
      if |keys[i]| > maxKeyLen {
        return Err(KeyTooLong);
      }
    }
    var lanes := KeyLanes(maxKeyLen, keys);
    KeyLanesUniform(maxKeyLen, keys);
    var found, a, b := FindEqualLanes(lanes, LaneCount(maxKeyLen));
    LanesDistinct(maxKeyLen, keys);
    if found {
      EqualLanes(maxKeyLen, keys, a, b);
      return Err(if keys[a] == keys[b] then DuplicateKey else OnlyTrailingNulsDiffer);
    }
    var plan := SearchPlan(lanes);
    r := if plan.Some? then Ok(plan.value) else Err(NoAssignment);
  }

  /** The four searches, cheapest lookup first. */
  method SearchPlan(lanes: seq<seq<nat>>) returns (plan: Option<Plan>)
    requires 1 <= |lanes| <= TWO_TO_THE_31 && forall i: nat | i < |lanes| :: lanes[i] != []
    ensures plan.Some? ==> TableSizeFor(|lanes|, plan.value.tableSize)
    ensures plan.Some? ==> PlanFits(plan.value, GeometryOf(|lanes|, plan.value.tableSize), lanes)
    ensures plan.Some? ==> FirstThatWorks(lanes, plan.value)
    ensures plan.None? <==> NoPlan(lanes)
  {
    hide SeedsFail, FirstSeed, Hashes;
    var n := |lanes|;
    var min, max := GeometryOf(n, NextPowerOf2(n)), GeometryOf(n, 2 * NextPowerOf2(n));
    GeometryFits(n, min.m);
    GeometryFits(n, max.m);
    var out := new WideResult(n);
    var ok := TrySeeds(lanes, min, false, FAST_SEEDS, out);
    if ok { return Some(out.ToPlan()); }
    ok := TrySeeds(lanes, min, true, STRONG_SEEDS, out);
    if ok { return Some(out.ToPlan()); }
    ok := TrySeeds(lanes, max, false, FAST_SEEDS, out);
    if ok { return Some(out.ToPlan()); }
    ok := TrySeeds(lanes, max, true, STRONG_SEEDS, out);
    if ok { return Some(out.ToPlan()); }
    plan := None;
  }

  /** Equal lanes mean equal keys; where no byte holds the length, equal up to trailing zeros. */
  lemma EqualLanes(maxKeyLen: nat, keys: seq<Bytes>, a: nat, b: nat)
    requires 1 <= maxKeyLen && a < |keys| && b < |keys| && |keys[a]| <= maxKeyLen && |keys[b]| <= maxKeyLen
    ensures KeyLanes(maxKeyLen, keys)[a] == KeyLanes(maxKeyLen, keys)[b] <==> SameLanes(maxKeyLen, keys[a], keys[b])
  {
    if KeyLanes(maxKeyLen, keys)[a] == KeyLanes(maxKeyLen, keys)[b] {
      LaneValuesInjective(KeyRow(maxKeyLen, keys[a]), KeyRow(maxKeyLen, keys[b]));
    }
    KeyRowInjective(maxKeyLen, keys[a], keys[b]);
  }

  /** All lane vectors differ exactly when no two keys are the same to the hash. */
  lemma LanesDistinct(maxKeyLen: nat, keys: seq<Bytes>)
    requires 1 <= maxKeyLen && forall i: nat | i < |keys| :: |keys[i]| <= maxKeyLen
    ensures Distinct(KeyLanes(maxKeyLen, keys)) <==> forall i: nat, j: nat | i < j < |keys| ::
      !SameLanes(maxKeyLen, keys[i], keys[j])
    ensures Distinct(KeyLanes(maxKeyLen, keys)) ==> Distinct(keys)
  {
    var lanes := KeyLanes(maxKeyLen, keys);
    forall i: nat, j: nat | i < j < |keys| ensures lanes[i] == lanes[j] <==> SameLanes(maxKeyLen, keys[i], keys[j]) {
      EqualLanes(maxKeyLen, keys, i, j);
    }
    hide SameLanes, KeyLanes;
    if Distinct(lanes) {
      forall i: nat, j: nat | i < j < |keys| ensures keys[i] != keys[j] {
        assert lanes[i] != lanes[j];
        EqualIsSame(maxKeyLen, keys[i], keys[j]);
      }
    }
  }

  lemma EqualIsSame(maxKeyLen: nat, a: Bytes, b: Bytes)
    ensures a == b ==> SameLanes(maxKeyLen, a, b)
  {
  }

  /** Keys the hash cannot tell apart. */
  predicate SameLanes(maxKeyLen: nat, a: Bytes, b: Bytes) {
    if HasLengthLane(maxKeyLen) then a == b else Padded(a, maxKeyLen) == Padded(b, maxKeyLen)
  }
}
