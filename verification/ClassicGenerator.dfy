/** compute_phf: three generators, cheapest hash first, each over growing power-of-two tables. */
module ClassicGenerator {
  import opened Wrappers
  import opened Words
  import opened Numbers
  import opened SlotTable
  import opened Positions
  import opened SelectionFailure
  import opened PartitionSolver
  import opened PinnedValues
  import opened Displacement

  // ---------------------------------------------------------------- table sizes

  const LARGEST_TABLE: nat := 256

  function MaxTableSize(n: nat): nat {
    8 * NextPowerOf2(n)
  }

  function Cap(n: nat): nat {
    if MaxTableSize(n) < LARGEST_TABLE then MaxTableSize(n) else LARGEST_TABLE
  }

  /** The sizes a search that starts at m comes to: m, 2m, 4m, ... up to the cap. */
  predicate Reached(m: nat, cap: nat, size: nat)
    requires m > 0
    decreases cap - m
  {
    size == m || (2 * m <= cap && Reached(2 * m, cap, size))
  }

  /** The sizes tried for n keys. */
  predicate SizeFor(n: nat, size: nat) {
    Reached(NextPowerOf2(n), Cap(n), size)
  }

  lemma {:induction false} ReachedSizes(l: nat, cap: nat, size: nat)
    requires Reached(Pow2(l), cap, size) && Pow2(l) <= cap
    ensures size <= cap && exists k: nat :: l <= k && size == Pow2(k)
    decreases cap - Pow2(l)
  {
    if size != Pow2(l) {
      ReachedSizes(l + 1, cap, size);
    }
  }

  lemma {:induction false} ReachedDivideCap(m: nat, j: nat, size: nat) returns (k: nat)
    requires m > 0 && Reached(m, m * Pow2(j), size)
    ensures k > 0 && k * size == m * Pow2(j)
    decreases j
  {
    if size == m {
      k := Pow2(j);
    } else {
      assert j > 0 && (2 * m) * Pow2(j - 1) == m * Pow2(j);
      k := ReachedDivideCap(2 * m, j - 1, size);
    }
  }

  lemma CapIsPowerOf2(n: nat) returns (j: nat)
    requires n <= LARGEST_TABLE
    ensures NextPowerOf2(n) <= Cap(n) == NextPowerOf2(n) * Pow2(j)
  {
    var l := Log2(n);
    Pow2Of8();
    NextPowerOf2IsLeast(n, 8);
    assert Pow2(3) == 8;
    if MaxTableSize(n) < LARGEST_TABLE {
      j := 3;
    } else {
      if l > 8 { Pow2Increases(8, l); }
      j := 8 - l;
      Pow2Add(l, j);
    }
  }

  /** Every size tried is a power of two of at most 256, and divides 2^64. */
  lemma SizesArePowersOf2(n: nat, size: nat)
    requires n <= LARGEST_TABLE && SizeFor(n, size)
    ensures 0 < size <= LARGEST_TABLE && size <= MaxTableSize(n) && IsPowerOf2(size) && DividesWord(size)
  {
    var j := CapIsPowerOf2(n);
    ReachedSizes(Log2(n), Cap(n), size);
    var k: nat :| size == Pow2(k);
    Pow2Of8();
    if k > 8 { Pow2Increases(8, k); }
    Pow2DividesWord(k);
  }

  lemma {:induction false} ReachedPowers(l: nat, j: nat, k: nat)
    requires l <= k <= l + j
    ensures Reached(Pow2(l), Pow2(l + j), Pow2(k))
    decreases j
  {
    if k > l {
      Pow2Grows(l + 1, l + j);
      ReachedPowers(l + 1, j - 1, k);
    }
  }

  /** No size is left out: exactly the powers of two from the first that holds all keys up to the cap are tried. */
  lemma SizesAreAllPowersOf2(n: nat, size: nat)
    requires n <= LARGEST_TABLE
    ensures SizeFor(n, size) <==>
      IsPowerOf2(size) && NextPowerOf2(n) <= size <= 8 * NextPowerOf2(n) && size <= 256
  {
    var l := Log2(n);
    var j := CapIsPowerOf2(n);
    Pow2Add(l, j);
    if SizeFor(n, size) {
      ReachedSizes(l, Cap(n), size);
      SizesArePowersOf2(n, size);
      NotBelowTheStart(Pow2(l), Cap(n), size);
    } else if IsPowerOf2(size) && NextPowerOf2(n) <= size <= 8 * NextPowerOf2(n) && size <= 256 {
      var k: nat :| size == Pow2(k);
      if k < l { Pow2Increases(k, l); }
      if l + j < k { Pow2Increases(l + j, k); }
      ReachedPowers(l, j, k);
    }
  }

  /** What the pre-flight relies on: positions that tell the keys apart at any size tried do so at the cap. */
  lemma PreflightIsSound(keys: seq<Bytes>, positions: seq<nat>, size: nat)
    requires |keys| <= LARGEST_TABLE && SizeFor(|keys|, size)
    ensures size > 0 && Cap(|keys|) > 0
    ensures Distinguishes(keys, positions, size) ==> Distinguishes(keys, positions, Cap(|keys|))
  {
    SizesArePowersOf2(|keys|, size);
    var j := CapIsPowerOf2(|keys|);
    var k := ReachedDivideCap(NextPowerOf2(|keys|), j, size);
    LargerTableIsEasier(keys, positions, size, k);
  }

  /** The largest size is tried, and it is the cap. */
  lemma CapIsTried(n: nat)
    requires n <= LARGEST_TABLE
    ensures SizeFor(n, Cap(n)) && Cap(n) > 0
  {
    var j := CapIsPowerOf2(n);
    CapIsReached(NextPowerOf2(n), j);
  }

  lemma {:induction false} CapIsReached(m: nat, j: nat)
    requires m > 0
    ensures Reached(m, m * Pow2(j), m * Pow2(j))
    decreases j
  {
    if j > 0 {
      assert (2 * m) * Pow2(j - 1) == m * Pow2(j);
      CapIsReached(2 * m, j - 1);
    }
  }

  // ---------------------------------------------------------------- the result

  /** num_positions values that stand for the two displacement modes. */
  const HD_MODE: nat := 0xFF
  const FULLHASH_MODE: nat := 0xFE

  /** phf_result: the same raw fields for all three modes. */
  datatype PhfResult = PhfResult(tableSize: nat, asso: seq<Row>, numPositions: nat, positions: seq<nat>,
                                 slotToKey: seq<nat>, seed: nat)

  datatype PhfError = DuplicateKey | EmptyKeyRead | NoPerfectHash

  /** Sizes of the fields, and what the mode's own fields may hold. */
  ghost predicate PhfShaped(r: PhfResult, keys: seq<Bytes>, maxPositions: nat) {
    && 0 < r.tableSize <= LARGEST_TABLE && r.tableSize <= |r.slotToKey|
    && 1 <= maxPositions < FULLHASH_MODE && |r.positions| == maxPositions && r.seed < TWO_TO_THE_64
    && if r.numPositions == HD_MODE then
         ByteRow(r.asso) && [] !in keys && (r.positions[0] == 2 || r.positions[0] == 4)
       else if r.numPositions == FULLHASH_MODE then ByteRow(r.asso)
       else
         && r.numPositions <= maxPositions && Tables(r.asso, r.numPositions)
         && forall p: nat | p < r.numPositions :: Storable(r.positions[p])
  }

  /** The displacement modes keep their one table in the first row; its values fit a byte. */
  ghost predicate ByteRow(asso: seq<Row>) {
    asso != [] && |asso[0]| == 256 && forall c: nat | c < 256 :: asso[0][c] < 256
  }

  /** The slots the result's hash gives the keys. */
  ghost function PlannedSlots(r: PhfResult, keys: seq<Bytes>, maxPositions: nat): (slots: seq<nat>)
    requires PhfShaped(r, keys, maxPositions)
    ensures |slots| == |keys| && forall i: nat | i < |keys| :: slots[i] < r.tableSize
  {
    if r.numPositions == HD_MODE then
      DisplacedSlots(BucketHashes(keys), KeyHashes(keys, r.positions[0]), r.asso[0], r.tableSize)
    else if r.numPositions == FULLHASH_MODE then
      DisplacedSlots(SeededBuckets(SeededHashes(keys, r.seed)), SeededHashes(keys, r.seed), r.asso[0], r.tableSize)
    else GperfSlots(keys, r.positions[..r.numPositions], r.asso, r.tableSize)
  }

  /** The result is a perfect hash of the keys; slots past the table are empty. */
  ghost predicate PhfFits(r: PhfResult, keys: seq<Bytes>, maxPositions: nat) {
    && PhfShaped(r, keys, maxPositions)
    && Perfect(PlannedSlots(r, keys, maxPositions), r.slotToKey[..r.tableSize])
    && forall s: nat | r.tableSize <= s < |r.slotToKey| :: r.slotToKey[s] == |keys|
  }

  // ---------------------------------------------------------------- filling the result

  function ZeroRows(n: nat): (rows: seq<Row>)
    ensures |rows| == n && forall p: nat | p < n :: |rows[p]| == 256
  {
    seq(n, _ => Zeros(256))
  }

  /** A table of m slots, with the rest of the array marked empty. */
  function Extended(table: seq<nat>, size: nat, empty: nat): (r: seq<nat>)
    requires |table| <= size
    ensures |r| == size && r[..|table|] == table && forall s: nat | |table| <= s < size :: r[s] == empty
  {
    table + seq(size - |table|, _ => empty)
  }

  /** Positions followed by zeros. */
  function PositionArray(positions: seq<nat>, size: nat): (r: seq<nat>)
    requires |positions| <= size
    ensures |r| == size && r[..|positions|] == positions && forall p: nat | p < |positions| :: r[p] == positions[p]
  {
    positions + Zeros(size - |positions|)
  }

  method TryComputePhf(keys: seq<Bytes>, m: nat, maxPositions: nat) returns (r: Option<PhfResult>)
    requires 0 < m <= LARGEST_TABLE && m <= MaxTableSize(|keys|) && 1 <= maxPositions < FULLHASH_MODE
    ensures r.Some? ==>
      PhfFits(r.value, keys, maxPositions) && r.value.tableSize == m && r.value.numPositions <= maxPositions
    ensures r.Some? ==> (r.value.numPositions == 0 <==> Distinguishes(keys, [], m))
    ensures r.None? <==> GperfFails(keys, m, maxPositions)
  {
    hide Perfect, Distinguishes, Selection, ValuesFail, GperfHash, Distinct;
    var plan := TryGenerateGperf(keys, m, maxPositions);
    if plan.Err? {
      return None;
    }
    var p := plan.value;
    var result := PhfResult(m, p.asso, |p.positions|, PositionArray(p.positions, maxPositions),
                            Extended(p.slotToKey, MaxTableSize(|keys|), |keys|), 0);
    assert PlannedSlots(result, keys, maxPositions) == GperfSlots(keys, p.positions, p.asso, m);
    r := Some(result);
  }

  /** A length-only plan is a gperf result without positions. */
  method TryComputePhfHd(keys: seq<Bytes>, m: nat, maxPositions: nat) returns (r: Result<PhfResult, HdFailure>)
    requires 0 < m <= LARGEST_TABLE && m <= MaxTableSize(|keys|) && 1 <= maxPositions < FULLHASH_MODE
    ensures r.Ok? ==> PhfFits(r.value, keys, maxPositions) && r.value.tableSize == m
    ensures r.Ok? ==> r.value.numPositions == if Distinguishes(keys, [], m) then 0 else HD_MODE
    ensures r == Err(ReadsEmptyKey) <==> HdUndefined(keys, m)
    ensures r == Err(ReadsEmptyKey) ==> [] in keys
    ensures r == Err(NothingFits) <==> HdHopeless(keys, m)
  {
    hide HdFits, Distinguishes, HdHopeless, HdUndefined, PhfFits;
    var plan := TryHashAndDisplace(keys, m);
    if plan.Err? {
      return Err(plan.error);
    }
    HdResultFits(plan.value, keys, m, maxPositions);
    r := Ok(HdResult(plan.value, keys, m, maxPositions));
  }

  /** A hash-and-displace plan as a result; one by length alone has the form of a hash without positions. */
  function HdResult(plan: HdPlan, keys: seq<Bytes>, m: nat, maxPositions: nat): (r: PhfResult)
    requires HdFits(plan, keys, m) && m <= MaxTableSize(|keys|) && 1 <= maxPositions
    ensures r.tableSize == m && r.numPositions == if plan.ByLength? then 0 else HD_MODE
  {
    var table := Extended(plan.slotToKey, MaxTableSize(|keys|), |keys|);
    match plan
    case ByLength(_) => PhfResult(m, ZeroRows(maxPositions), 0, Zeros(maxPositions), table, 0)
    case ByFeatures(rounds, disp, _) =>
      PhfResult(m, ZeroRows(maxPositions)[0 := disp], HD_MODE, Zeros(maxPositions)[0 := rounds], table, 0)
  }

  lemma HdResultFits(plan: HdPlan, keys: seq<Bytes>, m: nat, maxPositions: nat)
    requires HdFits(plan, keys, m) && 0 < m <= LARGEST_TABLE && m <= MaxTableSize(|keys|)
    requires 1 <= maxPositions < FULLHASH_MODE
    ensures PhfFits(HdResult(plan, keys, m, maxPositions), keys, maxPositions)
  {
    hide Perfect, KeyHash, BucketHash, FullHash, SeededBucket;
    if plan.ByLength? {
      assert PlannedSlots(HdResult(plan, keys, m, maxPositions), keys, maxPositions) == LengthSlots(keys, m);
    }
  }

  method TryComputePhfFh(keys: seq<Bytes>, m: nat, maxPositions: nat) returns (r: Option<PhfResult>)
    requires 0 < m <= LARGEST_TABLE && m <= MaxTableSize(|keys|) && 1 <= maxPositions < FULLHASH_MODE
    ensures r.Some? ==>
      PhfFits(r.value, keys, maxPositions) && r.value.tableSize == m && r.value.numPositions == FULLHASH_MODE
    ensures r.None? <==> AllSeedsFail(keys, m)
  {
    hide Perfect, SeedFails;
    var plan := TrySeededFullHash(keys, m);
    if plan.None? {
      return None;
    }
    var p := plan.value;
    r := Some(PhfResult(m, ZeroRows(maxPositions)[0 := p.disp], FULLHASH_MODE, Zeros(maxPositions),
                        Extended(p.slotToKey, MaxTableSize(|keys|), |keys|), p.seed));
  }

  ghost predicate AllSeedsFail(keys: seq<Bytes>, m: nat) {
    m > 0 && forall s: nat | s < MAX_SEEDS :: SeedFails(keys, m, s)
  }

  /** The lengths alone tell the keys apart. */
  ghost predicate LengthsSuffice(keys: seq<Bytes>, m: nat) {
    m > 0 && Distinguishes(keys, [], m)
  }

  // ---------------------------------------------------------------- growing the table

  /** The sizes tried before one that worked; all of them if none did. */
  predicate Passed(r: Option<PhfResult>, size: nat) {
    r.Some? ==> size < r.value.tableSize
  }

  /** Sizes a search can still come to all fit. */
  ghost predicate RoomFor(keys: seq<Bytes>, m: nat, cap: nat, maxPositions: nat) {
    0 < m <= cap <= LARGEST_TABLE && cap <= MaxTableSize(|keys|) && 1 <= maxPositions < FULLHASH_MODE
  }

  lemma {:induction false} NotBelowTheStart(m: nat, cap: nat, size: nat)
    requires m > 0 && Reached(m, cap, size)
    ensures size >= m
    decreases cap - m
  {
    if size != m { NotBelowTheStart(2 * m, cap, size); }
  }

  method TryGperfPo2(keys: seq<Bytes>, m: nat, cap: nat, maxPositions: nat) returns (r: Option<PhfResult>)
    requires RoomFor(keys, m, cap, maxPositions)
    ensures r.Some? ==>
      PhfFits(r.value, keys, maxPositions) && Reached(m, cap, r.value.tableSize)
      && r.value.numPositions <= maxPositions
    ensures r.Some? ==> (r.value.numPositions == 0 <==> LengthsSuffice(keys, r.value.tableSize))
    ensures r.Some? ==> !GperfFails(keys, r.value.tableSize, maxPositions)
    ensures forall size: nat | Reached(m, cap, size) && Passed(r, size) :: GperfFails(keys, size, maxPositions)
    decreases cap - m
  {
    hide PhfFits, GperfFails;
    forall size: nat | Reached(m, cap, size) ensures size >= m {
      NotBelowTheStart(m, cap, size);
    }
    r := TryComputePhf(keys, m, maxPositions);
    if r.None? && 2 * m <= cap {
      r := TryGperfPo2(keys, 2 * m, cap, maxPositions);
    }
  }

  /** At some size the tier comes to an empty key, and at every smaller one it fails. */
  ghost predicate HdReachesUndefined(keys: seq<Bytes>, m: nat, cap: nat)
    requires m > 0
  {
    exists size: nat :: Reached(m, cap, size) && HdUndefined(keys, size)
      && forall smaller: nat | Reached(m, cap, smaller) && smaller < size :: HdHopeless(keys, smaller)
  }

  lemma UndefinedAtOnce(keys: seq<Bytes>, m: nat, cap: nat)
    requires m > 0
    ensures HdUndefined(keys, m) ==> HdReachesUndefined(keys, m, cap)
    ensures HdReachesUndefined(keys, m, cap) ==> HdUndefined(keys, m) || HdHopeless(keys, m)
  {
    hide HdUndefined, HdHopeless;
    forall size: nat | Reached(m, cap, size) ensures size >= m {
      NotBelowTheStart(m, cap, size);
    }
    assert Reached(m, cap, m);
  }

  lemma UndefinedLater(keys: seq<Bytes>, m: nat, cap: nat)
    requires 0 < m && HdHopeless(keys, m)
    ensures HdReachesUndefined(keys, m, cap) <==> 2 * m <= cap && HdReachesUndefined(keys, 2 * m, cap)
  {
    HopelessIsNotUndefined(keys, m);
    hide HdUndefined, HdHopeless;
    forall size: nat | Reached(m, cap, size) ensures size >= m {
      NotBelowTheStart(m, cap, size);
    }
    if 2 * m <= cap {
      forall size: nat | Reached(2 * m, cap, size) ensures size >= 2 * m && Reached(m, cap, size) {
        NotBelowTheStart(2 * m, cap, size);
      }
    }
  }

  lemma HopelessIsNotUndefined(keys: seq<Bytes>, m: nat)
    requires HdHopeless(keys, m)
    ensures !HdUndefined(keys, m)
  {
    var bucket := BucketHashes(keys);
    FailedIsNotUndefined(bucket, KeyHashes(keys, 2), NonEmpty(keys), m, HdLimit(m));
    FailedIsNotUndefined(bucket, KeyHashes(keys, 4), NonEmpty(keys), m, HdLimit(m));
    hide PlacementFails, ComesToUnreadable;
  }

  method TryHdPo2(keys: seq<Bytes>, m: nat, cap: nat, maxPositions: nat) returns (r: Option<PhfResult>, undefined: bool)
    requires RoomFor(keys, m, cap, maxPositions)
    ensures undefined ==> [] in keys && r.None?
    ensures undefined <==> HdReachesUndefined(keys, m, cap)
    ensures r.Some? ==> PhfFits(r.value, keys, maxPositions) && Reached(m, cap, r.value.tableSize)
    ensures r.Some? ==> r.value.numPositions == if LengthsSuffice(keys, r.value.tableSize) then 0 else HD_MODE
    ensures r.Some? ==> !HdHopeless(keys, r.value.tableSize)
    ensures !undefined ==> forall size: nat | Reached(m, cap, size) && Passed(r, size) :: HdHopeless(keys, size)
    decreases cap - m
  {
    hide PhfFits, HdHopeless, HdUndefined, Distinguishes, HdReachesUndefined;
    forall size: nat | Reached(m, cap, size) ensures size >= m {
      NotBelowTheStart(m, cap, size);
    }
    UndefinedAtOnce(keys, m, cap);
    var first := TryComputePhfHd(keys, m, maxPositions);
    if first.Ok? {
      return Some(first.value), false;
    }
    if first.error == ReadsEmptyKey {
      return None, true;
    }
    UndefinedLater(keys, m, cap);
    r, undefined := None, false;
    if 2 * m <= cap {
      r, undefined := TryHdPo2(keys, 2 * m, cap, maxPositions);
    }
  }

  lemma LengthsDoNotSuffice(keys: seq<Bytes>, m: nat)
    requires HdHopeless(keys, m)
    ensures !LengthsSuffice(keys, m)
  {
  }

  method TryFhPo2(keys: seq<Bytes>, m: nat, cap: nat, maxPositions: nat) returns (r: Option<PhfResult>)
    requires RoomFor(keys, m, cap, maxPositions)
    ensures r.Some? ==>
      PhfFits(r.value, keys, maxPositions) && Reached(m, cap, r.value.tableSize)
      && r.value.numPositions == FULLHASH_MODE
    ensures r.Some? ==> !AllSeedsFail(keys, r.value.tableSize)
    ensures forall size: nat | Reached(m, cap, size) && Passed(r, size) :: AllSeedsFail(keys, size)
    decreases cap - m
  {
    hide PhfFits, AllSeedsFail;
    forall size: nat | Reached(m, cap, size) ensures size >= m {
      NotBelowTheStart(m, cap, size);
    }
    r := TryComputePhfFh(keys, m, maxPositions);
    if r.None? && 2 * m <= cap {
      r := TryFhPo2(keys, 2 * m, cap, maxPositions);
    }
  }

  // ---------------------------------------------------------------- all tiers

  /** The pairwise check for duplicates. */
  method HasDuplicate(keys: seq<Bytes>) returns (dup: bool)
    ensures dup <==> !Distinct(keys)
  {
    for i := 0 to |keys|
      invariant forall a: nat, b: nat | a < b < |keys| && a < i :: keys[a] != keys[b]
    {
      for j := i + 1 to |keys|
        invariant forall b: nat | i < b < j :: keys[i] != keys[b]
      {
        if keys[i] == keys[j] {
          return true;
        }
      }
    }
    dup := false;
  }

  /** Tier 1 is out: the pre-flight finds no positions at the cap, or the solver fails at every size. */
  ghost predicate TierOneFails(keys: seq<Bytes>, maxPositions: nat)
    requires |keys| <= LARGEST_TABLE
  {
    || !PreflightPasses(keys, maxPositions)
    || forall size: nat | SizeFor(|keys|, size) :: GperfFails(keys, size, maxPositions)
  }

  ghost predicate PreflightPasses(keys: seq<Bytes>, maxPositions: nat) {
    Cap(|keys|) > 0 && maxPositions > 0 && Selection(keys, Cap(|keys|), maxPositions).Some?
  }

  ghost predicate TierTwoFails(keys: seq<Bytes>) {
    forall size: nat | SizeFor(|keys|, size) :: HdHopeless(keys, size)
  }

  /** Tier 2 comes to hash an empty key before it succeeds. */
  ghost predicate TierTwoUndefined(keys: seq<Bytes>) {
    NextPowerOf2(|keys|) > 0 && HdReachesUndefined(keys, NextPowerOf2(|keys|), Cap(|keys|))
  }

  ghost predicate TierThreeFails(keys: seq<Bytes>) {
    forall size: nat | SizeFor(|keys|, size) :: AllSeedsFail(keys, size)
  }

  /** The result comes from the first tier that does not fail, at the first size at which it does not. */
  ghost predicate FirstThatWorks(r: PhfResult, keys: seq<Bytes>, maxPositions: nat)
    requires |keys| <= LARGEST_TABLE
  {
    if r.numPositions == HD_MODE then
      && TierOneFails(keys, maxPositions) && !HdHopeless(keys, r.tableSize)
      && forall size: nat | SizeFor(|keys|, size) && size < r.tableSize :: HdHopeless(keys, size)
    else if r.numPositions == FULLHASH_MODE then
      && TierOneFails(keys, maxPositions) && TierTwoFails(keys) && !AllSeedsFail(keys, r.tableSize)
      && forall size: nat | SizeFor(|keys|, size) && size < r.tableSize :: AllSeedsFail(keys, size)
    else
      && PreflightPasses(keys, maxPositions) && !GperfFails(keys, r.tableSize, maxPositions)
      && forall size: nat | SizeFor(|keys|, size) && size < r.tableSize :: GperfFails(keys, size, maxPositions)
  }

  /** Where lengths alone suffice tier 1 succeeds without positions, so tier 2 never has to ask for them. */
  lemma LengthsAreForTierOne(keys: seq<Bytes>, size: nat, maxPositions: nat)
    requires |keys| <= LARGEST_TABLE && SizeFor(|keys|, size) && maxPositions > 0 && LengthsSuffice(keys, size)
    ensures !TierOneFails(keys, maxPositions)
  {
    PreflightIsSound(keys, [], size);
    NoPositionsNoValues(keys, size, maxPositions);
    hide GperfFails;
  }

  lemma NoPositionsNoValues(keys: seq<Bytes>, m: nat, maxPositions: nat)
    requires m > 0 && maxPositions > 0 && Distinguishes(keys, [], m)
    ensures !GperfFails(keys, m, maxPositions)
  {
    NoSymbolsNoValues(keys, m);
    SolvedIsNotStuck(keys, [], m, []);
    hide ValuesFail;
  }

  lemma FewerThan32(n: nat)
    requires n < 32
    ensures n * n < 4 * Cap(n)
  {
    NextPowerOf2IsLeast(n, 5);
    SmallSquare(n);
    NextIsPositive(n);
    hide NextPowerOf2;
  }

  lemma SmallSquare(n: nat)
    requires n < 32
    ensures n * n <= 31 * n <= 961
  {
  }

  lemma NextIsPositive(n: nat)
    ensures NextPowerOf2(n) >= 1
  {
  }

  /** For few keys tier 1 is enough: fewer than 32 different keys, shorter than the number of positions, get a hash
      without displacements, unless salts happen to collide. */
  lemma FewKeysNeedNoFallback(keys: seq<Bytes>, maxPositions: nat)
    requires |keys| < 32 && Distinct(keys) && MaxLength(keys) < maxPositions < MAX_CANDIDATES
    requires Cap(|keys|) > 0 && var selected := Selection(keys, Cap(|keys|), maxPositions);
      selected.Some? ==> StartsApart(keys, selected.value, Cap(|keys|))
    ensures !TierOneFails(keys, maxPositions)
  {
    hide Selection, StartsApart, ValuesFail, Distinct, MaxLength;
    FewerThan32(|keys|);
    CapIsTried(|keys|);
    ShortKeysAlwaysHavePositions(keys, Cap(|keys|), maxPositions);
    if GperfFails(keys, Cap(|keys|), maxPositions) {
      FewKeysOnlyLackPositions(keys, Cap(|keys|), maxPositions);
    }
  }

  /** And nothing is unless about it where some one position tells the keys apart. */
  lemma OnePositionNeedsNoFallback(keys: seq<Bytes>, p: nat, maxPositions: nat)
    requires |keys| < 32 && 0 < maxPositions && Cap(|keys|) > 0
    requires p in Candidates(keys) && Distinguishes(keys, [p], Cap(|keys|))
    ensures !TierOneFails(keys, maxPositions)
  {
    hide Selection, ValuesFail, Distinguishes, Candidates;
    FewerThan32(|keys|);
    CapIsTried(|keys|);
    OnePositionIsEnough(keys, p, Cap(|keys|), maxPositions);
    hide GperfFails;
    SelectionIsThere(keys, p, Cap(|keys|), maxPositions);
  }

  lemma SelectionIsThere(keys: seq<Bytes>, p: nat, m: nat, maxPositions: nat)
    requires m > 0 && maxPositions > 0 && p in Candidates(keys) && Distinguishes(keys, [p], m)
    ensures Selection(keys, m, maxPositions).Some?
  {
    if !Distinguishes(keys, [], m) {
      var _ := OnePositionIsFound(keys, p, m, maxPositions);
    }
  }

  /** A tier that fails at every size reads no empty key at any. */
  lemma FailedTierIsDefined(keys: seq<Bytes>)
    requires |keys| <= LARGEST_TABLE && TierTwoFails(keys)
    ensures !TierTwoUndefined(keys)
  {
    hide HdHopeless, HdUndefined;
    forall size: nat | SizeFor(|keys|, size) ensures !HdUndefined(keys, size) {
      HopelessIsNotUndefined(keys, size);
    }
  }

  /** The pre-flight at the cap, then the solver at every size. */
  method TierOne(keys: seq<Bytes>, maxPositions: nat) returns (r: Option<PhfResult>)
    requires |keys| <= LARGEST_TABLE && 1 <= maxPositions < FULLHASH_MODE
    ensures r.None? <==> TierOneFails(keys, maxPositions)
    ensures r.Some? ==> PhfFits(r.value, keys, maxPositions) && SizeFor(|keys|, r.value.tableSize)
    ensures r.Some? ==> FirstThatWorks(r.value, keys, maxPositions)
    ensures r.Some? ==> Selection(keys, Cap(|keys|), maxPositions).Some? && r.value.numPositions <= maxPositions
    ensures r.Some? ==> (r.value.numPositions == 0 <==> LengthsSuffice(keys, r.value.tableSize))
  {
    hide PhfFits, Distinguishes, Distinct, Candidates, GperfFails, Selection, LengthsSuffice;
    var start, cap := NextPowerOf2(|keys|), Cap(|keys|);
    var _ := CapIsPowerOf2(|keys|);
    var probe := new nat[maxPositions](_ => 0);
    var possible := SelectPositions(keys, probe, cap, maxPositions);
    if possible.None? {
      return None;
    }
    r := TryGperfPo2(keys, start, cap, maxPositions);
  }

  /** Hash-and-displace at every size; it is never asked for lengths alone. */
  method TierTwo(keys: seq<Bytes>, maxPositions: nat) returns (r: Result<PhfResult, HdFailure>)
    requires |keys| <= LARGEST_TABLE && 1 <= maxPositions < FULLHASH_MODE && TierOneFails(keys, maxPositions)
    ensures r == Err(ReadsEmptyKey) <==> TierTwoUndefined(keys)
    ensures r == Err(ReadsEmptyKey) ==> [] in keys
    ensures r == Err(NothingFits) <==> TierTwoFails(keys)
    ensures r.Ok? ==> PhfFits(r.value, keys, maxPositions) && SizeFor(|keys|, r.value.tableSize)
    ensures r.Ok? ==> FirstThatWorks(r.value, keys, maxPositions)
    ensures r.Ok? ==> r.value.numPositions == HD_MODE != 0 && !LengthsSuffice(keys, r.value.tableSize)
    ensures r.Ok? ==> r.value.numPositions > maxPositions
  {
    hide PhfFits, HdHopeless, HdReachesUndefined, Distinguishes, TierOneFails, LengthsSuffice;
    var _ := CapIsPowerOf2(|keys|);
    var plan, undefined := TryHdPo2(keys, NextPowerOf2(|keys|), Cap(|keys|), maxPositions);
    if undefined {
      if TierTwoFails(keys) { FailedTierIsDefined(keys); }
      return Err(ReadsEmptyKey);
    }
    if plan.None? {
      return Err(NothingFits);
    }
    if LengthsSuffice(keys, plan.value.tableSize) {
      LengthsAreForTierOne(keys, plan.value.tableSize, maxPositions);
    }
    r := Ok(plan.value);
  }

  /** The seeded full hash at every size. */
  method TierThree(keys: seq<Bytes>, maxPositions: nat) returns (r: Option<PhfResult>)
    requires |keys| <= LARGEST_TABLE && 1 <= maxPositions < FULLHASH_MODE
    requires TierOneFails(keys, maxPositions) && TierTwoFails(keys)
    ensures r.None? <==> TierThreeFails(keys)
    ensures r.Some? ==> PhfFits(r.value, keys, maxPositions) && SizeFor(|keys|, r.value.tableSize)
    ensures r.Some? ==> FirstThatWorks(r.value, keys, maxPositions)
    ensures r.Some? ==> r.value.numPositions == FULLHASH_MODE != 0 && !LengthsSuffice(keys, r.value.tableSize)
    ensures r.Some? ==> r.value.numPositions > maxPositions
  {
    hide PhfFits, AllSeedsFail, TierOneFails, HdHopeless, LengthsSuffice;
    var _ := CapIsPowerOf2(|keys|);
    r := TryFhPo2(keys, NextPowerOf2(|keys|), Cap(|keys|), maxPositions);
    if r.Some? {
      LengthsDoNotSuffice(keys, r.value.tableSize);
    }
  }

  /** compute_phf. Duplicates are reported exactly when there are any. A success is a perfect hash of the keys in a
      power-of-two table of at most 256 slots, from the first tier that does not fail and at the first size at which
      it does not. Different keys get no hash exactly where all three tiers fail; the outcome is undefined exactly where
      tier 2 comes to hash an empty key, whose first byte it reads. */
  method ComputePhf(keys: seq<Bytes>, maxPositions: nat) returns (r: Result<PhfResult, PhfError>)
    requires |keys| <= LARGEST_TABLE && 1 <= maxPositions < FULLHASH_MODE
    ensures r == Err(DuplicateKey) <==> !Distinct(keys)
    ensures r.Ok? ==> PhfFits(r.value, keys, maxPositions) && SizeFor(|keys|, r.value.tableSize)
    ensures r.Ok? ==> FirstThatWorks(r.value, keys, maxPositions)
    ensures r.Ok? ==> (r.value.numPositions == 0 <==> LengthsSuffice(keys, r.value.tableSize))
    ensures r.Ok? && r.value.numPositions <= maxPositions ==> Selection(keys, Cap(|keys|), maxPositions).Some?
    ensures r == Err(EmptyKeyRead) <==>
      Distinct(keys) && TierOneFails(keys, maxPositions) && TierTwoUndefined(keys)
    ensures r == Err(EmptyKeyRead) ==> [] in keys
    ensures r == Err(NoPerfectHash) <==>
      Distinct(keys) && TierOneFails(keys, maxPositions) && TierTwoFails(keys) && TierThreeFails(keys)
  {
    hide *;
    var dup := HasDuplicate(keys);
    if dup {
      return Err(DuplicateKey);
    }
    var first := TierOne(keys, maxPositions);
    if first.Some? {
      return Ok(first.value);
    }
    var second := TierTwo(keys, maxPositions);
    match second {
      case Err(ReadsEmptyKey) => return Err(EmptyKeyRead);
      case Ok(phf) => return Ok(phf);
      case Err(NothingFits) =>
    }
    var third := TierThree(keys, maxPositions);
    r := if third.Some? then Ok(third.value) else Err(NoPerfectHash);
  }
}
