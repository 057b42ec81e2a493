/** The wide set and map: constructors that fill the tables step by step, and the queries on them. */
module WideContainer {
  import opened Wrappers
  import opened Words
  import opened Numbers
  import opened WideHash
  import opened WideGenerator
  import opened WideTables
  import opened FusedValues
  import Positions

  /** A cast to 16 bits where 16 bits suffice, to 32 otherwise. */
  function Narrow(x: nat, small: bool): (r: nat)
    ensures small && x < 0x1_0000 ==> r == x
    ensures x < TWO_TO_THE_32 && !small ==> r == x
  {
    x % (if small then 0x1_0000 else TWO_TO_THE_32)
  }

  /** The pilots in the width the table uses. */
  function NarrowPilots(pilots: seq<nat>, m: nat): (r: seq<nat>)
    ensures |r| == |pilots| && forall b: nat | b < |pilots| :: r[b] == Narrow(pilots[b], m <= 0x1_0000)
  {
    seq(|pilots|, b requires 0 <= b < |pilots| => Narrow(pilots[b], m <= 0x1_0000))
  }

  /** The first m slots; whatever is not the number of a key becomes the empty marker. */
  function Cleaned(table: seq<nat>, m: nat, n: nat): (r: seq<nat>)
    requires m <= |table|
    ensures |r| == m && forall s: nat | s < m :: r[s] == if table[s] < n then table[s] else n
  {
    seq(m, s requires 0 <= s < m => if table[s] < n then table[s] else n)
  }

  /** The last of the first `upTo` slots that names key i; zero where none does. */
  function LastNamed(table: seq<nat>, i: nat, upTo: nat): nat
    requires upTo <= |table|
  {
    if upTo == 0 then 0 else if table[upTo - 1] == i then upTo - 1 else LastNamed(table, i, upTo - 1)
  }

  /** The key's bytes fit a row; packed lanes are cut to their width, and take any key. */
  predicate HasRoom(maxKeyLen: nat, key: Bytes) {
    HasLengthLane(maxKeyLen) || |key| <= RowWidth(maxKeyLen)
  }

  ghost predicate RowsSuffice(maxKeyLen: nat, keys: seq<Bytes>, table: seq<nat>) {
    forall s: nat | s < |table| && table[s] < |keys| :: HasRoom(maxKeyLen, keys[table[s]])
  }

  class WideSet {
    const maxKeyLen: nat
    const strong: bool
    const fusedBits: nat
    const g: Geometry
    const pilots: array<nat>
    const rows: array<Bytes>
    const lens: array<nat>
    const slotToKey: array<nat>
    const keyToSlot: array<nat>
    var muls: seq<nat>
    var minKeyLen: nat

    /** Zero-initialised tables. */
    constructor (n: nat, maxKeyLen: nat, g: Geometry, strong: bool, fusedBits: nat)
      requires 1 <= maxKeyLen
      ensures Shaped(n) && fresh(pilots) && fresh(rows) && fresh(lens) && fresh(slotToKey) && fresh(keyToSlot)
      ensures this.maxKeyLen == maxKeyLen && this.g == g && this.strong == strong && this.fusedBits == fusedBits
      ensures forall s: nat | s < g.m :: lens[s] == 0 && rows[s] == seq<Byte>(RowWidth(maxKeyLen), _ => 0)
      ensures forall i: nat | i < n :: keyToSlot[i] == 0
    {
      this.maxKeyLen, this.g, this.strong, this.fusedBits := maxKeyLen, g, strong, fusedBits;
      pilots := new nat[g.buckets](_ => 0);
      rows := new Bytes[g.m](_ => seq<Byte>(RowWidth(maxKeyLen), _ => 0));
      lens := new nat[g.m](_ => 0);
      slotToKey := new nat[g.m](_ => 0);
      keyToSlot := new nat[n](_ => 0);
      muls, minKeyLen := [], 0;
    }

    /** The tables are separate and have the sizes their types give them. */
    ghost predicate Shaped(n: nat) {
      && pilots.Length == g.buckets && rows.Length == lens.Length == slotToKey.Length == g.m && keyToSlot.Length == n
      && pilots != lens && pilots != slotToKey && pilots != keyToSlot
      && lens != slotToKey && lens != keyToSlot && slotToKey != keyToSlot
    }

    function Tables(): WideTables
      reads this, pilots, rows, lens, slotToKey, keyToSlot
    {
      WideTables(maxKeyLen, strong, fusedBits, g, pilots[..], rows[..], lens[..], muls, minKeyLen, slotToKey[..],
        keyToSlot[..])
    }

    /** Copy pilots and slots out of the plan, narrowed to the widths the tables use. */
    method CopyPlan(n: nat, plan: Plan)
      requires Shaped(n) && n <= TWO_TO_THE_31 && |plan.pilots| == g.buckets && g.m <= |plan.slotToKey|
      modifies pilots, slotToKey
      ensures pilots[..] == NarrowPilots(plan.pilots, g.m)
      ensures slotToKey[..] == Cleaned(plan.slotToKey, g.m, n)
    {
      for b := 0 to g.buckets
        invariant forall c: nat | c < b :: pilots[c] == NarrowPilots(plan.pilots, g.m)[c]
      {
        pilots[b] := Narrow(plan.pilots[b], g.m <= 0x1_0000);
      }
      for s := 0 to g.m
        invariant pilots[..] == NarrowPilots(plan.pilots, g.m)
        invariant forall t: nat | t < s :: slotToKey[t] == Cleaned(plan.slotToKey, g.m, n)[t]
      {
        slotToKey[s] := Narrow(if plan.slotToKey[s] < n then plan.slotToKey[s] else n, n < 65535);
      }
    }

    /** Row and length of one slot, assembled byte by byte; false where the key's bytes run past the row. */
    method StoreKey(s: nat, key: Bytes, n: nat) returns (ok: bool)
      requires Shaped(n) && s < g.m && 1 <= maxKeyLen <= 4080
      requires rows[s] == seq<Byte>(RowWidth(maxKeyLen), _ => 0) && lens[s] == 0
      modifies rows, lens
      ensures ok <==> HasRoom(maxKeyLen, key)
      ensures ok && HasLengthLane(maxKeyLen) ==> rows[s] == KeyRow(maxKeyLen, key) && lens[s] == 0
      ensures ok && !HasLengthLane(maxKeyLen) ==> rows[s] == Padded(key, RowWidth(maxKeyLen)) && lens[s] == |key|
      ensures forall t: nat | t < g.m && t != s :: rows[t] == old(rows[t]) && lens[t] == old(lens[t])
    {
      if HasLengthLane(maxKeyLen) {
        var row := KeyRow(maxKeyLen, key);
        var lanes := LaneValues(row);
        for j := 0 to |lanes|
          invariant |rows[s]| == RowWidth(maxKeyLen) && lens[..] == old(lens[..])
          invariant forall b: nat | b < 8 * j :: rows[s][b] == row[b]
          invariant forall t: nat | t < g.m && t != s :: rows[t] == old(rows[t])
        {
          for b := 0 to 8
            invariant |rows[s]| == RowWidth(maxKeyLen) && lens[..] == old(lens[..])
            invariant forall c: nat | c < 8 * j + b :: rows[s][c] == row[c]
            invariant forall t: nat | t < g.m && t != s :: rows[t] == old(rows[t])
          {
            ByteOfLittleEndian(Octet(row, j), b);
            rows[s] := rows[s][8 * j + b := ByteOf(lanes[j], b)];
          }
        }
        assert rows[s] == row;
      } else {
        for c := 0 to |key|
          invariant c <= |rows[s]| == RowWidth(maxKeyLen) && lens[..] == old(lens[..])
          invariant forall b: nat | b < RowWidth(maxKeyLen) :: rows[s][b] == if b < c then key[b] else 0
          invariant forall t: nat | t < g.m && t != s :: rows[t] == old(rows[t])
        {
          if c == RowWidth(maxKeyLen) {
            return false;
          }
          rows[s] := rows[s][c := key[c]];
        }
        assert rows[s] == Padded(key, RowWidth(maxKeyLen));
        lens[s] := Narrow(|key|, true);
      }
      ok := true;
    }

    /** Fill every used slot, and remember for each key the last slot that names it. */
    method FillSlots(keys: seq<Bytes>) returns (ok: bool)
      requires Shaped(|keys|) && 1 <= maxKeyLen <= 4080 && g.m <= TWO_TO_THE_32
      requires forall s: nat | s < g.m :: lens[s] == 0 && rows[s] == seq<Byte>(RowWidth(maxKeyLen), _ => 0)
      requires forall i: nat | i < |keys| :: keyToSlot[i] == 0
      modifies rows, lens, keyToSlot
      ensures ok <==> RowsSuffice(maxKeyLen, keys, slotToKey[..])
      ensures ok ==> forall i: nat | i < |keys| :: keyToSlot[i] == LastNamed(slotToKey[..], i, g.m)
      ensures ok ==> forall s: nat | s < g.m :: Filled(s, keys)
    {
      hide HasRoom;
      for s := 0 to g.m
        invariant forall i: nat | i < |keys| :: keyToSlot[i] == LastNamed(slotToKey[..], i, s)
        invariant forall t: nat | t < s && slotToKey[t] < |keys| :: HasRoom(maxKeyLen, keys[slotToKey[t]])
        invariant forall t: nat | t < s :: Filled(t, keys)
        invariant forall t: nat | s <= t < g.m :: lens[t] == 0 && rows[t] == seq<Byte>(RowWidth(maxKeyLen), _ => 0)
      {
        label before:
        var ki := slotToKey[s];
        if ki < |keys| {
          keyToSlot[ki] := Narrow(s, g.m <= 0x1_0000);
          ok := StoreKey(s, keys[ki], |keys|);
          if !ok {
            assert slotToKey[..][s] == ki;
            return;
          }
        }
        forall t: nat | t < s ensures Filled(t, keys) {
          assert old@before(Filled(t, keys));
        }
      }
      ok := true;
    }

      /** Slot s holds the row of the key the table names, or zeros. */
    ghost predicate Filled(s: nat, keys: seq<Bytes>)
      requires Shaped(|keys|) && s < g.m
      reads this, rows, lens, slotToKey
    {
      if slotToKey[s] < |keys| then
        if HasLengthLane(maxKeyLen) then rows[s] == KeyRow(maxKeyLen, keys[slotToKey[s]])
        else rows[s] == Padded(keys[slotToKey[s]], RowWidth(maxKeyLen)) && lens[s] == |keys[slotToKey[s]]|
      else rows[s] == seq<Byte>(RowWidth(maxKeyLen), _ => 0) && lens[s] == 0
    }

    /** Writes a value into the spare bytes of one slot; false where the program throws. */
    method FuseValue(slot: nat, v: nat) returns (ok: bool)
      requires slot < rows.Length && 1 <= maxKeyLen && HasLengthLane(maxKeyLen) && fusedBits <= SpareBits(maxKeyLen)
      requires |rows[slot]| == RowWidth(maxKeyLen)
      modifies rows
      ensures ok <==> v < Pow2(fusedBits)
      ensures rows[..] ==
        old(rows[..])[slot := if ok then Fuse(fusedBits, maxKeyLen, old(rows[slot]), v) else old(rows[slot])]
    {
      if v >= Pow2(fusedBits) {
        assert rows[..][slot := rows[slot]] == rows[..];
        return false;
      }
      ghost var before := rows[slot];
      for b := 0 to FusedBytes(fusedBits)
        invariant rows[..] == old(rows[..])[slot := rows[slot]] && |rows[slot]| == RowWidth(maxKeyLen)
        invariant forall c: nat | c < RowWidth(maxKeyLen) ::
          rows[slot][c] == if maxKeyLen <= c < maxKeyLen + b then ByteOf(v, c - maxKeyLen) else before[c]
      {
        rows[slot] := rows[slot][maxKeyLen + b := ByteOf(v, b)];
      }
      assert rows[slot] == Fuse(fusedBits, maxKeyLen, before, v);
      ok := true;
    }
  }

  datatype SetError = PlanMismatch | VariantMismatch | KeyOverrunsRow | VerificationFailed

  /** What the types provide for: a power of two of slots for all keys, and a plan with a pilot per bucket and an entry
      per slot. Nothing is asked of its pilots and slots, nor of the keys. */
  ghost predicate PlanData(plan: Plan, keys: seq<Bytes>, maxKeyLen: nat, tableSize: nat) {
    && 1 <= |keys| <= TWO_TO_THE_31 && 1 <= maxKeyLen <= 4080
    && |keys| <= tableSize && GeometryOf(|keys|, tableSize).Valid()
    && |plan.pilots| == GeometryOf(|keys|, tableSize).buckets && tableSize <= |plan.slotToKey|
  }

  /** The lanes a query for the key is hashed under. */
  function QueryLanes(maxKeyLen: nat, key: Bytes): (lanes: seq<nat>)
    ensures |lanes| == LaneCount(maxKeyLen)
  {
    RowOfLanes(LaneCount(maxKeyLen));
    LaneValues(QueryRow(maxKeyLen, key[..Clamped(maxKeyLen, |key|)]))
  }

  /** Where the plan's hash sends a key. */
  function PlanSlot(plan: Plan, g: Geometry, maxKeyLen: nat, key: Bytes): (s: nat)
    requires 1 <= maxKeyLen && g.Valid() && |plan.pilots| == g.buckets
    ensures s < g.m
  {
    SlotOfHash(LaneHash(QueryLanes(maxKeyLen, key), plan.seed, plan.strong), g, plan.pilots)
  }

  /** Where it sends the keys. */
  function PlanSlots(plan: Plan, keys: seq<Bytes>, maxKeyLen: nat, tableSize: nat): (slots: seq<nat>)
    requires PlanData(plan, keys, maxKeyLen, tableSize)
    ensures |slots| == |keys| && forall i: nat | i < |keys| ::
      slots[i] == PlanSlot(plan, GeometryOf(|keys|, tableSize), maxKeyLen, keys[i]) < tableSize
  {
    seq(|keys|, i requires 0 <= i < |keys| => PlanSlot(plan, GeometryOf(|keys|, tableSize), maxKeyLen, keys[i]))
  }

  /** For keys that fit these are the slots the search has in mind. */
  lemma PlanSlotsOfFitting(plan: Plan, keys: seq<Bytes>, maxKeyLen: nat, tableSize: nat)
    requires PlanData(plan, keys, maxKeyLen, tableSize) && KeysFit(maxKeyLen, keys)
    requires forall i: nat | i < |keys| :: KeyLanes(maxKeyLen, keys)[i] != []
    ensures PlanSlots(plan, keys, maxKeyLen, tableSize) ==
      HashSlots(Hashes(KeyLanes(maxKeyLen, keys), plan.seed, plan.strong), GeometryOf(|keys|, tableSize), plan.pilots)
  {
    var g, lanes := GeometryOf(|keys|, tableSize), KeyLanes(maxKeyLen, keys);
    forall i: nat | i < |keys| ensures PlanSlot(plan, g, maxKeyLen, keys[i]) ==
      SlotOfHash(Hashes(lanes, plan.seed, plan.strong)[i], g, plan.pilots)
    {
      FittingRow(maxKeyLen, keys[i]);
      hide LaneHash, KeyRow, QueryRow, LaneValues, SlotOfHash;
    }
  }

  /** Key i passes the constructor's check: its slot is the last one that names it, or slot 0 where none does; and,
      unless the key is empty, its slot names a key that it looks like. */
  ghost predicate Passes(fusedBits: nat, maxKeyLen: nat, keys: seq<Bytes>, slots: seq<nat>, table: seq<nat>, i: nat)
    requires i < |keys| == |slots| && slots[i] < |table|
  {
    && LastNamed(table, i, |table|) == slots[i]
    && (keys[i] == [] ||
        (table[slots[i]] < |keys| && LooksLike(fusedBits, maxKeyLen, keys[table[slots[i]]], keys[i])))
  }

  ghost predicate Verifies(fusedBits: nat, plan: Plan, keys: seq<Bytes>, maxKeyLen: nat, tableSize: nat)
    requires PlanData(plan, keys, maxKeyLen, tableSize)
  {
    var slots, table := PlanSlots(plan, keys, maxKeyLen, tableSize), Cleaned(plan.slotToKey, tableSize, |keys|);
    forall i: nat | i < |keys| :: Passes(fusedBits, maxKeyLen, keys, slots, table, i)
  }

  /** No key that a slot names overruns its row. */
  ghost predicate PlanHasRoom(plan: Plan, keys: seq<Bytes>, maxKeyLen: nat, tableSize: nat)
    requires tableSize <= |plan.slotToKey|
  {
    RowsSuffice(maxKeyLen, keys, Cleaned(plan.slotToKey, tableSize, |keys|))
  }

  /** What the constructor throws, if anything. */
  ghost function Rejection(fusedBits: nat, plan: Plan, keys: seq<Bytes>, maxKeyLen: nat, tableSize: nat, strong: bool)
    : Option<SetError>
    requires PlanData(plan, keys, maxKeyLen, tableSize)
  {
    if plan.tableSize != tableSize then Some(PlanMismatch)
    else if plan.strong != strong then Some(VariantMismatch)
    else if !PlanHasRoom(plan, keys, maxKeyLen, tableSize) then Some(KeyOverrunsRow)
    else if !Verifies(fusedBits, plan, keys, maxKeyLen, tableSize) then Some(VerificationFailed)
    else None
  }

  /** Every key is named by some slot. */
  ghost predicate AllNamed(plan: Plan, keys: seq<Bytes>, tableSize: nat)
    requires tableSize <= |plan.slotToKey|
  {
    forall i: nat | i < |keys| :: i in plan.slotToKey[..tableSize]
  }

  /** Every key is named by some slot, and none is longer than the longest key is said to be. */
  ghost predicate Settled(plan: Plan, keys: seq<Bytes>, maxKeyLen: nat, tableSize: nat)
    requires tableSize <= |plan.slotToKey|
  {
    AllNamed(plan, keys, tableSize) && KeysFit(maxKeyLen, keys)
  }

  /** What the factories pass: a plan that fits the keys, and keys that fit. */
  ghost predicate GoodInput(keys: seq<Bytes>, maxKeyLen: nat, plan: Plan) {
    && 1 <= |keys| <= TWO_TO_THE_31 && 1 <= maxKeyLen <= 4080 && KeysFit(maxKeyLen, keys)
    && TableSizeFor(|keys|, plan.tableSize)
    && PlanFits(plan, GeometryOf(|keys|, plan.tableSize), KeyLanes(maxKeyLen, keys))
  }

  /** The constructor throws nothing for such a plan, which leaves no key without a slot. */
  lemma FittingPlanVerifies(plan: Plan, keys: seq<Bytes>, maxKeyLen: nat, fusedBits: nat)
    requires GoodInput(keys, maxKeyLen, plan) && fusedBits <= SpareBits(maxKeyLen)
    ensures PlanData(plan, keys, maxKeyLen, plan.tableSize) && Settled(plan, keys, maxKeyLen, plan.tableSize)
    ensures Rejection(fusedBits, plan, keys, maxKeyLen, plan.tableSize, plan.strong) == None
  {
    hide Hashes, HashSlots, KeyLanes, LooksLike;
    PlanSlotsOfFitting(plan, keys, maxKeyLen, plan.tableSize);
    var slots := PlanSlots(plan, keys, maxKeyLen, plan.tableSize);
    var table := Cleaned(plan.slotToKey, plan.tableSize, |keys|);
    hide PlanSlots;
    forall i: nat | i < |keys|
      ensures Passes(fusedBits, maxKeyLen, keys, slots, table, i) && i in plan.slotToKey[..plan.tableSize]
    {
      assert plan.slotToKey[slots[i]] == i && plan.slotToKey[..plan.tableSize][slots[i]] == i;
      OnlyNamedOnce(table, i, |table|, slots[i]);
      if keys[i] != [] { LooksLikeItself(fusedBits, maxKeyLen, keys[i], keys[i]); }
    }
  }

  lemma {:induction false} OnlyNamedOnce(table: seq<nat>, i: nat, upTo: nat, s: nat)
    requires s < upTo <= |table| && forall t: nat | t < |table| :: table[t] == i <==> t == s
    ensures LastNamed(table, i, upTo) == s
  {
    if s + 1 < upTo { OnlyNamedOnce(table, i, upTo - 1, s); }
  }

  /** A key that some slot names is named by the last slot that does. */
  lemma {:induction false} LastNamesIt(table: seq<nat>, i: nat, upTo: nat)
    requires upTo <= |table| && exists s: nat :: s < upTo && table[s] == i
    ensures LastNamed(table, i, upTo) < upTo && table[LastNamed(table, i, upTo)] == i
  {
    if table[upTo - 1] != i { LastNamesIt(table, i, upTo - 1); }
  }

  /** The constructor, for any plan and any keys. A plan for another table size or hash is rejected; where a byte does
      not hold the length a key may run past its row; and the final verification rejects exactly a plan under which
      some key does not pass. What gets through is right for every query exactly when every key is named by some slot
      and none is too long: the verification alone sees to neither. A plan of wide_build is never rejected. */
  method MakeSet(keys: seq<Bytes>, plan: Plan, maxKeyLen: nat, tableSize: nat, strong: bool, fusedBits: nat)
    returns (r: Result<WideSet, SetError>)
    requires PlanData(plan, keys, maxKeyLen, tableSize) && fusedBits <= SpareBits(maxKeyLen)
    ensures var why := Rejection(fusedBits, plan, keys, maxKeyLen, tableSize, strong);
      if why.Some? then r == Err(why.value) else r.Ok?
    ensures r.Ok? ==> fresh(r.value.rows) && r.value.Shaped(|keys|) && OfPlan(r.value.Tables(), keys, plan)
    ensures r.Ok? ==> Holds(r.value.Tables(), keys)
    ensures r.Ok? ==> (Exact(r.value.Tables(), keys) <==> Settled(plan, keys, maxKeyLen, tableSize))
    ensures r.Ok? ==> (Represents(r.value.Tables(), keys) <==> Settled(plan, keys, maxKeyLen, tableSize))
    ensures r.Ok? ==> r.value.maxKeyLen == maxKeyLen && r.value.fusedBits == fusedBits
  {
    hide Verifies, AllNamed, Holds, Represents, Multipliers, PlanSlots, MatchConstant, Exact, RowsSuffice, KeysFit;
    if plan.tableSize != tableSize {
      return Err(PlanMismatch);
    }
    if plan.strong != strong {
      return Err(VariantMismatch);
    }
    var g := GeometryOf(|keys|, tableSize);
    var set_ := new WideSet(|keys|, maxKeyLen, g, strong, fusedBits);
    set_.muls := Multipliers(LaneCount(maxKeyLen), plan.seed);
    var mn := Positions.MinLength(keys);
    set_.minKeyLen := if mn > 255 then 255 else mn;
    set_.CopyPlan(|keys|, plan);
    var filled := set_.FillSlots(keys);
    if !filled {
      return Err(KeyOverrunsRow);
    }
    FilledHolds(set_, keys, plan);
    HoldsIsWellFormed(set_.Tables(), keys);
    var verified := Verify(set_, keys);
    VerifiedMeans(set_.Tables(), keys, plan);
    if !verified {
      return Err(VerificationFailed);
    }
    ExactMeans(set_.Tables(), keys, plan);
    r := Ok(set_);
  }

  /** The end-to-end check of the constructor: every key is found at the slot noted for it. */
  method Verify(set_: WideSet, keys: seq<Bytes>) returns (verified: bool)
    requires set_.Shaped(|keys|) && WellFormed(set_.Tables())
    ensures verified <==> forall i: nat | i < |keys| :: MatchConstant(set_.Tables(), keys[i]) == Some(set_.keyToSlot[i])
  {
    hide MatchConstant;
    for i := 0 to |keys|
      invariant forall j: nat | j < i :: MatchConstant(set_.Tables(), keys[j]) == Some(set_.keyToSlot[j])
    {
      if MatchConstant(set_.Tables(), keys[i]) != Some(set_.keyToSlot[i]) {
        return false;
      }
    }
    verified := true;
  }

  /** The tables are those of the plan. */
  ghost predicate OfPlan(t: WideTables, keys: seq<Bytes>, plan: Plan) {
    && PlanData(plan, keys, t.maxKeyLen, plan.tableSize) && t.g == GeometryOf(|keys|, plan.tableSize)
    && t.strong == plan.strong && t.muls == Multipliers(LaneCount(t.maxKeyLen), plan.seed)
    && t.pilots == NarrowPilots(plan.pilots, plan.tableSize)
    && t.slotToKey == Cleaned(plan.slotToKey, plan.tableSize, |keys|) && |t.keyToSlot| == |keys|
    && forall i: nat | i < |keys| :: t.keyToSlot[i] == LastNamed(t.slotToKey, i, |t.slotToKey|)
  }

  /** Narrowing a pilot does not move a slot. */
  lemma NarrowedSlot(h: nat, g: Geometry, pilots: seq<nat>)
    requires g.Valid() && h < TWO_TO_THE_64 && |pilots| == g.buckets
    ensures SlotOfHash(h, g, NarrowPilots(pilots, g.m)) == SlotOfHash(h, g, pilots)
  {
    hide BucketOf, BaseOf;
    var base, pilot := BaseOf(h, g), pilots[BucketOf(h, g)];
    var k := WidthIsMultiple(g);
    ModOfMod(pilot, g.m, k);
    ModAbsorb(pilot, base, g.m);
    ModAbsorb(Narrow(pilot, g.m <= 0x1_0000), base, g.m);
  }

  lemma WidthIsMultiple(g: Geometry) returns (k: nat)
    requires g.Valid()
    ensures k > 0 && k * g.m == if g.m <= 0x1_0000 then 0x1_0000 else TWO_TO_THE_32
  {
    Pow2Of31();
    Pow2Of8();
    var e := 8;
    Pow2Add(e, e);
    var width := if g.m <= 0x1_0000 then 2 * e else 32;
    if g.mBits > width { Pow2Increases(width, g.mBits); }
    Pow2Add(width - g.mBits, g.mBits);
    k := Pow2(width - g.mBits);
  }

  /** The container computes the slots the plan means. */
  lemma SlotsOfPlan(t: WideTables, keys: seq<Bytes>, plan: Plan)
    requires WellFormed(t) && OfPlan(t, keys, plan)
    ensures KeySlots(t, keys) == PlanSlots(plan, keys, t.maxKeyLen, plan.tableSize)
  {
    var slots := PlanSlots(plan, keys, t.maxKeyLen, plan.tableSize);
    forall i: nat | i < |keys| ensures KeySlots(t, keys)[i] == slots[i] {
      hide LaneHash, QueryRow, LaneValues, SlotOfHash, NarrowPilots;
      NarrowedSlot(LaneHash(QueryLanes(t.maxKeyLen, keys[i]), plan.seed, plan.strong), t.g, plan.pilots);
    }
  }

  /** What the check sees of one key. */
  lemma OwnSlot(t: WideTables, keys: seq<Bytes>, i: nat)
    requires Holds(t, keys) && i < |keys|
    ensures KeySlots(t, keys)[i] < |t.slotToKey|
    ensures var s := KeySlots(t, keys)[i];
      MatchConstant(t, keys[i]) ==
        if keys[i] == [] || (t.slotToKey[s] < |keys| &&
          LooksLike(t.fusedBits, t.maxKeyLen, keys[t.slotToKey[s]], keys[i])) then Some(s) else None
  {
    hide StoresKey, StoresNothing, SlotOf, RowMatches, LooksLike;
    if keys[i] == [] {
      EmptyRowSlot(t);
    } else {
      MatchIsOwnSlot(t, keys, keys[i]);
    }
  }

  lemma VerifiedMeans(t: WideTables, keys: seq<Bytes>, plan: Plan)
    requires Holds(t, keys) && OfPlan(t, keys, plan)
    ensures (forall i: nat | i < |keys| :: MatchConstant(t, keys[i]) == Some(t.keyToSlot[i])) <==>
      Verifies(t.fusedBits, plan, keys, t.maxKeyLen, plan.tableSize)
  {
    HoldsIsWellFormed(t, keys);
    SlotsOfPlan(t, keys, plan);
    hide MatchConstant, Holds, PlanSlots, KeySlots, LastNamed, LooksLike;
    var slots := PlanSlots(plan, keys, t.maxKeyLen, plan.tableSize);
    forall i: nat | i < |keys|
      ensures MatchConstant(t, keys[i]) == Some(t.keyToSlot[i]) <==>
        Passes(t.fusedBits, t.maxKeyLen, keys, slots, t.slotToKey, i)
    {
      OwnSlot(t, keys, i);
    }
  }

  lemma HoldsIsWellFormed(t: WideTables, keys: seq<Bytes>)
    requires Holds(t, keys)
    ensures WellFormed(t)
  {
  }

  /** Past the check, only naming every key and keys that fit are missing. */
  lemma ExactMeans(t: WideTables, keys: seq<Bytes>, plan: Plan)
    requires Holds(t, keys) && OfPlan(t, keys, plan) && Verifies(t.fusedBits, plan, keys, t.maxKeyLen, plan.tableSize)
    ensures WellFormed(t) && plan.tableSize <= |plan.slotToKey|
    ensures Exact(t, keys) <==> Settled(plan, keys, t.maxKeyLen, plan.tableSize)
    ensures Represents(t, keys) <==> Settled(plan, keys, t.maxKeyLen, plan.tableSize)
  {
    hide Verifies, Holds, Represents, OfPlan, KeySlots, AllNamed;
    HoldsIsWellFormed(t, keys);
    NamedRepresents(t, keys, plan);
    if Represents(t, keys) {
      RepresentsIsExact(t, keys);
    } else if !AllNamed(plan, keys, plan.tableSize) {
      UnnamedIsNotExact(t, keys, plan);
    } else {
      var i: nat :| i < |keys| && |keys[i]| > t.maxKeyLen;
      OverlongKeyIsNotExact(t, keys, i);
    }
  }

  /** A key that passes although no slot names it is found as some other key. */
  lemma UnnamedKeyIsMisread(t: WideTables, keys: seq<Bytes>, plan: Plan, i: nat)
    requires Holds(t, keys) && OfPlan(t, keys, plan) && Verifies(t.fusedBits, plan, keys, t.maxKeyLen, plan.tableSize)
    requires i < |keys| && i !in plan.slotToKey[..plan.tableSize]
    ensures WellFormed(t)
    ensures MatchConstant(t, keys[i]).Some? && t.slotToKey[MatchConstant(t, keys[i]).value] != i
  {
    HoldsIsWellFormed(t, keys);
    VerifiedMeans(t, keys, plan);
    hide Holds, MatchConstant, LastNamed, Verifies;
    var s := MatchConstant(t, keys[i]).value;
    assert plan.slotToKey[..plan.tableSize][s] == plan.slotToKey[s];
  }

  lemma UnnamedIsNotExact(t: WideTables, keys: seq<Bytes>, plan: Plan)
    requires Holds(t, keys) && OfPlan(t, keys, plan) && Verifies(t.fusedBits, plan, keys, t.maxKeyLen, plan.tableSize)
    requires !AllNamed(plan, keys, plan.tableSize)
    ensures WellFormed(t) && !Exact(t, keys)
  {
    hide Holds, Verifies, MatchConstant;
    var i: nat :| i < |keys| && i !in plan.slotToKey[..plan.tableSize];
    UnnamedKeyIsMisread(t, keys, plan, i);
    assert !Found(keys, keys[i], IndexOfConstant(t, keys[i])) by {
      assert IndexOfConstant(t, keys[i]) != Some(i);
    }
  }

  lemma RepresentsIsExact(t: WideTables, keys: seq<Bytes>)
    requires Represents(t, keys)
    ensures WellFormed(t) && Exact(t, keys)
  {
    HoldsIsWellFormed(t, keys);
    forall key: Bytes ensures Found(keys, key, IndexOfConstant(t, key)) {
      MatchConstantExact(t, keys, key);
      SameKeySameIndex(t, keys);
      hide Represents, MatchConstant;
    }
  }

  lemma NamedRepresents(t: WideTables, keys: seq<Bytes>, plan: Plan)
    requires Holds(t, keys) && OfPlan(t, keys, plan) && Verifies(t.fusedBits, plan, keys, t.maxKeyLen, plan.tableSize)
    ensures plan.tableSize <= |plan.slotToKey|
    ensures Represents(t, keys) <==> Settled(plan, keys, t.maxKeyLen, plan.tableSize)
  {
    hide *;
    HoldsIsWellFormed(t, keys);
    SlotsOfPlan(t, keys, plan);
    var slots := NotedSlots(t, keys, plan);
    NamedBySlots(plan, keys, plan.tableSize, slots, t.slotToKey);
    RepresentsMeans(t, keys);
    SettledMeans(plan, keys, t.maxKeyLen, plan.tableSize);
  }

  lemma SettledMeans(plan: Plan, keys: seq<Bytes>, maxKeyLen: nat, tableSize: nat)
    requires tableSize <= |plan.slotToKey|
    ensures Settled(plan, keys, maxKeyLen, tableSize) <==> AllNamed(plan, keys, tableSize) && KeysFit(maxKeyLen, keys)
  {
  }

  lemma RepresentsMeans(t: WideTables, keys: seq<Bytes>)
    requires Holds(t, keys) && t.keyToSlot == KeySlots(t, keys)
    ensures Represents(t, keys) <==>
      KeysFit(t.maxKeyLen, keys) && forall i: nat | i < |keys| :: t.slotToKey[KeySlots(t, keys)[i]] == i
  {
    hide Holds, KeySlots;
  }

  /** Where every key passes, the slots noted are the keys' own. */
  lemma NotedSlots(t: WideTables, keys: seq<Bytes>, plan: Plan) returns (slots: seq<nat>)
    requires OfPlan(t, keys, plan) && Verifies(t.fusedBits, plan, keys, t.maxKeyLen, plan.tableSize)
    ensures slots == PlanSlots(plan, keys, t.maxKeyLen, plan.tableSize) == t.keyToSlot
    ensures plan.tableSize <= |plan.slotToKey| && t.slotToKey == Cleaned(plan.slotToKey, plan.tableSize, |keys|)
    ensures |slots| == |keys| && forall i: nat | i < |keys| ::
      slots[i] < plan.tableSize && LastNamed(t.slotToKey, i, plan.tableSize) == slots[i]
  {
    hide PlanSlots, LastNamed, LooksLike;
    slots := PlanSlots(plan, keys, t.maxKeyLen, plan.tableSize);
    forall i: nat | i < |keys| ensures slots[i] == t.keyToSlot[i] == LastNamed(t.slotToKey, i, plan.tableSize) {
      assert Passes(t.fusedBits, t.maxKeyLen, keys, slots, t.slotToKey, i);
    }
    assert slots == t.keyToSlot;
  }

  /** Where every key passes, all keys are named exactly when each is named by its own slot. */
  lemma NamedBySlots(plan: Plan, keys: seq<Bytes>, m: nat, slots: seq<nat>, table: seq<nat>)
    requires m <= |plan.slotToKey| && table == Cleaned(plan.slotToKey, m, |keys|) && |slots| == |keys|
    requires forall i: nat | i < |keys| :: slots[i] < m && LastNamed(table, i, m) == slots[i]
    ensures AllNamed(plan, keys, m) <==> forall i: nat | i < |keys| :: table[slots[i]] == i
  {
    hide LastNamed;
    forall i: nat | i < |keys| ensures i in plan.slotToKey[..m] <==> table[slots[i]] == i {
      if i in plan.slotToKey[..m] {
        var s: nat :| s < m && plan.slotToKey[..m][s] == i;
        assert table[s] == i;
        LastNamesIt(table, i, m);
      } else {
        assert plan.slotToKey[slots[i]] in plan.slotToKey[..m];
      }
    }
  }

  /** What the verification misses, first: with the empty string as the only key, a plan that names no key at all
      passes. */
  lemma UnnamedEmptyKeyPasses(seed: nat, fusedBits: nat)
    ensures var plan, keys := Plan(1, seed, false, [0], [1]), [[]];
      PlanData(plan, keys, 1, 1) && Rejection(fusedBits, plan, keys, 1, 1, false) == None && !AllNamed(plan, keys, 1)
  {
    hide QueryLanes, LaneHash, SlotOfHash;
    var plan, keys: seq<Bytes> := Plan(1, seed, false, [0], [1]), [[]];
    OneSlotGeometry();
    assert PlanData(plan, keys, 1, 1);
    var slots := PlanSlots(plan, keys, 1, 1);
    hide PlanSlots;
    var table := Cleaned(plan.slotToKey, 1, 1);
    assert table == [1] && LastNamed(table, 0, 0) == 0 && LastNamed(table, 0, 1) == 0;
    assert slots[0] == 0 && keys[0] == [] && Passes(fusedBits, 1, keys, slots, table, 0);
    var zero: nat := 0;
    assert plan.slotToKey[..1] == [1] && zero < |keys| && zero !in plan.slotToKey[..1];
  }

  /** And second: a lone key one byte too long passes where a byte holds the length, and elsewhere one that is too long
      but has room in its row. */
  lemma OverlongKeyPasses(seed: nat, fusedBits: nat, maxKeyLen: nat, key: Bytes)
    requires 1 <= maxKeyLen <= 4080
    requires maxKeyLen < |key| <= if HasLengthLane(maxKeyLen) then maxKeyLen + 1 else RowWidth(maxKeyLen)
    ensures var plan, keys := Plan(1, seed, false, [0], [0]), [key];
      && PlanData(plan, keys, maxKeyLen, 1) && Rejection(fusedBits, plan, keys, maxKeyLen, 1, false) == None
      && AllNamed(plan, keys, 1) && !KeysFit(maxKeyLen, keys)
  {
    hide QueryLanes, LaneHash, SlotOfHash;
    var plan, keys := Plan(1, seed, false, [0], [0]), [key];
    OneSlotGeometry();
    assert PlanData(plan, keys, maxKeyLen, 1);
    var slots := PlanSlots(plan, keys, maxKeyLen, 1);
    hide PlanSlots;
    var table := Cleaned(plan.slotToKey, 1, 1);
    assert table == [0] && LastNamed(table, 0, 0) == 0 && LastNamed(table, 0, 1) == 0;
    OneByteTooLong(fusedBits, maxKeyLen, key);
    hide LooksLike;
    assert slots[0] == 0 && Passes(fusedBits, maxKeyLen, keys, slots, table, 0);
    var zero: nat := 0;
    assert plan.slotToKey[..1] == [0] && zero < |keys| && |keys[zero]| > maxKeyLen;
  }

  /** Such a key is stored and looked for under one row. */
  lemma OneByteTooLong(fusedBits: nat, maxKeyLen: nat, key: Bytes)
    requires 1 <= maxKeyLen
    requires |key| <= if HasLengthLane(maxKeyLen) then maxKeyLen + 1 else RowWidth(maxKeyLen)
    ensures LooksLike(fusedBits, maxKeyLen, key, key)
  {
    hide KeyRow, QueryRow, Agree;
    if HasLengthLane(maxKeyLen) {
      FittingRow(maxKeyLen, key);
      AgreesWithItself(fusedBits, maxKeyLen, KeyRow(maxKeyLen, key));
    }
  }

  lemma AgreesWithItself(fusedBits: nat, maxKeyLen: nat, row: Bytes)
    ensures Agree(fusedBits, maxKeyLen, row, row)
  {
  }

  lemma OneSlotGeometry()
    ensures GeometryOf(1, 1).Valid() && GeometryOf(1, 1).buckets == 1 && NextPowerOf2(1) == 1
  {
    Log2Unique(1, 0);
    GeometryFits(1, 1);
  }

  /** The tables tell keys apart, so no key is declared twice. */
  lemma SameKeySameIndex(t: WideTables, keys: seq<Bytes>)
    requires Represents(t, keys)
    ensures forall i: nat, j: nat | i < |keys| && j < |keys| && keys[i] == keys[j] :: i == j
  {
    HoldsIsWellFormed(t, keys);
    hide Stores, SlotOf;
    forall i: nat, j: nat | i < |keys| && j < |keys| && keys[i] == keys[j] ensures i == j {
      assert t.slotToKey[KeySlots(t, keys)[i]] == i && t.slotToKey[KeySlots(t, keys)[j]] == j;
    }
  }

  /** The filled tables hold the keys, and are those of the plan. */
  lemma FilledHolds(set_: WideSet, keys: seq<Bytes>, plan: Plan)
    requires PlanData(plan, keys, set_.maxKeyLen, plan.tableSize) && set_.fusedBits <= SpareBits(set_.maxKeyLen)
    requires set_.g == GeometryOf(|keys|, plan.tableSize) && set_.strong == plan.strong && set_.Shaped(|keys|)
    requires set_.pilots[..] == NarrowPilots(plan.pilots, set_.g.m)
    requires set_.slotToKey[..] == Cleaned(plan.slotToKey, set_.g.m, |keys|)
    requires set_.muls == Multipliers(LaneCount(set_.maxKeyLen), plan.seed)
    requires set_.minKeyLen == 0 <==> [] in keys
    requires forall i: nat | i < |keys| :: set_.keyToSlot[i] == LastNamed(set_.slotToKey[..], i, set_.g.m)
    requires forall s: nat | s < set_.g.m :: set_.Filled(s, keys)
    ensures Holds(set_.Tables(), keys) && OfPlan(set_.Tables(), keys, plan)
  {
    hide KeyRow, Multipliers, LastNamed, Agree;
    var t := set_.Tables();
    KeyLanesUniform(set_.maxKeyLen, keys);
    forall s: nat | s < set_.g.m
      ensures |t.rows[s]| == RowWidth(t.maxKeyLen) && t.slotToKey[s] <= |keys|
    {
      assert set_.Filled(s, keys) && t.rows[s] == set_.rows[s];
    }
    assert WellFormed(t);
    forall s: nat | s < set_.g.m
      ensures t.slotToKey[s] < |keys| ==> StoresKey(t, s, keys[t.slotToKey[s]])
      ensures t.slotToKey[s] == |keys| ==> StoresNothing(t, s)
    {
      FilledSlotStores(set_, t, keys, s);
    }
  }

  lemma FilledSlotStores(set_: WideSet, t: WideTables, keys: seq<Bytes>, s: nat)
    requires set_.Shaped(|keys|) && t == set_.Tables() && WellFormed(t) && s < set_.g.m && set_.Filled(s, keys)
    ensures t.slotToKey[s] < |keys| ==> StoresKey(t, s, keys[t.slotToKey[s]])
    ensures t.slotToKey[s] == |keys| ==> StoresNothing(t, s)
  {
    assert t.rows[s] == set_.rows[s] && t.lens[s] == set_.lens[s] && t.slotToKey[s] == set_.slotToKey[s];
  }
}
