/** wide_perfect_hash_map: a value per key, fused into the key's row where it fits. */
module WideMaps {
  import opened Wrappers
  import opened Words
  import opened Memory
  import opened WideHash
  import opened WideGenerator
  import opened WideTables
  import opened FusedValues
  import opened WideContainer
  import Positions

  /** The finished map. Fused: the values are in the rows; otherwise in slot order in `values`. */
  datatype MapTables = MapTables(set_: WideTables, type_: ValueType, values: seq<int>)

  ghost predicate MapWellFormed(t: MapTables) {
    && WellFormed(t.set_) && |t.values| == t.set_.g.m
    && t.set_.fusedBits == FusedBitsFor(t.type_, t.set_.maxKeyLen)
  }

  /** The value at a slot. */
  function ValueAt(t: MapTables, s: nat): int
    requires MapWellFormed(t) && s < t.set_.g.m
  {
    if t.set_.fusedBits > 0 then
      FromUnsigned(FusedValue(t.set_.fusedBits, t.set_.maxKeyLen, t.set_.rows[s]), t.set_.fusedBits, t.type_.signed)
    else t.values[s]
  }

  ghost predicate MapRepresents(t: MapTables, keys: seq<Bytes>, values: seq<int>) {
    && MapWellFormed(t) && |keys| == |values| && Represents(t.set_, keys)
    && forall i: nat | i < |keys| :: t.set_.keyToSlot[i] < t.set_.g.m && ValueAt(t, t.set_.keyToSlot[i]) == values[i]
  }

  // ---------------------------------------------------------------- queries

  function Contains(t: MapTables, mem: Memory, p: nat, len: nat, isa: Isa, known: Known): bool
    requires MapWellFormed(t) && ValidView(mem, p, len)
  {
    MatchRuntime(t.set_, mem, p, len, isa, known).Some?
  }

  function IndexOf(t: MapTables, mem: Memory, p: nat, len: nat, isa: Isa, known: Known): Option<nat>
    requires MapWellFormed(t) && ValidView(mem, p, len)
  {
    match MatchRuntime(t.set_, mem, p, len, isa, known)
    case None => None
    case Some(s) => Some(t.set_.slotToKey[s])
  }

  function Lookup(t: MapTables, mem: Memory, p: nat, len: nat, isa: Isa, known: Known): Option<int>
    requires MapWellFormed(t) && ValidView(mem, p, len)
  {
    match MatchRuntime(t.set_, mem, p, len, isa, known)
    case None => None
    case Some(s) => Some(ValueAt(t, s))
  }

  /** The value is loaded whether the key was found or not; a miss then selects the default. */
  function LookupOr(t: MapTables, mem: Memory, p: nat, len: nat, isa: Isa, known: Known, default: int): int
    requires MapWellFormed(t) && ValidView(mem, p, len) && t.set_.g.m > 0
  {
    var r := MatchRuntime(t.set_, mem, p, len, isa, known);
    var probe := match r case None => 0 case Some(s) => s;
    var v := ValueAt(t, probe);
    if r.Some? then v else default
  }

  /** All four queries are exact: a string is found exactly when it is a declared key, with that key's
      declaration index and value. */
  lemma QueriesAreExact(t: MapTables, keys: seq<Bytes>, values: seq<int>,
                        mem: Memory, p: nat, len: nat, isa: Isa, known: Known, default: int)
    requires MapRepresents(t, keys, values) && ValidView(mem, p, len) && keys != []
    ensures t.set_.g.m > 0
    ensures Contains(t, mem, p, len, isa, known) <==> Load(mem, p, len) in keys
    ensures forall i: nat | i < |keys| && keys[i] == Load(mem, p, len) ::
      && IndexOf(t, mem, p, len, isa, known) == Some(i)
      && Lookup(t, mem, p, len, isa, known) == Some(values[i])
      && LookupOr(t, mem, p, len, isa, known, default) == values[i]
    ensures Load(mem, p, len) !in keys ==>
      && IndexOf(t, mem, p, len, isa, known) == None
      && Lookup(t, mem, p, len, isa, known) == None
      && LookupOr(t, mem, p, len, isa, known, default) == default
  {
    assert KeySlots(t.set_, keys)[0] < t.set_.g.m;
    MatchRuntimeExact(t.set_, keys, mem, p, len, isa, known);
    SameKeySameIndex(t.set_, keys);
  }

  // ---------------------------------------------------------------- construction

  class WideMap {
    const set_: WideSet
    const type_: ValueType
    const values: array<int>

    constructor (set_: WideSet, type_: ValueType)
      ensures this.set_ == set_ && this.type_ == type_
      ensures fresh(values) && values.Length == set_.g.m
    {
      this.set_, this.type_ := set_, type_;
      values := new int[set_.g.m](_ => 0);
    }

    function Tables(): MapTables
      reads this, values, set_, set_.pilots, set_.rows, set_.lens, set_.slotToKey, set_.keyToSlot
    {
      MapTables(set_.Tables(), type_, values[..])
    }
  }

  datatype MapError = BadPlan(error: SetError) | ValueOutOfRange | FusedValuesBrokeKeys

  /** Fusing one value leaves the set as it was, and the value readable. */
  lemma FuseKeepsHolds(t: WideTables, t': WideTables, keys: seq<Bytes>, s: nat, v: nat)
    requires Holds(t, keys) && (KeysFit(t.maxKeyLen, keys) || t.fusedBits % 8 == 0)
    requires HasLengthLane(t.maxKeyLen) && 0 < t.fusedBits && v < Pow2(t.fusedBits)
    requires s < t.g.m && t.slotToKey[s] < |keys|
    requires t' == t.(rows := t.rows[s := Fuse(t.fusedBits, t.maxKeyLen, t.rows[s], v)])
    ensures Holds(t', keys)
    ensures FusedValue(t'.fusedBits, t'.maxKeyLen, t'.rows[s]) == v
    ensures forall u: nat | u < t.g.m && u != s :: t'.rows[u] == t.rows[u]
  {
    assert StoresKey(t, s, keys[t.slotToKey[s]]);
    FuseIsInvisible(t.fusedBits, t.maxKeyLen, t.rows[s], keys[t.slotToKey[s]], v);
    FuseThenRead(t.fusedBits, t.maxKeyLen, t.rows[s], v);
    hide Fuse, FusedValue, Agree, KeyRow;
    forall u: nat | u < t.g.m
      ensures t'.slotToKey[u] < |keys| ==> StoresKey(t', u, keys[t'.slotToKey[u]])
      ensures t'.slotToKey[u] == |keys| ==> StoresNothing(t', u)
    {
      assert t.slotToKey[u] < |keys| ==> StoresKey(t, u, keys[t.slotToKey[u]]);
      assert t.slotToKey[u] == |keys| ==> StoresNothing(t, u);
    }
  }

  /** Tables that differ only in rows, and hold the same keys. */
  ghost predicate SameSet(t: WideTables, t': WideTables, keys: seq<Bytes>) {
    Holds(t, keys) && Holds(t', keys) && t' == t.(rows := t'.rows)
  }

  /** They answer every query alike, and represent the keys alike: fusing breaks no compare, and mends none. */
  lemma SameSetSameAnswers(t: WideTables, t': WideTables, keys: seq<Bytes>)
    requires SameSet(t, t', keys)
    ensures WellFormed(t) && WellFormed(t')
    ensures forall key: Bytes :: MatchConstant(t', key) == MatchConstant(t, key)
    ensures Exact(t', keys) <==> Exact(t, keys)
    ensures Represents(t', keys) <==> Represents(t, keys)
  {
    HoldsIsWellFormed(t, keys);
    HoldsIsWellFormed(t', keys);
    assert KeySlots(t', keys) == KeySlots(t, keys);
    hide Holds, LooksLike;
    forall key: Bytes
      ensures MatchConstant(t', key) == MatchConstant(t, key) && IndexOfConstant(t', key) == IndexOfConstant(t, key)
    {
      if key != [] {
        MatchIsOwnSlot(t, keys, key);
        MatchIsOwnSlot(t', keys, key);
        hide MatchConstant;
      }
    }
    hide MatchConstant, IndexOfConstant;
  }

  /** The constructor, for any plan and any keys. With values of the type it throws exactly what the set's constructor
      throws: fusing neither fails nor breaks a compare. The map represents the keys with their values exactly when
      every key is named and none is too long, as under any plan of wide_build. */
  method MakeMap(keys: seq<Bytes>, values: seq<int>, plan: Plan, maxKeyLen: nat, tableSize: nat, strong: bool,
                 type_: ValueType) returns (r: Result<WideMap, MapError>)
    requires PlanData(plan, keys, maxKeyLen, tableSize) && |values| == |keys|
    requires forall i: nat | i < |values| :: type_.Has(values[i])
    ensures var why := Rejection(FusedBitsFor(type_, maxKeyLen), plan, keys, maxKeyLen, tableSize, strong);
      if why.Some? then r == Err(BadPlan(why.value)) else r.Ok?
    ensures r.Ok? ==> (MapRepresents(r.value.Tables(), keys, values) <==> Settled(plan, keys, maxKeyLen, tableSize))
    ensures r.Ok? ==> WellFormed(r.value.Tables().set_)
    ensures r.Ok? ==> (Exact(r.value.Tables().set_, keys) <==> Settled(plan, keys, maxKeyLen, tableSize))
  {
    var fusedBits := FusedBitsFor(type_, maxKeyLen);
    hide Represents, MapRepresents, PlanData, FusedValue, ToUnsigned, Holds, Settled, Exact, Verifies, OfPlan,
      MatchConstant, SameSet;
    var made := MakeSet(keys, plan, maxKeyLen, tableSize, strong, fusedBits);
    if made.Err? {
      return Err(BadPlan(made.error));
    }
    var set_ := made.value;
    ghost var before := set_.Tables();
    SetIsSame(before, keys);
    var map_ := new WideMap(set_, type_);
    AcceptedAreFound(before, keys, plan);
    var error := StoreValues(keys, values, set_, type_, map_.values);
    match error {
      case Some(e) => return Err(e);
      case None =>
    }
    SameSetSameAnswers(before, set_.Tables(), keys);
    ValuesReadBack(map_.Tables(), keys, values);
    r := Ok(map_);
  }

  /** The values, fused into the rows with a check afterwards, or copied. */
  method StoreValues(keys: seq<Bytes>, values: seq<int>, set_: WideSet, type_: ValueType, out: array<int>)
    returns (error: Option<MapError>)
    requires set_.Shaped(|keys|) && Holds(set_.Tables(), keys) && |values| == |keys|
    requires forall i: nat | i < |keys| :: MatchConstant(set_.Tables(), keys[i]).Some?
    requires set_.fusedBits == FusedBitsFor(type_, set_.maxKeyLen) && out.Length == set_.slotToKey.Length
    requires forall i: nat | i < |values| :: type_.Has(values[i])
    modifies set_.rows, out
    ensures error == None
    ensures SameSet(old(set_.Tables()), set_.Tables(), keys)
    ensures HoldsValues(MapTables(set_.Tables(), type_, out[..]), keys, values)
  {
    hide FusedValue, ToUnsigned, Holds, MatchConstant, SameSet;
    HoldsIsWellFormed(set_.Tables(), keys);
    if set_.fusedBits > 0 {
      ghost var before := set_.Tables();
      var ok := FuseAll(keys, values, set_, type_);
      if !ok {
        return Some(ValueOutOfRange);
      }
      SameSetSameAnswers(before, set_.Tables(), keys);
      ok := AllContained(set_, keys);
      if !ok {
        return Some(FusedValuesBrokeKeys);
      }
    } else {
      SetIsSame(set_.Tables(), keys);
      CopyValues(set_, values, out);
    }
    error := None;
  }

  lemma SetIsSame(t: WideTables, keys: seq<Bytes>)
    requires Holds(t, keys)
    ensures SameSet(t, t, keys)
  {
  }

  /** The keys of an accepted plan are all found. */
  lemma AcceptedAreFound(t: WideTables, keys: seq<Bytes>, plan: Plan)
    requires Holds(t, keys) && OfPlan(t, keys, plan) && Verifies(t.fusedBits, plan, keys, t.maxKeyLen, plan.tableSize)
    ensures WellFormed(t) && forall i: nat | i < |keys| :: MatchConstant(t, keys[i]).Some?
  {
    HoldsIsWellFormed(t, keys);
    VerifiedMeans(t, keys, plan);
    hide Holds, MatchConstant, Verifies;
  }

  /** The re-check after fusing. */
  method AllContained(set_: WideSet, keys: seq<Bytes>) returns (all: bool)
    requires set_.Shaped(|keys|) && WellFormed(set_.Tables())
    ensures all <==> forall i: nat | i < |keys| :: MatchConstant(set_.Tables(), keys[i]).Some?
  {
    hide MatchConstant;
    for i := 0 to |keys|
      invariant forall j: nat | j < i :: MatchConstant(set_.Tables(), keys[j]).Some?
    {
      if MatchConstant(set_.Tables(), keys[i]).None? {
        return false;
      }
    }
    all := true;
  }

  /** Each used slot holds its key's value, fused or in the value table. */
  ghost predicate HoldsValues(t: MapTables, keys: seq<Bytes>, values: seq<int>)
    requires MapWellFormed(t) && |values| == |keys|
  {
    forall s: nat | s < t.set_.g.m && t.set_.slotToKey[s] < |keys| ::
      if t.set_.fusedBits > 0 then
        FusedValue(t.set_.fusedBits, t.set_.maxKeyLen, t.set_.rows[s])
          == ToUnsigned(values[t.set_.slotToKey[s]], t.set_.fusedBits)
      else t.values[s] == values[t.set_.slotToKey[s]]
  }

  /** Then every key's slot gives its value back. */
  lemma ValuesReadBack(t: MapTables, keys: seq<Bytes>, values: seq<int>)
    requires MapWellFormed(t) && |values| == |keys| && HoldsValues(t, keys, values)
    requires forall i: nat | i < |values| :: t.type_.Has(values[i])
    ensures MapRepresents(t, keys, values) <==> Represents(t.set_, keys)
  {
    if Represents(t.set_, keys) {
      forall i: nat | i < |keys|
        ensures t.set_.keyToSlot[i] < t.set_.g.m && ValueAt(t, t.set_.keyToSlot[i]) == values[i]
      {
        SlotHoldsItsKey(t.set_, keys, i);
        hide Represents, FusedValue, ToUnsigned, FromUnsigned;
        if t.set_.fusedBits > 0 {
          CastRoundTrip(values[i], t.set_.fusedBits, t.type_.signed);
        }
      }
    }
  }

  lemma SlotHoldsItsKey(t: WideTables, keys: seq<Bytes>, i: nat)
    requires Represents(t, keys) && i < |keys|
    ensures t.keyToSlot[i] < t.g.m && t.slotToKey[t.keyToSlot[i]] == i
  {
  }

  /** Values in slot order. */
  method CopyValues(set_: WideSet, values: seq<int>, out: array<int>)
    requires out.Length == set_.slotToKey.Length
    modifies out
    ensures forall s: nat | s < out.Length && set_.slotToKey[s] < |values| :: out[s] == values[set_.slotToKey[s]]
  {
    for s := 0 to out.Length
      invariant forall t: nat | t < s && set_.slotToKey[t] < |values| :: out[t] == values[set_.slotToKey[t]]
    {
      var ki := set_.slotToKey[s];
      if ki < |values| {
        out[s] := values[ki];
      }
    }
  }

  /** Values read back at the used slots before s. */
  ghost predicate FusedUpTo(t: WideTables, values: seq<int>, s: nat)
    requires WellFormed(t) && HasLengthLane(t.maxKeyLen)
  {
    forall u: nat | u < s && u < t.g.m && t.slotToKey[u] < |values| ::
      FusedValue(t.fusedBits, t.maxKeyLen, t.rows[u]) == ToUnsigned(values[t.slotToKey[u]], t.fusedBits)
  }

  /** Every used slot gets its key's value, cast to unsigned. */
  method FuseAll(keys: seq<Bytes>, values: seq<int>, set_: WideSet, type_: ValueType) returns (ok: bool)
    requires set_.Shaped(|keys|) && Holds(set_.Tables(), keys) && |values| == |keys|
    requires set_.fusedBits == FusedBitsFor(type_, set_.maxKeyLen) > 0
    requires forall i: nat | i < |values| :: type_.Has(values[i])
    modifies set_.rows
    ensures ok
    ensures SameSet(old(set_.Tables()), set_.Tables(), keys)
    ensures FusedUpTo(set_.Tables(), values, set_.g.m)
  {
    hide FusedValue, ToUnsigned, Fuse, Holds, InRange;
    SetIsSame(set_.Tables(), keys);
    HoldsIsWellFormed(set_.Tables(), keys);
    for s := 0 to set_.g.m
      invariant SameSet(old(set_.Tables()), set_.Tables(), keys)
      invariant WellFormed(set_.Tables()) && FusedUpTo(set_.Tables(), values, s)
    {
      var ki := set_.slotToKey[s];
      if ki < |keys| {
        CastRoundTrip(values[ki], set_.fusedBits, type_.signed);
        ghost var before := set_.Tables();
        var v := ToUnsigned(values[ki], set_.fusedBits);
        HoldsIsWellFormed(before, keys);
        assert before.rows[s] == set_.rows[s];
        ok := set_.FuseValue(s, v);
        assert before.slotToKey[s] == ki;
        FuseKeepsHolds(before, set_.Tables(), keys, s, v);
        HoldsIsWellFormed(set_.Tables(), keys);
        if !ok {
          return;
        }
      }
    }
    ok := true;
  }

  // ---------------------------------------------------------------- end to end

  /** The factory: plan, then container. Whenever wide_build returns a plan, the map is built, and every query
      on it is exact. */
  method MakeWideMap(keys: seq<Bytes>, values: seq<int>, type_: ValueType)
    returns (r: Result<WideMap, BuildError>)
    requires 1 <= |keys| <= TWO_TO_THE_31 && Positions.MaxLength(keys) <= 4080
    requires |values| == |keys| && forall i: nat | i < |values| :: type_.Has(values[i])
    ensures r.Ok? ==> MapRepresents(r.value.Tables(), keys, values)
    ensures r.Err? ==> r.error != KeyTooLong
  {
    hide MapRepresents, PlanFits, FirstThatWorks, NoPlan;
    var maxKeyLen := if Positions.MaxLength(keys) > 0 then Positions.MaxLength(keys) else 1;
    var plan := Build(keys, maxKeyLen);
    if plan.Err? {
      return Err(plan.error);
    }
    FittingPlanVerifies(plan.value, keys, maxKeyLen, FusedBitsFor(type_, maxKeyLen));
    var made := MakeMap(keys, values, plan.value, maxKeyLen, plan.value.tableSize, plan.value.strong, type_);
    assert made.Ok?;
    r := Ok(made.value);
  }
}
