/** make_perfect_set: the classic container where it applies, the wide one elsewhere, and one answer for both. */
module Factory {
  import opened Wrappers
  import opened Words
  import opened Numbers
  import opened Memory
  import Positions
  import ClassicGenerator
  import ClassicTables
  import ClassicQueries
  import ClassicContainer
  import WideGenerator
  import WideTables
  import WideContainer

  datatype PerfectSet = Classic(classic: ClassicTables.ClassicTables) | Wide(wide: WideTables.WideTables)

  /** More keys or longer keys than the byte-indexed container can hold. */
  predicate PreferWide(n: nat, maxLen: nat) {
    n > 255 || maxLen >= 255
  }

  ghost predicate Represents(s: PerfectSet, keys: seq<Bytes>) {
    match s
    case Classic(t) => ClassicQueries.Represents(t, keys)
    case Wide(t) => WideTables.Represents(t, keys)
  }

  ghost predicate Usable(s: PerfectSet) {
    match s
    case Classic(t) => ClassicTables.WellFormed(t)
    case Wide(t) => WideTables.WellFormed(t)
  }

  /** index_of of either container. */
  function IndexOf(s: PerfectSet, mem: Memory, p: nat, len: nat, constant: bool, isa: Isa,
      known: Known): Option<nat>
    requires Usable(s) && ValidView(mem, p, len)
  {
    match s
    case Classic(t) => ClassicQueries.IndexOf(t, mem, p, len, constant, known)
    case Wide(t) =>
      var r := if constant then WideTables.MatchConstant(t, Load(mem, p, len))
               else WideTables.MatchRuntime(t, mem, p, len, isa, known);
      if r.Some? then Some(t.slotToKey[r.value]) else None
  }

  /** A string is found exactly when it is one of the keys, with that key's index: whichever container holds them,
      on every target, at every address, in constant evaluation and at run time. */
  lemma IndexOfIsExact(s: PerfectSet, keys: seq<Bytes>, mem: Memory, p: nat, len: nat, constant: bool, isa: Isa,
      known: Known)
    requires Represents(s, keys) && ValidView(mem, p, len)
    ensures Usable(s)
    ensures Found(keys, Load(mem, p, len), IndexOf(s, mem, p, len, constant, isa, known))
  {
    match s {
      case Classic(t) => ClassicIsExact(t, keys, mem, p, len, constant, isa, known);
      case Wide(t) => WideIsExact(t, keys, mem, p, len, constant, isa, known);
    }
  }

  lemma ClassicIsExact(t: ClassicTables.ClassicTables, keys: seq<Bytes>, mem: Memory, p: nat, len: nat,
                       constant: bool, isa: Isa, known: Known)
    requires ClassicQueries.Represents(t, keys) && ValidView(mem, p, len)
    ensures Found(keys, Load(mem, p, len), IndexOf(Classic(t), mem, p, len, constant, isa, known))
  {
    ClassicQueries.QueriesAreExact(t, keys, mem, p, len, constant, known);
    hide ClassicQueries.IndexOf, ClassicQueries.Represents;
    var key, r := Load(mem, p, len), ClassicQueries.IndexOf(t, mem, p, len, constant, known);
    if key in keys {
      var i: nat :| i < |keys| && keys[i] == key;
      assert r == Some(i);
      forall j: nat | j < |keys| && keys[j] == key ensures j == i {
        assert r == Some(j);
      }
    }
  }

  lemma WideIsExact(t: WideTables.WideTables, keys: seq<Bytes>, mem: Memory, p: nat, len: nat,
                    constant: bool, isa: Isa, known: Known)
    requires WideTables.Represents(t, keys) && ValidView(mem, p, len)
    ensures Found(keys, Load(mem, p, len), IndexOf(Wide(t), mem, p, len, constant, isa, known))
  {
    var key := Load(mem, p, len);
    WideTables.MatchConstantExact(t, keys, key);
    WideTables.FormsAgree(t, keys, mem, p, len, isa, known);
    WideContainer.SameKeySameIndex(t, keys);
    hide WideTables.MatchConstant, WideTables.MatchRuntime;
  }

  /** Why no set comes out. */
  datatype MakeError = DuplicateKey | OnlyTrailingNulsDiffer | EmptyKeyRead | NoPerfectHash

  /** Every search of the container's generator fails. */
  ghost predicate SearchFails(keys: seq<Bytes>, maxPositions: nat) {
    var longest := Positions.MaxLength(keys);
    var maxKeyLen := if longest > 0 then longest else 1;
    if PreferWide(|keys|, longest) then WideGenerator.NoPlan(WideGenerator.KeyLanes(maxKeyLen, keys))
    else ClassicSearchFails(keys, maxPositions)
  }

  ghost predicate ClassicSearchFails(keys: seq<Bytes>, maxPositions: nat) {
    && |keys| <= 255 && ClassicGenerator.TierOneFails(keys, maxPositions) && ClassicGenerator.TierTwoFails(keys)
    && ClassicGenerator.TierThreeFails(keys)
  }

  /** The classic search comes to hash an empty key, whose first byte it reads. */
  ghost predicate ClassicReadsEmpty(keys: seq<Bytes>, maxPositions: nat) {
    |keys| <= 255 && ClassicGenerator.TierOneFails(keys, maxPositions) && ClassicGenerator.TierTwoUndefined(keys)
  }

  /** make_perfect_set. Every set it returns represents the keys; a set of different keys is refused only where every
      search fails, where tier 2 comes to hash an empty key, or, in the wide container, where long keys differ by
      trailing zero bytes alone. And where every search fails no set is returned. */
  method MakePerfectSet(keys: seq<Bytes>, target: ClassicTables.Target, maxPositions: nat)
    returns (r: Result<PerfectSet, MakeError>)
    requires 1 <= |keys| <= TWO_TO_THE_31 && Positions.MaxLength(keys) <= 4080
    requires 1 <= maxPositions < ClassicGenerator.FULLHASH_MODE
    ensures r.Ok? ==> Represents(r.value, keys)
    ensures r.Ok? ==> (r.value.Wide? <==> |keys| > 255 || exists i: nat :: i < |keys| && |keys[i]| >= 255)
    ensures r == Err(DuplicateKey) ==> !Distinct(keys)
    ensures !Distinct(keys) ==> r == Err(DuplicateKey) || r == Err(OnlyTrailingNulsDiffer)
    ensures r == Err(OnlyTrailingNulsDiffer) ==>
      Positions.MaxLength(keys) >= 16 && PreferWide(|keys|, Positions.MaxLength(keys))
    ensures r == Err(EmptyKeyRead) <==>
      !PreferWide(|keys|, Positions.MaxLength(keys)) && Distinct(keys) && ClassicReadsEmpty(keys, maxPositions)
    ensures r == Err(EmptyKeyRead) ==> [] in keys
    ensures r == Err(NoPerfectHash) ==> SearchFails(keys, maxPositions)
    ensures r.Ok? ==> !SearchFails(keys, maxPositions)
  {
    hide Distinct, ClassicSearchFails, ClassicReadsEmpty, WideGenerator.NoPlan, WideGenerator.KeyLanes;
    var longest := Positions.MaxLength(keys);
    var maxKeyLen := if longest > 0 then longest else 1;
    if PreferWide(|keys|, longest) {
      r := MakeWide(keys, maxKeyLen);
    } else {
      r := MakeClassic(keys, target, maxKeyLen, maxPositions);
    }
  }

  method MakeClassic(keys: seq<Bytes>, target: ClassicTables.Target, maxKeyLen: nat, maxPositions: nat)
    returns (r: Result<PerfectSet, MakeError>)
    requires 1 <= |keys| <= 255 && 1 <= maxKeyLen <= 254 && (forall i: nat | i < |keys| :: |keys[i]| <= maxKeyLen)
    requires 1 <= maxPositions < ClassicGenerator.FULLHASH_MODE
    ensures r.Ok? ==> r.value.Classic? && Represents(r.value, keys)
    ensures r == Err(DuplicateKey) <==> !Distinct(keys)
    ensures r == Err(EmptyKeyRead) <==> Distinct(keys) && ClassicReadsEmpty(keys, maxPositions)
    ensures r == Err(EmptyKeyRead) ==> [] in keys
    ensures r != Err(OnlyTrailingNulsDiffer)
    ensures r == Err(NoPerfectHash) <==> Distinct(keys) && ClassicSearchFails(keys, maxPositions)
  {
    hide ClassicGenerator.PhfFits, ClassicGenerator.PhfShaped, ClassicContainer.StillNames, ClassicQueries.Represents,
      Distinct, ClassicGenerator.TierOneFails, ClassicGenerator.TierTwoFails, ClassicGenerator.TierThreeFails,
      ClassicGenerator.TierTwoUndefined,
      ClassicGenerator.FirstThatWorks;
    var phf := ClassicGenerator.ComputePhf(keys, maxPositions);
    match phf {
      case Err(DuplicateKey) => return Err(DuplicateKey);
      case Err(EmptyKeyRead) => return Err(EmptyKeyRead);
      case Err(NoPerfectHash) => return Err(NoPerfectHash);
      case Ok(plan) =>
        ClassicContainer.FittingStillNames(plan, keys, maxPositions);
        var made := ClassicContainer.MakeSet(keys, plan, target, plan.tableSize, maxKeyLen, maxPositions);
        assert made.Ok?;
        r := Ok(Classic(made.value.Tables()));
    }
  }

  method MakeWide(keys: seq<Bytes>, maxKeyLen: nat) returns (r: Result<PerfectSet, MakeError>)
    requires 1 <= |keys| <= TWO_TO_THE_31 && 1 <= maxKeyLen <= 4080
      && (forall i: nat | i < |keys| :: |keys[i]| <= maxKeyLen)
    ensures r.Ok? ==> r.value.Wide? && Represents(r.value, keys)
    ensures r == Err(DuplicateKey) ==> !Distinct(keys)
    ensures !Distinct(keys) ==> r == Err(DuplicateKey) || r == Err(OnlyTrailingNulsDiffer)
    ensures r == Err(OnlyTrailingNulsDiffer) ==> maxKeyLen >= 16
    ensures r != Err(EmptyKeyRead)
    ensures r == Err(NoPerfectHash) ==> WideGenerator.NoPlan(WideGenerator.KeyLanes(maxKeyLen, keys))
    ensures r.Ok? ==> !WideGenerator.NoPlan(WideGenerator.KeyLanes(maxKeyLen, keys))
  {
    hide WideContainer.PlanData, WideContainer.Verifies, WideContainer.AllNamed, WideTables.Stores, WideTables.Holds,
      WideTables.Exact,
      WideGenerator.PlanFits, WideGenerator.NoPlan, WideGenerator.FirstThatWorks, WideTables.Represents;
    var plan := WideGenerator.Build(keys, maxKeyLen);
    WideGenerator.LanesDistinct(maxKeyLen, keys);
    match plan {
      case Err(KeyTooLong) => assert false;
      case Err(DuplicateKey) => return Err(DuplicateKey);
      case Err(OnlyTrailingNulsDiffer) => return Err(OnlyTrailingNulsDiffer);
      case Err(NoAssignment) => return Err(NoPerfectHash);
      case Ok(p) =>
        WideContainer.FittingPlanVerifies(p, keys, maxKeyLen, 0);
        var made := WideContainer.MakeSet(keys, p, maxKeyLen, p.tableSize, p.strong, 0);
        assert made.Ok?;
        r := Ok(Wide(made.value.Tables()));
    }
  }
}
