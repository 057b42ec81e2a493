/** What the classic set and map answer, and that it is right for every string. */
module ClassicQueries {
  import opened Wrappers
  import opened Words
  import opened Memory
  import opened ClassicGenerator
  import opened ClassicTables

  // ---------------------------------------------------------------- what the tables represent

  /** The key a slot belongs to; the empty string for an empty slot. */
  function KeyIn(t: ClassicTables, keys: seq<Bytes>, s: nat): Bytes
    requires s < |t.slotToKey|
  {
    if t.slotToKey[s] < |keys| then keys[t.slotToKey[s]] else []
  }

  /** The slot of each key. */
  function HashSlots(h: HashTables, keys: seq<Bytes>): (slots: seq<nat>)
    requires HashReady(h) && (h.numPositions == HD_MODE ==> [] !in keys)
    ensures |slots| == |keys| && forall i: nat | i < |keys| :: slots[i] == HashOf(h, keys[i]) < h.m
  {
    seq(|keys|, i requires 0 <= i < |keys| => HashOf(h, keys[i]))
  }

  /** The value in the direct table that says "not a key". */
  const NO_KEY: Byte := 0xFF

  /** The direct table names, for every byte, the key that is just that byte. */
  ghost predicate DirectTable(direct: Bytes, keys: seq<Bytes>) {
    && |direct| == 256
    && (forall c: nat | c < 256 && direct[c] != NO_KEY :: direct[c] < |keys| && keys[direct[c]] == [c as Byte])
    && (forall i: nat | i < |keys| && |keys[i]| == 1 :: direct[keys[i][0]] == i)
  }

  /** Every key's slot names the key, and so does the slot the key remembers. */
  ghost predicate Names(slots: seq<nat>, slotToKey: seq<nat>, keyToSlot: seq<nat>) {
    && |keyToSlot| == |slots|
    && (forall i: nat | i < |slots| :: slots[i] < |slotToKey| && slotToKey[slots[i]] == i)
    && (forall i: nat | i < |slots| :: keyToSlot[i] < |slotToKey| && slotToKey[keyToSlot[i]] == i)
  }

  /** The tables represent these keys. Nothing is said of slots that name no key, or a key that is elsewhere too. */
  ghost predicate Represents(t: ClassicTables, keys: seq<Bytes>) {
    && WellFormed(t) && 1 <= |keys| == |t.keyToSlot|
    && (t.hash.numPositions == HD_MODE ==> [] !in keys)
    && Names(HashSlots(t.hash, keys), t.slotToKey, t.keyToSlot)
    && (forall i: nat | i < |keys| :: |keys[i]| <= t.maxKeyLen)
    && (forall s: nat | s < t.hash.m :: Stored(t, s, KeyIn(t, keys, s)))
    && (t.minKeyLen == 0 <==> [] in keys)
    && (t.maxKeyLen == 1 ==> DirectTable(t.direct, keys))
  }

  // ---------------------------------------------------------------- set queries

  /** The slot of a string that is a key. `constant` tells constant evaluation from run time; `known` is
      whatever the compiler knows of the string's object. */
  function SlotMatch(t: ClassicTables, mem: Memory, p: nat, len: nat, constant: bool,
      known: Known): (r: Option<nat>)
    requires WellFormed(t) && ValidView(mem, p, len)
    ensures r.Some? ==> r.value < t.hash.m
  {
    if t.minKeyLen > 0 && len == 0 then None
    else
      var s := HashOf(t.hash, Load(mem, p, len));
      if KeyMatches(t, mem, p, len, s, constant, known) then Some(s) else None
  }

  /** Sets of one-byte keys look the byte up directly. */
  predicate Contains(t: ClassicTables, mem: Memory, p: nat, len: nat, constant: bool, known: Known)
    requires WellFormed(t) && ValidView(mem, p, len)
  {
    if t.maxKeyLen == 1 && len == 1 then t.direct[mem.bytes(p)] != NO_KEY
    else if t.maxKeyLen == 1 && len > 1 then false
    else SlotMatch(t, mem, p, len, constant, known).Some?
  }

  /** The declaration index. Without an empty key, one-byte sets load the direct table unconditionally and force
      the marker when the length is not one. */
  function IndexOf(t: ClassicTables, mem: Memory, p: nat, len: nat, constant: bool, known: Known): (r: Option<nat>)
    requires WellFormed(t) && ValidView(mem, p, len)
  {
    if t.maxKeyLen == 1 && t.minKeyLen > 0 then
      var byte := if len > 0 then mem.bytes(p) else 0;
      var idx := Or(t.direct[byte], if len != 1 then 0xFF else 0);
      if idx == NO_KEY then None else Some(idx)
    else if t.maxKeyLen == 1 && len == 1 then
      if t.direct[mem.bytes(p)] != NO_KEY then Some(t.direct[mem.bytes(p)]) else None
    else if t.maxKeyLen == 1 && len > 1 then None
    else
      match SlotMatch(t, mem, p, len, constant, known)
      case None => None
      case Some(s) => Some(t.slotToKey[s])
  }

  /** The stored bytes of key i, cut at the stored length. */
  function KeyAt(t: ClassicTables, i: nat): Bytes
    requires WellFormed(t) && i < |t.keyToSlot| && t.keyToSlot[i] < t.hash.m
    requires t.lens[t.keyToSlot[i]] <= |t.data[t.keyToSlot[i]]|
  {
    t.data[t.keyToSlot[i]][..t.lens[t.keyToSlot[i]]]
  }

  // ---------------------------------------------------------------- exactness

  /** No key is declared twice. */
  lemma SameKeySameIndex(t: ClassicTables, keys: seq<Bytes>, i: nat, j: nat)
    requires Represents(t, keys) && i < |keys| && j < |keys| && keys[i] == keys[j]
    ensures i == j
  {
    var slots := HashSlots(t.hash, keys);
    assert t.slotToKey[slots[i]] == i && t.slotToKey[slots[j]] == j;
  }

  /** The slot a string hashes to is the slot of the key it equals, if there is one. */
  lemma HashFindsTheKey(t: ClassicTables, keys: seq<Bytes>, key: Bytes)
    requires Represents(t, keys) && (t.hash.numPositions == HD_MODE ==> key != [])
    ensures forall i: nat | i < |keys| && keys[i] == key :: t.slotToKey[HashOf(t.hash, key)] == i
  {
  }

  /** slot_match finds the slot of every key and nothing else, for every string at every address. */
  lemma SlotMatchExact(t: ClassicTables, keys: seq<Bytes>, mem: Memory, p: nat, len: nat, constant: bool,
      known: Known)
    requires Represents(t, keys) && ValidView(mem, p, len)
    ensures match SlotMatch(t, mem, p, len, constant, known)
      case None => Load(mem, p, len) !in keys
      case Some(s) => t.slotToKey[s] < |keys| && keys[t.slotToKey[s]] == Load(mem, p, len)
  {
    var key := Load(mem, p, len);
    assert len == 0 ==> key == [];
    if t.minKeyLen == 0 || len > 0 {
      var s := HashOf(t.hash, key);
      HashFindsTheKey(t, keys, key);
      assert Stored(t, s, KeyIn(t, keys, s));
      if len > 0 {
        KeyMatchesExact(t, mem, p, len, s, constant, known, KeyIn(t, keys, s));
      } else {
        var i: nat :| i < |keys| && keys[i] == [];
        assert t.slotToKey[s] == i && t.lens[s] == 0;
      }
    }
  }

  /** So the slot found leads to the declaration index. */
  lemma SlotMatchIndex(t: ClassicTables, keys: seq<Bytes>, mem: Memory, p: nat, len: nat, constant: bool,
      known: Known)
    requires Represents(t, keys) && ValidView(mem, p, len)
    ensures var r := SlotMatch(t, mem, p, len, constant, known);
      && (r.Some? <==> Load(mem, p, len) in keys)
      && forall i: nat | i < |keys| && keys[i] == Load(mem, p, len) :: r.Some? && t.slotToKey[r.value] == i
  {
    SlotMatchExact(t, keys, mem, p, len, constant, known);
    hide SlotMatch;
    var key, r := Load(mem, p, len), SlotMatch(t, mem, p, len, constant, known);
    forall i: nat | i < |keys| && keys[i] == key ensures r.Some? && t.slotToKey[r.value] == i {
      SameKeySameIndex(t, keys, i, t.slotToKey[r.value]);
    }
  }

  /** The direct table answers every one-byte string. */
  lemma DirectLookup(direct: Bytes, keys: seq<Bytes>, key: Bytes)
    requires DirectTable(direct, keys) && |keys| <= 255 && |key| == 1
    ensures direct[key[0]] != NO_KEY <==> key in keys
    ensures forall i: nat | i < |keys| && keys[i] == key :: direct[key[0]] == i
  {
    assert key == [key[0]];
    if direct[key[0]] != NO_KEY {
      assert keys[direct[key[0]]] == key;
    }
    if i: nat :| i < |keys| && keys[i] == key {
      assert direct[keys[i][0]] == i;
    }
  }

  lemma LongerThanAnyKey(t: ClassicTables, keys: seq<Bytes>, key: Bytes)
    requires Represents(t, keys) && |key| > t.maxKeyLen
    ensures key !in keys
  {
  }

  lemma EmptyIsNoKey(t: ClassicTables, keys: seq<Bytes>)
    requires Represents(t, keys) && t.minKeyLen > 0
    ensures [] !in keys
  {
  }

  /** Contains and index_of are exact: in particular, constant evaluation and run time, vector and plain targets,
      direct table and general path all agree. */
  lemma QueriesAreExact(t: ClassicTables, keys: seq<Bytes>, mem: Memory, p: nat, len: nat, constant: bool,
      known: Known)
    requires Represents(t, keys) && ValidView(mem, p, len)
    ensures Contains(t, mem, p, len, constant, known) <==> Load(mem, p, len) in keys
    ensures Load(mem, p, len) !in keys ==> IndexOf(t, mem, p, len, constant, known) == None
    ensures forall i: nat | i < |keys| && keys[i] == Load(mem, p, len) ::
      IndexOf(t, mem, p, len, constant, known) == Some(i)
  {
    var key := Load(mem, p, len);
    SlotMatchIndex(t, keys, mem, p, len, constant, known);
    hide SlotMatch, HashOf, Stored, DirectTable, HashReady, Names, Or, HashSlots, KeyIn;
    if t.maxKeyLen == 1 {
      OrFull(t.direct[if len > 0 then mem.bytes(p) else 0]);
      if len == 1 {
        DirectLookup(t.direct, keys, key);
      } else if len > 1 {
        LongerThanAnyKey(t, keys, key);
      } else if t.minKeyLen > 0 {
        EmptyIsNoKey(t, keys);
      }
    }
  }

  lemma OrFull(x: Byte)
    ensures Or(x, 0xFF) == 0xFF && Or(x, 0) == x
  {
    OrAtLeast(x, 0xFF);
    Pow2Of8();
    OrBound(x, 0xFF, 8);
    OrZeroRight(x);
  }

  lemma {:induction false} OrZeroRight(a: nat)
    ensures Or(a, 0) == a
  {
    if a != 0 { OrZeroRight(a / 2); }
  }

  /** key_at gives back every key. */
  lemma KeyAtIsTheKey(t: ClassicTables, keys: seq<Bytes>, i: nat)
    requires Represents(t, keys) && i < |keys|
    ensures t.keyToSlot[i] < t.hash.m && t.lens[t.keyToSlot[i]] <= |t.data[t.keyToSlot[i]]|
    ensures KeyAt(t, i) == keys[i]
  {
    var s := t.keyToSlot[i];
    assert t.slotToKey[s] == i;
    assert Stored(t, s, KeyIn(t, keys, s));
  }

  // ---------------------------------------------------------------- map queries

  /** The map: values in declaration order and once more in slot order. */
  datatype MapTables<V> = MapTables(set_: ClassicTables, values: seq<V>, slotValues: seq<V>)

  ghost predicate MapRepresents<V>(t: MapTables<V>, keys: seq<Bytes>, values: seq<V>) {
    && Represents(t.set_, keys) && |values| == |keys| && t.values == values && |t.slotValues| == t.set_.hash.m
    && forall s: nat | s < t.set_.hash.m && t.set_.slotToKey[s] < |keys| ::
      t.slotValues[s] == values[t.set_.slotToKey[s]]
  }

  /** One-byte sets go through the index, all others straight to the slot's value. */
  function Lookup<V>(t: MapTables<V>, mem: Memory, p: nat, len: nat, constant: bool, known: Known): (r: Option<V>)
    requires WellFormed(t.set_) && ValidView(mem, p, len) && |t.slotValues| == t.set_.hash.m
    requires forall i: nat :: IndexOf(t.set_, mem, p, len, constant, known) == Some(i) ==> i < |t.values|
  {
    if t.set_.maxKeyLen == 1 then
      match IndexOf(t.set_, mem, p, len, constant, known)
      case None => None
      case Some(i) => Some(t.values[i])
    else
      match SlotMatch(t.set_, mem, p, len, constant, known)
      case None => None
      case Some(s) => Some(t.slotValues[s])
  }

  /** lookup finds the value declared with a key, and nothing for any other string. */
  lemma LookupIsExact<V>(t: MapTables<V>, keys: seq<Bytes>, values: seq<V>, mem: Memory, p: nat, len: nat,
                         constant: bool, known: Known)
    requires MapRepresents(t, keys, values) && ValidView(mem, p, len)
    ensures forall i: nat :: IndexOf(t.set_, mem, p, len, constant, known) == Some(i) ==> i < |t.values|
    ensures Load(mem, p, len) !in keys ==> Lookup(t, mem, p, len, constant, known) == None
    ensures forall i: nat | i < |keys| && keys[i] == Load(mem, p, len) ::
      Lookup(t, mem, p, len, constant, known) == Some(values[i])
  {
    QueriesAreExact(t.set_, keys, mem, p, len, constant, known);
    SlotMatchExact(t.set_, keys, mem, p, len, constant, known);
    forall i: nat, j: nat | i < |keys| && j < |keys| && keys[i] == keys[j] ensures i == j {
      SameKeySameIndex(t.set_, keys, i, j);
    }
  }
}
