/** The wide container's queries, over its finished tables. */
module WideTables {
  import opened Wrappers
  import opened Words
  import opened Memory
  import opened Chunks
  import opened WideHash
  import opened WideGenerator

  /** A key row is 8 bytes per lane; long keys use the same width as their 16-byte chunks. */
  function RowWidth(maxKeyLen: nat): nat {
    8 * LaneCount(maxKeyLen)
  }

  /** Bits left free in the length lane between the longest key and the length byte. */
  function SpareBits(maxKeyLen: nat): nat
    requires 1 <= maxKeyLen
  {
    if HasLengthLane(maxKeyLen) then 8 * (LengthByte(maxKeyLen) - maxKeyLen) else 0
  }

  /** What the constructor leaves behind. Rows are packed lanes where a byte holds the length, and
      zero-padded key bytes with a separate length otherwise. */
  datatype WideTables = WideTables(maxKeyLen: nat, strong: bool, fusedBits: nat, g: Geometry, pilots: seq<nat>,
                                   rows: seq<Bytes>, lens: seq<nat>, muls: seq<nat>, minKeyLen: nat,
                                   slotToKey: seq<nat>, keyToSlot: seq<nat>)

  /** Sizes and ranges fixed by the types of the program's tables. */
  ghost predicate WellFormed(t: WideTables) {
    && 1 <= t.maxKeyLen <= 4080 && t.fusedBits <= SpareBits(t.maxKeyLen) && t.g.Valid()
    && |t.pilots| == t.g.buckets
    && |t.rows| == |t.lens| == |t.slotToKey| == t.g.m
    && (forall s: nat | s < t.g.m :: |t.rows[s]| == RowWidth(t.maxKeyLen))
    && |t.muls| == LaneCount(t.maxKeyLen) >= 1
  }

  // ---------------------------------------------------------------- fused bits

  /** A byte with its low bits, those below p, cleared. */
  function ClearLow(x: Byte, p: nat): (y: Byte)
    requires p > 0
  {
    RemainderAtMost(x, p);
    x - x % p
  }

  lemma RemainderAtMost(x: nat, p: nat)
    requires p > 0
    ensures x % p <= x
  {
    if x < p { ModUnique(x, 0, x, p); }
  }

  /** Byte b of a row with the bits that carry a fused value cleared (x & ~FUSED_MASK). */
  function ClearFused(fusedBits: nat, maxKeyLen: nat, row: Bytes, b: nat): Byte
    requires b < |row|
  {
    if b < maxKeyLen || 8 * (b - maxKeyLen) >= fusedBits then row[b]
    else if 8 * (b - maxKeyLen) + 8 <= fusedBits then 0
    else ClearLow(row[b], Pow2(fusedBits - 8 * (b - maxKeyLen)))
  }

  /** Two rows agree outside the fused bits: what the lane compare tests. */
  predicate Agree(fusedBits: nat, maxKeyLen: nat, r: Bytes, s: Bytes) {
    |r| == |s| && forall b: nat | b < |r| ::
      ClearFused(fusedBits, maxKeyLen, r, b) == ClearFused(fusedBits, maxKeyLen, s, b)
  }

  // ---------------------------------------------------------------- queries

  /** With a length lane one clamp serves the load and the length byte. */
  function Clamp(maxKeyLen: nat): nat {
    if HasLengthLane(maxKeyLen) then maxKeyLen + 1 else maxKeyLen
  }

  function Clamped(maxKeyLen: nat, len: nat): nat {
    if len <= Clamp(maxKeyLen) then len else Clamp(maxKeyLen)
  }

  /** The length OR-ed into the row; without a length lane nothing is. */
  function QueryRow(maxKeyLen: nat, bytes: Bytes): (row: Bytes)
    requires |bytes| <= Clamp(maxKeyLen)
    ensures |row| == RowWidth(maxKeyLen)
  {
    if HasLengthLane(maxKeyLen) then LaneRow(maxKeyLen, bytes, |bytes|) else Padded(bytes, RowWidth(maxKeyLen))
  }

  /** The slot a non-empty query row leads to. */
  function SlotOfRow(t: WideTables, row: Bytes): (s: nat)
    requires WellFormed(t) && |row| == RowWidth(t.maxKeyLen)
    ensures s < t.g.m
  {
    RowOfLanes(LaneCount(t.maxKeyLen));
    SlotOfHash(Hash(LaneValues(row), t.muls, t.strong), t.g, t.pilots)
  }

  /** The slot a key leads to. */
  function SlotOf(t: WideTables, key: Bytes): (s: nat)
    requires WellFormed(t)
    ensures s < t.g.m
  {
    SlotOfRow(t, QueryRow(t.maxKeyLen, key[..Clamped(t.maxKeyLen, |key|)]))
  }

  /** The compare of a non-empty key with the row of slot s, in constant evaluation. */
  predicate RowMatches(t: WideTables, s: nat, key: Bytes)
    requires WellFormed(t) && s < t.g.m
  {
    var clamped := Clamped(t.maxKeyLen, |key|);
    if HasLengthLane(t.maxKeyLen) then
      Agree(t.fusedBits, t.maxKeyLen, t.rows[s], QueryRow(t.maxKeyLen, key[..clamped]))
    else t.lens[s] == |key| && t.rows[s][..clamped] == key[..clamped]
  }

  /** The empty key's lanes are all zero, and so is its hash. */
  function MatchEmpty(t: WideTables): (r: Option<nat>)
    requires WellFormed(t)
  {
    if t.minKeyLen == 0 then Some(SlotOfHash(0, t.g, t.pilots)) else None
  }

  /** The constant-evaluated form. */
  function MatchConstant(t: WideTables, key: Bytes): (r: Option<nat>)
    requires WellFormed(t)
    ensures r.Some? ==> r.value < t.g.m
  {
    if key == [] then MatchEmpty(t)
    else if RowMatches(t, SlotOf(t, key), key) then Some(SlotOf(t, key))
    else None
  }

  /** index_of in constant evaluation. */
  function IndexOfConstant(t: WideTables, key: Bytes): Option<nat>
    requires WellFormed(t)
  {
    match MatchConstant(t, key)
    case None => None
    case Some(s) => Some(t.slotToKey[s])
  }

  /** The row the runtime assembles from its chunk loads. */
  function LoadRow(isa: Isa, maxKeyLen: nat, mem: Memory, p: nat, clamped: nat, known: Known): (row: Bytes)
    requires ValidView(mem, p, clamped) && 1 <= clamped <= Clamp(maxKeyLen) && 1 <= maxKeyLen
    ensures row == QueryRow(maxKeyLen, Load(mem, p, clamped))
  {
    var bytes := Load(mem, p, clamped);
    assert mem.mapped(p / BLOCK);
    if HasLengthLane(maxKeyLen) then
      var c := LoadChunk16(isa, mem, p, clamped, known);
      var row := c[..RowWidth(maxKeyLen)];
      OrBound8(row[LengthByte(maxKeyLen)], clamped);
      assert row == Padded(bytes, RowWidth(maxKeyLen));
      row[LengthByte(maxKeyLen) := Or(row[LengthByte(maxKeyLen)], clamped)]
    else
      var row := LoadChunks(isa, mem, p, clamped, ChunkCount(maxKeyLen), known);
      assert row == Padded(bytes, RowWidth(maxKeyLen));
      row
  }

  /** n chunks, one after the other. */
  function LoadChunks(isa: Isa, mem: Memory, p: nat, len: nat, n: nat, known: Known): (row: Bytes)
    requires ValidView(mem, p, len) && len > 0
    ensures row == Padded(Load(mem, p, len), 16 * n)
  {
    if n == 0 then []
    else
      OneMoreChunk(Load(mem, p, len), n - 1);
      LoadChunks(isa, mem, p, len, n - 1, known) + KeyChunk(isa, mem, p, len, n - 1, known)
  }

  lemma OneMoreChunk(key: Bytes, n: nat)
    ensures Padded(key, 16 * n) + Window(key, 16 * n, 16) == Padded(key, 16 * (n + 1))
  {
  }

  /** The runtime form. */
  function MatchRuntime(t: WideTables, mem: Memory, p: nat, len: nat, isa: Isa, known: Known): (r: Option<nat>)
    requires WellFormed(t) && ValidView(mem, p, len)
    ensures r.Some? ==> r.value < t.g.m
  {
    if len == 0 then MatchEmpty(t)
    else
      var clamped := Clamped(t.maxKeyLen, len);
      var row := LoadRow(isa, t.maxKeyLen, mem, p, clamped, known);
      var s := SlotOfRow(t, row);
      var ok :=
        if HasLengthLane(t.maxKeyLen) then Agree(t.fusedBits, t.maxKeyLen, t.rows[s], row)
        else
          t.lens[s] == len && CompareChunks(isa, t.maxKeyLen, mem, p, clamped, t.rows[s], known);
      if ok then Some(s) else None
  }

  // ---------------------------------------------------------------- what the tables represent

  /** A stored row: the key's lane row outside the fused bits, or its padded bytes and its length. */
  ghost predicate StoresKey(t: WideTables, s: nat, key: Bytes)
    requires WellFormed(t) && s < t.g.m
  {
    if HasLengthLane(t.maxKeyLen) then Agree(t.fusedBits, t.maxKeyLen, t.rows[s], KeyRow(t.maxKeyLen, key))
    else t.rows[s] == Padded(key, RowWidth(t.maxKeyLen)) && t.lens[s] == |key|
  }

  /** An empty slot: all zero. */
  ghost predicate StoresNothing(t: WideTables, s: nat)
    requires WellFormed(t) && s < t.g.m
  {
    t.lens[s] == 0 && forall b: nat | b < RowWidth(t.maxKeyLen) :: t.rows[s][b] == 0
  }

  /** The slot of each key. */
  function KeySlots(t: WideTables, keys: seq<Bytes>): (slots: seq<nat>)
    requires WellFormed(t)
    ensures |slots| == |keys|
    ensures forall i: nat | i < |keys| :: slots[i] == SlotOf(t, keys[i]) < t.g.m
  {
    seq(|keys|, i requires 0 <= i < |keys| => SlotOf(t, keys[i]))
  }

  /** No key is longer than the longest key is said to be. */
  ghost predicate KeysFit(maxKeyLen: nat, keys: seq<Bytes>) {
    forall i: nat | i < |keys| :: |keys[i]| <= maxKeyLen
  }

  /** Every slot stores the key it names, or nothing. */
  ghost predicate Holds(t: WideTables, keys: seq<Bytes>) {
    && WellFormed(t)
    && (forall s: nat | s < t.g.m :: t.slotToKey[s] <= |keys|)
    && (forall s: nat | s < t.g.m && t.slotToKey[s] < |keys| :: StoresKey(t, s, keys[t.slotToKey[s]]))
    && (forall s: nat | s < t.g.m && t.slotToKey[s] == |keys| :: StoresNothing(t, s))
    && (t.minKeyLen == 0 <==> [] in keys)
  }

  /** The same for keys that fit. */
  ghost predicate Stores(t: WideTables, keys: seq<Bytes>) {
    Holds(t, keys) && KeysFit(t.maxKeyLen, keys)
  }

  /** The tables represent these keys: besides, the slot of every key names the key, and the key knows its slot.
      Nothing is said of other slots that name it too. */
  ghost predicate Represents(t: WideTables, keys: seq<Bytes>) {
    && Stores(t, keys)
    && (forall i: nat | i < |keys| :: t.slotToKey[KeySlots(t, keys)[i]] == i)
    && t.keyToSlot == KeySlots(t, keys)
  }

  /** index_of finds every key under its own number, and nothing else. */
  ghost predicate Exact(t: WideTables, keys: seq<Bytes>)
    requires WellFormed(t)
  {
    forall key: Bytes :: Found(keys, key, IndexOfConstant(t, key))
  }

  /** What a lookup has to answer. */
  ghost predicate Answers(t: WideTables, keys: seq<Bytes>, key: Bytes, r: Option<nat>)
    requires |t.keyToSlot| == |keys|
  {
    match r
    case None => key !in keys
    case Some(s) =>
      exists i: nat :: i < |keys| && keys[i] == key && t.keyToSlot[i] == s && s < |t.slotToKey| && t.slotToKey[s] == i
  }

  // ---------------------------------------------------------------- exactness

  /** A query that the clamp leaves alone has the row it would be stored under. */
  lemma FittingRow(maxKeyLen: nat, key: Bytes)
    requires 1 <= maxKeyLen && |key| <= Clamp(maxKeyLen)
    ensures Clamped(maxKeyLen, |key|) == |key| && key[..|key|] == key
    ensures QueryRow(maxKeyLen, key) == KeyRow(maxKeyLen, key)
  {
  }

  /** A query row that agrees with a stored key's row comes from that key: the length byte exposes every
      longer query, even where a data byte is OR-ed into it. */
  lemma AgreeingRowIsTheKey(fusedBits: nat, maxKeyLen: nat, k: Bytes, key: Bytes)
    requires 1 <= maxKeyLen && HasLengthLane(maxKeyLen) && fusedBits <= SpareBits(maxKeyLen)
    requires |k| <= maxKeyLen && key != []
    requires Agree(fusedBits, maxKeyLen, KeyRow(maxKeyLen, k), QueryRow(maxKeyLen, key[..Clamped(maxKeyLen, |key|)]))
    ensures k == key
  {
    var clamped, lb := Clamped(maxKeyLen, |key|), LengthByte(maxKeyLen);
    var stored, row := KeyRow(maxKeyLen, k), QueryRow(maxKeyLen, key[..clamped]);
    KeyRowBytes(maxKeyLen, k, lb);
    assert ClearFused(fusedBits, maxKeyLen, stored, lb) == ClearFused(fusedBits, maxKeyLen, row, lb);
    assert stored[lb] == |k| == row[lb];
    OrAtLeast(ByteAt(key[..clamped], lb), clamped);
    assert |key| <= maxKeyLen;
    FittingRow(maxKeyLen, key);
    KeyRowBytes(maxKeyLen, key, lb);
    forall b: nat | b < |k| ensures k[b] == key[b] {
      assert ClearFused(fusedBits, maxKeyLen, stored, b) == ClearFused(fusedBits, maxKeyLen, row, b);
      KeyRowBytes(maxKeyLen, k, b);
      KeyRowBytes(maxKeyLen, key, b);
    }
  }

  /** No non-empty query agrees with an all-zero row. */
  lemma ZeroRowMatchesNothing(fusedBits: nat, maxKeyLen: nat, zero: Bytes, key: Bytes)
    requires 1 <= maxKeyLen && HasLengthLane(maxKeyLen) && fusedBits <= SpareBits(maxKeyLen) && key != []
    requires |zero| == RowWidth(maxKeyLen) && forall b: nat | b < |zero| :: zero[b] == 0
    ensures !Agree(fusedBits, maxKeyLen, zero, QueryRow(maxKeyLen, key[..Clamped(maxKeyLen, |key|)]))
  {
    var clamped, lb := Clamped(maxKeyLen, |key|), LengthByte(maxKeyLen);
    var row := QueryRow(maxKeyLen, key[..clamped]);
    OrAtLeast(ByteAt(key[..clamped], lb), clamped);
    assert ClearFused(fusedBits, maxKeyLen, zero, lb) != ClearFused(fusedBits, maxKeyLen, row, lb);
  }

  /** Without a length lane the chunk compare and the byte compare agree. */
  lemma ChunksAgree(t: WideTables, keys: seq<Bytes>, mem: Memory, p: nat, len: nat, s: nat, isa: Isa, known: Known)
    requires Stores(t, keys) && ValidView(mem, p, len) && len > 0 && s < t.g.m
    requires !HasLengthLane(t.maxKeyLen) && t.lens[s] == len
    ensures len <= t.maxKeyLen
    ensures CompareChunks(isa, t.maxKeyLen, mem, p, len, t.rows[s], known) <==> t.rows[s][..len] == Load(mem, p, len)
  {
    hide CompareChunks, Agree;
    assert t.slotToKey[s] < |keys|;
    var k := keys[t.slotToKey[s]];
    assert StoresKey(t, s, k);
    assert |k| == len && t.rows[s] == Padded(k, |t.rows[s]|);
    assert t.rows[s][..len] == k;
  }

  /** The two forms of the query agree, on every target, for every address. */
  lemma FormsAgree(t: WideTables, keys: seq<Bytes>, mem: Memory, p: nat, len: nat, isa: Isa, known: Known)
    requires Stores(t, keys) && ValidView(mem, p, len)
    ensures MatchRuntime(t, mem, p, len, isa, known) == MatchConstant(t, Load(mem, p, len))
  {
    hide Hash, SlotOfRow, KeyRow, LaneValues, Agree, CompareChunks, StoresKey, StoresNothing, QueryRow;
    if len > 0 {
      var key, clamped := Load(mem, p, len), Clamped(t.maxKeyLen, len);
      assert key[..clamped] == Load(mem, p, clamped);
      var s := SlotOfRow(t, QueryRow(t.maxKeyLen, key[..clamped]));
      if !HasLengthLane(t.maxKeyLen) && t.lens[s] == len {
        ChunksAgree(t, keys, mem, p, len, s, isa, known);
        assert clamped == len;
      }
    }
  }

  /** The compare takes a non-empty query for the stored key. */
  ghost predicate LooksLike(fusedBits: nat, maxKeyLen: nat, stored: Bytes, key: Bytes) {
    var clamped := Clamped(maxKeyLen, |key|);
    if HasLengthLane(maxKeyLen) then
      Agree(fusedBits, maxKeyLen, KeyRow(maxKeyLen, stored), QueryRow(maxKeyLen, key[..clamped]))
    else |stored| == |key| && stored[..clamped] == key[..clamped]
  }

  /** A query looks like a key that fits only if it is that key. */
  lemma LooksLikeItself(fusedBits: nat, maxKeyLen: nat, stored: Bytes, key: Bytes)
    requires 1 <= maxKeyLen && fusedBits <= SpareBits(maxKeyLen) && |stored| <= maxKeyLen && key != []
    ensures LooksLike(fusedBits, maxKeyLen, stored, key) <==> stored == key
  {
    hide KeyRow, QueryRow;
    FittingRow(maxKeyLen, stored);
    if HasLengthLane(maxKeyLen) && LooksLike(fusedBits, maxKeyLen, stored, key) {
      AgreeingRowIsTheKey(fusedBits, maxKeyLen, stored, key);
    }
  }

  /** At any slot, the compare accepts a non-empty query exactly when it looks like the key stored there. */
  lemma RowMatchesLooks(t: WideTables, keys: seq<Bytes>, s: nat, key: Bytes)
    requires Holds(t, keys) && s < t.g.m && key != []
    ensures RowMatches(t, s, key) <==>
      t.slotToKey[s] < |keys| && LooksLike(t.fusedBits, t.maxKeyLen, keys[t.slotToKey[s]], key)
  {
    hide KeyRow, QueryRow;
    if t.slotToKey[s] < |keys| {
      var k, clamped := keys[t.slotToKey[s]], Clamped(t.maxKeyLen, |key|);
      assert StoresKey(t, s, k);
      if !HasLengthLane(t.maxKeyLen) && t.lens[s] == |key| {
        assert t.rows[s][..clamped] == k[..clamped];
      }
    } else {
      assert t.slotToKey[s] == |keys| && StoresNothing(t, s);
      if HasLengthLane(t.maxKeyLen) {
        ZeroRowMatchesNothing(t.fusedBits, t.maxKeyLen, t.rows[s], key);
      }
    }
  }

  /** The constant-evaluated query is exact, for every string. */
  lemma MatchConstantExact(t: WideTables, keys: seq<Bytes>, key: Bytes)
    requires Represents(t, keys)
    ensures Answers(t, keys, key, MatchConstant(t, key))
  {
    var r := MatchConstant(t, key);
    if key == [] {
      EmptyKeySlot(t, keys);
    } else {
      MatchIsOwnSlot(t, keys, key);
      var s := SlotOf(t, key);
      hide RowMatches, SlotOf;
      if t.slotToKey[s] < |keys| {
        LooksLikeItself(t.fusedBits, t.maxKeyLen, keys[t.slotToKey[s]], key);
      }
      hide LooksLike;
      forall i: nat | i < |keys| && keys[i] == key ensures r == Some(s) && t.slotToKey[s] == i {
        assert KeySlots(t, keys)[i] == s;
      }
      if r.Some? {
        var i := t.slotToKey[s];
        assert keys[i] == key && KeySlots(t, keys)[i] == s && t.keyToSlot[i] == s;
      }
    }
  }

  /** What the query answers for a non-empty string is what its own slot stores. */
  lemma MatchIsOwnSlot(t: WideTables, keys: seq<Bytes>, key: Bytes)
    requires Holds(t, keys) && key != []
    ensures var s := SlotOf(t, key);
      MatchConstant(t, key) ==
        if t.slotToKey[s] < |keys| && LooksLike(t.fusedBits, t.maxKeyLen, keys[t.slotToKey[s]], key) then Some(s)
        else None
  {
    hide SlotOf, RowMatches, LooksLike;
    RowMatchesLooks(t, keys, SlotOf(t, key), key);
  }

  /** A string longer than the longest key is said to be, and another that the query does not tell from it: where a
      byte holds the length, any longer one; otherwise one of the same length that starts alike. */
  ghost predicate SameToTheQuery(maxKeyLen: nat, key: Bytes, other: Bytes) {
    && |key| > maxKeyLen
    && if HasLengthLane(maxKeyLen) then |other| > maxKeyLen && other[..maxKeyLen + 1] == key[..maxKeyLen + 1]
       else |other| == |key| && other[..maxKeyLen] == key[..maxKeyLen]
  }

  /** Both get the same answer, whatever the tables hold. */
  lemma SameAnswer(t: WideTables, key: Bytes, other: Bytes)
    requires WellFormed(t) && SameToTheQuery(t.maxKeyLen, key, other)
    ensures MatchConstant(t, other) == MatchConstant(t, key)
  {
    hide QueryRow, SlotOfRow;
  }

  /** So a set with such a key is never exact. */
  lemma OverlongKeyIsNotExact(t: WideTables, keys: seq<Bytes>, i: nat)
    requires WellFormed(t) && i < |keys| && |keys[i]| > t.maxKeyLen
    ensures !Exact(t, keys)
  {
    hide MatchConstant;
    var key, last := keys[i], |keys[i]| - 1;
    var other: Bytes := if HasLengthLane(t.maxKeyLen) then key + [0] else key[last := if key[last] == 0 then 1 else 0];
    assert other != key by { assert HasLengthLane(t.maxKeyLen) || other[last] != key[last]; }
    SameAnswer(t, key, other);
    if Found(keys, key, IndexOfConstant(t, key)) {
      assert IndexOfConstant(t, other) == Some(i) && keys[i] != other;
      assert !Found(keys, other, IndexOfConstant(t, other));
    }
  }

  /** The empty key's lanes are all zero. */
  lemma EmptyKeyLanes(maxKeyLen: nat)
    requires 1 <= maxKeyLen
    ensures forall l: nat | l < |LaneValues(KeyRow(maxKeyLen, []))| :: LaneValues(KeyRow(maxKeyLen, []))[l] == 0
  {
    var row := KeyRow(maxKeyLen, []);
    RowOfLanes(LaneCount(maxKeyLen));
    hide KeyRow, LittleEndian;
    forall b: nat | b < |row| ensures row[b] == 0 {
      KeyRowBytes(maxKeyLen, [], b);
    }
    forall l: nat | l < |LaneValues(row)| ensures LaneValues(row)[l] == 0 {
      ZeroOctet(Octet(row, l));
    }
  }

  /** The empty key leads to the slot of hash zero. */
  lemma EmptyRowSlot(t: WideTables)
    requires WellFormed(t)
    ensures SlotOf(t, []) == SlotOfHash(0, t.g, t.pilots)
  {
    FittingRow(t.maxKeyLen, []);
    hide Hash, QueryRow, KeyRow, LaneValues, SlotOfHash;
    RowOfLanes(LaneCount(t.maxKeyLen));
    EmptyKeyLanes(t.maxKeyLen);
    ZeroHash(LaneValues(KeyRow(t.maxKeyLen, [])), t.muls, t.strong);
  }

  /** The empty key, when it is one of the keys, is found there. */
  lemma EmptyKeySlot(t: WideTables, keys: seq<Bytes>)
    requires Represents(t, keys)
    ensures Answers(t, keys, [], MatchEmpty(t))
  {
    EmptyRowSlot(t);
    hide Hash, KeyRow, LaneValues, SlotOfHash, SlotOfRow, SlotOf;
    var s := SlotOfHash(0, t.g, t.pilots);
    forall i: nat | i < |keys| && keys[i] == [] ensures t.slotToKey[s] == i && t.keyToSlot[i] == s {
      assert KeySlots(t, keys)[i] == s;
    }
  }

  lemma {:induction false} ZeroOctet(w: Bytes)
    requires forall b: nat | b < |w| :: w[b] == 0
    ensures LittleEndian(w) == 0
  {
    if w != [] { ZeroOctet(w[1..]); }
  }

  /** The runtime query is exact: for every string, at every address, on every target, it finds the slot of
      the key it is given, and nothing when it is not a key. */
  lemma MatchRuntimeExact(t: WideTables, keys: seq<Bytes>, mem: Memory, p: nat, len: nat, isa: Isa,
      known: Known)
    requires Represents(t, keys) && ValidView(mem, p, len)
    ensures Answers(t, keys, Load(mem, p, len), MatchRuntime(t, mem, p, len, isa, known))
  {
    FormsAgree(t, keys, mem, p, len, isa, known);
    MatchConstantExact(t, keys, Load(mem, p, len));
  }

  // ---------------------------------------------------------------- reading keys back

  /** The length stored with a slot's key. */
  function StoredLength(t: WideTables, s: nat): nat
    requires WellFormed(t) && s < t.g.m
  {
    if HasLengthLane(t.maxKeyLen) then t.rows[s][LengthByte(t.maxKeyLen)] else t.lens[s]
  }

  /** The view key_at forms: the stored bytes, cut at the stored length. */
  function KeyAt(t: WideTables, i: nat): Bytes
    requires WellFormed(t) && i < |t.keyToSlot| && t.keyToSlot[i] < t.g.m
    requires StoredLength(t, t.keyToSlot[i]) <= RowWidth(t.maxKeyLen)
  {
    t.rows[t.keyToSlot[i]][..StoredLength(t, t.keyToSlot[i])]
  }

  /** key_at gives back every key, fused values or not. */
  lemma KeyAtIsTheKey(t: WideTables, keys: seq<Bytes>, i: nat)
    requires Represents(t, keys) && i < |keys|
    ensures t.keyToSlot[i] < t.g.m && StoredLength(t, t.keyToSlot[i]) == |keys[i]| <= RowWidth(t.maxKeyLen)
    ensures KeyAt(t, i) == keys[i]
  {
    var s, k := t.keyToSlot[i], keys[i];
    assert s == KeySlots(t, keys)[i] && t.slotToKey[s] == i && StoresKey(t, s, k);
    if HasLengthLane(t.maxKeyLen) {
      var row, stored := KeyRow(t.maxKeyLen, k), t.rows[s];
      assert ClearFused(t.fusedBits, t.maxKeyLen, stored, LengthByte(t.maxKeyLen))
          == ClearFused(t.fusedBits, t.maxKeyLen, row, LengthByte(t.maxKeyLen));
      KeyRowBytes(t.maxKeyLen, k, LengthByte(t.maxKeyLen));
      forall b: nat | b < |k| ensures stored[b] == k[b] {
        assert ClearFused(t.fusedBits, t.maxKeyLen, stored, b) == ClearFused(t.fusedBits, t.maxKeyLen, row, b);
        KeyRowBytes(t.maxKeyLen, k, b);
      }
    }
  }
}
