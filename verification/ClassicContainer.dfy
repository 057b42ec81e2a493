/** perfect_hash_set and perfect_hash_map: constructors that narrow a generated hash into byte tables and fill in
    the keys. */
module ClassicContainer {
  import opened Wrappers
  import opened Words
  import opened Numbers
  import opened Positions
  import PartitionSolver
  import opened Displacement
  import opened ClassicGenerator
  import opened ClassicTables
  import opened ClassicQueries

  /** A cast to one byte. */
  function ToByte(x: nat): (b: Byte)
    ensures x < 256 ==> b == x
  {
    x % 256
  }

  // ---------------------------------------------------------------- narrowing any data

  /** How many value tables the mode uses, and how many positions. */
  function RowsUsed(r: PhfResult): nat {
    if r.numPositions == HD_MODE || r.numPositions == FULLHASH_MODE then 1 else r.numPositions
  }

  function PositionsUsed(r: PhfResult): nat {
    if r.numPositions == HD_MODE then 1 else if r.numPositions == FULLHASH_MODE then 0 else r.numPositions
  }

  /** Data as its type has it, of any origin: nothing is asked of positions, values or slots. */
  predicate PhfData(r: PhfResult, tableSize: nat, maxPositions: nat) {
    && 1 <= tableSize <= LARGEST_TABLE && tableSize <= |r.slotToKey| && r.seed < TWO_TO_THE_64
    && 1 <= maxPositions < FULLHASH_MODE && |r.positions| == maxPositions
    && (r.numPositions == HD_MODE || r.numPositions == FULLHASH_MODE || r.numPositions <= maxPositions)
    && RowsUsed(r) <= |r.asso| && forall p: nat | p < RowsUsed(r) :: |r.asso[p]| == 256
  }

  /** One value table in bytes: values of the displacement modes as they are, others modulo the table size first. */
  function NarrowRow(row: seq<nat>, reduce: bool, m: nat): (bytes: Bytes)
    requires |row| == 256 && m > 0
    ensures |bytes| == 256 && forall c: nat | c < 256 :: bytes[c] == ToByte(if reduce then row[c] % m else row[c])
  {
    seq(256, c requires 0 <= c < 256 => ToByte(if reduce then row[c] % m else row[c]))
  }

  /** A position in a byte, where 255 stands for the last one. */
  function NarrowPosition(pos: nat): Byte {
    if pos == LAST_CHAR then POS_LAST_CHAR else ToByte(pos)
  }

  /** Table number p, or zeros where the mode has none. */
  function NarrowRowAt(r: PhfResult, tableSize: nat, maxPositions: nat, p: nat): (row: Bytes)
    requires PhfData(r, tableSize, maxPositions)
    ensures |row| == 256
    ensures p < RowsUsed(r) ==> row == NarrowRow(r.asso[p], r.numPositions < FULLHASH_MODE, tableSize)
    ensures p >= RowsUsed(r) ==> row == Zeros(256)
  {
    if p < RowsUsed(r) then NarrowRow(r.asso[p], r.numPositions < FULLHASH_MODE, tableSize) else Zeros(256)
  }

  function NarrowRows(r: PhfResult, tableSize: nat, maxPositions: nat): (rows: seq<Bytes>)
    requires PhfData(r, tableSize, maxPositions)
    ensures |rows| == maxPositions
    ensures forall p: nat | p < maxPositions :: rows[p] == NarrowRowAt(r, tableSize, maxPositions, p)
  {
    seq(maxPositions, p requires 0 <= p => NarrowRowAt(r, tableSize, maxPositions, p))
  }

  function NarrowPositions(r: PhfResult, tableSize: nat, maxPositions: nat): (positions: Bytes)
    requires PhfData(r, tableSize, maxPositions)
    ensures |positions| == maxPositions
    ensures forall p: nat | p < maxPositions ::
      positions[p] == if p < PositionsUsed(r) then NarrowPosition(r.positions[p]) else 0
  {
    seq(maxPositions, p requires 0 <= p < maxPositions =>
      if p < PositionsUsed(r) then NarrowPosition(r.positions[p]) else 0)
  }

  /** The byte tables of the container. */
  function Narrow(r: PhfResult, tableSize: nat, maxPositions: nat): (h: HashTables)
    requires PhfData(r, tableSize, maxPositions)
    ensures HashReady(h) && h.numPositions == r.numPositions && h.m == tableSize
  {
    HashTables(NarrowRows(r, tableSize, maxPositions), r.numPositions, NarrowPositions(r, tableSize, maxPositions),
               r.seed, tableSize)
  }

  lemma NumberFits(r: PhfResult, tableSize: nat, maxPositions: nat)
    requires PhfData(r, tableSize, maxPositions)
    ensures ToByte(r.numPositions) == r.numPositions
  {
  }

  /** After narrowing, the slot of every key names the key. */
  ghost predicate StillNames(r: PhfResult, keys: seq<Bytes>, tableSize: nat, maxPositions: nat)
    requires PhfData(r, tableSize, maxPositions) && (r.numPositions == HD_MODE ==> [] !in keys)
  {
    var slots := HashSlots(Narrow(r, tableSize, maxPositions), keys);
    forall i: nat | i < |keys| :: ToByte(r.slotToKey[slots[i]]) == i
  }

  // ---------------------------------------------------------------- narrowing keeps every key's slot

  /** What narrowing makes of a generated hash: values keep their residue, positions and displacements are kept. */
  ghost predicate Narrowed(h: HashTables, r: PhfResult, keys: seq<Bytes>, maxPositions: nat)
    requires PhfShaped(r, keys, maxPositions)
  {
    && HashReady(h) && |h.positions| == maxPositions
    && h.m == r.tableSize && h.seed == r.seed && h.numPositions == r.numPositions
    && if r.numPositions == HD_MODE then h.asso[0] == r.asso[0] && h.positions[0] == r.positions[0]
       else if r.numPositions == FULLHASH_MODE then h.asso[0] == r.asso[0]
       else
         && (forall p: nat, c: nat | p < r.numPositions && c < 256 :: h.asso[p][c] == r.asso[p][c] % r.tableSize)
         && (forall p: nat | p < r.numPositions :: PositionOf(h.positions[p]) == r.positions[p])
  }

  lemma NarrowIsNarrowed(r: PhfResult, keys: seq<Bytes>, maxPositions: nat)
    requires PhfShaped(r, keys, maxPositions)
    ensures PhfData(r, r.tableSize, maxPositions)
    ensures Narrowed(Narrow(r, r.tableSize, maxPositions), r, keys, maxPositions)
  {
  }

  /** Reducing every value modulo the table size does not move the sum's residue. */
  lemma {:induction false} ReducedSum(h: HashTables, r: PhfResult, keys: seq<Bytes>, maxPositions: nat, key: Bytes,
      n: nat)
    requires PhfShaped(r, keys, maxPositions) && Narrowed(h, r, keys, maxPositions)
    requires n <= r.numPositions <= maxPositions
    ensures PartitionSolver.Tables(r.asso, n)
    ensures var chars := PartitionSolver.CharsAt(key, r.positions[..r.numPositions]);
      Sum(h, key, n) % h.m == PartitionSolver.Sum(chars, r.asso, n) % h.m
  {
    var chars := PartitionSolver.CharsAt(key, r.positions[..r.numPositions]);
    if n > 0 {
      ReducedSum(h, r, keys, maxPositions, key, n - 1);
      var a, b := Sum(h, key, n - 1), PartitionSolver.Sum(chars, r.asso, n - 1);
      var v, w := Term(h, key, n - 1), PartitionSolver.Term(chars, r.asso, n - 1);
      assert v == (if chars[n - 1] < 256 then r.asso[n - 1][chars[n - 1]] % h.m else 0);
      assert v % h.m == w % h.m by {
        if chars[n - 1] < 256 { ModAbsorb(w, 0, h.m); }
      }
      SumOfResidues(a, b, v, w, h.m);
    }
  }

  lemma SumOfResidues(a: nat, b: nat, v: nat, w: nat, m: nat)
    requires m > 0 && a % m == b % m && v % m == w % m
    ensures (a + v) % m == (b + w) % m
  {
    ModAbsorb(a, v, m);
    ModAbsorb(b, v, m);
    ModAbsorb(v, b, m);
    ModAbsorb(w, b, m);
  }

  /** The container's hash over the narrowed tables gives every key the slot the generator planned. */
  lemma NarrowingKeepsSlots(h: HashTables, r: PhfResult, keys: seq<Bytes>, maxPositions: nat)
    requires PhfShaped(r, keys, maxPositions) && Narrowed(h, r, keys, maxPositions)
    requires forall i: nat | i < |keys| :: |keys[i]| <= 254
    ensures HashSlots(h, keys) == PlannedSlots(r, keys, maxPositions)
  {
    hide HashOf;
    var planned := PlannedSlots(r, keys, maxPositions);
    forall i: nat | i < |keys| ensures HashOf(h, keys[i]) == planned[i] {
      if r.numPositions == HD_MODE {
        HdSlotKept(h, r, keys, maxPositions, i);
      } else if r.numPositions == FULLHASH_MODE {
        SeededSlotKept(h, r, keys, maxPositions, i);
      } else {
        GperfSlotKept(h, r, keys, maxPositions, keys[i]);
      }
    }
  }

  lemma HdSlotKept(h: HashTables, r: PhfResult, keys: seq<Bytes>, maxPositions: nat, i: nat)
    requires PhfShaped(r, keys, maxPositions) && Narrowed(h, r, keys, maxPositions)
    requires r.numPositions == HD_MODE && i < |keys|
    ensures keys[i] != [] && HashOf(h, keys[i]) ==
      DisplacedSlots(BucketHashes(keys), KeyHashes(keys, r.positions[0]), r.asso[0], r.tableSize)[i]
  {
    assert keys[i] in keys;
    hide KeyHash, BucketHash, Reduce, Sum, FullHash;
  }

  lemma SeededSlotKept(h: HashTables, r: PhfResult, keys: seq<Bytes>, maxPositions: nat, i: nat)
    requires PhfShaped(r, keys, maxPositions) && Narrowed(h, r, keys, maxPositions)
    requires r.numPositions == FULLHASH_MODE && i < |keys|
    ensures var hash := SeededHashes(keys, r.seed);
      HashOf(h, keys[i]) == DisplacedSlots(SeededBuckets(hash), hash, r.asso[0], r.tableSize)[i]
  {
    hide FullHash, SeededBucket, Reduce, Sum, KeyHash, BucketHash;
  }

  lemma GperfSlotKept(h: HashTables, r: PhfResult, keys: seq<Bytes>, maxPositions: nat, key: Bytes)
    requires PhfShaped(r, keys, maxPositions) && Narrowed(h, r, keys, maxPositions)
    requires r.numPositions <= maxPositions && |key| <= 254
    ensures HashOf(h, key) == PartitionSolver.GperfHash(key, r.positions[..r.numPositions], r.asso) % r.tableSize
  {
    var n := r.numPositions;
    var chars := PartitionSolver.CharsAt(key, r.positions[..n]);
    ReducedSum(h, r, keys, maxPositions, key, n);
    assert h.m == r.tableSize && h.numPositions == n < FULLHASH_MODE;
    hide *;
    GperfSlot(h, key);
    GperfSum(key, r.positions[..n], r.asso);
    SumOfResidues(|key|, |key|, Sum(h, key, n), PartitionSolver.Sum(chars, r.asso, n), h.m);
  }

  lemma GperfSlot(h: HashTables, key: Bytes)
    requires HashReady(h) && h.numPositions < FULLHASH_MODE && |key| <= 254
    ensures HashOf(h, key) == (|key| + Sum(h, key, h.numPositions)) % h.m
  {
    hide Sum, Reduce, FullHash, KeyHash, BucketHash, SeededBucket;
    ModUnique(|key| + Sum(h, key, h.numPositions), 0, |key| + Sum(h, key, h.numPositions), TWO_TO_THE_64);
  }

  lemma GperfSum(key: Bytes, positions: seq<nat>, asso: seq<PartitionSolver.Row>)
    requires PartitionSolver.Tables(asso, |positions|)
    ensures PartitionSolver.GperfHash(key, positions, asso) ==
      |key| + PartitionSolver.Sum(PartitionSolver.CharsAt(key, positions), asso, |positions|)
  {
  }

  // ---------------------------------------------------------------- the set

  datatype SetError = KeyTooLong | ReductionBroke | NoHash

  class ClassicSet {
    const target: Target
    const maxKeyLen: nat
    const m: nat
    const asso: array<Bytes>
    const positions: array<Byte>
    const lens: array<Byte>
    const data: array<Bytes>
    const packed: array<nat>
    const slotToKey: array<Byte>
    const keyToSlot: array<Byte>
    const direct: array<Byte>
    var numPositions: nat
    var minKeyLen: nat
    var seed: nat

    /** Zero-initialised tables. */
    constructor (n: nat, target: Target, maxKeyLen: nat, m: nat, maxPositions: nat)
      ensures Shaped(n, maxPositions) && fresh(Arrays())
      ensures this.target == target && this.maxKeyLen == maxKeyLen && this.m == m
      ensures forall p: nat | p < maxPositions :: asso[p] == Zeros(256) && positions[p] == 0
      ensures forall s: nat | s < m :: Blank(s)
    {
      this.target, this.maxKeyLen, this.m := target, maxKeyLen, m;
      asso := new Bytes[maxPositions](_ => Zeros(256));
      positions := new Byte[maxPositions](_ => 0);
      lens := new Byte[m](_ => 0);
      data := new Bytes[m](_ => seq<Byte>(RowWidth(target, maxKeyLen), _ => 0));
      packed := new nat[m](_ => 0);
      slotToKey := new Byte[m](_ => 0);
      keyToSlot := new Byte[n](_ => 0);
      direct := new Byte[256](_ => 0);
      numPositions, minKeyLen, seed := 0, 0, 0;
    }

    ghost function Arrays(): set<object> {
      {asso as object, positions, lens, data as object, packed, slotToKey, keyToSlot, direct}
    }

    /** The arrays are separate and have the sizes their types give them. */
    ghost predicate Shaped(n: nat, maxPositions: nat) {
      && asso.Length == positions.Length == maxPositions && keyToSlot.Length == n && direct.Length == 256
      && lens.Length == data.Length == packed.Length == slotToKey.Length == m
      && positions != lens && positions != slotToKey && positions != keyToSlot && positions != direct
      && lens != slotToKey && lens != keyToSlot && lens != direct
      && slotToKey != keyToSlot && slotToKey != direct && keyToSlot != direct && asso != data
    }

    ghost predicate Blank(s: nat)
      reads lens, data, packed
    {
      && s < lens.Length && s < data.Length && s < packed.Length
      && lens[s] == 0 && packed[s] == 0 && data[s] == seq<Byte>(RowWidth(target, maxKeyLen), _ => 0)
    }

    function HashPart(): HashTables
      reads this, asso, positions
    {
      HashTables(asso[..], numPositions, positions[..], seed, m)
    }

    function Tables(): ClassicTables
      reads this, asso, positions, lens, data, packed, slotToKey, keyToSlot, direct
    {
      ClassicTables(target, maxKeyLen, HashPart(), minKeyLen, lens[..], data[..], packed[..], slotToKey[..],
        keyToSlot[..], direct[..])
    }

    /** One row of 256 values: as it is for a displacement table, reduced modulo the table size otherwise. */
    method CopyRow(p: nat, row: seq<nat>, reduce: bool)
      requires p < asso.Length && |asso[p]| == 256 && |row| == 256 && 0 < m <= 256
      modifies asso
      ensures asso[..] == old(asso[..])[p := NarrowRow(row, reduce, m)]
    {
      for c := 0 to 256
        invariant |asso[p]| == 256 && forall d: nat | d < c ::
          asso[p][d] == ToByte(if reduce then row[d] % m else row[d])
        invariant forall q: nat | q < asso.Length && q != p :: asso[q] == old(asso[q])
      {
        asso[p] := asso[p][c := ToByte(if reduce then row[c] % m else row[c])];
      }
      assert asso[p] == NarrowRow(row, reduce, m);
    }

    /** The value tables: one row in the displacement modes, one per position otherwise. */
    method CopyRows(r: PhfResult)
      requires PhfData(r, m, asso.Length)
      requires forall p: nat | p < asso.Length :: asso[p] == Zeros(256)
      modifies asso
      ensures asso[..] == Narrow(r, m, asso.Length).asso
    {
      if r.numPositions == HD_MODE || r.numPositions == FULLHASH_MODE {
        CopyRow(0, r.asso[0], false);
      } else {
        for p := 0 to r.numPositions
          invariant forall q: nat | q < asso.Length ::
            asso[q] == if q < p then NarrowRow(r.asso[q], true, m) else Zeros(256)
        {
          CopyRow(p, r.asso[p], true);
        }
      }
    }

    /** The positions, or the variant of the key hash. */
    method CopyPositions(r: PhfResult, n: nat)
      requires Shaped(n, asso.Length) && PhfData(r, m, asso.Length)
      requires forall p: nat | p < positions.Length :: positions[p] == 0
      modifies positions
      ensures positions[..] == NarrowPositions(r, m, asso.Length)
    {
      var count :=
        if r.numPositions == HD_MODE then 1
        else if r.numPositions == FULLHASH_MODE then 0
        else r.numPositions;
      for i := 0 to count
        invariant forall j: nat | j < positions.Length ::
          positions[j] == if j < i then NarrowPosition(r.positions[j]) else 0
      {
        positions[i] := if r.positions[i] == LAST_CHAR then POS_LAST_CHAR else ToByte(r.positions[i]);
      }
    }

    method CopySlots(r: PhfResult, n: nat)
      requires Shaped(n, asso.Length) && PhfData(r, m, asso.Length)
      modifies slotToKey
      ensures forall s: nat | s < m :: slotToKey[s] == ToByte(r.slotToKey[s])
    {
      for s := 0 to m
        invariant forall t: nat | t < s :: slotToKey[t] == ToByte(r.slotToKey[t])
      {
        slotToKey[s] := ToByte(r.slotToKey[s]);
      }
    }

    /** The hash, narrowed to bytes. */
    method CopyHash(r: PhfResult, n: nat)
      requires Shaped(n, asso.Length) && PhfData(r, m, asso.Length)
      requires forall p: nat | p < asso.Length :: asso[p] == Zeros(256) && positions[p] == 0
      modifies this`numPositions, this`seed, asso, positions, slotToKey
      ensures HashPart() == Narrow(r, m, asso.Length)
      ensures forall s: nat | s < m :: slotToKey[s] == ToByte(r.slotToKey[s])
    {
      hide PhfData, NarrowPosition;
      CopyRows(r);
      numPositions := ToByte(r.numPositions);
      NumberFits(r, m, asso.Length);
      seed := r.seed;
      CopyPositions(r, n);
      CopySlots(r, n);
    }

    /** The check after the reduction: every key's slot names that key. */
    method Verify(keys: seq<Bytes>) returns (verified: bool)
      requires Shaped(|keys|, positions.Length) && HashReady(HashPart()) && (numPositions == HD_MODE ==> [] !in keys)
      requires forall i: nat | i < |keys| :: |keys[i]| < TWO_TO_THE_64
      ensures verified <==> forall i: nat | i < |keys| :: slotToKey[HashSlots(HashPart(), keys)[i]] == i
    {
      hide HashOf;
      for i := 0 to |keys|
        invariant forall j: nat | j < i :: slotToKey[HashSlots(HashPart(), keys)[j]] == j
      {
        assert keys[i] in keys;
        var s := ComputeHash(HashPart(), keys[i], |keys|, maxKeyLen, true);
        if slotToKey[s] != i {
          assert slotToKey[HashSlots(HashPart(), keys)[i]] != i;
          return false;
        }
      }
      verified := true;
    }

    /** The row of one slot, its length and its packed word. */
    method StoreKey(s: nat, key: Bytes, n: nat, maxPositions: nat)
      requires Shaped(n, maxPositions) && s < m && Blank(s) && 1 <= maxKeyLen <= 254 && |key| <= maxKeyLen
      modifies lens, data, packed
      ensures lens[s] == |key| && data[s] == StoredRow(target, maxKeyLen, key)
        && packed[s] == PackedWord(maxKeyLen, key)
      ensures forall t: nat | t < m && t != s ::
        lens[t] == old(lens[t]) && data[t] == old(data[t])
        && packed[t] == old(packed[t])
    {
      lens[s] := ToByte(|key|);
      ghost var width := RowWidth(target, maxKeyLen);
      for c := 0 to |key|
        modifies data
        invariant |data[s]| == width && forall b: nat | b < width :: data[s][b] == if b < c then key[b] else 0
        invariant forall t: nat | t < m && t != s :: data[t] == old(data[t])
      {
        data[s] := data[s][c := key[c]];
      }
      assert data[s] == Padded(key, width);
      if LengthInByte15(target, maxKeyLen) {
        data[s] := data[s][15 := ToByte(|key|)];
      }
      PackKey(s, key, n, maxPositions);
    }

    /** The word beside a row: the overlap encoding up to four bytes, the first eight bytes otherwise. */
    method PackKey(s: nat, key: Bytes, n: nat, maxPositions: nat)
      requires Shaped(n, maxPositions) && s < m && packed[s] == 0
      modifies packed
      ensures packed[s] == PackedWord(maxKeyLen, key)
      ensures forall t: nat | t < m && t != s :: packed[t] == old(packed[t])
    {
      if maxKeyLen <= 4 {
        if |key| >= 2 {
          var lo := Pair(key[0], key[1]);
          var hi := Pair(key[|key| - 2], key[|key| - 1]);
          assert key[..2] == [key[0], key[1]] && key[|key| - 2..] == [key[|key| - 2], key[|key| - 1]];
          packed[s] := lo + 0x1_0000 * hi + TWO_TO_THE_32 * |key|;
        } else if |key| == 1 {
          packed[s] := key[0] + TWO_TO_THE_32;
        }
      } else {
        var word := AssembleLane(key, 0);
        packed[s] := word;
      }
    }

    /** Rows and inverse mapping of all slots that have a key. */
    method FillSlots(keys: seq<Bytes>, ghost slots: seq<nat>, maxPositions: nat)
      requires Shaped(|keys|, maxPositions) && |keys| <= 255 && m <= 256 && 1 <= maxKeyLen <= 254
      requires |slots| == |keys| && forall i: nat | i < |keys| :: slots[i] < m && slotToKey[slots[i]] == i
      requires forall i: nat | i < |keys| :: |keys[i]| <= maxKeyLen
      requires forall s: nat | s < m :: Blank(s)
      modifies lens, data, packed, keyToSlot
      ensures Names(slots, slotToKey[..], keyToSlot[..])
      ensures forall s: nat | s < m :: Filled(s, keys)
    {
      hide StoredRow, PackedWord, RowWidth;
      for s := 0 to m
        invariant forall i: nat | i < |keys| && slots[i] < s :: keyToSlot[i] < s && slotToKey[keyToSlot[i]] == i
        invariant forall t: nat | t < s :: Filled(t, keys)
        invariant forall t: nat | s <= t < m :: Blank(t)
      {
        label before:
        var ki := slotToKey[s];
        if ki < |keys| {
          StoreKey(s, keys[ki], |keys|, maxPositions);
          keyToSlot[ki] := ToByte(s);
        } else {
          BlankStoresNothing(s, keys);
        }
        forall t: nat | t < s ensures Filled(t, keys) {
          assert old@before(Filled(t, keys));
        }
        forall t: nat | s < t < m ensures Blank(t) {
          assert old@before(Blank(t));
        }
      }
    }

    /** Slot s stores the key the table names, or the empty string. */
    ghost predicate Filled(s: nat, keys: seq<Bytes>)
      reads lens, data, packed, slotToKey
    {
      && s < lens.Length && s < data.Length && s < packed.Length && s < slotToKey.Length
      && var k := if slotToKey[s] < |keys| then keys[slotToKey[s]] else [];
         |k| <= maxKeyLen && lens[s] == |k| && data[s] == StoredRow(target, maxKeyLen, k)
           && packed[s] == PackedWord(maxKeyLen, k)
    }

    lemma BlankStoresNothing(s: nat, keys: seq<Bytes>)
      requires Blank(s) && s < slotToKey.Length && slotToKey[s] >= |keys|
      ensures Filled(s, keys)
    {
      var width := RowWidth(target, maxKeyLen);
      assert Padded([], width) == seq<Byte>(width, _ => 0);
      assert StoredRow(target, maxKeyLen, []) == data[s];
      TrailingZeros([], 8);
    }

    /** The direct table of one-byte sets. */
    method FillDirect(keys: seq<Bytes>, maxPositions: nat)
      requires Shaped(|keys|, maxPositions) && |keys| <= 255
      requires forall i: nat, j: nat | i < |keys| && j < |keys| && keys[i] == keys[j] :: i == j
      requires forall i: nat | i < |keys| :: |keys[i]| <= 1
      modifies direct
      ensures DirectTable(direct[..], keys)
    {
      for c := 0 to 256
        invariant forall d: nat | d < c :: direct[d] == NO_KEY
      {
        direct[c] := NO_KEY;
      }
      for i := 0 to |keys|
        invariant forall c: nat | c < 256 && direct[c] != NO_KEY :: direct[c] < i && keys[direct[c]] == [c as Byte]
        invariant forall j: nat | j < i && |keys[j]| == 1 :: direct[keys[j][0]] == j
      {
        if keys[i] != [] {
          forall j: nat | j < i && |keys[j]| == 1 ensures keys[j][0] != keys[i][0] {
            assert keys[j] != keys[i];
            assert keys[j] == [keys[j][0]] && keys[i] == [keys[i][0]];
          }
          assert keys[i] == [keys[i][0]];
          direct[keys[i][0]] := ToByte(i);
        }
      }
    }

    /** init_inline_data_: once every key's slot names the key, the finished tables represent the keys. */
    method InitInlineData(keys: seq<Bytes>, ghost slots: seq<nat>, maxPositions: nat)
      requires Shaped(|keys|, maxPositions) && GoodInput(keys, maxKeyLen)
      requires forall i: nat | i < |keys| :: |keys[i]| <= maxKeyLen
      requires HashReady(HashPart()) && (numPositions == HD_MODE ==> [] !in keys)
      requires slots == HashSlots(HashPart(), keys) && forall i: nat | i < |keys| :: slotToKey[slots[i]] == i
      requires forall s: nat | s < m :: Blank(s)
      modifies this`minKeyLen, lens, data, packed, keyToSlot, direct
      ensures Represents(Tables(), keys)
    {
      hide HashOf, Represents, DirectTable, StoredRow, PackedWord, Names;
      var mn := MinLength(keys);
      minKeyLen := ToByte(mn);
      FillSlots(keys, slots, maxPositions);
      if maxKeyLen == 1 {
        NamedKeysDiffer(slots, keys, HashPart(), slotToKey[..]);
        FillDirect(keys, maxPositions);
      }
      FilledRepresents(this, keys, maxPositions);
    }
  }

  /** Two bytes as a 16-bit number. */
  function Pair(a: Byte, b: Byte): (w: nat)
    ensures w == LittleEndian([a, b])
  {
    assert [a, b][1..] == [b] && LittleEndian([b]) == b;
    a + 256 * b
  }

  // ---------------------------------------------------------------- constructors

  /** What the class asserts of its parameters: 1 to 255 keys, and lengths of 1 to 254 bytes to provide for. */
  ghost predicate GoodInput(keys: seq<Bytes>, maxKeyLen: nat) {
    1 <= |keys| <= 255 && 1 <= maxKeyLen <= 254
  }

  method AnyTooLong(keys: seq<Bytes>, maxKeyLen: nat) returns (tooLong: bool)
    ensures tooLong <==> exists i: nat :: i < |keys| && |keys[i]| > maxKeyLen
  {
    for i := 0 to |keys|
      invariant forall j: nat | j < i :: |keys[j]| <= maxKeyLen
    {
      if |keys[i]| > maxKeyLen {
        return true;
      }
    }
    tooLong := false;
  }

  /** So it does for the hash of any tier. */
  lemma FittingStillNames(r: PhfResult, keys: seq<Bytes>, maxPositions: nat)
    requires PhfFits(r, keys, maxPositions) && |keys| <= 255 && forall i: nat | i < |keys| :: |keys[i]| <= 254
    ensures PhfData(r, r.tableSize, maxPositions) && (r.numPositions == HD_MODE ==> [] !in keys)
    ensures StillNames(r, keys, r.tableSize, maxPositions)
  {
    NarrowIsNarrowed(r, keys, maxPositions);
    NarrowingKeepsSlots(Narrow(r, r.tableSize, maxPositions), r, keys, maxPositions);
    hide Narrow, HashOf, Narrowed;
    var slots, table := PlannedSlots(r, keys, maxPositions), r.slotToKey[..r.tableSize];
    forall i: nat | i < |keys| ensures ToByte(r.slotToKey[slots[i]]) == i {
      assert table[slots[i]] == i;
    }
  }

  /** What the verification loop looks at is what StillNames says. */
  lemma VerifiedMeans(r: PhfResult, keys: seq<Bytes>, tableSize: nat, maxPositions: nat, slotToKey: seq<nat>)
    requires PhfData(r, tableSize, maxPositions) && (r.numPositions == HD_MODE ==> [] !in keys)
    requires |slotToKey| == tableSize && forall s: nat | s < tableSize :: slotToKey[s] == ToByte(r.slotToKey[s])
    ensures StillNames(r, keys, tableSize, maxPositions) <==>
      forall i: nat | i < |keys| :: slotToKey[HashSlots(Narrow(r, tableSize, maxPositions), keys)[i]] == i
  {
    hide HashOf;
  }

  lemma NamedKeysDiffer(slots: seq<nat>, keys: seq<Bytes>, h: HashTables, slotToKey: seq<nat>)
    requires HashReady(h) && (h.numPositions == HD_MODE ==> [] !in keys) && slots == HashSlots(h, keys)
    requires |slotToKey| == h.m && forall i: nat | i < |keys| :: slotToKey[slots[i]] == i
    ensures forall i: nat, j: nat | i < |keys| && j < |keys| && keys[i] == keys[j] :: i == j
  {
    hide HashOf;
    forall i: nat, j: nat | i < |keys| && j < |keys| && keys[i] == keys[j] ensures i == j {
      assert slotToKey[slots[i]] == i && slotToKey[slots[j]] == j;
    }
  }

  /** The constructor from hash data, of any origin. It rejects keys that are too long, and data under which the
      slot of some key does not name the key once everything is narrowed to bytes: never what a generator returns.
      Whatever passes, the tables represent the keys. Only the mode that reads the first byte of every key excludes
      an empty one. */
  method MakeSet(keys: seq<Bytes>, r: PhfResult, target: Target, tableSize: nat, maxKeyLen: nat, maxPositions: nat)
    returns (result: Result<ClassicSet, SetError>)
    requires GoodInput(keys, maxKeyLen) && PhfData(r, tableSize, maxPositions)
    requires r.numPositions == HD_MODE ==> [] !in keys
    ensures result == Err(KeyTooLong) <==> exists i: nat :: i < |keys| && |keys[i]| > maxKeyLen
    ensures result == Err(ReductionBroke) <==>
      result != Err(KeyTooLong) && !StillNames(r, keys, tableSize, maxPositions)
    ensures result.Err? ==> result.error == KeyTooLong || result.error == ReductionBroke
    ensures PhfFits(r, keys, maxPositions) && tableSize == r.tableSize ==> result.Ok? || result == Err(KeyTooLong)
    ensures result.Ok? ==>
      fresh(result.value) && fresh(result.value.Arrays()) && Represents(result.value.Tables(), keys)
    ensures result.Ok? ==> result.value.Shaped(|keys|, maxPositions) && result.value.m == tableSize
    ensures result.Ok? ==> result.value.maxKeyLen == maxKeyLen
  {
    hide HashOf, PhfFits, StillNames, Represents, DirectTable, StoredRow, PackedWord, Names, Narrow;
    var tooLong := AnyTooLong(keys, maxKeyLen);
    if tooLong {
      return Err(KeyTooLong);
    }
    if PhfFits(r, keys, maxPositions) {
      FittingStillNames(r, keys, maxPositions);
    }
    var set_ := new ClassicSet(|keys|, target, maxKeyLen, tableSize, maxPositions);
    set_.CopyHash(r, |keys|);
    ghost var slots := HashSlots(Narrow(r, tableSize, maxPositions), keys);
    var verified := set_.Verify(keys);
    VerifiedMeans(r, keys, tableSize, maxPositions, set_.slotToKey[..]);
    if !verified {
      return Err(ReductionBroke);
    }
    set_.InitInlineData(keys, slots, maxPositions);
    result := Ok(set_);
  }

  lemma FilledRepresents(set_: ClassicSet, keys: seq<Bytes>, maxPositions: nat)
    requires GoodInput(keys, set_.maxKeyLen) && set_.Shaped(|keys|, maxPositions)
    requires forall i: nat | i < |keys| :: |keys[i]| <= set_.maxKeyLen
    requires HashReady(set_.HashPart()) && (set_.numPositions == HD_MODE ==> [] !in keys)
    requires Names(HashSlots(set_.HashPart(), keys), set_.slotToKey[..], set_.keyToSlot[..])
    requires forall s: nat | s < set_.m :: set_.Filled(s, keys)
    requires set_.minKeyLen == 0 <==> [] in keys
    requires set_.maxKeyLen == 1 ==> DirectTable(set_.direct[..], keys)
    ensures Represents(set_.Tables(), keys)
  {
    hide HashOf, StoredRow, PackedWord, DirectTable, Names;
    var t := set_.Tables();
    forall s: nat | s < set_.m
      ensures |t.data[s]| == RowWidth(t.target, t.maxKeyLen) && t.lens[s] <= t.maxKeyLen
    {
      assert set_.Filled(s, keys);
    }
    assert WellFormed(t);
    forall s: nat | s < set_.m ensures Stored(t, s, KeyIn(t, keys, s)) {
      assert set_.Filled(s, keys);
    }
  }

  /** The constructor that generates its own hash, for a table of any size: gperf form or nothing. */
  method MakeSetDirectly(keys: seq<Bytes>, target: Target, tableSize: nat, maxKeyLen: nat, maxPositions: nat)
    returns (result: Result<ClassicSet, SetError>)
    requires GoodInput(keys, maxKeyLen) && 1 <= tableSize <= 256 && 1 <= maxPositions < FULLHASH_MODE
    ensures result == Err(KeyTooLong) <==> exists i: nat :: i < |keys| && |keys[i]| > maxKeyLen
    ensures result != Err(ReductionBroke)
    ensures result.Ok? ==> fresh(result.value) && Represents(result.value.Tables(), keys) && result.value.m == tableSize
  {
    var tooLong := AnyTooLong(keys, maxKeyLen);
    if tooLong {
      return Err(KeyTooLong);
    }
    var plan := PartitionSolver.TryGenerateGperf(keys, tableSize, maxPositions);
    if plan.Err? {
      return Err(NoHash);
    }
    var r := PlanResult(keys, plan.value, tableSize, maxPositions);
    result := MakeSet(keys, r, target, tableSize, maxKeyLen, maxPositions);
  }

  /** A gperf plan as hash data. */
  function PlanResult(keys: seq<Bytes>, p: PartitionSolver.GperfPlan, tableSize: nat, maxPositions: nat): (r: PhfResult)
    requires 1 <= tableSize <= 256 && 1 <= maxPositions < FULLHASH_MODE
    requires PartitionSolver.GperfFits(p, keys, tableSize, maxPositions)
    ensures PhfFits(r, keys, maxPositions) && r.tableSize == tableSize && r.numPositions < FULLHASH_MODE
    ensures PhfData(r, tableSize, maxPositions)
  {
    var r := PhfResult(tableSize, p.asso, |p.positions|, PositionArray(p.positions, maxPositions), p.slotToKey, 0);
    assert p.slotToKey[..tableSize] == p.slotToKey;
    assert PlannedSlots(r, keys, maxPositions) == PartitionSolver.GperfSlots(keys, p.positions, p.asso, tableSize);
    r
  }

  // ---------------------------------------------------------------- the map

  /** Values in slot order; slots without a key keep the value-initialised element. */
  method FillSlotValues<V>(set_: ClassicTables, n: nat, values: seq<V>, blank: V) returns (slotValues: array<V>)
    requires WellFormed(set_) && n == |values|
    ensures slotValues.Length == set_.hash.m
    ensures forall s: nat | s < set_.hash.m ::
      slotValues[s] == if set_.slotToKey[s] < n then values[set_.slotToKey[s]] else blank
  {
    slotValues := new V[set_.hash.m](_ => blank);
    for s := 0 to set_.hash.m
      invariant forall t: nat | t < s ::
        slotValues[t] == if set_.slotToKey[t] < n then values[set_.slotToKey[t]] else blank
      invariant forall t: nat | s <= t < set_.hash.m :: slotValues[t] == blank
    {
      if set_.slotToKey[s] < n {
        slotValues[s] := values[set_.slotToKey[s]];
      }
    }
  }

  method MakeMap<V>(keys: seq<Bytes>, values: seq<V>, blank: V, r: PhfResult, target: Target, tableSize: nat,
      maxKeyLen: nat, maxPositions: nat)
    returns (result: Result<MapTables<V>, SetError>)
    requires GoodInput(keys, maxKeyLen) && PhfData(r, tableSize, maxPositions) && |values| == |keys|
    requires r.numPositions == HD_MODE ==> [] !in keys
    ensures result == Err(KeyTooLong) <==> exists i: nat :: i < |keys| && |keys[i]| > maxKeyLen
    ensures result == Err(ReductionBroke) <==>
      result != Err(KeyTooLong) && !StillNames(r, keys, tableSize, maxPositions)
    ensures result.Err? ==> result.error == KeyTooLong || result.error == ReductionBroke
    ensures PhfFits(r, keys, maxPositions) && tableSize == r.tableSize ==> result.Ok? || result == Err(KeyTooLong)
    ensures result.Ok? ==> MapRepresents(result.value, keys, values)
  {
    var made := MakeSet(keys, r, target, tableSize, maxKeyLen, maxPositions);
    if made.Err? {
      return Err(made.error);
    }
    var set_ := made.value.Tables();
    var slotValues := FillSlotValues(set_, |keys|, values, blank);
    result := Ok(MapTables(set_, values, slotValues[..]));
  }
}
