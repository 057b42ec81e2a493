/** The classic container's queries, over its finished byte tables. */
module ClassicTables {
  import opened Words
  import opened Numbers
  import opened Memory
  import opened NeonCompare
  import opened MaskCompare
  import opened Chunks
  import opened Positions
  import opened Displacement
  import opened ClassicGenerator

  // ---------------------------------------------------------------- the hash

  /** The position number that stands for the last byte, in a byte. */
  const POS_LAST_CHAR: Byte := 255

  /** The hash in bytes: value tables, positions, their number or a mode, and the seed of the seeded mode. */
  datatype HashTables = HashTables(asso: seq<Bytes>, numPositions: nat, positions: Bytes, seed: nat, m: nat)

  ghost predicate HashReady(h: HashTables) {
    && 1 <= h.m <= LARGEST_TABLE && h.seed < TWO_TO_THE_64
    && |h.asso| == |h.positions| > 0 && (forall p: nat | p < |h.asso| :: |h.asso[p]| == 256)
    && (h.numPositions <= |h.positions| || h.numPositions == HD_MODE || h.numPositions == FULLHASH_MODE)
    && |h.positions| < FULLHASH_MODE
  }

  /** Reduction to a slot: a mask where the size is a power of two, a remainder otherwise. */
  function Reduce(x: nat, m: nat): (s: nat)
    requires m > 0
    ensures s == x % m
  {
    if And(m, m - 1) == 0 then
      OneBitTest(m);
      ghost var k: nat :| m == Pow2(k);
      MaskIsRemainder(x, k);
      And(x, m - 1)
    else x % m
  }

  /** The position a table entry stands for. */
  function PositionOf(p: Byte): nat {
    if p == POS_LAST_CHAR then LAST_CHAR else p
  }

  /** What position i adds to the hash of a key. */
  function Term(h: HashTables, key: Bytes, i: nat): nat
    requires HashReady(h) && i < |h.positions|
  {
    var c := CharAt(key, PositionOf(h.positions[i]));
    if c < 256 then h.asso[i][c] else 0
  }

  function Sum(h: HashTables, key: Bytes, n: nat): (s: nat)
    requires HashReady(h) && n <= |h.positions|
    ensures s <= 255 * n
  {
    if n == 0 then 0 else Sum(h, key, n - 1) + Term(h, key, n - 1)
  }

  /** The slot of a string. Only the hash-and-displace mode reads the first byte unconditionally. */
  function HashOf(h: HashTables, key: Bytes): (s: nat)
    requires HashReady(h) && (h.numPositions == HD_MODE ==> key != [])
    ensures s < h.m
  {
    if h.numPositions == FULLHASH_MODE then
      var x := FullHash(key, h.seed);
      Reduce((h.asso[0][SeededBucket(x)] + x) % TWO_TO_THE_64, h.m)
    else if h.numPositions == HD_MODE then
      var x := KeyHash(key, if h.positions[0] == 2 then 2 else 4);
      Reduce((h.asso[0][BucketHash(key)] + x) % TWO_TO_THE_64, h.m)
    else Reduce((|key| + Sum(h, key, h.numPositions)) % TWO_TO_THE_64, h.m)
  }

  /** One position in the form with branches. */
  function BranchyTerm(h: HashTables, key: Bytes, i: nat): (v: nat)
    requires HashReady(h) && i < |h.positions| && |key| < TWO_TO_THE_64
    ensures v == Term(h, key, i)
  {
    var pos := h.positions[i];
    var ch: nat :=
      if pos == POS_LAST_CHAR then (if key == [] then 256 else key[|key| - 1])
      else if pos < |key| then key[pos] else 256;
    if ch < 256 then h.asso[i][ch] else 0
  }

  /** One position in the form with masks: the index of the last byte wraps for the empty key, whose view is
      replaced by one zero byte; an index out of range reads byte 0 and adds nothing. */
  function BranchlessTerm(h: HashTables, key: Bytes, i: nat): (v: nat)
    requires HashReady(h) && i < |h.positions| && |key| < TWO_TO_THE_64
    ensures v == Term(h, key, i)
  {
    var pos := h.positions[i];
    var idx := if pos == POS_LAST_CHAR then (|key| - 1) % TWO_TO_THE_64 else pos;
    var bytes := if key != [] then key else [0];
    var has := idx < |key|;
    var value := h.asso[i][bytes[if has then idx else 0]];
    if has then value else 0
  }

  /** The accumulation loop; large key sets and long keys use the form with masks. Both give the same slot for
      every string. */
  method AccumulateHash(h: HashTables, key: Bytes, branchless: bool) returns (s: nat)
    requires HashReady(h) && h.numPositions <= |h.positions| && |key| < TWO_TO_THE_64
    ensures s == HashOf(h, key)
  {
    hide Term;
    var acc := |key|;
    for i := 0 to h.numPositions
      invariant acc == (|key| + Sum(h, key, i)) % TWO_TO_THE_64
    {
      ModAbsorb(|key| + Sum(h, key, i), Term(h, key, i), TWO_TO_THE_64);
      if branchless {
        acc := (acc + BranchlessTerm(h, key, i)) % TWO_TO_THE_64;
      } else {
        acc := (acc + BranchyTerm(h, key, i)) % TWO_TO_THE_64;
      }
    }
    s := Reduce(acc, h.m);
  }

  /** compute_hash. */
  method ComputeHash(h: HashTables, key: Bytes, n: nat, maxKeyLen: nat, constant: bool) returns (s: nat)
    requires HashReady(h) && (h.numPositions == HD_MODE ==> key != []) && |key| < TWO_TO_THE_64
    ensures s == HashOf(h, key)
  {
    if h.numPositions >= FULLHASH_MODE {
      if h.numPositions == FULLHASH_MODE {
        var x := ComputeFullHash(key, h.seed, constant);
        return Reduce((h.asso[0][SeededBucket(x)] + x) % TWO_TO_THE_64, h.m);
      }
      var x := KeyHash(key, if h.positions[0] == 2 then 2 else 4);
      return Reduce((h.asso[0][BucketHash(key)] + x) % TWO_TO_THE_64, h.m);
    }
    s := AccumulateHash(h, key, n >= 64 || maxKeyLen > 16);
  }

  // ---------------------------------------------------------------- stored keys

  /** Where a key is compared: AArch64 vectors, with or without the short-key lookup; x86-64 or LoongArch vectors; or
      plain C++. */
  datatype Target = Neon(shortKeyLookup: bool) | Masks | Portable

  /** Vector targets round a row up to whole chunks. */
  function RowWidth(target: Target, maxKeyLen: nat): nat {
    if target.Portable? then maxKeyLen else 16 * ChunkCount(maxKeyLen)
  }

  /** 9 to 15 bytes with the short-key lookup: the last byte of the row holds the length. */
  predicate LengthInByte15(target: Target, maxKeyLen: nat) {
    target == Neon(true) && 9 <= maxKeyLen <= 15
  }

  function StoredRow(target: Target, maxKeyLen: nat, key: Bytes): (row: Bytes)
    requires |key| <= maxKeyLen
    ensures |row| == RowWidth(target, maxKeyLen)
    ensures row[..|key|] == key
  {
    var row := Padded(key, RowWidth(target, maxKeyLen));
    if LengthInByte15(target, maxKeyLen) then row[15 := |key|] else row
  }

  /** First two bytes, last two bytes and length, for keys of at most four bytes. */
  function OverlapWord(key: Bytes): nat {
    if |key| >= 2 then
      LittleEndian(key[..2]) + 0x1_0000 * LittleEndian(key[|key| - 2..]) + TWO_TO_THE_32 * |key|
    else if |key| == 1 then key[0] + TWO_TO_THE_32
    else 0
  }

  /** The word stored beside a row. */
  function PackedWord(maxKeyLen: nat, key: Bytes): nat {
    if maxKeyLen <= 4 then OverlapWord(key) else LittleEndian(Padded(key, 8))
  }

  /** What the constructor leaves behind. */
  datatype ClassicTables = ClassicTables(target: Target, maxKeyLen: nat, hash: HashTables, minKeyLen: nat,
                                         lens: Bytes, data: seq<Bytes>, packed: seq<nat>,
                                         slotToKey: Bytes, keyToSlot: Bytes, direct: Bytes)

  /** Sizes and ranges. A set in hash-and-displace mode has no empty key. */
  ghost predicate WellFormed(t: ClassicTables) {
    && 1 <= t.maxKeyLen <= 254 && HashReady(t.hash)
    && |t.lens| == |t.data| == |t.packed| == |t.slotToKey| == t.hash.m
    && (forall s: nat | s < t.hash.m :: |t.data[s]| == RowWidth(t.target, t.maxKeyLen) && t.lens[s] <= t.maxKeyLen)
    && (t.hash.numPositions == HD_MODE ==> t.minKeyLen > 0)
    && |t.keyToSlot| <= 255 && |t.direct| == 256
  }

  /** Slot s stores k; an empty slot looks exactly like one that stores the empty string. */
  ghost predicate Stored(t: ClassicTables, s: nat, k: Bytes)
    requires WellFormed(t) && s < t.hash.m
  {
    && |k| <= t.maxKeyLen
    && t.lens[s] == |k| && t.data[s] == StoredRow(t.target, t.maxKeyLen, k) && t.packed[s] == PackedWord(t.maxKeyLen, k)
  }

  // ---------------------------------------------------------------- comparing

  /** Up to four bytes: the query in the overlap encoding, with two loads of two bytes inside the query. */
  function EncodeQuery(maxKeyLen: nat, mem: Memory, p: nat, len: nat): (e: nat)
    requires ValidView(mem, p, len) && len > 0
    ensures e == OverlapWord(Load(mem, p, if len <= maxKeyLen then len else maxKeyLen + 1))
  {
    var c := if len <= maxKeyLen then len else maxKeyLen + 1;
    var bytes := Load(mem, p, c);
    if c >= 2 then
      assert Load(mem, p, 2) == bytes[..2] && Load(mem, p + c - 2, 2) == bytes[c - 2..];
      LittleEndian(Load(mem, p, 2)) + 0x1_0000 * LittleEndian(Load(mem, p + c - 2, 2)) + TWO_TO_THE_32 * c
    else mem.bytes(p) + TWO_TO_THE_32
  }

  predicate MatchKey(t: ClassicTables, mem: Memory, p: nat, len: nat, slot: nat, constant: bool)
    requires WellFormed(t) && slot < t.hash.m && ValidView(mem, p, len) && t.maxKeyLen <= 4
  {
    if len == 0 then t.lens[slot] == 0
    else if constant then t.lens[slot] == len && t.data[slot][..len] == Load(mem, p, len)
    else EncodeQuery(t.maxKeyLen, mem, p, len) == t.packed[slot]
  }

  /** The first n bytes of a non-empty key packed into a word, with a zero for each byte it does not have. */
  function PackInput(key: Bytes, n: nat): (v: nat)
    requires key != []
    ensures v == LittleEndian(Padded(key, n))
  {
    if n == 0 then 0
    else
      LittleEndianAppend(Padded(key, n - 1), ByteAt(key, n - 1));
      assert Padded(key, n) == Padded(key, n - 1) + [ByteAt(key, n - 1)];
      PackInput(key, n - 1) + Pow2(8 * (n - 1)) * SafeByte(key, n - 1)
  }

  /** Key bytes only; the length is checked separately. Keys of up to four bytes never come here. */
  predicate CompareKey(t: ClassicTables, mem: Memory, p: nat, len: nat, slot: nat, constant: bool, known: Known)
    requires WellFormed(t) && slot < t.hash.m && ValidView(mem, p, len) && 4 < t.maxKeyLen && len <= t.maxKeyLen
  {
    if len == 0 then true
    else if constant || (t.target.Portable? && t.maxKeyLen > 8) then t.data[slot][..len] == Load(mem, p, len)
    else
      assert mem.mapped(p / BLOCK);
      if t.maxKeyLen <= 8 then
        match t.target
        case Neon(_) => Compare8(mem, p, len, t.packed[slot])
        case Masks => MaskCompare8(mem, p, len, t.packed[slot], known)
        case Portable => PackInput(Load(mem, p, len), t.maxKeyLen) == t.packed[slot]
      else if t.maxKeyLen <= 16 then
        if t.target.Masks? then MaskCompare16(mem, p, len, t.data[slot], known)
        else if LengthInByte15(t.target, t.maxKeyLen) then Compare15(mem, p, len, t.data[slot]).0
        else Compare16(mem, p, len, t.data[slot])
      else
        CompareChunks(if t.target.Neon? then TableLookup else AndMasks, t.maxKeyLen, mem, p, len, t.data[slot], known)
  }

  /** The short-key lookup: the mask row is picked with the low bits of the length, right for every length a key
      can have and valid for every other. */
  predicate ShortKeyMatches(t: ClassicTables, mem: Memory, p: nat, len: nat, slot: nat)
    requires WellFormed(t) && slot < t.hash.m && ValidView(mem, p, len) && len > 0
    requires t.target == Neon(true) && 4 < t.maxKeyLen <= 16
  {
    assert mem.mapped(p / BLOCK);
    if t.maxKeyLen <= 8 then Compare8(mem, p, len % 16, t.packed[slot]) && t.lens[slot] == len
    else if t.maxKeyLen <= 15 then
      var r := Compare15(mem, p, len % 16, t.data[slot]);
      r.0 && r.1 == len
    else Compare16(mem, p, len % 32, t.data[slot]) && t.lens[slot] == len
  }

  /** Key bytes and length of a query of any length, against one slot. */
  predicate KeyMatches(t: ClassicTables, mem: Memory, p: nat, len: nat, slot: nat, constant: bool, known: Known)
    requires WellFormed(t) && slot < t.hash.m && ValidView(mem, p, len)
  {
    if t.maxKeyLen <= 4 then MatchKey(t, mem, p, len, slot, constant)
    else if t.target == Neon(true) && t.maxKeyLen <= 16 && !constant && len != 0 then
      ShortKeyMatches(t, mem, p, len, slot)
    else
      var clamped := if len <= t.maxKeyLen then len else t.maxKeyLen;
      CompareKey(t, mem, p, clamped, slot, constant, known) && t.lens[slot] == len
  }

  // ---------------------------------------------------------------- each layout is exact

  lemma OverlapFields(key: Bytes)
    requires |key| >= 2
    ensures OverlapWord(key) / TWO_TO_THE_32 == |key|
    ensures OverlapWord(key) % 0x1_0000 == LittleEndian(key[..2])
    ensures (OverlapWord(key) / 0x1_0000) % 0x1_0000 == LittleEndian(key[|key| - 2..])
  {
    var lo, hi := LittleEndian(key[..2]), LittleEndian(key[|key| - 2..]);
    LittleEndianBound(key[..2]);
    LittleEndianBound(key[|key| - 2..]);
    Pow2Of16();
    FieldsOf(lo, hi, |key|, OverlapWord(key));
  }

  lemma Pow2Of16()
    ensures Pow2(16) == 0x1_0000
  {
    Pow2Of8();
    Pow2Add(8, 8);
  }

  lemma FieldsOf(lo: nat, hi: nat, len: nat, w: nat)
    requires lo < 0x1_0000 && hi < 0x1_0000 && w == lo + 0x1_0000 * hi + TWO_TO_THE_32 * len
    ensures w / TWO_TO_THE_32 == len && w % 0x1_0000 == lo && (w / 0x1_0000) % 0x1_0000 == hi
  {
  }

  /** The overlap encoding tells all strings of up to four bytes from each other and from any longer one. */
  lemma OverlapWordInjective(k: Bytes, q: Bytes)
    requires |k| <= 4 && q != [] && OverlapWord(k) == OverlapWord(q)
    ensures k == q
  {
    if |k| >= 2 { OverlapFields(k); }
    if |q| >= 2 { OverlapFields(q); }
    assert |k| == |q|;
    if |k| >= 2 {
      LittleEndianInjective(k[..2], q[..2]);
      LittleEndianInjective(k[|k| - 2..], q[|k| - 2..]);
      forall i: nat | i < |k| ensures k[i] == q[i] {
        if i < 2 {
          assert k[..2][i] == q[..2][i];
        } else {
          assert k[|k| - 2..][i - (|k| - 2)] == q[|k| - 2..][i - (|k| - 2)];
        }
      }
    }
  }

  /** Up to 4 bytes. */
  lemma MatchKeyExact(t: ClassicTables, mem: Memory, p: nat, len: nat, slot: nat, constant: bool, k: Bytes)
    requires WellFormed(t) && slot < t.hash.m && ValidView(mem, p, len) && t.maxKeyLen <= 4 && len > 0
    requires Stored(t, slot, k)
    ensures MatchKey(t, mem, p, len, slot, constant) <==> Load(mem, p, len) == k
  {
    var q := Load(mem, p, len);
    if constant {
      assert t.lens[slot] == len ==> t.data[slot][..len] == k;
    } else {
      var c := if len <= t.maxKeyLen then len else t.maxKeyLen + 1;
      var cut := Load(mem, p, c);
      if EncodeQuery(t.maxKeyLen, mem, p, len) == t.packed[slot] {
        OverlapWordInjective(k, cut);
        assert c == len && cut == q;
      }
    }
  }

  lemma {:induction false} TrailingZeros(key: Bytes, n: nat)
    requires |key| <= n
    ensures LittleEndian(Padded(key, n)) == LittleEndian(key)
    decreases n
  {
    if n == |key| {
      assert Padded(key, n) == key;
    } else {
      TrailingZeros(key, n - 1);
      LittleEndianAppend(Padded(key, n - 1), 0);
      assert Padded(key, n) == Padded(key, n - 1) + [0];
    }
  }

  /** Among strings of one length, the packed word decides. */
  lemma PackedWordDecides(maxKeyLen: nat, k: Bytes, q: Bytes)
    requires |k| == |q| <= 8
    ensures LittleEndian(Padded(q, 8)) == LittleEndian(Padded(k, 8)) <==> q == k
  {
    TrailingZeros(k, 8);
    TrailingZeros(q, 8);
    if LittleEndian(q) == LittleEndian(k) {
      LittleEndianInjective(q, k);
    }
  }

  /** 5 to 8 bytes. */
  lemma CompareWordExact(t: ClassicTables, mem: Memory, p: nat, slot: nat, known: Known, k: Bytes)
    requires WellFormed(t) && slot < t.hash.m && ValidView(mem, p, |k|) && 4 < t.maxKeyLen <= 8 && k != []
    requires Stored(t, slot, k)
    ensures CompareKey(t, mem, p, |k|, slot, false, known) <==> Load(mem, p, |k|) == k
  {
    hide LittleEndian;
    var q := Load(mem, p, |k|);
    PackedWordDecides(t.maxKeyLen, k, q);
    TrailingZeros(q, 8);
    TrailingZeros(q, t.maxKeyLen);
  }

  /** 9 to 16 bytes, a 16-byte row. */
  lemma RowExact(target: Target, maxKeyLen: nat, k: Bytes, q: Bytes)
    requires !target.Portable? && 8 < maxKeyLen <= 16 && |k| == |q| <= maxKeyLen && k != []
    ensures !LengthInByte15(target, maxKeyLen) ==> (Padded(q, 16) == StoredRow(target, maxKeyLen, k) <==> q == k)
    ensures LengthInByte15(target, maxKeyLen) ==>
      && StoredRow(target, maxKeyLen, k)[15] == |k|
      && (Padded(q, 15) == StoredRow(target, maxKeyLen, k)[..15] <==> q == k)
  {
  }

  /** Every layout above four bytes, once the lengths agree. */
  lemma CompareKeyExact(t: ClassicTables, mem: Memory, p: nat, slot: nat, constant: bool, known: Known, k: Bytes)
    requires WellFormed(t) && slot < t.hash.m && ValidView(mem, p, |k|) && 4 < t.maxKeyLen
    requires Stored(t, slot, k)
    ensures CompareKey(t, mem, p, |k|, slot, constant, known) <==> Load(mem, p, |k|) == k
  {
    var q := Load(mem, p, |k|);
    if k != [] && !constant && !(t.target.Portable? && t.maxKeyLen > 8) {
      assert mem.mapped(p / BLOCK);
      if t.maxKeyLen <= 8 {
        CompareWordExact(t, mem, p, slot, known, k);
      } else if t.maxKeyLen <= 16 {
        RowExact(t.target, t.maxKeyLen, k, q);
      } else {
        assert t.data[slot] == Padded(k, |t.data[slot]|);
      }
    } else {
      assert t.data[slot][..|k|] == k;
    }
  }

  lemma LowBits(len: nat)
    ensures len <= 15 ==> len % 16 == len
    ensures len <= 16 ==> len % 32 == len
  {
  }

  lemma ShortWordExact(t: ClassicTables, mem: Memory, p: nat, len: nat, slot: nat, k: Bytes)
    requires WellFormed(t) && slot < t.hash.m && ValidView(mem, p, len) && len > 0
    requires t.target == Neon(true) && 4 < t.maxKeyLen <= 8 && Stored(t, slot, k)
    ensures ShortKeyMatches(t, mem, p, len, slot) <==> Load(mem, p, len) == k
  {
    hide LittleEndian, StoredRow;
    LowBits(len);
    if |k| == len {
      PackedWordDecides(t.maxKeyLen, k, Load(mem, p, len));
    }
  }

  lemma ShortRowExact(t: ClassicTables, mem: Memory, p: nat, len: nat, slot: nat, k: Bytes)
    requires WellFormed(t) && slot < t.hash.m && ValidView(mem, p, len) && len > 0
    requires t.target == Neon(true) && 8 < t.maxKeyLen <= 16 && Stored(t, slot, k)
    ensures ShortKeyMatches(t, mem, p, len, slot) <==> Load(mem, p, len) == k
  {
    assert t.maxKeyLen <= 15 ==> t.data[slot][15] == |k|;
    hide LittleEndian, StoredRow, PackedWord;
    LowBits(len);
    if |k| == len {
      RowExact(t.target, t.maxKeyLen, k, Load(mem, p, len));
    }
  }

  /** At any slot, on every target, a non-empty query of any length and at any address is accepted exactly when it
      is the key stored there; at an empty slot, never. */
  lemma KeyMatchesExact(t: ClassicTables, mem: Memory, p: nat, len: nat, slot: nat, constant: bool, known: Known,
      k: Bytes)
    requires WellFormed(t) && slot < t.hash.m && ValidView(mem, p, len) && len > 0
    requires Stored(t, slot, k)
    ensures KeyMatches(t, mem, p, len, slot, constant, known) <==> Load(mem, p, len) == k
  {
    hide CompareKey, ShortKeyMatches, MatchKey, StoredRow, PackedWord;
    if t.maxKeyLen <= 4 {
      MatchKeyExact(t, mem, p, len, slot, constant, k);
    } else if t.target == Neon(true) && t.maxKeyLen <= 16 && !constant {
      if t.maxKeyLen <= 8 { ShortWordExact(t, mem, p, len, slot, k); } else { ShortRowExact(t, mem, p, len, slot, k); }
    } else if |k| == len {
      CompareKeyExact(t, mem, p, slot, constant, known, k);
    }
  }
}
