/** The two fallback generators: one displacement per bucket of keys, over a few fixed bytes of each key
    (hash-and-displace) or over a seeded hash of the whole key. */
module Displacement {
  import opened Wrappers
  import opened Words
  import opened Numbers
  import opened Mixing
  import opened BucketSort
  import opened SlotTable
  import opened Positions
  import opened Ranking
  import opened Greedy
  import opened WidePlacement

  // ---------------------------------------------------------------- hash-and-displace: features of a key

  /** First byte, last byte and length, mixed into a bucket number. */
  function BucketHash(key: Bytes): Byte {
    var c0 := if key == [] then 0 else key[0];
    var c1 := if key == [] then 0 else key[|key| - 1];
    ((c0 + c1 * 3 + |key| * 17) % TWO_TO_THE_64) % 256
  }

  /** The byte at idx, or 0 past the end; some byte of the key is read in either case. */
  function SafeByte(key: Bytes, idx: nat): (c: Byte)
    requires key != []
    ensures c == ByteAt(key, idx)
  {
    var has := idx < |key|;
    var c := key[if has then idx else 0];
    if has then c else 0
  }

  /** The polynomial of the length and the first `rounds` bytes. It reads the first byte without looking at the
      length, so it is undefined for the empty key. */
  function KeyHash(key: Bytes, rounds: nat): (h: nat)
    requires key != []
    ensures h < TWO_TO_THE_64
  {
    if rounds == 0 then |key| % TWO_TO_THE_64
    else (KeyHash(key, rounds - 1) * 31 + SafeByte(key, rounds - 1)) % TWO_TO_THE_64
  }

  // ---------------------------------------------------------------- seeded hash of the whole key

  const GOLDEN: nat := 0x9E3779B97F4A7C15

  /** The running hash after n 8-byte chunks. */
  function FoldChunks(key: Bytes, seed: nat, n: nat): (h: nat)
    requires seed < TWO_TO_THE_64
    ensures h < TWO_TO_THE_64
  {
    if n == 0 then
      Xor64(seed, Times(GOLDEN, |key| + 1));
      Xor(seed, Times(GOLDEN, |key| + 1))
    else
      var mixed := Times(Xor(FoldChunks(key, seed, n - 1), LittleEndian(Window(key, 8 * (n - 1), 8))), GOLDEN);
      Xor64(mixed, ShiftRight(mixed, 32));
      Xor(mixed, ShiftRight(mixed, 32))
  }

  function FullHash(key: Bytes, seed: nat): (h: nat)
    requires seed < TWO_TO_THE_64
    ensures h < TWO_TO_THE_64
  {
    var y := Avalanche(FoldChunks(key, seed, (|key| + 7) / 8), 33, 0xFF51AFD7ED558CCD);
    var z := Avalanche(y, 33, 0xC4CEB9FE1A85EC53);
    Xor64(z, ShiftRight(z, 33));
    Xor(z, ShiftRight(z, 33))
  }

  /** One chunk. Constant evaluation assembles it byte by byte; at run time a whole chunk is one load, and only a
      partial one is assembled. */
  method LoadChunk(key: Bytes, j: nat, constant: bool) returns (c: nat)
    ensures c == LittleEndian(Window(key, 8 * j, 8))
  {
    if !constant && 8 * j + 8 <= |key| {
      assert key[8 * j..8 * j + 8] == Window(key, 8 * j, 8);
      return LittleEndian(key[8 * j..8 * j + 8]);
    }
    c := AssembleLane(key, j);
  }

  /** Both forms of the hash compute the same value. */
  method ComputeFullHash(key: Bytes, seed: nat, constant: bool) returns (h: nat)
    requires seed < TWO_TO_THE_64
    ensures h == FullHash(key, seed)
  {
    hide Xor, Times, ShiftRight, Avalanche, LittleEndian, Window;
    h := Xor(seed, Times(GOLDEN, |key| + 1));
    var j := 0;
    while 8 * j < |key|
      invariant 8 * j < |key| + 8 && h == FoldChunks(key, seed, j)
    {
      var c := LoadChunk(key, j, constant);
      h := Times(Xor(h, c), GOLDEN);
      h := Xor(h, ShiftRight(h, 32));
      j := j + 1;
    }
    h := Avalanche(h, 33, 0xFF51AFD7ED558CCD);
    h := Avalanche(h, 33, 0xC4CEB9FE1A85EC53);
    h := Xor(h, ShiftRight(h, 33));
  }

  // ---------------------------------------------------------------- slots

  /** Where a hash goes at displacement d; the addition wraps at 64 bits. */
  function SlotAt(h: nat, d: nat, m: nat): (s: nat)
    requires m > 0
    ensures s < m
  {
    ((d + h) % TWO_TO_THE_64) % m
  }

  /** Where the listed keys go at displacement d. */
  function SlotsFor(hash: seq<nat>, keys: seq<nat>, d: nat, m: nat): (slots: seq<nat>)
    requires m > 0 && forall x: nat | x < |keys| :: keys[x] < |hash|
    ensures |slots| == |keys| && forall x: nat | x < |keys| :: slots[x] == SlotAt(hash[keys[x]], d, m)
  {
    seq(|keys|, x requires 0 <= x < |keys| => SlotAt(hash[keys[x]], d, m))
  }

  /** Where every key goes: its hash displaced by the displacement of its bucket. */
  function DisplacedSlots(bucket: seq<nat>, hash: seq<nat>, disp: seq<nat>, m: nat): (slots: seq<nat>)
    requires m > 0 && |bucket| == |hash| && forall i: nat | i < |bucket| :: bucket[i] < |disp|
    ensures |slots| == |hash| && forall i: nat | i < |hash| :: slots[i] == SlotAt(hash[i], disp[bucket[i]], m)
  {
    seq(|hash|, i requires 0 <= i < |hash| => SlotAt(hash[i], disp[bucket[i]], m))
  }

  /** The residues that decide whether two hashes can be told apart. */
  function Residues(hash: seq<nat>, m: nat): (base: seq<nat>)
    requires m > 0
    ensures |base| == |hash| && forall i: nat | i < |hash| :: base[i] == hash[i] % m < m
  {
    seq(|hash|, i requires 0 <= i < |hash| => hash[i] % m)
  }

  /** Table sizes that divide 2^64, as all powers of two up to it do. */
  ghost predicate DividesWord(m: nat) {
    m > 0 && exists k: nat :: k > 0 && k * m == TWO_TO_THE_64
  }

  lemma Pow2DividesWord(j: nat)
    requires j <= 64
    ensures DividesWord(Pow2(j))
  {
    Pow2Of64();
    Pow2Add(64 - j, j);
    assert Pow2(64 - j) * Pow2(j) == TWO_TO_THE_64;
  }

  /** For such sizes the wrap-around is invisible: a slot depends on the hash's residue only. */
  lemma WrapIsInvisible(h: nat, d: nat, m: nat)
    requires DividesWord(m)
    ensures SlotAt(h, d, m) == (h % m + d) % m
  {
    var k: nat :| k > 0 && k * m == TWO_TO_THE_64;
    ModOfMod(d + h, m, k);
    ModAbsorb(h, d, m);
  }

  lemma SlotsAreBaseSlots(bucket: seq<nat>, hash: seq<nat>, disp: seq<nat>, m: nat)
    requires DividesWord(m) && |bucket| == |hash| && forall i: nat | i < |bucket| :: bucket[i] < |disp|
    ensures DisplacedSlots(bucket, hash, disp, m) == Slots(bucket, Residues(hash, m), m, disp)
  {
    forall i: nat | i < |hash|
      ensures DisplacedSlots(bucket, hash, disp, m)[i] == Slots(bucket, Residues(hash, m), m, disp)[i]
    {
      WrapIsInvisible(hash[i], disp[bucket[i]], m);
    }
  }

  lemma SlotsForAreSlotsAt(hash: seq<nat>, keys: seq<nat>, d: nat, m: nat)
    requires DividesWord(m) && forall x: nat | x < |keys| :: keys[x] < |hash|
    ensures SlotsFor(hash, keys, d, m) == SlotsAt(BasesOf(Residues(hash, m), keys), d, m)
  {
    forall x: nat | x < |keys|
      ensures SlotsFor(hash, keys, d, m)[x] == SlotsAt(BasesOf(Residues(hash, m), keys), d, m)[x]
    {
      WrapIsInvisible(hash[keys[x]], d, m);
    }
  }

  // ---------------------------------------------------------------- keys without a hash

  /** A hash need not be defined for every key. Of a list of keys: those before the first without one. */
  ghost function ReadablePart(readable: seq<bool>, keys: seq<nat>): (r: seq<nat>)
    requires forall x: nat | x < |keys| :: keys[x] < |readable|
    ensures |r| <= |keys| && r == keys[..|r|]
    ensures forall x: nat | x < |r| :: readable[keys[x]]
    ensures |r| < |keys| ==> !readable[keys[|r|]]
  {
    if keys == [] || !readable[keys[0]] then [] else [keys[0]] + ReadablePart(readable, keys[1..])
  }

  /** Of the keys of a bucket. */
  ghost function ReadableKeys(bucket: seq<nat>, readable: seq<bool>, ch: nat): (r: seq<nat>)
    requires |bucket| == |readable|
    ensures |r| <= |KeysOf(bucket, ch)| && r == KeysOf(bucket, ch)[..|r|]
    ensures forall x: nat | x < |r| :: r[x] < |bucket| && readable[r[x]] && bucket[r[x]] == ch
  {
    KeysOfMembers(bucket, ch);
    ReadablePart(readable, KeysOf(bucket, ch))
  }

  /** Some key of the bucket has no hash. */
  ghost predicate HasUnreadable(bucket: seq<nat>, readable: seq<bool>, ch: nat)
    requires |bucket| == |readable|
  {
    ReadableKeys(bucket, readable, ch) != KeysOf(bucket, ch)
  }

  lemma UnreadableMember(bucket: seq<nat>, readable: seq<bool>, ch: nat)
    requires |bucket| == |readable| && HasUnreadable(bucket, readable, ch)
    ensures exists i: nat :: i < |bucket| && !readable[i]
  {
    KeysOfMembers(bucket, ch);
    hide KeysOf;
    var r, keys := ReadablePart(readable, KeysOf(bucket, ch)), KeysOf(bucket, ch);
    assert |r| < |keys| && !readable[keys[|r|]];
  }

  lemma NoUnreadableMember(bucket: seq<nat>, readable: seq<bool>, i: nat)
    requires |bucket| == |readable| && i < |bucket| && !HasUnreadable(bucket, readable, bucket[i])
    ensures readable[i]
  {
    KeysOfMembers(bucket, bucket[i]);
    hide KeysOf;
    var x: nat :| x < |KeysOf(bucket, bucket[i])| && KeysOf(bucket, bucket[i])[x] == i;
    assert ReadableKeys(bucket, readable, bucket[i])[x] == i;
  }

  function AllReadable(n: nat): (readable: seq<bool>)
    ensures |readable| == n && forall i: nat | i < n :: readable[i]
  {
    seq(n, _ => true)
  }

  /** Two keys of one bucket have hashes that are congruent. */
  ghost predicate CongruentPair(bucket: seq<nat>, hash: seq<nat>, readable: seq<bool>, m: nat)
    requires m > 0 && |bucket| == |hash| == |readable|
  {
    exists i: nat, j: nat :: i < j < |bucket| && readable[i] && readable[j] && bucket[i] == bucket[j]
      && hash[i] % m == hash[j] % m
  }

  lemma DeadPairIsCongruent(bucket: seq<nat>, hash: seq<nat>, m: nat)
    requires m > 0 && |bucket| == |hash|
    ensures DeadPair(bucket, Residues(hash, m)) <==> CongruentPair(bucket, hash, AllReadable(|bucket|), m)
  {
    var base := Residues(hash, m);
    forall i: nat, j: nat | i < j < |bucket| ensures base[i] == base[j] <==> hash[i] % m == hash[j] % m {}
    if DeadPair(bucket, base) {
      var i: nat, j: nat :| i < j < |bucket| && bucket[i] == bucket[j] && base[i] == base[j];
      assert AllReadable(|bucket|)[i] && AllReadable(|bucket|)[j];
    }
  }

  /** Two congruent keys in one bucket: no displacements at all make a perfect table. */
  lemma CongruentPairIsHopeless(bucket: seq<nat>, hash: seq<nat>, disp: seq<nat>, m: nat, table: seq<nat>)
    requires DividesWord(m) && |bucket| == |hash| && forall i: nat | i < |bucket| :: bucket[i] < |disp|
    requires DeadPair(bucket, Residues(hash, m))
    ensures !Perfect(DisplacedSlots(bucket, hash, disp, m), table)
  {
    SlotsAreBaseSlots(bucket, hash, disp, m);
    DeadPairIsHopeless(bucket, Residues(hash, m), m, disp, table);
  }

  /** Without such a pair the search's collision check inside a bucket never fires. */
  lemma BucketCheckIsRedundant(bucket: seq<nat>, hash: seq<nat>, readable: seq<bool>, m: nat, b: nat, d: nat)
    requires DividesWord(m) && |bucket| == |hash| == |readable| && !CongruentPair(bucket, hash, readable, m)
    ensures Distinct(SlotsFor(hash, ReadableKeys(bucket, readable, b), d, m))
  {
    KeysOfMembers(bucket, b);
    var keys := ReadableKeys(bucket, readable, b);
    hide KeysOf, ReadableKeys;
    forall x: nat, y: nat | x < y < |keys| ensures SlotAt(hash[keys[x]], d, m) != SlotAt(hash[keys[y]], d, m) {
      assert keys[x] == KeysOf(bucket, b)[x] < KeysOf(bucket, b)[y] == keys[y];
      assert hash[keys[x]] % m != hash[keys[y]] % m;
      WrapIsInvisible(hash[keys[x]], d, m);
      WrapIsInvisible(hash[keys[y]], d, m);
      hide SlotAt;
      if (hash[keys[x]] % m + d) % m == (hash[keys[y]] % m + d) % m {
        DisplacementInjective(hash[keys[x]] % m, hash[keys[y]] % m, d, m);
      }
    }
  }

  // ---------------------------------------------------------------- buckets, largest first

  /** The buckets that have keys, in the order in which they come up. */
  ghost function FirstSeen(bucket: seq<nat>): (chs: seq<nat>) {
    if bucket == [] then []
    else
      var n := |bucket| - 1;
      var before := FirstSeen(bucket[..n]);
      if bucket[n] in before then before else before + [bucket[n]]
  }

  lemma FirstSeenStep(bucket: seq<nat>, i: nat)
    requires i < |bucket|
    ensures FirstSeen(bucket[..i + 1]) ==
      if bucket[i] in FirstSeen(bucket[..i]) then FirstSeen(bucket[..i]) else FirstSeen(bucket[..i]) + [bucket[i]]
  {
    assert bucket[..i + 1][..i] == bucket[..i];
  }

  /** Each bucket that has keys comes up once. */
  lemma {:induction false} FirstSeenMembers(bucket: seq<nat>)
    ensures Distinct(FirstSeen(bucket))
    ensures forall b: nat :: b in FirstSeen(bucket) <==> KeysOf(bucket, b) != []
  {
    if bucket != [] {
      FirstSeenMembers(bucket[..|bucket| - 1]);
    }
  }

  /** They come up in the order of their first keys. */
  lemma {:induction false} FirstSeenInOrder(bucket: seq<nat>)
    ensures forall b: nat :: b in FirstSeen(bucket) <==> KeysOf(bucket, b) != []
    ensures forall x: nat, y: nat | x < y < |FirstSeen(bucket)| ::
      KeysOf(bucket, FirstSeen(bucket)[x])[0] < KeysOf(bucket, FirstSeen(bucket)[y])[0]
  {
    FirstSeenMembers(bucket);
    if bucket != [] {
      var n := |bucket| - 1;
      var front := bucket[..n];
      FirstSeenInOrder(front);
      FirstSeenMembers(front);
      FirstSeenStep(bucket, n);
      assert bucket[..n + 1] == bucket;
      var before, after := FirstSeen(front), FirstSeen(bucket);
      hide FirstSeen, Distinct;
      forall x: nat, y: nat | x < y < |after| ensures KeysOf(bucket, after[x])[0] < KeysOf(bucket, after[y])[0] {
        FirstKeyStays(bucket, n, after[x]);
        FirstKeyStays(bucket, n, after[y]);
        assert after[x] in before && after[x] == before[x];
        KeysOfMembers(front, after[x]);
        if y < |before| { assert after[y] in before && after[y] == before[y]; }
      }
    }
  }

  lemma FirstKeyStays(bucket: seq<nat>, n: nat, b: nat)
    requires n + 1 == |bucket|
    ensures KeysOf(bucket[..n], b) != [] ==>
      KeysOf(bucket, b) != [] && KeysOf(bucket, b)[0] == KeysOf(bucket[..n], b)[0]
    ensures KeysOf(bucket[..n], b) == [] && bucket[n] == b ==> KeysOf(bucket, b) == [n]
  {
    KeysOfStep(bucket, n, b);
    assert bucket[..n + 1] == bucket;
  }

  ghost function KeyCount(bucket: seq<nat>): nat -> nat {
    b => |KeysOf(bucket, b)|
  }

  /** The buckets met so far, each with the number of its keys. */
  ghost predicate Grouped(bucket: seq<nat>, chs: seq<nat>, counts: seq<nat>) {
    chs == FirstSeen(bucket) && Weighed(chs, counts, KeyCount(bucket))
  }

  /** One more key: its bucket is counted up, or listed for the first time. */
  method AddToBucket(chs: seq<nat>, counts: seq<nat>, bucket: seq<nat>, i: nat)
    returns (chs': seq<nat>, counts': seq<nat>)
    requires i < |bucket| && Grouped(bucket[..i], chs, counts)
    ensures Grouped(bucket[..i + 1], chs', counts')
  {
    hide FirstSeen, KeysOf;
    for b := 0 to |chs|
      invariant bucket[i] !in chs[..b]
    {
      if chs[b] == bucket[i] {
        chs', counts' := chs, counts[b := counts[b] + 1];
        CountedUp(chs, counts, bucket, i, b);
        return;
      }
    }
    assert chs[..|chs|] == chs;
    chs', counts' := chs + [bucket[i]], counts + [1];
    ListedFirst(chs, counts, bucket, i);
  }

  lemma CountedUp(chs: seq<nat>, counts: seq<nat>, bucket: seq<nat>, i: nat, b: nat)
    requires i < |bucket| && Grouped(bucket[..i], chs, counts) && b < |chs| && chs[b] == bucket[i]
    ensures |counts| == |chs| && Grouped(bucket[..i + 1], chs, counts[b := counts[b] + 1])
  {
    FirstSeenStep(bucket, i);
    FirstSeenMembers(bucket[..i]);
    hide FirstSeen;
    forall x: nat | x < |chs| ensures counts[b := counts[b] + 1][x] == KeyCount(bucket[..i + 1])(chs[x]) {
      KeysOfStep(bucket, i, chs[x]);
      assert counts[x] == KeyCount(bucket[..i])(chs[x]);
    }
  }

  lemma ListedFirst(chs: seq<nat>, counts: seq<nat>, bucket: seq<nat>, i: nat)
    requires i < |bucket| && Grouped(bucket[..i], chs, counts) && bucket[i] !in chs
    ensures Grouped(bucket[..i + 1], chs + [bucket[i]], counts + [1])
  {
    FirstSeenStep(bucket, i);
    FirstSeenMembers(bucket[..i]);
    hide FirstSeen;
    var chs' := chs + [bucket[i]];
    forall x: nat | x < |chs'| ensures (counts + [1])[x] == KeyCount(bucket[..i + 1])(chs'[x]) {
      KeysOfStep(bucket, i, chs'[x]);
      assert x < |chs| ==> counts[x] == KeyCount(bucket[..i])(chs[x]);
    }
  }

  /** The buckets that have keys, largest first. */
  ghost predicate BucketOrder(bucket: seq<nat>, chs: seq<nat>) {
    && Distinct(chs) && (forall i: nat | i < |bucket| :: bucket[i] in chs)
    && (forall x: nat | x < |chs| :: KeysOf(bucket, chs[x]) != [])
    && (forall x: nat, y: nat | x < y < |chs| :: |KeysOf(bucket, chs[x])| >= |KeysOf(bucket, chs[y])|)
  }

  /** The order in which buckets are placed: those of equal size stay as the sort leaves them. */
  ghost function DisplacementOrder(bucket: seq<nat>): (chs: seq<nat>)
    requires forall i: nat | i < |bucket| :: bucket[i] < 256
    ensures BucketOrder(bucket, chs) && forall x: nat | x < |chs| :: chs[x] < 256
  {
    SortedIsOrder(bucket);
    ExchangeSorted(FirstSeen(bucket), KeyCount(bucket))
  }

  /** A list of the buckets met, heaviest first, in any arrangement of the list of first appearances. */
  ghost predicate OfFirstSeen(bucket: seq<nat>, chs: seq<nat>) {
    && Distinct(chs) && (forall b: nat :: b in chs <==> KeysOf(bucket, b) != [])
    && SortedUpTo(chs, KeyCount(bucket), |chs|)
  }

  lemma SortedIsOrder(bucket: seq<nat>)
    requires forall i: nat | i < |bucket| :: bucket[i] < 256
    ensures var chs := ExchangeSorted(FirstSeen(bucket), KeyCount(bucket));
      BucketOrder(bucket, chs) && forall x: nat | x < |chs| :: chs[x] < 256
  {
    var chs := ExchangeSorted(FirstSeen(bucket), KeyCount(bucket));
    FirstSeenMembers(bucket);
    ExchangeSortedSorts(FirstSeen(bucket), KeyCount(bucket));
    Rearranged(FirstSeen(bucket), chs);
    hide KeysOf, FirstSeen, ExchangeSorted, SortedUpTo, Distinct, BucketOrder;
    OrderOfFirstSeen(bucket, chs);
  }

  lemma OrderOfFirstSeen(bucket: seq<nat>, chs: seq<nat>)
    requires OfFirstSeen(bucket, chs) && forall i: nat | i < |bucket| :: bucket[i] < 256
    ensures BucketOrder(bucket, chs) && forall x: nat | x < |chs| :: chs[x] < 256
  {
    hide KeysOf, Distinct;
    forall i: nat | i < |bucket| ensures bucket[i] in chs {
      KeysOfMembers(bucket, bucket[i]);
    }
    forall x: nat | x < |chs| ensures KeysOf(bucket, chs[x]) != [] && chs[x] < 256 {
      assert chs[x] in chs;
      KeysOfMembers(bucket, chs[x]);
      assert bucket[KeysOf(bucket, chs[x])[0]] == chs[x];
    }
    forall x: nat, y: nat | x < y < |chs| ensures |KeysOf(bucket, chs[x])| >= |KeysOf(bucket, chs[y])| {
      assert KeyCount(bucket)(chs[x]) >= KeyCount(bucket)(chs[y]);
    }
  }

  method OrderBuckets(bucket: seq<nat>) returns (chs: seq<nat>)
    requires forall i: nat | i < |bucket| :: bucket[i] < 256
    ensures chs == DisplacementOrder(bucket)
  {
    var listed, counts := [], [];
    for i := 0 to |bucket|
      invariant Grouped(bucket[..i], listed, counts)
    {
      listed, counts := AddToBucket(listed, counts, bucket, i);
    }
    assert bucket[..|bucket|] == bucket;
    var sorted := new nat[|listed|](x requires 0 <= x < |listed| => listed[x]);
    var weights := new nat[|counts|](x requires 0 <= x < |counts| => counts[x]);
    assert sorted[..] == listed && weights[..] == counts;
    ExchangeSort(sorted, weights, listed, KeyCount(bucket));
    chs := sorted[..];
  }

  // ---------------------------------------------------------------- placing one bucket

  /** The keys of one bucket, collected by a scan over all of them. */
  method CollectKeys(bucket: seq<nat>, ch: nat) returns (keys: seq<nat>)
    ensures keys == KeysOf(bucket, ch)
  {
    keys := [];
    for i := 0 to |bucket|
      invariant keys == KeysOf(bucket[..i], ch)
    {
      KeysOfStep(bucket, i, ch);
      if bucket[i] == ch { keys := keys + [i]; }
    }
    assert bucket[..|bucket|] == bucket;
  }

  /** Different slots, all of them empty. */
  ghost predicate Free(slots: seq<nat>, table: seq<nat>, empty: nat) {
    Distinct(slots) && forall x: nat | x < |slots| :: slots[x] < |table| && table[slots[x]] == empty
  }

  datatype Probe = Clear | Blocked | Unreadable

  /** Tries one displacement, key by key. A key without a hash leaves it undefined, but only once it is come to. */
  method CheckDisplacement(hash: seq<nat>, readable: seq<bool>, keys: seq<nat>, d: nat, m: nat, table: array<nat>,
                           empty: nat) returns (r: Probe, slots: seq<nat>)
    requires 0 < m == table.Length && |readable| == |hash| && forall x: nat | x < |keys| :: keys[x] < |hash|
    ensures r.Blocked? <==> !Free(SlotsFor(hash, ReadablePart(readable, keys), d, m), table[..], empty)
    ensures r.Unreadable? ==> ReadablePart(readable, keys) != keys
    ensures r.Clear? ==> ReadablePart(readable, keys) == keys && slots == SlotsFor(hash, keys, d, m)
  {
    ghost var part := ReadablePart(readable, keys);
    ghost var all := SlotsFor(hash, part, d, m);
    hide ReadablePart;
    slots := [];
    for k := 0 to |keys|
      invariant k <= |part| && slots == all[..k] && Free(slots, table[..], empty)
    {
      if !readable[keys[k]] {
        assert all[..k] == all;
        return Unreadable, slots;
      }
      var slot := SlotAt(hash[keys[k]], d, m);
      assert slot == all[k];
      if table[slot] != empty {
        assert table[..][all[k]] != empty;
        return Blocked, slots;
      }
      for k2 := 0 to k
        invariant forall x: nat | x < k2 :: slots[x] != slot
      {
        if slots[k2] == slot {
          assert all[k2] == all[k];
          return Blocked, slots;
        }
      }
      slots := slots + [slot];
    }
    r := Clear;
  }

  /** The first displacement below the limit at which the keys that have a hash find free slots; undefined where a key
      without one comes after them. */
  method FindDisplacement(hash: seq<nat>, readable: seq<bool>, keys: seq<nat>, limit: nat, m: nat, table: array<nat>,
                          empty: nat) returns (r: Option<nat>, slots: seq<nat>, undefined: bool)
    requires 0 < m == table.Length && |readable| == |hash| && forall x: nat | x < |keys| :: keys[x] < |hash|
    ensures r.Some? ==>
      r.value < limit && Free(SlotsFor(hash, ReadablePart(readable, keys), r.value, m), table[..], empty)
    ensures undefined <==> r.Some? && ReadablePart(readable, keys) != keys
    ensures r.Some? && !undefined ==> slots == SlotsFor(hash, keys, r.value, m)
    ensures forall e: nat | e < (if r.Some? then r.value else limit) ::
      !Free(SlotsFor(hash, ReadablePart(readable, keys), e, m), table[..], empty)
  {
    hide ReadablePart, Free;
    slots := [];
    for d := 0 to limit
      invariant forall e: nat | e < d :: !Free(SlotsFor(hash, ReadablePart(readable, keys), e, m), table[..], empty)
    {
      var probe;
      probe, slots := CheckDisplacement(hash, readable, keys, d, m, table, empty);
      if !probe.Blocked? {
        return Some(d), slots, probe.Unreadable?;
      }
    }
    r, undefined := None, false;
  }

  method WriteKeys(keys: seq<nat>, slots: seq<nat>, table: array<nat>)
    requires |keys| == |slots| && Distinct(slots) && forall x: nat | x < |slots| :: slots[x] < table.Length
    modifies table
    ensures Written(keys, slots, old(table[..]), table[..])
  {
    for x := 0 to |keys|
      invariant forall y: nat | y < x :: table[slots[y]] == keys[y]
      invariant forall s: nat | s < table.Length && s !in slots :: table[s] == old(table[s])
    {
      table[slots[x]] := keys[x];
    }
  }

  // ---------------------------------------------------------------- placing all buckets

  /** Hashes and buckets of all keys, and which keys have a hash; a bucket number is a byte. */
  ghost predicate Hashed(bucket: seq<nat>, hash: seq<nat>, readable: seq<bool>) {
    |bucket| == |hash| == |readable| && forall i: nat | i < |bucket| :: bucket[i] < 256
  }

  /** Where the keys of bucket ch go at each displacement, up to the first without a hash. */
  ghost function DisplacementRow(bucket: seq<nat>, hash: seq<nat>, readable: seq<bool>, m: nat, limit: nat, ch: nat)
    : (row: seq<seq<nat>>)
    requires m > 0 && |bucket| == |hash| == |readable|
    ensures |row| == limit
    ensures forall d: nat | d < limit :: row[d] == SlotsFor(hash, ReadableKeys(bucket, readable, ch), d, m)
  {
    seq(limit, d requires 0 <= d < limit => SlotsFor(hash, ReadableKeys(bucket, readable, ch), d, m))
  }

  ghost function DisplacementChoices(bucket: seq<nat>, hash: seq<nat>, readable: seq<bool>, m: nat, limit: nat)
    : (choices: Choices)
    requires m > 0 && |bucket| == |hash| == |readable|
    ensures |choices| == 256
    ensures forall ch: nat | ch < 256 :: choices[ch] == DisplacementRow(bucket, hash, readable, m, limit, ch)
  {
    seq(256, ch requires 0 <= ch < 256 => DisplacementRow(bucket, hash, readable, m, limit, ch))
  }

  /** The placement after its first b buckets. */
  ghost function Displacing(bucket: seq<nat>, hash: seq<nat>, readable: seq<bool>, m: nat, limit: nat, b: nat)
    : Option<seq<nat>>
    requires m > 0 && Hashed(bucket, hash, readable) && b <= |DisplacementOrder(bucket)|
  {
    Run(DisplacementChoices(bucket, hash, readable, m, limit), DisplacementOrder(bucket), true, b)
  }

  /** The placement comes to a key without a hash: the buckets before its own are placed, and at some displacement the
      keys before it in its own find free slots. */
  ghost predicate ComesToUnreadable(bucket: seq<nat>, hash: seq<nat>, readable: seq<bool>, m: nat, limit: nat)
    requires m > 0 && Hashed(bucket, hash, readable)
  {
    exists b: nat :: b < |DisplacementOrder(bucket)| && HasUnreadable(bucket, readable, DisplacementOrder(bucket)[b])
      && Displacing(bucket, hash, readable, m, limit, b + 1).Some?
  }

  /** Largest bucket first and each at its least displacement, the placement comes to a bucket for which none of
      the first `limit` displacements works, and not to a key without a hash before. */
  ghost predicate PlacementFails(bucket: seq<nat>, hash: seq<nat>, readable: seq<bool>, m: nat, limit: nat)
    requires m > 0 && Hashed(bucket, hash, readable)
  {
    && !ComesToUnreadable(bucket, hash, readable, m, limit)
    && Displacing(bucket, hash, readable, m, limit, |DisplacementOrder(bucket)|).None?
  }

  /** Whatever stands in for the missing hashes is not looked at. */
  lemma MissingHashesDoNotMatter(bucket: seq<nat>, hash: seq<nat>, hash': seq<nat>, readable: seq<bool>, m: nat,
                                 limit: nat)
    requires m > 0 && Hashed(bucket, hash, readable) && |hash'| == |hash|
    requires forall i: nat | i < |hash| && readable[i] :: hash'[i] == hash[i]
    ensures PlacementFails(bucket, hash', readable, m, limit) <==> PlacementFails(bucket, hash, readable, m, limit)
    ensures ComesToUnreadable(bucket, hash', readable, m, limit) <==>
      ComesToUnreadable(bucket, hash, readable, m, limit)
  {
    var choices, choices' := DisplacementChoices(bucket, hash, readable, m, limit),
                             DisplacementChoices(bucket, hash', readable, m, limit);
    hide DisplacementChoices, ReadableKeys, KeysOf, SlotAt;
    forall ch: nat | ch < 256 ensures choices[ch] == choices'[ch] {
      forall d: nat | d < limit ensures choices[ch][d] == choices'[ch][d] {
        assert SlotsFor(hash, ReadableKeys(bucket, readable, ch), d, m)
            == SlotsFor(hash', ReadableKeys(bucket, readable, ch), d, m);
      }
      assert choices[ch] == choices'[ch];
    }
    assert choices == choices';
    hide Run, DisplacementOrder;
  }

  lemma ReadableIsNeverMissed(bucket: seq<nat>, hash: seq<nat>, readable: seq<bool>, m: nat, limit: nat)
    requires m > 0 && Hashed(bucket, hash, readable) && forall i: nat | i < |readable| :: readable[i]
    ensures !ComesToUnreadable(bucket, hash, readable, m, limit)
  {
    hide Displacing, DisplacementOrder, HasUnreadable;
    forall b: nat | b < |DisplacementOrder(bucket)|
      ensures !HasUnreadable(bucket, readable, DisplacementOrder(bucket)[b])
    {
      if HasUnreadable(bucket, readable, DisplacementOrder(bucket)[b]) {
        UnreadableMember(bucket, readable, DisplacementOrder(bucket)[b]);
      }
    }
  }

  /** Without a congruent pair the placement fails only on a bucket whose size times the keys before it is at least
      the number of displacements tried. */
  lemma PlacementFailureMeans(bucket: seq<nat>, hash: seq<nat>, readable: seq<bool>, m: nat, limit: nat)
    requires DividesWord(m) && limit <= m && Hashed(bucket, hash, readable)
    requires PlacementFails(bucket, hash, readable, m, limit) && !CongruentPair(bucket, hash, readable, m)
    ensures exists bi: nat :: StuckBucket(bucket, limit, DisplacementOrder(bucket), bi)
  {
    var choices, order := DisplacementChoices(bucket, hash, readable, m, limit), DisplacementOrder(bucket);
    var bi, disps := FailureIsStuck(choices, order, true, |order|);
    hide KeysOf, Taken, Run, Distinct, KeysIn, CongruentPair, ReadableKeys;
    TakenBound(bucket, choices, order, disps);
    NoneGoodIsStuck(bucket, hash, readable, m, limit, order, bi, Taken(choices, order, disps));
  }

  lemma NoneGoodIsStuck(bucket: seq<nat>, hash: seq<nat>, readable: seq<bool>, m: nat, limit: nat, order: seq<nat>,
                        bi: nat, taken: set<nat>)
    requires DividesWord(m) && limit <= m && |bucket| == |hash| == |readable|
    requires !CongruentPair(bucket, hash, readable, m)
    requires bi < |order| && |taken| <= |KeysIn(bucket, order[..bi])|
    requires forall d: nat | d < limit ::
      !Good(DisplacementRow(bucket, hash, readable, m, limit, order[bi])[d], taken, true)
    ensures StuckBucket(bucket, limit, order, bi)
  {
    hide KeysOf, KeysIn, CongruentPair, Fits, ReadableKeys;
    var keys := ReadableKeys(bucket, readable, order[bi]);
    var row := DisplacementRow(bucket, hash, readable, m, limit, order[bi]);
    forall d: nat | d < limit ensures !Fits(SlotsAt(BasesOf(Residues(hash, m), keys), d, m), taken) {
      assert !Good(row[d], taken, true);
      BucketCheckIsRedundant(bucket, hash, readable, m, order[bi], d);
      SlotsForAreSlotsAt(hash, keys, d, m);
    }
    hide DisplacementRow, Good;
    NoFitIsStuck(bucket, keys, Residues(hash, m), m, limit, order, bi, taken);
  }

  /** Mid-search: exactly the keys of the buckets listed are in the table. */
  ghost predicate Placing(bucket: seq<nat>, hash: seq<nat>, m: nat, placed: seq<nat>, disp: seq<nat>, table: seq<nat>)
    requires m > 0 && |bucket| == |hash| && forall i: nat | i < |bucket| :: bucket[i] < 256
  {
    && |disp| == 256 && |table| == m
    && Holds(DisplacedSlots(bucket, hash, disp, m), KeysIn(bucket, placed), m, table)
  }

  /** Putting down one more bucket on free slots. */
  lemma PlacedKeepsHolds(bucket: seq<nat>, hash: seq<nat>, m: nat, placed: seq<nat>, disp: seq<nat>, ch: nat, d: nat,
                         table: seq<nat>, table': seq<nat>)
    requires m > 0 && |bucket| == |hash| && forall i: nat | i < |bucket| :: bucket[i] < 256
    requires Placing(bucket, hash, m, placed, disp, table) && ch < 256 && ch !in placed
    requires forall x: nat | x < |KeysOf(bucket, ch)| :: KeysOf(bucket, ch)[x] < |hash|
    requires Free(SlotsFor(hash, KeysOf(bucket, ch), d, m), table, |bucket|)
    requires Written(KeysOf(bucket, ch), SlotsFor(hash, KeysOf(bucket, ch), d, m), table, table')
    ensures Placing(bucket, hash, m, placed + [ch], disp[ch := d], table')
  {
    KeysOfMembers(bucket, ch);
    var keys, slots := KeysOf(bucket, ch), SlotsFor(hash, KeysOf(bucket, ch), d, m);
    hide KeysOf, Distinct;
    WrittenKeepsHolds(DisplacedSlots(bucket, hash, disp, m), DisplacedSlots(bucket, hash, disp[ch := d], m),
                      KeysIn(bucket, placed), keys, slots, m, table, table');
    assert KeysIn(bucket, placed + [ch]) == KeysIn(bucket, placed) + Elements(keys);
  }

  /** Free slots are good beside the slots in use. */
  lemma FreeIsGood(slots: seq<nat>, table: seq<nat>, empty: nat)
    requires forall x: nat | x < |slots| :: slots[x] < |table|
    ensures Free(slots, table, empty) <==> Good(slots, UsedSlots(table, empty), true)
  {
    if Free(slots, table, empty) {
      assert Fits(slots, UsedSlots(table, empty));
    } else if Distinct(slots) {
      var x: nat :| x < |slots| && table[slots[x]] != empty;
      assert slots[x] in UsedSlots(table, empty);
    }
  }

  /** Mid-search, the displacements: each the least that works, and together they use the slots in use. */
  ghost predicate LeastSoFar(bucket: seq<nat>, hash: seq<nat>, readable: seq<bool>, m: nat, limit: nat,
                             disps: seq<nat>, disp: seq<nat>, used: set<nat>)
    requires m > 0 && Hashed(bucket, hash, readable)
  {
    && |disps| <= |DisplacementOrder(bucket)| && Displacing(bucket, hash, readable, m, limit, |disps|) == Some(disps)
    && used == Taken(DisplacementChoices(bucket, hash, readable, m, limit), DisplacementOrder(bucket), disps)
    && Recorded(DisplacementOrder(bucket), disps, disp)
  }

  /** One more bucket at its least displacement. */
  lemma LeastGoesOn(bucket: seq<nat>, hash: seq<nat>, readable: seq<bool>, m: nat, limit: nat, disps: seq<nat>,
                    disp: seq<nat>, d: nat, table: seq<nat>, ch: nat)
    requires m > 0 && Hashed(bucket, hash, readable) && |table| == m && |disps| < |DisplacementOrder(bucket)|
    requires ch == DisplacementOrder(bucket)[|disps|] < |disp| && d < limit
    requires LeastSoFar(bucket, hash, readable, m, limit, disps, disp, UsedSlots(table, |bucket|))
    requires Free(SlotsFor(hash, ReadableKeys(bucket, readable, ch), d, m), table, |bucket|)
    requires forall e: nat | e < d :: !Free(SlotsFor(hash, ReadableKeys(bucket, readable, ch), e, m), table, |bucket|)
    ensures LeastSoFar(bucket, hash, readable, m, limit, disps + [d], disp[ch := d],
      UsedSlots(table, |bucket|) + Elements(SlotsFor(hash, ReadableKeys(bucket, readable, ch), d, m)))
  {
    var choices, order := DisplacementChoices(bucket, hash, readable, m, limit), DisplacementOrder(bucket);
    assert |choices| == 256 && choices[ch] == DisplacementRow(bucket, hash, readable, m, limit, ch);
    assert Distinct(order);
    hide KeysOf, Taken, Run, Distinct, DisplacementOrder, Good, Free, UsedSlots, ReadableKeys;
    forall e: nat | e <= d
      ensures Good(choices[ch][e], UsedSlots(table, |bucket|), true) <==>
        Free(SlotsFor(hash, ReadableKeys(bucket, readable, ch), e, m), table, |bucket|)
    {
      FreeIsGood(SlotsFor(hash, ReadableKeys(bucket, readable, ch), e, m), table, |bucket|);
    }
    RunGoesOn(choices, order, true, |disps|, disps, d);
    NewPilotRecorded(order, disps, d, disp);
  }

  /** A bucket without a displacement ends the placement. */
  lemma NoneFreeIsFailure(bucket: seq<nat>, hash: seq<nat>, readable: seq<bool>, m: nat, limit: nat, disps: seq<nat>,
                          disp: seq<nat>, table: seq<nat>, ch: nat)
    requires m > 0 && Hashed(bucket, hash, readable) && |table| == m && |disps| < |DisplacementOrder(bucket)|
    requires ch == DisplacementOrder(bucket)[|disps|]
    requires LeastSoFar(bucket, hash, readable, m, limit, disps, disp, UsedSlots(table, |bucket|))
    requires AllHashed(bucket, readable, |disps|)
    requires forall e: nat | e < limit ::
      !Free(SlotsFor(hash, ReadableKeys(bucket, readable, ch), e, m), table, |bucket|)
    ensures PlacementFails(bucket, hash, readable, m, limit)
  {
    var choices, order := DisplacementChoices(bucket, hash, readable, m, limit), DisplacementOrder(bucket);
    assert |choices| == 256 && choices[ch] == DisplacementRow(bucket, hash, readable, m, limit, ch);
    hide KeysOf, Taken, Run, DisplacementOrder, Good, Free, UsedSlots, ReadableKeys, HasUnreadable;
    forall e: nat | e < limit ensures !Good(choices[ch][e], UsedSlots(table, |bucket|), true) {
      FreeIsGood(SlotsFor(hash, ReadableKeys(bucket, readable, ch), e, m), table, |bucket|);
    }
    StuckEndsIt(choices, order, true, |disps|, disps);
  }

  /** No key of the first b buckets lacks a hash. */
  ghost predicate AllHashed(bucket: seq<nat>, readable: seq<bool>, b: nat)
    requires |bucket| == |readable| && forall i: nat | i < |bucket| :: bucket[i] < 256
  {
    && b <= |DisplacementOrder(bucket)|
    && forall j: nat | j < b :: !HasUnreadable(bucket, readable, DisplacementOrder(bucket)[j])
  }

  /** Every displacement is the least that works, in the order of placement. */
  ghost predicate LeastDisplacements(bucket: seq<nat>, hash: seq<nat>, readable: seq<bool>, m: nat, limit: nat,
                                     disp: seq<nat>)
    requires m > 0 && Hashed(bucket, hash, readable)
  {
    var run := Displacing(bucket, hash, readable, m, limit, |DisplacementOrder(bucket)|);
    run.Some? && Recorded(DisplacementOrder(bucket), run.value, disp)
  }

  datatype Outcome = Placed | Failed | Undefined

  /** Largest bucket first, each at the first displacement below the limit that works. */
  method TryPlacement(bucket: seq<nat>, hash: seq<nat>, readable: seq<bool>, chs: seq<nat>, m: nat, limit: nat)
    returns (r: Outcome, disp: array<nat>, table: array<nat>)
    requires m > 0 && limit <= 256 && Hashed(bucket, hash, readable) && chs == DisplacementOrder(bucket)
    ensures fresh(table) && table.Length == m && disp.Length == 256
    ensures r.Failed? <==> PlacementFails(bucket, hash, readable, m, limit)
    ensures r.Undefined? <==> ComesToUnreadable(bucket, hash, readable, m, limit)
    ensures r.Placed? ==> Perfect(DisplacedSlots(bucket, hash, disp[..], m), table[..])
    ensures r.Placed? ==> LeastDisplacements(bucket, hash, readable, m, limit, disp[..])
    ensures r.Placed? ==> forall i: nat | i < |bucket| :: readable[i]
    ensures forall c: nat | c < 256 :: disp[c] < 256
  {
    hide Placing, LeastSoFar, Perfect, PlacementFails, LeastDisplacements, KeysOf, DisplacedSlots, SlotsFor, Distinct,
      Free, UsedSlots, DisplacementOrder, ComesToUnreadable, AllHashed, ReadablePart, ReadableKeys;
    table := new nat[m](_ => |bucket|);
    disp := new nat[256](_ => 0);
    ghost var disps: seq<nat> := [];
    NothingPlaced(bucket, hash, readable, m, limit, disp[..], table[..]);
    for b := 0 to |chs|
      invariant disp != table && fresh(table) && fresh(disp) && |disps| == b
      invariant Placing(bucket, hash, m, chs[..b], disp[..], table[..]) && AllHashed(bucket, readable, b)
      invariant LeastSoFar(bucket, hash, readable, m, limit, disps, disp[..], UsedSlots(table[..], |bucket|))
      invariant forall c: nat | c < 256 :: disp[c] < 256
    {
      var ch := chs[b];
      NextBucket(bucket, chs, b);
      var keys := CollectKeys(bucket, ch);
      KeysOfMembers(bucket, ch);
      ReadableOfBucket(bucket, readable, ch);
      var d, slots, undefined := FindDisplacement(hash, readable, keys, limit, m, table, |bucket|);
      ghost var disp0, table0 := disp[..], table[..];
      if d.None? {
        NoneFreeIsFailure(bucket, hash, readable, m, limit, disps, disp0, table0, ch);
        FailedIsNotUndefined(bucket, hash, readable, m, limit);
        return Failed, disp, table;
      }
      LeastGoesOn(bucket, hash, readable, m, limit, disps, disp0, d.value, table0, ch);
      if undefined {
        UnreadableIsComeTo(bucket, hash, readable, m, limit, disps + [d.value], disp0[ch := d.value],
          UsedSlots(table0, |bucket|) + Elements(SlotsFor(hash, ReadableKeys(bucket, readable, ch), d.value, m)));
        FailedIsNotUndefined(bucket, hash, readable, m, limit);
        return Undefined, disp, table;
      }
      OneMoreHashed(bucket, readable, b);
      disp[ch] := d.value;
      assert disp[..] == disp0[ch := d.value];
      FreeAreDistinct(slots, table0, |bucket|);
      WriteKeys(keys, slots, table);
      PlacedKeepsHolds(bucket, hash, m, chs[..b], disp0, ch, d.value, table0, table[..]);
      WritingTakesSlots(keys, slots, |bucket|, table0, table[..]);
      disps := disps + [d.value];
    }
    assert chs[..|chs|] == chs;
    AllPlaced(bucket, hash, m, chs, disp[..], table[..]);
    RunIsComplete(bucket, hash, readable, m, limit, disps, disp[..], UsedSlots(table[..], |bucket|));
    r := Placed;
  }

  lemma ReadableOfBucket(bucket: seq<nat>, readable: seq<bool>, ch: nat)
    requires |bucket| == |readable|
    ensures forall x: nat | x < |KeysOf(bucket, ch)| :: KeysOf(bucket, ch)[x] < |readable|
    ensures ReadableKeys(bucket, readable, ch) == ReadablePart(readable, KeysOf(bucket, ch))
  {
    KeysOfMembers(bucket, ch);
  }

  lemma FailedIsNotUndefined(bucket: seq<nat>, hash: seq<nat>, readable: seq<bool>, m: nat, limit: nat)
    requires m > 0 && Hashed(bucket, hash, readable)
    ensures !(PlacementFails(bucket, hash, readable, m, limit) && ComesToUnreadable(bucket, hash, readable, m, limit))
  {
  }

  lemma UnreadableIsComeTo(bucket: seq<nat>, hash: seq<nat>, readable: seq<bool>, m: nat, limit: nat,
                           disps: seq<nat>, disp: seq<nat>, used: set<nat>)
    requires m > 0 && Hashed(bucket, hash, readable)
    requires LeastSoFar(bucket, hash, readable, m, limit, disps, disp, used) && disps != []
    requires HasUnreadable(bucket, readable, DisplacementOrder(bucket)[|disps| - 1])
    ensures ComesToUnreadable(bucket, hash, readable, m, limit)
  {
    hide Displacing, DisplacementOrder, HasUnreadable;
    var b := |disps| - 1;
    assert Displacing(bucket, hash, readable, m, limit, b + 1).Some?;
  }

  lemma OneMoreHashed(bucket: seq<nat>, readable: seq<bool>, b: nat)
    requires |bucket| == |readable| && forall i: nat | i < |bucket| :: bucket[i] < 256
    requires AllHashed(bucket, readable, b) && b < |DisplacementOrder(bucket)|
    requires !HasUnreadable(bucket, readable, DisplacementOrder(bucket)[b])
    ensures AllHashed(bucket, readable, b + 1)
  {
    hide DisplacementOrder, HasUnreadable;
  }

  lemma FreeAreDistinct(slots: seq<nat>, table: seq<nat>, empty: nat)
    requires Free(slots, table, empty)
    ensures Distinct(slots) && forall x: nat | x < |slots| :: slots[x] < |table|
  {
  }

  lemma WritingTakesSlots(keys: seq<nat>, slots: seq<nat>, n: nat, table: seq<nat>, table': seq<nat>)
    requires Written(keys, slots, table, table')
    requires forall x: nat | x < |keys| :: keys[x] < n
    ensures UsedSlots(table', n) == UsedSlots(table, n) + Elements(slots)
  {
    assert table[..|table|] == table && table'[..|table|] == table';
    TakenStaysExact(keys, slots, n, |table|, table, table');
  }

  lemma RunIsComplete(bucket: seq<nat>, hash: seq<nat>, readable: seq<bool>, m: nat, limit: nat, disps: seq<nat>,
                      disp: seq<nat>, used: set<nat>)
    requires m > 0 && Hashed(bucket, hash, readable)
    requires LeastSoFar(bucket, hash, readable, m, limit, disps, disp, used)
    requires |disps| == |DisplacementOrder(bucket)| && AllHashed(bucket, readable, |disps|)
    ensures !PlacementFails(bucket, hash, readable, m, limit) && !ComesToUnreadable(bucket, hash, readable, m, limit)
    ensures LeastDisplacements(bucket, hash, readable, m, limit, disp)
    ensures forall i: nat | i < |bucket| :: readable[i]
  {
    assert BucketOrder(bucket, DisplacementOrder(bucket));
    hide Displacing, DisplacementOrder, HasUnreadable;
    forall i: nat | i < |bucket| ensures readable[i] {
      assert bucket[i] in DisplacementOrder(bucket);
      NoUnreadableMember(bucket, readable, i);
    }
  }

  lemma NextBucket(bucket: seq<nat>, chs: seq<nat>, b: nat)
    requires BucketOrder(bucket, chs) && (forall i: nat | i < |bucket| :: bucket[i] < 256) && b < |chs|
    ensures chs[b] !in chs[..b] && chs[..b] + [chs[b]] == chs[..b + 1]
    ensures KeysOf(bucket, chs[b]) != [] && chs[b] < 256
  {
    KeysOfMembers(bucket, chs[b]);
    NextDistinct(chs, b);
    hide KeysOf, Distinct;
    assert bucket[KeysOf(bucket, chs[b])[0]] == chs[b];
  }

  lemma NothingPlaced(bucket: seq<nat>, hash: seq<nat>, readable: seq<bool>, m: nat, limit: nat, disp: seq<nat>,
                      table: seq<nat>)
    requires m > 0 && Hashed(bucket, hash, readable) && |disp| == 256 && |table| == m
    requires (forall s: nat | s < m :: table[s] == |bucket|) && forall c: nat | c < 256 :: disp[c] == 0
    ensures Placing(bucket, hash, m, DisplacementOrder(bucket)[..0], disp, table)
    ensures LeastSoFar(bucket, hash, readable, m, limit, [], disp, UsedSlots(table, |bucket|))
    ensures AllHashed(bucket, readable, 0)
  {
    hide DisplacementOrder;
  }

  lemma AllPlaced(bucket: seq<nat>, hash: seq<nat>, m: nat, chs: seq<nat>, disp: seq<nat>, table: seq<nat>)
    requires m > 0 && |bucket| == |hash| && forall i: nat | i < |bucket| :: bucket[i] < 256
    requires BucketOrder(bucket, chs) && Placing(bucket, hash, m, chs, disp, table)
    ensures Perfect(DisplacedSlots(bucket, hash, disp, m), table)
  {
    FullTableIsPerfect(DisplacedSlots(bucket, hash, disp, m), KeysIn(bucket, chs), m, table);
  }

  // ---------------------------------------------------------------- hash-and-displace

  function BucketHashes(keys: seq<Bytes>): (bucket: seq<nat>)
    ensures |bucket| == |keys| && forall i: nat | i < |keys| :: bucket[i] == BucketHash(keys[i]) < 256
  {
    seq(|keys|, i requires 0 <= i < |keys| => BucketHash(keys[i]))
  }

  /** The empty key has no hash; the zero in its place is never looked at. */
  function KeyHashes(keys: seq<Bytes>, rounds: nat): (hash: seq<nat>)
    ensures |hash| == |keys|
    ensures forall i: nat | i < |keys| && keys[i] != [] :: hash[i] == KeyHash(keys[i], rounds)
  {
    seq(|keys|, i requires 0 <= i < |keys| => if keys[i] == [] then 0 else KeyHash(keys[i], rounds))
  }

  function NonEmpty(keys: seq<Bytes>): (readable: seq<bool>)
    ensures |readable| == |keys| && forall i: nat | i < |keys| :: readable[i] <==> keys[i] != []
  {
    seq(|keys|, i requires 0 <= i < |keys| => keys[i] != [])
  }

  /** Either the lengths alone are the slots, or the displaced key hashes are. */
  datatype HdPlan =
    | ByLength(slotToKey: seq<nat>)
    | ByFeatures(rounds: nat, disp: seq<nat>, slotToKey: seq<nat>)

  datatype HdFailure = NothingFits | ReadsEmptyKey

  /** The plan sends every key to its own slot, with displacements that fit a byte. */
  ghost predicate HdFits(plan: HdPlan, keys: seq<Bytes>, m: nat) {
    && m > 0 && |plan.slotToKey| == m
    && match plan
       case ByLength(table) => Perfect(LengthSlots(keys, m), table)
       case ByFeatures(rounds, disp, table) =>
         && (rounds == 2 || rounds == 4) && [] !in keys
         && |disp| == 256 && (forall c: nat | c < 256 :: disp[c] < 256)
         && Perfect(DisplacedSlots(BucketHashes(keys), KeyHashes(keys, rounds), disp, m), table)
  }

  function HdLimit(m: nat): nat {
    if m < 255 then m else 255
  }

  /** With this many rounds the placement fails. */
  ghost predicate HdFails(keys: seq<Bytes>, m: nat, rounds: nat)
    requires m > 0
  {
    PlacementFails(BucketHashes(keys), KeyHashes(keys, rounds), NonEmpty(keys), m, HdLimit(m))
  }

  /** With this many rounds the placement comes to hash an empty key. */
  ghost predicate HdReadsEmpty(keys: seq<Bytes>, m: nat, rounds: nat)
    requires m > 0
  {
    ComesToUnreadable(BucketHashes(keys), KeyHashes(keys, rounds), NonEmpty(keys), m, HdLimit(m))
  }

  /** Two key hashes are congruent in one bucket, or a bucket is large beside those before it: nothing else makes
      this tier fail. */
  lemma HdFailureMeans(keys: seq<Bytes>, m: nat, rounds: nat)
    requires DividesWord(m) && HdFails(keys, m, rounds)
    ensures || CongruentPair(BucketHashes(keys), KeyHashes(keys, rounds), NonEmpty(keys), m)
            || exists bi: nat :: StuckBucket(BucketHashes(keys), HdLimit(m), DisplacementOrder(BucketHashes(keys)), bi)
  {
    hide CongruentPair, PlacementFails, StuckBucket, BucketHash, KeyHash, DisplacementOrder;
    var bucket, hash := BucketHashes(keys), KeyHashes(keys, rounds);
    if !CongruentPair(bucket, hash, NonEmpty(keys), m) {
      PlacementFailureMeans(bucket, hash, NonEmpty(keys), m, HdLimit(m));
    }
  }

  lemma ReadsOnlyIfPresent(keys: seq<Bytes>, m: nat, rounds: nat)
    requires m > 0 && HdReadsEmpty(keys, m, rounds)
    ensures [] in keys
  {
    hide ComesToUnreadable, BucketHash, KeyHash;
    if [] !in keys {
      forall i: nat | i < |keys| ensures NonEmpty(keys)[i] { assert keys[i] in keys; }
      ReadableIsNeverMissed(BucketHashes(keys), KeyHashes(keys, rounds), NonEmpty(keys), m, HdLimit(m));
    }
  }

  /** Placement with one of the two key hashes; the final count of filled slots always comes out right. */
  method TryRounds(keys: seq<Bytes>, chs: seq<nat>, m: nat, rounds: nat) returns (r: Result<HdPlan, HdFailure>)
    requires m > 0 && (rounds == 2 || rounds == 4) && chs == DisplacementOrder(BucketHashes(keys))
    ensures r.Ok? ==> r.value.ByFeatures? && r.value.rounds == rounds && HdFits(r.value, keys, m)
    ensures r == Err(NothingFits) <==> HdFails(keys, m, rounds)
    ensures r == Err(ReadsEmptyKey) <==> HdReadsEmpty(keys, m, rounds)
  {
    hide Perfect, PlacementFails, LeastDisplacements, DisplacementOrder, DisplacedSlots, KeyHash, BucketHash,
      ComesToUnreadable;
    var bucket, hash := BucketHashes(keys), KeyHashes(keys, rounds);
    var outcome, disp, table := TryPlacement(bucket, hash, NonEmpty(keys), chs, m, HdLimit(m));
    if outcome.Undefined? {
      FailedIsNotUndefined(bucket, hash, NonEmpty(keys), m, HdLimit(m));
      return Err(ReadsEmptyKey);
    }
    if outcome.Failed? {
      return Err(NothingFits);
    }
    var filled := CountFilled(table, |keys|);
    PerfectTable(DisplacedSlots(bucket, hash, disp[..], m), table[..]);
    if filled != |keys| {
      assert false;
      return Err(NothingFits);
    }
    r := Ok(ByFeatures(rounds, disp[..], table[..]));
  }

  /** The lengths do not suffice, and neither key hash can be placed. */
  ghost predicate HdHopeless(keys: seq<Bytes>, m: nat) {
    m > 0 && !Distinguishes(keys, [], m) && HdFails(keys, m, 2) && HdFails(keys, m, 4)
  }

  /** The lengths do not suffice, and the first placement that does not fail comes to an empty key. */
  ghost predicate HdUndefined(keys: seq<Bytes>, m: nat) {
    && m > 0 && !Distinguishes(keys, [], m)
    && (HdReadsEmpty(keys, m, 2) || (HdFails(keys, m, 2) && HdReadsEmpty(keys, m, 4)))
  }

  /** try_hash_and_displace. Keys whose lengths differ modulo m need no hash; otherwise the light key hash is tried
      before the strong one. Either is undefined if it comes to an empty key. */
  method TryHashAndDisplace(keys: seq<Bytes>, m: nat) returns (r: Result<HdPlan, HdFailure>)
    requires m > 0
    ensures r.Ok? ==> HdFits(r.value, keys, m)
    ensures Distinguishes(keys, [], m) <==> r.Ok? && r.value.ByLength?
    ensures r == Err(ReadsEmptyKey) <==> HdUndefined(keys, m)
    ensures r == Err(ReadsEmptyKey) ==> [] in keys
    ensures r.Ok? && r.value.ByFeatures? ==> (r.value.rounds == 4 <==> HdFails(keys, m, 2))
    ensures r == Err(NothingFits) <==> HdHopeless(keys, m)
  {
    hide Perfect, Distinguishes, HdFails, HdReadsEmpty, DisplacementOrder, BucketHash;
    var none := new nat[0];
    var byLength := PositionsDistinguish(keys, none, 0, m);
    assert none[..0] == [];
    if byLength {
      LengthsAloneDistinguish(keys, m);
      var ok, table := BuildTable(LengthSlots(keys, m), m);
      assert ok;
      return Ok(ByLength(table[..]));
    }
    var chs := OrderBuckets(BucketHashes(keys));
    r := TryRounds(keys, chs, m, 2);
    if r == Err(NothingFits) {
      r := TryRounds(keys, chs, m, 4);
      if r == Err(ReadsEmptyKey) { ReadsOnlyIfPresent(keys, m, 4); }
    } else if r == Err(ReadsEmptyKey) {
      ReadsOnlyIfPresent(keys, m, 2);
    }
  }

  // ---------------------------------------------------------------- seeded hash of the whole key

  const MAX_SEEDS: nat := 512

  function SeededHashes(keys: seq<Bytes>, seed: nat): (hash: seq<nat>)
    requires seed < TWO_TO_THE_64
    ensures |hash| == |keys| && forall i: nat | i < |keys| :: hash[i] == FullHash(keys[i], seed)
  {
    seq(|keys|, i requires 0 <= i < |keys| => FullHash(keys[i], seed))
  }

  /** Bits 48 to 55 of a hash. */
  function SeededBucket(h: nat): (b: nat)
    ensures b < 256
  {
    ShiftRight(h, 48) % 256
  }

  function SeededBuckets(hash: seq<nat>): (bucket: seq<nat>)
    ensures |bucket| == |hash| && forall i: nat | i < |hash| :: bucket[i] == SeededBucket(hash[i])
  {
    seq(|hash|, i requires 0 <= i < |hash| => SeededBucket(hash[i]))
  }

  datatype SeededPlan = SeededPlan(seed: nat, disp: seq<nat>, slotToKey: seq<nat>)

  ghost predicate SeededFits(plan: SeededPlan, keys: seq<Bytes>, m: nat) {
    && m > 0 && |plan.slotToKey| == m && plan.seed < MAX_SEEDS
    && |plan.disp| == 256 && (forall c: nat | c < 256 :: plan.disp[c] < 256)
    && var hash := SeededHashes(keys, plan.seed);
       Perfect(DisplacedSlots(SeededBuckets(hash), hash, plan.disp, m), plan.slotToKey)
  }

  function SeededLimit(m: nat): nat {
    if m < 256 then m else 256
  }

  /** What it is for a seed to fail: two hashes are congruent in one bucket, or the placement fails. */
  ghost predicate SeedFails(keys: seq<Bytes>, m: nat, seed: nat)
    requires m > 0 && seed < TWO_TO_THE_64
  {
    var hash := SeededHashes(keys, seed);
    || DeadPair(SeededBuckets(hash), Residues(hash, m))
    || PlacementFails(SeededBuckets(hash), hash, AllReadable(|hash|), m, SeededLimit(m))
  }

  /** A seed without a congruent pair fails only on a bucket that is large beside those before it. */
  lemma SeedFailureMeans(keys: seq<Bytes>, m: nat, seed: nat)
    requires DividesWord(m) && seed < TWO_TO_THE_64 && SeedFails(keys, m, seed)
    ensures var hash := SeededHashes(keys, seed);
      || DeadPair(SeededBuckets(hash), Residues(hash, m))
      || exists bi: nat :: StuckBucket(SeededBuckets(hash), SeededLimit(m), DisplacementOrder(SeededBuckets(hash)), bi)
  {
    hide DeadPair, CongruentPair, PlacementFails, StuckBucket, SeededBucket, FullHash, DisplacementOrder;
    var hash := SeededHashes(keys, seed);
    if !DeadPair(SeededBuckets(hash), Residues(hash, m)) {
      DeadPairIsCongruent(SeededBuckets(hash), hash, m);
      PlacementFailureMeans(SeededBuckets(hash), hash, AllReadable(|hash|), m, SeededLimit(m));
    }
  }

  /** The pre-check over all pairs. */
  method FindCongruentPair(bucket: seq<nat>, hash: seq<nat>, m: nat) returns (dead: bool)
    requires m > 0 && |bucket| == |hash|
    ensures dead <==> DeadPair(bucket, Residues(hash, m))
  {
    var base := Residues(hash, m);
    for i := 0 to |bucket|
      invariant forall a: nat, b: nat | a < b < |bucket| && a < i && bucket[a] == bucket[b] :: base[a] != base[b]
    {
      for j := i + 1 to |bucket|
        invariant forall b: nat | i < b < j && bucket[i] == bucket[b] :: base[i] != base[b]
      {
        if bucket[i] == bucket[j] && base[i] == base[j] {
          return true;
        }
      }
    }
    dead := false;
  }

  /** One seed. */
  method TrySeed(keys: seq<Bytes>, m: nat, seed: nat) returns (r: Option<SeededPlan>)
    requires m > 0 && seed < MAX_SEEDS
    ensures r.Some? ==> r.value.seed == seed && SeededFits(r.value, keys, m)
    ensures r.None? <==> SeedFails(keys, m, seed)
  {
    hide Perfect, PlacementFails, LeastDisplacements, DeadPair, DisplacementOrder, DisplacedSlots, SeededHashes,
      SeededBuckets, ComesToUnreadable;
    var hash := SeededHashes(keys, seed);
    var bucket := SeededBuckets(hash);
    var dead := FindCongruentPair(bucket, hash, m);
    if dead {
      return None;
    }
    var chs := OrderBuckets(bucket);
    ReadableIsNeverMissed(bucket, hash, AllReadable(|hash|), m, SeededLimit(m));
    var outcome, disp, table := TryPlacement(bucket, hash, AllReadable(|hash|), chs, m, SeededLimit(m));
    if !outcome.Placed? {
      return None;
    }
    r := Some(SeededPlan(seed, disp[..], table[..]));
  }

  /** try_seeded_fullhash: the first of 512 seeds that works, if any does. */
  method TrySeededFullHash(keys: seq<Bytes>, m: nat) returns (r: Option<SeededPlan>)
    requires m > 0
    ensures r.Some? ==> SeededFits(r.value, keys, m)
    ensures r.Some? ==> !SeedFails(keys, m, r.value.seed)
    ensures r.None? <==> forall s: nat | s < 512 :: SeedFails(keys, m, s)
    ensures forall s: nat | s < (if r.Some? then r.value.seed else MAX_SEEDS) :: SeedFails(keys, m, s)
  {
    hide SeedFails, Perfect;
    for seed := 0 to MAX_SEEDS
      invariant forall s: nat | s < seed :: SeedFails(keys, m, s)
    {
      r := TrySeed(keys, m, seed);
      if r.Some? {
        return;
      }
    }
    r := None;
  }
}
