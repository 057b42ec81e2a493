/** What the hashes read. Each input of each hash matters: two keys, or two seeds, that differ in exactly one of them
    have different hashes. */
module HashInputs {
  import opened Words
  import opened Numbers
  import opened Mixing
  import opened BucketSort
  import opened WidePlacement
  import opened Displacement

  // ---------------------------------------------------------------- hash-and-displace

  function First(key: Bytes): Byte {
    if key == [] then 0 else key[0]
  }

  function Last(key: Bytes): Byte {
    if key == [] then 0 else key[|key| - 1]
  }

  /** The bucket hash without the wrap-around at 64 bits. */
  lemma BucketHashIs(key: Bytes)
    ensures BucketHash(key) == (First(key) + 3 * Last(key) + 17 * |key|) % 256
  {
    var k := 0x100_0000_0000_0000;
    assert k * 256 == TWO_TO_THE_64;
    ModOfMod(First(key) + Last(key) * 3 + |key| * 17, 256, k);
  }

  /** It reads the first byte, the last byte and the length: keys that differ in exactly one of them, modulo 256, are in
      different buckets. */
  lemma BucketHashReads(a: Bytes, b: Bytes)
    requires
      || (First(a) != First(b) && Last(a) == Last(b) && |a| % 256 == |b| % 256)
      || (First(a) == First(b) && Last(a) != Last(b) && |a| % 256 == |b| % 256)
      || (First(a) == First(b) && Last(a) == Last(b) && |a| % 256 != |b| % 256)
    ensures BucketHash(a) != BucketHash(b)
  {
    BucketHashIs(a);
    BucketHashIs(b);
    ReducedLength(First(a) + 3 * Last(a), |a|);
    ReducedLength(First(b) + 3 * Last(b), |b|);
    hide BucketHash;
    var s, t := First(a) + 3 * Last(a) + 17 * (|a| % 256), First(b) + 3 * Last(b) + 17 * (|b| % 256);
    if s % 256 == t % 256 {
      CongruentDifference(s, t, 256);
      Pow2Of8();
      if First(a) != First(b) {
        OddDifference(First(a), First(b), 1);
      } else if Last(a) != Last(b) {
        OddDifference(Last(a), Last(b), 3);
      } else {
        OddDifference(|a| % 256, |b| % 256, 17);
      }
    }
  }

  lemma ReducedLength(x: nat, len: nat)
    ensures (x + 17 * len) % 256 == (x + 17 * (len % 256)) % 256
  {
    assert len == 256 * (len / 256) + len % 256;
    assert x + 17 * len == x + 17 * (len % 256) + (17 * (len / 256)) * 256;
    ModShift(x + 17 * (len % 256), 17 * (len / 256), 256);
  }

  /** An odd multiple of a difference of bytes is no multiple of 256. */
  lemma OddDifference(x: Byte, y: Byte, k: nat)
    requires k % 2 == 1 && (k * x - k * y) % 256 == 0
    ensures x == y
  {
    Pow2Of8();
    assert k * x - k * y == (x - y) * k;
    OddFactor(x - y, k, 8);
    SmallDifference(x, y, 256);
  }

  /** The two key hashes as polynomials in 31: the length on top, then the first bytes in order. */
  lemma KeyHashIsPolynomial(key: Bytes)
    requires key != []
    ensures KeyHash(key, 2) == (961 * |key| + 31 * ByteAt(key, 0) + ByteAt(key, 1)) % TWO_TO_THE_64
    ensures KeyHash(key, 4) == (923521 * |key| + 29791 * ByteAt(key, 0) + 961 * ByteAt(key, 1) + 31 * ByteAt(key, 2)
      + ByteAt(key, 3)) % TWO_TO_THE_64
  {
    var x1 := 31 * |key| + ByteAt(key, 0);
    var x2 := 31 * x1 + ByteAt(key, 1);
    var x3 := 31 * x2 + ByteAt(key, 2);
    HornerStep(key, 0, |key|);
    HornerStep(key, 1, x1);
    HornerStep(key, 2, x2);
    HornerStep(key, 3, x3);
    hide KeyHash;
    FirstHash(key);
  }

  lemma FirstHash(key: Bytes)
    requires key != []
    ensures KeyHash(key, 0) == |key| % TWO_TO_THE_64
  {
  }

  lemma HornerStep(key: Bytes, r: nat, x: nat)
    requires key != []
    ensures KeyHash(key, r) == x % TWO_TO_THE_64 ==>
      KeyHash(key, r + 1) == (31 * x + ByteAt(key, r)) % TWO_TO_THE_64
  {
    NextRound(key, r);
    hide KeyHash;
    if KeyHash(key, r) == x % TWO_TO_THE_64 {
      var q := x / TWO_TO_THE_64;
      assert x == q * TWO_TO_THE_64 + x % TWO_TO_THE_64;
      assert 31 * x + ByteAt(key, r) == (x % TWO_TO_THE_64) * 31 + ByteAt(key, r) + (31 * q) * TWO_TO_THE_64;
      ModShift((x % TWO_TO_THE_64) * 31 + ByteAt(key, r), 31 * q, TWO_TO_THE_64);
    }
  }

  lemma NextRound(key: Bytes, r: nat)
    requires key != []
    ensures KeyHash(key, r + 1) == (KeyHash(key, r) * 31 + ByteAt(key, r)) % TWO_TO_THE_64
  {
  }

  /** A round loses neither what came before nor its byte. */
  lemma RoundInjective(h: nat, c: Byte, h': nat, c': Byte)
    requires h < TWO_TO_THE_64 && h' < TWO_TO_THE_64 && (h == h' || c == c')
    requires (h * 31 + c) % TWO_TO_THE_64 == (h' * 31 + c') % TWO_TO_THE_64
    ensures h == h' && c == c'
  {
    CongruentDifference(h * 31 + c, h' * 31 + c', TWO_TO_THE_64);
    if c == c' {
      Pow2Of64();
      hide Pow2;
      assert h * 31 + c - (h' * 31 + c') == (h - h') * 31;
      OddFactor(h - h', 31, 64);
      SmallDifference(h, h', TWO_TO_THE_64);
    } else {
      SmallDifference(c, c', TWO_TO_THE_64);
    }
  }

  /** Keys of one length with the same bytes so far have the same hash so far. */
  lemma {:induction false} SameRounds(a: Bytes, b: Bytes, r: nat)
    requires a != [] && b != [] && |a| == |b| && forall i: nat | i < r :: ByteAt(a, i) == ByteAt(b, i)
    ensures KeyHash(a, r) == KeyHash(b, r)
  {
    if r > 0 { SameRounds(a, b, r - 1); }
  }

  /** The key hash reads the length: keys with the same first bytes, zeros past the end included, but of different
      lengths. */
  lemma {:induction false} KeyHashReadsLength(a: Bytes, b: Bytes, rounds: nat)
    requires a != [] && b != [] && |a| < TWO_TO_THE_64 && |b| < TWO_TO_THE_64
    requires |a| != |b| && forall i: nat | i < rounds :: ByteAt(a, i) == ByteAt(b, i)
    ensures KeyHash(a, rounds) != KeyHash(b, rounds)
  {
    if rounds == 0 {
      ModUnique(|a|, 0, |a|, TWO_TO_THE_64);
      ModUnique(|b|, 0, |b|, TWO_TO_THE_64);
    } else {
      KeyHashReadsLength(a, b, rounds - 1);
      NextRound(a, rounds - 1);
      NextRound(b, rounds - 1);
      hide KeyHash;
      if KeyHash(a, rounds) == KeyHash(b, rounds) {
        RoundInjective(KeyHash(a, rounds - 1), ByteAt(a, rounds - 1), KeyHash(b, rounds - 1), ByteAt(b, rounds - 1));
      }
    }
  }

  /** And each of the first bytes: keys of one length that differ in exactly one of them. */
  lemma {:induction false} KeyHashReadsByte(a: Bytes, b: Bytes, rounds: nat, k: nat)
    requires a != [] && b != [] && |a| == |b| && k < rounds && ByteAt(a, k) != ByteAt(b, k)
    requires forall i: nat | i < rounds && i != k :: ByteAt(a, i) == ByteAt(b, i)
    ensures KeyHash(a, rounds) != KeyHash(b, rounds)
  {
    var r := rounds - 1;
    if k == r { SameRounds(a, b, r); } else { KeyHashReadsByte(a, b, r, k); }
    NextRound(a, r);
    NextRound(b, r);
    hide KeyHash;
    if KeyHash(a, rounds) == KeyHash(b, rounds) {
      RoundInjective(KeyHash(a, r), ByteAt(a, r), KeyHash(b, r), ByteAt(b, r));
    }
  }

  // ---------------------------------------------------------------- the seeded hash

  /** One chunk of a key, as a word. */
  function Chunk(key: Bytes, j: nat): (c: nat)
    ensures c < TWO_TO_THE_64
  {
    Pow2Of64();
    LittleEndianBound(Window(key, 8 * j, 8));
    LittleEndian(Window(key, 8 * j, 8))
  }

  lemma SameChunk(a: Bytes, b: Bytes, j: nat)
    ensures Chunk(a, j) == Chunk(b, j) <==> Window(a, 8 * j, 8) == Window(b, 8 * j, 8)
  {
    if Chunk(a, j) == Chunk(b, j) {
      LittleEndianInjective(Window(a, 8 * j, 8), Window(b, 8 * j, 8));
    }
  }

  /** What one chunk does to the running hash. */
  function Folded(h: nat, c: nat): nat {
    var mixed := Times(Xor(h, c), GOLDEN);
    Xor(mixed, ShiftRight(mixed, 32))
  }

  lemma NextFold(key: Bytes, seed: nat, n: nat)
    requires seed < TWO_TO_THE_64
    ensures FoldChunks(key, seed, n + 1) == Folded(FoldChunks(key, seed, n), Chunk(key, n))
  {
  }

  /** A chunk's step loses neither what came before nor the chunk. */
  lemma FoldInjective(h: nat, c: nat, h': nat, c': nat)
    requires h < TWO_TO_THE_64 && h' < TWO_TO_THE_64 && c < TWO_TO_THE_64 && c' < TWO_TO_THE_64
    requires (h == h' || c == c') && Folded(h, c) == Folded(h', c')
    ensures h == h' && c == c'
  {
    hide Xor, Times, ShiftRight;
    Xor64(h, c);
    Xor64(h', c');
    XorShiftInjective(Times(Xor(h, c), GOLDEN), Times(Xor(h', c'), GOLDEN), 32);
    TimesInjective(Xor(h, c), Xor(h', c'), GOLDEN);
    if c == c' {
      XorInjective(h, h', c);
    } else {
      XorCommutes(h, c);
      XorCommutes(h, c');
      XorInjective(c, c', h);
    }
  }

  lemma StartOfFold(key: Bytes, seed: nat)
    requires seed < TWO_TO_THE_64
    ensures FoldChunks(key, seed, 0) == Xor(seed, Times(|key| + 1, GOLDEN))
  {
    hide Xor;
    assert GOLDEN * (|key| + 1) == (|key| + 1) * GOLDEN;
  }

  /** The chunks are read in order: of keys of one length that agree in the first n, the first n steps are the same. */
  lemma {:induction false} SameFolds(a: Bytes, b: Bytes, seed: nat, n: nat)
    requires seed < TWO_TO_THE_64 && |a| == |b| && forall j: nat | j < n :: Chunk(a, j) == Chunk(b, j)
    ensures FoldChunks(a, seed, n) == FoldChunks(b, seed, n)
  {
    hide *;
    StartOfFold(a, seed);
    StartOfFold(b, seed);
    if n > 0 {
      SameFolds(a, b, seed, n - 1);
      NextFold(a, seed, n - 1);
      NextFold(b, seed, n - 1);
    }
  }

  /** A difference once made is not lost by equal chunks. */
  lemma {:induction false} FoldsKeepApart(a: Bytes, b: Bytes, s: nat, t: nat, k: nat, n: nat)
    requires s < TWO_TO_THE_64 && t < TWO_TO_THE_64 && k <= n && FoldChunks(a, s, k) != FoldChunks(b, t, k)
    requires forall j: nat | k <= j < n :: Chunk(a, j) == Chunk(b, j)
    ensures FoldChunks(a, s, n) != FoldChunks(b, t, n)
  {
    hide *;
    if k < n {
      FoldsKeepApart(a, b, s, t, k, n - 1);
      NextFold(a, s, n - 1);
      NextFold(b, t, n - 1);
      if FoldChunks(a, s, n) == FoldChunks(b, t, n) {
        FoldInjective(FoldChunks(a, s, n - 1), Chunk(a, n - 1), FoldChunks(b, t, n - 1), Chunk(b, n - 1));
      }
    }
  }

  /** The final mixing loses nothing either. */
  lemma FinalMixKeepsApart(a: Bytes, b: Bytes, s: nat, t: nat)
    requires s < TWO_TO_THE_64 && t < TWO_TO_THE_64
    requires FoldChunks(a, s, (|a| + 7) / 8) != FoldChunks(b, t, (|b| + 7) / 8)
    ensures FullHash(a, s) != FullHash(b, t)
  {
    var x, y := FoldChunks(a, s, (|a| + 7) / 8), FoldChunks(b, t, (|b| + 7) / 8);
    hide FoldChunks, Xor, Times, ShiftRight, Avalanche;
    if FullHash(a, s) == FullHash(b, t) {
      var x', y' := Avalanche(x, 33, 0xFF51AFD7ED558CCD), Avalanche(y, 33, 0xFF51AFD7ED558CCD);
      XorShiftInjective(Avalanche(x', 33, 0xC4CEB9FE1A85EC53), Avalanche(y', 33, 0xC4CEB9FE1A85EC53), 33);
      AvalancheInjective(x', y', 33, 0xC4CEB9FE1A85EC53);
      AvalancheInjective(x, y, 33, 0xFF51AFD7ED558CCD);
    }
  }

  /** The seed: one key has a different hash under every seed. */
  lemma FullHashReadsSeed(key: Bytes, s: nat, t: nat)
    requires s < TWO_TO_THE_64 && t < TWO_TO_THE_64 && s != t
    ensures FullHash(key, s) != FullHash(key, t)
  {
    hide FoldChunks, FullHash, Xor, Times, Chunk;
    StartOfFold(key, s);
    StartOfFold(key, t);
    if FoldChunks(key, s, 0) == FoldChunks(key, t, 0) {
      XorInjective(s, t, Times(|key| + 1, GOLDEN));
    }
    FoldsKeepApart(key, key, s, t, 0, (|key| + 7) / 8);
    FinalMixKeepsApart(key, key, s, t);
  }

  /** The length: keys with the same chunks, zeros past the end included, but of different lengths. */
  lemma FullHashReadsLength(a: Bytes, b: Bytes, seed: nat)
    requires seed < TWO_TO_THE_64 && |a| < TWO_TO_THE_64 && |b| < TWO_TO_THE_64
    requires |a| != |b| && (|a| + 7) / 8 == (|b| + 7) / 8
    requires forall j: nat | j < (|a| + 7) / 8 :: Chunk(a, j) == Chunk(b, j)
    ensures FullHash(a, seed) != FullHash(b, seed)
  {
    hide FoldChunks, FullHash, Xor, Times, Chunk;
    StartOfFold(a, seed);
    StartOfFold(b, seed);
    if FoldChunks(a, seed, 0) == FoldChunks(b, seed, 0) {
      XorCommutes(seed, Times(|a| + 1, GOLDEN));
      XorCommutes(seed, Times(|b| + 1, GOLDEN));
      XorInjective(Times(|a| + 1, GOLDEN), Times(|b| + 1, GOLDEN), seed);
      TimesInjective(|a| + 1, |b| + 1, GOLDEN);
    }
    FoldsKeepApart(a, b, seed, seed, 0, (|a| + 7) / 8);
    FinalMixKeepsApart(a, b, seed, seed);
  }

  /** And every chunk: keys of one length that differ in exactly one, under every seed. */
  lemma FullHashReadsChunk(a: Bytes, b: Bytes, seed: nat, k: nat)
    requires seed < TWO_TO_THE_64 && |a| == |b| && k < (|a| + 7) / 8 && Chunk(a, k) != Chunk(b, k)
    requires forall j: nat | j < (|a| + 7) / 8 && j != k :: Chunk(a, j) == Chunk(b, j)
    ensures FullHash(a, seed) != FullHash(b, seed)
  {
    hide FoldChunks, FullHash, Folded, Chunk;
    SameFolds(a, b, seed, k);
    NextFold(a, seed, k);
    NextFold(b, seed, k);
    if FoldChunks(a, seed, k + 1) == FoldChunks(b, seed, k + 1) {
      FoldInjective(FoldChunks(a, seed, k), Chunk(a, k), FoldChunks(b, seed, k), Chunk(b, k));
    }
    FoldsKeepApart(a, b, seed, seed, k + 1, (|a| + 7) / 8);
    FinalMixKeepsApart(a, b, seed, seed);
  }

  /** A word cut in three: the eight bits from bit 48 on are the bucket. */
  lemma SeededBucketIs(low: nat, b: nat, high: nat)
    requires low < Pow2(48) && b < 256
    ensures SeededBucket(Joined(low, 48, Joined(b, 8, high))) == b
  {
    Pow2Of8();
    hide Joined, ShiftRight, Pow2;
    JoinedParts(low, 48, Joined(b, 8, high));
    JoinedParts(b, 8, high);
  }

  // ---------------------------------------------------------------- keys in buckets of their own

  lemma SharedBucket(bucket: seq<nat>, b: nat)
    requires |KeysOf(bucket, b)| >= 2
    ensures !Distinct(bucket)
  {
    KeysOfMembers(bucket, b);
    hide KeysOf;
    var i, j := KeysOf(bucket, b)[0], KeysOf(bucket, b)[1];
    assert i < j < |bucket| && bucket[i] == bucket[j];
  }

  /** Keys each in a bucket of its own are always placed, given as many displacements as keys. */
  lemma SinglesAlwaysFit(bucket: seq<nat>, hash: seq<nat>, readable: seq<bool>, m: nat, limit: nat)
    requires DividesWord(m) && limit <= m && Hashed(bucket, hash, readable) && Distinct(bucket)
    requires 0 < |bucket| <= limit
    ensures !PlacementFails(bucket, hash, readable, m, limit)
  {
    hide PlacementFails, DisplacementOrder, StuckBucket;
    if PlacementFails(bucket, hash, readable, m, limit) {
      PlacementFailureMeans(bucket, hash, readable, m, limit);
      var order := DisplacementOrder(bucket);
      var bi: nat :| StuckBucket(bucket, limit, order, bi);
      SingletonsAreNeverStuck(bucket, limit, order, bi);
      StuckIsInOrder(bucket, limit, order, bi);
      SharedBucket(bucket, order[bi]);
    }
  }

  lemma StuckIsInOrder(bucket: seq<nat>, limit: nat, order: seq<nat>, bi: nat)
    requires StuckBucket(bucket, limit, order, bi)
    ensures bi < |order|
  {
  }

  /** So neither tier fails at a size that holds all keys where no two keys share a bucket. */
  lemma DifferentBucketsSuffice(keys: seq<Bytes>, m: nat, rounds: nat, seed: nat)
    requires DividesWord(m) && 0 < |keys| <= m && |keys| <= 255 && seed < TWO_TO_THE_64
    ensures Distinct(BucketHashes(keys)) ==> !HdFails(keys, m, rounds)
    ensures Distinct(SeededBuckets(SeededHashes(keys, seed))) ==> !SeedFails(keys, m, seed)
  {
    hide BucketHash, KeyHash, FullHash, SeededBucket, PlacementFails;
    if Distinct(BucketHashes(keys)) {
      SinglesAlwaysFit(BucketHashes(keys), KeyHashes(keys, rounds), NonEmpty(keys), m, HdLimit(m));
    }
    var hash := SeededHashes(keys, seed);
    if Distinct(SeededBuckets(hash)) {
      SinglesAlwaysFit(SeededBuckets(hash), hash, AllReadable(|hash|), m, SeededLimit(m));
    }
  }
}
