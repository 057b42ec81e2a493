/** The wide container's hash: key lanes, multipliers, and how a hash splits into bucket and base. */
module WideHash {
  import opened Words
  import opened Numbers
  import opened Mixing

  // ---------------------------------------------------------------- lanes

  /** 64-bit lanes hashed for keys of up to maxKeyLen bytes. */
  function LaneCount(maxKeyLen: nat): (l: nat)
    ensures 1 <= maxKeyLen ==> maxKeyLen <= 8 * l
    ensures l >= 1 || maxKeyLen == 0
  {
    if maxKeyLen <= 7 then 1
    else if maxKeyLen <= 15 then 2
    else ((maxKeyLen + 15) / 16) * 2
  }

  /** Short keys leave a byte free: the top byte of the last lane then carries the length. */
  predicate HasLengthLane(maxKeyLen: nat) {
    maxKeyLen <= 15
  }

  function LengthLane(maxKeyLen: nat): nat
    requires HasLengthLane(maxKeyLen)
  {
    if maxKeyLen <= 7 then 0 else 1
  }

  /** The byte of a lane row that carries the length. */
  function LengthByte(maxKeyLen: nat): nat
    requires HasLengthLane(maxKeyLen)
  {
    8 * LengthLane(maxKeyLen) + 7
  }

  /** The lane row of `bytes`, with `len` OR-ed into the length byte where there is one. */
  function LaneRow(maxKeyLen: nat, bytes: Bytes, len: nat): (row: Bytes)
    requires len < 256
    ensures |row| == 8 * LaneCount(maxKeyLen)
  {
    var row := Padded(bytes, 8 * LaneCount(maxKeyLen));
    if HasLengthLane(maxKeyLen) then
      OrBound8(row[LengthByte(maxKeyLen)], len);
      row[LengthByte(maxKeyLen) := Or(row[LengthByte(maxKeyLen)], len)]
    else row
  }

  lemma OrBound8(a: Byte, b: Byte)
    ensures Or(a, b) < 256
  {
    Pow2Of8();
    OrBound(a, b, 8);
  }

  /** The lane row a key is stored and hashed under. */
  function KeyRow(maxKeyLen: nat, key: Bytes): (row: Bytes)
    ensures |row| == 8 * LaneCount(maxKeyLen)
  {
    LaneRow(maxKeyLen, key, |key| % 256)
  }

  /** Byte by byte: a key that fits is stored verbatim, then zeros, and its length in the length byte. */
  lemma KeyRowBytes(maxKeyLen: nat, key: Bytes, i: nat)
    requires 1 <= maxKeyLen && |key| <= maxKeyLen && i < 8 * LaneCount(maxKeyLen)
    ensures KeyRow(maxKeyLen, key)[i] ==
      if HasLengthLane(maxKeyLen) && i == LengthByte(maxKeyLen) then |key| else ByteAt(key, i)
  {
    hide Or;
    if HasLengthLane(maxKeyLen) && i == LengthByte(maxKeyLen) {
      assert ByteAt(key, i) == 0;
      OrZero(|key|);
    }
  }

  /** Two keys have the same row exactly when they are equal, or, where no byte is left for the
      length, when they differ only by trailing zero bytes. */
  lemma KeyRowInjective(maxKeyLen: nat, a: Bytes, b: Bytes)
    requires 1 <= maxKeyLen && |a| <= maxKeyLen && |b| <= maxKeyLen
    ensures KeyRow(maxKeyLen, a) == KeyRow(maxKeyLen, b) <==>
      if HasLengthLane(maxKeyLen) then a == b else Padded(a, maxKeyLen) == Padded(b, maxKeyLen)
  {
    var ra, rb := KeyRow(maxKeyLen, a), KeyRow(maxKeyLen, b);
    forall i: nat | i < |ra|
      ensures ra[i] == if HasLengthLane(maxKeyLen) && i == LengthByte(maxKeyLen) then |a| else ByteAt(a, i)
      ensures rb[i] == if HasLengthLane(maxKeyLen) && i == LengthByte(maxKeyLen) then |b| else ByteAt(b, i)
    {
      KeyRowBytes(maxKeyLen, a, i);
      KeyRowBytes(maxKeyLen, b, i);
    }
    if ra == rb {
      if HasLengthLane(maxKeyLen) {
        assert |a| == ra[LengthByte(maxKeyLen)] == rb[LengthByte(maxKeyLen)] == |b|;
      }
      forall i: nat | i < maxKeyLen ensures ByteAt(a, i) == ByteAt(b, i) {
        assert ra[i] == rb[i];
      }
      if HasLengthLane(maxKeyLen) {
        PaddedInjective(a, b, maxKeyLen);
      }
    } else {
      var i :| 0 <= i < |ra| && ra[i] != rb[i];
      if !HasLengthLane(maxKeyLen) {
        assert ByteAt(a, i) != ByteAt(b, i);
        assert Padded(a, maxKeyLen)[i] != Padded(b, maxKeyLen)[i];
      }
    }
  }

  // ---------------------------------------------------------------- hashing

  /** splitmix64: a well-spread seed for a seed index. */
  function SeedFromIndex(i: nat): (z: nat)
    ensures z < TWO_TO_THE_64
  {
    var z0 := Times(i + 1, 0x9E3779B97F4A7C15);
    var z1 := Avalanche(z0, 30, 0xBF58476D1CE4E5B9);
    var z2 := Avalanche(z1, 27, 0x94D049BB133111EB);
    Xor64(z2, ShiftRight(z2, 31));
    Xor(z2, ShiftRight(z2, 31))
  }

  /** An odd multiplier per lane. */
  function Multiplier(seed: nat, lane: nat): nat {
    Or(SeedFromIndex((seed * 8 + lane) % TWO_TO_THE_64), 1)
  }

  function Multipliers(count: nat, seed: nat): (m: seq<nat>)
    ensures |m| == count
  {
    seq(count, i requires 0 <= i => Multiplier(seed, i))
  }

  /** The running hash after the first n lanes. */
  function HashPrefix(lanes: seq<nat>, muls: seq<nat>, strong: bool, n: nat): (h: nat)
    requires 1 <= n <= |lanes| == |muls|
    ensures h < TWO_TO_THE_64
  {
    if n == 1 then Times(lanes[0], muls[0])
    else
      var before := HashPrefix(lanes, muls, strong, n - 1);
      var mixed := if strong then Avalanche(before, 29, 0xBF58476D1CE4E5B9) else before;
      Xor64(mixed, Times(lanes[n - 1], muls[n - 1]));
      Xor(mixed, Times(lanes[n - 1], muls[n - 1]))
  }

  function Finish(h: nat, strong: bool): (r: nat)
    requires h < TWO_TO_THE_64
    ensures r < TWO_TO_THE_64
  {
    if strong then
      var m := Avalanche(h, 29, 0xBF58476D1CE4E5B9);
      Xor64(m, ShiftRight(m, 32));
      Xor(m, ShiftRight(m, 32))
    else h
  }

  function Hash(lanes: seq<nat>, muls: seq<nat>, strong: bool): (h: nat)
    requires 1 <= |lanes| == |muls|
    ensures h < TWO_TO_THE_64
  {
    Finish(HashPrefix(lanes, muls, strong, |lanes|), strong)
  }

  method ComputeHash(lanes: seq<nat>, muls: seq<nat>, strong: bool) returns (h: nat)
    requires 1 <= |lanes| == |muls|
    ensures h == Hash(lanes, muls, strong)
  {
    h := Times(lanes[0], muls[0]);
    for i := 1 to |lanes|
      invariant h == HashPrefix(lanes, muls, strong, i)
    {
      if strong {
        h := Avalanche(h, 29, 0xBF58476D1CE4E5B9);
      }
      h := Xor(h, Times(lanes[i], muls[i]));
    }
    if strong {
      h := Avalanche(h, 29, 0xBF58476D1CE4E5B9);
      h := Xor(h, ShiftRight(h, 32));
    }
  }

  lemma {:induction false} ZeroPrefix(lanes: seq<nat>, muls: seq<nat>, strong: bool, n: nat)
    requires 1 <= n <= |lanes| == |muls|
    requires forall l: nat | l < |lanes| :: lanes[l] == 0
    ensures HashPrefix(lanes, muls, strong, n) == 0
  {
    assert Times(lanes[n - 1], muls[n - 1]) == 0;
    if n > 1 {
      ZeroPrefix(lanes, muls, strong, n - 1);
      ZeroAvalanche(29, 0xBF58476D1CE4E5B9);
      XorZero(0);
    }
  }

  /** All-zero lanes hash to zero under every seed: the empty key's shortcut relies on it. */
  lemma ZeroHash(lanes: seq<nat>, muls: seq<nat>, strong: bool)
    requires 1 <= |lanes| == |muls|
    requires forall l: nat | l < |lanes| :: lanes[l] == 0
    ensures Hash(lanes, muls, strong) == 0
  {
    ZeroPrefix(lanes, muls, strong, |lanes|);
    ZeroAvalanche(29, 0xBF58476D1CE4E5B9);
    XorZero(0);
    assert ShiftRight(0, 32) == 0;
  }

  /** The hash of one key's lanes under a seed. */
  function LaneHash(lanes: seq<nat>, seed: nat, strong: bool): (h: nat)
    requires lanes != []
    ensures h < TWO_TO_THE_64
  {
    Hash(lanes, Multipliers(|lanes|, seed), strong)
  }

  // ---------------------------------------------------------------- bucket and slot

  /** Two keys per bucket on average. */
  function BucketCount(n: nat): (b: nat)
    ensures b >= 1
  {
    if NextPowerOf2(n) / 2 == 0 then 1 else NextPowerOf2(n) / 2
  }

  /** How a hash is cut up: bBits bits of bucket number, then mBits bits of base. */
  datatype Geometry = Geometry(buckets: nat, bBits: nat, m: nat, mBits: nat) {
    /** Both counts are powers of two, and the hash has bits enough for both parts. */
    ghost predicate Valid() {
      && buckets == Pow2(bBits) && m == Pow2(mBits)
      && bBits + mBits <= 64
      && buckets <= m <= TWO_TO_THE_32
    }
  }

  /** The geometry of n keys in a table of m slots. */
  function GeometryOf(n: nat, m: nat): Geometry {
    Geometry(BucketCount(n), Log2(BucketCount(n)), m, Log2(m))
  }

  /** The two table sizes the search tries. */
  predicate TableSizeFor(n: nat, m: nat) {
    m == NextPowerOf2(n) || m == 2 * NextPowerOf2(n)
  }

  lemma Pow2Of31()
    ensures Pow2(31) == TWO_TO_THE_31 && Pow2(32) == TWO_TO_THE_32
  {
    Pow2Of8();
    var e := 8;
    Pow2Add(e, e);
    Pow2Add(2 * e, 2 * e);
    assert Pow2(32) == 2 * Pow2(31);
  }

  lemma BucketCountIsPowerOf2(n: nat)
    ensures BucketCount(n) == Pow2(Log2(BucketCount(n)))
    ensures Log2(BucketCount(n)) <= Log2(n)
  {
    var l := Log2(n);
    if l >= 1 {
      assert BucketCount(n) == Pow2(l - 1);
      Log2OfPow2(l - 1);
    } else {
      assert BucketCount(n) == Pow2(0);
      Log2OfPow2(0);
    }
  }

  /** Both table sizes have room for all keys and a valid geometry. */
  lemma GeometryFits(n: nat, m: nat)
    requires 1 <= n <= TWO_TO_THE_31 && TableSizeFor(n, m)
    ensures n <= m && GeometryOf(n, m).Valid()
  {
    var l := Log2(n);
    Pow2Of31();
    Log2Bound(n, 31);
    BucketCountIsPowerOf2(n);
    Log2OfPow2(l);
    Log2OfPow2(l + 1);
    assert m == Pow2(Log2(m)) && Log2(m) <= 32;
    Pow2Grows(Log2(m), 32);
    Pow2Grows(Log2(BucketCount(n)), Log2(m));
  }

  lemma Log2Bound(n: nat, k: nat)
    requires n <= Pow2(k)
    ensures Log2(n) <= k
  {
    if k < Log2(n) - 1 {
      Pow2Increases(k, Log2(n) - 1);
    }
  }

  /** Top bits: the bucket. */
  function BucketOf(h: nat, g: Geometry): (b: nat)
    requires g.Valid() && h < TWO_TO_THE_64
    ensures b < g.buckets
  {
    if g.bBits != 0 then
      BucketInRange(h, g.bBits);
      ShiftRight(h, 64 - g.bBits)
    else 0
  }

  /** The next bits, masked to the table size. */
  function BaseOf(h: nat, g: Geometry): (b: nat)
    requires g.Valid()
    ensures b < g.m
  {
    if g.mBits != 0 then ShiftRight(h, 64 - g.bBits - g.mBits) % g.m else 0
  }

  lemma BucketInRange(h: nat, bBits: nat)
    requires bBits <= 64 && h < TWO_TO_THE_64
    ensures h / Pow2(64 - bBits) < Pow2(bBits)
  {
    Pow2Of64();
    Pow2Add(64 - bBits, bBits);
    DivBound(h, Pow2(64 - bBits), Pow2(bBits));
  }

  /** The slot a hash leads to. */
  function SlotOfHash(h: nat, g: Geometry, pilots: seq<nat>): (s: nat)
    requires g.Valid() && h < TWO_TO_THE_64 && |pilots| == g.buckets
    ensures s < g.m
  {
    (BaseOf(h, g) + pilots[BucketOf(h, g)]) % g.m
  }
}
