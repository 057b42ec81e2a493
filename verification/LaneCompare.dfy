/** The lane compare of the wide container, bit for bit: exclusive or of 64-bit words, masked, tested against zero. */
module LaneCompare {
  import opened Words
  import opened Numbers
  import opened WideHash
  import opened WideTables

  // ---------------------------------------------------------------- bitwise operations on words made of bytes

  lemma AndHalves(a: nat, b: nat)
    ensures And(a, b) == (if a % 2 == 1 && b % 2 == 1 then 1 else 0) + 2 * And(a / 2, b / 2)
  {
  }

  lemma XorOfHalves(a: nat, b: nat)
    ensures Xor(a, b) == (if a % 2 == b % 2 then 0 else 1) + 2 * Xor(a / 2, b / 2)
  {
    XorHalves(a, b, Xor(a / 2, b / 2));
    hide Xor;
    ParityOfSum(a, b);
  }

  lemma ParityOfSum(a: nat, b: nat)
    ensures (a + b) % 2 == if a % 2 == b % 2 then 0 else 1
  {
  }

  lemma HalfOfSum(x: nat, u: nat)
    ensures (x + 2 * u) / 2 == x / 2 + u && (x + 2 * u) % 2 == x % 2
  {
  }

  lemma TwiceTheProduct(k: nat, x: nat)
    requires k > 0
    ensures Pow2(k) * x == 2 * (Pow2(k - 1) * x)
  {
  }

  /** And works on the low k bits and the others separately. */
  lemma {:induction false} AndSplit(x: nat, y: nat, high: nat, high': nat, k: nat)
    requires x < Pow2(k) && y < Pow2(k)
    ensures And(x + Pow2(k) * high, y + Pow2(k) * high') == And(x, y) + Pow2(k) * And(high, high')
  {
    hide And;
    AndHalves(x, y);
    if k == 0 {
      AndZero(0);
    } else {
      AndSplit(x / 2, y / 2, high, high', k - 1);
      TwiceTheProduct(k, high);
      TwiceTheProduct(k, high');
      TwiceTheProduct(k, And(high, high'));
      hide Pow2;
      HalfOfSum(x, Pow2(k - 1) * high);
      HalfOfSum(y, Pow2(k - 1) * high');
      AndHalves(x + 2 * (Pow2(k - 1) * high), y + 2 * (Pow2(k - 1) * high'));
    }
  }

  /** And so does xor. */
  lemma {:induction false} XorSplit(x: nat, y: nat, high: nat, high': nat, k: nat)
    requires x < Pow2(k) && y < Pow2(k)
    ensures Xor(x + Pow2(k) * high, y + Pow2(k) * high') == Xor(x, y) + Pow2(k) * Xor(high, high')
  {
    hide Xor;
    XorOfHalves(x, y);
    if k == 0 {
      XorZero(0);
    } else {
      XorSplit(x / 2, y / 2, high, high', k - 1);
      TwiceTheProduct(k, high);
      TwiceTheProduct(k, high');
      TwiceTheProduct(k, Xor(high, high'));
      hide Pow2;
      HalfOfSum(x, Pow2(k - 1) * high);
      HalfOfSum(y, Pow2(k - 1) * high');
      XorOfHalves(x + 2 * (Pow2(k - 1) * high), y + 2 * (Pow2(k - 1) * high'));
    }
  }

  /** The masked difference of two bytes. */
  function ByteDiff(a: Byte, b: Byte, keep: Byte): nat {
    And(Xor(a, b), keep)
  }

  /** A word's masked difference is zero exactly when that of every byte is. */
  lemma {:induction false} WordDiff(v: Bytes, w: Bytes, keep: Bytes)
    requires |v| == |w| == |keep|
    ensures And(Xor(LittleEndian(v), LittleEndian(w)), LittleEndian(keep)) == 0 <==>
      forall b: nat | b < |v| :: ByteDiff(v[b], w[b], keep[b]) == 0
  {
    hide And, Xor;
    if v == [] {
      XorZero(0);
      AndZero(0);
    } else {
      WordDiff(v[1..], w[1..], keep[1..]);
      Pow2Of8();
      XorSplit(v[0], w[0], LittleEndian(v[1..]), LittleEndian(w[1..]), 8);
      XorBound(v[0], w[0], 8);
      AndSplit(Xor(v[0], w[0]), keep[0], Xor(LittleEndian(v[1..]), LittleEndian(w[1..])), LittleEndian(keep[1..]), 8);
      OneByteMore(v, w, keep);
    }
  }

  lemma OneByteMore(v: Bytes, w: Bytes, keep: Bytes)
    requires 0 < |v| == |w| == |keep|
    ensures (forall b: nat | b < |v| :: ByteDiff(v[b], w[b], keep[b]) == 0) <==>
      ByteDiff(v[0], w[0], keep[0]) == 0
      && forall b: nat | b < |v[1..]| :: ByteDiff(v[1..][b], w[1..][b], keep[1..][b]) == 0
  {
    hide ByteDiff;
    if ByteDiff(v[0], w[0], keep[0]) == 0
      && forall b: nat | b < |v[1..]| :: ByteDiff(v[1..][b], w[1..][b], keep[1..][b]) == 0 {
      forall b: nat | b < |v| ensures ByteDiff(v[b], w[b], keep[b]) == 0 {
        if b > 0 { assert v[1..][b - 1] == v[b] && w[1..][b - 1] == w[b] && keep[1..][b - 1] == keep[b]; }
      }
    }
  }

  // ---------------------------------------------------------------- the mask

  /** n bytes of ones, but for f zero bits from byte c on. */
  function KeepSeq(n: nat, c: nat, f: nat): (keep: Bytes)
    ensures |keep| == n
  {
    if n == 0 then []
    else if c > 0 then [0xFF] + KeepSeq(n - 1, c - 1, f)
    else if f >= 8 then [0] + KeepSeq(n - 1, 0, f - 8)
    else
      PowerOfByte(f);
      [256 - Pow2(f)] + KeepSeq(n - 1, 0, 0)
  }

  lemma PowerOfByte(f: nat)
    requires f < 8
    ensures 1 <= Pow2(f) <= 128
  {
    Pow2Of8();
    Pow2Increases(f, 8);
    if f > 0 { Pow2Increases(0, f); }
  }

  /** All ones, less the zero bits. */
  function OnesBut(n: nat, c: nat, f: nat): int {
    Pow2(8 * n) - 1 - (Pow2(f) - 1) * Pow2(8 * c)
  }

  lemma NoOnes()
    ensures OnesBut(0, 0, 0) == 0
  {
    assert Pow2(0) == 1;
  }

  lemma OneMoreOctet(n: nat)
    ensures Pow2(8 * (n + 1)) == 256 * Pow2(8 * n)
  {
    Pow2Of8();
    Pow2Add(8, 8 * n);
  }

  lemma OnesAgain(n: nat, c: nat, f: nat)
    ensures 255 + 256 * OnesBut(n, c, f) == OnesBut(n + 1, c + 1, f)
  {
    OneMoreOctet(n);
    OneMoreOctet(c);
    hide Pow2;
    Scaled(Pow2(f) - 1, Pow2(8 * c));
  }

  lemma Scaled(x: int, y: int)
    ensures x * (256 * y) == 256 * (x * y)
  {
  }

  lemma ZerosBelow(n: nat, f: nat)
    ensures 256 * OnesBut(n, 0, f) == OnesBut(n + 1, 0, f + 8)
  {
    OneMoreOctet(n);
    Pow2Of8();
    Pow2Add(8, f);
    Pow2Of0();
    hide Pow2;
    assert Pow2(8 * 0) == 1;
  }

  lemma PartBelow(n: nat, f: nat)
    ensures 256 - Pow2(f) + 256 * OnesBut(n, 0, 0) == OnesBut(n + 1, 0, f)
  {
    OneMoreOctet(n);
    Pow2Of0();
    hide Pow2;
    assert Pow2(8 * 0) == 1;
  }

  /** The mask as a number. */
  lemma {:induction false} KeepValue(n: nat, c: nat, f: nat)
    requires 8 * c + f <= 8 * n
    ensures LittleEndian(KeepSeq(n, c, f)) == OnesBut(n, c, f)
  {
    hide OnesBut;
    if n == 0 {
      NoOnes();
    } else {
      FirstKept(n, c, f);
      hide *;
      if c > 0 {
        KeepValue(n - 1, c - 1, f);
        OnesAgain(n - 1, c - 1, f);
      } else if f >= 8 {
        KeepValue(n - 1, 0, f - 8);
        ZerosBelow(n - 1, f - 8);
      } else {
        KeepValue(n - 1, 0, 0);
        PartBelow(n - 1, f);
      }
    }
  }

  lemma FirstKept(n: nat, c: nat, f: nat)
    requires n > 0
    ensures LittleEndian(KeepSeq(n, c, f)) ==
      if c > 0 then 255 + 256 * LittleEndian(KeepSeq(n - 1, c - 1, f))
      else if f >= 8 then 256 * LittleEndian(KeepSeq(n - 1, 0, f - 8))
      else 256 - Pow2(f) + 256 * LittleEndian(KeepSeq(n - 1, 0, 0))
  {
    var rest := if c > 0 then KeepSeq(n - 1, c - 1, f) else if f >= 8 then KeepSeq(n - 1, 0, f - 8)
                else KeepSeq(n - 1, 0, 0);
    assert KeepSeq(n, c, f)[1..] == rest;
  }

  lemma {:induction false} KeepAt(n: nat, c: nat, f: nat, i: nat)
    requires i < n
    ensures var keep := KeepSeq(n, c, f)[i];
      if i < c || 8 * (i - c) >= f then keep == 0xFF
      else if 8 * (i - c) + 8 <= f then keep == 0
      else keep == 256 - Pow2(f - 8 * (i - c))
  {
    if i > 0 {
      if c > 0 {
        KeepAt(n - 1, c - 1, f, i - 1);
      } else if f >= 8 {
        KeepAt(n - 1, 0, f - 8, i - 1);
      } else {
        KeepAt(n - 1, 0, 0, i - 1);
      }
    }
  }

  // ---------------------------------------------------------------- one byte

  /** p is 2^r, and keep the byte with r zero bits. */
  ghost predicate Parts(r: nat, p: nat, keep: Byte) {
    0 < r < 8 && p == Pow2(r) && keep == 256 - p
  }

  /** A byte's masked difference is zero exactly when the bytes agree above the mask's zero bits. */
  lemma PartialByte(a: Byte, b: Byte, r: nat, p: nat, keep: Byte)
    requires p > 0 && Parts(r, p, keep)
    ensures ByteDiff(a, b, keep) == 0 <==> ClearLow(a, p) == ClearLow(b, p)
  {
    PartsOf(r, p, keep);
    hide *;
    var x, high := Divided(a, p, Pow2(8 - r));
    var y, high' := Divided(b, p, Pow2(8 - r));
    HighPartsDecide(a, b, r, p, keep, x, y, high, high');
    if p * high == p * high' { CancelFactor(high, high', p); }
  }

  /** Of two bytes in two parts each, the high parts decide. */
  lemma HighPartsDecide(a: Byte, b: Byte, r: nat, p: nat, keep: Byte, x: nat, y: nat, high: nat, high': nat)
    requires p > 0 && Parts(r, p, keep) && a == x + p * high && b == y + p * high'
    requires r <= 8 && x < p && y < p && high < Pow2(8 - r) && high' < Pow2(8 - r)
    ensures ByteDiff(a, b, keep) == 0 <==> high == high'
  {
    PartsOf(r, p, keep);
    hide *;
    MaskedParts(x, y, high, high', r);
    DiffIs(a, b, keep);
    XorTellsApart(high, high');
    ProductZero(p, Xor(high, high'));
  }

  lemma PartsOf(r: nat, p: nat, keep: Byte)
    requires Parts(r, p, keep)
    ensures 0 < r < 8 && p == Pow2(r) && keep == 256 - p && p * Pow2(8 - r) == 256
  {
    ByteOfParts(r);
  }

  lemma DiffIs(a: Byte, b: Byte, keep: Byte)
    ensures ByteDiff(a, b, keep) == And(Xor(a, b), keep)
  {
    hide And, Xor;
  }

  lemma ProductZero(p: nat, x: nat)
    requires p > 0
    ensures p * x == 0 <==> x == 0
  {
  }

  lemma ByteOfParts(r: nat)
    requires r <= 8
    ensures Pow2(r) * Pow2(8 - r) == 256 && Pow2(r) * (Pow2(8 - r) - 1) == 256 - Pow2(r)
  {
    Pow2Of8();
    Pow2Add(r, 8 - r);
  }

  /** Xor-ed and masked, only the high parts are left. */
  lemma MaskedParts(x: nat, y: nat, high: nat, high': nat, r: nat)
    requires r <= 8 && x < Pow2(r) && y < Pow2(r) && high < Pow2(8 - r) && high' < Pow2(8 - r)
    ensures 256 >= Pow2(r)
    ensures And(Xor(x + Pow2(r) * high, y + Pow2(r) * high'), 256 - Pow2(r)) == Pow2(r) * Xor(high, high')
  {
    hide And, Xor;
    ByteOfParts(r);
    var rest := Xor(high, high');
    XorSplit(x, y, high, high', r);
    XorBound(x, y, r);
    XorBound(high, high', 8 - r);
    AndSplit(Xor(x, y), 0, rest, Pow2(8 - r) - 1, r);
    AndZero(Xor(x, y));
    MaskIsRemainder(rest, 8 - r);
    SmallRemainder(rest, Pow2(8 - r));
  }

  /** A byte in two parts; clearing the low one leaves the high one. */
  lemma Divided(a: Byte, p: nat, q: nat) returns (x: nat, high: nat)
    requires p > 0 && a < p * q
    ensures a == x + p * high && x < p && high < q && ClearLow(a, p) == p * high
  {
    x, high := a % p, a / p;
    DivBound(a, p, q);
  }

  lemma SmallRemainder(x: nat, q: nat)
    requires x < q
    ensures x % q == x
  {
    ModUnique(x, 0, x, q);
  }

  lemma CancelFactor(x: nat, y: nat, p: nat)
    requires p > 0 && p * x == p * y
    ensures x == y
  {
    if x < y { Times(x, y, p); } else if y < x { Times(y, x, p); }
  }

  lemma Times(x: nat, y: nat, p: nat)
    requires p > 0 && x < y
    ensures p * x < p * y
  {
  }

  lemma WholeByte(a: Byte, b: Byte)
    ensures ByteDiff(a, b, 0xFF) == 0 <==> a == b
    ensures ByteDiff(a, b, 0) == 0
  {
    hide And, Xor;
    Pow2Of8();
    XorBound(a, b, 8);
    AndByte(Xor(a, b));
    XorTellsApart(a, b);
  }

  // ---------------------------------------------------------------- the compare

  /** FUSED_MASK: ones where a value is fused into the length lane. */
  function FusedMask(fusedBits: nat, maxKeyLen: nat): nat
    requires HasLengthLane(maxKeyLen)
  {
    (Pow2(fusedBits) - 1) * Pow2(8 * (maxKeyLen - 8 * LengthLane(maxKeyLen)))
  }

  /** What a lane is masked with. */
  function Keep(fusedBits: nat, maxKeyLen: nat, lane: nat): int
    requires HasLengthLane(maxKeyLen)
  {
    if lane == LengthLane(maxKeyLen) then TWO_TO_THE_64 - 1 - FusedMask(fusedBits, maxKeyLen) else TWO_TO_THE_64 - 1
  }

  /** The mask as bytes. */
  function KeepOctet(fusedBits: nat, maxKeyLen: nat, lane: nat): (keep: Bytes)
    requires HasLengthLane(maxKeyLen)
    ensures |keep| == 8
  {
    if lane == LengthLane(maxKeyLen) then KeepSeq(8, maxKeyLen - 8 * lane, fusedBits) else KeepSeq(8, 8, 0)
  }

  lemma KeepIsOctet(fusedBits: nat, maxKeyLen: nat, lane: nat)
    requires 1 <= maxKeyLen && HasLengthLane(maxKeyLen) && fusedBits <= SpareBits(maxKeyLen)
    ensures Keep(fusedBits, maxKeyLen, lane) == LittleEndian(KeepOctet(fusedBits, maxKeyLen, lane)) >= 0
  {
    Pow2Of64();
    if lane == LengthLane(maxKeyLen) {
      KeepValue(8, maxKeyLen - 8 * lane, fusedBits);
    } else {
      KeepValue(8, 8, 0);
    }
  }

  /** The compare of one lane: ((stored ^ query) & keep) == 0. */
  predicate LanesAgree(fusedBits: nat, maxKeyLen: nat, r: Bytes, s: Bytes, lane: nat)
    requires HasLengthLane(maxKeyLen) && 8 * lane + 8 <= |r| && |r| == |s|
  {
    var keep := Keep(fusedBits, maxKeyLen, lane);
    keep >= 0 && And(Xor(LittleEndian(Octet(r, lane)), LittleEndian(Octet(s, lane))), keep) == 0
  }

  /** Byte i of the rows agrees outside the fused bits. */
  predicate ByteAgrees(fusedBits: nat, maxKeyLen: nat, r: Bytes, s: Bytes, i: nat)
    requires i < |r| == |s|
  {
    ClearFused(fusedBits, maxKeyLen, r, i) == ClearFused(fusedBits, maxKeyLen, s, i)
  }

  lemma ByteOfLane(fusedBits: nat, maxKeyLen: nat, r: Bytes, s: Bytes, lane: nat, b: nat)
    requires 1 <= maxKeyLen && HasLengthLane(maxKeyLen) && fusedBits <= SpareBits(maxKeyLen) && b < 8
    requires 8 * lane + 8 <= |r| && |r| == |s|
    ensures ByteDiff(Octet(r, lane)[b], Octet(s, lane)[b], KeepOctet(fusedBits, maxKeyLen, lane)[b]) == 0 <==>
      ByteAgrees(fusedBits, maxKeyLen, r, s, 8 * lane + b)
  {
    hide ByteDiff, ClearLow, Pow2;
    var i, c := 8 * lane + b, if lane == LengthLane(maxKeyLen) then maxKeyLen - 8 * lane else 8;
    var f := if lane == LengthLane(maxKeyLen) then fusedBits else 0;
    KeepAt(8, c, f, b);
    KeptByte(r[i], s[i], KeepOctet(fusedBits, maxKeyLen, lane)[b], if b < c then 0 else f - 8 * (b - c));
  }

  /** A byte under a mask whose lowest `rest` bits are zero. */
  lemma KeptByte(x: Byte, y: Byte, keep: Byte, rest: int)
    requires if rest <= 0 then keep == 0xFF else if rest >= 8 then keep == 0 else keep == 256 - Pow2(rest)
    ensures ByteDiff(x, y, keep) == 0 <==>
      if rest <= 0 then x == y else rest >= 8 || ClearLow(x, Pow2(rest)) == ClearLow(y, Pow2(rest))
  {
    hide ByteDiff, ClearLow, Pow2;
    WholeByte(x, y);
    if 0 < rest < 8 {
      PowerOfByte(rest);
      PartialByte(x, y, rest, Pow2(rest), keep);
    }
  }

  /** All lanes agree exactly when the rows agree outside the fused bits: the two 64-bit compares of a lookup decide
      what the byte-wise definition says. */
  lemma LaneCompareIsAgree(fusedBits: nat, maxKeyLen: nat, r: Bytes, s: Bytes)
    requires 1 <= maxKeyLen && HasLengthLane(maxKeyLen) && fusedBits <= SpareBits(maxKeyLen)
    requires |r| == |s| == RowWidth(maxKeyLen)
    ensures (forall lane: nat | lane < LaneCount(maxKeyLen) :: LanesAgree(fusedBits, maxKeyLen, r, s, lane)) <==>
      Agree(fusedBits, maxKeyLen, r, s)
  {
    hide LanesAgree, ByteAgrees;
    AgreeByBytes(fusedBits, maxKeyLen, r, s);
    hide Agree;
    forall lane: nat | lane < LaneCount(maxKeyLen)
      ensures LanesAgree(fusedBits, maxKeyLen, r, s, lane) <==>
        forall i: nat | 8 * lane <= i < 8 * lane + 8 :: ByteAgrees(fusedBits, maxKeyLen, r, s, i)
    {
      OneLane(fusedBits, maxKeyLen, r, s, lane);
    }
    if forall lane: nat | lane < LaneCount(maxKeyLen) :: LanesAgree(fusedBits, maxKeyLen, r, s, lane) {
      forall i: nat | i < |r| ensures ByteAgrees(fusedBits, maxKeyLen, r, s, i) {
        assert LanesAgree(fusedBits, maxKeyLen, r, s, i / 8);
      }
    }
  }

  lemma AgreeByBytes(fusedBits: nat, maxKeyLen: nat, r: Bytes, s: Bytes)
    requires |r| == |s|
    ensures Agree(fusedBits, maxKeyLen, r, s) <==> forall i: nat | i < |r| :: ByteAgrees(fusedBits, maxKeyLen, r, s, i)
  {
    hide ClearFused;
    if forall i: nat | i < |r| :: ByteAgrees(fusedBits, maxKeyLen, r, s, i) {
      forall b: nat | b < |r|
        ensures ClearFused(fusedBits, maxKeyLen, r, b) == ClearFused(fusedBits, maxKeyLen, s, b)
      {
        assert ByteAgrees(fusedBits, maxKeyLen, r, s, b);
      }
    }
  }

  lemma OneLane(fusedBits: nat, maxKeyLen: nat, r: Bytes, s: Bytes, lane: nat)
    requires 1 <= maxKeyLen && HasLengthLane(maxKeyLen) && fusedBits <= SpareBits(maxKeyLen)
    requires 8 * lane + 8 <= |r| && |r| == |s|
    ensures LanesAgree(fusedBits, maxKeyLen, r, s, lane) <==>
      forall i: nat | 8 * lane <= i < 8 * lane + 8 :: ByteAgrees(fusedBits, maxKeyLen, r, s, i)
  {
    hide LittleEndian, ByteDiff, KeepOctet, Keep, Octet, ByteAgrees, And, Xor;
    var keep := KeepOctet(fusedBits, maxKeyLen, lane);
    KeepIsOctet(fusedBits, maxKeyLen, lane);
    WordDiff(Octet(r, lane), Octet(s, lane), keep);
    assert LanesAgree(fusedBits, maxKeyLen, r, s, lane) <==>
      forall b: nat | b < 8 :: ByteDiff(Octet(r, lane)[b], Octet(s, lane)[b], keep[b]) == 0;
    forall b: nat | b < 8
      ensures ByteDiff(Octet(r, lane)[b], Octet(s, lane)[b], keep[b]) == 0 <==>
        ByteAgrees(fusedBits, maxKeyLen, r, s, 8 * lane + b)
    {
      ByteOfLane(fusedBits, maxKeyLen, r, s, lane, b);
    }
    if forall b: nat | b < 8 :: ByteDiff(Octet(r, lane)[b], Octet(s, lane)[b], keep[b]) == 0 {
      forall i: nat | 8 * lane <= i < 8 * lane + 8 ensures ByteAgrees(fusedBits, maxKeyLen, r, s, i) {
        assert ByteDiff(Octet(r, lane)[i - 8 * lane], Octet(s, lane)[i - 8 * lane], keep[i - 8 * lane]) == 0;
      }
    }
    if forall i: nat | 8 * lane <= i < 8 * lane + 8 :: ByteAgrees(fusedBits, maxKeyLen, r, s, i) {
      forall b: nat | b < 8 ensures ByteDiff(Octet(r, lane)[b], Octet(s, lane)[b], keep[b]) == 0 {
        assert ByteAgrees(fusedBits, maxKeyLen, r, s, 8 * lane + b);
      }
    }
  }
}
