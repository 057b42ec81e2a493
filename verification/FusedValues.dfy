/** Values kept in the spare bits of the length lane. */
module FusedValues {
  import opened Words
  import opened Numbers
  import opened WideHash
  import opened WideTables

  /** Bytes a fused value occupies. */
  function FusedBytes(fusedBits: nat): nat {
    (fusedBits + 7) / 8
  }

  /** The row with value v written into its spare bytes. */
  function Fuse(fusedBits: nat, maxKeyLen: nat, row: Bytes, v: nat): (r: Bytes)
    requires maxKeyLen + FusedBytes(fusedBits) <= |row|
    ensures |r| == |row|
    ensures forall b: nat | b < |row| ::
      r[b] == if maxKeyLen <= b < maxKeyLen + FusedBytes(fusedBits) then ByteOf(v, b - maxKeyLen) else row[b]
  {
    row[..maxKeyLen] + ValueBytes(v, FusedBytes(fusedBits)) + row[maxKeyLen + FusedBytes(fusedBits)..]
  }

  /** The low n bytes of a number. */
  function ValueBytes(v: nat, n: nat): (a: Bytes)
    ensures |a| == n && forall b: nat | b < n :: a[b] == ByteOf(v, b)
  {
    seq<Byte>(n, b requires 0 <= b < n => ByteOf(v, b))
  }

  /** Where the spare bits start inside the length lane. */
  function SpareShift(maxKeyLen: nat): nat
    requires HasLengthLane(maxKeyLen)
  {
    8 * (maxKeyLen - 8 * LengthLane(maxKeyLen))
  }

  /** The value read back: mask the length lane and shift it down. */
  function FusedValue(fusedBits: nat, maxKeyLen: nat, row: Bytes): nat
    requires 1 <= maxKeyLen && HasLengthLane(maxKeyLen) && |row| == RowWidth(maxKeyLen)
  {
    (LittleEndian(Octet(row, LengthLane(maxKeyLen))) / Pow2(SpareShift(maxKeyLen))) % Pow2(fusedBits)
  }

  /** The bytes of a number, put together again. */
  lemma {:induction false} BytesOfNumber(a: Bytes, v: nat)
    requires v < Pow2(8 * |a|) && forall b: nat | b < |a| :: a[b] == ByteOf(v, b)
    ensures LittleEndian(a) == v
  {
    if a != [] {
      var rest := a[1..];
      OneOctetLess(v, |rest|);
      LowByte(v);
      hide Pow2, ByteOf;
      forall b: nat | b < |rest| ensures rest[b] == ByteOf(v / 256, b) {
        NextByte(v, b);
        assert rest[b] == a[b + 1];
      }
      BytesOfNumber(rest, v / 256);
      assert a[0] == ByteOf(v, 0);
    }
  }

  lemma OneOctetLess(v: nat, n: nat)
    requires v < Pow2(8 * (n + 1))
    ensures v / 256 < Pow2(8 * n)
  {
    Pow2Of8();
    Pow2Add(8, 8 * n);
    hide Pow2;
    DivBound(v, 256, Pow2(8 * n));
  }

  lemma LowByte(v: nat)
    ensures ByteOf(v, 0) == v % 256
  {
    assert Pow2(0) == 1;
  }

  /** Byte b + 1 of a number is byte b of what is left without the lowest. */
  lemma NextByte(v: nat, b: nat)
    ensures ByteOf(v, b + 1) == ByteOf(v / 256, b)
  {
    Pow2Of8();
    Pow2Add(8, 8 * b);
    hide Pow2;
    DivideTwice(v, 256, Pow2(8 * b));
  }

  /** Low bytes drop out when a word is shifted right past them. */
  lemma ShiftDropsLowBytes(low: Bytes, high: Bytes)
    ensures LittleEndian(low + high) / Pow2(8 * |low|) == LittleEndian(high)
  {
    LittleEndianConcat(low, high);
    LittleEndianBound(low);
    ShiftOut(LittleEndian(low + high), LittleEndian(low), LittleEndian(high), Pow2(8 * |low|));
  }

  lemma ShiftOut(total: nat, low: nat, high: nat, p: nat)
    requires low < p && total == low + p * high
    ensures total / p == high
  {
    ModUnique(total, high, low, p);
  }

  /** High bytes drop out when a word is masked below them. */
  lemma MaskDropsHighBytes(low: Bytes, high: Bytes, bits: nat)
    requires bits <= 8 * |low| && LittleEndian(low) < Pow2(bits)
    ensures LittleEndian(low + high) % Pow2(bits) == LittleEndian(low)
  {
    LittleEndianConcat(low, high);
    Pow2Add(8 * |low| - bits, bits);
    var k := Pow2(8 * |low| - bits) * LittleEndian(high);
    RearrangeProduct(Pow2(8 * |low| - bits), Pow2(bits), LittleEndian(high));
    ModUnique(LittleEndian(low + high), k, LittleEndian(low), Pow2(bits));
  }

  lemma RearrangeProduct(a: nat, b: nat, c: nat)
    ensures (a * b) * c == (a * c) * b
  {
  }

  /** Reading a fused value back gives the value. */
  lemma FuseThenRead(fusedBits: nat, maxKeyLen: nat, row: Bytes, v: nat)
    requires 1 <= maxKeyLen && HasLengthLane(maxKeyLen) && |row| == RowWidth(maxKeyLen)
    requires 0 < fusedBits <= SpareBits(maxKeyLen) && v < Pow2(fusedBits)
    ensures FusedValue(fusedBits, maxKeyLen, Fuse(fusedBits, maxKeyLen, row, v)) == v
  {
    var low, high := FusedOctet(fusedBits, maxKeyLen, row, v);
    hide LittleEndian, Fuse, ValueBytes, Pow2, Octet;
    ReadBetween(low, ValueBytes(v, FusedBytes(fusedBits)), high, fusedBits, v);
  }

  /** The length lane after fusing: key bytes, the value's bytes, and what follows. */
  lemma FusedOctet(fusedBits: nat, maxKeyLen: nat, row: Bytes, v: nat) returns (low: Bytes, high: Bytes)
    requires 1 <= maxKeyLen && HasLengthLane(maxKeyLen) && |row| == RowWidth(maxKeyLen)
    requires fusedBits <= SpareBits(maxKeyLen)
    ensures 8 * |low| == SpareShift(maxKeyLen)
    ensures Octet(Fuse(fusedBits, maxKeyLen, row, v), LengthLane(maxKeyLen)) ==
      low + (ValueBytes(v, FusedBytes(fusedBits)) + high)
  {
    hide Fuse, ByteOf;
    var lane, c := LengthLane(maxKeyLen), FusedBytes(fusedBits);
    low, high := row[8 * lane..maxKeyLen], row[maxKeyLen + c..8 * lane + 8];
    assert Octet(Fuse(fusedBits, maxKeyLen, row, v), lane) == low + (ValueBytes(v, c) + high);
  }

  /** The value in the middle of a word: shifted down, masked. */
  lemma ReadBetween(low: Bytes, value: Bytes, high: Bytes, bits: nat, v: nat)
    requires v < Pow2(bits) && bits <= 8 * |value| && forall b: nat | b < |value| :: value[b] == ByteOf(v, b)
    ensures (LittleEndian(low + (value + high)) / Pow2(8 * |low|)) % Pow2(bits) == v
  {
    hide LittleEndian, Pow2, ByteOf;
    ShiftDropsLowBytes(low, value + high);
    Pow2Grows(bits, 8 * |value|);
    BytesOfNumber(value, v);
    MaskDropsHighBytes(value, high, bits);
  }

  /** Fusing changes no bit that a key compare looks at, and no key byte and no length byte at all; a key that is too
      long loses bytes to it, but none that is compared if the value takes whole bytes. */
  lemma FuseIsInvisible(fusedBits: nat, maxKeyLen: nat, row: Bytes, key: Bytes, v: nat)
    requires 1 <= maxKeyLen && HasLengthLane(maxKeyLen) && |row| == RowWidth(maxKeyLen)
    requires |key| <= maxKeyLen || fusedBits % 8 == 0
    requires fusedBits <= SpareBits(maxKeyLen) && v < Pow2(fusedBits)
    requires Agree(fusedBits, maxKeyLen, row, KeyRow(maxKeyLen, key))
    ensures Agree(fusedBits, maxKeyLen, Fuse(fusedBits, maxKeyLen, row, v), KeyRow(maxKeyLen, key))
    ensures forall b: nat | b < maxKeyLen || b == LengthByte(maxKeyLen) ::
      Fuse(fusedBits, maxKeyLen, row, v)[b] == row[b]
  {
    var r, want := Fuse(fusedBits, maxKeyLen, row, v), KeyRow(maxKeyLen, key);
    if |key| <= maxKeyLen {
      forall b: nat | maxKeyLen <= b < maxKeyLen + FusedBytes(fusedBits) ensures want[b] == 0 {
        KeyRowBytes(maxKeyLen, key, b);
      }
    }
    hide KeyRow;
    forall b: nat | b < |r|
      ensures ClearFused(fusedBits, maxKeyLen, r, b) == ClearFused(fusedBits, maxKeyLen, want, b)
    {
      assert ClearFused(fusedBits, maxKeyLen, row, b) == ClearFused(fusedBits, maxKeyLen, want, b);
      FusedByte(fusedBits, maxKeyLen, row, r, want, v, b);
    }
  }

  /** Byte by byte: what is written is cleared again, and nothing else is touched. */
  lemma FusedByte(fusedBits: nat, maxKeyLen: nat, row: Bytes, r: Bytes, want: Bytes, v: nat, b: nat)
    requires b < |row| == |r| == |want| && v < Pow2(fusedBits)
    requires
      if maxKeyLen <= b < maxKeyLen + FusedBytes(fusedBits) then
        r[b] == ByteOf(v, b - maxKeyLen) && (want[b] == 0 || fusedBits % 8 == 0)
      else r[b] == row[b]
    requires ClearFused(fusedBits, maxKeyLen, row, b) == ClearFused(fusedBits, maxKeyLen, want, b)
    ensures ClearFused(fusedBits, maxKeyLen, r, b) == ClearFused(fusedBits, maxKeyLen, want, b)
  {
    hide Pow2, ClearLow, ByteOf;
    if maxKeyLen <= b < maxKeyLen + FusedBytes(fusedBits) {
      var bits := 8 * (b - maxKeyLen);
      if bits + 8 > fusedBits {
        TopByteIsSmall(v, fusedBits, b - maxKeyLen);
        ClearLowOfSmall(0, Pow2(fusedBits - bits));
        ClearLowOfSmall(r[b], Pow2(fusedBits - bits));
      }
    }
  }

  lemma ClearLowOfSmall(x: Byte, p: nat)
    requires x < p
    ensures ClearLow(x, p) == 0
  {
    ModUnique(x, 0, x, p);
  }

  /** The last, partly used byte of a value below 2^bits is below 2^(the bits it uses). */
  lemma TopByteIsSmall(v: nat, bits: nat, b: nat)
    requires v < Pow2(bits) && 8 * b < bits < 8 * b + 8
    ensures ByteOf(v, b) < Pow2(bits - 8 * b)
  {
    hide Pow2;
    TopQuotient(v, bits, b);
    SmallRemainder(v / Pow2(8 * b), Pow2(bits - 8 * b));
  }

  lemma TopQuotient(v: nat, bits: nat, b: nat)
    requires v < Pow2(bits) && 8 * b < bits < 8 * b + 8
    ensures v / Pow2(8 * b) < Pow2(bits - 8 * b) <= 256
  {
    Pow2Of8();
    hide Pow2;
    Pow2Add(8 * b, bits - 8 * b);
    DivBound(v, Pow2(8 * b), Pow2(bits - 8 * b));
    Pow2Grows(bits - 8 * b, 8);
  }

  lemma SmallRemainder(x: nat, p: nat)
    requires x < p <= 256
    ensures x % 256 < p
  {
  }

  // ---------------------------------------------------------------- integral values

  /** The values of an integral type of `bits` bits. */
  predicate InRange(x: int, bits: nat, signed: bool)
    requires bits >= 1
  {
    if signed then 0 <= x + Pow2(bits - 1) < Pow2(bits) else 0 <= x < Pow2(bits)
  }

  /** The cast to the unsigned type of the same width. */
  function ToUnsigned(x: int, bits: nat): nat {
    x % Pow2(bits)
  }

  /** The cast back. */
  function FromUnsigned(u: nat, bits: nat, signed: bool): int
    requires bits >= 1
  {
    if signed && u >= Pow2(bits - 1) then u - Pow2(bits) else u
  }

  /** Casting to unsigned and back changes no value of the type, negative ones included. */
  lemma CastRoundTrip(x: int, bits: nat, signed: bool)
    requires bits >= 1 && InRange(x, bits, signed)
    ensures ToUnsigned(x, bits) < Pow2(bits)
    ensures FromUnsigned(ToUnsigned(x, bits), bits, signed) == x
  {
    assert Pow2(bits) == 2 * Pow2(bits - 1);
    if x >= 0 {
      ModUnique(x, 0, x, Pow2(bits));
    } else {
      ModUnique(x, -1, x + Pow2(bits), Pow2(bits));
    }
  }

  /** What a map can hold: an integral type of so many bytes, or a type that is never fused: bool, and whatever is no
      integer. A value of the latter is a number that stands for it. */
  datatype ValueType = Integral(bytes: nat, signed: bool) | Unfusable {
    predicate Has(x: int) {
      Unfusable? || (bytes >= 1 && InRange(x, 8 * bytes, signed))
    }
  }

  /** Fused when the value type fits the spare bits of the length lane. */
  function FusedBitsFor(type_: ValueType, maxKeyLen: nat): (f: nat)
    requires 1 <= maxKeyLen
    ensures f <= SpareBits(maxKeyLen)
    ensures f > 0 ==> type_.Integral? && f == 8 * type_.bytes && HasLengthLane(maxKeyLen)
  {
    if HasLengthLane(maxKeyLen) && type_.Integral? && 8 * type_.bytes <= SpareBits(maxKeyLen) then 8 * type_.bytes
    else 0
  }
}
