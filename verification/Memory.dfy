/** Machine memory as the vector loads see it: bytes at addresses, some 4096-byte blocks of which are mapped.
    Every load requires that what it reads is mapped, so a verified load is a safe one. */
module Memory {
  import opened Words

  const BLOCK: nat := 4096

  datatype Memory = Memory(bytes: nat -> Byte, mapped: nat -> bool)

  /** Every byte of [a, a + n) is in a mapped block. */
  ghost predicate Readable(mem: Memory, a: nat, n: nat) {
    forall i: nat | a <= i < a + n :: mem.mapped(i / BLOCK)
  }

  /** The n bytes at address a. */
  function Load(mem: Memory, a: nat, n: nat): (r: Bytes)
    requires Readable(mem, a, n)
    ensures |r| == n && forall i: nat | i < n :: r[i] == mem.bytes(a + i)
  {
    seq<Byte>(n, i requires 0 <= i < n => mem.bytes(a + i))
  }

  /** A string view. Its bytes are mapped; nothing is said of what lies around them. */
  ghost predicate ValidView(mem: Memory, p: nat, len: nat) {
    Readable(mem, p, len)
  }

  /** A load that stays inside one mapped block is safe. */
  lemma InsideBlock(mem: Memory, a: nat, n: nat)
    requires mem.mapped(a / BLOCK) && a % BLOCK + n <= BLOCK
    ensures Readable(mem, a, n)
  {
  }

  /** A load of at most one block that ends in a mapped block, and starts in one, is safe. */
  lemma AcrossBlocks(mem: Memory, a: nat, n: nat, z: nat)
    requires mem.mapped(a / BLOCK) && mem.mapped(z / BLOCK)
    requires z / BLOCK == a / BLOCK + 1 && a % BLOCK + n <= 2 * BLOCK
    ensures Readable(mem, a, n)
  {
  }

  /** What the compiler knows of objects: whether the one at an address has at least so many bytes. Compares use it
      to choose between a wide load and a copy; no answer depends on it. */
  type Known = (nat, nat) -> bool

  /** How a target loads and compares: table lookups (AArch64), AND masks (x86-64, LoongArch), or plain bytes and
      words. */
  datatype Isa = TableLookup | AndMasks | Scalar

  // ---------------------------------------------------------------- 16-byte vectors

  /** Table lookup: byte j of the result is raw[row[j]], or zero where the row points past the vector. */
  function Tbl(raw: Bytes, row: Bytes): (r: Bytes)
    requires |raw| == |row| == 16
    ensures |r| == 16 && forall j: nat | j < 16 :: r[j] == if row[j] < 16 then raw[row[j]] else 0
  {
    seq<Byte>(16, j requires 0 <= j < 16 => if row[j] < 16 then raw[row[j]] else 0)
  }

  /** The row that keeps the first len bytes and zeroes the others. */
  function KeepRow(len: nat): (row: Bytes)
    ensures |row| == 16 && forall j: nat | j < 16 :: row[j] == if j < len then j else 0x80
  {
    seq<Byte>(16, j requires 0 <= j < 16 => if j < len then j else 0x80)
  }

  /** Byte-wise and. */
  function AndBytes(a: Bytes, b: Bytes): (r: Bytes)
    requires |a| == |b| == 16
    ensures |r| == 16 && forall j: nat | j < 16 ::
      (b[j] == 0xFF ==> r[j] == a[j]) && (b[j] == 0 ==> r[j] == 0)
  {
    var r: Bytes := seq<Byte>(16, j requires 0 <= j < 16 => AndOf(a[j], b[j]));
    r
  }

  function AndOf(x: Byte, mask: Byte): (y: Byte)
    ensures (mask == 0xFF ==> y == x) && (mask == 0 ==> y == 0)
  {
    AndAtMost(x, mask);
    AndByte(x);
    And(x, mask)
  }

  /** Byte-wise equality: 0xFF where the vectors agree, zero elsewhere. */
  function Ceq(a: Bytes, b: Bytes): (m: Bytes)
    requires |a| == |b| == 16
    ensures |m| == 16 && forall j: nat | j < 16 :: m[j] == if a[j] == b[j] then 0xFF else 0
  {
    seq<Byte>(16, j requires 0 <= j < 16 => if a[j] == b[j] then 0xFF else 0)
  }

  /** Two mask bytes, shifted right by four as one 16-bit number and cut to a byte. */
  function NarrowPair(low: Byte, high: Byte): Byte {
    var pair: nat := high;
    ((low + 0x100 * pair) / 16) % 0x100
  }

  /** The narrowing shift: one nibble per mask byte. */
  function ShiftNarrow(m: Bytes): (r: Bytes)
    requires |m| == 16
    ensures |r| == 8 && forall k: nat | k < 8 :: r[k] == NarrowPair(m[2 * k], m[2 * k + 1])
  {
    seq<Byte>(8, k requires 0 <= k < 8 => NarrowPair(m[2 * k], m[2 * k + 1]))
  }

  lemma NarrowPairInjective(low: Byte, high: Byte, low': Byte, high': Byte)
    requires low in {0, 0xFF} && high in {0, 0xFF} && low' in {0, 0xFF} && high' in {0, 0xFF}
    requires NarrowPair(low, high) == NarrowPair(low', high')
    ensures low == low' && high == high'
  {
    hide NarrowPair;
    NarrowedPair(low, high);
    NarrowedPair(low', high');
  }

  /** The low mask byte leaves its nibble below that of the high one. */
  lemma NarrowedPair(low: Byte, high: Byte)
    requires low in {0, 0xFF} && high in {0, 0xFF}
    ensures NarrowPair(low, high) == (if low == 0 then 0 else 0x0F) + if high == 0 then 0 else 0xF0
  {
    if low == 0 {
      assert high == 0 || NarrowPair(0, 0xFF) == 0xF0;
    } else {
      assert NarrowPair(0xFF, 0) == 0x0F && NarrowPair(0xFF, 0xFF) == 0xFF;
    }
  }

  /** The narrowed mask as one 64-bit word. */
  function NibbleMask(m: Bytes): nat
    requires |m| == 16
  {
    LittleEndian(ShiftNarrow(m))
  }

  /** A mask made of 0x00 and 0xFF bytes only. */
  ghost predicate IsMask(m: Bytes) {
    |m| == 16 && forall j: nat | j < 16 :: m[j] == 0 || m[j] == 0xFF
  }

  lemma Octet8(a: Byte, b: Byte, c: Byte, d: Byte, e: Byte, f: Byte, g: Byte, h: Byte)
    ensures LittleEndian([a, b, c, d, e, f, g, h]) ==
      a + 0x100 * (b + 0x100 * (c + 0x100 * (d + 0x100 * (e + 0x100 * (f + 0x100 * (g + 0x100 * h))))))
  {
    var w: Bytes := [a, b, c, d, e, f, g, h];
    assert w[1..] == [b, c, d, e, f, g, h] && w[1..][1..] == [c, d, e, f, g, h];
    assert [c, d, e, f, g, h][1..] == [d, e, f, g, h] && [d, e, f, g, h][1..] == [e, f, g, h];
    assert [e, f, g, h][1..] == [f, g, h] && [f, g, h][1..] == [g, h] && [g, h][1..] == [h];
    assert LittleEndian([h]) == h && LittleEndian([g, h]) == g + 256 * LittleEndian([h]);
    assert LittleEndian([f, g, h]) == f + 256 * LittleEndian([g, h]);
    assert LittleEndian([e, f, g, h]) == e + 256 * LittleEndian([f, g, h]);
    assert LittleEndian([d, e, f, g, h]) == d + 256 * LittleEndian([e, f, g, h]);
    assert LittleEndian([c, d, e, f, g, h]) == c + 256 * LittleEndian([d, e, f, g, h]);
    assert LittleEndian([b, c, d, e, f, g, h]) == b + 256 * LittleEndian([c, d, e, f, g, h]);
  }

  /** The narrowed word determines the mask. */
  lemma NibbleMaskInjective(m: Bytes, n: Bytes)
    requires IsMask(m) && IsMask(n) && NibbleMask(m) == NibbleMask(n)
    ensures m == n
  {
    LittleEndianInjective(ShiftNarrow(m), ShiftNarrow(n));
    forall j: nat | j < 16 ensures m[j] == n[j] {
      var k := j / 2;
      assert ShiftNarrow(m)[k] == ShiftNarrow(n)[k];
      NarrowPairInjective(m[2 * k], m[2 * k + 1], n[2 * k], n[2 * k + 1]);
    }
  }

  /** The mask of two vectors that agree in their first n bytes only. */
  function FirstEqual(n: nat): (m: Bytes)
    ensures IsMask(m) && forall j: nat | j < 16 :: m[j] == if j < n then 0xFF else 0
  {
    seq<Byte>(16, j => if j < n then 0xFF else 0)
  }

  /** The narrowed word of the two masks the compares test for. */
  lemma NibbleMaskConstants()
    ensures NibbleMask(FirstEqual(16)) == 0xFFFF_FFFF_FFFF_FFFF
    ensures NibbleMask(FirstEqual(15)) == 0x0FFF_FFFF_FFFF_FFFF
  {
    NarrowedConstant(16, 0xFF);
    NarrowedConstant(15, 0x0F);
    hide ShiftNarrow, FirstEqual, LittleEndian;
    Octet8(0xFF, 0xFF, 0xFF, 0xFF, 0xFF, 0xFF, 0xFF, 0xFF);
    Octet8(0xFF, 0xFF, 0xFF, 0xFF, 0xFF, 0xFF, 0xFF, 0x0F);
  }

  lemma NarrowedConstant(n: nat, top: Byte)
    requires (n == 16 && top == 0xFF) || (n == 15 && top == 0x0F)
    ensures ShiftNarrow(FirstEqual(n)) == [0xFF, 0xFF, 0xFF, 0xFF, 0xFF, 0xFF, 0xFF, top]
  {
  }

  /** The two words the compares test for stand for exactly these two masks. */
  lemma MaskFromWord(m: Bytes)
    requires IsMask(m)
    ensures NibbleMask(m) == 0xFFFF_FFFF_FFFF_FFFF ==> m == FirstEqual(16)
    ensures NibbleMask(m) == 0x0FFF_FFFF_FFFF_FFFF ==> m == FirstEqual(15)
  {
    NibbleMaskConstants();
    hide NibbleMask, FirstEqual;
    if NibbleMask(m) == NibbleMask(FirstEqual(16)) {
      NibbleMaskInjective(m, FirstEqual(16));
    }
    if NibbleMask(m) == NibbleMask(FirstEqual(15)) {
      NibbleMaskInjective(m, FirstEqual(15));
    }
  }

  /** All sixteen bytes agree exactly when the narrowed mask is all ones. */
  lemma AllSixteenAgree(a: Bytes, b: Bytes)
    requires |a| == |b| == 16
    ensures NibbleMask(Ceq(a, b)) == 0xFFFF_FFFF_FFFF_FFFF <==> a == b
  {
    hide NibbleMask;
    MaskFromWord(Ceq(a, b));
    if a == b {
      assert Ceq(a, b) == FirstEqual(16);
      NibbleMaskConstants();
    } else {
      var j :| 0 <= j < 16 && a[j] != b[j];
      assert Ceq(a, b)[j] != FirstEqual(16)[j];
    }
  }

  /** The vector compare: byte-wise equality, narrowed to a word, tested against all ones. */
  function VectorsEqual(a: Bytes, b: Bytes): (r: bool)
    requires |a| == |b| == 16
    ensures r <==> a == b
  {
    AllSixteenAgree(a, b);
    NibbleMask(Ceq(a, b)) == 0xFFFF_FFFF_FFFF_FFFF
  }

  /** The first fifteen bytes agree and the last does not, exactly when only the top nibble is clear. */
  lemma FirstFifteenAgree(a: Bytes, b: Bytes)
    requires |a| == |b| == 16
    ensures NibbleMask(Ceq(a, b)) == 0x0FFF_FFFF_FFFF_FFFF <==> a[..15] == b[..15] && a[15] != b[15]
  {
    hide NibbleMask;
    MaskFromWord(Ceq(a, b));
    if a[..15] == b[..15] && a[15] != b[15] {
      assert forall j: nat | j < 15 :: a[j] == a[..15][j] && b[j] == b[..15][j];
      assert Ceq(a, b) == FirstEqual(15);
      NibbleMaskConstants();
    }
    if Ceq(a, b) == FirstEqual(15) {
      assert forall j: nat | j < 16 :: Ceq(a, b)[j] == FirstEqual(15)[j];
    }
  }

  // ---------------------------------------------------------------- sign bits

  /** The top bits of the bytes from i on, gathered into a number. */
  function MoveMask(m: Bytes, i: nat): (bits: nat)
    requires i <= |m|
    decreases |m| - i
  {
    if i == |m| then 0 else m[i] / 128 + 2 * MoveMask(m, i + 1)
  }

  /** All bits are set exactly when every byte has its top bit. */
  lemma {:induction false} MoveMaskFull(m: Bytes, i: nat)
    requires i <= |m|
    ensures MoveMask(m, i) < Pow2(|m| - i)
    ensures MoveMask(m, i) == Pow2(|m| - i) - 1 <==> forall j: nat | i <= j < |m| :: m[j] >= 128
    decreases |m| - i
  {
    if i < |m| { MoveMaskFull(m, i + 1); }
  }

  /** The compare of the targets with sign bits: byte-wise equality, gathered, tested against sixteen ones. */
  function SignsEqual(a: Bytes, b: Bytes): (r: bool)
    requires |a| == |b| == 16
    ensures r <==> a == b
  {
    MoveMaskFull(Ceq(a, b), 0);
    SixteenOnes();
    assert a == b <==> forall j: nat | j < 16 :: Ceq(a, b)[j] >= 128;
    MoveMask(Ceq(a, b), 0) == 0xFFFF
  }

  lemma SixteenOnes()
    ensures Pow2(16) - 1 == 0xFFFF
  {
    Pow2Of8();
    Pow2Add(8, 8);
  }
}
