/** The x86-64 and LoongArch vector loads and compares for keys of up to 16 bytes: AND masks and sign bits. */
module MaskCompare {
  import opened Words
  import opened Memory
  import opened NeonCompare

  /** The row that keeps the first len bytes. */
  function AndMask(len: nat): (row: Bytes)
    ensures |row| == 16 && forall j: nat | j < 16 :: row[j] == if j < len then 0xFF else 0
  {
    seq<Byte>(16, j requires 0 <= j < 16 => if j < len then 0xFF else 0)
  }

  /** A wide load where it stays inside the block, of an object not known to be shorter; else a zero-padded copy of
      the key alone. */
  function CopyOrLoad16(mem: Memory, p: nat, len: nat, known: Known): (r: Bytes)
    requires LoadableKey(mem, p, len) && len <= 16
    ensures |r| == 16 && forall j: nat | j < len :: r[j] == mem.bytes(p + j)
  {
    if known(p, 16) && p % BLOCK <= BLOCK - 16 then
      InsideBlock(mem, p, 16);
      Load(mem, p, 16)
    else
      Padded(Load(mem, p, len), 16)
  }

  /** A load, cut to the key's length: the zero-padded key. */
  function LoadAnded(mem: Memory, p: nat, len: nat, known: Known): (r: Bytes)
    requires LoadableKey(mem, p, len) && len <= 16
    ensures r == Padded(Load(mem, p, len), 16)
  {
    var r := AndBytes(CopyOrLoad16(mem, p, len, known), AndMask(len));
    assert r == Padded(Load(mem, p, len), 16);
    r
  }

  /** Sixteen bytes against a zero-padded stored row. */
  function MaskCompare16(mem: Memory, p: nat, len: nat, stored: Bytes, known: Known): (r: bool)
    requires LoadableKey(mem, p, len) && len <= 16 && |stored| == 16
    ensures r <==> Padded(Load(mem, p, len), 16) == stored
  {
    SignsEqual(LoadAnded(mem, p, len, known), stored)
  }

  /** Eight bytes against a stored word. */
  function MaskCompare8(mem: Memory, p: nat, len: nat, packed: nat, known: Known): (r: bool)
    requires LoadableKey(mem, p, len) && len <= 8
    ensures r <==> LittleEndian(Padded(Load(mem, p, len), 8)) == packed
  {
    var input := LoadAnded(mem, p, len, known);
    assert input[..8] == Padded(Load(mem, p, len), 8);
    LittleEndian(input[..8]) == packed
  }
}
