/** The AArch64 vector loads and compares for keys of up to 16 bytes. */
module NeonCompare {
  import opened Words
  import opened Memory

  /** What page_safe_load_16 may be called with: the key's bytes are mapped, and the block p is in is
      mapped even if the length passed on is zero. */
  ghost predicate LoadableKey(mem: Memory, p: nat, len: nat) {
    ValidView(mem, p, len) && mem.mapped(p / BLOCK)
  }

  /** How far back the 16-byte window has to start. */
  function Shift(p: nat, len: nat): nat
    requires len <= 31
  {
    var off := p % BLOCK;
    if off <= 4080 then 0
    else if off > BLOCK - len then 0
    else off - 4080
  }

  /** The window never touches a block that holds no byte of the key (or p itself). */
  lemma WindowIsMapped(mem: Memory, p: nat, len: nat)
    requires LoadableKey(mem, p, len) && len <= 31
    ensures Shift(p, len) <= p && Shift(p, len) <= 15
    ensures Readable(mem, p - Shift(p, len), 16)
  {
    var off := p % BLOCK;
    if off > BLOCK - len {
      assert mem.mapped((p + len - 1) / BLOCK);
      if off > 4080 { AcrossBlocks(mem, p, 16, p + len - 1); }
    }
  }

  /** The identity row moved up by o: entry j is j + o, modulo 256. */
  function ShiftedRow(o: nat): (row: Bytes)
    ensures |row| == 16 && forall j: nat | j < 16 :: row[j] == (j + o) % 0x100
  {
    seq<Byte>(16, j requires 0 <= j < 16 => (j + o) % 0x100)
  }

  /** Load the window, then shift it down so that the key starts at byte 0. */
  function PageSafeLoad16(mem: Memory, p: nat, len: nat): (r: Bytes)
    requires LoadableKey(mem, p, len) && len <= 31
    ensures |r| == 16
    ensures forall j: nat | j < len && j < 16 :: r[j] == mem.bytes(p + j)
  {
    WindowIsMapped(mem, p, len);
    if p % BLOCK <= 4080 then Load(mem, p, 16)
    else
      var o := Shift(p, len);
      Tbl(Load(mem, p - o, 16), ShiftedRow(o))
  }

  /** A load, cut to the key's length: the zero-padded key. */
  function LoadMasked(mem: Memory, p: nat, len: nat, keep: nat): (r: Bytes)
    requires LoadableKey(mem, p, len) && len <= 31 && keep <= len
    ensures |r| == 16 && (keep <= 16 ==> r == Padded(Load(mem, p, keep), 16))
  {
    var r := Tbl(PageSafeLoad16(mem, p, len), KeepRow(keep));
    assert keep <= 16 ==> r == Padded(Load(mem, p, keep), 16);
    r
  }

  function Min(a: nat, b: nat): nat {
    if a < b then a else b
  }

  /** Sixteen bytes against a zero-padded stored row; lengths 17..31 compare the first sixteen. */
  function Compare16(mem: Memory, p: nat, len: nat, stored: Bytes): (r: bool)
    requires LoadableKey(mem, p, len) && len <= 31 && |stored| == 16
    ensures r <==> Padded(Load(mem, p, Min(len, 16)), 16) == stored
  {
    VectorsEqual(LoadMasked(mem, p, len, Min(len, 16)), stored)
  }

  /** Bytes 0..14 against a row whose byte 15 holds the stored length, which comes back with the answer. */
  function Compare15(mem: Memory, p: nat, len: nat, stored: Bytes): (r: (bool, Byte))
    requires LoadableKey(mem, p, len) && len <= 15 && |stored| == 16
    ensures r.0 <==> Padded(Load(mem, p, len), 15) == stored[..15] && stored[15] != 0
    ensures r.1 == stored[15]
  {
    var input := LoadMasked(mem, p, len, len);
    FirstFifteenAgree(input, stored);
    assert input[..15] == Padded(Load(mem, p, len), 15) && input[15] == 0;
    (NibbleMask(Ceq(input, stored)) == 0x0FFF_FFFF_FFFF_FFFF, stored[15])
  }

  /** Eight bytes against a stored word; lengths 9..15 compare the first eight. */
  function Compare8(mem: Memory, p: nat, len: nat, packed: nat): (r: bool)
    requires LoadableKey(mem, p, len) && len <= 15
    ensures r <==> LittleEndian(Padded(Load(mem, p, Min(len, 8)), 8)) == packed
  {
    var input := LoadMasked(mem, p, len, Min(len, 8));
    assert input[..8] == Padded(Load(mem, p, Min(len, 8)), 8);
    LittleEndian(input[..8]) == packed
  }
}
