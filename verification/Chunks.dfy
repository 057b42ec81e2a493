/** 16-byte chunks: the loads behind the hash of long keys, and the fixed-count compares of long keys. */
module Chunks {
  import opened Words
  import opened Memory
  import opened NeonCompare
  import opened MaskCompare

  // ---------------------------------------------------------------- chunks of a key

  /** How many bytes of a key of length len lie in [off, off + 16). */
  function ChunkLen(len: nat, off: nat): nat {
    var l := if len > off then len - off else 0;
    if l > 16 then 16 else l
  }

  /** One chunk of a key, zero-padded. */
  function LoadChunk16(isa: Isa, mem: Memory, p: nat, len: nat, known: Known): (r: Bytes)
    requires LoadableKey(mem, p, len) && len <= 16
    ensures r == Padded(Load(mem, p, len), 16)
  {
    match isa
    case TableLookup => LoadMasked(mem, p, len, len)
    case AndMasks => LoadAnded(mem, p, len, known)
    case Scalar => LoadBytes(mem, p, len)
  }

  /** Byte by byte, each read only where the key has it. */
  function LoadBytes(mem: Memory, p: nat, len: nat): (r: Bytes)
    requires ValidView(mem, p, len) && len <= 16
    ensures r == Padded(Load(mem, p, len), 16)
  {
    var key := Load(mem, p, len);
    var r := seq<Byte>(16, i requires 0 <= i < 16 => if i < |key| then key[i] else 0);
    assert r == Padded(key, 16);
    r
  }

  /** Chunk j of a key: past the end of the key the pointer stays at the key's start and no byte is kept. */
  function KeyChunk(isa: Isa, mem: Memory, p: nat, len: nat, j: nat, known: Known): (r: Bytes)
    requires ValidView(mem, p, len) && len > 0
    ensures r == Window(Load(mem, p, len), 16 * j, 16)
  {
    var at := ChunkAt(p, len, 16 * j);
    ChunkIsLoadable(mem, p, len, 16 * j);
    LoadChunk16(isa, mem, at, ChunkLen(len, 16 * j), known)
  }

  function ChunkAt(p: nat, len: nat, off: nat): nat {
    if off < len then p + off else p
  }

  lemma ChunkIsLoadable(mem: Memory, p: nat, len: nat, off: nat)
    requires ValidView(mem, p, len) && len > 0
    ensures LoadableKey(mem, ChunkAt(p, len, off), ChunkLen(len, off))
    ensures Padded(Load(mem, ChunkAt(p, len, off), ChunkLen(len, off)), 16) == Window(Load(mem, p, len), off, 16)
  {
    assert mem.mapped((p + off) / BLOCK) || off >= len;
    assert mem.mapped(p / BLOCK);
  }

  // ---------------------------------------------------------------- sliding masks

  function ChunkCount(maxKeyLen: nat): nat {
    (maxKeyLen + 15) / 16
  }

  /** Rows of the sliding mask table. */
  function SlidingRows(maxKeyLen: nat): nat
    requires maxKeyLen >= 1
  {
    maxKeyLen + 16 * (ChunkCount(maxKeyLen) - 1) + 1
  }

  /** One entry of a mask row: a table-lookup index (0x80 drops the byte) or an AND mask. */
  function MaskByte(indexStyle: bool, b: Byte, keep: nat): Byte {
    if indexStyle then (if b < keep then b else 0x80) else (if b < keep then 0xFF else 0x00)
  }

  /** The row that keeps the first `keep` bytes. */
  function MaskRow(indexStyle: bool, keep: nat): (row: Bytes)
    ensures |row| == 16 && forall b: nat | b < 16 :: row[b] == MaskByte(indexStyle, b, keep)
  {
    seq<Byte>(16, b requires 0 <= b < 16 => MaskByte(indexStyle, b, keep))
  }

  /** Row v of the table: zero rows below, the 17 transition rows, identity rows above. */
  function SlidingRow(indexStyle: bool, maxKeyLen: nat, v: nat): Bytes
    requires maxKeyLen >= 1 && v < SlidingRows(maxKeyLen)
  {
    var u := v - 16 * (ChunkCount(maxKeyLen) - 1);
    MaskRow(indexStyle, if u < 0 then 0 else if u > 16 then 16 else u)
  }

  /** The loop that builds the table. */
  method BuildSlidingMasks(indexStyle: bool, maxKeyLen: nat) returns (rows: array<Bytes>)
    requires maxKeyLen >= 1
    ensures rows.Length == SlidingRows(maxKeyLen)
    ensures forall v: nat | v < rows.Length :: rows[v] == SlidingRow(indexStyle, maxKeyLen, v)
  {
    rows := new Bytes[SlidingRows(maxKeyLen)](_ => []);
    for v := 0 to rows.Length
      invariant forall w: nat | w < v :: rows[w] == SlidingRow(indexStyle, maxKeyLen, w)
    {
      var u := v - 16 * (ChunkCount(maxKeyLen) - 1);
      var keep := if u < 0 then 0 else if u > 16 then 16 else u;
      var row: Bytes := [];
      for b := 0 to 16
        invariant |row| == b
        invariant forall c: nat | c < b :: row[c] == MaskRow(indexStyle, keep)[c]
      {
        row := row + [MaskByte(indexStyle, b, keep)];
      }
      assert row == MaskRow(indexStyle, keep);
      rows[v] := row;
    }
  }

  /** The row a compare picks for chunk i is inside the table, and keeps exactly the key's bytes of that chunk. */
  lemma SlidingRowForChunk(indexStyle: bool, maxKeyLen: nat, len: nat, i: nat)
    requires maxKeyLen >= 1 && len <= maxKeyLen && i < ChunkCount(maxKeyLen)
    ensures len + 16 * (ChunkCount(maxKeyLen) - 1 - i) < SlidingRows(maxKeyLen)
    ensures SlidingRow(indexStyle, maxKeyLen, len + 16 * (ChunkCount(maxKeyLen) - 1 - i))
         == MaskRow(indexStyle, ChunkLen(len, 16 * i))
  {
  }

  /** Applying a row: a table lookup, or a byte-wise AND with 0xFF or 0x00. */
  function ApplyRow(indexStyle: bool, raw: Bytes, row: Bytes): (r: Bytes)
    requires |raw| == |row| == 16
    ensures |r| == 16
  {
    if indexStyle then Tbl(raw, row)
    else AndBytes(raw, row)
  }

  // ---------------------------------------------------------------- the general compare

  /** One chunk of the direct compare. */
  function ChunkEqual(indexStyle: bool, maxKeyLen: nat, span: Bytes, len: nat, stored: Bytes, i: nat): bool
    requires 1 <= maxKeyLen && len <= maxKeyLen && i < ChunkCount(maxKeyLen)
    requires |span| == |stored| == 16 * ChunkCount(maxKeyLen)
  {
    SlidingRowForChunk(indexStyle, maxKeyLen, len, i);
    ApplyRow(indexStyle, span[16 * i..16 * i + 16],
             SlidingRow(indexStyle, maxKeyLen,
               len + 16 * (ChunkCount(maxKeyLen) - 1 - i))) == stored[16 * i..16 * i + 16]
  }

  lemma ChunkEqualMeans(indexStyle: bool, maxKeyLen: nat, span: Bytes, len: nat, stored: Bytes, i: nat)
    requires 1 <= maxKeyLen && len <= maxKeyLen && i < ChunkCount(maxKeyLen)
    requires |span| == |stored| == 16 * ChunkCount(maxKeyLen)
    ensures ChunkEqual(indexStyle, maxKeyLen, span, len, stored, i)
       <==> forall k: nat | 16 * i <= k < 16 * i + 16 :: ByteAt(span[..len], k) == stored[k]
  {
    SlidingRowForChunk(indexStyle, maxKeyLen, len, i);
    var raw, row, want := span[16 * i..16 * i + 16], MaskRow(indexStyle, ChunkLen(len, 16 * i)),
      stored[16 * i..16 * i + 16];
    var got := ApplyRow(indexStyle, raw, row);
    forall b: nat | b < 16 ensures got[b] == ByteAt(span[..len], 16 * i + b) {
      assert row[b] == MaskByte(indexStyle, b, ChunkLen(len, 16 * i));
    }
    if got == want {
      forall k: nat | 16 * i <= k < 16 * i + 16 ensures ByteAt(span[..len], k) == stored[k] {
        assert got[k - 16 * i] == want[k - 16 * i];
      }
    }
    if forall k: nat | 16 * i <= k < 16 * i + 16 :: ByteAt(span[..len], k) == stored[k] {
      forall b: nat | b < 16 ensures got[b] == want[b] {
        assert ByteAt(span[..len], 16 * i + b) == stored[16 * i + b];
      }
    }
  }

  // ---------------------------------------------------------------- two chunks, branch-free

  /** Entry (need, o): the window was loaded o bytes early; shift it back and zero the tail. */
  function RealignRow(need: nat, o: nat): (row: Bytes)
    requires need <= 16 && o < 16
    ensures |row| == 16 && forall j: nat | j < 16 :: row[j] == if j < need && j + o < 16 then j + o else 0x80
  {
    seq<Byte>(16, j requires 0 <= j < 16 => if j < need && j + o < 16 then j + o else 0x80)
  }

  /** Which two windows to load: addresses, realign row, the offset of the second one, and whether it counts. */
  datatype Windows = Windows(first: nat, need: nat, o: nat, second: nat, offset: nat, forced: bool)

  /** x & mask, for a mask that is all ones or all zeros; x wraps modulo 2^64. */
  function Masked(x: int, mask: bool): nat {
    if mask then x % TWO_TO_THE_64 else 0
  }

  /** The form with conditional selects. */
  function SelectWindows(p: nat, len: nat): (w: Windows)
    requires len >= 1
    ensures w.need == Min(len, 16) && w.o == Shift(p, w.need) && w.first == p - w.o
  {
    var off := p % BLOCK;
    var need := if len < 16 then len else 16;
    var o := if off > 4080 then off - 4080 else 0;
    var o' := if off > BLOCK - need then 0 else o;
    var short := len < 16;
    var offset := if short then 0 else len - 16;
    Windows(p - o', need, o', if short then p - o' else p + offset, offset, short)
  }

  /** The form with AND masks, for compilers that turn the selects into branches. */
  function MaskWindows(p: nat, len: nat): Windows
    requires 1 <= len < TWO_TO_THE_64
  {
    var off := p % BLOCK;
    var need := if len < 16 then len else 16;
    var past4080 := off > 4080;
    var fits := off <= BLOCK - need;
    var o := Masked(Masked(off - 4080, past4080), fits);
    var long := len >= 16;
    var first := if o <= p then p - o else 0;
    var offset := Masked(len - 16, long);
    Windows(first, need, o, first + Masked(o + offset, long), offset, !long)
  }

  /** Both forms pick the same windows, for every address and length. */
  lemma FormsAgree(p: nat, len: nat)
    requires 1 <= len < TWO_TO_THE_64
    ensures MaskWindows(p, len) == SelectWindows(p, len)
  {
  }

  /** The branch-free compare: every byte it reads is in a block that holds a byte of the key, and where the
      stored row holds a key of the same length, the answer is equality. */
  function Compare2Chunks(mem: Memory, p: nat, len: nat, stored: Bytes): (r: bool)
    requires ValidView(mem, p, len) && 1 <= len <= 32 && |stored| == 32
    ensures forall k: Bytes | |k| == len && stored == Padded(k, 32) :: r <==> Load(mem, p, len) == k
  {
    var w := SelectWindows(p, len);
    var chunk, tail := FirstWindow(mem, p, len), SecondWindow(mem, p, len);
    var r := VectorsEqual(chunk, stored[..16]) && (w.forced || VectorsEqual(tail, stored[w.offset..w.offset + 16]));
    TwoWindowsDecide(mem, p, len, stored, chunk, tail, r);
    r
  }

  /** The first window, shifted back and cut to the key. */
  function FirstWindow(mem: Memory, p: nat, len: nat): (chunk: Bytes)
    requires ValidView(mem, p, len) && 1 <= len <= 32
    ensures |chunk| == 16 && forall j: nat | j < 16 :: chunk[j] == if j < len then mem.bytes(p + j) else 0
  {
    var w := SelectWindows(p, len);
    assert mem.mapped(p / BLOCK);
    WindowIsMapped(mem, p, w.need);
    Tbl(Load(mem, w.first, 16), RealignRow(w.need, w.o))
  }

  /** The second window: the last 16 bytes of a long key; for a short one the first window again. */
  function SecondWindow(mem: Memory, p: nat, len: nat): (tail: Bytes)
    requires ValidView(mem, p, len) && 1 <= len <= 32
    ensures |tail| == 16 && (len >= 16 ==> forall j: nat | j < 16 :: tail[j] == mem.bytes(p + len - 16 + j))
  {
    var w := SelectWindows(p, len);
    assert mem.mapped(p / BLOCK);
    WindowIsMapped(mem, p, w.need);
    Load(mem, w.second, 16)
  }

  /** The first min(len, 16) bytes and, for long keys, the last 16 cover the key. */
  lemma TwoWindowsDecide(mem: Memory, p: nat, len: nat, stored: Bytes, chunk: Bytes, tail: Bytes, r: bool)
    requires ValidView(mem, p, len) && 1 <= len <= 32 && |stored| == 32 && |chunk| == |tail| == 16
    requires forall j: nat | j < 16 :: chunk[j] == if j < len then mem.bytes(p + j) else 0
    requires len >= 16 ==> forall j: nat | j < 16 :: tail[j] == mem.bytes(p + len - 16 + j)
    requires r <==> chunk == stored[..16] && (len >= 16 ==> tail == stored[len - 16..len])
    ensures forall k: Bytes | |k| == len && stored == Padded(k, 32) :: r <==> Load(mem, p, len) == k
  {
    var key := Load(mem, p, len);
    forall k: Bytes | |k| == len && stored == Padded(k, 32) ensures r <==> key == k {
      if r {
        forall j: nat | j < len ensures key[j] == k[j] {
          if j < 16 {
            assert chunk[j] == stored[..16][j] == k[j];
          } else {
            assert tail[j - (len - 16)] == stored[len - 16..len][j - (len - 16)] == k[j];
          }
        }
      }
      if key == k {
        assert chunk == stored[..16];
        assert len >= 16 ==> tail == stored[len - 16..len];
      }
    }
  }

  // ---------------------------------------------------------------- the dispatcher

  /** Copies the key into a zeroed buffer of n bytes. */
  method CopyToBuffer(mem: Memory, p: nat, len: nat, n: nat) returns (buffer: Bytes)
    requires ValidView(mem, p, len) && len <= n
    ensures buffer == Padded(Load(mem, p, len), n)
  {
    buffer := seq<Byte>(n, _ => 0);
    for i := 0 to len
      invariant |buffer| == n
      invariant forall k: nat | k < n :: buffer[k] == if k < i then mem.bytes(p + k) else 0
    {
      buffer := buffer[i := mem.bytes(p + i)];
    }
  }

  /** The bytes the direct compare reads: the memory span itself when it is inside one block, else a copy. */
  function CompareSpan(mem: Memory, p: nat, len: nat, n: nat, fullObject: bool): (span: Bytes)
    requires ValidView(mem, p, len) && 1 <= len <= n <= BLOCK
    ensures |span| == n && span[..len] == Load(mem, p, len)
  {
    if fullObject && p % BLOCK <= BLOCK - n then
      assert mem.mapped(p / BLOCK);
      InsideBlock(mem, p, n);
      Load(mem, p, n)
    else
      Padded(Load(mem, p, len), n)
  }

  /** All chunks of the direct compare agree. */
  predicate ChunksEqual(indexStyle: bool, maxKeyLen: nat, span: Bytes, len: nat, stored: Bytes)
    requires 1 <= maxKeyLen && len <= maxKeyLen
    requires |span| == |stored| == 16 * ChunkCount(maxKeyLen)
  {
    forall i: nat | i < ChunkCount(maxKeyLen) :: ChunkEqual(indexStyle, maxKeyLen, span, len, stored, i)
  }

  lemma ChunksEqualMeans(indexStyle: bool, maxKeyLen: nat, span: Bytes, len: nat, stored: Bytes)
    requires 1 <= maxKeyLen && len <= maxKeyLen
    requires |span| == |stored| == 16 * ChunkCount(maxKeyLen)
    ensures ChunksEqual(indexStyle, maxKeyLen, span, len, stored) <==> Padded(span[..len], |stored|) == stored
  {
    forall i: nat | i < ChunkCount(maxKeyLen)
      ensures ChunkEqual(indexStyle, maxKeyLen, span, len, stored, i)
         <==> forall k: nat | 16 * i <= k < 16 * i + 16 :: ByteAt(span[..len], k) == stored[k]
    {
      ChunkEqualMeans(indexStyle, maxKeyLen, span, len, stored, i);
    }
    if ChunksEqual(indexStyle, maxKeyLen, span, len, stored) {
      forall k: nat | k < |stored| ensures Padded(span[..len], |stored|)[k] == stored[k] {
        assert ChunkEqual(indexStyle, maxKeyLen, span, len, stored, k / 16);
      }
    }
    if Padded(span[..len], |stored|) == stored {
      forall k: nat | k < |stored| ensures ByteAt(span[..len], k) == stored[k] {
        assert Padded(span[..len], |stored|)[k] == stored[k];
      }
    }
  }

  // ---------------------------------------------------------------- plain words

  /** What differs between a chunk and sixteen stored bytes, as words. */
  function Difference(chunk: Bytes, stored: Bytes): (diff: nat)
    requires |chunk| == |stored| == 16
    ensures diff == 0 <==> chunk == stored
  {
    var lo, hi := Xor(LittleEndian(chunk[..8]), LittleEndian(stored[..8])),
      Xor(LittleEndian(chunk[8..]), LittleEndian(stored[8..]));
    WordsDecide(chunk, stored);
    OrOfZeros(lo, hi);
    Or(lo, hi)
  }

  lemma WordsDecide(a: Bytes, b: Bytes)
    requires |a| == |b| == 16
    ensures Xor(LittleEndian(a[..8]), LittleEndian(b[..8])) == 0 && Xor(LittleEndian(a[8..]), LittleEndian(b[8..])) == 0
      <==> a == b
  {
    hide LittleEndian, Xor;
    XorTellsApart(LittleEndian(a[..8]), LittleEndian(b[..8]));
    XorTellsApart(LittleEndian(a[8..]), LittleEndian(b[8..]));
    if LittleEndian(a[..8]) == LittleEndian(b[..8]) && LittleEndian(a[8..]) == LittleEndian(b[8..]) {
      LittleEndianInjective(a[..8], b[..8]);
      LittleEndianInjective(a[8..], b[8..]);
      assert a == a[..8] + a[8..] && b == b[..8] + b[8..];
    }
  }

  /** Chunk i of the key, from memory or from the buffer. */
  function ScalarChunk(mem: Memory, p: nat, len: nat, i: nat, direct: bool, known: Known): (r: Bytes)
    requires ValidView(mem, p, len) && len > 0
    ensures r == Window(Load(mem, p, len), 16 * i, 16)
  {
    if direct then KeyChunk(Scalar, mem, p, len, i, known) else Window(Load(mem, p, len), 16 * i, 16)
  }

  /** The differences of the first n chunks, or-ed. */
  function Differences(mem: Memory, p: nat, len: nat, stored: Bytes, n: nat, direct: bool, known: Known): (diff: nat)
    requires ValidView(mem, p, len) && len > 0 && 16 * n <= |stored|
    ensures diff == 0 <==> Padded(Load(mem, p, len), 16 * n) == stored[..16 * n]
  {
    if n == 0 then 0
    else
      var before := Differences(mem, p, len, stored, n - 1, direct, known);
      var last := Difference(ScalarChunk(mem, p, len, n - 1, direct, known), stored[16 * (n - 1)..16 * n]);
      OrOfZeros(before, last);
      PaddedGrows(Load(mem, p, len), stored, n - 1);
      Or(before, last)
  }

  /** A zero-padded key agrees with a row up to chunk n when it does so up to there and in chunk n. */
  lemma PaddedGrows(key: Bytes, stored: Bytes, n: nat)
    requires 16 * (n + 1) <= |stored|
    ensures Padded(key, 16 * (n + 1)) == stored[..16 * (n + 1)] <==>
      Padded(key, 16 * n) == stored[..16 * n] && Window(key, 16 * n, 16) == stored[16 * n..16 * (n + 1)]
  {
    assert Padded(key, 16 * (n + 1)) == Padded(key, 16 * n) + Window(key, 16 * n, 16);
    assert stored[..16 * (n + 1)] == stored[..16 * n] + stored[16 * n..16 * (n + 1)];
    assert Padded(key, 16 * (n + 1))[..16 * n] == Padded(key, 16 * n);
    assert Padded(key, 16 * (n + 1))[16 * n..] == Window(key, 16 * n, 16);
    assert stored[..16 * (n + 1)][..16 * n] == stored[..16 * n];
    assert stored[..16 * (n + 1)][16 * n..] == stored[16 * n..16 * (n + 1)];
  }

  /** Compare a key of 1 to maxKeyLen bytes with a zero-padded stored row: branch-free for two chunks where a
      byte shuffle exists, directly when the whole span is inside one block, through a zeroed buffer otherwise. */
  function CompareChunks(isa: Isa, maxKeyLen: nat, mem: Memory, p: nat, len: nat, stored: Bytes, known: Known)
    : (r: bool)
    requires ValidView(mem, p, len) && 1 <= len <= maxKeyLen <= 4080
    requires |stored| == 16 * ChunkCount(maxKeyLen)
    ensures forall k: Bytes | |k| == len && stored == Padded(k, |stored|) :: r <==> Load(mem, p, len) == k
  {
    var fullObject := known(p, |stored|);
    if isa.TableLookup? && ChunkCount(maxKeyLen) == 2 && fullObject then
      Compare2Chunks(mem, p, len, stored)
    else if isa.Scalar? then
      PaddedDecides(Load(mem, p, len), stored);
      assert stored[..|stored|] == stored;
      Differences(mem, p, len, stored, ChunkCount(maxKeyLen), fullObject && p % BLOCK <= BLOCK - |stored|, known) == 0
    else
      var span := CompareSpan(mem, p, len, |stored|, fullObject);
      ChunksEqualMeans(isa.TableLookup?, maxKeyLen, span, len, stored);
      PaddedDecides(span[..len], stored);
      ChunksEqual(isa.TableLookup?, maxKeyLen, span, len, stored)
  }

  lemma PaddedDecides(key: Bytes, stored: Bytes)
    ensures forall k: Bytes | |k| == |key| <= |stored| && stored == Padded(k, |stored|) ::
      Padded(key, |stored|) == stored <==> key == k
  {
    forall k: Bytes | |k| == |key| <= |stored| && stored == Padded(k, |stored|) && Padded(key, |stored|) == stored
      ensures key == k {
      PaddedInjective(key, k, |stored|);
    }
  }
}
